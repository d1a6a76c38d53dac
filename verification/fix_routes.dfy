/**
 * backend/fix_routes.py without its file read and write: three rewrites of
 * the text of app.py, applied in order.
 *  1. fix_sql_queries: inside `db.execute("""…"""` and then inside
 *     `db.execute("…"`, every `?` placeholder becomes `%s`.
 *  2. Four redirect targets gain the `/df` prefix.
 *  3. Route decorators gain the `/df` prefix; the same replace is issued a
 *     second time, and a final replace collapses the doubled prefix.
 * Each `re.sub` is modelled as the scan the regular-expression engine
 * performs for that one pattern: at each position it tries a match, and on
 * success it rewrites the match and resumes after it.
 */
module FixRoutes {
  import opened Strings

  const MultiOpen: string := "db.execute(\"\"\""
  const MultiClose: string := "\"\"\""
  const SingleOpen: string := "db.execute(\""
  const SingleClose: string := "\""

  /** A delimiter the placeholder rewrite can neither create nor break: it holds no `?`, `%` or `s`. */
  predicate Inert(d: string) {
    '?' !in d && '%' !in d && 's' !in d
  }

  // ----- The first closing delimiter -----

  /** close does not start anywhere in body + close before the end of body. */
  predicate NoEarlyClose(body: string, close: string)
    decreases |body|
  {
    body == [] || (!IsPrefix(close, body + close) && NoEarlyClose(body[1..], close))
  }

  /** The text up to the first close, and the text after that close. */
  function SplitAtClose(t: string, close: string): (parts: (string, string))
    requires close != [] && Occurs(t, close)
    ensures t == parts.0 + close + parts.1
    decreases |t|
  {
    if IsPrefix(close, t) then ([], t[|close|..])
    else
      var parts := SplitAtClose(t[1..], close);
      ([t[0]] + parts.0, parts.1)
  }

  /** The split is at the first close: the body holds no earlier one. */
  lemma {:induction false} SplitAtCloseFirst(t: string, close: string)
    requires close != [] && Occurs(t, close)
    ensures NoEarlyClose(SplitAtClose(t, close).0, close)
    decreases |t|
  {
    if !IsPrefix(close, t) {
      var (body, rest) := SplitAtClose(t[1..], close);
      SplitAtCloseFirst(t[1..], close);
      var b := [t[0]] + body;
      assert SplitAtClose(t, close).0 == b;
      assert t[1..] == (body + close) + rest;
      assert t == [t[0]] + t[1..];
      SeqAssoc([t[0]], body + close, rest);
      SeqAssoc([t[0]], body, close);
      PrefixOfConcat(close, b + close, rest);
      assert !IsPrefix(close, b + close);
      assert b[1..] == body;
    }
  }

  /** Conversely, a body without an early close is exactly what the split finds. */
  lemma {:induction false} SplitAtCloseOf(body: string, close: string, rest: string)
    requires close != [] && NoEarlyClose(body, close)
    ensures Occurs(body + close + rest, close)
    ensures SplitAtClose(body + close + rest, close) == (body, rest)
    decreases |body|
  {
    var t := body + close + rest;
    if body == [] {
      assert t == close + rest;
      PrefixOfSelf(close, rest);
    } else {
      var t' := body[1..] + close + rest;
      assert t == (body + close) + rest;
      PrefixOfConcat(close, body + close, rest);
      assert !IsPrefix(close, t);
      assert t[1..] == t';
      SplitAtCloseOf(body[1..], close, rest);
      assert SplitAtClose(t, close) == ([t[0]] + body[1..], rest);
      assert [body[0]] + body[1..] == body;
    }
  }

  // ----- One re.sub pass -----

  /** A match of `open (body) close` starts at the front of s. */
  predicate SegmentAt(s: string, open: string, close: string)
    requires close != []
  {
    IsPrefix(open, s) && Occurs(s[|open|..], close)
  }

  /**
   * `re.sub(open + "(body)" + close, …)` where the body is the text up to the
   * first close after open (the lazy `.*?` of the first pattern under DOTALL,
   * and the `[^"]*` of the second, which is stopped by the first quote):
   * each match becomes open + body with `?` replaced by `%s` + close.
   * Where open starts but no close follows there is no match.
   */
  function FixSegments(s: string, open: string, close: string): string
    requires open != [] && close != []
    decreases |s|
  {
    if s == [] then []
    else if SegmentAt(s, open, close) then
      var parts := SplitAtClose(s[|open|..], close);
      open + Replace(parts.0, "?", "%s") + close + FixSegments(parts.1, open, close)
    else [s[0]] + FixSegments(s[1..], open, close)
  }

  /** Every match that FixSegments would rewrite already has a body without `?`. */
  predicate Clean(s: string, open: string, close: string)
    requires open != [] && close != []
    decreases |s|
  {
    if s == [] then true
    else if SegmentAt(s, open, close) then
      var parts := SplitAtClose(s[|open|..], close);
      '?' !in parts.0 && Clean(parts.1, open, close)
    else Clean(s[1..], open, close)
  }

  // ----- Placeholder refinement -----

  /** t is s with some of its `?` turned into `%s` and nothing else changed. */
  predicate Refines(t: string, s: string)
    decreases |s|
  {
    if s == [] then t == []
    else if s[0] == '?' then
      || (IsPrefix("%s", t) && Refines(t[2..], s[1..]))
      || (t != [] && t[0] == '?' && Refines(t[1..], s[1..]))
    else t != [] && t[0] == s[0] && Refines(t[1..], s[1..])
  }

  lemma {:induction false} RefinesReflexive(s: string)
    ensures Refines(s, s)
    decreases |s|
  {
    if s != [] {
      RefinesReflexive(s[1..]);
    }
  }

  lemma {:induction false} RefinesAppend(t1: string, s1: string, t2: string, s2: string)
    requires Refines(t1, s1) && Refines(t2, s2)
    ensures Refines(t1 + t2, s1 + s2)
    decreases |s1|
  {
    if s1 == [] {
      assert t1 + t2 == t2 && s1 + s2 == s2;
    } else {
      assert (s1 + s2)[0] == s1[0] && (s1 + s2)[1..] == s1[1..] + s2;
      if s1[0] == '?' && IsPrefix("%s", t1) && Refines(t1[2..], s1[1..]) {
        RefinesAppend(t1[2..], s1[1..], t2, s2);
        assert (t1 + t2)[2..] == t1[2..] + t2;
        assert (t1 + t2)[..2] == t1[..2];
      } else {
        RefinesAppend(t1[1..], s1[1..], t2, s2);
        assert (t1 + t2)[1..] == t1[1..] + t2;
      }
    }
  }

  /** Replacing every `?` by `%s` is a refinement. */
  lemma {:induction false} ReplaceRefines(s: string)
    ensures Refines(Replace(s, "?", "%s"), s)
    decreases |s|
  {
    if s != [] {
      ReplaceRefines(s[1..]);
      var t := Replace(s, "?", "%s");
      assert IsPrefix("?", s) <==> s[0] == '?';
      if s[0] == '?' {
        assert s[|"?"|..] == s[1..];
        assert t[2..] == Replace(s[1..], "?", "%s");
      } else {
        assert t[1..] == Replace(s[1..], "?", "%s");
      }
    }
  }

  /** A refinement of s1 + s2 is a refinement of s1 followed by one of s2. */
  lemma {:induction false} RefinesSplit(t: string, s1: string, s2: string) returns (t1: string, t2: string)
    requires Refines(t, s1 + s2)
    ensures t == t1 + t2 && Refines(t1, s1) && Refines(t2, s2)
    decreases |s1|
  {
    if s1 == [] {
      assert s1 + s2 == s2;
      t1, t2 := [], t;
    } else {
      var s := s1 + s2;
      assert s[0] == s1[0] && s[1..] == s1[1..] + s2;
      if s1[0] == '?' && IsPrefix("%s", t) && Refines(t[2..], s[1..]) {
        var u1, u2 := RefinesSplit(t[2..], s1[1..], s2);
        t1, t2 := t[..2] + u1, u2;
        assert t == t[..2] + t[2..];
        assert t1[2..] == u1;
      } else {
        var u1, u2 := RefinesSplit(t[1..], s1[1..], s2);
        t1, t2 := [t[0]] + u1, u2;
        assert t == [t[0]] + t[1..];
        assert t1[1..] == u1;
      }
    }
  }

  /** Text without `?` has no other refinement than itself. */
  lemma {:induction false} RefinesNoQuestionMark(t: string, s: string)
    requires Refines(t, s) && '?' !in s
    ensures t == s
    decreases |s|
  {
    if s != [] {
      RefinesNoQuestionMark(t[1..], s[1..]);
      assert t == [t[0]] + t[1..] && s == [s[0]] + s[1..];
    }
  }

  /** An inert piece of text starts a refinement exactly when it starts the original. */
  lemma {:induction false} RefinesPrefix(t: string, s: string, p: string)
    requires Refines(t, s) && Inert(p)
    ensures IsPrefix(p, t) <==> IsPrefix(p, s)
    ensures IsPrefix(p, s) ==> Refines(t[|p|..], s[|p|..])
    decreases |p|
  {
    if p != [] && s != [] && s[0] != '?' {
      RefinesPrefix(t[1..], s[1..], p[1..]);
      assert IsPrefix(p, t) <==> p[0] == t[0] && IsPrefix(p[1..], t[1..]);
      assert IsPrefix(p, s) <==> p[0] == s[0] && IsPrefix(p[1..], s[1..]);
      if IsPrefix(p, s) {
        assert t[1..][|p| - 1..] == t[|p|..];
        assert s[1..][|p| - 1..] == s[|p|..];
      }
    } else if p != [] && s != [] {
      assert p[0] != '?' && p[0] != '%';
    }
  }

  /** An inert piece of text occurs in a refinement exactly when it occurs in the original. */
  lemma {:induction false} RefinesOccurs(t: string, s: string, p: string)
    requires Refines(t, s) && Inert(p) && p != []
    ensures Occurs(t, p) <==> Occurs(s, p)
    decreases |s|
  {
    if s != [] {
      RefinesPrefix(t, s, p);
      if s[0] == '?' && IsPrefix("%s", t) && Refines(t[2..], s[1..]) {
        RefinesOccurs(t[2..], s[1..], p);
        assert t[1..][0] == 's';
        assert !IsPrefix(p, t[1..]);
        assert t[1..][1..] == t[2..];
      } else {
        RefinesOccurs(t[1..], s[1..], p);
      }
    }
  }

  /** Refining a body keeps it free of an early inert close. */
  lemma {:induction false} RefinesNoEarlyClose(t: string, body: string, close: string)
    requires Refines(t, body) && Inert(close) && close != []
    requires NoEarlyClose(body, close)
    ensures NoEarlyClose(t, close)
    decreases |body|
  {
    if body != [] {
      RefinesReflexive(close);
      RefinesAppend(t, body, close, close);
      RefinesPrefix(t + close, body + close, close);
      if body[0] == '?' && IsPrefix("%s", t) && Refines(t[2..], body[1..]) {
        RefinesNoEarlyClose(t[2..], body[1..], close);
        var t1 := t[1..];
        assert t1 + close == (t + close)[1..];
        assert t1[0] == 's';
        assert !IsPrefix(close, t1 + close);
        assert t1[1..] == t[2..];
      } else {
        RefinesNoEarlyClose(t[1..], body[1..], close);
      }
    }
  }

  /** If s has no match at its front, neither has a refinement of it. */
  lemma NoSegmentKept(t: string, s: string, open: string, close: string)
    requires Refines(t, s) && Inert(open) && Inert(close) && close != []
    requires !SegmentAt(s, open, close)
    ensures !SegmentAt(t, open, close)
  {
    RefinesPrefix(t, s, open);
    if IsPrefix(open, s) {
      RefinesOccurs(t[|open|..], s[|open|..], close);
    }
  }

  // ----- Properties of one pass -----

  /** A pass leaves clean text as it is. */
  lemma {:induction false} CleanFixed(s: string, open: string, close: string)
    requires open != [] && close != []
    requires Clean(s, open, close)
    ensures FixSegments(s, open, close) == s
    decreases |s|
  {
    if s != [] {
      if SegmentAt(s, open, close) {
        var parts := SplitAtClose(s[|open|..], close);
        CleanFixed(parts.1, open, close);
        OccursChar(parts.0, '?');
        ReplaceAbsent(parts.0, "?", "%s");
        SegmentParts(s, open, close);
      } else {
        CleanFixed(s[1..], open, close);
        assert s == [s[0]] + s[1..];
      }
    }
  }

  /** A match at the front of s is open, its body, close and the rest. */
  lemma SegmentParts(s: string, open: string, close: string)
    requires open != [] && close != [] && SegmentAt(s, open, close)
    ensures s == open + SplitAtClose(s[|open|..], close).0 + close + SplitAtClose(s[|open|..], close).1
  {
    var tail := s[|open|..];
    var parts := SplitAtClose(tail, close);
    assert s == s[..|open|] + tail;
    assert s[..|open|] == open;
    var body, rest := parts.0, parts.1;
    assert tail == (body + close) + rest;
    SeqAssoc(open, body + close, rest);
    SeqAssoc(open, body, close);
  }

  /** A rewritten match refines the original one. */
  lemma RefinesSegment(open: string, body: string, close: string, t: string, rest: string)
    requires Refines(t, rest)
    ensures Refines(open + Replace(body, "?", "%s") + close + t, open + body + close + rest)
  {
    var fixed := Replace(body, "?", "%s");
    RefinesReflexive(open);
    RefinesReflexive(close);
    ReplaceRefines(body);
    RefinesAppend(open, open, fixed, body);
    RefinesAppend(open + fixed, open + body, close, close);
    RefinesAppend(open + fixed + close, open + body + close, t, rest);
  }

  /** A pass only turns `?` into `%s`. */
  lemma {:induction false} FixRefines(s: string, open: string, close: string)
    requires open != [] && close != []
    ensures Refines(FixSegments(s, open, close), s)
    decreases |s|
  {
    if s != [] {
      if SegmentAt(s, open, close) {
        var parts := SplitAtClose(s[|open|..], close);
        FixRefines(parts.1, open, close);
        SegmentParts(s, open, close);
        RefinesSegment(open, parts.0, close, FixSegments(parts.1, open, close), parts.1);
      } else {
        var tail := FixSegments(s[1..], open, close);
        FixRefines(s[1..], open, close);
        RefinesReflexive([s[0]]);
        RefinesAppend([s[0]], [s[0]], tail, s[1..]);
        assert s == [s[0]] + s[1..];
      }
    }
  }

  /** A match whose body holds no `?`, followed by clean text, is clean. */
  lemma CleanMatch(open: string, body: string, close: string, t: string)
    requires open != [] && close != []
    requires NoEarlyClose(body, close) && '?' !in body && Clean(t, open, close)
    ensures Clean(open + body + close + t, open, close)
  {
    var tail := body + close + t;
    var out := open + tail;
    SplitAtCloseOf(body, close, t);
    PrefixOfSelf(open, tail);
    assert SegmentAt(out, open, close);
    assert open + body + close + t == out;
  }


  /** A match whose body has been rewritten, followed by clean text, is clean. */
  lemma CleanSegment(open: string, body: string, close: string, t: string)
    requires open != [] && close != [] && Inert(close)
    requires NoEarlyClose(body, close) && Clean(t, open, close)
    ensures Clean(open + Replace(body, "?", "%s") + close + t, open, close)
  {
    var fixed := Replace(body, "?", "%s");
    ReplaceRefines(body);
    RefinesNoEarlyClose(fixed, body, close);
    ReplaceOneChar(body, '?', "%s");
    SubstCharRemoves(body, '?', "%s");
    CleanMatch(open, fixed, close, t);
  }

  /** After a pass no match holds a `?`. */
  lemma {:induction false} FixIsClean(s: string, open: string, close: string)
    requires open != [] && close != [] && Inert(open) && Inert(close)
    ensures Clean(FixSegments(s, open, close), open, close)
    decreases |s|
  {
    if s != [] {
      if SegmentAt(s, open, close) {
        var parts := SplitAtClose(s[|open|..], close);
        FixIsClean(parts.1, open, close);
        SplitAtCloseFirst(s[|open|..], close);
        CleanSegment(open, parts.0, close, FixSegments(parts.1, open, close));
      } else {
        var out := FixSegments(s, open, close);
        FixIsClean(s[1..], open, close);
        FixRefines(s, open, close);
        NoSegmentKept(out, s, open, close);
        assert out[1..] == FixSegments(s[1..], open, close);
      }
    }
  }

  /** Refining clean text keeps it clean. */
  lemma {:induction false} RefinesClean(t: string, s: string, open: string, close: string)
    requires open != [] && close != [] && Inert(open) && Inert(close)
    requires Refines(t, s) && Clean(s, open, close)
    ensures Clean(t, open, close)
    decreases |s|
  {
    if s == [] {
    } else if SegmentAt(s, open, close) {
      var parts := SplitAtClose(s[|open|..], close);
      SegmentParts(s, open, close);
      var t1, t2 := RefinesSplit(t, open + parts.0 + close, parts.1);
      RefinesNoQuestionMark(t1, open + parts.0 + close);
      RefinesClean(t2, parts.1, open, close);
      SplitAtCloseFirst(s[|open|..], close);
      CleanMatch(open, parts.0, close, t2);
    } else {
      NoSegmentKept(t, s, open, close);
      if s[0] == '?' && IsPrefix("%s", t) && Refines(t[2..], s[1..]) {
        RefinesClean(t[2..], s[1..], open, close);
        var t1 := t[1..];
        assert t1[0] == 's' && t1[1..] == t[2..];
        assert !IsPrefix(open, t1);
        assert Clean(t1, open, close);
      } else {
        RefinesClean(t[1..], s[1..], open, close);
      }
    }
  }

  /** With no close after it, nothing in front of t that is no longer than open starts a match. */
  lemma NoSegmentBeforeClose(x: string, t: string, open: string, close: string)
    requires close != [] && |x| <= |open| && !Occurs(t, close)
    ensures !SegmentAt(x + t, open, close)
  {
    var s := x + t;
    if |open| <= |s| {
      assert s[|open|..] == t[|open| - |x|..];
      if Occurs(t[|open| - |x|..], close) {
        OccursSuffix(t, |open| - |x|, close);
      }
    }
  }

  /** No close anywhere after the front piece x (no longer than open) means no match, so no change. */
  lemma {:induction false} FixWithoutClose(x: string, t: string, open: string, close: string)
    requires open != [] && close != []
    requires |x| <= |open| && !Occurs(t, close)
    ensures FixSegments(x + t, open, close) == x + t
    decreases |x| + |t|
  {
    var s := x + t;
    if s != [] {
      NoSegmentBeforeClose(x, t, open, close);
      if x != [] {
        FixWithoutClose(x[1..], t, open, close);
        assert s[1..] == x[1..] + t;
        assert s == [s[0]] + s[1..];
      } else {
        FixWithoutClose([], t[1..], open, close);
        assert s == t && [] + t[1..] == t[1..];
        assert s == [s[0]] + s[1..];
      }
    }
  }

  /** An opening delimiter with no close after it is left as it is, with all that follows. */
  lemma Unterminated(s: string, open: string, close: string)
    requires open != [] && close != []
    requires IsPrefix(open, s) && !Occurs(s[|open|..], close)
    ensures FixSegments(s, open, close) == s
  {
    FixWithoutClose(open, s[|open|..], open, close);
    assert open + s[|open|..] == s;
  }

  // ----- fix_sql_queries -----

  /**
   * Text that cannot start a match is copied as it is: a pass changes
   * nothing before the first character that could open a match.
   */
  lemma {:induction false} FixSkipsPlain(u: string, y: string, open: string, close: string)
    requires open != [] && close != [] && open[0] !in u
    ensures FixSegments(u + y, open, close) == u + FixSegments(y, open, close)
    decreases |u|
  {
    if u != [] {
      var s := u + y;
      assert s[0] == u[0] && s[1..] == u[1..] + y;
      assert !IsPrefix(open, s);
      FixSkipsPlain(u[1..], y, open, close);
      SeqAssoc([u[0]], u[1..], FixSegments(y, open, close));
      assert [u[0]] + u[1..] == u;
    } else {
      assert u + y == y;
    }
  }

  /** A match is rewritten in its body alone, and the pass carries on after its close. */
  lemma FixAtMatch(open: string, body: string, close: string, rest: string)
    requires open != [] && close != [] && NoEarlyClose(body, close)
    ensures FixSegments(open + body + close + rest, open, close)
         == open + Replace(body, "?", "%s") + close + FixSegments(rest, open, close)
  {
    var tail := body + close + rest;
    var s := open + tail;
    SplitAtCloseOf(body, close, rest);
    PrefixOfSelf(open, tail);
    assert SegmentAt(s, open, close);
    assert SplitAtClose(s[|open|..], close) == (body, rest);
    SeqAssoc(open, body + close, rest);
    SeqAssoc(open, body, close);
  }

  /** fix_sql_queries: the triple-quoted pass, then the single-quoted pass. */
  function FixSqlQueries(text: string): string {
    FixSegments(FixSegments(text, MultiOpen, MultiClose), SingleOpen, SingleClose)
  }

  /** After fix_sql_queries no match of either pattern holds a `?`. */
  lemma FixSqlQueriesClean(text: string)
    ensures Clean(FixSqlQueries(text), MultiOpen, MultiClose)
    ensures Clean(FixSqlQueries(text), SingleOpen, SingleClose)
  {
    var u := FixSegments(text, MultiOpen, MultiClose);
    var v := FixSegments(u, SingleOpen, SingleClose);
    FixIsClean(text, MultiOpen, MultiClose);
    FixRefines(u, SingleOpen, SingleClose);
    RefinesClean(v, u, MultiOpen, MultiClose);
    FixIsClean(u, SingleOpen, SingleClose);
  }

  /** fix_sql_queries only turns `?` into `%s`, so text without `?` comes back unchanged. */
  lemma FixSqlQueriesRefines(text: string)
    ensures Refines(FixSqlQueries(text), text)
    ensures '?' !in text ==> FixSqlQueries(text) == text
  {
    var u := FixSegments(text, MultiOpen, MultiClose);
    var v := FixSegments(u, SingleOpen, SingleClose);
    FixRefines(u, SingleOpen, SingleClose);
    FixRefines(text, MultiOpen, MultiClose);
    RefinesTransitive(v, u, text);
    if '?' !in text {
      RefinesNoQuestionMark(v, text);
    }
  }

  lemma {:induction false} RefinesTransitive(a: string, b: string, c: string)
    requires Refines(a, b) && Refines(b, c)
    ensures Refines(a, c)
    decreases |c|
  {
    if c != [] {
      if c[0] == '?' && IsPrefix("%s", b) && Refines(b[2..], c[1..]) {
        // b starts with "%s", which a must copy character by character.
        assert a[0] == '%' && a[1..][0] == 's';
        assert a[1..][1..] == a[2..] && b[1..][1..] == b[2..];
        RefinesTransitive(a[2..], b[2..], c[1..]);
        assert a[..2] == "%s";
      } else if c[0] == '?' {
        if IsPrefix("%s", a) && Refines(a[2..], b[1..]) {
          RefinesTransitive(a[2..], b[1..], c[1..]);
        } else {
          RefinesTransitive(a[1..], b[1..], c[1..]);
        }
      } else {
        RefinesTransitive(a[1..], b[1..], c[1..]);
      }
    }
  }

  /** Running fix_sql_queries a second time changes nothing. */
  lemma FixSqlQueriesIdempotent(text: string)
    ensures FixSqlQueries(FixSqlQueries(text)) == FixSqlQueries(text)
  {
    var v := FixSqlQueries(text);
    FixSqlQueriesClean(text);
    CleanFixed(v, MultiOpen, MultiClose);
    CleanFixed(v, SingleOpen, SingleClose);
  }

  /** fix_sql_queries keeps, verbatim, code in front of the first `d` (as in `db.execute`). */
  lemma FixSqlQueriesKeepsCode(u: string, y: string)
    requires 'd' !in u
    ensures FixSqlQueries(u + y) == u + FixSqlQueries(y)
  {
    assert MultiOpen[0] == 'd' && SingleOpen[0] == 'd';
    FixSkipsPlain(u, y, MultiOpen, MultiClose);
    FixSkipsPlain(u, FixSegments(y, MultiOpen, MultiClose), SingleOpen, SingleClose);
  }

  /**
   * A `?` in code survives while the `?` of the query after it becomes
   * `%s`: fix_sql_queries is not a blanket replace.
   */
  lemma CodeMarkKeptQueryMarkFixed()
    ensures FixSqlQueries("a ? " + SingleOpen + "?" + SingleClose) == "a ? " + SingleOpen + "%s" + SingleClose
  {
    var code := "a ? ";
    var call := SingleOpen + "?" + SingleClose;
    var fixed := SingleOpen + "%s" + SingleClose;
    FixSqlQueriesKeepsCode(code, call);
    assert call + [] == call;
    FixWithoutClose(call, [], MultiOpen, MultiClose);
    assert FixSegments(call, MultiOpen, MultiClose) == call;
    assert NoEarlyClose("?", SingleClose) by {
      assert "?"[1..] == [];
      assert !IsPrefix(SingleClose, "?" + SingleClose);
    }
    FixAtMatch(SingleOpen, "?", SingleClose, []);
    ReplaceWhole("?", "%s");
    assert FixSegments([], SingleOpen, SingleClose) == [];
    assert FixSegments(call, SingleOpen, SingleClose) == fixed + [];
    assert fixed + [] == fixed;
    assert FixSqlQueries(call) == fixed;
    SeqAssoc(code, SingleOpen + "%s", SingleClose);
    SeqAssoc(code, SingleOpen, "%s");
    SeqAssoc(code, SingleOpen + "?", SingleClose);
    SeqAssoc(code, SingleOpen, "?");
  }

  // ----- Redirects -----

  /** What every redirect target starts with. */
  const RedirectStem: string := "redirect(\"/"
  const RedirectRoot: string := RedirectStem + "\")"
  const RedirectRootNew: string := RedirectStem + "df/\")"
  const RedirectAdmin: string := RedirectStem + "admin"
  const RedirectAdminNew: string := RedirectStem + "df/admin"
  const RedirectLogin: string := RedirectStem + "login\")"
  const RedirectLoginNew: string := RedirectStem + "df/login\")"
  const RedirectUpload: string := RedirectStem + "upload\")"
  const RedirectUploadNew: string := RedirectStem + "df/upload\")"

  /** The four redirect replaces, in order. */
  function FixRedirects(content: string): string {
    var c1 := Replace(content, RedirectRoot, RedirectRootNew);
    var c2 := Replace(c1, RedirectAdmin, RedirectAdminNew);
    var c3 := Replace(c2, RedirectLogin, RedirectLoginNew);
    Replace(c3, RedirectUpload, RedirectUploadNew)
  }

  // An old redirect target cannot be created by inserting the new target
  // it was replaced by or a later one: each such pair is insulated, since
  // all of them share a stem and their tails differ at once.

  /** No proper suffix of the stem is compatible with the stem. */
  lemma RedirectStemBorder()
    ensures NoSuffixCompatible(RedirectStem[1..], RedirectStem)
  {
    var tail := "ect(\"/";
    assert RedirectStem[1..] == "edi" + ("r" + tail);
    NoSuffixCompatibleByHead(tail, RedirectStem);
    DifferAt("r" + tail, RedirectStem, 2);
    assert ("r" + tail)[1..] == tail;
    NoSuffixCompatiblePrepend("edi", "r" + tail, RedirectStem);
  }


  lemma RootInsulatedFromRootNew()
    ensures Insulated(RedirectRoot, RedirectRootNew)
  {
    RedirectStemBorder();
    InsulatedAfterStem(RedirectStem, "\")", "df/\")");
  }

  lemma RootInsulatedFromAdminNew()
    ensures Insulated(RedirectRoot, RedirectAdminNew)
  {
    RedirectStemBorder();
    InsulatedAfterStem(RedirectStem, "\")", "df/admin");
  }

  lemma RootInsulatedFromLoginNew()
    ensures Insulated(RedirectRoot, RedirectLoginNew)
  {
    RedirectStemBorder();
    InsulatedAfterStem(RedirectStem, "\")", "df/login\")");
  }

  lemma RootInsulatedFromUploadNew()
    ensures Insulated(RedirectRoot, RedirectUploadNew)
  {
    RedirectStemBorder();
    InsulatedAfterStem(RedirectStem, "\")", "df/upload\")");
  }

  lemma AdminInsulatedFromAdminNew()
    ensures Insulated(RedirectAdmin, RedirectAdminNew)
  {
    RedirectStemBorder();
    InsulatedAfterStem(RedirectStem, "admin", "df/admin");
  }

  lemma AdminInsulatedFromLoginNew()
    ensures Insulated(RedirectAdmin, RedirectLoginNew)
  {
    RedirectStemBorder();
    InsulatedAfterStem(RedirectStem, "admin", "df/login\")");
  }

  lemma AdminInsulatedFromUploadNew()
    ensures Insulated(RedirectAdmin, RedirectUploadNew)
  {
    RedirectStemBorder();
    InsulatedAfterStem(RedirectStem, "admin", "df/upload\")");
  }

  lemma LoginInsulatedFromLoginNew()
    ensures Insulated(RedirectLogin, RedirectLoginNew)
  {
    RedirectStemBorder();
    InsulatedAfterStem(RedirectStem, "login\")", "df/login\")");
  }

  lemma LoginInsulatedFromUploadNew()
    ensures Insulated(RedirectLogin, RedirectUploadNew)
  {
    RedirectStemBorder();
    InsulatedAfterStem(RedirectStem, "login\")", "df/upload\")");
  }

  lemma UploadInsulatedFromUploadNew()
    ensures Insulated(RedirectUpload, RedirectUploadNew)
  {
    RedirectStemBorder();
    InsulatedAfterStem(RedirectStem, "upload\")", "df/upload\")");
  }

  /** A redirect target does not occur in another whose tail starts differently. */
  lemma RedirectApart(t: string, u: string)
    requires t != [] && u != [] && t[0] != u[0] && 'r' !in t
    ensures !Occurs(RedirectStem + t, RedirectStem + u)
  {
    RedirectStemBorder();
    StemTargetsApart(RedirectStem, t, u);
  }

  /** The replace of a target, on that target alone, gives its new form. */
  lemma ReplaceWhole(p: string, r: string)
    requires p != []
    ensures Replace(p, p, r) == r
  {
    assert p + [] == p;
    ReplaceAtFront(p, [], r);
    assert r + [] == r;
  }

  /** Each of the four redirect targets gains the `/df` prefix. */
  lemma RedirectRootGainsPrefix()
    ensures FixRedirects(RedirectRoot) == RedirectRootNew
  {
    ReplaceWhole(RedirectRoot, RedirectRootNew);
    RedirectApart("df/\")", "admin");
    RedirectApart("df/\")", "login\")");
    RedirectApart("df/\")", "upload\")");
    ReplaceAbsent(RedirectRootNew, RedirectAdmin, RedirectAdminNew);
    ReplaceAbsent(RedirectRootNew, RedirectLogin, RedirectLoginNew);
    ReplaceAbsent(RedirectRootNew, RedirectUpload, RedirectUploadNew);
  }

  lemma RedirectAdminGainsPrefix()
    ensures FixRedirects(RedirectAdmin) == RedirectAdminNew
  {
    RedirectApart("admin", "\")");
    ReplaceAbsent(RedirectAdmin, RedirectRoot, RedirectRootNew);
    ReplaceWhole(RedirectAdmin, RedirectAdminNew);
    RedirectApart("df/admin", "login\")");
    RedirectApart("df/admin", "upload\")");
    ReplaceAbsent(RedirectAdminNew, RedirectLogin, RedirectLoginNew);
    ReplaceAbsent(RedirectAdminNew, RedirectUpload, RedirectUploadNew);
  }

  lemma RedirectLoginGainsPrefix()
    ensures FixRedirects(RedirectLogin) == RedirectLoginNew
  {
    RedirectApart("login\")", "\")");
    RedirectApart("login\")", "admin");
    ReplaceAbsent(RedirectLogin, RedirectRoot, RedirectRootNew);
    ReplaceAbsent(RedirectLogin, RedirectAdmin, RedirectAdminNew);
    ReplaceWhole(RedirectLogin, RedirectLoginNew);
    RedirectApart("df/login\")", "upload\")");
    ReplaceAbsent(RedirectLoginNew, RedirectUpload, RedirectUploadNew);
  }

  lemma RedirectUploadGainsPrefix()
    ensures FixRedirects(RedirectUpload) == RedirectUploadNew
  {
    RedirectApart("upload\")", "\")");
    RedirectApart("upload\")", "admin");
    RedirectApart("upload\")", "login\")");
    ReplaceAbsent(RedirectUpload, RedirectRoot, RedirectRootNew);
    ReplaceAbsent(RedirectUpload, RedirectAdmin, RedirectAdminNew);
    ReplaceAbsent(RedirectUpload, RedirectLogin, RedirectLoginNew);
    ReplaceWhole(RedirectUpload, RedirectUploadNew);
  }

  /** None of the four old redirect targets survives the rewrite. */
  lemma RedirectsLeaveNoOldTarget(content: string)
    ensures !Occurs(FixRedirects(content), RedirectRoot)
    ensures !Occurs(FixRedirects(content), RedirectAdmin)
    ensures !Occurs(FixRedirects(content), RedirectLogin)
    ensures !Occurs(FixRedirects(content), RedirectUpload)
  {
    var c1 := Replace(content, RedirectRoot, RedirectRootNew);
    var c2 := Replace(c1, RedirectAdmin, RedirectAdminNew);
    var c3 := Replace(c2, RedirectLogin, RedirectLoginNew);
    RootInsulatedFromRootNew();
    RootInsulatedFromAdminNew();
    RootInsulatedFromLoginNew();
    RootInsulatedFromUploadNew();
    AdminInsulatedFromAdminNew();
    AdminInsulatedFromLoginNew();
    AdminInsulatedFromUploadNew();
    LoginInsulatedFromLoginNew();
    LoginInsulatedFromUploadNew();
    UploadInsulatedFromUploadNew();
    ReplaceAvoids(content, RedirectRoot, RedirectRootNew, RedirectRoot);
    ReplaceAvoids(c1, RedirectAdmin, RedirectAdminNew, RedirectRoot);
    ReplaceAvoids(c1, RedirectAdmin, RedirectAdminNew, RedirectAdmin);
    ReplaceAvoids(c2, RedirectLogin, RedirectLoginNew, RedirectRoot);
    ReplaceAvoids(c2, RedirectLogin, RedirectLoginNew, RedirectAdmin);
    ReplaceAvoids(c2, RedirectLogin, RedirectLoginNew, RedirectLogin);
    ReplaceAvoids(c3, RedirectUpload, RedirectUploadNew, RedirectRoot);
    ReplaceAvoids(c3, RedirectUpload, RedirectUploadNew, RedirectAdmin);
    ReplaceAvoids(c3, RedirectUpload, RedirectUploadNew, RedirectLogin);
    ReplaceAvoids(c3, RedirectUpload, RedirectUploadNew, RedirectUpload);
  }

  /** Running the redirect rewrite a second time changes nothing. */
  lemma FixRedirectsIdempotent(content: string)
    ensures FixRedirects(FixRedirects(content)) == FixRedirects(content)
  {
    var c := FixRedirects(content);
    RedirectsLeaveNoOldTarget(content);
    ReplaceAbsent(c, RedirectRoot, RedirectRootNew);
    ReplaceAbsent(c, RedirectAdmin, RedirectAdminNew);
    ReplaceAbsent(c, RedirectLogin, RedirectLoginNew);
    ReplaceAbsent(c, RedirectUpload, RedirectUploadNew);
  }

  // ----- Route decorators -----

  const RouteOld: string := "@app.route(\"/"
  const RouteNew: string := RouteOld + "df/"
  const RouteDoubled: string := RouteNew + "df/"

  /**
   * The decorator replace issued twice (`'@app.route(\"/'` in the source is
   * the same literal as `'@app.route("/'`), then the doubled prefix collapsed.
   */
  function FixRouteDecorators(content: string): string {
    var once := Replace(content, RouteOld, RouteNew);
    var twice := Replace(once, RouteOld, RouteNew);
    Replace(twice, RouteDoubled, RouteNew)
  }

  lemma RouteOldInsulated()
    ensures NoSuffixCompatible(RouteOld[1..], RouteNew)
  {
    NoSuffixCompatibleByHead(RouteOld[1..], RouteNew);
  }

  lemma RouteDoubledInsulated()
    ensures NoSuffixCompatible(RouteDoubled[1..], RouteDoubled)
  {
    NoSuffixCompatibleByHead(RouteDoubled[1..], RouteDoubled);
  }

  /** A decorator the first pass rewrote gains a second `df/` from the second pass. */
  lemma SecondReplaceAtDecorator(x: string)
    ensures Replace(RouteNew + x, RouteOld, RouteNew) == RouteDoubled + Replace(x, RouteOld, RouteNew)
  {
    RouteConstants();
    ReplaceAtFrontSkip(RouteOld, "df/", x, RouteNew);
  }

  /** Replacing again after the first replace doubles each new prefix. */
  lemma {:induction false} SecondReplaceDoubles(s: string)
    ensures Replace(Replace(s, RouteOld, RouteNew), RouteOld, RouteNew) == Replace(s, RouteOld, RouteDoubled)
    decreases |s|
  {
    if s != [] {
      if IsPrefix(RouteOld, s) {
        SecondReplaceDoubles(s[|RouteOld|..]);
        SecondReplaceAtDecorator(Replace(s[|RouteOld|..], RouteOld, RouteNew));
      } else {
        RouteOldInsulated();
        assert [s[0]] + s[1..] == s;
        ReplaceKeepsNoPrefix([s[0]], s[1..], RouteOld, RouteNew, RouteOld);
        SecondReplaceDoubles(s[1..]);
        assert ([s[0]] + Replace(s[1..], RouteOld, RouteNew))[1..] == Replace(s[1..], RouteOld, RouteNew);
      }
    }
  }

  /** A text that starts with the doubled decorator starts with the old one. */
  lemma DoubledStartsOld(s: string)
    ensures IsPrefix(RouteDoubled, s) ==> IsPrefix(RouteOld, s)
  {
    RouteConstants();
    PrefixOfPrefix(RouteNew, "df/", s);
    PrefixOfPrefix(RouteOld, "df/", s);
  }

  /** Collapsing the doubled prefix undoes the doubling. */
  lemma {:induction false} CollapseUndoesDoubling(s: string)
    ensures Replace(Replace(s, RouteOld, RouteDoubled), RouteDoubled, RouteNew) == Replace(s, RouteOld, RouteNew)
    decreases |s|
  {
    if s != [] {
      if IsPrefix(RouteOld, s) {
        var s' := s[|RouteOld|..];
        CollapseUndoesDoubling(s');
        var x := Replace(s', RouteOld, RouteDoubled);
        assert (RouteDoubled + x)[|RouteDoubled|..] == x;
        assert IsPrefix(RouteDoubled, RouteDoubled + x);
      } else {
        DoubledStartsOld(s);
        RouteDoubledInsulated();
        assert [s[0]] + s[1..] == s;
        ReplaceKeepsNoPrefix([s[0]], s[1..], RouteOld, RouteDoubled, RouteDoubled);
        CollapseUndoesDoubling(s[1..]);
        assert ([s[0]] + Replace(s[1..], RouteOld, RouteDoubled))[1..] == Replace(s[1..], RouteOld, RouteDoubled);
      }
    }
  }

  /** Taken together, the three decorator replaces add `/df` once to every decorator path. */
  lemma DecoratorsGainOnePrefix(content: string)
    ensures FixRouteDecorators(content) == Replace(content, RouteOld, RouteNew)
  {
    SecondReplaceDoubles(content);
    CollapseUndoesDoubling(content);
  }

  /** Each decorator constant is the one before it with `df/` appended. */
  lemma RouteConstants()
    ensures RouteNew == RouteOld + "df/" && RouteDoubled == RouteNew + "df/"
    ensures '@' !in "df/"
  {
  }

  /** A decorator that already has the prefix gets a second one. */
  lemma PrefixedRouteDoubled(t: string)
    ensures FixRouteDecorators(RouteNew + t) == RouteDoubled + Replace(t, RouteOld, RouteNew)
  {
    RouteConstants();
    ReplaceAtFrontSkip(RouteOld, "df/", t, RouteNew);
    DecoratorsGainOnePrefix(RouteNew + t);
  }

  /** So the script is not safe to run twice: a second run changes a rewritten decorator again. */
  lemma RouteRewriteNotIdempotent()
    ensures FixRouteDecorators(FixRouteDecorators(RouteOld)) != FixRouteDecorators(RouteOld)
  {
    DecoratorsGainOnePrefix(RouteOld);
    assert RouteOld == RouteOld + [];
    ReplaceAtFront(RouteOld, [], RouteNew);
    PrefixedRouteDoubled([]);
    assert RouteNew + [] == RouteNew;
    assert |RouteDoubled| != |RouteNew|;
  }

  // ----- The whole script -----

  /** fix_routes.py on the content of app.py. */
  function FixAppSource(content: string): string {
    FixRouteDecorators(FixRedirects(FixSqlQueries(content)))
  }

  /**
   * The script's result: placeholders in matched SQL rewritten, no old
   * redirect target left, and each route decorator prefixed exactly once.
   */
  lemma FixAppSourceSpec(content: string)
    ensures FixAppSource(content) == Replace(FixRedirects(FixSqlQueries(content)), RouteOld, RouteNew)
    ensures Refines(FixSqlQueries(content), content)
    ensures FixRedirects(FixRedirects(FixSqlQueries(content))) == FixRedirects(FixSqlQueries(content))
  {
    DecoratorsGainOnePrefix(FixRedirects(FixSqlQueries(content)));
    FixSqlQueriesRefines(content);
    FixRedirectsIdempotent(FixSqlQueries(content));
  }
}
