/**
 * The Python `str` operations the backend relies on, each written as the
 * left-to-right scan CPython performs: `p in s`, `s.startswith(p)`,
 * `s.replace(p, r)`, `s.count(p)`, `s.split(sep)` and `sep.join(parts)`.
 * The lemmas here are the facts about these scans that the other modules need.
 */
module Strings {

  /** `s.startswith(p)` */
  predicate IsPrefix(p: string, s: string) {
    |p| <= |s| && s[..|p|] == p
  }

  /** `p in s` */
  predicate Occurs(s: string, p: string)
    decreases |s|
  {
    IsPrefix(p, s) || (s != [] && Occurs(s[1..], p))
  }

  /** `s.replace(p, r)`: occurrences of p are replaced left to right, without overlap. */
  function Replace(s: string, p: string, r: string): string
    requires p != []
    decreases |s|
  {
    if s == [] then []
    else if IsPrefix(p, s) then r + Replace(s[|p|..], p, r)
    else [s[0]] + Replace(s[1..], p, r)
  }

  /** `s.count(p)`: occurrences of p counted left to right, without overlap. */
  function Count(s: string, p: string): nat
    requires p != []
    decreases |s|
  {
    if s == [] then 0
    else if IsPrefix(p, s) then 1 + Count(s[|p|..], p)
    else Count(s[1..], p)
  }

  /** The pattern at the front is counted once before the count goes on after it. */
  lemma CountAtFront(p: string, y: string)
    requires p != []
    ensures Count(p + y, p) == 1 + Count(y, p)
  {
    PrefixOfSelf(p, y);
  }

  /** Text that cannot start the pattern adds nothing to the count. */
  lemma {:induction false} CountSkip(u: string, y: string, p: string)
    requires p != [] && p[0] !in u
    ensures Count(u + y, p) == Count(y, p)
    decreases |u|
  {
    if u != [] {
      assert (u + y)[0] == u[0];
      assert (u + y)[1..] == u[1..] + y;
      CountSkip(u[1..], y, p);
    } else {
      assert u + y == y;
    }
  }

  /** A text that does not hold the pattern counts no occurrence of it. */
  lemma {:induction false} CountAbsent(s: string, p: string)
    requires p != [] && !Occurs(s, p)
    ensures Count(s, p) == 0
    decreases |s|
  {
    if s != [] {
      CountAbsent(s[1..], p);
    }
  }

  /** The count is positive exactly when the pattern occurs. */
  lemma {:induction false} CountPositive(s: string, p: string)
    requires p != []
    ensures Count(s, p) > 0 <==> Occurs(s, p)
    decreases |s|
  {
    if s != [] && !IsPrefix(p, s) {
      CountPositive(s[1..], p);
    }
  }

  /** Every character of s that equals x becomes t; the others are kept. */
  function SubstChar(s: string, x: char, t: string): string
    decreases |s|
  {
    if s == [] then [] else (if s[0] == x then t else [s[0]]) + SubstChar(s[1..], x, t)
  }

  /** Each character of s replaced by the text f gives for it. */
  function MapChars(f: char -> string, s: string): string
    decreases |s|
  {
    if s == [] then [] else MapChars(f, s[..|s| - 1]) + f(s[|s| - 1])
  }

  /** `s.split(sep)` for a one-character separator. */
  function Split(s: string, sep: char): (parts: seq<string>)
    ensures |parts| >= 1
    decreases |s|
  {
    if s == [] then [[]]
    else
      var rest := Split(s[1..], sep);
      if s[0] == sep then [[]] + rest
      else [[s[0]] + rest[0]] + rest[1..]
  }

  /** `sep.join(parts)` for a one-character separator. */
  function Join(parts: seq<string>, sep: char): string
    decreases |parts|
  {
    if parts == [] then []
    else if |parts| == 1 then parts[0]
    else parts[0] + [sep] + Join(parts[1..], sep)
  }

  /** One of a and b is a prefix of the other. */
  predicate Compatible(a: string, b: string) {
    IsPrefix(a, b) || IsPrefix(b, a)
  }

  /** No non-empty suffix of x is compatible with y. */
  predicate NoSuffixCompatible(x: string, y: string)
    decreases |x|
  {
    x == [] || (!Compatible(x, y) && NoSuffixCompatible(x[1..], y))
  }

  /**
   * An occurrence of q can neither start inside r nor run from the text
   * before r into r: inserting r never creates an occurrence of q.
   */
  predicate Insulated(q: string, r: string) {
    NoSuffixCompatible(r, q) && (q == [] || NoSuffixCompatible(q[1..], r))
  }

  lemma CompatibleAll(a: string, b: string)
    ensures Compatible(a, b) <==> forall j :: 0 <= j < |a| && j < |b| ==> a[j] == b[j]
  {
    if |a| <= |b| {
      if forall j :: 0 <= j < |a| && j < |b| ==> a[j] == b[j] {
        assert b[..|a|] == a;
      }
    } else {
      if forall j :: 0 <= j < |a| && j < |b| ==> a[j] == b[j] {
        assert a[..|b|] == b;
      }
    }
  }

  /** Two texts that disagree somewhere they both reach still disagree once extended. */
  lemma IncompatibleExtend(a: string, b: string, c: string, d: string)
    requires !Compatible(a, b)
    ensures !Compatible(a + c, b + d)
  {
    CompatibleAll(a, b);
    var j :| 0 <= j < |a| && j < |b| && a[j] != b[j];
    assert (a + c)[j] == a[j] && (b + d)[j] == b[j];
    CompatibleAll(a + c, b + d);
  }

  /** No suffix of x fits y when x lacks the first character of y. */
  lemma {:induction false} NoSuffixCompatibleByHead(x: string, y: string)
    requires y != [] && y[0] !in x
    ensures NoSuffixCompatible(x, y)
    decreases |x|
  {
    if x != [] {
      CompatibleAll(x, y);
      assert x[0] != y[0];
      NoSuffixCompatibleByHead(x[1..], y);
    }
  }

  /**
   * If no suffix of s fits the stem, and t lacks the stem's first
   * character, then no suffix of s + t fits any text that starts with the stem.
   */
  lemma {:induction false} NoSuffixCompatibleStem(s: string, t: string, stem: string, u: string)
    requires stem != [] && stem[0] !in t
    requires NoSuffixCompatible(s, stem)
    ensures NoSuffixCompatible(s + t, stem + u)
    decreases |s|
  {
    if s == [] {
      assert s + t == t;
      NoSuffixCompatibleByHead(t, stem + u);
    } else {
      IncompatibleExtend(s, stem, t, u);
      assert (s + t)[1..] == s[1..] + t;
      NoSuffixCompatibleStem(s[1..], t, stem, u);
    }
  }

  /** Characters other than y's first, put in front of x, start no suffix compatible with y. */
  lemma {:induction false} NoSuffixCompatiblePrepend(a: string, x: string, y: string)
    requires y != [] && y[0] !in a && NoSuffixCompatible(x, y)
    ensures NoSuffixCompatible(a + x, y)
    decreases |a|
  {
    if a == [] {
      assert a + x == x;
    } else {
      DifferAt(a + x, y, 0);
      assert (a + x)[1..] == a[1..] + x;
      NoSuffixCompatiblePrepend(a[1..], x, y);
    }
  }

  /** Texts that differ at a position both reach are not compatible. */
  lemma DifferAt(a: string, b: string, j: nat)
    requires j < |a| && j < |b| && a[j] != b[j]
    ensures !Compatible(a, b)
  {
    CompatibleAll(a, b);
  }

  /** Texts that share a stem and whose tails differ at once are not compatible. */
  lemma StemsIncompatible(stem: string, t: string, u: string)
    requires t != [] && u != [] && t[0] != u[0]
    ensures !Compatible(stem + u, stem + t)
  {
    assert (stem + u)[|stem|] == u[0] && (stem + t)[|stem|] == t[0];
    DifferAt(stem + u, stem + t, |stem|);
  }

  /** No suffix of stem + u fits stem + t, under the conditions of InsulatedAfterStem. */
  lemma StemSuffixesDiffer(stem: string, t: string, u: string)
    requires stem != [] && NoSuffixCompatible(stem[1..], stem)
    requires t != [] && u != [] && t[0] != u[0]
    requires stem[0] !in u
    ensures NoSuffixCompatible(stem + u, stem + t)
  {
    StemsIncompatible(stem, t, u);
    StemTailFree(stem, u, t);
  }


  /**
   * Two texts made of a common stem, which no proper suffix of its own
   * fits, and tails that differ at once and lack the stem's first
   * character, are insulated from each other.
   */
  lemma InsulatedAfterStem(stem: string, t: string, u: string)
    requires stem != [] && NoSuffixCompatible(stem[1..], stem)
    requires t != [] && u != [] && t[0] != u[0]
    requires stem[0] !in t && stem[0] !in u
    ensures Insulated(stem + t, stem + u)
  {
    StemSuffixesDiffer(stem, t, u);
    StemTailFree(stem, t, u);
  }

  /** Under the same conditions, stem + u does not occur in stem + t. */
  lemma StemTargetsApart(stem: string, t: string, u: string)
    requires stem != [] && NoSuffixCompatible(stem[1..], stem)
    requires t != [] && u != [] && t[0] != u[0]
    requires stem[0] !in t
    ensures !Occurs(stem + t, stem + u)
  {
    StemsIncompatible(stem, u, t);
    StemTailFree(stem, t, u);
    assert NoSuffixCompatible(stem + t, stem + u);
    OccursAfterInsulated(stem + t, [], stem + u);
    assert (stem + t) + [] == stem + t;
  }

  /** No proper suffix of stem + t is compatible with stem + u. */
  lemma StemTailFree(stem: string, t: string, u: string)
    requires stem != [] && NoSuffixCompatible(stem[1..], stem)
    requires stem[0] !in t
    ensures NoSuffixCompatible((stem + t)[1..], stem + u)
  {
    assert (stem + t)[1..] == stem[1..] + t;
    NoSuffixCompatibleStem(stem[1..], t, stem, u);
  }




  // ----- Occurs -----

  lemma {:induction false} OccursChar(s: string, x: char)
    ensures Occurs(s, [x]) <==> x in s
    decreases |s|
  {
    if s != [] {
      OccursChar(s[1..], x);
      assert s == [s[0]] + s[1..];
    }
  }

  /** A text without the pattern's first character does not hold the pattern. */
  lemma {:induction false} OccursNeedsHead(s: string, p: string)
    requires p != [] && p[0] !in s
    ensures !Occurs(s, p)
    decreases |s|
  {
    if s != [] {
      OccursNeedsHead(s[1..], p);
    }
  }

  lemma {:induction false} OccursSuffix(s: string, k: nat, p: string)
    requires k <= |s|
    requires Occurs(s[k..], p)
    ensures Occurs(s, p)
    decreases k
  {
    if k > 0 {
      assert s[1..][k - 1..] == s[k..];
      OccursSuffix(s[1..], k - 1, p);
    }
  }

  /** A text that starts with a + b starts with a. */
  lemma PrefixOfPrefix(a: string, b: string, s: string)
    ensures IsPrefix(a + b, s) ==> IsPrefix(a, s)
  {
    if IsPrefix(a + b, s) {
      assert s[..|a|] == (a + b)[..|a|];
    }
  }

  lemma PrefixOfConcat(p: string, a: string, b: string)
    requires |a| >= |p|
    ensures IsPrefix(p, a + b) <==> IsPrefix(p, a)
  {
    assert (a + b)[..|p|] == a[..|p|];
  }

  /** A text free of q stays free of q when a piece of text r no suffix of which fits q is put in front. */
  lemma {:induction false} OccursAfterInsulated(r: string, x: string, q: string)
    requires q != []
    requires NoSuffixCompatible(r, q)
    requires !Occurs(x, q)
    ensures !Occurs(r + x, q)
    decreases |r|
  {
    if r != [] {
      if IsPrefix(q, r + x) {
        if |r| >= |q| {
          PrefixOfConcat(q, r, x);
        }
        assert false;
      }
      OccursAfterInsulated(r[1..], x, q);
      assert (r + x)[1..] == r[1..] + x;
    } else {
      assert r + x == x;
    }
  }

  // ----- Replace -----

  /** Replacing a pattern that does not occur changes nothing. */
  lemma {:induction false} ReplaceAbsent(s: string, p: string, r: string)
    requires p != []
    requires !Occurs(s, p)
    ensures Replace(s, p, r) == s
    decreases |s|
  {
    if s != [] {
      ReplaceAbsent(s[1..], p, r);
    }
  }

  /** Replacing a one-character pattern is the per-character substitution. */
  lemma {:induction false} ReplaceOneChar(s: string, x: char, t: string)
    ensures Replace(s, [x], t) == SubstChar(s, x, t)
    decreases |s|
  {
    if s != [] {
      ReplaceOneChar(s[1..], x, t);
      assert IsPrefix([x], s) <==> s[0] == x;
      assert s[|[x]|..] == s[1..];
    }
  }

  lemma {:induction false} SubstCharConcat(a: string, b: string, x: char, t: string)
    ensures SubstChar(a + b, x, t) == SubstChar(a, x, t) + SubstChar(b, x, t)
    decreases |a|
  {
    if a != [] {
      SubstCharConcat(a[1..], b, x, t);
      assert (a + b)[1..] == a[1..] + b;
    } else {
      assert a + b == b;
    }
  }

  lemma {:induction false} SubstCharKeepsOut(s: string, x: char, t: string, c: char)
    requires c !in s && c !in t
    ensures c !in SubstChar(s, x, t)
    decreases |s|
  {
    if s != [] {
      SubstCharKeepsOut(s[1..], x, t, c);
    }
  }

  lemma {:induction false} SubstCharRemoves(s: string, x: char, t: string)
    requires x !in t
    ensures x !in SubstChar(s, x, t)
    decreases |s|
  {
    if s != [] {
      SubstCharRemoves(s[1..], x, t);
    }
  }

  /** p starts p + y, and what follows it is y. */
  lemma PrefixOfSelf(p: string, y: string)
    ensures IsPrefix(p, p + y) && (p + y)[|p|..] == y
  {
    assert (p + y)[..|p|] == p;
  }

  /** A pattern at the front is replaced, and the scan resumes after it. */
  lemma ReplaceAtFront(p: string, y: string, r: string)
    requires p != []
    ensures Replace(p + y, p, r) == r + Replace(y, p, r)
  {
    assert (p + y)[..|p|] == p;
    assert (p + y)[|p|..] == y;
  }

  /** The pattern at the front, followed by text that cannot start it. */
  lemma ReplaceAtFrontSkip(p: string, u: string, y: string, r: string)
    requires p != [] && p[0] !in u
    ensures Replace(p + u + y, p, r) == r + u + Replace(y, p, r)
  {
    assert p + u + y == p + (u + y);
    ReplaceAtFront(p, u + y, r);
    ReplaceSkip(u, y, p, r);
  }

  /** Text that cannot start the pattern passes through a replace unchanged. */
  lemma {:induction false} ReplaceSkip(u: string, y: string, p: string, r: string)
    requires p != []
    requires p[0] !in u
    ensures Replace(u + y, p, r) == u + Replace(y, p, r)
    decreases |u|
  {
    if u != [] {
      assert (u + y)[0] == u[0];
      assert !IsPrefix(p, u + y);
      assert (u + y)[1..] == u[1..] + y;
      ReplaceSkip(u[1..], y, p, r);
    } else {
      assert u + y == y;
    }
  }

  /**
   * If q does not start at the front of w + s, where w is a non-empty
   * piece of text, it does not start there after s has been through a
   * replace whose replacement q cannot run into.
   */
  lemma {:induction false} ReplaceKeepsNoPrefix(w: string, s: string, p: string, r: string, q: string)
    requires p != [] && q != [] && w != []
    requires NoSuffixCompatible(q[1..], r)
    requires !IsPrefix(q, w + s)
    ensures !IsPrefix(q, w + Replace(s, p, r))
    decreases |s|
  {
    if s == [] {
      assert w + Replace(s, p, r) == w + s;
    } else if IsPrefix(p, s) {
      NoPrefixBeforeReplacement(w, s, r, Replace(s[|p|..], p, r), q);
    } else {
      ReplaceShiftsOne(w, s, p, r);
      ReplaceKeepsNoPrefix(w + [s[0]], s[1..], p, r, q);
    }
  }

  /** Where p does not start, the first character of s moves over to w, on both sides of the replace. */
  lemma ReplaceShiftsOne(w: string, s: string, p: string, r: string)
    requires s != [] && !IsPrefix(p, s)
    ensures (w + [s[0]]) + s[1..] == w + s
    ensures w + Replace(s, p, r) == (w + [s[0]]) + Replace(s[1..], p, r)
  {
    var z := Replace(s[1..], p, r);
    assert Replace(s, p, r) == [s[0]] + z;
    SeqAssoc(w, [s[0]], z);
    SeqAssoc(w, [s[0]], s[1..]);
    assert [s[0]] + s[1..] == s;
  }

  lemma SeqAssoc(a: string, b: string, c: string)
    ensures a + (b + c) == (a + b) + c
  {
  }

  /** q, not starting at the front of w + s, does not start there once s gives way to r + y either. */
  lemma NoPrefixBeforeReplacement(w: string, s: string, r: string, y: string, q: string)
    requires q != [] && w != []
    requires NoSuffixCompatible(q[1..], r)
    requires !IsPrefix(q, w + s)
    ensures !IsPrefix(q, w + (r + y))
  {
    if |w| >= |q| {
      PrefixOfConcat(q, w, s);
      PrefixOfConcat(q, w, r + y);
    } else {
      SuffixNotCompatible(q[1..], r, |w| - 1);
      assert q[1..][|w| - 1..] == q[|w|..];
      NoPrefixAcross(w, r, y, q);
    }
  }

  /** q cannot start in w and run on into r when the rest of q does not fit r. */
  lemma NoPrefixAcross(w: string, r: string, y: string, q: string)
    requires 0 < |w| < |q|
    requires !Compatible(q[|w|..], r)
    ensures !IsPrefix(q, w + (r + y))
  {
  }

  lemma {:induction false} SuffixNotCompatible(x: string, y: string, j: nat)
    requires NoSuffixCompatible(x, y)
    requires j < |x|
    ensures !Compatible(x[j..], y)
    decreases j
  {
    if j > 0 {
      assert x[1..][j - 1..] == x[j..];
      SuffixNotCompatible(x[1..], y, j - 1);
    }
  }

  /**
   * After `s.replace(p, r)`, q does not occur, provided q could only have
   * come from the text that p matched (q == p) or was absent to begin
   * with, and the replacement r is insulated from q.
   */
  lemma {:induction false} ReplaceAvoids(s: string, p: string, r: string, q: string)
    requires p != [] && q != []
    requires Insulated(q, r)
    requires q == p || !Occurs(s, q)
    ensures !Occurs(Replace(s, p, r), q)
    decreases |s|
  {
    if s == [] {
    } else if IsPrefix(p, s) {
      if q != p && Occurs(s[|p|..], q) {
        OccursSuffix(s, |p|, q);
      }
      ReplaceAvoids(s[|p|..], p, r, q);
      OccursAfterInsulated(r, Replace(s[|p|..], p, r), q);
    } else {
      ReplaceAvoids(s[1..], p, r, q);
      assert !IsPrefix(q, s);
      assert [s[0]] + s[1..] == s;
      ReplaceKeepsNoPrefix([s[0]], s[1..], p, r, q);
    }
  }

  // ----- MapChars -----

  lemma {:induction false} MapCharsConcat(f: char -> string, a: string, b: string)
    ensures MapChars(f, a + b) == MapChars(f, a) + MapChars(f, b)
    decreases |b|
  {
    if b == [] {
      assert a + b == a;
    } else {
      var b', c := b[..|b| - 1], b[|b| - 1];
      var ab := a + b;
      MapCharsConcat(f, a, b');
      assert ab[..|ab| - 1] == a + b';
      calc {
        MapChars(f, ab);
        MapChars(f, a + b') + f(c);
        MapChars(f, a) + MapChars(f, b') + f(c);
        MapChars(f, a) + (MapChars(f, b') + f(c));
        MapChars(f, a) + MapChars(f, b);
      }
    }
  }

  /** MapChars read from the front. */
  lemma MapCharsFront(f: char -> string, s: string)
    requires s != []
    ensures MapChars(f, s) == f(s[0]) + MapChars(f, s[1..])
  {
    MapCharsConcat(f, [s[0]], s[1..]);
    assert [s[0]] + s[1..] == s;
    assert [s[0]][..0] == [];
  }

  // ----- Split and Join -----

  /** `sep.join(s.split(sep)) == s` */
  lemma {:induction false} JoinSplit(s: string, sep: char)
    ensures Join(Split(s, sep), sep) == s
    decreases |s|
  {
    if s != [] {
      var rest := Split(s[1..], sep);
      JoinSplit(s[1..], sep);
      if s[0] == sep {
        assert ([[]] + rest)[1..] == rest;
      } else {
        assert ([[s[0]] + rest[0]] + rest[1..])[1..] == rest[1..];
        if |rest| > 1 {
          assert Join(rest, sep) == rest[0] + [sep] + Join(rest[1..], sep);
        }
      }
    }
  }

  /** No part of a split contains the separator, nor any character absent from the text. */
  lemma {:induction false} SplitPartsFree(s: string, sep: char, c: char)
    requires c == sep || c !in s
    ensures forall i :: 0 <= i < |Split(s, sep)| ==> c !in Split(s, sep)[i]
    decreases |s|
  {
    if s != [] {
      SplitPartsFree(s[1..], sep, c);
    }
  }

  /** A split yields one more part than there are separators. */
  lemma {:induction false} SplitCount(s: string, sep: char)
    ensures |Split(s, sep)| == Count(s, [sep]) + 1
    decreases |s|
  {
    if s != [] {
      SplitCount(s[1..], sep);
      assert IsPrefix([sep], s) <==> s[0] == sep;
      assert s[|[sep]|..] == s[1..];
    }
  }

  lemma {:induction false} SplitNoSep(a: string, sep: char)
    requires sep !in a
    ensures Split(a, sep) == [a]
    decreases |a|
  {
    if a != [] {
      SplitNoSep(a[1..], sep);
      assert [a[0]] + a[1..] == a;
    }
  }

  lemma {:induction false} SplitAfterPart(a: string, b: string, sep: char)
    requires sep !in a
    ensures Split(a + [sep] + b, sep) == [a] + Split(b, sep)
    decreases |a|
  {
    var s := a + [sep] + b;
    if a == [] {
      assert s[0] == sep && s[1..] == b;
    } else {
      SplitAfterPart(a[1..], b, sep);
      assert s[0] == a[0] && s[1..] == a[1..] + [sep] + b;
      assert [a[0]] + a[1..] == a;
    }
  }

  /** `(sep.join(parts)).split(sep) == parts` when no part holds the separator. */
  lemma {:induction false} SplitJoin(parts: seq<string>, sep: char)
    requires |parts| >= 1
    requires forall i :: 0 <= i < |parts| ==> sep !in parts[i]
    ensures Split(Join(parts, sep), sep) == parts
    decreases |parts|
  {
    if |parts| == 1 {
      SplitNoSep(parts[0], sep);
    } else {
      SplitJoin(parts[1..], sep);
      SplitAfterPart(parts[0], Join(parts[1..], sep), sep);
      assert [parts[0]] + parts[1..] == parts;
    }
  }
}
