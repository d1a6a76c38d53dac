/**
 * backend/migrate_sql.py, convert_sql_file without its file read and write:
 * the content is split into lines; a flag, flipped by every line that holds
 * a triple quote, says whether the scan is inside a triple-quoted string;
 * and in a line that is SQL (it calls db.execute, or the flag is set) and
 * whose quotes are balanced, every `?` placeholder becomes `%s`.
 * The list of regular expressions the script builds is never applied, so it
 * has no counterpart here.
 */
module MigrateSql {
  import opened Strings

  const TripleDouble: string := "\"\"\""
  const TripleSingle: string := "'''"
  const Execute: string := "db.execute"

  /** `'"""' in line or "'''" in line` */
  predicate HasTripleQuote(line: string) {
    Occurs(line, TripleDouble) || Occurs(line, TripleSingle)
  }

  /** The number of lines that hold a triple quote. */
  function TripleQuoteLines(lines: seq<string>): nat
    decreases |lines|
  {
    if lines == [] then 0
    else TripleQuoteLines(lines[..|lines| - 1]) + (if HasTripleQuote(lines[|lines| - 1]) then 1 else 0)
  }

  /**
   * The flag while line k is handled: it starts false and is flipped by
   * every line holding a triple quote, so it is set exactly when an odd
   * number of lines up to and including line k hold one.
   */
  predicate InSqlAt(lines: seq<string>, k: nat)
    requires k < |lines|
  {
    TripleQuoteLines(lines[..k + 1]) % 2 == 1
  }

  /**
   * The count of `'` less the count of `\'` is even, and likewise for `"`.
   * The differences are never negative, so Python's floored `%` and
   * Dafny's Euclidean `%` agree here.
   */
  predicate QuotesBalanced(line: string) {
    && (Count(line, "'") - Count(line, "\\'")) % 2 == 0
    && (Count(line, "\"") - Count(line, "\\\"")) % 2 == 0
  }

  /** The line is SQL and its quotes are balanced. */
  predicate Rewritten(line: string, inSql: bool) {
    (Occurs(line, Execute) || inSql) && QuotesBalanced(line)
  }

  /** What becomes of one line: every `?` turned into `%s` if it is rewritten, else the line itself. */
  function ConvertLine(line: string, inSql: bool): string {
    if Rewritten(line, inSql) then Replace(line, "?", "%s") else line
  }

  /**
   * The body of the loop for one line, once the flag is updated: the quote
   * differences are computed only for a line that is SQL.
   */
  method ConvertOneLine(line: string, inSql: bool) returns (out: string)
    ensures out == ConvertLine(line, inSql)
    ensures out == line || (Rewritten(line, inSql) && '?' !in out)
  {
    out := line;
    if Occurs(line, Execute) || inSql {
      var singleQuotes := Count(line, "'") - Count(line, "\\'");
      var doubleQuotes := Count(line, "\"") - Count(line, "\\\"");
      assert Rewritten(line, inSql) <==> singleQuotes % 2 == 0 && doubleQuotes % 2 == 0;
      if singleQuotes % 2 == 0 && doubleQuotes % 2 == 0 {
        out := Replace(line, "?", "%s");
        ReplaceOneChar(line, '?', "%s");
        SubstCharRemoves(line, '?', "%s");
      }
    }
  }

  /** The flag for line k follows from the flag for the line before and line k alone. */
  lemma FlagStep(lines: seq<string>, k: nat)
    requires k < |lines|
    ensures k == 0 ==> InSqlAt(lines, k) == HasTripleQuote(lines[0])
    ensures k > 0 ==> InSqlAt(lines, k) == (HasTripleQuote(lines[k]) != InSqlAt(lines, k - 1))
  {
    assert lines[..k + 1][..k] == lines[..k];
    if k == 0 {
      assert lines[..0] == [];
    }
  }

  /** The flag the loop carries past line k is the parity of the lines up to and including it that hold a triple quote. */
  lemma FlagAdvance(lines: seq<string>, k: nat, before: bool)
    requires k < |lines| && before == (TripleQuoteLines(lines[..k]) % 2 == 1)
    ensures (HasTripleQuote(lines[k]) != before) == InSqlAt(lines, k)
  {
    assert lines[..k + 1][..k] == lines[..k];
  }

  /**
   * The flag flips before the rewrite test: the line that opens a
   * triple-quoted string counts as SQL, the line that closes it only if it
   * calls db.execute itself.
   */
  lemma OpeningAndClosingLines(lines: seq<string>, k: nat)
    requires k < |lines| && HasTripleQuote(lines[k])
    ensures (k == 0 || !InSqlAt(lines, k - 1)) ==>
              (Rewritten(lines[k], InSqlAt(lines, k)) <==> QuotesBalanced(lines[k]))
    ensures (k > 0 && InSqlAt(lines, k - 1)) ==>
              (Rewritten(lines[k], InSqlAt(lines, k)) <==> Occurs(lines[k], Execute) && QuotesBalanced(lines[k]))
  {
    FlagStep(lines, k);
  }

  /** A converted line gains no newline, and a rewritten one keeps no `?`. */
  lemma ConvertLineChars(line: string, inSql: bool)
    requires '\n' !in line
    ensures '\n' !in ConvertLine(line, inSql)
    ensures Rewritten(line, inSql) ==> '?' !in ConvertLine(line, inSql)
  {
    ReplaceOneChar(line, '?', "%s");
    SubstCharKeepsOut(line, '?', "%s", '\n');
    SubstCharRemoves(line, '?', "%s");
  }

  /** A line without `?` is never changed. */
  lemma ConvertLineNoPlaceholder(line: string, inSql: bool)
    requires '?' !in line
    ensures ConvertLine(line, inSql) == line
  {
    OccursChar(line, '?');
    ReplaceAbsent(line, "?", "%s");
  }

  /** The flag the loop holds while line k is handled, for every line. */
  function Flags(lines: seq<string>): (flags: seq<bool>)
    ensures |flags| == |lines|
  {
    seq(|lines|, k requires 0 <= k < |lines| => InSqlAt(lines, k))
  }

  /** The first |newLines| lines have been converted under the given flags. */
  predicate ConvertedUpTo(lines: seq<string>, newLines: seq<string>, flags: seq<bool>)
    requires |newLines| <= |lines| == |flags|
  {
    forall j :: 0 <= j < |newLines| ==> newLines[j] == ConvertLine(lines[j], flags[j])
  }

  lemma ConvertedExtend(lines: seq<string>, newLines: seq<string>, flags: seq<bool>, line: string)
    requires |newLines| < |lines| == |flags| && ConvertedUpTo(lines, newLines, flags)
    requires line == ConvertLine(lines[|newLines|], flags[|newLines|])
    ensures ConvertedUpTo(lines, newLines + [line], flags)
  {
  }

  /** Joining the converted lines gives back exactly those lines on a split, and the input itself if it had no `?`. */
  lemma ConvertedJoin(content: string, newLines: seq<string>, flags: seq<bool>)
    requires |newLines| == |Split(content, '\n')| == |flags|
    requires ConvertedUpTo(Split(content, '\n'), newLines, flags)
    ensures Split(Join(newLines, '\n'), '\n') == newLines
    ensures '?' !in content ==> Join(newLines, '\n') == content
  {
    var lines := Split(content, '\n');
    SplitPartsFree(content, '\n', '\n');
    forall j | 0 <= j < |newLines|
      ensures '\n' !in newLines[j]
    {
      ConvertLineChars(lines[j], flags[j]);
    }
    SplitJoin(newLines, '\n');
    if '?' !in content {
      SplitPartsFree(content, '\n', '?');
      forall j | 0 <= j < |lines|
        ensures newLines[j] == lines[j]
      {
        ConvertLineNoPlaceholder(lines[j], flags[j]);
      }
      assert newLines == lines;
      JoinSplit(content, '\n');
    }
  }

  /**
   * convert_sql_file on the file's content: one output line per input line,
   * each converted according to the flag, so that text without `?` comes
   * back unchanged.
   */
  method ConvertSql(content: string) returns (converted: string)
    ensures |Split(converted, '\n')| == |Split(content, '\n')|
    ensures ConvertedUpTo(Split(content, '\n'), Split(converted, '\n'), Flags(Split(content, '\n')))
    ensures '?' !in content ==> converted == content
  {
    var lines := Split(content, '\n');
    ghost var flags := Flags(lines);
    var newLines: seq<string> := [];
    var inSqlString := false;
    for k := 0 to |lines|
      invariant |newLines| == k
      invariant inSqlString == (TripleQuoteLines(lines[..k]) % 2 == 1)
      invariant ConvertedUpTo(lines, newLines, flags)
    {
      var line := lines[k];
      FlagAdvance(lines, k, inSqlString);
      if Occurs(line, TripleDouble) || Occurs(line, TripleSingle) {
        inSqlString := !inSqlString;
      }
      assert inSqlString == flags[k];
      line := ConvertOneLine(line, inSqlString);
      ConvertedExtend(lines, newLines, flags, line);
      newLines := newLines + [line];
    }
    converted := Join(newLines, '\n');
    ConvertedJoin(content, newLines, flags);
  }

  // ----- A line that both opens and closes a triple-quoted string -----

  /** A one-line docstring, and a comment after it: Python text that is neither SQL nor inside a string. */
  const DocstringLine: string := TripleDouble + "Doc." + TripleDouble
  const CommentLine: string := "# ok?"

  /** The comment holds no triple quote and no call of db.execute. */
  lemma CommentLineNotSql()
    ensures !HasTripleQuote(CommentLine) && !Occurs(CommentLine, Execute)
  {
    OccursNeedsHead(CommentLine, TripleDouble);
    OccursNeedsHead(CommentLine, TripleSingle);
    OccursNeedsHead(CommentLine, Execute);
  }

  /** The comment holds no quote, so its quotes are balanced. */
  lemma CommentLineBalanced()
    ensures QuotesBalanced(CommentLine)
  {
    CommentLineNoQuote("'");
    CommentLineNoQuote("\\'");
    CommentLineNoQuote("\"");
    CommentLineNoQuote("\\\"");
  }

  /** A quote or an escaped quote is counted nowhere in the comment. */
  lemma CommentLineNoQuote(quote: string)
    requires quote == "'" || quote == "\\'" || quote == "\"" || quote == "\\\""
    ensures Count(CommentLine, quote) == 0
  {
    OccursNeedsHead(CommentLine, quote);
    CountAbsent(CommentLine, quote);
  }

  /** Rewriting the comment turns its `?` into `%s`. */
  lemma CommentLineReplace()
    ensures Replace(CommentLine, "?", "%s") == "# ok%s"
  {
    assert CommentLine == "# ok" + "?";
    ReplaceSkip("# ok", "?", "?", "%s");
    ReplaceAtFront("?", [], "%s");
    assert "?" + [] == "?";
  }

  /** The docstring holds two triple quotes. */
  lemma DocstringLineQuotes()
    ensures HasTripleQuote(DocstringLine)
    ensures Count(DocstringLine, TripleDouble) == 2 && Count(DocstringLine, TripleSingle) == 0
  {
    assert DocstringLine == TripleDouble + ("Doc." + TripleDouble);
    PrefixOfSelf(TripleDouble, "Doc." + TripleDouble);
    CountAtFront(TripleDouble, "Doc." + TripleDouble);
    CountSkip("Doc.", TripleDouble, TripleDouble);
    assert TripleDouble == TripleDouble + [];
    CountAtFront(TripleDouble, []);
    OccursNeedsHead(DocstringLine, TripleSingle);
    CountAbsent(DocstringLine, TripleSingle);
  }

  /**
   * The flag is flipped once by a line holding a whole triple-quoted string,
   * so the script goes on treating the following lines as SQL: the `?` in
   * a comment after a one-line docstring is rewritten.
   */
  lemma OneLineDocstringOpensSql()
    ensures InSqlAt([DocstringLine, CommentLine], 1)
    ensures ConvertLine(CommentLine, InSqlAt([DocstringLine, CommentLine], 1)) == "# ok%s"
  {
    var lines := [DocstringLine, CommentLine];
    DocstringLineQuotes();
    CommentLineNotSql();
    CommentLineBalanced();
    CommentLineReplace();
    FlagStep(lines, 0);
    FlagStep(lines, 1);
  }

  /** The triple quotes of either kind in a line, counted as `str.count` counts them. */
  function TripleQuotes(line: string): nat {
    Count(line, TripleDouble) + Count(line, TripleSingle)
  }

  /** The triple quotes in all the lines. */
  function TripleQuotesIn(lines: seq<string>): nat
    decreases |lines|
  {
    if lines == [] then 0
    else TripleQuotesIn(lines[..|lines| - 1]) + TripleQuotes(lines[|lines| - 1])
  }

  /** The line holds an odd number of triple quotes, so it opens or closes a string. */
  predicate TogglesString(line: string) {
    TripleQuotes(line) % 2 == 1
  }

  /** After the lines a triple-quoted string is open: each line that toggles flips the answer. */
  predicate StringOpen(lines: seq<string>)
    decreases |lines|
  {
    lines != [] && (StringOpen(lines[..|lines| - 1]) != TogglesString(lines[|lines| - 1]))
  }

  /** A string is open after the lines exactly when they hold an odd number of triple quotes. */
  lemma {:induction false} StringOpenParity(lines: seq<string>)
    ensures StringOpen(lines) <==> TripleQuotesIn(lines) % 2 == 1
    decreases |lines|
  {
    if lines != [] {
      StringOpenParity(lines[..|lines| - 1]);
    }
  }

  /** At the end of line k a triple-quoted string is open. */
  predicate InStringAt(lines: seq<string>, k: nat)
    requires k < |lines|
  {
    StringOpen(lines[..k + 1])
  }

  /** The corrected flag for every line. */
  function StringFlags(lines: seq<string>): (flags: seq<bool>)
    ensures |flags| == |lines|
  {
    seq(|lines|, k requires 0 <= k < |lines| => InStringAt(lines, k))
  }

  /**
   * The corrected flag changes exactly at a line with an odd number of
   * triple quotes: a line holding a whole triple-quoted string leaves it
   * as it was.
   */
  lemma StringFlagStep(lines: seq<string>, k: nat)
    requires k < |lines|
    ensures k == 0 ==> InStringAt(lines, k) == TogglesString(lines[0])
    ensures k > 0 ==> InStringAt(lines, k) == (TogglesString(lines[k]) != InStringAt(lines, k - 1))
  {
    assert lines[..k + 1][..k] == lines[..k];
    if k == 0 {
      assert lines[..1][..0] == [];
      assert !StringOpen(lines[..1][..0]);
    }
  }

  /** The flag the corrected loop carries past line k is the one for line k. */
  lemma StringFlagAdvance(lines: seq<string>, k: nat, before: bool)
    requires k < |lines| && before == StringOpen(lines[..k])
    ensures (TogglesString(lines[k]) != before) == InStringAt(lines, k)
  {
    assert lines[..k + 1][..k] == lines[..k];
  }

  /** For a line with at most one triple quote, the two tests for flipping the flag agree. */
  lemma TogglesWhenSingle(line: string)
    requires TripleQuotes(line) <= 1
    ensures TogglesString(line) == HasTripleQuote(line)
  {
    CountPositive(line, TripleDouble);
    CountPositive(line, TripleSingle);
  }

  /** Where no line holds two triple quotes, the corrected flag is the script's. */
  lemma {:induction false} StringOpenAgrees(lines: seq<string>)
    requires forall k :: 0 <= k < |lines| ==> TripleQuotes(lines[k]) <= 1
    ensures StringOpen(lines) == (TripleQuoteLines(lines) % 2 == 1)
    decreases |lines|
  {
    if lines != [] {
      var init := lines[..|lines| - 1];
      assert forall k :: 0 <= k < |init| ==> init[k] == lines[k];
      StringOpenAgrees(init);
      TogglesWhenSingle(lines[|lines| - 1]);
    }
  }

  /**
   * The correction changes nothing for text in which no line holds more
   * than one triple quote: both loops then carry the same flag.
   */
  lemma FlagsAgree(lines: seq<string>)
    requires forall k :: 0 <= k < |lines| ==> TripleQuotes(lines[k]) <= 1
    ensures StringFlags(lines) == Flags(lines)
  {
    forall k | 0 <= k < |lines|
      ensures InStringAt(lines, k) == InSqlAt(lines, k)
    {
      assert forall j :: 0 <= j < k + 1 ==> lines[..k + 1][j] == lines[j];
      StringOpenAgrees(lines[..k + 1]);
    }
  }

  /** With the corrected flag, the comment after the one-line docstring is outside any string and is kept. */
  lemma OneLineDocstringClosed()
    ensures !InStringAt([DocstringLine, CommentLine], 1)
    ensures ConvertLine(CommentLine, InStringAt([DocstringLine, CommentLine], 1)) == CommentLine
  {
    var lines := [DocstringLine, CommentLine];
    DocstringLineQuotes();
    CommentLineNotSql();
    CountAbsent(CommentLine, TripleDouble);
    CountAbsent(CommentLine, TripleSingle);
    assert !TogglesString(lines[0]) && !TogglesString(lines[1]);
    StringFlagStep(lines, 0);
    StringFlagStep(lines, 1);
  }

  /**
   * convert_sql_file with the flag flipped only by a line holding an odd
   * number of triple quotes, so that it says whether a triple-quoted string
   * is open.
   */
  method ConvertSqlByParity(content: string) returns (converted: string)
    ensures |Split(converted, '\n')| == |Split(content, '\n')|
    ensures ConvertedUpTo(Split(content, '\n'), Split(converted, '\n'), StringFlags(Split(content, '\n')))
    ensures '?' !in content ==> converted == content
  {
    var lines := Split(content, '\n');
    ghost var flags := StringFlags(lines);
    var newLines: seq<string> := [];
    var inSqlString := false;
    for k := 0 to |lines|
      invariant |newLines| == k
      invariant inSqlString == StringOpen(lines[..k])
      invariant ConvertedUpTo(lines, newLines, flags)
    {
      var line := lines[k];
      StringFlagAdvance(lines, k, inSqlString);
      if TogglesString(line) {
        inSqlString := !inSqlString;
      }
      assert inSqlString == flags[k];
      line := ConvertOneLine(line, inSqlString);
      ConvertedExtend(lines, newLines, flags, line);
      newLines := newLines + [line];
    }
    converted := Join(newLines, '\n');
    ConvertedJoin(content, newLines, flags);
  }
}
