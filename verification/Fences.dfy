/**
 * The line-level rules of CommonMark fences that the doc-comment formatter relies on
 * (CommonMark 0.31.2, sections 2.2, 4.4 and 4.5): columns, fence markers, closers and info strings.
 * Columns are counted on the string itself.
 */
module Fences {
  import opened Text

  const INDENT_COLUMNS := 4

  // ----- indentation -----

  /** Where `line` reaches `columns` of leading white space, given that `line[..i]` fills `column` of them. */
  function SplitFrom(line: string, i: nat, column: nat, columns: nat): (r: Option<nat>)
    requires i <= |line|
    ensures r.Some? ==> i <= r.value <= |line|
    decreases |line| - i
  {
    if column >= columns then Some(i)
    else if i == |line| then None
    else if line[i] == ' ' then SplitFrom(line, i + 1, column + 1, columns)
    else if line[i] == '\t' then
      SplitFrom(line, i + 1, column + INDENT_COLUMNS - column % INDENT_COLUMNS, columns)
    else None
  }

  method IndentSplit(line: string, columns: nat) returns (r: Option<nat>)
    ensures r == SplitFrom(line, 0, 0, columns)
  {
    var column := 0;
    for offset := 0 to |line|
      invariant column >= 0
      invariant SplitFrom(line, 0, 0, columns) == SplitFrom(line, offset, column, columns)
    {
      if column >= columns { return Some(offset); }
      match line[offset]
      case ' ' => column := column + 1;
      case '\t' => column := column + INDENT_COLUMNS - column % INDENT_COLUMNS;
      case _ => return None;
    }
    r := if column >= columns then Some(|line|) else None;
  }

  predicate IsIndented(line: string) {
    SplitFrom(line, 0, 0, INDENT_COLUMNS).Some?
  }

  /** How many characters fill the first four columns with white space, when they do. */
  function Indentation(line: string): Option<nat> {
    var k := RunLength(line, ' ');
    if k >= 4 then Some(4)
    else if k < |line| && line[k] == '\t' then Some(k + 1)
    else None
  }

  lemma {:induction false} SpacesCount(line: string, k: nat)
    requires k <= |line| && k <= INDENT_COLUMNS && forall i | 0 <= i < k :: line[i] == ' '
    ensures SplitFrom(line, 0, 0, INDENT_COLUMNS) == SplitFrom(line, k, k, INDENT_COLUMNS)
  {
    if k > 0 { SpacesCount(line, k - 1); }
  }

  lemma TabCounts(line: string, k: nat)
    requires k < |line| && k < INDENT_COLUMNS && line[k] == '\t'
    ensures SplitFrom(line, k, k, INDENT_COLUMNS) == Some(k + 1)
  {
    assert k % INDENT_COLUMNS == k;
    assert SplitFrom(line, k + 1, 4, INDENT_COLUMNS) == Some(k + 1);
  }

  /** Counting columns finds four spaces, or a tab after at most three; and nothing else reaches column 4. */
  lemma IndentedForm(line: string)
    ensures SplitFrom(line, 0, 0, INDENT_COLUMNS) == Indentation(line)
  {
    var k := RunLength(line, ' ');
    RunLengthIs(line, ' ');
    SpacesCount(line, if k < 4 then k else 4);
    if k < 4 && k < |line| && line[k] == '\t' { TabCounts(line, k); }
  }

  /** Remove four columns of indentation, except from a line that would then look like a backtick fence. */
  function StripIndent(line: string): string {
    match SplitFrom(line, 0, 0, INDENT_COLUMNS)
    case None => line
    case Some(offset) => if "```" <= TrimStart(line[offset..]) then line else line[offset..]
  }

  /** Behind white space, three backticks. */
  predicate BacktickLed(s: string) {
    exists k | 0 <= k <= |s| - 3 :: IsBlank(s[..k]) && s[k..k + 3] == "```"
  }

  lemma BackticksBehindSpace(s: string)
    ensures "```" <= TrimStart(s) <==> BacktickLed(s)
  {
    var n := BlankStart(s);
    assert s == s[..n] + s[n..];
    TrimStartIs(s, s[..n], s[n..]);
    if "```" <= s[n..] {
      assert s[n..n + 3] == s[n..][..3];
    }
    if k :| 0 <= k <= |s| - 3 && IsBlank(s[..k]) && s[k..k + 3] == "```" {
      assert s == s[..k] + s[k..] && s[k] == s[k..k + 3][0];
      TrimStartIs(s, s[..k], s[k..]);
      assert s[k..][..3] == s[k..k + 3];
    }
  }

  /** Four spaces, or at most three and a tab: nothing else is an indentation, and just that is counted. */
  lemma IndentationIs(line: string)
    ensures IsIndented(line) <==>
            || (|line| >= 4 && line[..4] == "    ")
            || exists k | 0 <= k < 4 && k < |line| :: (forall i | 0 <= i < k :: line[i] == ' ') && line[k] == '\t'
    ensures Indentation(line).Some? <==> IsIndented(line)
    ensures Indentation(line).Some? ==>
              var n := Indentation(line).value;
              0 < n <= 4 && n <= |line| && (forall i | 0 <= i < n - 1 :: line[i] == ' ')
              && (line[n - 1] == '\t' || (n == 4 && line[3] == ' '))
  {
    IndentedForm(line);
    RunLengthIs(line, ' ');
    var n := RunLength(line, ' ');
    if |line| >= 4 && line[..4] == "    " {
      assert forall i | 0 <= i < 4 :: line[i] == line[..4][i];
    }
    if n >= 4 { assert line[..4] == "    "; }
  }

  /** An indented line loses just the characters of its first four columns, or none when backticks follow them. */
  lemma StripIndentIs(line: string)
    requires IsIndented(line)
    ensures Indentation(line).Some? && Indentation(line).value <= |line|
    ensures
      var behind := line[Indentation(line).value..];
      StripIndent(line) == if BacktickLed(behind) then line else behind
  {
    IndentedForm(line);
    IndentationIs(line);
    BackticksBehindSpace(line[Indentation(line).value..]);
  }

  /** The one leading space a rendered line needs; blank lines stay blank. */
  function Pad(line: string): string {
    if line == "" || line[0] == ' ' then line else " " + line
  }

  /** At most one space is put in front of a line, and only of one that has characters but no leading space. */
  lemma PadIs(line: string)
    ensures line == "" ==> Pad(line) == ""
    ensures line != "" && line[0] == ' ' ==> Pad(line) == line
    ensures line != "" && line[0] != ' ' ==> Pad(line) == " " + line
  {
  }

  lemma PadKeepsIndent(line: string)
    ensures IsIndented(Pad(line)) <==> IsIndented(line)
  {
    IndentedForm(line);
    IndentedForm(Pad(line));
    if line != "" && line[0] != ' ' {
      RunLengthUnique(line, ' ', 0);
      RunLengthUnique(Pad(line), ' ', 1);
    }
  }

  // ----- fence markers -----

  /** A marker line: `indent` spaces, then `len` times `ch`, then `info`. */
  datatype Fence = Fence(indent: nat, ch: char, len: nat, info: string) {
    /** Same character, a run at least as long, and only spaces and tabs behind it. */
    predicate Closes(c: char, n: nat) {
      ch == c && len >= n && forall i | 0 <= i < |info| :: info[i] == ' ' || info[i] == '\t'
    }
  }

  function FenceMarker(line: string): (r: Option<Fence>)
  {
    var indent := RunLength(line, ' ');
    var rest := line[indent..];
    if IsIndented(line) || rest == "" || (rest[0] != '`' && rest[0] != '~') then None
    else
      var len := RunLength(rest, rest[0]);
      var info := rest[len..];
      if len < 3 || (rest[0] == '`' && '`' in info) then None
      else Some(Fence(indent, rest[0], len, info))
  }

  function FenceText(f: Fence): string {
    Repeat(' ', f.indent) + Repeat(f.ch, f.len) + f.info
  }

  /** What may stand in a marker: CommonMark 0.31.2, section 4.5. */
  predicate IsFence(f: Fence) {
    && f.indent < INDENT_COLUMNS
    && (f.ch == '`' || f.ch == '~')
    && f.len >= 3
    && (f.info != "" ==> f.info[0] != f.ch)
    && (f.ch == '`' ==> '`' !in f.info)
  }

  lemma MarkerText(line: string)
    requires FenceMarker(line).Some?
    ensures IsFence(FenceMarker(line).value) && line == FenceText(FenceMarker(line).value)
  {
    var f := FenceMarker(line).value;
    var rest := line[f.indent..];
    RunLengthIs(line, ' ');
    RunLengthIs(rest, f.ch);
    PartsJoin(line, f);
    IndentationIs(line);
    IndentedForm(line);
  }

  lemma PartsJoin(line: string, f: Fence)
    requires f.indent + f.len <= |line| && f.info == line[f.indent..][f.len..]
    requires line[..f.indent] == Repeat(' ', f.indent) && line[f.indent..][..f.len] == Repeat(f.ch, f.len)
    ensures line == FenceText(f)
  {
    var rest := line[f.indent..];
    assert line == line[..f.indent] + rest && rest == rest[..f.len] + f.info;
    ConcatIsAssociative(line[..f.indent], rest[..f.len], f.info);
  }

  /** At most three spaces, a run at least as long as the opener's, and only spaces and tabs behind it. */
  predicate IsCloser(line: string, ch: char, len: nat, indent: nat, n: nat, rest: string) {
    && indent <= 3 && n >= len
    && line == Repeat(' ', indent) + Repeat(ch, n) + rest
    && forall i | 0 <= i < |rest| :: rest[i] == ' ' || rest[i] == '\t'
  }

  lemma CloserText(line: string, ch: char, len: nat)
    requires (ch == '`' || ch == '~') && len >= 3
    ensures FenceMarker(line).Some? && FenceMarker(line).value.Closes(ch, len) <==>
            exists indent, n, rest :: IsCloser(line, ch, len, indent, n, rest)
  {
    if FenceMarker(line).Some? && FenceMarker(line).value.Closes(ch, len) {
      var f := FenceMarker(line).value;
      MarkerText(line);
      assert IsCloser(line, ch, len, f.indent, f.len, f.info);
    }
    if indent, n, rest :| IsCloser(line, ch, len, indent, n, rest) {
      MarkerOf(line, Fence(indent, ch, n, rest));
    }
  }

  lemma TextMarker(f: Fence)
    requires IsFence(f)
    ensures FenceMarker(FenceText(f)) == Some(f)
  {
    var line := FenceText(f);
    assert line[f.indent] == f.ch;
    RunLengthUnique(line, ' ', f.indent);
    var rest := line[f.indent..];
    assert rest == Repeat(f.ch, f.len) + f.info;
    RunLengthUnique(rest, f.ch, f.len);
    assert rest[f.len..] == f.info;
    SpacesCount(line, f.indent);
  }

  lemma MarkerOf(line: string, f: Fence)
    requires IsFence(f) && line == FenceText(f)
    ensures FenceMarker(line) == Some(f)
  {
    TextMarker(f);
  }

  /** Padding moves a marker by at most one column and changes nothing else about it. */
  lemma PadKeepsMarker(line: string)
    ensures FenceMarker(Pad(line)).Some? <==> FenceMarker(line).Some?
    ensures FenceMarker(line).Some? ==>
              var f := FenceMarker(line).value;
              FenceMarker(Pad(line)) == Some(f.(indent := if f.indent == 0 then 1 else f.indent))
  {
    if line != "" && line[0] != ' ' {
      PadKeepsIndent(line);
      RunLengthUnique(line, ' ', 0);
      RunLengthUnique(Pad(line), ' ', 1);
      assert Pad(line)[1..] == line == line[0..];
    }
  }

  /** A stripped line never closes the backtick fence put around its block. */
  lemma StrippedClosesNothing(line: string)
    requires IsIndented(line)
    ensures var m := FenceMarker(Pad(StripIndent(line))); m.None? || !m.value.Closes('`', 3)
  {
    var s := StripIndent(line);
    PadKeepsIndent(s);
    PadKeepsMarker(s);
    var m := FenceMarker(s);
    if m.Some? && m.value.ch == '`' { BacktickMarkerTrims(s); }
  }

  lemma BacktickMarkerTrims(s: string)
    requires FenceMarker(s).Some? && FenceMarker(s).value.ch == '`'
    ensures "```" <= TrimStart(s)
  {
    var f := FenceMarker(s).value;
    RunLengthIs(s, ' ');
    RunLengthIs(s[f.indent..], '`');
    TrimSpaces(s, f.indent);
    assert s[f.indent..][..3] == "```";
  }

  lemma {:induction false} TrimSpaces(s: string, n: nat)
    requires n < |s| && (forall i | 0 <= i < n :: s[i] == ' ') && !IsWhiteSpace(s[n])
    ensures TrimStart(s) == s[n..]
  {
    if n > 0 {
      TrimSpaces(s[1..], n - 1);
      assert s[1..][n - 1..] == s[n..];
    }
  }
}
