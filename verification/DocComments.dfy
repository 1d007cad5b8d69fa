/**
 * The doc-comment formatter: proto comment lines in, rustdoc lines out.
 * A CommonMark reader of the output must see the blocks the author wrote, every block closed
 * and every block inert.
 */
module DocComments {
  import opened Text
  import opened Fences
  import opened InfoStrings
  import opened Sanitizer

  // ----- the formatter -----

  /** Outside of blocks, inside the fence put around indented code, or inside an author's fence. */
  datatype Mode = Outside | InCode | InFence(ch: char, len: nat)

  function NextIsIndented(lines: seq<string>): bool {
    if lines == [] then false
    else if lines[0] != "" then IsIndented(lines[0])
    else NextIsIndented(lines[1..])
  }

  function Opener(f: Fence): string {
    Pad(Repeat(' ', f.indent) + Repeat(f.ch, f.len) + FenceInfo(f.info))
  }

  function FromOutside(links: Links, line: string): (Mode, seq<string>) {
    match FenceMarker(line)
    case Some(f) => (InFence(f.ch, f.len), [Opener(f)])
    case None =>
      if IsIndented(line) then (InCode, [" ```text", Pad(StripIndent(line))])
      else if line == "" then (Outside, [""])
      else (Outside, [Pad(Sanitize(links, line))])
  }

  predicate ClosesFence(line: string, ch: char, len: nat) {
    var m := FenceMarker(line);
    m.Some? && m.value.Closes(ch, len)
  }

  /** What one line of the comment turns into; `rest` is what follows it. */
  function Step(links: Links, mode: Mode, line: string, rest: seq<string>): (Mode, seq<string>) {
    match mode
    case InFence(ch, len) => (if ClosesFence(line, ch, len) then Outside else mode, [Pad(line)])
    case InCode =>
      if IsIndented(line) then (InCode, [Pad(StripIndent(line))])
      else if line == "" && NextIsIndented(rest) then (InCode, [""])
      else
        var (next, out) := FromOutside(links, line);
        (next, [" ```"] + out)
    case Outside => FromOutside(links, line)
  }

  function Ending(mode: Mode): seq<string> {
    match mode
    case Outside => []
    case InCode => [" ```"]
    case InFence(ch, len) => [" " + Repeat(ch, len)]
  }

  function Rendered(links: Links, mode: Mode, lines: seq<string>): seq<string>
    decreases |lines|
  {
    if lines == [] then Ending(mode)
    else
      var (next, out) := Step(links, mode, lines[0], lines[1..]);
      out + Rendered(links, next, lines[1..])
  }

  function ModeOf(inCodeBlock: bool, openFence: Option<(char, nat)>): Mode {
    match openFence
    case Some((ch, len)) => InFence(ch, len)
    case None => if inCodeBlock then InCode else Outside
  }

  lemma RenderedStep(links: Links, mode: Mode, lines: seq<string>, i: nat, out: seq<string>, whole: seq<string>)
    requires i < |lines| && out + Rendered(links, mode, lines[i..]) == whole
    ensures var (next, more) := Step(links, mode, lines[i], lines[i + 1..]);
            (out + more) + Rendered(links, next, lines[i + 1..]) == whole
  {
    DropDrop(lines, i, 1);
    var (next, more) := Step(links, mode, lines[i], lines[i + 1..]);
    ConcatIsAssociative(out, more, Rendered(links, next, lines[i + 1..]));
  }

  /** One line outside of the author's fences; `out` grows by what the line turns into. */
  method ClassifyLine(links: Links, line: string, out: seq<string>)
    returns (r: seq<string>, inCodeBlock: bool, openFence: Option<(char, nat)>)
    ensures var (next, more) := FromOutside(links, line);
            r == out + more && ModeOf(inCodeBlock, openFence) == next && !(inCodeBlock && openFence.Some?)
  {
    r, inCodeBlock, openFence := out, false, None;
    var marker := FenceMarker(line);
    if marker.Some? {
      var fence := marker.value;
      openFence := Some((fence.ch, fence.len));
      var info := RewriteInfo(fence.info);
      r := r + [Pad(Repeat(' ', fence.indent) + Repeat(fence.ch, fence.len) + info)];
    } else if IsIndented(line) {
      r := r + [" ```text"];
      inCodeBlock := true;
      r := r + [Pad(StripIndent(line))];
    } else if line == "" {
      r := r + [""];
    } else {
      var clean := SanitizeLine(links, line);
      r := r + [Pad(clean)];
    }
  }

  method FormatLine(links: Links, line: string, rest: seq<string>, out: seq<string>,
                    inCode: bool, open: Option<(char, nat)>)
    returns (r: seq<string>, inCodeBlock: bool, openFence: Option<(char, nat)>)
    requires !(inCode && open.Some?)
    ensures var (next, more) := Step(links, ModeOf(inCode, open), line, rest);
            r == out + more && ModeOf(inCodeBlock, openFence) == next && !(inCodeBlock && openFence.Some?)
  {
    r, inCodeBlock, openFence := out, inCode, open;
    if open.Some? {
      var marker := FenceMarker(line);
      if marker.Some? && marker.value.Closes(open.value.0, open.value.1) { openFence := None; }
      return r + [Pad(line)], inCodeBlock, openFence;
    }
    if inCode {
      if IsIndented(line) { return r + [Pad(StripIndent(line))], inCodeBlock, openFence; }
      if line == "" && NextIsIndented(rest) { return r + [""], inCodeBlock, openFence; }
      r := r + [" ```"];
    }
    r, inCodeBlock, openFence := ClassifyLine(links, line, r);
  }

  method DocLines(links: Links, lines: seq<string>) returns (out: seq<string>)
    ensures out == Rendered(links, Outside, lines)
  {
    out := [];
    var inCodeBlock := false;
    var openFence: Option<(char, nat)> := None;
    var i := 0;
    ghost var whole := Rendered(links, Outside, lines);
    assert lines[0..] == lines && [] + whole == whole;
    while i < |lines|
      invariant 0 <= i <= |lines| && !(inCodeBlock && openFence.Some?)
      invariant out + Rendered(links, ModeOf(inCodeBlock, openFence), lines[i..]) == whole
    {
      RenderedStep(links, ModeOf(inCodeBlock, openFence), lines, i, out, whole);
      out, inCodeBlock, openFence := FormatLine(links, lines[i], lines[i + 1..], out, inCodeBlock, openFence);
      i := i + 1;
    }
    if inCodeBlock { out := out + [" ```"]; }
    if openFence.Some? { out := out + [" " + Repeat(openFence.value.0, openFence.value.1)]; }
  }

  /** The field tag goes behind the rendered comment and a blank line. */
  method DocWithTag(links: Links, comment: Option<seq<string>>, tag: seq<string>) returns (out: seq<string>)
    ensures out == WithTag(links, comment, tag)
  {
    out := DocLines(links, tag);
    if comment.Some? {
      var body := DocLines(links, comment.value);
      out := body + [""] + out;
    }
  }

  function WithTag(links: Links, comment: Option<seq<string>>, tag: seq<string>): seq<string> {
    (if comment.Some? then Rendered(links, Outside, comment.value) + [""] else [])
    + Rendered(links, Outside, tag)
  }

  // ----- what a CommonMark reader sees -----

  datatype Event =
    | Open(ch: char, len: nat, info: string)
    | Content(line: string)
    | Close
    | Prose(line: string)
    | IndentedCode(line: string)

  /** The fence that is open, if any. */
  type Reader = Option<(char, nat)>

  function ReadLine(at: Reader, line: string): (Event, Reader) {
    match at
    case Some((ch, len)) => if ClosesFence(line, ch, len) then (Close, None) else (Content(line), at)
    case None =>
      match FenceMarker(line)
      case Some(f) => (Open(f.ch, f.len, f.info), Some((f.ch, f.len)))
      case None => (if IsIndented(line) then IndentedCode(line) else Prose(line), None)
  }

  function Read(at: Reader, lines: seq<string>): (seq<Event>, Reader)
    decreases |lines|
  {
    if lines == [] then ([], at)
    else
      var (event, next) := ReadLine(at, lines[0]);
      var (events, last) := Read(next, lines[1..]);
      ([event] + events, last)
  }

  lemma ReadFirst(at: Reader, line: string, more: seq<string>)
    ensures var (event, next) := ReadLine(at, line);
            var (events, last) := Read(next, more);
            Read(at, [line] + more) == ([event] + events, last)
  {
    assert ([line] + more)[1..] == more;
  }

  lemma {:induction false} ReadAppend(at: Reader, a: seq<string>, b: seq<string>)
    ensures var (events, next) := Read(at, a);
            var (more, last) := Read(next, b);
            Read(at, a + b) == (events + more, last)
    decreases |a|
  {
    if a == [] {
      assert a + b == b;
      assert [] + Read(at, b).0 == Read(at, b).0;
    } else {
      var (event, next) := ReadLine(at, a[0]);
      ReadAppend(next, a[1..], b);
      ReadFirst(at, a[0], a[1..] + b);
      assert a + b == [a[0]] + (a[1..] + b);
      ConcatIsAssociative([event], Read(next, a[1..]).0, Read(Read(next, a[1..]).1, b).0);
    }
  }

  // ----- what the author wrote -----

  /** The first of `lines` that closes the fence, or their number. */
  function FirstCloser(ch: char, len: nat, lines: seq<string>): (k: nat)
    ensures k <= |lines|
    ensures forall i | 0 <= i < k :: !ClosesFence(lines[i], ch, len)
    ensures k < |lines| ==> ClosesFence(lines[k], ch, len)
  {
    if lines == [] || ClosesFence(lines[0], ch, len) then 0 else 1 + FirstCloser(ch, len, lines[1..])
  }

  /** How many of `lines` make up the block of indented code they start with. */
  function CodeLength(lines: seq<string>): (k: nat)
    ensures k <= |lines|
  {
    if lines == [] then 0
    else if IsIndented(lines[0]) then 1 + CodeLength(lines[1..])
    else if lines[0] == "" && CodeLength(lines[1..]) > 0 then 1 + CodeLength(lines[1..])
    else 0
  }

  /** Indented and blank lines that end in an indented one. */
  ghost predicate IsCodeBlock(lines: seq<string>) {
    && (forall i | 0 <= i < |lines| :: IsIndented(lines[i]) || lines[i] == "")
    && (lines != [] ==> IsIndented(lines[|lines| - 1]))
  }

  /** A block of indented code is as long as it can be. */
  lemma {:induction false} CodeLengthIsLongest(lines: seq<string>, n: nat)
    requires n <= |lines|
    ensures IsCodeBlock(lines[..CodeLength(lines)])
    ensures IsCodeBlock(lines[..n]) ==> n <= CodeLength(lines)
  {
    if lines != [] {
      var k, rest := CodeLength(lines), lines[1..];
      CodeLengthIsLongest(rest, if n > 0 then n - 1 else 0);
      var m := CodeLength(rest);
      if k > 0 {
        assert lines[..k] == [lines[0]] + rest[..m];
      }
      if n > 0 {
        assert lines[..n] == [lines[0]] + rest[..n - 1];
        assert lines[..n][1..] == rest[..n - 1];
        if IsCodeBlock(lines[..n]) { CodeBlockTail(lines[..n]); }
      }
    }
  }

  lemma CodeBlockTail(lines: seq<string>)
    requires IsCodeBlock(lines) && lines != []
    ensures IsCodeBlock(lines[1..]) && (IsIndented(lines[0]) || (lines[0] == "" && |lines| > 1))
  {
  }

  lemma {:induction false} LookAhead(lines: seq<string>)
    ensures NextIsIndented(lines) <==> CodeLength(lines) > 0
  {
    if lines != [] && lines[0] == "" { LookAhead(lines[1..]); }
  }

  /** A line as it is read: behind one space, unless it is blank or begins with one. */
  function Spaced(line: string): string {
    if line != "" && line[0] != ' ' then " " + line else line
  }

  /** The author's code: what is behind the fourth column, but all of a line that goes on with backticks there. */
  function CodeText(line: string): string {
    match Indentation(line)
    case None => line
    case Some(n) => if n > |line| || BacktickLed(line[n..]) then line else line[n..]
  }

  function FenceContents(lines: seq<string>): seq<Event> {
    seq(|lines|, i requires 0 <= i < |lines| => Content(Spaced(lines[i])))
  }

  function CodeContents(lines: seq<string>): seq<Event> {
    seq(|lines|, i requires 0 <= i < |lines| => Content(Spaced(CodeText(lines[i]))))
  }

  /** The formatter writes the author's code, and nothing else. */
  lemma CodeLineIs(line: string)
    requires IsIndented(line) || line == ""
    ensures Pad(StripIndent(line)) == Spaced(CodeText(line))
  {
    IndentedForm(line);
    if IsIndented(line) { StripIndentIs(line); }
    PadIs(StripIndent(line));
  }

  function AfterCloser(lines: seq<string>, k: nat): (r: seq<string>)
    ensures |r| <= |lines|
  {
    if k < |lines| then lines[k + 1..] else []
  }

  /** The blocks of a comment, each with its content. */
  function Meaning(links: Links, lines: seq<string>): seq<Event>
    decreases |lines|
  {
    if lines == [] then []
    else
      match FenceMarker(lines[0])
      case Some(f) =>
        var rest := lines[1..];
        var k := FirstCloser(f.ch, f.len, rest);
        [Open(f.ch, f.len, FenceInfo(f.info))]
        + (FenceContents(rest[..k]) + [Close] + Meaning(links, AfterCloser(rest, k)))
      case None =>
        if IsIndented(lines[0]) then
          var k := CodeLength(lines);
          [Open('`', 3, "text")] + (CodeContents(lines[..k]) + [Close] + Meaning(links, lines[k..]))
        else [Prose(Spaced(Sanitize(links, lines[0])))] + Meaning(links, lines[1..])
  }

  /** No opening tilde fence has a word that is kept and begins with a tilde right behind its run. */
  predicate OpenersClean(lines: seq<string>)
    decreases |lines|
  {
    if lines == [] then true
    else
      match FenceMarker(lines[0])
      case Some(f) =>
        !(f.ch == '~' && TildeLed(f.info))
        && OpenersClean(AfterCloser(lines[1..], FirstCloser(f.ch, f.len, lines[1..])))
      case None =>
        OpenersClean(if IsIndented(lines[0]) then lines[CodeLength(lines)..] else lines[1..])
  }

  // ----- reading the output back -----

  /** The opener that is emitted, as a marker: a tilde-led info string lends tildes to the run. */
  function Emitted(f: Fence): Fence {
    var info := FenceInfo(f.info);
    var n := RunLength(info, f.ch);
    Fence(if f.indent == 0 then 1 else f.indent, f.ch, f.len + n, info[n..])
  }

  lemma RunJoins(c: char, len: nat, info: string)
    ensures var n := RunLength(info, c); Repeat(c, len) + info == Repeat(c, len + n) + info[n..]
  {
    var n := RunLength(info, c);
    RunLengthIs(info, c);
    assert Repeat(c, len) + Repeat(c, n) == Repeat(c, len + n);
    assert info == info[..n] + info[n..];
  }

  lemma PaddedText(indent: nat, c: char, len: nat, info: string)
    requires len > 0 && c != ' '
    ensures Pad(Repeat(' ', indent) + Repeat(c, len) + info) ==
            Repeat(' ', if indent == 0 then 1 else indent) + Repeat(c, len) + info
  {
    var line := Repeat(' ', indent) + Repeat(c, len) + info;
    assert line[0] == if indent == 0 then c else ' ';
  }

  lemma RunMoves(indent: string, run: string, info: string, longer: string, rest: string)
    requires run + info == longer + rest
    ensures indent + run + info == indent + longer + rest
  {
    ConcatIsAssociative(indent, run, info);
    ConcatIsAssociative(indent, longer, rest);
  }

  /** A padded marker with any info string, as the fence it is read as. */
  lemma MarkerAsFence(indent: nat, ch: char, len: nat, info: string)
    requires len > 0 && ch != ' '
    ensures var n := RunLength(info, ch);
            Pad(Repeat(' ', indent) + Repeat(ch, len) + info) ==
            FenceText(Fence(if indent == 0 then 1 else indent, ch, len + n, info[n..]))
  {
    var n, m := RunLength(info, ch), if indent == 0 then 1 else indent;
    RunJoins(ch, len, info);
    PaddedText(indent, ch, len, info);
    RunMoves(Repeat(' ', m), Repeat(ch, len), info, Repeat(ch, len + n), info[n..]);
  }

  lemma OpenerReadsBack(f: Fence)
    requires IsFence(f)
    ensures FenceMarker(Opener(f)) == Some(Emitted(f))
    ensures if f.ch == '~' && TildeLed(f.info) then Emitted(f).len > f.len
            else Emitted(f).len == f.len && Emitted(f).info == FenceInfo(f.info)
  {
    InfoShape(f.info);
    RunOf(FenceInfo(f.info), f.ch);
    OpenerText(f);
    EmittedIsFence(f);
    MarkerOf(Opener(f), Emitted(f));
  }

  lemma OpenerText(f: Fence)
    requires IsFence(f)
    ensures Opener(f) == FenceText(Emitted(f))
  {
    MarkerAsFence(f.indent, f.ch, f.len, FenceInfo(f.info));
  }

  lemma EmittedIsFence(f: Fence)
    requires IsFence(f)
    ensures IsFence(Emitted(f))
  {
    InfoShape(f.info);
    RunLengthIs(FenceInfo(f.info), f.ch);
  }

  lemma RunOf(info: string, ch: char)
    requires info != ""
    ensures RunLength(info, ch) == 0 <==> info[0] != ch
    ensures ch !in info ==> RunLength(info, ch) == 0
    ensures RunLength(info, ch) == 0 ==> info[RunLength(info, ch)..] == info
  {
    assert info[0] in info;
    RunLengthIs(info, ch);
  }

  lemma CloserReadsBack(ch: char, len: nat)
    requires (ch == '`' || ch == '~') && len >= 3
    ensures ClosesFence(" " + Repeat(ch, len), ch, len)
  {
    var f := Fence(1, ch, len, "");
    TextMarker(f);
    assert FenceText(f) == " " + Repeat(ch, len);
  }

  lemma CodeFenceReadsBack()
    ensures ClosesFence(" ```", '`', 3)
    ensures ReadLine(None, " ```text") == (Open('`', 3, "text"), Some(('`', 3)))
  {
    CloserReadsBack('`', 3);
    assert " " + Repeat('`', 3) == " ```";
    var f := Fence(1, '`', 3, "text");
    TextMarker(f);
    assert FenceText(f) == " ```text";
  }

  lemma BlankReadsBack()
    ensures FenceMarker("") == None && !IsIndented("")
  {
  }

  lemma ProseReadsBack(links: Links, line: string)
    requires NoBacktickKeys(links) && IsProse(line)
    ensures ReadLine(None, Pad(Sanitize(links, line))) == (Prose(Pad(Sanitize(links, line))), None)
  {
    SanitizedIsProse(links, line);
    PadKeepsIndent(Sanitize(links, line));
    PadKeepsMarker(Sanitize(links, line));
  }

  lemma InFenceRendered(links: Links, ch: char, len: nat, lines: seq<string>)
    requires lines != []
    ensures var next := if ClosesFence(lines[0], ch, len) then Outside else InFence(ch, len);
            Rendered(links, InFence(ch, len), lines) == [Pad(lines[0])] + Rendered(links, next, lines[1..])
  {
  }

  lemma PaddedCloses(line: string, ch: char, len: nat)
    ensures ClosesFence(Pad(line), ch, len) <==> ClosesFence(line, ch, len)
  {
    PadKeepsMarker(line);
  }

  lemma FenceContentsStep(lines: seq<string>, k: nat)
    requires 0 < k <= |lines|
    ensures FenceContents(lines[..k]) == [Content(Pad(lines[0]))] + FenceContents(lines[1..][..k - 1])
    ensures AfterCloser(lines, k) == AfterCloser(lines[1..], k - 1)
  {
  }

  lemma ContentJoins(content: Event, contents: seq<Event>, more: seq<Event>)
    ensures [content] + (contents + [Close] + more) == [content] + contents + [Close] + more
  {
  }

  lemma NoContents(contents: seq<Event>, more: seq<Event>)
    requires contents == []
    ensures contents + [Close] + more == [Close] + more
  {
  }

  /** What is read from inside an author's fence: its content, its end, and then the rest. */
  lemma {:induction false} FenceReadsBack(links: Links, ch: char, len: nat, lines: seq<string>)
    requires (ch == '`' || ch == '~') && len >= 3
    ensures var k := FirstCloser(ch, len, lines);
            var (events, last) := Read(None, Rendered(links, Outside, AfterCloser(lines, k)));
            Read(Some((ch, len)), Rendered(links, InFence(ch, len), lines)) ==
            (FenceContents(lines[..k]) + [Close] + events, last)
  {
    if lines == [] {
      CloserReadsBack(ch, len);
      ReadFirst(Some((ch, len)), " " + Repeat(ch, len), []);
      NoContents(FenceContents([]), []);
    } else {
      var k := FirstCloser(ch, len, lines);
      InFenceRendered(links, ch, len, lines);
      PaddedCloses(lines[0], ch, len);
      if k > 0 {
        ReadFirst(Some((ch, len)), Pad(lines[0]), Rendered(links, InFence(ch, len), lines[1..]));
        FenceReadsBack(links, ch, len, lines[1..]);
        FenceContentsStep(lines, k);
        ContentJoins(Content(Pad(lines[0])), FenceContents(lines[1..][..k - 1]),
                     Read(None, Rendered(links, Outside, AfterCloser(lines, k))).0);
      } else {
        ReadFirst(Some((ch, len)), Pad(lines[0]), Rendered(links, Outside, lines[1..]));
        NoContents(FenceContents(lines[..0]), Read(None, Rendered(links, Outside, lines[1..])).0);
      }
    }
  }

  /** Indented code continues with an indented line, or with a blank one that more of it follows. */
  lemma InCodeContinues(links: Links, lines: seq<string>)
    requires CodeLength(lines) > 0
    ensures Rendered(links, InCode, lines) == [Pad(StripIndent(lines[0]))] + Rendered(links, InCode, lines[1..])
    ensures CodeLength(lines) == 1 + CodeLength(lines[1..])
    ensures !ClosesFence(Pad(StripIndent(lines[0])), '`', 3)
  {
    CodeLineStep(links, lines[0], lines[1..]);
    CodeLineClosesNothing(lines[0]);
  }

  lemma CodeLineStep(links: Links, line: string, rest: seq<string>)
    requires IsIndented(line) || (line == "" && CodeLength(rest) > 0)
    ensures Step(links, InCode, line, rest) == (InCode, [Pad(StripIndent(line))])
  {
    LookAhead(rest);
    BlankReadsBack();
  }

  lemma CodeLineClosesNothing(line: string)
    requires IsIndented(line) || line == ""
    ensures !ClosesFence(Pad(StripIndent(line)), '`', 3)
  {
    BlankReadsBack();
    if line != "" { StrippedClosesNothing(line); }
  }

  lemma InCodeEnds(links: Links, lines: seq<string>)
    requires CodeLength(lines) == 0
    ensures Rendered(links, InCode, lines) == [" ```"] + Rendered(links, Outside, lines)
  {
    if lines != [] {
      LookAhead(lines[1..]);
      var (next, out) := FromOutside(links, lines[0]);
      assert Step(links, InCode, lines[0], lines[1..]) == (next, [" ```"] + out);
      ConcatIsAssociative([" ```"], out, Rendered(links, next, lines[1..]));
    }
  }

  lemma CodeContentsStep(lines: seq<string>, k: nat)
    requires 0 < k <= |lines| && (IsIndented(lines[0]) || lines[0] == "")
    ensures CodeContents(lines[..k]) == [Content(Pad(StripIndent(lines[0])))] + CodeContents(lines[1..][..k - 1])
    ensures lines[k..] == lines[1..][k - 1..]
  {
    CodeLineIs(lines[0]);
  }

  /** What is read from inside the fence around indented code. */
  lemma {:induction false} CodeReadsBack(links: Links, lines: seq<string>)
    ensures var k := CodeLength(lines);
            var (events, last) := Read(None, Rendered(links, Outside, lines[k..]));
            Read(Some(('`', 3)), Rendered(links, InCode, lines)) == (CodeContents(lines[..k]) + [Close] + events, last)
  {
    var k := CodeLength(lines);
    if k > 0 {
      InCodeContinues(links, lines);
      ReadFirst(Some(('`', 3)), Pad(StripIndent(lines[0])), Rendered(links, InCode, lines[1..]));
      CodeReadsBack(links, lines[1..]);
      CodeContentsStep(lines, k);
      ContentJoins(Content(Pad(StripIndent(lines[0]))), CodeContents(lines[1..][..k - 1]),
                   Read(None, Rendered(links, Outside, lines[k..])).0);
    } else {
      InCodeEnds(links, lines);
      CodeFenceReadsBack();
      ReadFirst(Some(('`', 3)), " ```", Rendered(links, Outside, lines));
      NoContents(CodeContents(lines[..0]), Read(None, Rendered(links, Outside, lines)).0);
      assert lines[k..] == lines;
    }
  }

  /** A comment that starts with a fence: the opener is read as written, or as a longer run. */
  lemma FenceStep(links: Links, lines: seq<string>, f: Fence, k: nat)
    requires lines != [] && FenceMarker(lines[0]) == Some(f) && k == FirstCloser(f.ch, f.len, lines[1..])
    ensures var (events, last) := Read(None, Rendered(links, Outside, AfterCloser(lines[1..], k)));
            var (all, end) := Read(None, Rendered(links, Outside, lines));
            if f.ch == '~' && TildeLed(f.info) then
              all != [] && all[0] != Open(f.ch, f.len, FenceInfo(f.info))
            else
              && end == last
              && all == [Open(f.ch, f.len, FenceInfo(f.info))] + (FenceContents(lines[1..][..k]) + [Close] + events)
  {
    MarkerText(lines[0]);
    OpenerReadsBack(f);
    assert Rendered(links, Outside, lines) ==
           [Opener(f)] + Rendered(links, InFence(f.ch, f.len), lines[1..]);
    ReadFirst(None, Opener(f), Rendered(links, InFence(f.ch, f.len), lines[1..]));
    if !(f.ch == '~' && TildeLed(f.info)) { FenceReadsBack(links, f.ch, f.len, lines[1..]); }
  }

  lemma IndentedRendered(links: Links, lines: seq<string>)
    requires lines != [] && IsIndented(lines[0])
    ensures Rendered(links, Outside, lines) == [" ```text"] + Rendered(links, InCode, lines)
  {
    InCodeContinues(links, lines);
    var more := Rendered(links, InCode, lines[1..]);
    assert Step(links, Outside, lines[0], lines[1..]) == (InCode, [" ```text", Pad(StripIndent(lines[0]))]);
    assert [" ```text", Pad(StripIndent(lines[0]))] == [" ```text"] + [Pad(StripIndent(lines[0]))];
    ConcatIsAssociative([" ```text"], [Pad(StripIndent(lines[0]))], more);
  }

  /** A comment that starts with indented code. */
  lemma CodeStep(links: Links, lines: seq<string>, k: nat)
    requires lines != [] && IsIndented(lines[0]) && k == CodeLength(lines)
    ensures var (events, last) := Read(None, Rendered(links, Outside, lines[k..]));
            Read(None, Rendered(links, Outside, lines)) ==
            ([Open('`', 3, "text")] + (CodeContents(lines[..k]) + [Close] + events), last)
  {
    CodeFenceReadsBack();
    CodeReadsBack(links, lines);
    IndentedRendered(links, lines);
    ReadFirst(None, " ```text", Rendered(links, InCode, lines));
  }

  lemma ProseStep(links: Links, lines: seq<string>)
    requires NoBacktickKeys(links) && lines != [] && IsProse(lines[0])
    ensures var (events, last) := Read(None, Rendered(links, Outside, lines[1..]));
            Read(None, Rendered(links, Outside, lines)) ==
            ([Prose(Pad(Sanitize(links, lines[0])))] + events, last)
  {
    ProseReadsBack(links, lines[0]);
    var more := Rendered(links, Outside, lines[1..]);
    assert Rendered(links, Outside, lines) == [Pad(Sanitize(links, lines[0]))] + more;
    ReadFirst(None, Pad(Sanitize(links, lines[0])), more);
  }

  /**
   * Reading the output back gives exactly the blocks the author wrote if and only if no opening tilde
   * fence brings a tilde right behind its run; and then every block has been closed.
   */
  lemma {:induction false} ReadsAsWritten(links: Links, lines: seq<string>)
    requires NoBacktickKeys(links)
    ensures OpenersClean(lines) <==> Read(None, Rendered(links, Outside, lines)).0 == Meaning(links, lines)
    ensures OpenersClean(lines) ==> Read(None, Rendered(links, Outside, lines)).1 == None
    decreases |lines|
  {
    if lines != [] {
      match FenceMarker(lines[0])
      case Some(f) =>
        var rest := lines[1..];
        var k := FirstCloser(f.ch, f.len, rest);
        var after := AfterCloser(rest, k);
        FenceStep(links, lines, f, k);
        ReadsAsWritten(links, after);
        BlockCancels(Open(f.ch, f.len, FenceInfo(f.info)), FenceContents(rest[..k]),
                     Read(None, Rendered(links, Outside, after)).0, Meaning(links, after));
      case None =>
        if IsIndented(lines[0]) {
          var k := CodeLength(lines);
          CodeStep(links, lines, k);
          ReadsAsWritten(links, lines[k..]);
          BlockCancels(Open('`', 3, "text"), CodeContents(lines[..k]),
                       Read(None, Rendered(links, Outside, lines[k..])).0, Meaning(links, lines[k..]));
        } else {
          ProseStep(links, lines);
          ReadsAsWritten(links, lines[1..]);
          PrefixCancels([Prose(Pad(Sanitize(links, lines[0])))],
                        Read(None, Rendered(links, Outside, lines[1..])).0, Meaning(links, lines[1..]));
        }
    }
  }

  lemma BlockCancels(open: Event, contents: seq<Event>, a: seq<Event>, b: seq<Event>)
    ensures [open] + (contents + [Close] + a) == [open] + (contents + [Close] + b) <==> a == b
  {
    PrefixCancels(contents + [Close], a, b);
    PrefixCancels([open], contents + [Close] + a, contents + [Close] + b);
  }

  /** Blocks alternate between opening and closing, no fence is compiled, and nothing else is indented code. */
  predicate Sound(events: seq<Event>, inside: bool) {
    if events == [] then !inside
    else
      match events[0]
      case Open(_, _, info) => !inside && Inert(info) && Sound(events[1..], true)
      case Content(_) => inside && Sound(events[1..], true)
      case Close => inside && Sound(events[1..], false)
      case Prose(_) => !inside && Sound(events[1..], false)
      case IndentedCode(_) => false
  }

  lemma {:induction false} SoundBlock(contents: seq<Event>, more: seq<Event>)
    requires forall e | e in contents :: e.Content?
    requires Sound(more, false)
    ensures Sound(contents + [Close] + more, true)
  {
    var all := contents + [Close] + more;
    if contents == [] {
      assert all[1..] == more;
    } else {
      SoundBlock(contents[1..], more);
      assert contents[0] in contents;
      assert all[1..] == contents[1..] + [Close] + more;
    }
  }

  lemma SoundFrom(open: Event, contents: seq<Event>, more: seq<Event>)
    requires open.Open? && Inert(open.info) && Sound(more, false)
    requires forall e | e in contents :: e.Content?
    ensures Sound([open] + (contents + [Close] + more), false)
  {
    SoundBlock(contents, more);
    assert ([open] + (contents + [Close] + more))[1..] == contents + [Close] + more;
  }

  lemma {:induction false} MeaningIsSound(links: Links, lines: seq<string>)
    ensures Sound(Meaning(links, lines), false)
    decreases |lines|
  {
    if lines != [] {
      match FenceMarker(lines[0])
      case Some(f) =>
        var rest := lines[1..];
        var k := FirstCloser(f.ch, f.len, rest);
        var after := AfterCloser(rest, k);
        MeaningIsSound(links, after);
        InfoIsInert(f.info);
        SoundFrom(Open(f.ch, f.len, FenceInfo(f.info)), FenceContents(rest[..k]), Meaning(links, after));
      case None =>
        if IsIndented(lines[0]) {
          var k := CodeLength(lines);
          MeaningIsSound(links, lines[k..]);
          TokensOfJoin(["text"]);
          SoundFrom(Open('`', 3, "text"), CodeContents(lines[..k]), Meaning(links, lines[k..]));
        } else {
          MeaningIsSound(links, lines[1..]);
          assert Meaning(links, lines)[1..] == Meaning(links, lines[1..]);
        }
    }
  }

  /** In particular when no tilde-fence info string contains a tilde. */
  predicate NoTildeInInfo(lines: seq<string>) {
    forall i | 0 <= i < |lines| ::
      var m := FenceMarker(lines[i]); m.Some? && m.value.ch == '~' ==> '~' !in m.value.info
  }

  lemma {:induction false} NoTildeIsClean(lines: seq<string>)
    requires NoTildeInInfo(lines)
    ensures OpenersClean(lines)
    decreases |lines|
  {
    if lines != [] {
      match FenceMarker(lines[0])
      case Some(f) =>
        InfoShape(f.info);
        NoTildeIsClean(AfterCloser(lines[1..], FirstCloser(f.ch, f.len, lines[1..])));
      case None =>
        NoTildeIsClean(if IsIndented(lines[0]) then lines[CodeLength(lines)..] else lines[1..]);
    }
  }

  /** For every such comment the output is closed and inert. */
  lemma OutputIsSafe(links: Links, lines: seq<string>)
    requires NoBacktickKeys(links) && NoTildeInInfo(lines)
    ensures var (events, last) := Read(None, Rendered(links, Outside, lines));
            last == None && Sound(events, false)
  {
    NoTildeIsClean(lines);
    ReadsAsWritten(links, lines);
    MeaningIsSound(links, lines);
  }

  /** The tag behind a comment is read as it is read alone: no fence of the comment reaches it. */
  lemma TagIsOutside(links: Links, comment: seq<string>, tag: seq<string>)
    requires NoBacktickKeys(links) && OpenersClean(comment)
    ensures var (events, last) := Read(None, Rendered(links, Outside, tag));
            Read(None, WithTag(links, Some(comment), tag)) ==
            (Meaning(links, comment) + [Prose("")] + events, last)
  {
    var body, more := Rendered(links, Outside, comment), Rendered(links, Outside, tag);
    ReadsAsWritten(links, comment);
    BlankReadsBack();
    ReadFirst(None, "", more);
    ReadAppend(None, body, [""] + more);
    ConcatIsAssociative(body, [""], more);
    ConcatIsAssociative(Meaning(links, comment), [Prose("")], Read(None, more).0);
  }

  /**
   * The exception is real, for every tilde fence whose info string leads with a tilde: the run in the
   * output is longer, so that the author's closer does not close it and the rest of the page is swallowed.
   */
  lemma TildeSwallows(links: Links, f: Fence)
    requires IsFence(f) && f.ch == '~' && TildeLed(f.info)
    ensures var lines := [FenceText(f), Repeat('~', f.len)];
            && Meaning(links, lines) == [Open('~', f.len, FenceInfo(f.info)), Close]
            && Read(None, Rendered(links, Outside, lines)).1 == Some(('~', Emitted(f).len))
            && Emitted(f).len > f.len
  {
    var first, last := FenceText(f), Repeat('~', f.len);
    var lines := [first, last];
    TextMarker(f);
    BareRun('~', f.len);
    OpenerReadsBack(f);
    assert lines[1..] == [last];
    TildeMeaning(links, f);
    InFenceRendered(links, '~', f.len, [last]);
    PadKeepsMarker(last);
    assert Rendered(links, Outside, lines) == [Opener(f)] + [Pad(last)];
    ReadFirst(None, Opener(f), [Pad(last)]);
    ReadFirst(Some(('~', Emitted(f).len)), Pad(last), []);
    assert [Pad(last)] + [] == [Pad(last)];
  }

  lemma BareRun(c: char, len: nat)
    requires (c == '`' || c == '~') && len >= 3
    ensures FenceMarker(Repeat(c, len)) == Some(Fence(0, c, len, ""))
  {
    var f := Fence(0, c, len, "");
    TextMarker(f);
    assert FenceText(f) == Repeat(c, len);
  }

  lemma TildeMeaning(links: Links, f: Fence)
    requires IsFence(f) && f.ch == '~'
    ensures Meaning(links, [FenceText(f), Repeat('~', f.len)]) == [Open('~', f.len, FenceInfo(f.info)), Close]
  {
    var lines := [FenceText(f), Repeat('~', f.len)];
    TextMarker(f);
    BareRun('~', f.len);
    assert lines[1..] == [Repeat('~', f.len)];
    assert FirstCloser('~', f.len, lines[1..]) == 0;
    assert AfterCloser(lines[1..], 0) == [];
    NoContents(FenceContents(lines[1..][..0]), []);
  }

  lemma TildeExample()
    ensures var f := Fence(0, '~', 3, " ~x");
            IsFence(f) && TildeLed(f.info) && FenceText(f) == "~~~ ~x"
  {
    TokensOfJoin(["~x"]);
    assert " ~x"[1..] == "~x";
    assert Tokens(" ~x") == ["~x"];
  }
}
