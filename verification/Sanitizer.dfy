/**
 * Escaping one prose line for rustdoc, and why the result is still prose.
 * How a resolved reference spells its link is a parameter; everything else follows the code.
 */
module Sanitizer {
  import opened Text
  import opened Fences

  /** The types a comment may refer to, and how a link to one is written. */
  datatype Links = Links(
    typeMap: map<string, string>,
    scope: string,
    labelSuffices: (string, string) -> bool,
    linkPath: string -> string)

  /** The position of the first `c` in `s`, or `|s|`. */
  function FirstIndex(s: string, c: char): (n: nat)
    ensures n <= |s|
    ensures n < |s| ==> s[n] == c
  {
    if s == "" || s[0] == c then 0 else 1 + FirstIndex(s[1..], c)
  }

  /** The end of the first run of exactly `run` backticks in `s` from `from` on. */
  function BacktickCloser(s: string, from: nat, run: nat): (r: Option<nat>)
    requires from <= |s|
    ensures r.Some? ==> from <= r.value <= |s|
    decreases |s| - from
  {
    if from == |s| then None
    else
      var n := RunLength(s[from..], '`');
      if n == 0 then BacktickCloser(s, from + 1, run)
      else if n == run then Some(from + n)
      else BacktickCloser(s, from + n, run)
  }

  method RunEnd(s: string, start: nat) returns (i: nat)
    requires start <= |s|
    ensures i == start + RunLength(s[start..], '`') <= |s|
  {
    i := start;
    while i < |s| && s[i] == '`'
      invariant start <= i <= |s|
      invariant forall k | start <= k < i :: s[k] == '`'
    {
      i := i + 1;
    }
    RunLengthUnique(s[start..], '`', i - start);
  }

  method FindBacktickCloser(s: string, from: nat, run: nat) returns (r: Option<nat>)
    requires from <= |s|
    ensures r == BacktickCloser(s, from, run)
  {
    var i := from;
    while i < |s|
      invariant from <= i <= |s|
      invariant BacktickCloser(s, from, run) == BacktickCloser(s, i, run)
    {
      var start := i;
      i := RunEnd(s, start);
      if i == start {
        i := i + 1;
      } else if i - start == run {
        return Some(i);
      }
    }
    r := None;
  }

  /** The `)` that balances an already open `(`, from position `k` of `s` on. */
  function ClosingParen(s: string, k: nat, depth: nat): (r: Option<nat>)
    requires k <= |s| && depth > 0
    ensures r.Some? ==> k <= r.value < |s|
    decreases |s| - k
  {
    if k == |s| then None
    else if s[k] == '(' then ClosingParen(s, k + 1, depth + 1)
    else if s[k] != ')' then ClosingParen(s, k + 1, depth)
    else if depth == 1 then Some(k)
    else ClosingParen(s, k + 1, depth - 1)
  }

  /** The end of the bracketed text that starts at `open`, when no other bracket opens inside. */
  function BracketEnd(s: string, open: nat): (r: Option<nat>)
    requires open < |s|
    ensures r.Some? ==> open < r.value < |s| && s[r.value] == ']'
  {
    var j := open + 1 + FirstIndex(s[open + 1..], ']');
    if j < |s| && '[' !in s[open + 1..j] then Some(j) else None
  }

  /** The last position of a `[text](url)` at the start of `s`. */
  function InlineLinkEnd(s: string): (r: Option<nat>)
    requires s != ""
    ensures r.Some? ==> r.value < |s|
  {
    match BracketEnd(s, 0)
    case None => None
    case Some(j) => if j + 1 < |s| && s[j + 1] == '(' then ClosingParen(s, j + 2, 1) else None
  }

  /** The two ends of a `[display][ref]` at the start of `s`. */
  function RefLink(s: string): (r: Option<(nat, nat)>)
    requires s != ""
    ensures r.Some? ==> 0 < r.value.0 && r.value.0 + 1 < r.value.1 < |s|
    ensures r.Some? ==> s[r.value.0] == ']' && s[r.value.0 + 1] == '[' && s[r.value.1] == ']'
  {
    match BracketEnd(s, 0)
    case None => None
    case Some(j) =>
      if j + 1 >= |s| || s[j + 1] != '[' then None
      else
        match BracketEnd(s, j + 1)
        case None => None
        case Some(k) => if k + 1 < |s| && s[k + 1] == '(' then None else Some((j, k))
  }

  predicate StartsUrl(s: string) { "http://" <= s || "https://" <= s }

  function AutolinkEnd(s: string): (r: Option<nat>)
    requires s != ""
    ensures r.Some? ==> 0 < r.value < |s|
  {
    var p := 1 + FirstIndex(s[1..], '>');
    if StartsUrl(s[1..]) && p < |s| then Some(p) else None
  }

  predicate EndsUrl(c: char) { c in {' ', '\t', '\n', '\r', '\U{000C}', ')'} }

  /** A bare URL runs up to ASCII white space or a closing parenthesis. */
  function UrlLength(s: string): (n: nat)
    ensures n <= |s|
  {
    if s == "" || EndsUrl(s[0]) then 0 else 1 + UrlLength(s[1..])
  }

  // ----- references to proto types -----

  /** Proto lexical scoping: the fully qualified name, then every enclosing scope from the inside out. */
  function TypeInScope(links: Links, scope: string, ref: string): Option<string>
    decreases |scope|
  {
    var key := "." + scope + "." + ref;
    if key in links.typeMap then Some(links.typeMap[key])
    else
      match LastDot(scope)
      case None => None
      case Some(p) => TypeInScope(links, scope[..p], ref)
  }

  function LastDot(s: string): (r: Option<nat>)
    ensures r.Some? ==> r.value < |s|
  {
    if s == "" then None
    else if s[|s| - 1] == '.' then Some(|s| - 1)
    else LastDot(s[..|s| - 1])
  }

  function TypeOf(links: Links, ref: string): Option<string> {
    if "." + ref in links.typeMap then Some(links.typeMap["." + ref])
    else if links.scope == "" then None
    else TypeInScope(links, links.scope, ref)
  }

  /** Backslashes before `<` and `>` outside code spans. */
  function EscapeAngles(s: string): (r: string)
    decreases |s|
  {
    if s == "" then ""
    else if s[0] == '`' then
      var n := BacktickSpan(s);
      s[..n] + EscapeAngles(s[n..])
    else (if s[0] == '<' || s[0] == '>' then "\\" + s[..1] else s[..1]) + EscapeAngles(s[1..])
  }

  /** A code span at the start of `s`, or just its backticks when nothing closes it. */
  function BacktickSpan(s: string): (n: nat)
    requires s != "" && s[0] == '`'
    ensures RunLength(s, '`') <= n <= |s|
    ensures 0 < n
  {
    var run := RunLength(s, '`');
    BacktickCloser(s, run, run).GetOr(run)
  }

  function ResolveRef(links: Links, display: string, ref: string): (r: Option<string>)
    ensures r.Some? ==> |r.value| > 0 && r.value[0] == '['
  {
    var effective := Trim(if ref == "" then display else ref);
    if effective == "" then None
    else
      match TypeOf(links, effective)
      case None => None
      case Some(path) =>
        if "::" <= path || "crate::" <= path then None
        else if links.labelSuffices(display, path) then Some("[" + EscapeAngles(display) + "]")
        else Some("[" + EscapeAngles(display) + "](crate::" + links.linkPath(path) + ")")
  }

  // ----- the sanitizer -----

  datatype Bite = Bite(taken: nat, out: string)

  /** How many characters the next step takes from a non-empty rest of a line, and what it writes for them. */
  function NextBite(links: Links, s: string): (b: Bite)
    requires s != ""
    ensures 0 < b.taken <= |s|
  {
    match s[0]
    case '`' => Bite(BacktickSpan(s), s[..BacktickSpan(s)])
    case '\\' => if |s| > 1 then Bite(2, s[..2]) else Bite(1, s)
    case '[' => BracketBite(links, s)
    case ']' => Bite(1, "\\]")
    case '<' =>
      (match AutolinkEnd(s)
       case Some(end) => Bite(end + 1, s[..end + 1])
       case None => Bite(1, "\\<"))
    case '>' => Bite(1, "\\>")
    case 'h' =>
      if StartsUrl(s) then (assert UrlLength(s) > 0; Bite(UrlLength(s), "<" + s[..UrlLength(s)] + ">"))
      else Bite(1, "h")
    case _ => Bite(1, s[..1])
  }

  function BracketBite(links: Links, s: string): (b: Bite)
    requires s != "" && s[0] == '['
    ensures 0 < b.taken <= |s|
  {
    match InlineLinkEnd(s)
    case Some(end) => Bite(end + 1, s[..end + 1])
    case None =>
      match RefLink(s)
      case None => Bite(1, "\\[")
      case Some((j, k)) =>
        var display, ref := s[1..j], s[j + 2..k];
        match ResolveRef(links, display, ref)
        case Some(resolved) => Bite(k + 1, resolved)
        case None =>
          Bite(k + 1, "\\[" + EscapeAngles(display) + "\\]\\[" + EscapeAngles(ref) + "\\]")
  }

  function Sanitize(links: Links, s: string): string
    decreases |s|
  {
    if s == "" then ""
    else
      var b := NextBite(links, s);
      b.out + Sanitize(links, s[b.taken..])
  }

  /** `out` and the sanitized rest of the line make up the whole. */
  ghost predicate SoFar(links: Links, out: string, rest: string, whole: string) {
    out + Sanitize(links, rest) == whole
  }

  lemma SanitizeStep(links: Links, out: string, rest: string, whole: string, b: Bite)
    requires rest != "" && b == NextBite(links, rest) && SoFar(links, out, rest, whole)
    ensures SoFar(links, out + b.out, rest[b.taken..], whole)
  {
    Unrolled(links, rest);
    Regroup(out, Sanitize(links, rest), b.out, Sanitize(links, rest[b.taken..]), whole);
  }

  lemma Regroup(out: string, now: string, first: string, more: string, whole: string)
    requires out + now == whole && now == first + more
    ensures (out + first) + more == whole
  {
  }

  lemma EmptyEnds(s: string)
    ensures "" + s == s && s + "" == s
  {
  }

  lemma Unrolled(links: Links, s: string)
    requires s != ""
    ensures Sanitize(links, s) == NextBite(links, s).out + Sanitize(links, s[NextBite(links, s).taken..])
  {
  }

  // ----- the scanners, as the code runs them -----

  lemma {:induction false} FirstIndexFrom(s: string, c: char, n: nat)
    requires n <= |s| && forall k | 0 <= k < n :: s[k] != c
    ensures FirstIndex(s, c) >= n
    ensures n == |s| || s[n] == c ==> FirstIndex(s, c) == n
  {
    if n > 0 { FirstIndexFrom(s[1..], c, n - 1); }
  }

  lemma OpensInside(s: string, open: nat, j: nat)
    requires open < j < |s| && s[j] == '[' && forall k | open < k < j :: s[k] != ']'
    ensures BracketEnd(s, open) == None
  {
    FirstIndexFrom(s[open + 1..], ']', j - open);
    var end := open + 1 + FirstIndex(s[open + 1..], ']');
    assert end < |s| ==> s[open + 1..end][j - open - 1] == '[';
  }

  /** Both link scanners go to the closing bracket in this way, and give up at another opening one. */
  method FindBracketEnd(s: string, open: nat) returns (r: Option<nat>)
    requires open < |s|
    ensures r == BracketEnd(s, open)
  {
    var j := open + 1;
    while j < |s| && s[j] != ']'
      invariant open < j <= |s|
      invariant forall k | open < k < j :: s[k] != ']' && s[k] != '['
    {
      if s[j] == '[' {
        OpensInside(s, open, j);
        return None;
      }
      j := j + 1;
    }
    FirstIndexFrom(s[open + 1..], ']', j - open - 1);
    r := if j < |s| then Some(j) else None;
  }

  method FindInlineLinkEnd(s: string) returns (r: Option<nat>)
    requires s != ""
    ensures r == InlineLinkEnd(s)
  {
    var end := FindBracketEnd(s, 0);
    if end.None? { return None; }
    var j := end.value;
    if j + 1 >= |s| || s[j + 1] != '(' { return None; }
    var depth, k := 1, j + 2;
    while k < |s|
      invariant j + 2 <= k <= |s| && depth > 0
      invariant ClosingParen(s, j + 2, 1) == ClosingParen(s, k, depth)
    {
      if s[k] == '(' {
        depth := depth + 1;
      } else if s[k] == ')' {
        if depth == 1 { return Some(k); }
        depth := depth - 1;
      }
      k := k + 1;
    }
    r := None;
  }

  method FindRefLink(s: string) returns (r: Option<(nat, nat)>)
    requires s != ""
    ensures r == RefLink(s)
  {
    var end := FindBracketEnd(s, 0);
    if end.None? { return None; }
    var j := end.value;
    if j + 1 >= |s| || s[j + 1] != '[' { return None; }
    end := FindBracketEnd(s, j + 1);
    if end.None? { return None; }
    var k := end.value;
    r := if k + 1 < |s| && s[k + 1] == '(' then None else Some((j, k));
  }

  method FindAutolinkEnd(s: string) returns (r: Option<nat>)
    requires s != ""
    ensures r == AutolinkEnd(s)
  {
    var rest := s[1..];
    if !StartsUrl(rest) { return None; }
    for p := 0 to |rest|
      invariant forall k | 0 <= k < p :: rest[k] != '>'
    {
      if rest[p] == '>' {
        FirstIndexFrom(rest, '>', p);
        return Some(1 + p);
      }
    }
    FirstIndexFrom(rest, '>', |rest|);
    r := None;
  }

  lemma {:induction false} UrlLengthIs(s: string, n: nat)
    requires n <= |s| && (forall k | 0 <= k < n :: !EndsUrl(s[k])) && (n < |s| ==> EndsUrl(s[n]))
    ensures UrlLength(s) == n
  {
    if n > 0 { UrlLengthIs(s[1..], n - 1); }
  }

  method FindBareUrlEnd(s: string) returns (r: Option<nat>)
    ensures r == if StartsUrl(s) then Some(UrlLength(s)) else None
  {
    if !StartsUrl(s) { return None; }
    var j := 0;
    while j < |s| && !EndsUrl(s[j])
      invariant 0 <= j <= |s|
      invariant forall k | 0 <= k < j :: !EndsUrl(s[k])
    {
      j := j + 1;
    }
    UrlLengthIs(s, j);
    r := Some(j);
  }

  /** A code span, or the backticks that open none. */
  method TakeBackticks(s: string) returns (n: nat)
    requires s != "" && s[0] == '`'
    ensures n == BacktickSpan(s)
  {
    var run := RunEnd(s, 0);
    assert s[0..] == s;
    var closer := FindBacktickCloser(s, run, run);
    n := if closer.Some? then closer.value else run;
  }

  lemma {:induction false} NoAngles(s: string)
    requires '<' !in s && '>' !in s
    ensures EscapeAngles(s) == s
    decreases |s|
  {
    if s != "" {
      var n := if s[0] == '`' then BacktickSpan(s) else 1;
      assert s == s[..n] + s[n..];
      NoAngles(s[n..]);
    }
  }

  ghost predicate AnglesSoFar(out: string, rest: string, whole: string) {
    out + EscapeAngles(rest) == whole
  }

  /** `n` characters of `rest` are written as `written`. */
  ghost predicate AngleTaken(rest: string, n: nat, written: string) {
    && 0 < n <= |rest|
    && EscapeAngles(rest) == written + EscapeAngles(rest[n..])
  }

  method TakeAngle(rest: string) returns (n: nat, written: string)
    requires rest != ""
    ensures AngleTaken(rest, n, written)
  {
    if rest[0] == '`' {
      n := TakeBackticks(rest);
      written := rest[..n];
    } else if rest[0] == '<' || rest[0] == '>' {
      n, written := 1, "\\" + rest[..1];
    } else {
      n, written := 1, rest[..1];
    }
  }

  lemma AnglesStep(out: string, rest: string, whole: string, n: nat, written: string)
    requires AngleTaken(rest, n, written) && AnglesSoFar(out, rest, whole)
    ensures AnglesSoFar(out + written, rest[n..], whole)
  {
    Regroup(out, EscapeAngles(rest), written, EscapeAngles(rest[n..]), whole);
  }

  method EscapeAngleBrackets(s: string) returns (out: string)
    ensures out == EscapeAngles(s)
  {
    if '<' !in s && '>' !in s {
      NoAngles(s);
      return s;
    }
    out := "";
    var rest := s;
    ghost var whole := EscapeAngles(s);
    EmptyEnds(whole);
    while rest != ""
      invariant AnglesSoFar(out, rest, whole)
      decreases |rest|
    {
      var n, written := TakeAngle(rest);
      AnglesStep(out, rest, whole, n, written);
      out, rest := out + written, rest[n..];
    }
    EmptyEnds(out);
  }

  method ResolveTypeFqn(links: Links, ref: string) returns (path: Option<string>)
    ensures path == TypeOf(links, ref)
  {
    if "." + ref in links.typeMap { return Some(links.typeMap["." + ref]); }
    if links.scope == "" { return None; }
    var scope := links.scope;
    while true
      invariant TypeInScope(links, links.scope, ref) == TypeInScope(links, scope, ref)
      decreases |scope|
    {
      var candidate := "." + scope + "." + ref;
      if candidate in links.typeMap { return Some(links.typeMap[candidate]); }
      var pos := LastDot(scope);
      if pos.None? { return None; }
      scope := scope[..pos.value];
    }
  }

  method ResolveProtoRef(links: Links, display: string, ref: string) returns (r: Option<string>)
    ensures r == ResolveRef(links, display, ref)
  {
    var effective := Trim(if ref == "" then display else ref);
    if effective == "" { return None; }
    var found := ResolveTypeFqn(links, effective);
    if found.None? { return None; }
    var path := found.value;
    if "::" <= path || "crate::" <= path { return None; }
    var d := EscapeAngleBrackets(display);
    if links.labelSuffices(display, path) { return Some("[" + d + "]"); }
    r := Some("[" + d + "](crate::" + links.linkPath(path) + ")");
  }

  method TakeBracket(links: Links, s: string) returns (b: Bite)
    requires s != "" && s[0] == '['
    ensures b == BracketBite(links, s)
  {
    var end := FindInlineLinkEnd(s);
    if end.Some? { return Bite(end.value + 1, s[..end.value + 1]); }
    var found := FindRefLink(s);
    if found.None? { return Bite(1, "\\["); }
    var (j, k) := found.value;
    var display, ref := s[1..j], s[j + 2..k];
    var resolved := ResolveProtoRef(links, display, ref);
    if resolved.Some? { return Bite(k + 1, resolved.value); }
    var d := EscapeAngleBrackets(display);
    var t := EscapeAngleBrackets(ref);
    b := Bite(k + 1, "\\[" + d + "\\]\\[" + t + "\\]");
  }

  /** One step of the loop, on the rest of the line. */
  method TakeBite(links: Links, s: string) returns (b: Bite)
    requires s != ""
    ensures b == NextBite(links, s)
  {
    match s[0]
    case '`' =>
      var n := TakeBackticks(s);
      b := Bite(n, s[..n]);
    case '\\' =>
      b := if |s| > 1 then Bite(2, s[..2]) else Bite(1, s);
    case '[' =>
      b := TakeBracket(links, s);
    case ']' =>
      b := Bite(1, "\\]");
    case '<' =>
      var end := FindAutolinkEnd(s);
      b := if end.Some? then Bite(end.value + 1, s[..end.value + 1]) else Bite(1, "\\<");
    case '>' =>
      b := Bite(1, "\\>");
    case 'h' =>
      var end := FindBareUrlEnd(s);
      b := if end.Some? then Bite(end.value, "<" + s[..end.value] + ">") else Bite(1, "h");
    case _ =>
      b := Bite(1, s[..1]);
  }

  method Advance(links: Links, rest: string, out: string, ghost whole: string) returns (longer: string, next: string)
    requires rest != "" && SoFar(links, out, rest, whole)
    ensures |next| < |rest| && SoFar(links, longer, next, whole)
  {
    var b := TakeBite(links, rest);
    SanitizeStep(links, out, rest, whole, b);
    longer, next := out + b.out, rest[b.taken..];
  }

  method SanitizeLine(links: Links, line: string) returns (out: string)
    ensures out == Sanitize(links, line)
  {
    // The cursor is kept as the rest of the line behind it.
    out := "";
    var rest := line;
    ghost var whole := Sanitize(links, line);
    EmptyEnds(whole);
    while rest != ""
      invariant SoFar(links, out, rest, whole)
      decreases |rest|
    {
      out, rest := Advance(links, rest, out, whole);
    }
    EmptyEnds(out);
  }

  // ----- prose stays prose -----

  /** Proto names are identifiers joined by dots. */
  ghost predicate NoBacktickKeys(links: Links) {
    forall k | k in links.typeMap :: '`' !in k
  }

  lemma {:induction false} AnglesKeepBackticks(s: string)
    ensures '`' in s ==> '`' in EscapeAngles(s)
    decreases |s|
  {
    if s != "" && '`' in s {
      if s[0] == '`' {
        var n := BacktickSpan(s);
        assert s[..n][0] == '`';
      } else {
        AnglesKeepBackticks(s[1..]);
      }
    }
  }

  lemma {:induction false} TrimStartKeeps(s: string, c: char)
    requires c in s && !IsWhiteSpace(c)
    ensures c in TrimStart(s)
  {
    if IsWhiteSpace(s[0]) { TrimStartKeeps(s[1..], c); }
  }

  lemma {:induction false} TrimEndKeeps(s: string, c: char)
    requires c in s && !IsWhiteSpace(c)
    ensures c in TrimEnd(s)
  {
    if IsWhiteSpace(s[|s| - 1]) { TrimEndKeeps(s[..|s| - 1], c); }
  }

  lemma {:induction false} ScopeLacksBackticks(links: Links, scope: string, ref: string)
    requires NoBacktickKeys(links) && '`' in ref
    ensures TypeInScope(links, scope, ref) == None
    decreases |scope|
  {
    assert '`' in "." + scope + "." + ref;
    match LastDot(scope)
    case None =>
    case Some(p) => ScopeLacksBackticks(links, scope[..p], ref);
  }

  /** A reference with a backtick in it names no type, so none is lost in a link. */
  lemma RefsKeepBackticks(links: Links, display: string, ref: string)
    requires NoBacktickKeys(links)
    requires ResolveRef(links, display, ref).Some? && ('`' in display || '`' in ref)
    ensures '`' in ResolveRef(links, display, ref).value
  {
    AnglesKeepBackticks(display);
    if '`' in ref {
      TrimStartKeeps(ref, '`');
      TrimEndKeeps(TrimStart(ref), '`');
      var effective := Trim(ref);
      assert '`' in "." + effective;
      ScopeLacksBackticks(links, links.scope, effective);
    }
  }

  lemma BracketIsFaithful(links: Links, s: string)
    requires s != "" && s[0] == '[' && NoBacktickKeys(links)
    ensures var b := BracketBite(links, s);
            && b.out != ""
            && b.out[0] in {'[', '\\'}
            && ('`' in s[..b.taken] ==> '`' in b.out)
  {
    if InlineLinkEnd(s) == None && RefLink(s).Some? {
      var (j, k) := RefLink(s).value;
      RefIsFaithful(links, s, j, k);
    }
  }

  lemma RefIsFaithful(links: Links, s: string, j: nat, k: nat)
    requires s != "" && s[0] == '[' && NoBacktickKeys(links)
    requires RefLink(s) == Some((j, k)) && InlineLinkEnd(s) == None
    ensures var b := BracketBite(links, s);
            && b.out != ""
            && b.out[0] in {'[', '\\'}
            && ('`' in s[..b.taken] ==> '`' in b.out)
  {
    var display, ref := s[1..j], s[j + 2..k];
    if '`' in s[..k + 1] {
      BacktickInRef(s, j, k);
      if ResolveRef(links, display, ref).Some? {
        RefsKeepBackticks(links, display, ref);
      } else {
        AnglesKeepBackticks(display);
        AnglesKeepBackticks(ref);
      }
    }
  }

  lemma BacktickInRef(s: string, j: nat, k: nat)
    requires s != "" && s[0] == '[' && RefLink(s) == Some((j, k)) && '`' in s[..k + 1]
    ensures '`' in s[1..j] || '`' in s[j + 2..k]
  {
    var p :| 0 <= p <= k && s[p] == '`';
    assert 1 <= p < j || j + 2 <= p < k;
    assert p < j ==> s[1..j][p - 1] == '`';
    assert p > j ==> s[j + 2..k][p - j - 2] == '`';
  }

  /** What one step does to the characters that fences and indentation are made of. */
  lemma BiteIsFaithful(links: Links, s: string)
    requires s != "" && NoBacktickKeys(links)
    ensures var b := NextBite(links, s);
            && b.out != ""
            && (s[0] in {' ', '\t', '~'} ==> b == Bite(1, s[..1]))
            && (s[0] == '`' ==> b.out == s[..b.taken] && b.taken >= RunLength(s, '`'))
            && (s[0] !in {' ', '\t', '~', '`'} ==> b.out[0] !in {' ', '\t', '~', '`'})
            && ('`' in s[..b.taken] ==> '`' in b.out)
  {
    if s[0] == '[' { BracketIsFaithful(links, s); }
  }

  lemma {:induction false} KeepsBackticks(links: Links, s: string)
    requires NoBacktickKeys(links) && '`' in s
    ensures '`' in Sanitize(links, s)
    decreases |s|
  {
    BiteIsFaithful(links, s);
    var b := NextBite(links, s);
    if '`' !in s[..b.taken] {
      assert s == s[..b.taken] + s[b.taken..];
      KeepsBackticks(links, s[b.taken..]);
    }
  }

  /** A leading run of spaces, tabs or tildes is copied as it is, and grows no longer. */
  lemma {:induction false} KeepsRun(links: Links, s: string, c: char)
    requires NoBacktickKeys(links) && c in {' ', '\t', '~'}
    ensures RunLength(Sanitize(links, s), c) == RunLength(s, c)
    ensures Sanitize(links, s)[RunLength(s, c)..] == Sanitize(links, s[RunLength(s, c)..])
    decreases |s|
  {
    if s != "" {
      BiteIsFaithful(links, s);
      var b := NextBite(links, s);
      if s[0] == c {
        KeepsRun(links, s[1..], c);
        assert Sanitize(links, s)[1..] == Sanitize(links, s[1..]);
        assert s[1..][RunLength(s[1..], c)..] == s[RunLength(s, c)..];
      } else {
        assert Sanitize(links, s)[0] == b.out[0];
      }
    }
  }

  /** A line that is neither a fence marker nor indented code. */
  predicate IsProse(line: string) {
    !IsIndented(line) && FenceMarker(line).None?
  }

  /** For every prose line and every set of links, the sanitized line is prose as well. */
  lemma SanitizedIsProse(links: Links, line: string)
    requires NoBacktickKeys(links) && IsProse(line)
    ensures IsProse(Sanitize(links, line))
    ensures Sanitize(links, line) == "" <==> line == ""
  {
    var out := Sanitize(links, line);
    var k := RunLength(line, ' ');
    var rest := line[k..];
    KeepsRun(links, line, ' ');
    IndentedForm(line);
    IndentedForm(out);
    if rest != "" {
      BiteIsFaithful(links, rest);
      var b := NextBite(links, rest);
      assert out[k..][0] == b.out[0];
      if rest[0] == '~' {
        KeepsRun(links, rest, '~');
      } else if rest[0] == '`' {
        BacktickRunLength(links, rest);
        if '`' in rest[RunLength(rest, '`')..] { BacktickRunStays(links, rest); }
      }
    }
  }

  lemma BacktickRunLength(links: Links, s: string)
    requires NoBacktickKeys(links) && s != "" && s[0] == '`'
    ensures RunLength(Sanitize(links, s), '`') == RunLength(s, '`')
  {
    var n := RunLength(s, '`');
    var b, rest := NextBite(links, s), s[NextBite(links, s).taken..];
    BiteIsFaithful(links, s);
    RunLengthIs(s, '`');
    if rest != "" { BiteIsFaithful(links, rest); }
    RunStops(s, b.taken, Sanitize(links, rest), n, '`');
  }

  /** A copied prefix that contains a run, and something that does not prolong it. */
  lemma RunStops(s: string, k: nat, more: string, n: nat, c: char)
    requires n <= k <= |s| && (forall i | 0 <= i < n :: s[i] == c) && (n < k ==> s[n] != c)
    requires n == k && more != "" ==> more[0] != c
    ensures RunLength(s[..k] + more, c) == n
  {
    RunLengthUnique(s[..k] + more, c, n);
  }

  /** A leading backtick run too short or too busy for a fence stays so. */
  lemma BacktickRunStays(links: Links, s: string)
    requires NoBacktickKeys(links) && s != "" && s[0] == '`'
    requires '`' in s[RunLength(s, '`')..]
    ensures '`' in Sanitize(links, s)[RunLength(s, '`')..]
  {
    BiteIsFaithful(links, s);
    Unrolled(links, s);
    var k := NextBite(links, s).taken;
    if '`' in s[k..] { KeepsBackticks(links, s[k..]); }
    BacktickBehind(s, RunLength(s, '`'), k, Sanitize(links, s[k..]));
  }

  lemma BacktickBehind(s: string, n: nat, k: nat, more: string)
    requires n <= k <= |s| && '`' in s[n..] && ('`' in s[k..] ==> '`' in more)
    ensures '`' in (s[..k] + more)[n..]
  {
    assert s[n..] == s[n..k] + s[k..];
    assert (s[..k] + more)[n..] == s[n..k] + more;
  }
}
