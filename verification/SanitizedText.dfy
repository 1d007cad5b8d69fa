/** What sanitizing writes for each construct of a prose line, character by character. */
module SanitizedText {
  import opened Text
  import opened Segments
  import opened Sanitizer

  lemma Step(links: Links, s: string, taken: nat, out: string, rest: string)
    requires s != "" && NextBite(links, s) == Bite(taken, out) && s[taken..] == rest
    ensures Sanitize(links, s) == out + Sanitize(links, rest)
  {
    Unrolled(links, s);
  }

  // ----- single characters -----

  /** Most characters stand for themselves, and so does an `h` that begins no URL. */
  lemma PlainCharacter(links: Links, c: char, rest: string)
    requires c !in ['`', '\\', '[', ']', '<', '>']
    requires c == 'h' ==> !("ttp://" <= rest) && !("ttps://" <= rest)
    ensures Sanitize(links, [c] + rest) == [c] + Sanitize(links, rest)
  {
    var s := [c] + rest;
    assert s[1..] == rest && s[..1] == [c];
    if c == 'h' {
      assert "http://"[1..] == "ttp://" && "https://"[1..] == "ttps://";
      NoUrl(s);
    }
    Step(links, s, 1, [c], rest);
  }

  lemma NoUrl(s: string)
    requires s != "" && !("ttp://" <= s[1..]) && !("ttps://" <= s[1..])
    ensures !StartsUrl(s)
  {
    assert "http://"[1..] == "ttp://" && "https://"[1..] == "ttps://";
    if "http://" <= s { TailBegins(s, "http://"); }
    if "https://" <= s { TailBegins(s, "https://"); }
  }

  lemma TailBegins(s: string, p: string)
    requires p != "" && p <= s
    ensures p[1..] <= s[1..]
  {
    assert s == p + s[|p|..];
    assert s[1..] == p[1..] + s[|p|..];
  }

  /** Brackets that close nothing are escaped. */
  lemma ClosingBrackets(links: Links, rest: string)
    ensures Sanitize(links, "]" + rest) == "\\]" + Sanitize(links, rest)
    ensures Sanitize(links, ">" + rest) == "\\>" + Sanitize(links, rest)
  {
    assert ("]" + rest)[1..] == rest && (">" + rest)[1..] == rest;
    Step(links, "]" + rest, 1, "\\]", rest);
    Step(links, ">" + rest, 1, "\\>", rest);
  }

  /** A backslash and what it escapes stay as they are. */
  lemma Escaped(links: Links, c: char, rest: string)
    ensures Sanitize(links, ['\\', c] + rest) == ['\\', c] + Sanitize(links, rest)
    ensures Sanitize(links, "\\") == "\\"
  {
    var s := ['\\', c] + rest;
    assert s[..2] == ['\\', c] && s[2..] == rest;
    Step(links, s, 2, ['\\', c], rest);
    Step(links, "\\", 1, "\\", "");
  }

  // ----- URLs -----

  predicate IsUrl(u: string) { "http://" <= u || "https://" <= u }

  /** A bare URL, up to white space, a closing parenthesis or the end, is put into angle brackets. */
  lemma BareUrl(links: Links, u: string, rest: string)
    requires IsUrl(u) && forall i | 0 <= i < |u| :: u[i] !in [' ', '\t', '\n', '\r', '\U{000C}', ')']
    requires rest != "" ==> rest[0] in [' ', '\t', '\n', '\r', '\U{000C}', ')']
    ensures Sanitize(links, u + rest) == "<" + u + ">" + Sanitize(links, rest)
  {
    var s := u + rest;
    UrlLengthIs(s, |u|);
    assert s[..|u|] == u && s[|u|..] == rest && StartsUrl(s) && s[0] == 'h';
    Step(links, s, |u|, "<" + u + ">", rest);
  }

  /** A URL in angle brackets stays; any other opening angle bracket is escaped. */
  lemma Autolink(links: Links, u: string, rest: string)
    requires IsUrl(u) && '>' !in u
    ensures Sanitize(links, "<" + u + ">" + rest) == "<" + u + ">" + Sanitize(links, rest)
  {
    var s := "<" + u + ">" + rest;
    assert s[1..] == u + (">" + rest) && s[1..][|u|] == '>' && StartsUrl(s[1..]);
    FirstIndexFrom(s[1..], '>', |u|);
    assert s[..|u| + 2] == "<" + u + ">" && s[|u| + 2..] == rest;
    Step(links, s, |u| + 2, "<" + u + ">", rest);
  }

  lemma OpeningAngle(links: Links, rest: string)
    requires !IsUrl(rest) || '>' !in rest
    ensures Sanitize(links, "<" + rest) == "\\<" + Sanitize(links, rest)
  {
    var s := "<" + rest;
    assert s[1..] == rest;
    if '>' !in rest { FirstIndexFrom(rest, '>', |rest|); }
    assert AutolinkEnd(s) == None;
    Step(links, s, 1, "\\<", rest);
  }

  // ----- code spans -----

  /** Positions `a` to `b` of `s` are a whole run of backticks. */
  ghost predicate IsRun(s: string, a: nat, b: nat) {
    && a < b <= |s| && (forall i | a <= i < b :: s[i] == '`')
    && (a > 0 ==> s[a - 1] != '`') && (b < |s| ==> s[b] != '`')
  }

  ghost predicate IsRunOf(s: string, a: nat, n: nat) { IsRun(s, a, a + n) }

  /** `s` from position `from` on begins no run in the middle. */
  ghost predicate AtBoundary(s: string, from: nat) {
    from <= |s| && (0 < from < |s| ==> s[from - 1] != '`' || s[from] != '`')
  }

  lemma RunHere(s: string, from: nat)
    requires from <= |s|
    ensures var k := RunLength(s[from..], '`');
            && from + k <= |s| && (forall i | from <= i < from + k :: s[i] == '`')
            && (from + k < |s| ==> s[from + k] != '`')
  {
    var k := RunLength(s[from..], '`');
    RunLengthIs(s[from..], '`');
    assert forall i | from <= i < from + k :: s[i] == s[from..][i - from] == '`';
    assert from + k < |s| ==> s[from + k] == s[from..][k] != '`';
  }

  lemma EndsBefore(s: string, from: nat, k: nat, a: nat, n: nat)
    requires from + k <= |s| && (forall i | from <= i < from + k :: s[i] == '`')
    requires from < a && n > 0 && IsRunOf(s, a, n)
    ensures from + k <= a
  {
    assert s[a - 1] != '`';
  }

  lemma {:induction false} CloserFound(s: string, from: nat, a: nat, n: nat)
    requires from <= a && AtBoundary(s, from) && n > 0 && IsRunOf(s, a, n)
    requires forall c: nat | from <= c < a :: !IsRunOf(s, c, n)
    ensures BacktickCloser(s, from, n) == Some(a + n)
    decreases a - from
  {
    var k := RunLength(s[from..], '`');
    RunHere(s, from);
    if from == a {
      RunLengthUnique(s[from..], '`', n);
    } else if k == 0 {
      CloserFound(s, from + 1, a, n);
    } else {
      WholeRun(s, from, k);
      EndsBefore(s, from, k, a, n);
      CloserFound(s, from + k, a, n);
    }
  }

  lemma WholeRun(s: string, from: nat, k: nat)
    requires AtBoundary(s, from) && 0 < k && from + k <= |s|
    requires (forall i | from <= i < from + k :: s[i] == '`') && (from + k < |s| ==> s[from + k] != '`')
    ensures IsRunOf(s, from, k) && AtBoundary(s, from + k)
  {
  }

  lemma {:induction false} NothingCloses(s: string, from: nat, n: nat)
    requires AtBoundary(s, from) && n > 0 && forall c: nat | from <= c :: !IsRunOf(s, c, n)
    ensures BacktickCloser(s, from, n) == None
    decreases |s| - from
  {
    if from < |s| {
      var k := RunLength(s[from..], '`');
      RunHere(s, from);
      if k == 0 {
        NothingCloses(s, from + 1, n);
      } else {
        WholeRun(s, from, k);
        NothingCloses(s, from + k, n);
      }
    }
  }

  /** A code span: from a run of backticks to the first later run of the same length, nothing is changed. */
  lemma CodeSpan(links: Links, s: string, n: nat, a: nat)
    requires n > 0 && IsRunOf(s, 0, n) && n < a && IsRunOf(s, a, n)
    requires forall c: nat | n <= c < a :: !IsRunOf(s, c, n)
    ensures Sanitize(links, s) == s[..a + n] + Sanitize(links, s[a + n..])
  {
    RunLengthUnique(s, '`', n);
    CloserFound(s, n, a, n);
    Step(links, s, a + n, s[..a + n], s[a + n..]);
  }

  /** Without one, the backticks alone are copied. */
  lemma LooseBackticks(links: Links, s: string, n: nat)
    requires n > 0 && IsRunOf(s, 0, n) && forall c: nat | n <= c :: !IsRunOf(s, c, n)
    ensures Sanitize(links, s) == s[..n] + Sanitize(links, s[n..])
  {
    RunLengthUnique(s, '`', n);
    NothingCloses(s, n, n);
    Step(links, s, n, s[..n], s[n..]);
  }

  // ----- links and references -----

  predicate NoBrackets(t: string) { '[' !in t && ']' !in t }

  /** A text in brackets at position `n` of `s`, with `more` behind it. */
  ghost predicate InBrackets(s: string, n: nat, t: string, more: string) {
    n <= |s| && s[n..] == "[" + t + "]" + more
  }

  lemma BracketsAt(s: string, n: nat, t: string, more: string)
    requires InBrackets(s, n, t, more)
    ensures n + |t| + 2 <= |s| && s[n] == '[' && s[n + 1 + |t|] == ']'
    ensures s[n + 1..n + 1 + |t|] == t && s[n + |t| + 2..] == more
  {
    var tail := "[" + t + "]" + more;
    assert s == s[..n] + tail;
    assert tail[0] == '[' && tail[1..1 + |t|] == t && tail[1 + |t|] == ']' && tail[|t| + 2..] == more;
    assert s[n + |t| + 2..] == tail[|t| + 2..];
  }

  lemma BracketsClose(s: string, n: nat, t: string, more: string)
    requires InBrackets(s, n, t, more) && NoBrackets(t)
    ensures n < |s| && BracketEnd(s, n) == Some(n + 1 + |t|)
  {
    BracketsAt(s, n, t, more);
    var behind := s[n + 1..];
    forall k | 0 <= k < |t| ensures behind[k] != ']' {
      assert behind[k] == s[n + 1..n + 1 + |t|][k] == t[k] && t[k] in t;
    }
    FirstIndexFrom(behind, ']', |t|);
  }

  /** `u` has as many parentheses that open as close, and in no beginning more that close. */
  predicate Balanced(u: string, depth: nat) {
    if u == "" then depth == 0
    else if u[0] == '(' then Balanced(u[1..], depth + 1)
    else if u[0] == ')' then depth > 0 && Balanced(u[1..], depth - 1)
    else Balanced(u[1..], depth)
  }

  lemma {:induction false} ParenCloses(s: string, k: nat, u: string, depth: nat)
    requires k + |u| < |s| && s[k..k + |u|] == u && s[k + |u|] == ')' && Balanced(u, depth)
    ensures ClosingParen(s, k, depth + 1) == Some(k + |u|)
    decreases |u|
  {
    if u != "" {
      assert s[k] == s[k..k + |u|][0] == u[0];
      assert s[k + 1..k + 1 + |u[1..]|] == s[k..k + |u|][1..];
      ParenCloses(s, k + 1, u[1..], if u[0] == '(' then depth + 1 else if u[0] == ')' then depth - 1 else depth);
    }
  }

  /** A text that begins with a URL in parentheses. */
  ghost predicate InParens(tail: string, u: string, more: string) {
    tail == "(" + u + ")" + more
  }

  lemma ParensAt(s: string, n: nat, tail: string, u: string, more: string)
    requires n <= |s| && s[n..] == tail && InParens(tail, u, more) && Balanced(u, 0)
    ensures n + |u| + 2 <= |s| && s[n] == '(' && s[n + |u| + 2..] == more
    ensures ClosingParen(s, n + 1, 1) == Some(n + 1 + |u|)
  {
    assert s == s[..n] + tail;
    assert tail[0] == '(' && tail[1..1 + |u|] == u && tail[1 + |u|] == ')' && tail[|u| + 2..] == more;
    assert s[n + |u| + 2..] == tail[|u| + 2..] && s[n + 1..n + 1 + |u|] == tail[1..1 + |u|];
    ParenCloses(s, n + 1, u, 0);
  }

  /** An inline link `[text](url)` with balanced parentheses stays as it is. */
  lemma InlineLink(links: Links, s: string, t: string, more: string, u: string, rest: string)
    requires InBrackets(s, 0, t, more) && NoBrackets(t) && InParens(more, u, rest) && Balanced(u, 0)
    ensures |t| + |u| + 4 <= |s| && s[|t| + |u| + 4..] == rest
    ensures Sanitize(links, s) == s[..|t| + |u| + 4] + Sanitize(links, rest)
  {
    BracketsAt(s, 0, t, more);
    BracketsClose(s, 0, t, more);
    ParensAt(s, |t| + 2, more, u, rest);
    LinkBite(links, s, |t| + 1, |t| + 3 + |u|);
    Step(links, s, |t| + |u| + 4, s[..|t| + |u| + 4], rest);
  }

  lemma LinkBite(links: Links, s: string, j: nat, end: nat)
    requires s != "" && s[0] == '[' && BracketEnd(s, 0) == Some(j) && j + 1 < |s| && s[j + 1] == '('
    requires ClosingParen(s, j + 2, 1) == Some(end)
    ensures NextBite(links, s) == Bite(end + 1, s[..end + 1])
  {
    assert InlineLinkEnd(s) == Some(end);
  }

  lemma {:induction false} NoParenCloses(s: string, k: nat, depth: nat)
    requires k <= |s| && depth > 0 && ')' !in s[k..]
    ensures ClosingParen(s, k, depth) == None
    decreases |s| - k
  {
    if k < |s| {
      assert s[k] == s[k..][0] && s[k + 1..] == s[k..][1..];
      NoParenCloses(s, k + 1, if s[k] == '(' then depth + 1 else depth);
    }
  }

  /** A link whose parenthesis is never closed is none. */
  lemma OpenLink(links: Links, s: string, t: string, more: string)
    requires InBrackets(s, 0, t, more) && NoBrackets(t) && more != "" && more[0] == '(' && ')' !in more
    ensures Sanitize(links, s) == "\\[" + Sanitize(links, s[1..])
  {
    BracketsAt(s, 0, t, more);
    BracketsClose(s, 0, t, more);
    var n := |t| + 2;
    assert s[n] == s[n..][0] && s[n + 1..] == s[n..][1..];
    NoParenCloses(s, n + 1, 1);
    Step(links, s, 1, "\\[", s[1..]);
  }

  /** A reference `[display][ref]`, not followed by a parenthesis: its link, or both parts with brackets escaped. */
  lemma Reference(links: Links, s: string, d: string, r: string, rest: string)
    requires InBrackets(s, 0, d, "[" + r + "]" + rest) && NoBrackets(d) && NoBrackets(r)
    requires rest == "" || rest[0] != '('
    ensures Sanitize(links, s) == Referred(links, d, r) + Sanitize(links, rest)
  {
    var more, n := "[" + r + "]" + rest, |d| + 2;
    BracketsAt(s, 0, d, more);
    BracketsClose(s, 0, d, more);
    assert InBrackets(s, n, r, rest);
    BracketsAt(s, n, r, rest);
    BracketsClose(s, n, r, rest);
    assert n + 2 + |r| < |s| ==> s[n + 2 + |r|] == s[n + |r| + 2..][0];
    ReferenceBite(links, s, |d| + 1, n + 1 + |r|);
    Step(links, s, n + 2 + |r|, Referred(links, d, r), rest);
  }

  /** What is written for a reference. */
  function Referred(links: Links, d: string, r: string): string {
    match ResolveRef(links, d, r)
    case Some(link) => link
    case None => "\\[" + EscapeAngles(d) + "\\]\\[" + EscapeAngles(r) + "\\]"
  }

  lemma ReferenceBite(links: Links, s: string, j: nat, k: nat)
    requires s != "" && s[0] == '[' && BracketEnd(s, 0) == Some(j) && j + 1 < |s| && s[j + 1] == '['
    requires BracketEnd(s, j + 1) == Some(k) && (k + 1 < |s| ==> s[k + 1] != '(')
    ensures NextBite(links, s) == Bite(k + 1, Referred(links, s[1..j], s[j + 2..k]))
  {
    assert InlineLinkEnd(s) == None && RefLink(s) == Some((j, k));
  }

  /** An opening bracket that begins neither is escaped, and what follows it is sanitized. */
  lemma LooseBracket(links: Links, s: string, t: string, more: string)
    requires InBrackets(s, 0, t, more) && NoBrackets(t) && (more != "" ==> more[0] != '(' && more[0] != '[')
    ensures Sanitize(links, s) == "\\[" + Sanitize(links, s[1..])
  {
    BracketsAt(s, 0, t, more);
    BracketsClose(s, 0, t, more);
    assert |t| + 2 < |s| ==> s[|t| + 2] == s[|t| + 2..][0];
    Step(links, s, 1, "\\[", s[1..]);
  }

  /** So is one that another opening bracket follows before any closing one, or none at all. */
  lemma OpenBracket(links: Links, s: string, n: nat)
    requires 0 < n <= |s| && s[0] == '[' && (n < |s| ==> s[n] == '[') && forall k | 0 < k < n :: s[k] != ']'
    ensures Sanitize(links, s) == "\\[" + Sanitize(links, s[1..])
  {
    if n < |s| { OpensInside(s, 0, n); } else { FirstIndexFrom(s[1..], ']', n - 1); }
    Step(links, s, 1, "\\[", s[1..]);
  }

  // ----- what a reference becomes -----

  /** In the text of a reference, angle brackets are escaped. */
  lemma AngleCharacters(c: char, rest: string)
    requires c != '`'
    ensures EscapeAngles([c] + rest) == (if c == '<' || c == '>' then ['\\', c] else [c]) + EscapeAngles(rest)
  {
    assert ([c] + rest)[..1] == [c] && ([c] + rest)[1..] == rest;
  }

  /** Code spans in it are not. */
  lemma AngleSpans(s: string, n: nat, a: nat)
    requires n > 0 && IsRunOf(s, 0, n) && n < a && IsRunOf(s, a, n)
    requires forall c: nat | n <= c < a :: !IsRunOf(s, c, n)
    ensures EscapeAngles(s) == s[..a + n] + EscapeAngles(s[a + n..])
  {
    RunLengthUnique(s, '`', n);
    CloserFound(s, n, a, n);
  }

  /** The first of the names `.ref`, and `ref` in every scope from the inside out, that the map has. */
  lemma {:induction false} InnermostScope(links: Links, scope: seq<string>, ref: string)
    requires |scope| > 0 && forall i | 0 <= i < |scope| :: '.' !in scope[i]
    ensures
      var key := "." + Join(scope) + "." + ref;
      TypeInScope(links, Join(scope), ref) ==
      if key in links.typeMap then Some(links.typeMap[key])
      else if |scope| == 1 then None
      else TypeInScope(links, Join(scope[..|scope| - 1]), ref)
  {
    var n := |scope| - 1;
    if n == 0 {
      NoLastDot(scope[0]);
    } else {
      LastDotIs(Join(scope[..n]), scope[n]);
      assert Join(scope)[..|Join(scope[..n])|] == Join(scope[..n]);
    }
  }

  lemma {:induction false} NoLastDot(s: string)
    requires '.' !in s
    ensures LastDot(s) == None
  {
    if s != "" { NoLastDot(s[..|s| - 1]); }
  }

  lemma {:induction false} LastDotIs(a: string, b: string)
    requires '.' !in b
    ensures LastDot(a + "." + b) == Some(|a|)
  {
    var s := a + "." + b;
    if b != "" {
      assert s[..|s| - 1] == a + "." + b[..|b| - 1] && s[|s| - 1] == b[|b| - 1];
      LastDotIs(a, b[..|b| - 1]);
    } else {
      assert s[|s| - 1] == '.';
    }
  }

  /** The link to a type: its label alone where that suffices, and otherwise with a path from the crate. */
  lemma LinkText(links: Links, d: string, r: string, left: string, name: string, right: string, path: string)
    requires (if r == "" then d else r) == left + name + right && IsBlank(left) && IsBlank(right)
    requires name != "" && !IsWhiteSpace(name[0]) && !IsWhiteSpace(name[|name| - 1])
    ensures TypeOf(links, name) == None ==> ResolveRef(links, d, r) == None
    ensures TypeOf(links, name) == Some(path) ==>
      ResolveRef(links, d, r) ==
      if "::" <= path || "crate::" <= path then None
      else if links.labelSuffices(d, path) then Some("[" + EscapeAngles(d) + "]")
      else Some("[" + EscapeAngles(d) + "](crate::" + links.linkPath(path) + ")")
  {
    TrimIs(if r == "" then d else r, left, name, right);
  }

  /** A reference that is blank refers to nothing; a fully qualified name is looked up before any scope. */
  lemma TypeOfIs(links: Links, d: string, r: string, name: string)
    ensures IsBlank(if r == "" then d else r) ==> ResolveRef(links, d, r) == None
    ensures "." + name in links.typeMap ==> TypeOf(links, name) == Some(links.typeMap["." + name])
    ensures "." + name !in links.typeMap && links.scope != "" ==>
              TypeOf(links, name) == TypeInScope(links, links.scope, name)
    ensures "." + name !in links.typeMap && links.scope == "" ==> TypeOf(links, name) == None
  {
    var t := if r == "" then d else r;
    if IsBlank(t) {
      assert t == t + "" + "";
      TrimIs(t, t, "", "");
    }
  }
}
