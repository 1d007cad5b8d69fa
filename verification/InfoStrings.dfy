/** Rewriting the info string of a fence so that rustdoc never compiles what is inside. */
module InfoStrings {

  predicate IsDelimiter(c: char) { c == ',' || c == ' ' || c == '\t' }

  function WordLength(s: string): (n: nat)
    ensures n <= |s|
    ensures s != "" && !IsDelimiter(s[0]) ==> n > 0
  {
    if s != "" && !IsDelimiter(s[0]) then 1 + WordLength(s[1..]) else 0
  }

  /** The words of an info string, split at commas, spaces and tabs; empty ones do not count. */
  function Tokens(info: string): seq<string>
    decreases |info|
  {
    if info == "" then []
    else if IsDelimiter(info[0]) then Tokens(info[1..])
    else
      var n := WordLength(info);
      [info[..n]] + Tokens(info[n..])
  }

  lemma {:induction false} WordIsToken(s: string)
    ensures WordLength(s) > 0 ==> IsToken(s[..WordLength(s)])
  {
    if s != "" && !IsDelimiter(s[0]) {
      WordIsToken(s[1..]);
      assert s[..WordLength(s)] == [s[0]] + s[1..][..WordLength(s[1..])];
    }
  }

  lemma {:induction false} TokensAreTokens(info: string)
    ensures forall t | t in Tokens(info) :: IsToken(t)
    decreases |info|
  {
    if info != "" {
      if IsDelimiter(info[0]) {
        TokensAreTokens(info[1..]);
      } else {
        WordIsToken(info);
        TokensAreTokens(info[WordLength(info)..]);
      }
    }
  }

  predicate IsToken(t: string) {
    t != "" && forall i | 0 <= i < |t| :: !IsDelimiter(t[i])
  }

  /** An `ignore-<target>` word, which rustdoc reads as a target list in place of a plain `ignore`. */
  predicate IgnoresTarget(t: string) { "ignore-" <= t }

  function Kept(tokens: seq<string>): seq<string> {
    if tokens == [] then []
    else (if IgnoresTarget(tokens[0]) then [] else [tokens[0]]) + Kept(tokens[1..])
  }

  lemma {:induction false} KeptMembers(tokens: seq<string>)
    ensures forall t :: t in Kept(tokens) <==> t in tokens && !IgnoresTarget(t)
  {
    if tokens != [] {
      KeptMembers(tokens[1..]);
      assert tokens == [tokens[0]] + tokens[1..];
    }
  }

  /** Just the words that begin with `ignore-` are dropped; the others stay in order. */
  lemma KeptIs(t: string, more: seq<string>)
    ensures Kept([t] + more) == (if |t| >= 7 && t[..7] == "ignore-" then [] else [t]) + Kept(more)
    ensures Kept([]) == []
  {
    assert ([t] + more)[1..] == more;
  }

  function JoinCommas(tokens: seq<string>): string
    requires tokens != []
  {
    if |tokens| == 1 then tokens[0] else tokens[0] + "," + JoinCommas(tokens[1..])
  }

  function FenceInfo(info: string): string {
    var kept := Kept(Tokens(info));
    if kept != [] then JoinCommas(if "ignore" in kept then kept else kept + ["ignore"])
    else if Tokens(info) != [] then "rust,ignore"
    else "text"
  }

  method RewriteInfo(info: string) returns (r: string)
    ensures r == FenceInfo(info)
  {
    var droppedTargetIgnore := false;
    var tokens: seq<string> := [];
    var all := Tokens(info);
    var i := 0;
    assert all[0..] == all;
    while i < |all|
      invariant 0 <= i <= |all|
      invariant tokens + Kept(all[i..]) == Kept(all)
      invariant tokens == [] ==> (droppedTargetIgnore <==> i > 0)
    {
      if IgnoresTarget(all[i]) {
        droppedTargetIgnore := true;
      } else {
        tokens := tokens + [all[i]];
      }
      i := i + 1;
    }
    assert tokens == Kept(all);
    if tokens == [] {
      return if droppedTargetIgnore then "rust,ignore" else "text";
    }
    if "ignore" !in tokens { tokens := tokens + ["ignore"]; }
    r := JoinCommas(tokens);
  }

  /** rustdoc does not compile the fence: it is plain text, or ignored on every target. */
  predicate Inert(info: string) {
    || Tokens(info) == ["text"]
    || ("ignore" in Tokens(info) && forall t | t in Tokens(info) :: !IgnoresTarget(t))
  }

  lemma WordLengthUnique(s: string, n: nat)
    requires n <= |s| && (forall i | 0 <= i < n :: !IsDelimiter(s[i])) && (n < |s| ==> IsDelimiter(s[n]))
    ensures WordLength(s) == n
  {
    if n > 0 { WordLengthUnique(s[1..], n - 1); }
  }

  /** Words joined by commas are read back as those words. */
  lemma {:induction false} TokensOfJoin(tokens: seq<string>)
    requires tokens != [] && forall t | t in tokens :: IsToken(t)
    ensures Tokens(JoinCommas(tokens)) == tokens
  {
    var s, n := JoinCommas(tokens), |tokens[0]|;
    assert IsToken(tokens[0]) by { assert tokens[0] in tokens; }
    assert s[..n] == tokens[0] && (forall i | 0 <= i < n :: s[i] == tokens[0][i]);
    WordLengthUnique(s, n);
    if |tokens| == 1 {
      assert s[n..] == "";
    } else {
      TokensOfJoin(tokens[1..]);
      assert s[n..] == "," + JoinCommas(tokens[1..]);
      assert s[n..][1..] == JoinCommas(tokens[1..]);
      assert Tokens(s[n..]) == tokens[1..];
    }
  }

  /** Words end at a comma, a space or a tab, and at nothing else. */
  lemma TokensSplit(word: string, c: char, more: string)
    requires c == ',' || c == ' ' || c == '\t'
    requires forall i | 0 <= i < |word| :: word[i] != ',' && word[i] != ' ' && word[i] != '\t'
    ensures Tokens(word + [c] + more) == (if word == "" then [] else [word]) + Tokens(more)
    ensures Tokens(word) == if word == "" then [] else [word]
  {
    var s := word + [c] + more;
    WordLengthUnique(s, |word|);
    WordLengthUnique(word, |word|);
    assert s[..|word|] == word && s[|word|..] == [c] + more && ([c] + more)[1..] == more;
    assert word[..|word|] == word && word[|word|..] == "";
  }

  /**
   * Every rewritten info string is inert, and the author's own words survive in front and in order,
   * apart from the `ignore-<target>` ones.
   */
  lemma InfoIsInert(info: string)
    ensures Inert(FenceInfo(info))
    ensures Tokens(FenceInfo(info)) == ["text"] <==> Tokens(info) == []
    ensures Kept(Tokens(info)) <= Tokens(FenceInfo(info))
    ensures Kept(Tokens(info)) == [] && Tokens(info) != [] ==> Tokens(FenceInfo(info)) == ["rust", "ignore"]
    ensures Kept(Tokens(info)) != [] ==>
              Tokens(FenceInfo(info)) == Kept(Tokens(info)) + if "ignore" in Tokens(info) then [] else ["ignore"]
    ensures forall t | t in Tokens(FenceInfo(info)) :: t in Tokens(info) || t in {"text", "rust", "ignore"}
  {
    KeptMembers(Tokens(info));
    if Kept(Tokens(info)) == [] { InfoWithoutWords(info); } else { InfoWithWords(info); }
  }

  lemma InfoWithoutWords(info: string)
    requires Kept(Tokens(info)) == []
    ensures Tokens(FenceInfo(info)) == if Tokens(info) == [] then ["text"] else ["rust", "ignore"]
  {
    if Tokens(info) == [] {
      TokensOfJoin(["text"]);
    } else {
      RustIgnore();
    }
  }

  lemma RustIgnore()
    ensures Tokens("rust,ignore") == ["rust", "ignore"]
  {
    var ts := ["rust", "ignore"];
    RustIsToken();
    IgnoreIsToken();
    assert ts[1..] == ["ignore"];
    assert JoinCommas(ts[1..]) == "ignore";
    assert JoinCommas(ts) == "rust" + "," + "ignore" == "rust,ignore";
    TokensOfJoin(ts);
  }

  lemma RustIsToken()
    ensures IsToken("rust")
  {
  }

  lemma IgnoreIsToken()
    ensures IsToken("ignore")
  {
  }

  lemma InfoWithWords(info: string)
    requires Kept(Tokens(info)) != []
    ensures var kept := Kept(Tokens(info));
            Tokens(FenceInfo(info)) == (if "ignore" in kept then kept else kept + ["ignore"])
    ensures Tokens(FenceInfo(info)) != ["text"]
  {
    var kept := Kept(Tokens(info));
    KeptMembers(Tokens(info));
    TokensAreTokens(info);
    var ts := if "ignore" in kept then kept else kept + ["ignore"];
    TokensOfJoin(ts);
    assert "ignore" in ts;
  }

  /** The info string brings a tilde right behind a tilde run: the first word that is kept starts with one. */
  predicate TildeLed(info: string) {
    var kept := Kept(Tokens(info));
    kept != [] && "~" <= kept[0]
  }

  lemma {:induction false} TokenCharacters(info: string, c: char)
    requires c !in info
    ensures forall t | t in Tokens(info) :: c !in t
    decreases |info|
  {
    if info != "" {
      if IsDelimiter(info[0]) {
        TokenCharacters(info[1..], c);
      } else {
        TokenCharacters(info[WordLength(info)..], c);
      }
    }
  }

  lemma {:induction false} JoinCharacters(tokens: seq<string>, c: char)
    requires tokens != [] && c != ',' && forall t | t in tokens :: c !in t
    ensures c !in JoinCommas(tokens)
  {
    if |tokens| > 1 {
      assert forall t | t in tokens[1..] :: t in tokens;
      JoinCharacters(tokens[1..], c);
    }
    assert tokens[0] in tokens;
  }

  /** Words with one comma between each two, and nothing else. */
  ghost predicate CommasOnly(r: string) {
    && r != ""
    && forall i | 0 <= i < |r| && IsDelimiter(r[i]) :: r[i] == ',' && 0 < i < |r| - 1 && !IsDelimiter(r[i + 1])
  }

  lemma {:induction false} JoinedByCommas(tokens: seq<string>)
    requires tokens != [] && forall t | t in tokens :: IsToken(t)
    ensures CommasOnly(JoinCommas(tokens)) && !IsDelimiter(JoinCommas(tokens)[0])
  {
    assert IsToken(tokens[0]);
    if |tokens| > 1 {
      assert forall t | t in tokens[1..] :: t in tokens;
      JoinedByCommas(tokens[1..]);
      CommaBefore(tokens[0], JoinCommas(tokens[1..]));
    }
  }

  lemma CommaBefore(word: string, rest: string)
    requires IsToken(word) && CommasOnly(rest) && !IsDelimiter(rest[0])
    ensures CommasOnly(word + "," + rest)
  {
    var r, n := word + "," + rest, |word|;
    assert forall i | 0 <= i < n :: !IsDelimiter(r[i]) by {
      assert forall i | 0 <= i < n :: r[i] == word[i];
    }
    forall i | 0 <= i < |r| && IsDelimiter(r[i]) ensures r[i] == ',' && 0 < i < |r| - 1 && !IsDelimiter(r[i + 1]) {
      if i > n { assert r[i] == rest[i - n - 1]; }
    }
  }

  /** The rewritten info string is spelled with single commas. */
  lemma InfoText(info: string)
    ensures CommasOnly(FenceInfo(info))
  {
    var kept := Kept(Tokens(info));
    KeptMembers(Tokens(info));
    TokensAreTokens(info);
    IgnoreIsToken();
    if kept != [] {
      JoinedByCommas(if "ignore" in kept then kept else kept + ["ignore"]);
    } else {
      NoWordsText();
    }
  }

  lemma NoWordsText()
    ensures CommasOnly("rust,ignore") && CommasOnly("text")
  {
    var r := "rust,ignore";
    assert r[4] == ',' && forall i | 0 <= i < |r| && i != 4 :: !IsDelimiter(r[i]);
  }

  /** How a rewritten info string begins and what it does not contain. */
  lemma InfoShape(info: string)
    ensures FenceInfo(info) != ""
    ensures FenceInfo(info)[0] == '~' <==> TildeLed(info)
    ensures '`' !in info ==> '`' !in FenceInfo(info)
    ensures '~' !in info ==> !TildeLed(info)
  {
    var kept := Kept(Tokens(info));
    KeptMembers(Tokens(info));
    TokensAreTokens(info);
    if kept != [] {
      assert kept[0] in kept && IsToken(kept[0]);
      var ts := if "ignore" in kept then kept else kept + ["ignore"];
      assert ts[0] == kept[0];
      assert JoinCommas(ts)[0] == kept[0][0];
      if '`' !in info {
        TokenCharacters(info, '`');
        JoinCharacters(ts, '`');
      }
      if '~' !in info {
        TokenCharacters(info, '~');
        assert kept[0][0] in kept[0];
      }
    }
  }
}
