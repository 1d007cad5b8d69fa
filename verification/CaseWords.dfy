/**
  The case converters, stated on the characters of a name: where words start, and what stands there.
  They are `idiomatic_snake_case`, `to_snake_case`, `to_upper_camel_case` and `to_shouty_snake_case`.
 */
module CaseWords {
  import opened Text
  import opened Idents
  import opened Descriptors
  import opened EnumValues
  import opened EnumAliases
  import SC = SnakeCase

  // ----- underscores before some positions -----

  /** `chars`, with an underscore before each of the positions `breaks`. */
  function Broken(chars: string, breaks: set<nat>): string {
    if chars == "" then ""
    else
      var n := |chars| - 1;
      Broken(chars[..n], breaks) + (if n in breaks then "_" else "") + [chars[n]]
  }

  /** `at` says where the characters are: next to each other, or with one underscore between. */
  ghost predicate Placed(chars: string, breaks: set<nat>, out: string, at: seq<nat>) {
    && |at| == |chars|
    && |out| == (if chars == "" then 0 else at[|at| - 1] + 1)
    && forall i | 0 <= i < |at| ::
         && at[i] < |out| && out[at[i]] == chars[i]
         && at[i] == (if i == 0 then 0 else at[i - 1] + 1) + (if i in breaks then 1 else 0)
         && (i in breaks ==> at[i] > 0 && out[at[i] - 1] == '_')
  }

  lemma PlacedStep(chars: string, c: char, breaks: set<nat>, out: string, at: seq<nat>)
    requires Placed(chars, breaks, out, at)
    ensures
      var mark := if |chars| in breaks then "_" else "";
      Placed(chars + [c], breaks, out + mark + [c], at + [|out| + |mark|])
  {
  }

  lemma OneMorePlaced(chars: string, breaks: set<nat>, before: seq<nat>) returns (at: seq<nat>)
    requires chars != "" && Placed(chars[..|chars| - 1], breaks, Broken(chars[..|chars| - 1], breaks), before)
    ensures Placed(chars, breaks, Broken(chars, breaks), at)
  {
    var n := |chars| - 1;
    var out, mark := Broken(chars[..n], breaks), if n in breaks then "_" else "";
    PlacedStep(chars[..n], chars[n], breaks, out, before);
    assert chars == chars[..n] + [chars[n]];
    at := before + [|out| + |mark|];
  }

  lemma {:induction false} BrokenIs(chars: string, breaks: set<nat>) returns (at: seq<nat>)
    ensures Placed(chars, breaks, Broken(chars, breaks), at)
  {
    at := [];
    if chars != "" {
      var n := |chars| - 1;
      var before := BrokenIs(chars[..n], breaks);
      at := OneMorePlaced(chars, breaks, before);
    }
  }

  function UpperAll(s: string): (r: string)
    ensures |r| == |s|
    ensures forall i | 0 <= i < |r| :: r[i] == ToUpper(s[i])
  {
    seq(|s|, i requires 0 <= i < |s| => ToUpper(s[i]))
  }

  lemma BrokenStep(chars: string, c: char, breaks: set<nat>)
    ensures Broken(chars + [c], breaks) == Broken(chars, breaks) + (if |chars| in breaks then "_" else "") + [c]
  {
    assert (chars + [c])[..|chars|] == chars;
  }

  lemma BrokenDrops(chars: string, breaks: set<nat>)
    ensures SC.DropUnderscores(Broken(chars, breaks)) == SC.DropUnderscores(chars)
  {
    if chars != "" {
      var n := |chars| - 1;
      BrokenDrops(chars[..n], breaks);
      var before := Broken(chars[..n], breaks);
      SC.DropPush(before, '_');
      SC.DropPush(before, chars[n]);
      SC.DropPush(before + "_", chars[n]);
      assert before + "" == before;
    }
  }

  // ----- the rules -----

  /** A capital behind a lowercase letter, or one that ends a run of capitals before a lowercase letter. */
  predicate Rises(s: string, i: nat)
    requires 0 < i < |s|
  {
    'A' <= s[i] <= 'Z' &&
    (|| 'a' <= s[i - 1] <= 'z'
     || ('A' <= s[i - 1] <= 'Z' && i + 1 < |s| && 'a' <= s[i + 1] <= 'z'))
  }

  ghost function SnakeBreaks(s: string): set<nat> {
    set i: nat | 0 < i < |s| && Rises(s, i)
  }

  ghost function ShoutyBreaks(s: string): set<nat> {
    set i: nat | 0 < i < |s| && (Rises(s, i) || ('A' <= s[i] <= 'Z' && '0' <= s[i - 1] <= '9'))
  }

  ghost function IdiomaticBreaks(s: string): set<nat> {
    set i: nat | i < |s| && SC.StartsWord(s, i)
  }

  /** A character that starts a word: the first one, one behind an underscore, or a rise. */
  predicate WordStart(s: string, i: nat)
    requires i < |s|
  {
    s[i] != '_' && (i == 0 || s[i - 1] == '_' || Rises(s, i))
  }

  /** The first `n` characters, each in upper case if it starts a word, and otherwise in lower case. */
  function Capitals(s: string, n: nat): string
    requires n <= |s|
  {
    if n == 0 then ""
    else Capitals(s, n - 1) + [if WordStart(s, n - 1) then ToUpper(s[n - 1]) else ToLower(s[n - 1])]
  }

  function Capitalized(s: string): string { Capitals(s, |s|) }

  lemma {:induction false} CapitalsAt(s: string, n: nat)
    requires n <= |s|
    ensures |Capitals(s, n)| == n
    ensures forall i | 0 <= i < n :: Capitals(s, n)[i] == if WordStart(s, i) then ToUpper(s[i]) else ToLower(s[i])
  {
    if n > 0 { CapitalsAt(s, n - 1); }
  }

  // ----- the converters obey them -----

  lemma {:induction false} IdiomaticIs(s: string, n: nat)
    requires n <= |s|
    ensures SC.SnakePrefix(s, n) == Broken(LowerAll(s[..n]), IdiomaticBreaks(s))
  {
    if n > 0 {
      IdiomaticIs(s, n - 1);
      SC.BoundaryRule(s, n - 1);
      assert LowerAll(s[..n]) == LowerAll(s[..n - 1]) + [ToLower(s[n - 1])];
      BrokenStep(LowerAll(s[..n - 1]), ToLower(s[n - 1]), IdiomaticBreaks(s));
    }
  }

  /** Field and oneof names: lowercase, with an underscore before exactly the positions that start a word. */
  lemma IdiomaticRule(s: string)
    ensures SC.SnakeCase(s) == Broken(LowerAll(s), IdiomaticBreaks(s))
  {
    IdiomaticIs(s, |s|);
    assert s[..|s|] == s;
  }

  lemma {:induction false} SnakeIs(s: string, i: nat)
    requires i <= |s|
    ensures Broken(LowerAll(s[..i]), SnakeBreaks(s)) + SnakeFrom(s, i) == Broken(LowerAll(s), SnakeBreaks(s))
    decreases |s| - i
  {
    if i < |s| {
      SnakeIs(s, i + 1);
      assert LowerAll(s[..i + 1]) == LowerAll(s[..i]) + [ToLower(s[i])];
      BrokenStep(LowerAll(s[..i]), ToLower(s[i]), SnakeBreaks(s));
      Unnested(Broken(LowerAll(s[..i]), SnakeBreaks(s)), if i in SnakeBreaks(s) then "_" else "", [ToLower(s[i])],
               SnakeFrom(s, i + 1));
    } else {
      assert s[..i] == s;
    }
  }

  lemma Unnested(a: string, b: string, c: string, d: string)
    ensures a + (b + c + d) == (a + b + c) + d
  {
  }

  /** Module names: lowercase, with an underscore before exactly the rises. */
  lemma SnakeRule(s: string)
    ensures ToSnakeCase(s) == Broken(LowerAll(s), SnakeBreaks(s))
  {
    SnakeIs(s, 0);
    assert s[..0] == "" && LowerAll("") == "";
  }

  lemma {:induction false} ShoutyIs(s: string, i: nat)
    requires i <= |s|
    ensures Broken(UpperAll(s[..i]), ShoutyBreaks(s)) + ShoutyFrom(s, i) == Broken(UpperAll(s), ShoutyBreaks(s))
    decreases |s| - i
  {
    if i < |s| {
      ShoutyIs(s, i + 1);
      assert UpperAll(s[..i + 1]) == UpperAll(s[..i]) + [ToUpper(s[i])];
      BrokenStep(UpperAll(s[..i]), ToUpper(s[i]), ShoutyBreaks(s));
      Unnested(Broken(UpperAll(s[..i]), ShoutyBreaks(s)), if i in ShoutyBreaks(s) then "_" else "", [ToUpper(s[i])],
               ShoutyFrom(s, i + 1));
    } else {
      assert s[..i] == s;
    }
  }

  /** Prefixes of enums: capitals, with an underscore before the rises and before a capital behind a digit. */
  lemma ShoutyRule(s: string)
    ensures Shouty(s) == Broken(UpperAll(s), ShoutyBreaks(s))
  {
    ShoutyIs(s, 0);
    assert s[..0] == "" && UpperAll("") == "";
  }

  /** Behind an underscore, or at the start. */
  predicate Fresh(s: string, i: nat)
    requires i <= |s|
  {
    i == 0 || s[i - 1] == '_'
  }

  lemma CamelNext(s: string, i: nat)
    requires i < |s|
    ensures
      var c := if s[i] == '_' then "" else [if WordStart(s, i) then ToUpper(s[i]) else ToLower(s[i])];
      && CamelFrom(s, i, Fresh(s, i)) == c + CamelFrom(s, i + 1, Fresh(s, i + 1))
      && SC.DropUnderscores(Capitals(s, i + 1)) == SC.DropUnderscores(Capitals(s, i)) + c
  {
    var c := if WordStart(s, i) then ToUpper(s[i]) else ToLower(s[i]);
    assert c == '_' <==> s[i] == '_';
    SC.DropPush(Capitals(s, i), c);
  }

  lemma Rejoined(before: string, now: string, more: string, rest: string, whole: string)
    requires (before + now) + rest == whole && more == now + rest
    ensures before + more == whole
  {
  }

  lemma {:induction false} CamelIs(s: string, i: nat)
    requires i <= |s|
    ensures SC.DropUnderscores(Capitals(s, i)) + CamelFrom(s, i, Fresh(s, i)) == SC.DropUnderscores(Capitalized(s))
    decreases |s| - i
  {
    if i < |s| {
      CamelIs(s, i + 1);
      CamelNext(s, i);
      Rejoined(SC.DropUnderscores(Capitals(s, i)),
               if s[i] == '_' then "" else [if WordStart(s, i) then ToUpper(s[i]) else ToLower(s[i])],
               CamelFrom(s, i, Fresh(s, i)), CamelFrom(s, i + 1, Fresh(s, i + 1)), SC.DropUnderscores(Capitalized(s)));
    }
  }

  /** Aliases: without underscores, exactly the characters that start a word in upper case and all others in lower. */
  lemma CamelRule(s: string)
    ensures Camel(s) == SC.DropUnderscores(Capitalized(s))
  {
    CamelIs(s, 0);
  }

  // ----- nothing else changes -----

  lemma {:induction false} DropLower(s: string)
    ensures SC.DropUnderscores(LowerAll(s)) == LowerAll(SC.DropUnderscores(s))
  {
    if s != "" {
      var n := |s| - 1;
      DropLower(s[..n]);
      assert LowerAll(s) == LowerAll(s[..n]) + [ToLower(s[n])];
      SC.DropPush(LowerAll(s[..n]), ToLower(s[n]));
      LowerPush(SC.DropUnderscores(s[..n]), s[n]);
      assert LowerAll(SC.DropUnderscores(s[..n]) + "") == LowerAll(SC.DropUnderscores(s[..n])) + "";
    } else {
      assert LowerAll("") == "";
    }
  }

  lemma LowerPush(s: string, c: char)
    ensures LowerAll(s + [c]) == LowerAll(s) + [ToLower(c)]
  {
  }

  lemma CaseTwice(s: string)
    ensures LowerAll(UpperAll(s)) == LowerAll(s) && LowerAll(Capitalized(s)) == LowerAll(s)
  {
    CapitalsAt(s, |s|);
    forall i | 0 <= i < |s|
      ensures LowerAll(UpperAll(s))[i] == ToLower(s[i]) && LowerAll(Capitalized(s))[i] == ToLower(s[i])
    {
      LowerTwice(s[i]);
    }
  }

  lemma LowerTwice(c: char)
    ensures ToLower(ToUpper(c)) == ToLower(c) == ToLower(ToLower(c))
  {
  }

  lemma SnakesKeepLetters(s: string)
    ensures SC.DropUnderscores(SC.SnakeCase(s)) == LowerAll(SC.DropUnderscores(s))
    ensures SC.DropUnderscores(ToSnakeCase(s)) == LowerAll(SC.DropUnderscores(s))
  {
    DropLower(s);
    IdiomaticRule(s);
    SnakeRule(s);
    BrokenDrops(LowerAll(s), IdiomaticBreaks(s));
    BrokenDrops(LowerAll(s), SnakeBreaks(s));
  }

  lemma ShoutyKeepsLetters(s: string)
    ensures LowerAll(SC.DropUnderscores(Shouty(s))) == LowerAll(SC.DropUnderscores(s))
  {
    ShoutyRule(s);
    BrokenDrops(UpperAll(s), ShoutyBreaks(s));
    DropLower(UpperAll(s));
    DropLower(s);
    CaseTwice(s);
  }

  lemma CamelKeepsLetters(s: string)
    ensures LowerAll(Camel(s)) == LowerAll(SC.DropUnderscores(s))
  {
    CamelRule(s);
    DropLower(Capitalized(s));
    DropLower(s);
    CaseTwice(s);
  }

  /** All four converters only insert or drop underscores and change the case of letters. */
  lemma LettersStay(s: string)
    ensures SC.DropUnderscores(SC.SnakeCase(s)) == LowerAll(SC.DropUnderscores(s))
    ensures SC.DropUnderscores(ToSnakeCase(s)) == LowerAll(SC.DropUnderscores(s))
    ensures LowerAll(SC.DropUnderscores(Shouty(s))) == LowerAll(SC.DropUnderscores(s))
    ensures LowerAll(Camel(s)) == LowerAll(SC.DropUnderscores(s))
  {
    SnakesKeepLetters(s);
    ShoutyKeepsLetters(s);
    CamelKeepsLetters(s);
  }

  // ----- enums named by convention -----

  /** A word in CamelCase: a capital, and then at least one lowercase letter or digit. */
  predicate IsWord(w: string) {
    |w| >= 2 && 'A' <= w[0] <= 'Z' && forall i | 0 < i < |w| :: 'a' <= w[i] <= 'z' || '0' <= w[i] <= '9'
  }

  function Concat(words: seq<string>): string {
    if words == [] then "" else Concat(words[..|words| - 1]) + words[|words| - 1]
  }

  /** The words in capitals, joined by underscores. */
  function Shouted(words: seq<string>): string
    requires words != []
  {
    var n := |words| - 1;
    if n == 0 then UpperAll(words[0]) else Shouted(words[..n]) + "_" + UpperAll(words[n])
  }

  lemma {:induction false} ConcatEnds(words: seq<string>)
    requires words != [] && forall w | w in words :: IsWord(w)
    ensures var s := Concat(words);
            |s| >= 2 && ('a' <= s[|s| - 1] <= 'z' || '0' <= s[|s| - 1] <= '9')
  {
    var w := words[|words| - 1];
    assert w in words;
  }

  /** A word appended to a text that ends in a lowercase letter or a digit. */
  lemma ShoutyAppend(s: string, w: string)
    requires IsWord(w) && (s != "" ==> 'a' <= s[|s| - 1] <= 'z' || '0' <= s[|s| - 1] <= '9')
    ensures Broken(UpperAll(s + w), ShoutyBreaks(s + w)) ==
            Broken(UpperAll(s), ShoutyBreaks(s)) + (if s == "" then "" else "_") + UpperAll(w)
  {
    var t := s + w;
    forall i: nat ensures i in ShoutyBreaks(t) <==> i in ShoutyBreaks(s) || (i == |s| && s != "") {
      BreakOf(s, w, i);
    }
    BrokenAlike(UpperAll(s), ShoutyBreaks(t), ShoutyBreaks(s));
    assert UpperAll(t) == UpperAll(s) + UpperAll(w);
    BrokenWord(UpperAll(s), UpperAll(w), ShoutyBreaks(t));
  }

  lemma BreakOf(s: string, w: string, i: nat)
    requires IsWord(w) && (s != "" ==> 'a' <= s[|s| - 1] <= 'z' || '0' <= s[|s| - 1] <= '9')
    ensures i in ShoutyBreaks(s + w) <==> i in ShoutyBreaks(s) || (i == |s| && s != "")
  {
    var t := s + w;
    if i < |s| {
      assert t[i] == s[i] && (i > 0 ==> t[i - 1] == s[i - 1]) && (i + 1 < |s| ==> t[i + 1] == s[i + 1]);
    } else if i < |t| {
      assert t[i] == w[i - |s|] && (i > |s| ==> t[i - 1] == w[i - |s| - 1]);
    }
  }

  lemma {:induction false} BrokenAlike(chars: string, a: set<nat>, b: set<nat>)
    requires forall i: nat | i < |chars| :: i in a <==> i in b
    ensures Broken(chars, a) == Broken(chars, b)
  {
    if chars != "" { BrokenAlike(chars[..|chars| - 1], a, b); }
  }

  lemma {:induction false} BrokenWord(chars: string, word: string, breaks: set<nat>)
    requires word != "" && forall i: nat | |chars| < i < |chars| + |word| :: i !in breaks
    ensures Broken(chars + word, breaks) == Broken(chars, breaks) + (if |chars| in breaks then "_" else "") + word
    decreases |word|
  {
    var n := |word| - 1;
    var c := word[n];
    assert chars + word == (chars + word[..n]) + [c];
    BrokenStep(chars + word[..n], c, breaks);
    if n == 0 {
      assert word[..0] == "" && chars + "" == chars && word == [c];
    } else {
      BrokenWord(chars, word[..n], breaks);
      assert word == word[..n] + [c];
    }
  }

  /** The prefix of an enum whose name is made of CamelCase words is those words in capitals. */
  lemma {:induction false} ShoutyOfWords(words: seq<string>)
    requires words != [] && forall w | w in words :: IsWord(w)
    ensures Shouty(Concat(words)) == Shouted(words)
  {
    var n := |words| - 1;
    var before, w := words[..n], words[n];
    ShoutyRule(Concat(words));
    ShoutyRule(Concat(before));
    assert w in words && forall v | v in before :: v in words;
    if n > 0 {
      ShoutyOfWords(before);
      ConcatEnds(before);
    }
    ShoutyAppend(Concat(before), w);
    assert n == 0 ==> Concat(before) == "" && Broken(UpperAll(""), ShoutyBreaks("")) == "";
  }

  lemma {:induction false} DropConcat(a: string, b: string)
    ensures SC.DropUnderscores(a + b) == SC.DropUnderscores(a) + SC.DropUnderscores(b)
    decreases |b|
  {
    if b == "" {
      assert a + b == a;
    } else {
      var n := |b| - 1;
      assert a + b == (a + b[..n]) + [b[n]];
      DropConcat(a, b[..n]);
      SC.DropPush(a + b[..n], b[n]);
    }
  }

  lemma {:induction false} DropNone(s: string)
    requires '_' !in s
    ensures SC.DropUnderscores(s) == s
  {
    if s != "" { DropNone(s[..|s| - 1]); }
  }

  predicate NoLower(s: string) {
    forall i | 0 <= i < |s| :: !IsLower(s[i])
  }

  /** In capitals, words start behind underscores only. */
  lemma CapitalsStart(t: string, i: nat)
    requires NoLower(t) && i < |t|
    ensures WordStart(t, i) <==> t[i] != '_' && Fresh(t, i)
  {
  }

  lemma CapitalizedWord(w: string)
    requires IsWord(w)
    ensures Capitalized(UpperAll(w)) == w && NoLower(UpperAll(w))
  {
    var u := UpperAll(w);
    CapitalsAt(u, |u|);
    forall i | 0 <= i < |w| ensures Capitalized(u)[i] == w[i] {
      CapitalsStart(u, i);
      NoUnderscore(w[i]);
      if i > 0 {
        LowerAgain(w[i]);
        NoUnderscore(w[i - 1]);
      }
    }
  }

  lemma LowerAgain(c: char)
    requires 'a' <= c <= 'z' || '0' <= c <= '9'
    ensures ToLower(ToUpper(c)) == c
  {
  }

  lemma NoUnderscore(c: char)
    requires 'A' <= c <= 'Z' || 'a' <= c <= 'z' || '0' <= c <= '9'
    ensures ToUpper(c) != '_'
  {
  }

  lemma {:induction false} CapitalsBefore(s: string, t: string, n: nat)
    requires NoLower(s) && NoLower(t) && n <= |s| <= |t| && s == t[..|s|]
    ensures Capitals(t, n) == Capitals(s, n)
  {
    if n > 0 {
      CapitalsBefore(s, t, n - 1);
      CapitalsStart(s, n - 1);
      CapitalsStart(t, n - 1);
      assert t[n - 1] == s[n - 1] && (n > 1 ==> t[n - 2] == s[n - 2]);
    }
  }

  lemma {:induction false} CapitalsBehind(s: string, u: string, n: nat)
    requires NoLower(s) && NoLower(u) && n <= |u|
    ensures Capitals(s + "_" + u, |s| + 1 + n) == Capitals(s, |s|) + "_" + Capitals(u, n)
  {
    var t := s + "_" + u;
    assert NoLower(t) && t[|s|] == '_';
    if n == 0 {
      CapitalsBefore(s, t, |s|);
      assert Capitals(t, |s| + 1) == Capitals(t, |s|) + "_";
    } else {
      CapitalsBehind(s, u, n - 1);
      CapitalsStart(t, |s| + n);
      CapitalsStart(u, n - 1);
      assert t[|s| + n] == u[n - 1] && t[|s| + n - 1] == (if n == 1 then '_' else u[n - 2]);
    }
  }

  lemma CapitalizedAppend(s: string, u: string)
    requires NoLower(s) && NoLower(u)
    ensures Capitalized(s + "_" + u) == Capitalized(s) + "_" + Capitalized(u)
  {
    CapitalsBehind(s, u, |u|);
  }

  lemma {:induction false} ShoutedShape(words: seq<string>)
    requires words != []
    ensures NoLower(Shouted(words))
  {
    var n := |words| - 1;
    if n > 0 { ShoutedShape(words[..n]); }
  }

  /** Words in capitals are converted back to CamelCase. */
  lemma {:induction false} CamelOfShouted(words: seq<string>)
    requires words != [] && forall w | w in words :: IsWord(w)
    ensures Camel(Shouted(words)) == Concat(words)
  {
    var n := |words| - 1;
    var before, w := words[..n], words[n];
    assert w in words && forall v | v in before :: v in words;
    CapitalizedWord(w);
    DropNone(w);
    CamelRule(Shouted(words));
    if n > 0 {
      CamelOfShouted(before);
      CamelRule(Shouted(before));
      ShoutedShape(before);
      CapitalizedAppend(Shouted(before), UpperAll(w));
      DropAround(Capitalized(Shouted(before)), w);
    } else {
      assert Concat(before) == "" && "" + w == w;
    }
  }

  lemma DropAround(c: string, w: string)
    requires '_' !in w
    ensures SC.DropUnderscores(c + "_" + w) == SC.DropUnderscores(c) + w
  {
    DropNone(w);
    DropConcat(c + "_", w);
    SC.DropPush(c, '_');
    assert SC.DropUnderscores(c) + "" == SC.DropUnderscores(c);
  }

  lemma {:induction false} ShoutedConcat(a: seq<string>, b: seq<string>)
    requires a != [] && b != []
    ensures Shouted(a + b) == Shouted(a) + "_" + Shouted(b)
  {
    var n := |b| - 1;
    var all := a + b;
    ShoutedMore(all, UpperAll(b[n]));
    if n == 0 {
      assert all[..|all| - 1] == a;
    } else {
      assert all[..|all| - 1] == a + b[..n];
      ShoutedConcat(a, b[..n]);
      ShoutedMore(b, UpperAll(b[n]));
      Chained(Shouted(a), Shouted(b[..n]), UpperAll(b[n]));
    }
  }

  lemma ShoutedMore(words: seq<string>, last: string)
    requires |words| >= 1 && last == UpperAll(words[|words| - 1])
    ensures Shouted(words) == if |words| == 1 then last else Shouted(words[..|words| - 1]) + "_" + last
  {
  }

  lemma Chained(a: string, b: string, c: string)
    ensures (a + "_" + b) + "_" + c == a + "_" + (b + "_" + c)
  {
  }

  /** When every value is the prefix and a rest that stays an identifier, every alias is the rest in CamelCase. */
  lemma PrefixComesOff(enumName: string, records: seq<Record>, rests: seq<string>, i: nat)
    requires |rests| == |records| && i < |records|
    requires forall k | 0 <= k < |records| ::
      records[k].name == Shouty(enumName) + "_" + rests[k] && IsValid(Camel(rests[k]))
    ensures AliasIdent(PrefixOf(enumName, records), records[i].name) == FieldIdent(Camel(rests[i]))
  {
    var text := Shouty(enumName) + "_";
    forall k | 0 <= k < |records| ensures text <= records[k].name && records[k].name[|text|..] == rests[k] {
      assert records[k].name == text + rests[k];
    }
  }

  /** When one is not, every alias is the whole name in CamelCase. */
  lemma PrefixStays(enumName: string, records: seq<Record>, k: nat, i: nat)
    requires k < |records| && i < |records|
    requires forall rest: string :: records[k].name == Shouty(enumName) + "_" + rest ==> !IsValid(Camel(rest))
    ensures AliasIdent(PrefixOf(enumName, records), records[i].name) == FieldIdent(Camel(records[i].name))
  {
    var text := Shouty(enumName) + "_";
    if text <= records[k].name {
      var rest := records[k].name[|text|..];
      assert records[k].name == text + rest;
    }
  }

  /** The values of an enum that follow the convention: the words of the enum's name, then words of their own. */
  ghost predicate IsConventional(enumWords: seq<string>, records: seq<Record>, own: seq<seq<string>>) {
    && enumWords != [] && (forall w | w in enumWords :: IsWord(w)) && |own| == |records|
    && forall k | 0 <= k < |records| ::
         && own[k] != [] && (forall w | w in own[k] :: IsWord(w))
         && records[k].name == Shouted(enumWords + own[k])
  }

  /** Such a value is named by its own words: `RULE_LEVEL_HIGH` of the enum `RuleLevel` is `High`. */
  lemma ConventionalAlias(enumWords: seq<string>, records: seq<Record>, own: seq<seq<string>>, i: nat)
    requires IsConventional(enumWords, records, own) && i < |records|
    ensures AliasIdent(PrefixOf(Concat(enumWords), records), records[i].name) == FieldIdent(Concat(own[i]))
  {
    var rests := seq(|own|, k requires 0 <= k < |own| => if own[k] == [] then "" else Shouted(own[k]));
    ShoutyOfWords(enumWords);
    forall k | 0 <= k < |records|
      ensures records[k].name == Shouty(Concat(enumWords)) + "_" + rests[k] && IsValid(Camel(rests[k]))
      ensures Camel(rests[k]) == Concat(own[k])
    {
      ShoutedConcat(enumWords, own[k]);
      CamelOfShouted(own[k]);
      StartsWithCapital(own[k]);
    }
    PrefixComesOff(Concat(enumWords), records, rests, i);
  }

  lemma {:induction false} StartsWithCapital(words: seq<string>)
    requires words != [] && forall w | w in words :: IsWord(w)
    ensures Concat(words) != "" && IsUpper(Concat(words)[0])
  {
    var n := |words| - 1;
    assert words[n] in words && forall v | v in words[..n] :: v in words;
    if n > 0 { StartsWithCapital(words[..n]); } else { assert Concat(words[..0]) == ""; }
  }
}
