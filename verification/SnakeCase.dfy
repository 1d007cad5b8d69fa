/**
  The snake_case conversion of field and oneof names
  (buffa-codegen/src/field_names.rs, `idiomatic_snake_case`).
 */
module SnakeCase {
  import opened Text

  /** `s[j]` is the cased character that most recently precedes position `i` in its word. */
  ghost predicate CasedBefore(s: string, j: int, i: int) {
    && 0 <= j < i <= |s|
    && IsCased(s[j])
    && forall k | j < k < i :: !IsCased(s[k]) && s[k] != '_'
  }

  /** The word-boundary rule at position `i`, stated on the name alone. */
  ghost predicate StartsWord(s: string, i: nat)
    requires i < |s|
  {
    && IsUpper(s[i])
    && exists j :: CasedBefore(s, j, i) && (IsLower(s[j]) || (i + 1 < |s| && IsLower(s[i + 1])))
  }

  /** The cased character before position `i` in its word, found by scanning back. */
  function LastCased(s: string, i: nat): (c: Option<char>)
    requires i <= |s|
    ensures c.Some? ==> exists j :: CasedBefore(s, j, i) && c.value == s[j]
    ensures c.None? ==> forall j :: !CasedBefore(s, j, i)
  {
    if i == 0 then None
    else if s[i - 1] == '_' then None
    else if IsCased(s[i - 1]) then
      assert CasedBefore(s, i - 1, i);
      Some(s[i - 1])
    else
      var c := LastCased(s, i - 1);
      assert forall j :: CasedBefore(s, j, i) <==> CasedBefore(s, j, i - 1);
      c
  }

  function IsBoundary(s: string, i: nat): bool
    requires i < |s|
  {
    && IsUpper(s[i])
    && var c := LastCased(s, i);
    && c.Some?
    && (IsLower(c.value) || (i + 1 < |s| && IsLower(s[i + 1])))
  }

  /** The conversion of the first `n` characters of `s`. */
  function SnakePrefix(s: string, n: nat): string
    requires n <= |s|
  {
    if n == 0 then ""
    else SnakePrefix(s, n - 1) + (if IsBoundary(s, n - 1) then "_" else "") + [ToLower(s[n - 1])]
  }

  function SnakeCase(s: string): string {
    SnakePrefix(s, |s|)
  }

  /** The converter itself: one pass that remembers the last cased character of the word. */
  method IdiomaticSnakeCase(s: string) returns (out: string)
    ensures out == SnakeCase(s)
  {
    out := "";
    var lastCased: Option<char> := None;
    for i := 0 to |s|
      invariant out == SnakePrefix(s, i)
      invariant lastCased == LastCased(s, i)
    {
      var c := s[i];
      if c == '_' {
        lastCased := None;
        out := out + "_";
        continue;
      }
      if IsUpper(c) && i > 0 {
        var boundary := match lastCased
          case Some(p) => IsLower(p) || (IsUpper(p) && i + 1 < |s| && IsLower(s[i + 1]))
          case None => false;
        if boundary {
          out := out + "_";
        }
      }
      out := out + [ToLower(c)];
      if IsLower(c) || IsUpper(c) {
        lastCased := Some(c);
      }
    }
  }

  /** An underscore is inserted before exactly the positions that start a word. */
  lemma BoundaryRule(s: string, i: nat)
    requires i < |s|
    ensures IsBoundary(s, i) <==> StartsWord(s, i)
  {
    var c := LastCased(s, i);
    if c.Some? {
      var j :| CasedBefore(s, j, i) && c.value == s[j];
      forall k | CasedBefore(s, k, i) ensures k == j {
      }
    }
  }

  // ----- insertion only -----

  function DropUnderscores(s: string): string {
    if s == "" then ""
    else DropUnderscores(s[..|s| - 1]) + (if s[|s| - 1] == '_' then "" else [s[|s| - 1]])
  }

  lemma {:induction false} DropPush(s: string, c: char)
    ensures DropUnderscores(s + [c]) == DropUnderscores(s) + (if c == '_' then "" else [c])
  {
    assert (s + [c])[..|s|] == s;
  }

  lemma DropStep(before: string, marked: string, plain: string, c: char)
    requires DropUnderscores(before) == DropUnderscores(plain) && (marked == before || marked == before + "_")
    ensures DropUnderscores(marked + [c]) == DropUnderscores(plain + [c])
  {
    DropPush(before, '_');
    DropPush(marked, c);
    DropPush(plain, c);
  }

  lemma {:induction false} PrefixInsertsOnly(s: string, n: nat)
    requires n <= |s|
    ensures DropUnderscores(SnakePrefix(s, n)) == DropUnderscores(LowerAll(s[..n]))
  {
    if n > 0 {
      PrefixInsertsOnly(s, n - 1);
      var before := SnakePrefix(s, n - 1);
      var marked := before + (if IsBoundary(s, n - 1) then "_" else "");
      DropStep(before, marked, LowerAll(s[..n - 1]), ToLower(s[n - 1]));
      assert LowerAll(s[..n]) == LowerAll(s[..n - 1]) + [ToLower(s[n - 1])];
    }
  }

  lemma {:induction false} PrefixNoUpper(s: string, n: nat)
    requires n <= |s|
    ensures NoUpper(SnakePrefix(s, n))
  {
    if n > 0 { PrefixNoUpper(s, n - 1); }
  }

  /** Apart from underscores, the conversion only lowercases. */
  lemma InsertionOnly(s: string)
    ensures DropUnderscores(SnakeCase(s)) == DropUnderscores(LowerAll(s))
    ensures NoUpper(SnakeCase(s))
  {
    PrefixInsertsOnly(s, |s|);
    PrefixNoUpper(s, |s|);
    assert s[..|s|] == s;
  }

  lemma {:induction false} PrefixOfLower(s: string, n: nat)
    requires n <= |s| && NoUpper(s[..n])
    ensures SnakePrefix(s, n) == s[..n]
  {
    if n > 0 {
      assert forall i | 0 <= i < n - 1 :: s[..n - 1][i] == s[..n][i];
      PrefixOfLower(s, n - 1);
      assert s[..n][n - 1] == s[n - 1];
      assert s[..n] == s[..n - 1] + [s[n - 1]];
    }
  }

  /** Exactly the names without an uppercase letter are left alone. */
  lemma Unchanged(s: string)
    ensures SnakeCase(s) == s <==> NoUpper(s)
  {
    InsertionOnly(s);
    assert s[..|s|] == s;
    if NoUpper(s) { PrefixOfLower(s, |s|); }
  }

  lemma Idempotent(s: string)
    ensures SnakeCase(SnakeCase(s)) == SnakeCase(s)
  {
    InsertionOnly(s);
    Unchanged(SnakeCase(s));
  }

  // ----- authored underscores -----

  predicate Doubled(s: string) {
    exists i | 0 <= i < |s| - 1 :: s[i] == '_' && s[i + 1] == '_'
  }

  predicate Leading(s: string) { s != "" && s[0] == '_' }

  predicate Trailing(s: string) { s != "" && s[|s| - 1] == '_' }

  lemma DoubledPush(s: string, c: char)
    ensures Doubled(s + [c]) <==> Doubled(s) || (Trailing(s) && c == '_')
  {
    var t := s + [c];
    if Doubled(s) {
      var i :| 0 <= i < |s| - 1 && s[i] == '_' && s[i + 1] == '_';
      assert t[i] == '_' && t[i + 1] == '_';
    }
    if Trailing(s) && c == '_' {
      assert t[|s| - 1] == '_' && t[|s| - 1 + 1] == '_';
    }
    if Doubled(t) {
      var i :| 0 <= i < |t| - 1 && t[i] == '_' && t[i + 1] == '_';
      if i < |s| - 1 { assert s[i] == '_' && s[i + 1] == '_'; }
    }
  }

  lemma {:induction false} PrefixUnderscores(s: string, n: nat)
    requires n <= |s|
    ensures Leading(SnakePrefix(s, n)) <==> Leading(s[..n])
    ensures Trailing(SnakePrefix(s, n)) <==> Trailing(s[..n])
    ensures Doubled(SnakePrefix(s, n)) <==> Doubled(s[..n])
    ensures n > 0 ==> SnakePrefix(s, n) != ""
  {
    if n > 0 {
      PrefixUnderscores(s, n - 1);
      var before, mark, c := SnakePrefix(s, n - 1), IsBoundary(s, n - 1), ToLower(s[n - 1]);
      assert s[..n] == s[..n - 1] + [s[n - 1]];
      DoubledPush(s[..n - 1], s[n - 1]);
      DoubledPush(before, '_');
      DoubledPush(before, c);
      DoubledPush(before + "_", c);
      assert before + "" == before;
      assert SnakePrefix(s, n) == (if mark then before + "_" else before) + [c];
      if n > 1 { assert s[..n][0] == s[..n - 1][0]; }
      if mark {
        // The character just before an inserted underscore is part of the word.
        var last := LastCased(s, n - 1);
        assert last.Some? && n > 1 && s[n - 2] != '_';
        assert !Trailing(s[..n - 1]);
        assert c != '_';
      }
    }
  }

  /** The conversion adds no leading, trailing or doubled underscore, and removes none. */
  lemma KeepsAuthoredUnderscores(s: string)
    ensures Leading(SnakeCase(s)) <==> Leading(s)
    ensures Trailing(SnakeCase(s)) <==> Trailing(s)
    ensures Doubled(SnakeCase(s)) <==> Doubled(s)
  {
    PrefixUnderscores(s, |s|);
    assert s[..|s|] == s;
  }

  lemma {:induction false} PrefixWithoutUnderscore(s: string, n: nat)
    requires n <= |s| && '_' !in SnakePrefix(s, n)
    ensures SnakePrefix(s, n) == LowerAll(s[..n])
  {
    if n > 0 {
      PrefixWithoutUnderscore(s, n - 1);
      assert LowerAll(s[..n]) == LowerAll(s[..n - 1]) + [ToLower(s[n - 1])];
    }
  }

  /** A conversion without an underscore is the name in lowercase. */
  lemma OneWord(s: string)
    requires '_' !in SnakeCase(s)
    ensures SnakeCase(s) == LowerAll(s)
  {
    PrefixWithoutUnderscore(s, |s|);
    assert s[..|s|] == s;
  }
}
