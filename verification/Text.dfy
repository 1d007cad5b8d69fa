/** Strings, sequences and decimal numbers, as the planners use them. */
module Text {

  datatype Option<+T> = None | Some(value: T) {
    function GetOr(default: T): T {
      if Some? then value else default
    }
  }

  // ----- characters (proto identifiers are ASCII) -----

  predicate IsUpper(c: char) { 'A' <= c <= 'Z' }

  predicate IsLower(c: char) { 'a' <= c <= 'z' }

  predicate IsDigit(c: char) { '0' <= c <= '9' }

  predicate IsCased(c: char) { IsUpper(c) || IsLower(c) }

  function ToLower(c: char): (r: char)
    ensures !IsUpper(r)
    ensures !IsUpper(c) ==> r == c
    ensures IsUpper(c) ==> IsLower(r)
  {
    if IsUpper(c) then c - 'A' + 'a' else c
  }

  function ToUpper(c: char): (r: char)
    ensures !IsLower(r)
    ensures !IsLower(c) ==> r == c
    ensures IsLower(c) ==> IsUpper(r)
  {
    if IsLower(c) then c - 'a' + 'A' else c
  }

  predicate NoUpper(s: string) {
    forall i | 0 <= i < |s| :: !IsUpper(s[i])
  }

  function LowerAll(s: string): (r: string)
    ensures |r| == |s|
    ensures forall i | 0 <= i < |s| :: r[i] == ToLower(s[i])
  {
    seq(|s|, i requires 0 <= i < |s| => ToLower(s[i]))
  }

  // ----- sequences -----

  ghost predicate Distinct<T>(s: seq<T>) {
    forall i, j | 0 <= i < j < |s| :: s[i] != s[j]
  }

  function ToSet<T(==,!new)>(s: seq<T>): (r: set<T>)
    ensures forall x :: x in r <==> x in s
  {
    set x | x in s
  }

  lemma PrefixSet<T(!new)>(s: seq<T>, n: nat)
    requires n < |s|
    ensures ToSet(s[..n + 1]) == ToSet(s[..n]) + {s[n]}
  {
    assert s[..n + 1] == s[..n] + [s[n]];
  }

  lemma {:induction false} SubsetSize<T>(a: set<T>, b: set<T>)
    requires a <= b
    ensures |a| <= |b|
    decreases |b|
  {
    if b != {} {
      var x :| x in b;
      assert a - {x} <= b - {x};
      SubsetSize(a - {x}, b - {x});
    }
  }

  /** A sequence has as many elements as its set of values exactly when it repeats none. */
  lemma {:induction false} DistinctByCount<T(!new)>(s: seq<T>)
    ensures |ToSet(s)| <= |s|
    ensures |ToSet(s)| == |s| <==> Distinct(s)
  {
    if s != [] {
      var last := s[|s| - 1];
      var init := s[..|s| - 1];
      assert s == init + [last];
      DistinctByCount(init);
      assert ToSet(s) == ToSet(init) + {last};
      if last in init {
        assert ToSet(s) == ToSet(init);
        var k :| 0 <= k < |init| && init[k] == last;
        assert s[k] == s[|s| - 1];
      } else {
        if Distinct(init) {
          assert forall i | 0 <= i < |init| :: s[i] in init;
        }
        if Distinct(s) {
          assert forall i, j | 0 <= i < j < |init| :: s[i] == init[i] && s[j] == init[j];
        }
      }
    }
  }

  lemma DropDrop<T>(s: seq<T>, i: nat, k: nat)
    requires i + k <= |s|
    ensures s[i..][k..] == s[i + k..]
  {
  }

  lemma OneLonger<T>(s: seq<T>, k: nat)
    requires k < |s|
    ensures s[..k + 1] == s[..k] + [s[k]]
  {
  }

  lemma AllOfThem<T>(s: seq<T>)
    ensures s[..|s|] == s
  {
  }

  lemma ConcatIsAssociative<T>(a: seq<T>, b: seq<T>, c: seq<T>)
    ensures a + (b + c) == a + b + c
  {
  }

  lemma PrefixCancels<T>(p: seq<T>, a: seq<T>, b: seq<T>)
    ensures p + a == p + b <==> a == b
  {
    assert (p + a)[|p|..] == a && (p + b)[|p|..] == b;
  }

  function Repeat(c: char, n: nat): (r: string)
    ensures |r| == n
    ensures forall i | 0 <= i < n :: r[i] == c
  {
    seq(n, i => c)
  }

  // ----- runs of one character -----

  function RunLength(s: string, c: char): (n: nat)
    ensures n <= |s|
  {
    if s != "" && s[0] == c then 1 + RunLength(s[1..], c) else 0
  }

  lemma {:induction false} RunLengthIs(s: string, c: char)
    ensures var n := RunLength(s, c);
            && s[..n] == Repeat(c, n)
            && (forall i | 0 <= i < n :: s[i] == c)
            && (n < |s| ==> s[n] != c)
  {
    if s != "" && s[0] == c { RunLengthIs(s[1..], c); }
  }

  lemma {:induction false} RunLengthUnique(s: string, c: char, n: nat)
    requires n <= |s| && (forall i | 0 <= i < n :: s[i] == c) && (n < |s| ==> s[n] != c)
    ensures RunLength(s, c) == n
  {
    if n > 0 { RunLengthUnique(s[1..], c, n - 1); }
  }

  // ----- white space -----

  /** The Unicode property White_Space. */
  predicate IsWhiteSpace(c: char) {
    var n := c as int;
    || 0x09 <= n <= 0x0D || n == 0x20 || n == 0x85 || n == 0xA0 || n == 0x1680
    || 0x2000 <= n <= 0x200A || n == 0x2028 || n == 0x2029 || n == 0x202F || n == 0x205F
    || n == 0x3000
  }

  predicate IsBlank(s: string) {
    forall i | 0 <= i < |s| :: IsWhiteSpace(s[i])
  }

  function TrimStart(s: string): string {
    if s != "" && IsWhiteSpace(s[0]) then TrimStart(s[1..]) else s
  }

  function TrimEnd(s: string): string {
    if s != "" && IsWhiteSpace(s[|s| - 1]) then TrimEnd(s[..|s| - 1]) else s
  }

  function Trim(s: string): string { TrimEnd(TrimStart(s)) }

  lemma {:induction false} TrimStartIs(s: string, a: string, b: string)
    requires s == a + b && IsBlank(a) && (b != "" ==> !IsWhiteSpace(b[0]))
    ensures TrimStart(s) == b
  {
    if a != "" {
      assert s[0] == a[0] && s[1..] == a[1..] + b;
      TrimStartIs(s[1..], a[1..], b);
    } else {
      assert s == b;
    }
  }

  lemma {:induction false} TrimEndIs(s: string, a: string, b: string)
    requires s == a + b && IsBlank(b) && (a != "" ==> !IsWhiteSpace(a[|a| - 1]))
    ensures TrimEnd(s) == a
  {
    if b != "" {
      assert s[|s| - 1] == b[|b| - 1] && s[..|s| - 1] == a + b[..|b| - 1];
      TrimEndIs(s[..|s| - 1], a, b[..|b| - 1]);
    } else {
      assert s == a;
    }
  }

  /** White space is taken off both ends, and nothing else. */
  lemma TrimIs(s: string, a: string, middle: string, b: string)
    requires s == a + middle + b && IsBlank(a) && IsBlank(b)
    requires middle != "" ==> !IsWhiteSpace(middle[0]) && !IsWhiteSpace(middle[|middle| - 1])
    ensures Trim(s) == middle
  {
    if middle == "" {
      assert s == (a + b) + "" && IsBlank(a + b);
      TrimStartIs(s, a + b, "");
    } else {
      assert s == a + (middle + b);
      TrimStartIs(s, a, middle + b);
      TrimEndIs(middle + b, middle, b);
    }
  }

  lemma {:induction false} BlankStart(s: string) returns (n: nat)
    ensures n <= |s| && IsBlank(s[..n]) && (n < |s| ==> !IsWhiteSpace(s[n]))
  {
    n := 0;
    if s != "" && IsWhiteSpace(s[0]) {
      n := BlankStart(s[1..]);
      assert s[..n + 1] == [s[0]] + s[1..][..n];
      n := n + 1;
    }
  }

  lemma {:induction false} BlankEnd(s: string) returns (n: nat)
    ensures n <= |s| && IsBlank(s[n..]) && (n > 0 ==> !IsWhiteSpace(s[n - 1]))
  {
    n := |s|;
    if s != "" && IsWhiteSpace(s[|s| - 1]) {
      n := BlankEnd(s[..|s| - 1]);
      assert s[n..] == s[..|s| - 1][n..] + [s[|s| - 1]];
    }
  }

  // ----- free names -----

  function Underscores(n: nat): string { Repeat('_', n) }

  lemma UnderscoresAfterTwo(s: string, k: nat)
    ensures (s + "__") + Underscores(k) == s + Underscores(k + 2)
  {
  }

  /** The shortest extension of `s` by underscores outside `taken`; at most `|taken|` are needed. */
  function FirstFree(taken: set<string>, s: string): (r: string)
    ensures r !in taken
    ensures |s| <= |r| <= |s| + |taken|
    decreases |taken|
  {
    if s !in taken then s else FirstFree(taken - {s}, s + "_")
  }

  lemma {:induction false} FirstFreeIs(taken: set<string>, s: string)
    ensures var r := FirstFree(taken, s);
            && r == s + Underscores(|r| - |s|)
            && forall k | 0 <= k < |r| - |s| :: s + Underscores(k) in taken
    decreases |taken|
  {
    var r := FirstFree(taken, s);
    assert s + Underscores(0) == s;
    if s in taken {
      FirstFreeIs(taken - {s}, s + "_");
      forall k: nat ensures s + Underscores(k + 1) == (s + "_") + Underscores(k) {}
      assert r == (s + "_") + Underscores(|r| - |s| - 1);
      forall k | 0 < k < |r| - |s| ensures s + Underscores(k) in taken {
        assert (s + "_") + Underscores(k - 1) in taken - {s};
      }
    }
  }

  /** Only the names that occur as candidates matter. */
  lemma {:induction false} FirstFreeStep(taken: set<string>, s: string)
    requires s in taken
    ensures FirstFree(taken, s) == FirstFree(taken, s + "_")
  {
    var a, b := FirstFree(taken, s), FirstFree(taken, s + "_");
    FirstFreeIs(taken, s);
    FirstFreeIs(taken, s + "_");
    assert s + Underscores(0) == s;
    forall k: nat ensures s + Underscores(k + 1) == (s + "_") + Underscores(k) {}
    assert |a| > |s|;
    assert a == (s + "_") + Underscores(|a| - |s| - 1) && b == s + Underscores(|b| - |s|);
  }

  // ----- decimal numbers -----

  function Digits(n: nat): (r: string)
    ensures |r| > 0
    ensures forall i | 0 <= i < |r| :: IsDigit(r[i])
  {
    var d := ['0' + (n % 10) as char];
    if n < 10 then d else Digits(n / 10) + d
  }

  /** The text of a number, as `{number}` formats it. */
  function Decimal(n: int): (r: string)
    ensures |r| > 0
    ensures forall i | 0 <= i < |r| :: r[i] == '-' || IsDigit(r[i])
  {
    if n < 0 then "-" + Digits(-n) else Digits(n)
  }

  lemma {:induction false} DigitsInjective(m: nat, n: nat)
    requires Digits(m) == Digits(n)
    ensures m == n
  {
    var dm, dn := Digits(m), Digits(n);
    assert dm[|dm| - 1] == '0' + (m % 10) as char;
    assert dn[|dn| - 1] == '0' + (n % 10) as char;
    assert m % 10 == n % 10;
    if m >= 10 && n >= 10 {
      assert dm[..|dm| - 1] == Digits(m / 10);
      assert dn[..|dn| - 1] == Digits(n / 10);
      DigitsInjective(m / 10, n / 10);
    }
  }

  lemma DecimalInjective(m: int, n: int)
    requires Decimal(m) == Decimal(n)
    ensures m == n
  {
    assert m < 0 <==> Decimal(m)[0] == '-';
    assert n < 0 <==> Decimal(n)[0] == '-';
    if m < 0 {
      assert Decimal(m)[1..] == Digits(-m) && Decimal(n)[1..] == Digits(-n);
      DigitsInjective(-m, -n);
    } else {
      DigitsInjective(m, n);
    }
  }

  /** The number that decimal digits spell. */
  function Spelled(digits: string): int {
    if digits == "" then 0 else Spelled(digits[..|digits| - 1]) * 10 + (digits[|digits| - 1] as int - '0' as int)
  }

  /** Numbers are written in decimal, without a leading zero, and with a minus sign when they are negative. */
  lemma {:induction false} DigitsSpell(n: nat)
    ensures Spelled(Digits(n)) == n && (n > 0 ==> Digits(n)[0] != '0')
  {
    if n >= 10 { DigitsSpell(n / 10); }
  }

  lemma DecimalSpells(n: int)
    ensures n >= 0 ==> Spelled(Decimal(n)) == n
    ensures n < 0 ==> Decimal(n)[0] == '-' && Spelled(Decimal(n)[1..]) == -n
  {
    DigitsSpell(if n < 0 then -n else n);
    assert n < 0 ==> Decimal(n)[1..] == Digits(-n);
  }
}
