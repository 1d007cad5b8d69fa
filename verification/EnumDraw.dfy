/** The 32-bit draw of the generated `Arbitrary` impl: scaling a random word to a variant. */
module EnumDraw {
  import opened Text
  import opened Descriptors
  import opened EnumValues

  /** How many different words a draw has. */
  const WORDS := 0x1_0000_0000

  const U64_MAX := 0xFFFF_FFFF_FFFF_FFFF

  predicate IsWord(d: int) { 0 <= d < WORDS }

  predicate IsI32(n: int) { -0x8000_0000 <= n < 0x8000_0000 }

  /** `(u64::from(draw) * len as u64) >> 32`. */
  function Index(draw: int, len: nat): (i: nat)
    requires IsWord(draw)
  {
    draw * len / WORDS
  }

  /** The least draw that lands at `k` or behind it. */
  function Start(k: nat, len: nat): nat
    requires len > 0
  {
    (k * WORDS + len - 1) / len
  }

  /** `q = (a + n - 1) / n` is the least number whose product with `n` reaches `a`. */
  lemma CeilingIsLeast(a: nat, n: nat, d: int)
    requires n > 0
    ensures (a + n - 1) / n <= d <==> a <= d * n
  {
    var q := (a + n - 1) / n;
    assert q * n <= a + n - 1 < q * n + n by { DivisionBounds(a + n - 1, n); }
    if q <= d {
      MulMonotone(q, d, n);
    } else {
      MulMonotone(d + 1, q, n);
      assert (d + 1) * n == d * n + n;
    }
  }

  lemma DivisionBounds(a: nat, n: nat)
    requires n > 0
    ensures (a / n) * n <= a < (a / n) * n + n
  {
    assert a == n * (a / n) + a % n;
    assert n * (a / n) == (a / n) * n;
  }

  lemma MulMonotone(x: int, y: int, n: nat)
    requires x <= y
    ensures x * n <= y * n
  {
    assert y * n == x * n + (y - x) * n;
  }

  /** The draws of a variant are those from its start up to the start of the next one. */
  lemma IndexByStarts(draw: int, len: nat, k: nat)
    requires IsWord(draw) && len > 0
    ensures Index(draw, len) == k <==> Start(k, len) <= draw < Start(k + 1, len)
  {
    var p := draw * len;
    CeilingIsLeast(k * WORDS, len, draw);
    CeilingIsLeast((k + 1) * WORDS, len, draw);
    assert p / WORDS == k <==> k * WORDS <= p < (k + 1) * WORDS;
  }

  lemma StartsSpread(k: nat, len: nat)
    requires 0 < len
    ensures WORDS / len <= Start(k + 1, len) - Start(k, len) <= WORDS / len + 1
    ensures Start(0, len) == 0
    ensures Start(len, len) == WORDS
  {
    var a, b := Start(k, len), Start(k + 1, len);
    var s := k * WORDS;
    assert (k + 1) * WORDS == s + WORDS;
    DivisionBounds(s + len - 1, len);
    DivisionBounds(s + WORDS + len - 1, len);
    DivisionBounds(WORDS, len);
    var q := WORDS / len;
    assert (b - a) * len == b * len - a * len;
    assert (q - 1) * len == q * len - len;
    assert (q + 2) * len == q * len + 2 * len;
    if b - a < q { MulMonotone(b - a, q - 1, len); }
    if b - a > q + 1 { MulMonotone(q + 2, b - a, len); }
    CeilingIsLeast(0, len, 0);
    CeilingIsLeast(len * WORDS, len, WORDS);
    CeilingIsLeast(len * WORDS, len, WORDS - 1);
    assert (WORDS - 1) * len == WORDS * len - len;
  }

  lemma {:induction false} StartsGrow(i: nat, j: nat, len: nat)
    requires 0 < len && i <= j
    ensures Start(i, len) <= Start(j, len)
    decreases j - i
  {
    if i < j {
      StartsSpread(i, len);
      StartsGrow(i + 1, j, len);
    }
  }

  /** The draws that choose a variant. */
  function Draws(k: nat, len: nat): (r: set<int>)
    ensures forall d :: d in r <==> IsWord(d) && Index(d, len) == k
  {
    set d: int | 0 <= d < WORDS && Index(d, len) == k
  }

  lemma {:induction false} RangeSize(s: set<int>, lo: int, hi: int)
    requires lo <= hi && forall d :: d in s <==> lo <= d < hi
    ensures |s| == hi - lo
    decreases hi - lo
  {
    if lo < hi {
      RangeSize(s - {hi - 1}, lo, hi - 1);
    } else {
      assert forall d :: d !in s;
    }
  }

  /**
   * Scaling neither leaves `u64` nor the values, reaches every variant, and prefers none:
   * any two are hit by the same number of draws, up to one.
   */
  lemma DrawIsFair(len: nat)
    requires 0 < len <= WORDS
    ensures forall d | IsWord(d) :: d * len <= U64_MAX && Index(d, len) < len
    ensures forall k | 0 <= k < len :: Draws(k, len) != {}
    ensures forall j, k | 0 <= j < len && 0 <= k < len :: |Draws(j, len)| <= |Draws(k, len)| + 1
  {
    forall d | IsWord(d) ensures d * len <= U64_MAX && Index(d, len) < len {
      InRange(d, len);
    }
    forall k | 0 <= k < len
      ensures Draws(k, len) != {} && WORDS / len <= |Draws(k, len)| <= WORDS / len + 1
    {
      DrawCount(k, len);
    }
  }

  lemma InRange(d: int, len: nat)
    requires IsWord(d) && 0 < len <= WORDS
    ensures d * len <= U64_MAX && Index(d, len) < len
  {
    MulMonotone(d, WORDS - 1, len);
    assert (WORDS - 1) * len == WORDS * len - len;
    assert d * len < len * WORDS;
  }

  lemma DrawCount(k: nat, len: nat)
    requires 0 < len <= WORDS && k < len
    ensures |Draws(k, len)| == Start(k + 1, len) - Start(k, len)
    ensures WORDS / len <= |Draws(k, len)| <= WORDS / len + 1
    ensures Draws(k, len) != {}
  {
    StartsSpread(k, len);
    StartsGrow(k + 1, len, len);
    forall d ensures d in Draws(k, len) <==> Start(k, len) <= d < Start(k + 1, len) {
      if IsWord(d) { IndexByStarts(d, len, k); }
    }
    RangeSize(Draws(k, len), Start(k, len), Start(k + 1, len));
    DivisionBounds(WORDS, len);
  }

  /** What the generated impl builds from a word of fuzz input. */
  method Arbitrary<V>(values: seq<V>, draw: int) returns (v: V)
    requires IsWord(draw) && 0 < |values| <= WORDS
    ensures draw * |values| <= U64_MAX
    ensures Index(draw, |values|) < |values| && v == values[Index(draw, |values|)]
  {
    var len := |values|;
    InRange(draw, len);
    var product := draw * len;
    var index := product / WORDS;
    v := values[index];
  }

  // ----- an enum never has more variants than there are words -----

  lemma {:induction false} BoundedSet(s: set<int>, lo: int, hi: int)
    requires lo <= hi && forall d | d in s :: lo <= d < hi
    ensures |s| <= hi - lo
    decreases hi - lo
  {
    if lo < hi {
      BoundedSet(s - {hi - 1}, lo, hi - 1);
      assert s <= (s - {hi - 1}) + {hi - 1};
    } else {
      assert forall d :: d !in s;
    }
  }

  /** For every enum with a value, the requirements of the draw hold of its variants. */
  lemma VariantsFitDraw(values: seq<EnumValue>)
    requires values != [] && forall i | 0 <= i < |values| :: IsI32(values[i].number)
    ensures 0 < |Variants(values, |values|)| <= WORDS
  {
    var vs := Variants(values, |values|);
    var numbers := Numbers(vs);
    VariantsCoverNumbers(values, |values|);
    VariantListed(values, |values|, 0);
    forall x | x in ToSet(numbers) ensures IsI32(x) {
      assert values[FirstWith(values, x)].number == x;
    }
    BoundedSet(ToSet(numbers), -0x8000_0000, 0x8000_0000);
    DistinctByCount(numbers);
  }

  /** Greater words give the same variant or a later one; the least gives the first, the greatest the last. */
  lemma DrawsInOrder(a: int, b: int, len: nat)
    requires IsWord(a) && IsWord(b) && a <= b && 0 < len <= WORDS
    ensures Index(a, len) <= Index(b, len) < len
    ensures Index(0, len) == 0 && Index(WORDS - 1, len) == len - 1
  {
    MulMonotone(a, b, len);
    MulMonotone(b, WORDS - 1, len);
    DivisionBounds(a * len, WORDS);
    DivisionBounds(b * len, WORDS);
    DivisionBounds((WORDS - 1) * len, WORDS);
    assert (WORDS - 1) * len == len * WORDS - len;
  }
}
