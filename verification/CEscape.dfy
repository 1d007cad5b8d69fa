/** Unescaping C-escaped bytes, against a grammar of maximal-munch escapes. */
module CEscape {
  import opened Text

  type Byte = b: int | 0 <= b < 256

  const BACKSLASH: Byte := '\\' as int
  const U32_MAX := 0xFFFF_FFFF

  datatype Error =
    | EndsWithBackslash
    | OctalOutOfRange(value: nat)
    | IncompleteHex
    | InvalidHex
    | HexOutOfRange(value: nat)
    | InvalidEscape

  datatype Result = Ok(bytes: seq<Byte>) | Err(error: Error)

  // ----- characters of an escape -----

  predicate IsOctal(b: Byte) { '0' as int <= b <= '7' as int }

  predicate IsHex(b: Byte) {
    || '0' as int <= b <= '9' as int
    || 'a' as int <= b <= 'f' as int
    || 'A' as int <= b <= 'F' as int
  }

  /** The value of a digit; other characters count nothing. */
  function Digit(b: Byte): (d: nat)
    ensures d < 16
    ensures IsOctal(b) ==> d == b - '0' as int < 8
  {
    if !IsHex(b) then 0
    else if b <= '9' as int then b - '0' as int
    else if b <= 'F' as int then b - 'A' as int + 10
    else b - 'a' as int + 10
  }

  /** What the one-letter escapes stand for. */
  function Simple(b: Byte): Option<Byte> {
    if b == 'a' as int then Some(0x07)
    else if b == 'b' as int then Some(0x08)
    else if b == 'f' as int then Some(0x0C)
    else if b == 'n' as int then Some(0x0A)
    else if b == 'r' as int then Some(0x0D)
    else if b == 't' as int then Some(0x09)
    else if b == 'v' as int then Some(0x0B)
    else if b == '\\' as int then Some(0x5C)
    else if b == '?' as int then Some(0x3F)
    else if b == '\'' as int then Some(0x27)
    else if b == '"' as int then Some(0x22)
    else None
  }

  /** The number written by some digits, without any bound. */
  function Number(base: nat, digits: seq<Byte>): nat {
    if digits == [] then 0
    else Number(base, digits[..|digits| - 1]) * base + Digit(digits[|digits| - 1])
  }

  // ----- the grammar -----

  datatype Item =
    | Plain(byte: Byte)
    | Letter(letter: Byte)
    | Octal(digits: seq<Byte>)
    | Hex(x: Byte, digits: seq<Byte>)
  {
    predicate WellFormed() {
      match this
      case Plain(b) => b != BACKSLASH
      case Letter(l) => Simple(l).Some?
      case Octal(ds) => 1 <= |ds| <= 3 && forall b | b in ds :: IsOctal(b)
      case Hex(x, ds) => (x == 'x' as int || x == 'X' as int) && |ds| >= 1 && forall b | b in ds :: IsHex(b)
    }

    function Value(): nat {
      match this
      case Plain(b) => b
      case Letter(l) => Simple(l).GetOr(0)
      case Octal(ds) => Number(8, ds)
      case Hex(_, ds) => Number(16, ds)
    }

    function Text(): seq<Byte> {
      match this
      case Plain(b) => [b]
      case Letter(l) => [BACKSLASH, l]
      case Octal(ds) => [BACKSLASH] + ds
      case Hex(x, ds) => [BACKSLASH, x] + ds
    }

    /** Whether an escape would also have swallowed `b`, had it come next. */
    predicate Swallows(b: Byte) {
      (Octal? && |digits| < 3 && IsOctal(b)) || (Hex? && IsHex(b))
    }
  }

  function Written(items: seq<Item>): seq<Byte> {
    if items == [] then [] else items[0].Text() + Written(items[1..])
  }

  /** Well-formed items with values in range, each escape as long as it can be. */
  predicate Grammatical(items: seq<Item>) {
    items == [] ||
    (&& items[0].WellFormed() && items[0].Value() < 256
     && (Written(items[1..]) != [] ==> !items[0].Swallows(Written(items[1..])[0]))
     && Grammatical(items[1..]))
  }

  function Values(items: seq<Item>): (r: seq<Byte>)
    requires Grammatical(items)
    ensures |r| == |items|
  {
    if items == [] then [] else [items[0].Value()] + Values(items[1..])
  }

  // ----- the parser -----

  /** How many of the first bytes are octal digits, but three at most. */
  function OctalLength(s: seq<Byte>, limit: nat): (n: nat)
    ensures n <= |s| && n <= limit
  {
    if limit == 0 || s == [] || !IsOctal(s[0]) then 0 else 1 + OctalLength(s[1..], limit - 1)
  }

  function HexLength(s: seq<Byte>): (n: nat)
    ensures n <= |s|
  {
    if s == [] || !IsHex(s[0]) then 0 else 1 + HexLength(s[1..])
  }

  lemma {:induction false} OctalLengthIs(s: seq<Byte>, limit: nat)
    ensures var n := OctalLength(s, limit);
            && (forall i | 0 <= i < n :: IsOctal(s[i]))
            && (n < limit && n < |s| ==> !IsOctal(s[n]))
  {
    if limit > 0 && s != [] && IsOctal(s[0]) { OctalLengthIs(s[1..], limit - 1); }
  }

  lemma {:induction false} HexLengthIs(s: seq<Byte>)
    ensures var n := HexLength(s);
            && (forall i | 0 <= i < n :: IsHex(s[i]))
            && (n < |s| ==> !IsHex(s[n]))
  {
    if s != [] && IsHex(s[0]) { HexLengthIs(s[1..]); }
  }

  datatype Step = Got(byte: Byte, taken: nat) | Bad(error: Error)

  /** An octal escape with `digits` and more behind its backslash. */
  function OctalStep(digits: seq<Byte>): (r: Step)
    requires digits != [] && IsOctal(digits[0])
    ensures r.Got? ==> 0 < r.taken <= 1 + |digits|
  {
    var n := OctalLength(digits, 3);
    var v := Number(8, digits[..n]);
    if v > 255 then Bad(OctalOutOfRange(v)) else Got(v, 1 + n)
  }

  /** A hexadecimal escape with `digits` and more behind its `x`. */
  function HexStep(digits: seq<Byte>): (r: Step)
    ensures r.Got? ==> 0 < r.taken <= 2 + |digits|
  {
    if digits == [] then Bad(IncompleteHex)
    else if !IsHex(digits[0]) then Bad(InvalidHex)
    else
      var n := HexLength(digits);
      var v := Number(16, digits[..n]);
      if v > 255 then Bad(HexOutOfRange(Saturated(v))) else Got(v, 2 + n)
  }

  function FirstStep(s: seq<Byte>): (r: Step)
    requires s != []
    ensures r.Got? ==> 0 < r.taken <= |s|
  {
    if s[0] != BACKSLASH then Got(s[0], 1)
    else if |s| == 1 then Bad(EndsWithBackslash)
    else if Simple(s[1]).Some? then Got(Simple(s[1]).value, 2)
    else if IsOctal(s[1]) then OctalStep(s[1..])
    else if s[1] == 'x' as int || s[1] == 'X' as int then HexStep(s[2..])
    else Bad(InvalidEscape)
  }

  function Prefixed(bytes: seq<Byte>, r: Result): Result {
    match r
    case Err(e) => Err(e)
    case Ok(more) => Ok(bytes + more)
  }

  function Decode(s: seq<Byte>): Result
    decreases |s|
  {
    if s == [] then Ok([])
    else
      match FirstStep(s)
      case Bad(e) => Err(e)
      case Got(b, n) => Prefixed([b], Decode(s[n..]))
  }

  function Saturated(v: nat): nat { if v > U32_MAX then U32_MAX else v }

  function SaturatingMul(a: nat, b: nat): nat { if a * b > U32_MAX then U32_MAX else a * b }

  function SaturatingAdd(a: nat, b: nat): nat { if a + b > U32_MAX then U32_MAX else a + b }

  method ReadOctal(src: seq<Byte>, start: nat) returns (octal: nat, p: nat)
    requires start < |src| && IsOctal(src[start])
    ensures p == start + OctalLength(src[start..], 3)
    ensures octal == Number(8, src[start..p]) <= 511
  {
    octal, p := 0, start;
    var k := 0;
    while k < 3 && p < |src| && IsOctal(src[p])
      invariant k <= 3 && p == start + k <= |src|
      invariant forall i | start <= i < p :: IsOctal(src[i])
      invariant octal == Number(8, src[start..p])
      invariant k == 0 ==> octal == 0
      invariant k == 1 ==> octal <= 7
      invariant k == 2 ==> octal <= 63
      invariant k == 3 ==> octal <= 511
    {
      NextDigit(8, src, start, p);
      octal := octal * 8 + (src[p] - '0' as int);
      p := p + 1;
      k := k + 1;
    }
    OctalLengthUnique(src[start..], 3, k);
  }

  method ReadHex(src: seq<Byte>, start: nat) returns (hex: nat, p: nat)
    requires start <= |src|
    ensures p == start + HexLength(src[start..])
    ensures hex == Saturated(Number(16, src[start..p]))
  {
    hex, p := 0, start;
    while p < |src| && IsHex(src[p])
      invariant start <= p <= |src|
      invariant forall i | start <= i < p :: IsHex(src[i])
      invariant hex == Saturated(Number(16, src[start..p]))
    {
      NextDigit(16, src, start, p);
      SaturatedStep(Number(16, src[start..p]), Digit(src[p]));
      hex := SaturatingAdd(SaturatingMul(hex, 16), Digit(src[p]));
      p := p + 1;
    }
    HexLengthUnique(src[start..], p - start);
  }

  lemma NextDigit(base: nat, src: seq<Byte>, start: nat, p: nat)
    requires start <= p < |src|
    ensures Number(base, src[start..p + 1]) == Number(base, src[start..p]) * base + Digit(src[p])
  {
    assert src[start..p + 1] == src[start..p] + [src[p]];
  }

  /** The 32-bit accumulator follows the true value until it stays at the top. */
  lemma SaturatedStep(v: nat, d: nat)
    ensures SaturatingAdd(SaturatingMul(Saturated(v), 16), d) == Saturated(v * 16 + d)
  {
  }

  /** It exceeds a byte exactly when the true value does, and is the true value when neither does. */
  lemma SaturationIsHarmless(digits: seq<Byte>)
    ensures var v := Number(16, digits);
            && (Saturated(v) > 255 <==> v > 255)
            && (v <= 255 ==> Saturated(v) == v)
  {
  }

  lemma {:induction false} OctalLengthUnique(s: seq<Byte>, limit: nat, n: nat)
    requires n <= |s| && n <= limit && (forall i | 0 <= i < n :: IsOctal(s[i]))
    requires n < limit && n < |s| ==> !IsOctal(s[n])
    ensures OctalLength(s, limit) == n
  {
    if n > 0 { OctalLengthUnique(s[1..], limit - 1, n - 1); }
  }

  lemma {:induction false} HexLengthUnique(s: seq<Byte>, n: nat)
    requires n <= |s| && (forall i | 0 <= i < n :: IsHex(s[i])) && (n < |s| ==> !IsHex(s[n]))
    ensures HexLength(s) == n
  {
    if n > 0 { HexLengthUnique(s[1..], n - 1); }
  }

  /** The byte that the text at `src[start]` stands for. */
  method ReadByte(src: seq<Byte>, start: nat) returns (r: Step)
    requires start < |src|
    ensures r == FirstStep(src[start..])
  {
    if src[start] != BACKSLASH { return Got(src[start], 1); }
    var len := |src|;
    var p := start + 1;
    if p == len { return Bad(EndsWithBackslash); }
    if Simple(src[p]).Some? { return Got(Simple(src[p]).value, 2); }
    if IsOctal(src[p]) {
      var octal, q := ReadOctal(src, p);
      assert src[start..][1..] == src[p..] && src[p..][..q - p] == src[p..q];
      if octal > 255 { return Bad(OctalOutOfRange(octal)); }
      return Got(octal, q - start);
    }
    if src[p] == 'x' as int || src[p] == 'X' as int {
      p := p + 1;
      if p == len { return Bad(IncompleteHex); }
      if !IsHex(src[p]) { return Bad(InvalidHex); }
      var hex, q := ReadHex(src, p);
      assert src[start..][2..] == src[p..] && src[p..][..q - p] == src[p..q];
      if hex > 255 { return Bad(HexOutOfRange(hex)); }
      return Got(hex, q - start);
    }
    r := Bad(InvalidEscape);
  }

  /** `dst` and what the rest of the text stands for make up the whole. */
  ghost predicate SoFar(src: seq<Byte>, p: nat, dst: seq<Byte>, whole: Result) {
    p <= |src| && Prefixed(dst, Decode(src[p..])) == whole
  }

  method Unescape(src: seq<Byte>) returns (r: Result)
    ensures r == Decode(src)
  {
    var dst: seq<Byte> := [];
    var p := 0;
    ghost var whole := Decode(src);
    DecodeStart(src);
    while p < |src|
      invariant p <= |src|
      invariant SoFar(src, p, dst, whole)
    {
      var step := ReadByte(src, p);
      DecodeStep(src, p, dst, whole);
      if step.Bad? { return Err(step.error); }
      dst := dst + [step.byte];
      p := p + step.taken;
    }
    DecodeEnd(src, p, dst, whole);
    r := Ok(dst);
  }

  lemma DecodeStart(src: seq<Byte>)
    ensures SoFar(src, 0, [], Decode(src))
  {
    assert src[0..] == src;
    var r := Decode(src);
    if r.Ok? { assert [] + r.bytes == r.bytes; }
  }

  lemma DecodeEnd(src: seq<Byte>, p: nat, dst: seq<Byte>, whole: Result)
    requires p == |src| && SoFar(src, p, dst, whole)
    ensures whole == Ok(dst)
  {
    assert src[p..] == [] && dst + [] == dst;
  }

  lemma DecodeStep(src: seq<Byte>, p: nat, dst: seq<Byte>, whole: Result)
    requires p < |src| && SoFar(src, p, dst, whole)
    ensures var s := FirstStep(src[p..]);
            if s.Bad? then whole == Err(s.error) else SoFar(src, p + s.taken, dst + [s.byte], whole)
  {
    var s := FirstStep(src[p..]);
    if s.Got? {
      DropDrop(src, p, s.taken);
      PrefixedTwice(dst, s.byte, Decode(src[p + s.taken..]));
    }
  }

  lemma PrefixedTwice(dst: seq<Byte>, b: Byte, r: Result)
    ensures Prefixed(dst, Prefixed([b], r)) == Prefixed(dst + [b], r)
  {
    if r.Ok? { ConcatIsAssociative(dst, [b], r.bytes); }
  }

  // ----- the parser accepts exactly the grammar -----

  /** The item a successful step has read. */
  function FirstItem(s: seq<Byte>): Item
    requires s != [] && FirstStep(s).Got?
  {
    if s[0] != BACKSLASH then Plain(s[0])
    else if Simple(s[1]).Some? then Letter(s[1])
    else if IsOctal(s[1]) then Octal(s[1..][..OctalLength(s[1..], 3)])
    else Hex(s[1], s[2..][..HexLength(s[2..])])
  }

  lemma FirstItemFits(s: seq<Byte>)
    requires s != [] && FirstStep(s).Got?
    ensures var item, n := FirstItem(s), FirstStep(s).taken;
            && item.WellFormed() && item.Value() == FirstStep(s).byte
            && s == item.Text() + s[n..]
            && (n < |s| ==> !item.Swallows(s[n]))
  {
    if s[0] != BACKSLASH {
    } else if Simple(s[1]).Some? {
      assert s[..2] == [s[0], s[1]];
    } else if IsOctal(s[1]) {
      OctalItemFitsStep(s);
    } else {
      HexItemFitsStep(s);
    }
  }

  lemma OctalItemFitsStep(s: seq<Byte>)
    requires |s| > 1 && s[0] == BACKSLASH && IsOctal(s[1]) && OctalStep(s[1..]).Got?
    ensures var n := OctalLength(s[1..], 3);
            var item := Octal(s[1..][..n]);
            && item.WellFormed() && OctalStep(s[1..]) == Got(item.Value(), 1 + n)
            && s == item.Text() + s[1 + n..]
            && (1 + n < |s| ==> !item.Swallows(s[1 + n]))
  {
    var digits := s[1..];
    OctalLengthIs(digits, 3);
    var n := OctalLength(digits, 3);
    assert s == [s[0]] + digits[..n] + digits[n..];
    assert digits[n..] == s[1 + n..];
  }

  lemma HexItemFitsStep(s: seq<Byte>)
    requires |s| > 1 && s[0] == BACKSLASH && (s[1] == 'x' as int || s[1] == 'X' as int) && HexStep(s[2..]).Got?
    ensures var n := HexLength(s[2..]);
            var item := Hex(s[1], s[2..][..n]);
            && item.WellFormed() && HexStep(s[2..]) == Got(item.Value(), 2 + n)
            && s == item.Text() + s[2 + n..]
            && (2 + n < |s| ==> !item.Swallows(s[2 + n]))
  {
    var digits := s[2..];
    HexLengthIs(digits);
    var n := HexLength(digits);
    assert s == [s[0], s[1]] + digits[..n] + digits[n..];
    assert digits[n..] == s[2 + n..];
  }

  lemma {:induction false} Accepted(s: seq<Byte>) returns (items: seq<Item>)
    requires Decode(s).Ok?
    ensures Grammatical(items) && Written(items) == s && Values(items) == Decode(s).bytes
    decreases |s|
  {
    if s == [] {
      items := [];
    } else {
      var n := FirstStep(s).taken;
      var rest := Accepted(s[n..]);
      FirstItemFits(s);
      items := [FirstItem(s)] + rest;
      assert items[1..] == rest;
    }
  }

  lemma ItemIsRead(item: Item, rest: seq<Byte>)
    requires item.WellFormed() && item.Value() < 256
    requires rest != [] ==> !item.Swallows(rest[0])
    ensures FirstStep(item.Text() + rest) == Got(item.Value(), |item.Text()|)
  {
    match item
    case Plain(_) =>
    case Letter(_) =>
    case Octal(ds) => OctalItemIsRead(ds, rest);
    case Hex(x, ds) => HexItemIsRead(x, ds, rest);
  }

  lemma OctalItemIsRead(ds: seq<Byte>, rest: seq<Byte>)
    requires Octal(ds).WellFormed() && Octal(ds).Value() < 256
    requires rest != [] ==> !Octal(ds).Swallows(rest[0])
    ensures FirstStep([BACKSLASH] + ds + rest) == Got(Octal(ds).Value(), 1 + |ds|)
  {
    OctalIsRead(ds, rest);
    EscapeHead([BACKSLASH], ds, rest);
  }

  lemma HexItemIsRead(x: Byte, ds: seq<Byte>, rest: seq<Byte>)
    requires Hex(x, ds).WellFormed() && Hex(x, ds).Value() < 256
    requires rest != [] ==> !Hex(x, ds).Swallows(rest[0])
    ensures FirstStep([BACKSLASH, x] + ds + rest) == Got(Hex(x, ds).Value(), 2 + |ds|)
  {
    HexIsRead(x, ds, rest);
    EscapeHead([BACKSLASH, x], ds, rest);
  }

  lemma EscapeHead(head: seq<Byte>, ds: seq<Byte>, rest: seq<Byte>)
    ensures (head + ds + rest)[|head|..] == ds + rest
    ensures ds != [] ==> (head + ds + rest)[|head|] == ds[0]
    ensures forall i | 0 <= i < |head| :: (head + ds + rest)[i] == head[i]
  {
  }

  lemma {:induction false} OctalRun(ds: seq<Byte>, rest: seq<Byte>, limit: nat)
    requires |ds| <= limit && forall b | b in ds :: IsOctal(b)
    requires |ds| < limit && rest != [] ==> !IsOctal(rest[0])
    ensures OctalLength(ds + rest, limit) == |ds|
  {
    if ds == [] {
      assert ds + rest == rest;
    } else {
      OctalRun(ds[1..], rest, limit - 1);
      assert (ds + rest)[1..] == ds[1..] + rest;
      assert ds[0] in ds;
    }
  }

  lemma {:induction false} HexRun(ds: seq<Byte>, rest: seq<Byte>)
    requires forall b | b in ds :: IsHex(b)
    requires rest != [] ==> !IsHex(rest[0])
    ensures HexLength(ds + rest) == |ds|
  {
    if ds == [] {
      assert ds + rest == rest;
    } else {
      HexRun(ds[1..], rest);
      assert (ds + rest)[1..] == ds[1..] + rest;
      assert ds[0] in ds;
    }
  }

  lemma OctalIsRead(ds: seq<Byte>, rest: seq<Byte>)
    requires Octal(ds).WellFormed() && Number(8, ds) < 256
    requires |ds| < 3 && rest != [] ==> !IsOctal(rest[0])
    ensures ds[0] in ds && OctalStep(ds + rest) == Got(Number(8, ds), 1 + |ds|)
  {
    OctalRun(ds, rest, 3);
    assert (ds + rest)[..|ds|] == ds;
  }

  lemma HexIsRead(x: Byte, ds: seq<Byte>, rest: seq<Byte>)
    requires Hex(x, ds).WellFormed() && Number(16, ds) < 256
    requires rest != [] ==> !IsHex(rest[0])
    ensures HexStep(ds + rest) == Got(Number(16, ds), 2 + |ds|)
  {
    HexRun(ds, rest);
    assert (ds + rest)[..|ds|] == ds;
    assert ds[0] in ds;
  }

  lemma {:induction false} GrammaticalDecodes(items: seq<Item>)
    requires Grammatical(items)
    ensures Decode(Written(items)) == Ok(Values(items))
  {
    if items != [] {
      var rest := Written(items[1..]);
      GrammaticalDecodes(items[1..]);
      ItemIsRead(items[0], rest);
      assert Written(items)[|items[0].Text()|..] == rest;
    }
  }

  ghost predicate Spells(items: seq<Item>, s: seq<Byte>, bytes: seq<Byte>) {
    Grammatical(items) && Written(items) == s && Values(items) == bytes
  }

  /** A string unescapes to some bytes if and only if the grammar spells them with it. */
  lemma DecodesExactlyTheGrammar(s: seq<Byte>, bytes: seq<Byte>)
    ensures Decode(s) == Ok(bytes) <==> exists items :: Spells(items, s, bytes)
  {
    if Decode(s) == Ok(bytes) {
      var items := Accepted(s);
      assert Spells(items, s, bytes);
    }
    forall items | Spells(items, s, bytes) ensures Decode(s) == Ok(bytes) {
      GrammaticalDecodes(items);
    }
  }

  // ----- round trips -----

  /** An item that says where it ends by itself. */
  predicate Fixed(item: Item) {
    item.WellFormed() && !item.Hex? && (item.Octal? ==> |item.digits| == 3)
  }

  lemma {:induction false} FixedDecode(items: seq<Item>, bytes: seq<Byte>)
    requires |items| == |bytes|
    requires forall i | 0 <= i < |items| :: Fixed(items[i]) && items[i].Value() == bytes[i]
    ensures Grammatical(items) && Values(items) == bytes
    ensures Decode(Written(items)) == Ok(bytes)
  {
    if items != [] {
      FixedDecode(items[1..], bytes[1..]);
      assert bytes == [bytes[0]] + bytes[1..];
    }
    GrammaticalDecodes(items);
  }

  function OctalItem(b: Byte): Item {
    Octal([b / 64 + '0' as int, b / 8 % 8 + '0' as int, b % 8 + '0' as int])
  }

  lemma OctalItemFits(b: Byte)
    ensures Fixed(OctalItem(b)) && OctalItem(b).Value() == b
  {
    var x, y, z := b / 64, b / 8 % 8, b % 8;
    assert b == x * 64 + y * 8 + z;
    ThreeDigits(x + '0' as int, y + '0' as int, z + '0' as int);
  }

  lemma ThreeDigits(x: Byte, y: Byte, z: Byte)
    requires IsOctal(x) && IsOctal(y) && IsOctal(z)
    ensures Octal([x, y, z]).WellFormed()
    ensures Number(8, [x, y, z]) == Digit(x) * 64 + Digit(y) * 8 + Digit(z)
  {
    assert [x, y, z][..2] == [x, y] && [x, y][..1] == [x] && [x][..0] == [];
    assert Number(8, [x]) == Digit(x);
    assert Number(8, [x, y]) == Digit(x) * 8 + Digit(y);
  }

  /** Every byte as a backslash and three octal digits. */
  function InOctal(bytes: seq<Byte>): seq<Item> {
    seq(|bytes|, i requires 0 <= i < |bytes| => OctalItem(bytes[i]))
  }

  /** The escapes of a `default_value`: letters for some, printable ASCII as it is, octal for the rest. */
  function Conventional(b: Byte): Item {
    if b == 0x0A then Letter('n' as int)
    else if b == 0x0D then Letter('r' as int)
    else if b == 0x09 then Letter('t' as int)
    else if b == 0x22 || b == 0x27 || b == 0x5C then Letter(b)
    else if 0x20 <= b < 0x7F then Plain(b)
    else OctalItem(b)
  }

  function InConvention(bytes: seq<Byte>): seq<Item> {
    seq(|bytes|, i requires 0 <= i < |bytes| => Conventional(bytes[i]))
  }

  lemma OctalFits(bytes: seq<Byte>)
    ensures forall i | 0 <= i < |bytes| :: Fixed(InOctal(bytes)[i]) && InOctal(bytes)[i].Value() == bytes[i]
  {
    forall i | 0 <= i < |bytes| ensures Fixed(InOctal(bytes)[i]) && InOctal(bytes)[i].Value() == bytes[i] {
      OctalItemFits(bytes[i]);
    }
  }

  lemma ConventionalFits(b: Byte)
    ensures Fixed(Conventional(b)) && Conventional(b).Value() == b
  {
    OctalItemFits(b);
  }

  lemma ConventionFits(bytes: seq<Byte>)
    ensures forall i | 0 <= i < |bytes| :: Fixed(InConvention(bytes)[i]) && InConvention(bytes)[i].Value() == bytes[i]
  {
    forall i | 0 <= i < |bytes|
      ensures Fixed(InConvention(bytes)[i]) && InConvention(bytes)[i].Value() == bytes[i]
    {
      ConventionalFits(bytes[i]);
    }
  }

  /** Unescaping undoes both ways of escaping, for every byte string. */
  lemma RoundTrips(bytes: seq<Byte>)
    ensures Decode(Written(InOctal(bytes))) == Ok(bytes)
    ensures Decode(Written(InConvention(bytes))) == Ok(bytes)
  {
    OctalFits(bytes);
    FixedDecode(InOctal(bytes), bytes);
    ConventionFits(bytes);
    FixedDecode(InConvention(bytes), bytes);
  }

  // ----- hexadecimal escapes, letters and errors -----

  /** A hexadecimal digit, written in upper or in lower case. */
  function HexChar(d: nat, upper: bool): Byte
    requires d < 16
  {
    if d < 10 then '0' as int + d else (if upper then 'A' as int else 'a' as int) + d - 10
  }

  /** `\x` and the two digits of a byte. */
  function HexItem(b: Byte, upper1: bool, upper2: bool): Item {
    Hex('x' as int, [HexChar(b / 16, upper1), HexChar(b % 16, upper2)])
  }

  lemma HexCharIs(d: nat, upper: bool)
    requires d < 16
    ensures IsHex(HexChar(d, upper)) && Digit(HexChar(d, upper)) == d
  {
  }

  lemma HexItemFits(b: Byte, upper1: bool, upper2: bool)
    ensures HexItem(b, upper1, upper2).WellFormed() && HexItem(b, upper1, upper2).Value() == b
  {
    var x, y := HexChar(b / 16, upper1), HexChar(b % 16, upper2);
    HexCharIs(b / 16, upper1);
    HexCharIs(b % 16, upper2);
    assert [x, y][..1] == [x] && [x][..0] == [];
    assert Number(16, [x]) == b / 16;
  }

  /** Each byte with the letter cases of its two digits. */
  function InHex(bytes: seq<Byte>, cases: seq<(bool, bool)>): seq<Item>
    requires |cases| == |bytes|
  {
    if bytes == [] then []
    else [HexItem(bytes[0], cases[0].0, cases[0].1)] + InHex(bytes[1..], cases[1..])
  }

  /** Unescaping undoes hexadecimal escaping, whatever the case of each digit. */
  lemma {:induction false} HexRoundTrips(bytes: seq<Byte>, cases: seq<(bool, bool)>)
    requires |cases| == |bytes|
    ensures Grammatical(InHex(bytes, cases)) && Values(InHex(bytes, cases)) == bytes
    ensures Decode(Written(InHex(bytes, cases))) == Ok(bytes)
  {
    var items := InHex(bytes, cases);
    if bytes != [] {
      HexRoundTrips(bytes[1..], cases[1..]);
      HexItemFits(bytes[0], cases[0].0, cases[0].1);
      var rest := InHex(bytes[1..], cases[1..]);
      assert items[1..] == rest;
      assert Written(rest) != [] ==> Written(rest)[0] == BACKSLASH;
      assert bytes == [bytes[0]] + bytes[1..];
    }
    GrammaticalDecodes(items);
  }

  /** The escapes of one letter, and what they stand for. */
  const LETTERS: map<char, Byte> :=
    map['a' := 7, 'b' := 8, 't' := 9, 'n' := 10, 'v' := 11, 'f' := 12, 'r' := 13,
        '"' := 34, '\'' := 39, '?' := 63, '\\' := 92]

  lemma LetterEscape(c: char, rest: seq<Byte>)
    requires c in LETTERS
    ensures Decode([BACKSLASH, c as int] + rest) == Prefixed([LETTERS[c]], Decode(rest))
  {
    assert ([BACKSLASH, c as int] + rest)[2..] == rest;
  }

  /** Which escapes are rejected, and how. */
  lemma Rejected(l: Byte, rest: seq<Byte>)
    ensures Decode([BACKSLASH]) == Err(EndsWithBackslash)
    ensures l as char !in LETTERS && !('0' <= l as char <= '7') && l != 'x' as int && l != 'X' as int ==>
              Decode([BACKSLASH, l] + rest) == Err(InvalidEscape)
    ensures l == 'x' as int || l == 'X' as int ==>
              && Decode([BACKSLASH, l]) == Err(IncompleteHex)
              && (rest != [] && !IsHex(rest[0]) ==> Decode([BACKSLASH, l] + rest) == Err(InvalidHex))
  {
    assert [BACKSLASH, l][2..] == [] && ([BACKSLASH, l] + rest)[2..] == rest;
  }

  /** An octal escape of more than a byte is out of range. */
  lemma OctalOverflow(x: Byte, y: Byte, z: Byte, rest: seq<Byte>)
    requires '4' as int <= x <= '7' as int && IsOctal(y) && IsOctal(z)
    ensures Decode([BACKSLASH, x, y, z] + rest) ==
            Err(OctalOutOfRange((x - '0' as int) * 64 + (y - '0' as int) * 8 + (z - '0' as int)))
  {
    ThreeDigits(x, y, z);
    OctalRun([x, y, z], rest, 3);
    assert ([BACKSLASH, x, y, z] + rest)[1..] == [x, y, z] + rest;
    assert ([x, y, z] + rest)[..3] == [x, y, z];
  }

  /** So is a run of hexadecimal digits of more than a byte; the value reported stays within 32 bits. */
  lemma HexOverflow(digits: seq<Byte>, rest: seq<Byte>)
    requires digits != [] && (forall b | b in digits :: IsHex(b)) && Number(16, digits) > 255
    requires rest != [] ==> !IsHex(rest[0])
    ensures Decode([BACKSLASH, 'x' as int] + digits + rest) ==
            Err(HexOutOfRange(if Number(16, digits) > 0xFFFF_FFFF then 0xFFFF_FFFF else Number(16, digits)))
  {
    EscapeHead([BACKSLASH, 'x' as int], digits, rest);
    TooMuchHex(digits, rest);
    HexFails([BACKSLASH, 'x' as int] + digits + rest);
  }

  lemma HexFails(s: seq<Byte>)
    requires |s| > 1 && s[0] == BACKSLASH && s[1] == 'x' as int && HexStep(s[2..]).Bad?
    ensures Decode(s) == Err(HexStep(s[2..]).error)
  {
  }

  lemma TooMuchHex(digits: seq<Byte>, rest: seq<Byte>)
    requires digits != [] && (forall b | b in digits :: IsHex(b)) && Number(16, digits) > 255
    requires rest != [] ==> !IsHex(rest[0])
    ensures HexStep(digits + rest) == Bad(HexOutOfRange(Saturated(Number(16, digits))))
  {
    HexRun(digits, rest);
    assert (digits + rest)[..|digits|] == digits && digits[0] in digits;
  }
}
