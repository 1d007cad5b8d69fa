/** Idiomatic CamelCase aliases of enum values: for every value of an enum, or for none. */
module EnumAliases {
  import opened Text
  import opened Idents
  import opened Descriptors
  import opened EnumValues

  // ----- the two converters -----

  /** A lower-to-upper step, or the last capital of an acronym, starts a word. */
  predicate CaseBoundary(s: string, i: nat)
    requires 0 < i < |s|
  {
    IsUpper(s[i]) &&
    (IsLower(s[i - 1]) || (IsUpper(s[i - 1]) && i + 1 < |s| && IsLower(s[i + 1])))
  }

  function CamelFrom(s: string, i: nat, startOfWord: bool): string
    requires i <= |s|
    decreases |s| - i
  {
    if i == |s| then ""
    else if s[i] == '_' then CamelFrom(s, i + 1, true)
    else
      var start := startOfWord || (i > 0 && CaseBoundary(s, i));
      [if start then ToUpper(s[i]) else ToLower(s[i])] + CamelFrom(s, i + 1, false)
  }

  function Camel(s: string): string { CamelFrom(s, 0, true) }

  method ToUpperCamelCase(s: string) returns (out: string)
    ensures out == Camel(s)
  {
    out := "";
    var startOfWord := true;
    for i := 0 to |s|
      invariant out + CamelFrom(s, i, startOfWord) == Camel(s)
    {
      CamelStep(s, i, startOfWord, out);
      if s[i] == '_' {
        startOfWord := true;
        continue;
      }
      if !startOfWord && i > 0 {
        var prev := s[i - 1];
        var lowerToUpper := IsLower(prev) && IsUpper(s[i]);
        var acronymEnd := IsUpper(prev) && IsUpper(s[i]) && i + 1 < |s| && IsLower(s[i + 1]);
        if lowerToUpper || acronymEnd { startOfWord := true; }
      }
      if startOfWord {
        out := out + [ToUpper(s[i])];
        startOfWord := false;
      } else {
        out := out + [ToLower(s[i])];
      }
    }
  }

  lemma CamelStep(s: string, i: nat, startOfWord: bool, out: string)
    requires i < |s|
    ensures
      var start := startOfWord || (i > 0 && CaseBoundary(s, i));
      out + CamelFrom(s, i, startOfWord) ==
      if s[i] == '_' then out + CamelFrom(s, i + 1, true)
      else (out + [if start then ToUpper(s[i]) else ToLower(s[i])]) + CamelFrom(s, i + 1, false)
  {
  }

  predicate ShoutyBoundary(s: string, i: nat)
    requires i < |s|
  {
    i > 0 && (CaseBoundary(s, i) || (IsUpper(s[i]) && IsDigit(s[i - 1])))
  }

  function ShoutyFrom(s: string, i: nat): string
    requires i <= |s|
    decreases |s| - i
  {
    if i == |s| then ""
    else (if ShoutyBoundary(s, i) then "_" else "") + [ToUpper(s[i])] + ShoutyFrom(s, i + 1)
  }

  function Shouty(s: string): string { ShoutyFrom(s, 0) }

  method ToShoutySnakeCase(s: string) returns (out: string)
    ensures out == Shouty(s)
  {
    out := "";
    for i := 0 to |s|
      invariant out + ShoutyFrom(s, i) == Shouty(s)
    {
      ShoutyStep(s, i, out);
      if s[i] == '_' {
        out := out + "_";
        continue;
      }
      if i > 0 && IsUpper(s[i]) && s[i - 1] != '_' {
        var prev := s[i - 1];
        var prevStartsWord := IsLower(prev) || IsDigit(prev);
        var acronymBoundary := IsUpper(prev) && i + 1 < |s| && IsLower(s[i + 1]);
        if prevStartsWord || acronymBoundary { out := out + "_"; }
      }
      out := out + [ToUpper(s[i])];
    }
  }

  lemma ShoutyStep(s: string, i: nat, out: string)
    requires i < |s|
    ensures var u := [ToUpper(s[i])];
            out + ShoutyFrom(s, i) ==
            (if ShoutyBoundary(s, i) then out + "_" + u else out + u) + ShoutyFrom(s, i + 1)
  {
  }

  predicate IsValid(ident: string) { ident != "" && !IsDigit(ident[0]) }

  /** A conversion is an identifier unless only underscores, or a digit, come first. */
  lemma {:induction false} CamelIsValid(s: string, i: nat)
    requires i <= |s|
    ensures var k := i + RunLength(s[i..], '_');
            IsValid(CamelFrom(s, i, true)) <==> k < |s| && !IsDigit(s[k])
    decreases |s| - i
  {
    if i < |s| && s[i] == '_' {
      CamelIsValid(s, i + 1);
      assert s[i..][1..] == s[i + 1..];
    }
  }

  // ----- the aliases of one enum -----

  /** The enum-name prefix, and whether it is taken off. */
  datatype Prefix = Prefix(text: string, strip: bool)

  function StrippedName(prefix: Prefix, name: string): string {
    if prefix.strip && prefix.text <= name then name[|prefix.text|..] else name
  }

  /** Taken off only if every value has it and stays an identifier without it. */
  predicate Strips(text: string, records: seq<Record>) {
    forall i | 0 <= i < |records| ::
      text <= records[i].name && IsValid(Camel(records[i].name[|text|..]))
  }

  function PrefixOf(enumName: string, records: seq<Record>): Prefix {
    var text := Shouty(enumName) + "_";
    Prefix(text, Strips(text, records))
  }

  function Candidate(prefix: Prefix, name: string): string { Camel(StrippedName(prefix, name)) }

  /** The identifier a value's alias would have. */
  function AliasIdent(prefix: Prefix, name: string): string { FieldIdent(Candidate(prefix, name)) }

  /** The value whose own item has the identifier. */
  function OwnerOf(records: seq<Record>, n: nat, ident: string): Option<string>
    requires n <= |records|
  {
    if n == 0 then None
    else if records[n - 1].own == ident then Some(records[n - 1].name)
    else OwnerOf(records, n - 1, ident)
  }

  predicate Claims(prefix: Prefix, r: Record, ident: string) {
    IsValid(Candidate(prefix, r.name)) && AliasIdent(prefix, r.name) == ident
  }

  function OwnerSet(records: seq<Record>, ident: string): set<string> {
    match OwnerOf(records, |records|, ident)
    case Some(name) => {name}
    case None => {}
  }

  /** The values among the first `n` that want `ident`, and then also the value that has it. */
  function Claimants(prefix: Prefix, records: seq<Record>, n: nat, ident: string): set<string>
    requires n <= |records|
  {
    if n == 0 then {}
    else
      var before := Claimants(prefix, records, n - 1, ident);
      if Claims(prefix, records[n - 1], ident) then before + OwnerSet(records, ident) + {records[n - 1].name}
      else before
  }

  function Invalid(prefix: Prefix, records: seq<Record>, n: nat): set<string>
    requires n <= |records|
  {
    set i | 0 <= i < n && !IsValid(Candidate(prefix, records[i].name)) :: records[i].name
  }

  function Owns(records: seq<Record>): set<string> {
    set i | 0 <= i < |records| :: records[i].own
  }

  /** An alias constant, in the enum's `impl`. */
  datatype Const = Const(ident: string, target: string, deprecated: bool)

  /** One constant for each value whose alias is not an existing identifier. */
  function Emitted(prefix: Prefix, records: seq<Record>, deprecated: set<string>, n: nat): seq<Const>
    requires n <= |records|
  {
    if n == 0 then []
    else
      var before, r := Emitted(prefix, records, deprecated, n - 1), records[n - 1];
      var ident := AliasIdent(prefix, r.name);
      if ident in Owns(records) then before else before + [Const(ident, r.target, r.own in deprecated)]
  }

  function Get(buckets: map<string, set<string>>, ident: string): set<string> {
    if ident in buckets then buckets[ident] else {}
  }

  method Owners(records: seq<Record>) returns (owner: map<string, string>)
    ensures forall s :: (if s in owner then Some(owner[s]) else None) == OwnerOf(records, |records|, s)
  {
    owner := map[];
    for i := 0 to |records|
      invariant forall s :: (if s in owner then Some(owner[s]) else None) == OwnerOf(records, i, s)
    {
      owner := owner[records[i].own := records[i].name];
    }
  }

  method DecideStrip(text: string, records: seq<Record>) returns (strip: bool)
    ensures strip == Strips(text, records)
  {
    for i := 0 to |records|
      invariant forall k | 0 <= k < i :: text <= records[k].name && IsValid(Camel(records[k].name[|text|..]))
    {
      if !(text <= records[i].name) { return false; }
      var base := ToUpperCamelCase(records[i].name[|text|..]);
      if !IsValid(base) { return false; }
    }
    strip := true;
  }

  method FillBuckets(prefix: Prefix, records: seq<Record>)
    returns (buckets: map<string, set<string>>, invalid: set<string>)
    ensures forall s :: Get(buckets, s) == Claimants(prefix, records, |records|, s)
    ensures invalid == Invalid(prefix, records, |records|)
  {
    buckets, invalid := map[], {};
    var owner := Owners(records);
    for i := 0 to |records|
      invariant forall s :: Get(buckets, s) == Claimants(prefix, records, i, s)
      invariant invalid == Invalid(prefix, records, i)
    {
      var name := records[i].name;
      var candidate := ToUpperCamelCase(StrippedName(prefix, name));
      InvalidStep(prefix, records, i);
      if !IsValid(candidate) {
        invalid := invalid + {name};
        continue;
      }
      var escaped := FieldIdent(candidate);
      assert OwnerOf(records, |records|, escaped) == if escaped in owner then Some(owner[escaped]) else None;
      var bucket := Get(buckets, escaped);
      if escaped in owner { bucket := bucket + {owner[escaped]}; }
      buckets := buckets[escaped := bucket + {name}];
    }
  }

  lemma InvalidStep(prefix: Prefix, records: seq<Record>, i: nat)
    requires i < |records|
    ensures Invalid(prefix, records, i + 1) ==
            Invalid(prefix, records, i) + if IsValid(Candidate(prefix, records[i].name)) then {} else {records[i].name}
  {
  }

  method EmitConsts(prefix: Prefix, records: seq<Record>, deprecated: set<string>) returns (consts: seq<Const>)
    ensures consts == Emitted(prefix, records, deprecated, |records|)
  {
    consts := [];
    var existing := Owns(records);
    for i := 0 to |records|
      invariant consts == Emitted(prefix, records, deprecated, i)
    {
      var camel := ToUpperCamelCase(StrippedName(prefix, records[i].name));
      var ident := FieldIdent(camel);
      if ident !in existing {
        consts := consts + [Const(ident, records[i].target, records[i].own in deprecated)];
      }
    }
  }

  /** The constants to emit; or the clashes and the values without an identifier, and no constants. */
  method IdiomaticAliases(enumName: string, records: seq<Record>, deprecated: set<string>)
    returns (consts: seq<Const>, conflicts: map<string, set<string>>, invalid: set<string>)
    ensures var prefix := PrefixOf(enumName, records);
            && (forall s :: s in conflicts <==> |Claimants(prefix, records, |records|, s)| > 1)
            && (forall s | s in conflicts :: conflicts[s] == Claimants(prefix, records, |records|, s))
            && invalid == Invalid(prefix, records, |records|)
            && consts == if conflicts == map[] && invalid == {} then Emitted(prefix, records, deprecated, |records|)
                         else []
  {
    var text := ToShoutySnakeCase(enumName);
    text := text + "_";
    var strip := DecideStrip(text, records);
    var prefix := Prefix(text, strip);
    var buckets: map<string, set<string>>;
    buckets, invalid := FillBuckets(prefix, records);
    conflicts := map s | s in buckets && |buckets[s]| > 1 :: buckets[s];
    forall s
      ensures s in conflicts <==> |Claimants(prefix, records, |records|, s)| > 1
    {
      assert Get(buckets, s) == Claimants(prefix, records, |records|, s);
    }
    consts := [];
    if conflicts == map[] && invalid == {} { consts := EmitConsts(prefix, records, deprecated); }
  }

  // ----- all or nothing -----

  /** Each record carries the identifier of its value's own item; the values' names differ. */
  ghost predicate WellFormed(records: seq<Record>) {
    && (forall i | 0 <= i < |records| :: records[i].own == FieldIdent(records[i].name))
    && (forall i, j | 0 <= i < j < |records| :: records[i].name != records[j].name)
  }

  ghost predicate NamesDiffer(values: seq<EnumValue>) {
    forall i, j | 0 <= i < j < |values| :: values[i].name != values[j].name
  }

  /** All that is asked of an enum is that its values have different names. */
  lemma RecordsWellFormed(values: seq<EnumValue>)
    ensures WellFormed(Records(values, |values|)) <==> NamesDiffer(values)
  {
    var records := Records(values, |values|);
    assert forall i | 0 <= i < |values| :: records[i] == RecordOf(values, i);
    if WellFormed(records) {
      forall i, j | 0 <= i < j < |values| ensures values[i].name != values[j].name {
        assert records[i].name == values[i].name && records[j].name == values[j].name;
      }
    }
  }

  ghost predicate IdentsDiffer(values: seq<EnumValue>) {
    forall i, j | 0 <= i < j < |values| :: IdentOf(values, i) != IdentOf(values, j)
  }

  /** Value `j` is spelled as the escape of value `i`, a keyword: `self` and `self_`. */
  predicate Shadows(values: seq<EnumValue>, i: nat, j: nat)
    requires i < |values| && j < |values|
  {
    IsSuffixEscaped(values[i].name) && values[j].name == values[i].name + "_"
  }

  /** Values with different names share an item's identifier only as a keyword and its escape. */
  lemma SharedIdent(a: string, b: string)
    requires a != b && FieldIdent(a) == FieldIdent(b)
    ensures (IsSuffixEscaped(a) && b == a + "_") || (IsSuffixEscaped(b) && a == b + "_")
  {
    assert (a + "_")[..|a|] == a && (b + "_")[..|b|] == b;
  }

  lemma EscapeIsNoKeyword(k: string)
    requires IsSuffixEscaped(k)
    ensures FieldIdent(k + "_") == FieldIdent(k)
  {
    assert (k + "_")[|k|] == '_';
  }

  /** The items of differently named values have different identifiers, but for a keyword beside its escape. */
  lemma ItemsDiffer(values: seq<EnumValue>)
    requires NamesDiffer(values)
    ensures IdentsDiffer(values) <==>
            forall i, j | 0 <= i < |values| && 0 <= j < |values| :: !Shadows(values, i, j)
  {
    forall i, j | 0 <= i < |values| && 0 <= j < |values| && Shadows(values, i, j)
      ensures i != j && IdentOf(values, i) == IdentOf(values, j)
    {
      EscapeIsNoKeyword(values[i].name);
    }
    forall i, j | 0 <= i < j < |values| && IdentOf(values, i) == IdentOf(values, j)
      ensures Shadows(values, i, j) || Shadows(values, j, i)
    {
      SharedIdent(values[i].name, values[j].name);
    }
  }

  lemma {:induction false} TrailingUnderscore(s: string, i: nat, startOfWord: bool)
    requires i <= |s|
    ensures CamelFrom(s + "_", i, startOfWord) == CamelFrom(s, i, startOfWord)
    decreases |s| - i
  {
    if i == |s| {
      assert (s + "_")[i] == '_';
      assert CamelFrom(s + "_", i + 1, true) == "";
    } else {
      assert (s + "_")[i] == s[i];
      TrailingUnderscore(s, i + 1, s[i] == '_');
      if s[i] != '_' && i > 0 { SameBoundary(s, i); }
    }
  }

  lemma SameBoundary(s: string, i: nat)
    requires 0 < i < |s|
    ensures CaseBoundary(s + "_", i) == CaseBoundary(s, i)
  {
    assert (s + "_")[i] == s[i] && (s + "_")[i - 1] == s[i - 1];
    assert i + 1 < |s| ==> (s + "_")[i + 1] == s[i + 1];
    assert i + 1 == |s| ==> (s + "_")[i + 1] == '_';
  }

  /** Values whose items share an identifier also want the same alias: such an enum gets none. */
  lemma SameItemSameAlias(enumName: string, records: seq<Record>, i: nat, j: nat)
    requires WellFormed(records) && i < |records| && j < |records| && i != j && records[i].own == records[j].own
    ensures var prefix := PrefixOf(enumName, records);
            AliasIdent(prefix, records[i].name) == AliasIdent(prefix, records[j].name)
  {
    var prefix, a, b := PrefixOf(enumName, records), records[i].name, records[j].name;
    SharedIdent(a, b);
    if prefix.strip { PrefixIsNoKeyword(enumName, records, i); PrefixIsNoKeyword(enumName, records, j); }
    TrailingUnderscore(if IsSuffixEscaped(a) then a else b, 0, true);
  }

  /** A keyword has no underscore, so the enum's prefix is not taken off. */
  lemma PrefixIsNoKeyword(enumName: string, records: seq<Record>, i: nat)
    requires PrefixOf(enumName, records).strip && i < |records|
    ensures !IsSuffixEscaped(records[i].name)
  {
    var text, name := Shouty(enumName) + "_", records[i].name;
    assert text <= name && text[|text| - 1] == '_' && name[|text| - 1] == '_';
  }

  ghost predicate AllValid(prefix: Prefix, records: seq<Record>) {
    forall i | 0 <= i < |records| :: IsValid(Candidate(prefix, records[i].name))
  }

  /** No two values want the same identifier, and none wants the one of another value's item. */
  ghost predicate NoClash(prefix: Prefix, records: seq<Record>) {
    forall i, j | 0 <= i < |records| && 0 <= j < |records| && i != j ::
      var ident := AliasIdent(prefix, records[i].name);
      ident != AliasIdent(prefix, records[j].name) && ident != records[j].own
  }

  lemma {:induction false} OwnerIs(records: seq<Record>, n: nat, ident: string)
    requires n <= |records|
    ensures match OwnerOf(records, n, ident)
            case Some(name) => exists j :: 0 <= j < n && records[j].own == ident && records[j].name == name
                                           && forall k | j < k < n :: records[k].own != ident
            case None => forall j | 0 <= j < n :: records[j].own != ident
  {
    if n > 0 { OwnerIs(records, n - 1, ident); }
  }

  lemma {:induction false} ClaimantIs(prefix: Prefix, records: seq<Record>, n: nat, ident: string, name: string)
    requires n <= |records|
    ensures name in Claimants(prefix, records, n, ident) <==>
            exists i :: 0 <= i < n && Claims(prefix, records[i], ident)
                        && (name == records[i].name || OwnerOf(records, |records|, ident) == Some(name))
  {
    if n > 0 { ClaimantIs(prefix, records, n - 1, ident, name); }
  }

  /** With no clash, whoever claims an identifier is the only claimant, and owns it if anyone does. */
  lemma OneClaimant(prefix: Prefix, records: seq<Record>, ident: string)
    requires WellFormed(records) && AllValid(prefix, records) && NoClash(prefix, records)
    ensures |Claimants(prefix, records, |records|, ident)| <= 1
  {
    var all := Claimants(prefix, records, |records|, ident);
    if all != {} {
      var name :| name in all;
      ClaimantIs(prefix, records, |records|, ident, name);
      var i :| 0 <= i < |records| && Claims(prefix, records[i], ident);
      OwnerIs(records, |records|, ident);
      forall other | other in all ensures other == records[i].name {
        ClaimantIs(prefix, records, |records|, ident, other);
      }
      assert all <= {records[i].name};
      SubsetSize(all, {records[i].name});
    }
  }

  lemma TwoInSet<T>(s: set<T>, x: T, y: T)
    requires x in s && y in s && |s| <= 1
    ensures x == y
  {
    if x != y { SubsetSize({x, y}, s); }
  }

  lemma SoleClaimant(enumName: string, prefix: Prefix, records: seq<Record>, i: nat, j: nat)
    requires prefix == PrefixOf(enumName, records) && WellFormed(records) && AllValid(prefix, records)
    requires i < |records| && j < |records| && i != j
    requires |Claimants(prefix, records, |records|, AliasIdent(prefix, records[i].name))| <= 1
    ensures AliasIdent(prefix, records[i].name) != AliasIdent(prefix, records[j].name)
    ensures AliasIdent(prefix, records[i].name) != records[j].own
  {
    var ident := AliasIdent(prefix, records[i].name);
    assert records[i].name != records[j].name;
    ClaimsOwn(prefix, records, i, ident);
    if AliasIdent(prefix, records[j].name) == ident {
      ClaimsOwn(prefix, records, j, ident);
      TwoInSet(Claimants(prefix, records, |records|, ident), records[i].name, records[j].name);
    }
    if records[j].own == ident {
      var k := OwnerIsClaimant(prefix, records, i, j, ident);
      TwoInSet(Claimants(prefix, records, |records|, ident), records[i].name, records[k].name);
      if k == i { SameItemSameAlias(enumName, records, i, j); }
    }
  }

  lemma ClaimsOwn(prefix: Prefix, records: seq<Record>, i: nat, ident: string)
    requires i < |records| && Claims(prefix, records[i], ident)
    ensures records[i].name in Claimants(prefix, records, |records|, ident)
  {
    ClaimantIs(prefix, records, |records|, ident, records[i].name);
  }

  lemma OwnerIsClaimant(prefix: Prefix, records: seq<Record>, i: nat, j: nat, ident: string) returns (k: nat)
    requires i < |records| && j < |records|
    requires Claims(prefix, records[i], ident) && records[j].own == ident
    ensures k < |records| && records[k].own == ident
    ensures records[k].name in Claimants(prefix, records, |records|, ident)
  {
    OwnerIs(records, |records|, ident);
    var name := OwnerOf(records, |records|, ident).value;
    k :| 0 <= k < |records| && records[k].own == ident && records[k].name == name;
    ClaimantIs(prefix, records, |records|, ident, name);
  }

  /** Aliases are withheld exactly when a value has no valid alias, or two want or have the same identifier. */
  lemma WithheldExactly(enumName: string, prefix: Prefix, records: seq<Record>)
    requires prefix == PrefixOf(enumName, records) && WellFormed(records)
    ensures (forall s :: |Claimants(prefix, records, |records|, s)| <= 1) && Invalid(prefix, records, |records|) == {}
            <==> AllValid(prefix, records) && NoClash(prefix, records)
  {
    NoneInvalid(prefix, records);
    if AllValid(prefix, records) {
      if NoClash(prefix, records) {
        forall s ensures |Claimants(prefix, records, |records|, s)| <= 1 { OneClaimant(prefix, records, s); }
      } else {
        var s := ClashFound(enumName, prefix, records);
      }
    }
  }

  lemma ClashFound(enumName: string, prefix: Prefix, records: seq<Record>) returns (s: string)
    requires prefix == PrefixOf(enumName, records) && WellFormed(records) && AllValid(prefix, records)
      && !NoClash(prefix, records)
    ensures |Claimants(prefix, records, |records|, s)| > 1
  {
    var i, j :| 0 <= i < |records| && 0 <= j < |records| && i != j &&
                (AliasIdent(prefix, records[i].name) == AliasIdent(prefix, records[j].name)
                 || AliasIdent(prefix, records[i].name) == records[j].own);
    s := AliasIdent(prefix, records[i].name);
    if |Claimants(prefix, records, |records|, s)| <= 1 { SoleClaimant(enumName, prefix, records, i, j); }
  }

  lemma NoneInvalid(prefix: Prefix, records: seq<Record>)
    ensures Invalid(prefix, records, |records|) == {} <==> AllValid(prefix, records)
  {
    var bad := Invalid(prefix, records, |records|);
    assert forall i | 0 <= i < |records| && !IsValid(Candidate(prefix, records[i].name)) :: records[i].name in bad;
  }

  lemma {:induction false} EmittedFrom(prefix: Prefix, records: seq<Record>, deprecated: set<string>, n: nat, c: Const)
    requires n <= |records|
    ensures c in Emitted(prefix, records, deprecated, n) <==>
            exists i: nat :: i < n && Makes(prefix, records, deprecated, i, c)
  {
    if n > 0 {
      EmittedFrom(prefix, records, deprecated, n - 1, c);
      EmittedStep(prefix, records, deprecated, n - 1, c);
    }
  }

  /** Value `i` gets the constant. */
  predicate Makes(prefix: Prefix, records: seq<Record>, deprecated: set<string>, i: nat, c: Const)
    requires i < |records|
  {
    var r := records[i];
    c == Const(AliasIdent(prefix, r.name), r.target, r.own in deprecated) && c.ident !in Owns(records)
  }

  lemma EmittedStep(prefix: Prefix, records: seq<Record>, deprecated: set<string>, n: nat, c: Const)
    requires n < |records|
    ensures c in Emitted(prefix, records, deprecated, n + 1) <==>
            || c in Emitted(prefix, records, deprecated, n)
            || Makes(prefix, records, deprecated, n, c)
  {
  }

  ghost predicate DistinctIdents(consts: seq<Const>) {
    forall i, j | 0 <= i < j < |consts| :: consts[i].ident != consts[j].ident
  }

  lemma {:induction false} EmittedDistinct(prefix: Prefix, records: seq<Record>, deprecated: set<string>, n: nat)
    requires n <= |records| && NoClash(prefix, records)
    ensures DistinctIdents(Emitted(prefix, records, deprecated, n))
  {
    if n > 0 {
      var before, all := Emitted(prefix, records, deprecated, n - 1), Emitted(prefix, records, deprecated, n);
      var ident := AliasIdent(prefix, records[n - 1].name);
      EmittedDistinct(prefix, records, deprecated, n - 1);
      forall k | 0 <= k < |before| ensures before[k].ident != ident {
        EmittedFrom(prefix, records, deprecated, n - 1, before[k]);
        var i: nat :| i < n - 1 && Makes(prefix, records, deprecated, i, before[k]);
      }
      forall i, j | 0 <= i < j < |all| ensures all[i].ident != all[j].ident {
        assert all[i] == before[i] && before[i].ident != ident;
        assert j < |before| ==> all[j] == before[j];
      }
    }
  }

  /**
   * When aliases are emitted, every value can be named in CamelCase, by its own item or by a constant
   * for its variant; the constants are pairwise distinct and none repeats an existing identifier.
   */
  lemma EveryValueReachable(prefix: Prefix, records: seq<Record>, deprecated: set<string>)
    requires WellFormed(records) && AllValid(prefix, records) && NoClash(prefix, records)
    ensures var cs := Emitted(prefix, records, deprecated, |records|);
            && DistinctIdents(cs)
            && (forall c | c in cs :: c.ident !in Owns(records))
            && (forall i | 0 <= i < |records| ::
                  var ident := AliasIdent(prefix, records[i].name);
                  ident == records[i].own || Const(ident, records[i].target, records[i].own in deprecated) in cs)
  {
    var cs := Emitted(prefix, records, deprecated, |records|);
    EmittedDistinct(prefix, records, deprecated, |records|);
    forall c | c in cs ensures c.ident !in Owns(records) {
      EmittedFrom(prefix, records, deprecated, |records|, c);
    }
    forall i | 0 <= i < |records|
      ensures var ident := AliasIdent(prefix, records[i].name);
              ident == records[i].own || Const(ident, records[i].target, records[i].own in deprecated) in cs
    {
      var ident := AliasIdent(prefix, records[i].name);
      var c := Const(ident, records[i].target, records[i].own in deprecated);
      EmittedFrom(prefix, records, deprecated, |records|, c);
      assert c.ident !in Owns(records) ==> Makes(prefix, records, deprecated, i, c);
      if ident in Owns(records) {
        var j :| 0 <= j < |records| && records[j].own == ident;
      }
    }
  }

  /** From the values themselves: a CamelCase name denotes the variant that has the value's number. */
  lemma AliasesDenoteNumbers(values: seq<EnumValue>, prefix: Prefix, i: nat)
    requires i < |values| && NamesDiffer(values)
    requires var rs := Records(values, |values|);
             AllValid(prefix, rs) && NoClash(prefix, rs)
    ensures var t := TablesOf(values, true, |values|);
            var ident := AliasIdent(prefix, values[i].name);
            || ident == IdentOf(values, i)
            || exists c | c in Emitted(prefix, t.records, t.deprecatedIdents, |t.records|) ::
                 && c.ident == ident
                 && Variant(c.target, values[i].number) in t.variants
                 && (c.deprecated <==> IdentOf(values, i) in t.deprecatedIdents)
  {
    var t := TablesOf(values, true, |values|);
    RecordsWellFormed(values);
    EveryValueReachable(prefix, t.records, t.deprecatedIdents);
    ValuesBecomeItems(values, |values|, i);
    assert t.records[i] == RecordOf(values, i);
  }

  /**
   * The branch for invalid identifiers is reached exactly by names whose first character behind their
   * leading underscores is a digit or missing, and only while no prefix is taken off.
   */
  lemma InvalidExactly(enumName: string, records: seq<Record>)
    ensures var prefix := PrefixOf(enumName, records);
            Invalid(prefix, records, |records|) ==
            set i | 0 <= i < |records| && !prefix.strip && !StartsWithLetter(records[i].name) :: records[i].name
  {
    var prefix := PrefixOf(enumName, records);
    forall i | 0 <= i < |records|
      ensures IsValid(Candidate(prefix, records[i].name)) <==> prefix.strip || StartsWithLetter(records[i].name)
    {
      CamelIsValid(records[i].name, 0);
      assert records[i].name[0..] == records[i].name;
    }
  }

  predicate StartsWithLetter(name: string) {
    var k := RunLength(name, '_');
    k < |name| && !IsDigit(name[k])
  }

  /** A name that protobuf allows and that reaches the branch. */
  lemma InvalidExists(enumName: string)
    ensures var rs := Records([EnumValue("_1", 0, false)], 1);
            WellFormed(rs) && Invalid(PrefixOf(enumName, rs), rs, 1) == {"_1"}
  {
    var rs := Records([EnumValue("_1", 0, false)], 1);
    InvalidExactly(enumName, rs);
    RunLengthUnique("_1", '_', 1);
    var text := Shouty(enumName) + "_";
    assert text[|text| - 1] == '_';
    CamelIsValid("1", 0);
    RunLengthUnique("1", '_', 0);
    assert "1"[0..] == "1" && "_1"[1..] == "1";
    assert rs[0].name == "_1" && !Strips(text, rs);
    assert !StartsWithLetter("_1");
  }
}
