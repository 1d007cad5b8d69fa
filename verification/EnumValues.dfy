/** The tables of a generated enum: which values are variants, which are aliases, and what is deprecated. */
module EnumValues {
  import opened Text
  import opened Idents
  import opened Descriptors

  /** The first value declared for `number`, or the number of values. */
  function FirstWith(values: seq<EnumValue>, number: int): (i: nat)
    ensures i <= |values|
    ensures i < |values| ==> values[i].number == number
    ensures forall j | 0 <= j < i :: values[j].number != number
  {
    if values == [] || values[0].number == number then 0 else 1 + FirstWith(values[1..], number)
  }

  /** The variant behind a value: the first one declared for its number. */
  function Primary(values: seq<EnumValue>, i: nat): (p: nat)
    requires i < |values|
    ensures p <= i && values[p].number == values[i].number
    ensures forall j | 0 <= j < p :: values[j].number != values[i].number
  {
    FirstWith(values, values[i].number)
  }

  predicate ItemDeprecated(values: seq<EnumValue>, i: nat)
    requires i < |values|
  {
    values[i].deprecated || values[Primary(values, i)].deprecated
  }

  /** `m` keeps what `f` says of the first value of each number among the first `i` values. */
  ghost predicate Keeps<V(!new)>(values: seq<EnumValue>, i: nat, m: map<int, V>, f: EnumValue -> V)
    requires i <= |values|
  {
    forall n ::
      && (n in m <==> FirstWith(values, n) < i)
      && (n in m ==> m[n] == f(values[FirstWith(values, n)]))
  }

  lemma KeepsStep<V(!new)>(values: seq<EnumValue>, i: nat, m: map<int, V>, f: EnumValue -> V)
    requires i < |values| && Keeps(values, i, m, f)
    ensures values[i].number in m <==> Primary(values, i) < i
    ensures values[i].number in m ==> m[values[i].number] == f(values[Primary(values, i)])
    ensures Keeps(values, i + 1, if values[i].number in m then m else m[values[i].number := f(values[i])], f)
  {
    var m' := if values[i].number in m then m else m[values[i].number := f(values[i])];
    forall n
      ensures n in m' <==> FirstWith(values, n) < i + 1
      ensures n in m' ==> m'[n] == f(values[FirstWith(values, n)])
    {
      assert FirstWith(values, n) == i ==> n == values[i].number;
    }
  }

  /** An item is deprecated by its own option, or by that of the variant it is another name for. */
  method DeprecatedItems(values: seq<EnumValue>) returns (r: seq<bool>)
    ensures |r| == |values|
    ensures forall i | 0 <= i < |values| :: r[i] <==> ItemDeprecated(values, i)
  {
    r := [];
    ghost var isDeprecated := (v: EnumValue) => v.deprecated;
    var variantDeprecated: map<int, bool> := map[];
    for i := 0 to |values|
      invariant |r| == i
      invariant forall k | 0 <= k < i :: r[k] <==> ItemDeprecated(values, k)
      invariant Keeps(values, i, variantDeprecated, isDeprecated)
    {
      var own, number := values[i].deprecated, values[i].number;
      KeepsStep(values, i, variantDeprecated, isDeprecated);
      if number !in variantDeprecated { variantDeprecated := variantDeprecated[number := own]; }
      r := r + [own || variantDeprecated[number]];
    }
  }

  // ----- the tables -----

  /** A variant of the Rust enum. */
  datatype Variant = Variant(ident: string, number: int)

  /** An associated constant: another name for a variant. */
  datatype Alias = Alias(ident: string, target: string)

  /** What the idiomatic aliases start from: a value, the variant it denotes, and its own identifier. */
  datatype Record = Record(name: string, target: string, own: string)

  datatype Tables = Tables(
    variants: seq<Variant>,
    aliases: seq<Alias>,
    fromName: seq<(string, string)>,
    records: seq<Record>,
    deprecatedIdents: set<string>,
    hasDeprecatedVariant: bool,
    firstVariant: Option<string>)

  function IdentOf(values: seq<EnumValue>, i: nat): string
    requires i < |values|
  {
    FieldIdent(values[i].name)
  }

  function RecordOf(values: seq<EnumValue>, i: nat): Record
    requires i < |values|
  {
    Record(values[i].name, IdentOf(values, Primary(values, i)), IdentOf(values, i))
  }

  /** The first value of each number among the first `n`, in declaration order. */
  function Variants(values: seq<EnumValue>, n: nat): seq<Variant>
    requires n <= |values|
  {
    if n == 0 then []
    else
      var before := Variants(values, n - 1);
      if Primary(values, n - 1) < n - 1 then before
      else before + [Variant(IdentOf(values, n - 1), values[n - 1].number)]
  }

  /** The values that repeat a number, as names of its variant. */
  function Aliases(values: seq<EnumValue>, n: nat): seq<Alias>
    requires n <= |values|
  {
    if n == 0 then []
    else
      var before := Aliases(values, n - 1);
      if Primary(values, n - 1) == n - 1 then before
      else before + [Alias(IdentOf(values, n - 1), IdentOf(values, Primary(values, n - 1)))]
  }

  /** The name of every value, with the variant of its number. */
  function Names(values: seq<EnumValue>, n: nat): seq<(string, string)>
    requires n <= |values|
  {
    seq(n, i requires 0 <= i < n => (values[i].name, IdentOf(values, Primary(values, i))))
  }

  function Records(values: seq<EnumValue>, n: nat): seq<Record>
    requires n <= |values|
  {
    seq(n, i requires 0 <= i < n => RecordOf(values, i))
  }

  function DeprecatedIdents(values: seq<EnumValue>, n: nat): set<string>
    requires n <= |values|
  {
    set i: nat | i < n && ItemDeprecated(values, i) :: IdentOf(values, i)
  }

  predicate HasDeprecatedVariant(values: seq<EnumValue>, n: nat)
    requires n <= |values|
  {
    exists i: nat :: i < n && Primary(values, i) == i && values[i].deprecated
  }

  /** The tables after the first `n` values. */
  function TablesOf(values: seq<EnumValue>, idiomatic: bool, n: nat): Tables
    requires n <= |values|
  {
    Tables(Variants(values, n), Aliases(values, n), Names(values, n), if idiomatic then Records(values, n) else [],
           DeprecatedIdents(values, n), HasDeprecatedVariant(values, n),
           if n == 0 then None else Some(IdentOf(values, 0)))
  }

  lemma TablesStep(values: seq<EnumValue>, idiomatic: bool, i: nat)
    requires i < |values|
    ensures var t, ident, primary := TablesOf(values, idiomatic, i), IdentOf(values, i), Primary(values, i);
            var target, deprecated := IdentOf(values, primary), ItemDeprecated(values, i);
            TablesOf(values, idiomatic, i + 1) ==
            Tables(if primary < i then t.variants else t.variants + [Variant(ident, values[i].number)],
                   if primary < i then t.aliases + [Alias(ident, target)] else t.aliases,
                   t.fromName + [(values[i].name, target)],
                   if idiomatic then t.records + [Record(values[i].name, target, ident)] else t.records,
                   if deprecated then t.deprecatedIdents + {ident} else t.deprecatedIdents,
                   t.hasDeprecatedVariant || (primary == i && deprecated),
                   if t.firstVariant == None then Some(ident) else t.firstVariant)
  {
    NamesStep(values, i);
    RecordsStep(values, i);
    DeprecatedStep(values, i);
  }

  lemma NamesStep(values: seq<EnumValue>, i: nat)
    requires i < |values|
    ensures Names(values, i + 1) == Names(values, i) + [(values[i].name, IdentOf(values, Primary(values, i)))]
  {
  }

  lemma RecordsStep(values: seq<EnumValue>, i: nat)
    requires i < |values|
    ensures Records(values, i + 1) == Records(values, i) + [RecordOf(values, i)]
  {
  }

  lemma DeprecatedStep(values: seq<EnumValue>, i: nat)
    requires i < |values|
    ensures DeprecatedIdents(values, i + 1) ==
            if ItemDeprecated(values, i) then DeprecatedIdents(values, i) + {IdentOf(values, i)}
            else DeprecatedIdents(values, i)
    ensures HasDeprecatedVariant(values, i + 1) <==>
            HasDeprecatedVariant(values, i) || (Primary(values, i) == i && ItemDeprecated(values, i))
  {
    assert forall k: nat | k < i + 1 && ItemDeprecated(values, k) :: k < i || k == i;
  }

  method GenerateTables(values: seq<EnumValue>, idiomatic: bool) returns (t: Tables)
    ensures t == TablesOf(values, idiomatic, |values|)
  {
    ghost var nameOf := (v: EnumValue) => v.name;
    var seen: map<int, string> := map[];
    var itemDeprecated := DeprecatedItems(values);
    t := Tables([], [], [], [], {}, false, None);
    for i := 0 to |values|
      invariant t == TablesOf(values, idiomatic, i)
      invariant Keeps(values, i, seen, nameOf)
    {
      var name, number, deprecated := values[i].name, values[i].number, itemDeprecated[i];
      var ident := FieldIdent(name);
      TablesStep(values, idiomatic, i);
      KeepsStep(values, i, seen, nameOf);
      if number in seen {
        t := AddAlias(t, name, ident, FieldIdent(seen[number]), deprecated, idiomatic);
      } else {
        seen := seen[number := name];
        t := AddVariant(t, name, ident, number, deprecated, idiomatic);
      }
    }
  }

  method AddAlias(t0: Tables, name: string, ident: string, primary: string, deprecated: bool, idiomatic: bool)
    returns (t: Tables)
    ensures t == Tables(t0.variants, t0.aliases + [Alias(ident, primary)], t0.fromName + [(name, primary)],
                        if idiomatic then t0.records + [Record(name, primary, ident)] else t0.records,
                        if deprecated then t0.deprecatedIdents + {ident} else t0.deprecatedIdents,
                        t0.hasDeprecatedVariant, t0.firstVariant)
  {
    t := t0;
    if deprecated { t := t.(deprecatedIdents := t.deprecatedIdents + {ident}); }
    t := t.(aliases := t.aliases + [Alias(ident, primary)], fromName := t.fromName + [(name, primary)]);
    if idiomatic { t := t.(records := t.records + [Record(name, primary, ident)]); }
  }

  method AddVariant(t0: Tables, name: string, ident: string, number: int, deprecated: bool, idiomatic: bool)
    returns (t: Tables)
    ensures t == Tables(t0.variants + [Variant(ident, number)], t0.aliases, t0.fromName + [(name, ident)],
                        if idiomatic then t0.records + [Record(name, ident, ident)] else t0.records,
                        if deprecated then t0.deprecatedIdents + {ident} else t0.deprecatedIdents,
                        t0.hasDeprecatedVariant || deprecated,
                        if t0.firstVariant == None then Some(ident) else t0.firstVariant)
  {
    t := t0;
    if deprecated { t := t.(deprecatedIdents := t.deprecatedIdents + {ident}, hasDeprecatedVariant := true); }
    if t.firstVariant == None { t := t.(firstVariant := Some(ident)); }
    t := t.(variants := t.variants + [Variant(ident, number)], fromName := t.fromName + [(name, ident)]);
    if idiomatic { t := t.(records := t.records + [Record(name, ident, ident)]); }
  }

  // ----- what the tables mean -----

  function Numbers(variants: seq<Variant>): seq<int> {
    seq(|variants|, k requires 0 <= k < |variants| => variants[k].number)
  }

  /**
   * The variants have all numbers of the values, and none twice: a Rust enum with these discriminants
   * exists, and `from_i32` is defined exactly on the numbers of the values.
   */
  lemma {:induction false} VariantsCoverNumbers(values: seq<EnumValue>, n: nat)
    requires n <= |values|
    ensures Distinct(Numbers(Variants(values, n)))
    ensures forall x :: x in Numbers(Variants(values, n)) <==> FirstWith(values, x) < n
  {
    if n > 0 {
      var before, after := Numbers(Variants(values, n - 1)), Numbers(Variants(values, n));
      VariantsCoverNumbers(values, n - 1);
      if Primary(values, n - 1) == n - 1 {
        assert after == before + [values[n - 1].number];
      }
      forall x ensures x in after <==> FirstWith(values, x) < n {
        assert FirstWith(values, x) == n - 1 ==> x == values[n - 1].number;
      }
    }
  }

  /** Each variant bears the name of the first value declared for its number. */
  lemma {:induction false} VariantsNameFirstValues(values: seq<EnumValue>, n: nat)
    requires n <= |values|
    ensures forall v | v in Variants(values, n) ::
              FirstWith(values, v.number) < n && v.ident == IdentOf(values, FirstWith(values, v.number))
  {
    if n > 0 { VariantsNameFirstValues(values, n - 1); }
  }

  /** Every value becomes exactly one item: a variant, or a name of the variant that has its number. */
  lemma {:induction false} ValuesBecomeItems(values: seq<EnumValue>, n: nat, i: nat)
    requires i < n <= |values|
    ensures |Variants(values, n)| + |Aliases(values, n)| == n
    ensures Variant(IdentOf(values, Primary(values, i)), values[i].number) in Variants(values, n)
    ensures Primary(values, i) == i
      || Alias(IdentOf(values, i), IdentOf(values, Primary(values, i))) in Aliases(values, n)
  {
    ItemCount(values, n);
    VariantListed(values, n, Primary(values, i));
    if Primary(values, i) < i { AliasListed(values, n, i); }
  }

  lemma {:induction false} ItemCount(values: seq<EnumValue>, n: nat)
    requires n <= |values|
    ensures |Variants(values, n)| + |Aliases(values, n)| == n
  {
    if n > 0 { ItemCount(values, n - 1); }
  }

  lemma {:induction false} VariantListed(values: seq<EnumValue>, n: nat, p: nat)
    requires p < n <= |values| && Primary(values, p) == p
    ensures Variant(IdentOf(values, p), values[p].number) in Variants(values, n)
  {
    if p < n - 1 { VariantListed(values, n - 1, p); }
  }

  lemma {:induction false} AliasListed(values: seq<EnumValue>, n: nat, i: nat)
    requires i < n <= |values| && Primary(values, i) < i
    ensures Alias(IdentOf(values, i), IdentOf(values, Primary(values, i))) in Aliases(values, n)
  {
    if i < n - 1 { AliasListed(values, n - 1, i); }
  }

  /** The alias of a deprecated variant is marked as well: it is no way around the marker. */
  lemma DeprecationReachesAliases(values: seq<EnumValue>, i: nat, j: nat)
    requires i <= j < |values| && values[i].number == values[j].number && Primary(values, i) == i
    requires values[i].deprecated
    ensures IdentOf(values, i) in DeprecatedIdents(values, |values|)
    ensures IdentOf(values, j) in DeprecatedIdents(values, |values|)
    ensures HasDeprecatedVariant(values, |values|)
  {
    assert Primary(values, j) == i;
    assert ItemDeprecated(values, i) && ItemDeprecated(values, j);
  }

  // ----- the tables, value by value -----

  /** `p` is the first value with the number of value `i`. */
  ghost predicate IsFirstOf(values: seq<EnumValue>, p: nat, i: nat) {
    p <= i < |values| && values[p].number == values[i].number
    && forall j | 0 <= j < p :: values[j].number != values[i].number
  }

  lemma PrimaryIs(values: seq<EnumValue>, p: nat, i: nat)
    requires IsFirstOf(values, p, i)
    ensures Primary(values, i) == p
  {
  }

  /**
    For every value, with `p` the first one of its number: its name stands for the variant of `p`, and its item
    is deprecated exactly when it says so itself or `p` does.
   */
  lemma TablesByValue(values: seq<EnumValue>, p: nat, i: nat)
    requires IsFirstOf(values, p, i)
    ensures
      var t := TablesOf(values, true, |values|);
      && |t.fromName| == |values| == |t.records|
      && t.fromName[i] == (values[i].name, FieldIdent(values[p].name))
      && t.records[i] == Record(values[i].name, FieldIdent(values[p].name), FieldIdent(values[i].name))
      && (ItemDeprecated(values, i) <==> values[i].deprecated || values[p].deprecated)
      && t.firstVariant == Some(FieldIdent(values[0].name))
  {
    PrimaryIs(values, p, i);
  }

  ghost predicate DeprecatesItem(values: seq<EnumValue>, p: nat, i: nat, ident: string) {
    IsFirstOf(values, p, i) && FieldIdent(values[i].name) == ident && (values[i].deprecated || values[p].deprecated)
  }

  /** The identifiers that are marked deprecated, and whether a variant is. */
  lemma DeprecationByValue(values: seq<EnumValue>, ident: string)
    ensures ident in DeprecatedIdents(values, |values|) <==> exists p, i :: DeprecatesItem(values, p, i, ident)
    ensures HasDeprecatedVariant(values, |values|) <==>
            exists i: nat | i < |values| :: IsFirstOf(values, i, i) && values[i].deprecated
  {
    if ident in DeprecatedIdents(values, |values|) {
      var i: nat :| i < |values| && ItemDeprecated(values, i) && IdentOf(values, i) == ident;
      assert DeprecatesItem(values, Primary(values, i), i, ident);
    }
    if p, i :| DeprecatesItem(values, p, i, ident) {
      PrimaryIs(values, p, i);
      assert ItemDeprecated(values, i) && IdentOf(values, i) == ident;
    }
    forall i: nat | i < |values| ensures IsFirstOf(values, i, i) <==> Primary(values, i) == i {
      if IsFirstOf(values, i, i) { PrimaryIs(values, i, i); }
    }
  }
}
