/**
  Names of the modules that hold nested types (buffa-codegen/src/context.rs,
  `deconflict_modules`).
 */
module Deconflict {
  import opened Text
  import opened Idents

  // ----- module bases -----

  /** `snake_case(Name)`, the module a message gets when nothing is in the way. */
  function Base(name: string): string { ToSnakeCase(name) }

  function Bases(names: seq<string>): (r: seq<string>)
    ensures |r| == |names|
    ensures forall i | 0 <= i < |names| :: r[i] == Base(names[i])
  {
    seq(|names|, i requires 0 <= i < |names| => Base(names[i]))
  }

  const SENTINEL_MOD := "__buffa"
  const RESERVED_MODULE_NAMES: seq<string> := ["self", "super", "crate", "arbitrary"]
  const PACKAGE_RESERVED_MODULE_NAME := "oneof"

  predicate IsOccupied(occupied: set<string>, base: string) {
    base in RESERVED_MODULE_NAMES || base in occupied
  }

  // ----- the order in which colliding messages choose -----

  predicate StringLe(a: string, b: string) {
    a == "" || (b != "" && (a[0] < b[0] || (a[0] == b[0] && StringLe(a[1..], b[1..]))))
  }

  lemma {:induction false} StringLeTotal(a: string, b: string)
    ensures StringLe(a, b) || StringLe(b, a)
    ensures StringLe(a, b) && StringLe(b, a) ==> a == b
  {
    if a != "" && b != "" {
      StringLeTotal(a[1..], b[1..]);
      assert a == [a[0]] + a[1..] && b == [b[0]] + b[1..];
    }
  }

  lemma {:induction false} StringLeTransitive(a: string, b: string, c: string)
    requires StringLe(a, b) && StringLe(b, c)
    ensures StringLe(a, c)
  {
    if a != "" && a[0] == b[0] && b[0] == c[0] {
      StringLeTransitive(a[1..], b[1..], c[1..]);
    }
  }

  /** By base, then by proto name. */
  predicate NameLe(a: string, b: string) {
    if Base(a) == Base(b) then StringLe(a, b) else StringLe(Base(a), Base(b))
  }

  lemma NameLeTotal(a: string, b: string)
    ensures NameLe(a, b) || NameLe(b, a)
    ensures NameLe(a, b) && NameLe(b, a) ==> a == b
  {
    StringLeTotal(a, b);
    StringLeTotal(Base(a), Base(b));
  }

  lemma NameLeTransitive(a: string, b: string, c: string)
    requires NameLe(a, b) && NameLe(b, c)
    ensures NameLe(a, c)
  {
    StringLeTotal(Base(a), Base(b));
    StringLeTotal(Base(b), Base(c));
    StringLeTotal(Base(a), Base(c));
    if Base(a) == Base(b) == Base(c) { StringLeTransitive(a, b, c); }
    StringLeTransitive(Base(a), Base(b), Base(c));
  }

  ghost predicate Sorted(names: seq<string>) {
    forall i, j | 0 <= i < j < |names| :: NameLe(names[i], names[j])
  }

  ghost predicate InRange(order: seq<nat>, n: nat) {
    forall k | 0 <= k < |order| :: order[k] < n
  }

  /** The names at the given positions. */
  ghost function Pick(names: seq<string>, order: seq<nat>): (r: seq<string>)
    requires InRange(order, |names|)
    ensures |r| == |order|
    ensures forall k | 0 <= k < |order| :: r[k] == names[order[k]]
  {
    seq(|order|, k requires 0 <= k < |order| => names[order[k]])
  }

  ghost predicate IsOrder(names: seq<string>, order: seq<nat>) {
    && |order| == |names| && InRange(order, |names|)
    && (forall i: nat | i < |names| :: i in order)
    && Distinct(order)
    && Sorted(Pick(names, order))
  }

  /** Puts position `i` into a sorted list of positions, behind equal names. */
  function Insert(names: seq<string>, order: seq<nat>, i: nat): (r: seq<nat>)
    requires i < |names| && InRange(order, |names|)
    ensures |r| == |order| + 1 && InRange(r, |names|)
  {
    if order == [] || !NameLe(names[order[0]], names[i]) then [i] + order
    else [order[0]] + Insert(names, order[1..], i)
  }

  lemma {:induction false} InsertMembers(names: seq<string>, order: seq<nat>, i: nat)
    requires i < |names| && InRange(order, |names|)
    ensures forall k :: k in Insert(names, order, i) <==> k in order || k == i
  {
    if order != [] && NameLe(names[order[0]], names[i]) {
      InsertMembers(names, order[1..], i);
      assert order == [order[0]] + order[1..];
    }
  }

  lemma SortedCons(names: seq<string>, first: nat, rest: seq<nat>)
    requires first < |names| && InRange(rest, |names|) && Sorted(Pick(names, rest))
    requires forall k | k in rest && k < |names| :: NameLe(names[first], names[k])
    ensures InRange([first] + rest, |names|) && Sorted(Pick(names, [first] + rest))
  {
    var p := Pick(names, [first] + rest);
    forall i, j | 0 <= i < j < |p| ensures NameLe(p[i], p[j]) {
      assert p[j] == names[rest[j - 1]] && rest[j - 1] in rest;
      if i > 0 { assert p[i] == Pick(names, rest)[i - 1] && p[j] == Pick(names, rest)[j - 1]; }
    }
  }

  lemma SortedHead(names: seq<string>, order: seq<nat>)
    requires order != [] && InRange(order, |names|) && Sorted(Pick(names, order))
    ensures InRange(order[1..], |names|) && Sorted(Pick(names, order[1..]))
    ensures forall k | k in order[1..] && k < |names| :: NameLe(names[order[0]], names[k])
  {
    var rest := order[1..];
    forall i, j | 0 <= i < j < |rest| ensures NameLe(Pick(names, rest)[i], Pick(names, rest)[j]) {
      assert NameLe(Pick(names, order)[i + 1], Pick(names, order)[j + 1]);
    }
    forall k | k in rest && k < |names| ensures NameLe(names[order[0]], names[k]) {
      var l :| 0 <= l < |rest| && rest[l] == k;
      assert NameLe(Pick(names, order)[0], Pick(names, order)[l + 1]);
    }
  }

  lemma {:induction false} InsertSorted(names: seq<string>, order: seq<nat>, i: nat)
    requires i < |names| && InRange(order, |names|) && Sorted(Pick(names, order))
    ensures Sorted(Pick(names, Insert(names, order, i)))
  {
    if order == [] {
    } else if !NameLe(names[order[0]], names[i]) {
      NameLeTotal(names[i], names[order[0]]);
      SortedHead(names, order);
      forall k | k in order && k < |names| ensures NameLe(names[i], names[k]) {
        if k != order[0] {
          assert k in order[1..];
          NameLeTransitive(names[i], names[order[0]], names[k]);
        }
      }
      SortedCons(names, i, order);
    } else {
      SortedHead(names, order);
      InsertSorted(names, order[1..], i);
      InsertMembers(names, order[1..], i);
      SortedCons(names, order[0], Insert(names, order[1..], i));
    }
  }

  lemma {:induction false} InsertDistinct(names: seq<string>, order: seq<nat>, i: nat)
    requires i < |names| && InRange(order, |names|) && Distinct(order) && i !in order
    ensures Distinct(Insert(names, order, i))
  {
    if order != [] && NameLe(names[order[0]], names[i]) {
      InsertDistinct(names, order[1..], i);
      InsertMembers(names, order[1..], i);
      assert order[0] !in order[1..];
    }
  }

  /** `order.sort_by(…)` over the positions `0..n`. */
  function SortPositions(names: seq<string>, n: nat): (r: seq<nat>)
    requires n <= |names|
    ensures |r| == n && InRange(r, n)
  {
    if n == 0 then []
    else
      var before := SortPositions(names, n - 1);
      var r := Insert(names, before, n - 1);
      InsertMembers(names, before, n - 1);
      assert forall k | 0 <= k < |r| :: r[k] in r;
      r
  }

  lemma {:induction false} SortPositionsCover(names: seq<string>, n: nat)
    requires n <= |names|
    ensures forall i: nat | i < n :: i in SortPositions(names, n)
  {
    if n > 0 {
      SortPositionsCover(names, n - 1);
      InsertMembers(names, SortPositions(names, n - 1), n - 1);
    }
  }

  lemma {:induction false} SortPositionsSorted(names: seq<string>, n: nat)
    requires n <= |names|
    ensures Sorted(Pick(names, SortPositions(names, n)))
  {
    if n > 0 {
      SortPositionsSorted(names, n - 1);
      InsertSorted(names, SortPositions(names, n - 1), n - 1);
    }
  }

  lemma {:induction false} SortPositionsDistinct(names: seq<string>, n: nat)
    requires n <= |names|
    ensures Distinct(SortPositions(names, n))
  {
    if n > 0 {
      SortPositionsDistinct(names, n - 1);
      InsertDistinct(names, SortPositions(names, n - 1), n - 1);
    }
  }

  /** Equal names stay in the order of their positions, as `sort_by` keeps them. */
  ghost predicate Stable(names: seq<string>, order: seq<nat>) {
    InRange(order, |names|) &&
    forall a, b | 0 <= a < b < |order| && names[order[a]] == names[order[b]] :: order[a] < order[b]
  }

  lemma StableCons(names: seq<string>, first: nat, rest: seq<nat>)
    requires first < |names| && Stable(names, rest)
    requires forall k | k in rest && k < |names| && names[k] == names[first] :: first < k
    ensures Stable(names, [first] + rest)
  {
    var r := [first] + rest;
    forall a, b | 0 <= a < b < |r| && names[r[a]] == names[r[b]] ensures r[a] < r[b] {
      assert r[b] == rest[b - 1] && rest[b - 1] in rest;
      if a > 0 { assert r[a] == rest[a - 1]; }
    }
  }

  lemma StableTail(names: seq<string>, order: seq<nat>)
    requires order != [] && Stable(names, order)
    ensures Stable(names, order[1..])
    ensures forall k | k in order[1..] && k < |names| && names[k] == names[order[0]] :: order[0] < k
  {
    var rest := order[1..];
    forall a, b | 0 <= a < b < |rest| && names[rest[a]] == names[rest[b]] ensures rest[a] < rest[b] {
      assert rest[a] == order[a + 1] && rest[b] == order[b + 1];
    }
    forall k | k in rest && k < |names| && names[k] == names[order[0]] ensures order[0] < k {
      var l :| 0 <= l < |rest| && rest[l] == k;
      assert order[l + 1] == k;
    }
  }

  lemma BeforeHead(names: seq<string>, order: seq<nat>, i: nat)
    requires i < |names| && order != [] && InRange(order, |names|) && Sorted(Pick(names, order))
    requires !NameLe(names[order[0]], names[i])
    ensures forall k | k in order && k < |names| :: names[k] != names[i]
  {
    SortedHead(names, order);
    NameLeTotal(names[order[0]], names[order[0]]);
    forall k | k in order && k < |names| ensures names[k] != names[i] {
      if k != order[0] { assert k in order[1..]; }
    }
  }

  lemma {:induction false} InsertStable(names: seq<string>, order: seq<nat>, i: nat)
    requires i < |names| && InRange(order, i) && Sorted(Pick(names, order)) && Stable(names, order)
    ensures Stable(names, Insert(names, order, i))
  {
    if order != [] {
      if NameLe(names[order[0]], names[i]) {
        SortedHead(names, order);
        StableTail(names, order);
        InsertStable(names, order[1..], i);
        InsertMembers(names, order[1..], i);
        StableCons(names, order[0], Insert(names, order[1..], i));
      } else {
        BeforeHead(names, order, i);
        StableCons(names, i, order);
      }
    }
  }

  /** The order is that of a stable sort. */
  lemma {:induction false} SortIsStable(names: seq<string>, n: nat)
    requires n <= |names|
    ensures Stable(names, SortPositions(names, n))
  {
    if n > 0 {
      var before := SortPositions(names, n - 1);
      SortIsStable(names, n - 1);
      SortPositionsSorted(names, n - 1);
      InsertStable(names, before, n - 1);
      assert SortPositions(names, n) == Insert(names, before, n - 1);
    }
  }

  function SortedOrder(names: seq<string>): (r: seq<nat>)
    ensures |r| == |names| && InRange(r, |names|)
  {
    SortPositions(names, |names|)
  }

  lemma SortedOrderSorts(names: seq<string>)
    ensures IsOrder(names, SortedOrder(names)) && Stable(names, SortedOrder(names))
  {
    SortPositionsSorted(names, |names|);
    SortPositionsDistinct(names, |names|);
    SortPositionsCover(names, |names|);
    SortIsStable(names, |names|);
  }

  lemma TailSet(a: seq<string>)
    requires a != [] && Distinct(a)
    ensures forall x :: x in a[1..] <==> x in a && x != a[0]
  {
    assert a == [a[0]] + a[1..];
  }

  lemma HeadIsLeast(a: seq<string>, x: string)
    requires Sorted(a) && x in a
    ensures NameLe(a[0], x)
  {
    NameLeTotal(x, x);
  }

  /** Two sorted lists of the same distinct names are equal. */
  lemma {:induction false} SortedUnique(a: seq<string>, b: seq<string>)
    requires Sorted(a) && Sorted(b) && Distinct(a) && Distinct(b)
    requires forall x :: x in a <==> x in b
    ensures a == b
  {
    assert b != [] ==> b[0] in b;
    if a != [] {
      assert a[0] in b;
      assert b[0] in a;
      HeadIsLeast(a, b[0]);
      HeadIsLeast(b, a[0]);
      NameLeTotal(a[0], b[0]);
      TailSet(a);
      TailSet(b);
      SortedUnique(a[1..], b[1..]);
      assert a == [a[0]] + a[1..] && b == [b[0]] + b[1..];
    }
  }

  // ----- the assignment -----

  /** Names in the order they choose: an occupied base grows underscores until it is free. */
  function Assign(sorted: seq<string>, occupied: set<string>, taken: set<string>): (r: seq<string>)
    ensures |r| == |sorted|
  {
    if sorted == [] then []
    else
      var base := Base(sorted[0]);
      if IsOccupied(occupied, base) then
        var chosen := FirstFree(taken, base + "_");
        [chosen] + Assign(sorted[1..], occupied, taken + {chosen})
      else [base] + Assign(sorted[1..], occupied, taken)
  }

  function Taken(names: seq<string>, occupied: set<string>): set<string> {
    occupied + {SENTINEL_MOD} + ToSet(Bases(names))
  }

  /** `out` gives each message the module it is assigned in sorted order. */
  ghost predicate Deconflicted(names: seq<string>, occupied: set<string>, out: seq<string>) {
    && |out| == |names|
    && var order := SortedOrder(names);
    && Pick(out, order) == Assign(Pick(names, order), occupied, Taken(names, occupied))
  }

  lemma NothingOccupied(names: seq<string>, occupied: set<string>)
    requires forall base | base in Bases(names) :: !IsOccupied(occupied, base)
    ensures Deconflicted(names, occupied, Bases(names))
  {
    var order := SortedOrder(names);
    var sorted := Pick(names, order);
    forall k | 0 <= k < |sorted| ensures !IsOccupied(occupied, Base(sorted[k])) {
      assert Bases(names)[order[k]] == Base(sorted[k]);
    }
    AssignFree(sorted, occupied, Taken(names, occupied));
  }

  method Grow(taken: set<string>, base: string) returns (candidate: string)
    ensures candidate == FirstFree(taken, base + "_")
  {
    candidate := base + "_";
    while candidate in taken
      invariant FirstFree(taken, candidate) == FirstFree(taken, base + "_")
      decreases |FirstFree(taken, base + "_")| - |candidate|
    {
      FirstFreeStep(taken, candidate);
      candidate := candidate + "_";
    }
  }

  /** The next choice, and what is left to assign after it. */
  lemma AssignStep(sorted: seq<string>, k: nat, occupied: set<string>, taken: set<string>)
    requires k < |sorted|
    ensures
      var base := Base(sorted[k]);
      var chosen := if IsOccupied(occupied, base) then FirstFree(taken, base + "_") else base;
      var taken' := if IsOccupied(occupied, base) then taken + {chosen} else taken;
      Assign(sorted[k..], occupied, taken) == [chosen] + Assign(sorted[k + 1..], occupied, taken')
  {
    assert sorted[k..][0] == sorted[k] && sorted[k..][1..] == sorted[k + 1..];
  }

  /** The names still to assign are the rest of those wanted: so are the next one and the rest after it. */
  lemma NextChoice(sorted: seq<string>, wanted: seq<string>, k: nat, occupied: set<string>, taken: set<string>)
    requires k < |sorted| == |wanted| && Assign(sorted[k..], occupied, taken) == wanted[k..]
    ensures
      var base := Base(sorted[k]);
      var chosen := if IsOccupied(occupied, base) then FirstFree(taken, base + "_") else base;
      var taken' := if IsOccupied(occupied, base) then taken + {chosen} else taken;
      wanted[k] == chosen && Assign(sorted[k + 1..], occupied, taken') == wanted[k + 1..]
  {
    AssignStep(sorted, k, occupied, taken);
    assert wanted[k..][1..] == wanted[k + 1..];
  }

  /** The first `k` positions in order hold their final module, the others still their base. */
  ghost predicate Progress(out: seq<string>, bases: seq<string>, order: seq<nat>, wanted: seq<string>, k: nat) {
    && |out| == |bases| && |wanted| == |order|
    && InRange(order, |bases|)
    && forall l | 0 <= l < |order| :: out[order[l]] == if l < k then wanted[l] else bases[order[l]]
  }

  lemma ProgressStep(out: seq<string>, bases: seq<string>, order: seq<nat>, wanted: seq<string>, k: nat)
    requires Progress(out, bases, order, wanted, k) && k < |order| && Distinct(order)
    ensures Progress(out[order[k] := wanted[k]], bases, order, wanted, k + 1)
  {
  }

  method DeconflictModules(names: seq<string>, occupied: set<string>) returns (out: seq<string>)
    ensures Deconflicted(names, occupied, out)
  {
    var bases := Bases(names);
    if !exists base | base in bases :: IsOccupied(occupied, base) {
      NothingOccupied(names, occupied);
      return bases;
    }
    var taken := Taken(names, occupied);
    out := bases;
    var order := SortedOrder(names);
    SortedOrderSorts(names);
    ghost var sorted := Pick(names, order);
    ghost var wanted := Assign(sorted, occupied, taken);
    for k := 0 to |order|
      invariant Progress(out, bases, order, wanted, k)
      invariant Assign(sorted[k..], occupied, taken) == wanted[k..]
    {
      var i := order[k];
      NextChoice(sorted, wanted, k, occupied, taken);
      ProgressStep(out, bases, order, wanted, k);
      if IsOccupied(occupied, bases[i]) {
        var candidate := Grow(taken, bases[i]);
        taken := taken + {candidate};
        out := out[i := candidate];
      } else {
        assert out[i := wanted[k]] == out;
      }
    }
    assert Pick(out, order) == wanted;
  }

  lemma {:induction false} AssignFree(sorted: seq<string>, occupied: set<string>, taken: set<string>)
    requires forall k | 0 <= k < |sorted| :: !IsOccupied(occupied, Base(sorted[k]))
    ensures Assign(sorted, occupied, taken) == Bases(sorted)
  {
    if sorted != [] {
      assert forall k | 0 <= k < |sorted[1..]| :: sorted[1..][k] == sorted[k + 1];
      AssignFree(sorted[1..], occupied, taken);
    }
  }

  // ----- what the assignment guarantees -----

  /** What is taken once the first name has chosen. */
  ghost function TakenNext(sorted: seq<string>, occupied: set<string>, taken: set<string>): (r: set<string>)
    requires sorted != []
    ensures IsOccupied(occupied, Base(sorted[0])) ==> Assign(sorted, occupied, taken)[0] in r
    ensures Assign(sorted, occupied, taken)[1..] == Assign(sorted[1..], occupied, r)
    ensures taken <= r && |r| <= |taken| + 1
  {
    var base := Base(sorted[0]);
    if IsOccupied(occupied, base) then taken + {FirstFree(taken, base + "_")} else taken
  }

  /** The names that are taken when name number `k` in order chooses. */
  ghost function TakenAt(sorted: seq<string>, occupied: set<string>, taken: set<string>, k: nat): (r: set<string>)
    requires k <= |sorted|
    ensures taken <= r && |r| <= |taken| + k
    decreases k
  {
    if k == 0 then taken
    else
      TakenAt(sorted[1..], occupied, TakenNext(sorted, occupied, taken), k - 1)
  }

  /** Each renamed module is the shortest free extension of its base at its turn. */
  lemma {:induction false} ChoiceAt(sorted: seq<string>, occupied: set<string>, taken: set<string>, k: nat)
    requires k < |sorted|
    ensures Assign(sorted, occupied, taken)[k] ==
            if IsOccupied(occupied, Base(sorted[k]))
            then FirstFree(TakenAt(sorted, occupied, taken, k), Base(sorted[k]) + "_")
            else Base(sorted[k])
  {
    if k > 0 {
      ChoiceAt(sorted[1..], occupied, TakenNext(sorted, occupied, taken), k - 1);
      assert Assign(sorted, occupied, taken)[k] == Assign(sorted, occupied, taken)[1..][k - 1];
    }
  }

  /** What was chosen earlier stays taken. */
  lemma {:induction false} ChosenStaysTaken(sorted: seq<string>, occupied: set<string>, taken: set<string>, j: nat,
                                            k: nat)
    requires j < k <= |sorted| && IsOccupied(occupied, Base(sorted[j]))
    ensures Assign(sorted, occupied, taken)[j] in TakenAt(sorted, occupied, taken, k)
  {
    var tail, taken' := sorted[1..], TakenNext(sorted, occupied, taken);
    assert TakenAt(sorted, occupied, taken, k) == TakenAt(tail, occupied, taken', k - 1);
    if j > 0 {
      ChosenStaysTaken(tail, occupied, taken', j - 1, k - 1);
      assert Assign(sorted, occupied, taken)[j] == Assign(tail, occupied, taken')[j - 1];
    }
  }

  /** The module of message `i`, by its place in the sorted order. */
  lemma ModuleChoice(names: seq<string>, occupied: set<string>, out: seq<string>, i: nat) returns (k: nat)
    requires Deconflicted(names, occupied, out) && i < |names|
    ensures k < |names| && SortedOrder(names)[k] == i
    ensures out[i] == Assign(Pick(names, SortedOrder(names)), occupied, Taken(names, occupied))[k]
    ensures out[i] ==
            if IsOccupied(occupied, Base(names[i]))
            then FirstFree(TakenAt(Pick(names, SortedOrder(names)), occupied, Taken(names, occupied), k),
                           Base(names[i]) + "_")
            else Base(names[i])
  {
    k := PlaceOf(names, i);
    var order := SortedOrder(names);
    assert Pick(out, order)[k] == out[i];
    ChoiceAt(Pick(names, order), occupied, Taken(names, occupied), k);
  }

  /** A renamed module avoids everything in its scope; a free base is kept. */
  lemma ModuleAvoidsScope(names: seq<string>, occupied: set<string>, out: seq<string>, i: nat)
    requires Deconflicted(names, occupied, out) && i < |names|
    ensures !IsOccupied(occupied, Base(names[i])) ==> out[i] == Base(names[i])
    ensures IsOccupied(occupied, Base(names[i])) ==> out[i] !in Taken(names, occupied)
    ensures IsOccupied(occupied, Base(names[i])) ==>
      exists n: nat | 0 < n <= 1 + |Taken(names, occupied)| + |names| :: out[i] == Base(names[i]) + Underscores(n)
    ensures !IsOccupied(occupied, out[i])
  {
    var k := ModuleChoice(names, occupied, out, i);
    var base := Base(names[i]);
    if IsOccupied(occupied, base) {
      var start := Taken(names, occupied);
      var n := ExtensionIs(start, TakenAt(Pick(names, SortedOrder(names)), occupied, start, k), occupied, base, out[i]);
    }
  }

  lemma ExtensionIs(start: set<string>, taken: set<string>, occupied: set<string>, base: string, m: string)
    returns (n: nat)
    requires occupied <= start <= taken && m == FirstFree(taken, base + "_")
    ensures 0 < n <= 1 + |taken| && m == base + Underscores(n)
    ensures m !in start && !IsOccupied(occupied, m)
  {
    n := FreeExtension(taken, base);
  }

  lemma FreeExtension(taken: set<string>, base: string) returns (n: nat)
    ensures var r := FirstFree(taken, base + "_");
            0 < n <= 1 + |taken| && r == base + Underscores(n) && r !in taken && r[|r| - 1] == '_'
  {
    var r := FirstFree(taken, base + "_");
    n := |r| - |base|;
    FirstFreeIs(taken, base + "_");
    UnderscoreFirst(base, n - 1);
    assert r[|r| - 1] == (base + Underscores(n))[|r| - 1];
  }

  lemma UnderscoreFirst(s: string, k: nat)
    ensures (s + "_") + Underscores(k) == s + Underscores(k + 1)
  {
  }

  /** A renamed module differs from every other module of the scope. */
  lemma RenamedIsUnique(names: seq<string>, occupied: set<string>, out: seq<string>, i: nat, j: nat)
    requires Deconflicted(names, occupied, out) && i < |names| && j < |names| && i != j
    requires IsOccupied(occupied, Base(names[i]))
    ensures out[i] != out[j]
  {
    if IsOccupied(occupied, Base(names[j])) {
      var k := ModuleChoice(names, occupied, out, i);
      var l := ModuleChoice(names, occupied, out, j);
      var sorted := Pick(names, SortedOrder(names));
      if k < l {
        ChoicesDiffer(sorted, occupied, Taken(names, occupied), k, l);
      } else {
        ChoicesDiffer(sorted, occupied, Taken(names, occupied), l, k);
      }
    } else {
      ModuleAvoidsScope(names, occupied, out, i);
      ModuleAvoidsScope(names, occupied, out, j);
      BaseIsTaken(names, occupied, j);
    }
  }

  lemma BaseIsTaken(names: seq<string>, occupied: set<string>, j: nat)
    requires j < |names|
    ensures Base(names[j]) in Taken(names, occupied)
  {
    assert Bases(names)[j] in Bases(names);
  }

  lemma ChoicesDiffer(sorted: seq<string>, occupied: set<string>, taken: set<string>, k: nat, l: nat)
    requires k < l < |sorted| && IsOccupied(occupied, Base(sorted[k])) && IsOccupied(occupied, Base(sorted[l]))
    ensures Assign(sorted, occupied, taken)[k] != Assign(sorted, occupied, taken)[l]
  {
    ChosenStaysTaken(sorted, occupied, taken, k, l);
    ChoiceAt(sorted, occupied, taken, l);
  }

  /** The modules of a scope are distinct exactly when the bases that stay are. */
  lemma ModulesDistinct(names: seq<string>, occupied: set<string>, out: seq<string>)
    requires Deconflicted(names, occupied, out)
    ensures Distinct(out) <==>
      forall i, j | 0 <= i < j < |names| && !IsOccupied(occupied, Base(names[i])) ::
        Base(names[i]) != Base(names[j])
  {
    forall i, j | 0 <= i < j < |names|
      ensures out[i] == out[j] <==> !IsOccupied(occupied, Base(names[i])) && Base(names[i]) == Base(names[j])
    {
      SameModule(names, occupied, out, i, j);
    }
  }

  lemma SameModule(names: seq<string>, occupied: set<string>, out: seq<string>, i: nat, j: nat)
    requires Deconflicted(names, occupied, out) && i < |names| && j < |names| && i != j
    ensures out[i] == out[j] <==> !IsOccupied(occupied, Base(names[i])) && Base(names[i]) == Base(names[j])
  {
    if IsOccupied(occupied, Base(names[i])) {
      RenamedIsUnique(names, occupied, out, i, j);
    } else if IsOccupied(occupied, Base(names[j])) {
      RenamedIsUnique(names, occupied, out, j, i);
    } else {
      ModuleAvoidsScope(names, occupied, out, i);
      ModuleAvoidsScope(names, occupied, out, j);
    }
  }

  /** The module of a message does not depend on where the message is declared. */
  lemma OrderIndependent(names1: seq<string>, out1: seq<string>, names2: seq<string>, out2: seq<string>,
                         occupied: set<string>, i: nat, j: nat)
    requires Deconflicted(names1, occupied, out1) && Deconflicted(names2, occupied, out2)
    requires Distinct(names1) && Distinct(names2) && forall x :: x in names1 <==> x in names2
    requires i < |names1| && j < |names2| && names1[i] == names2[j]
    ensures out1[i] == out2[j]
  {
    var sorted1 := SortedNames(names1);
    var sorted2 := SortedNames(names2);
    forall x ensures x in sorted1 <==> x in sorted2 {
      assert x in sorted1 <==> x in names1;
      assert x in sorted2 <==> x in names2;
    }
    SortedUnique(sorted1, sorted2);
    SameBases(names1, names2);
    var k := PlaceOf(names1, i);
    var l := PlaceOf(names2, j);
    assert sorted1[k] == sorted2[l];
    assert k == l;
    assert Pick(out1, SortedOrder(names1))[k] == out1[i] && Pick(out2, SortedOrder(names2))[l] == out2[j];
  }

  lemma SortedNames(names: seq<string>) returns (sorted: seq<string>)
    requires Distinct(names)
    ensures sorted == Pick(names, SortedOrder(names))
    ensures Sorted(sorted) && Distinct(sorted)
    ensures forall x :: x in sorted <==> x in names
  {
    var order := SortedOrder(names);
    SortedOrderSorts(names);
    sorted := Pick(names, order);
    forall x | x in names ensures x in sorted {
      var i :| 0 <= i < |names| && names[i] == x;
      var k := PlaceOf(names, i);
      assert sorted[k] == x;
    }
  }

  lemma SameBases(names1: seq<string>, names2: seq<string>)
    requires forall x :: x in names1 <==> x in names2
    ensures ToSet(Bases(names1)) == ToSet(Bases(names2))
  {
    BasesOf(names1);
    BasesOf(names2);
  }

  lemma BasesOf(names: seq<string>)
    ensures ToSet(Bases(names)) == set n | n in names :: Base(n)
  {
    forall n | n in names ensures Base(n) in Bases(names) {
      var i :| 0 <= i < |names| && names[i] == n;
      assert Bases(names)[i] == Base(n);
    }
  }

  // ----- the assignment as a function -----

  lemma DeconflictedUnique(names: seq<string>, occupied: set<string>, out1: seq<string>, out2: seq<string>)
    requires Deconflicted(names, occupied, out1) && Deconflicted(names, occupied, out2)
    ensures out1 == out2
  {
    forall i | 0 <= i < |names| ensures out1[i] == out2[i] {
      var k := PlaceOf(names, i);
      assert Pick(out1, SortedOrder(names))[k] == Pick(out2, SortedOrder(names))[k];
    }
  }

  ghost function PlaceOf(names: seq<string>, i: nat): (k: nat)
    requires i < |names|
    ensures k < |names| && SortedOrder(names)[k] == i
  {
    var order := SortedOrder(names);
    SortedOrderSorts(names);
    assert i in order;
    var k :| 0 <= k < |order| && order[k] == i;
    k
  }

  ghost function Modules(names: seq<string>, occupied: set<string>): (out: seq<string>)
    ensures Deconflicted(names, occupied, out)
    ensures |out| == |names|
  {
    var order := SortedOrder(names);
    SortedOrderSorts(names);
    var wanted := Assign(Pick(names, order), occupied, Taken(names, occupied));
    var out := seq(|names|, i requires 0 <= i < |names| => wanted[PlaceOf(names, i)]);
    assert forall k | 0 <= k < |order| :: PlaceOf(names, order[k]) == k;
    assert Pick(out, order) == wanted;
    out
  }

  // ----- what the order is -----

  /** `a` is a beginning of `b`, or has the smaller character where they first differ. */
  ghost predicate ComesFirst(a: string, b: string) {
    a <= b || exists k | 0 <= k < |a| && k < |b| :: a[..k] == b[..k] && a[k] < b[k]
  }

  lemma {:induction false} StringLeIs(a: string, b: string)
    ensures StringLe(a, b) <==> ComesFirst(a, b)
  {
    if a != "" && b != "" && a[0] == b[0] {
      StringLeIs(a[1..], b[1..]);
      TailsCompare(a, b);
    } else if a != "" && b != "" {
      assert a[..0] == b[..0];
      if k :| 0 <= k < |a| && k < |b| && a[..k] == b[..k] && a[k] < b[k] { assert k > 0 ==> a[..k][0] == b[..k][0]; }
    }
  }

  lemma TailsCompare(a: string, b: string)
    requires a != "" && b != "" && a[0] == b[0]
    ensures ComesFirst(a[1..], b[1..]) <==> ComesFirst(a, b)
  {
    assert a == [a[0]] + a[1..] && b == [b[0]] + b[1..];
    if k :| 0 <= k < |a[1..]| && k < |b[1..]| && a[1..][..k] == b[1..][..k] && a[1..][k] < b[1..][k] {
      assert a[..k + 1] == [a[0]] + a[1..][..k] && b[..k + 1] == [b[0]] + b[1..][..k];
      assert a[k + 1] < b[k + 1];
    }
    if k :| 0 <= k < |a| && k < |b| && a[..k] == b[..k] && a[k] < b[k] {
      assert a[1..][..k - 1] == a[..k][1..] && b[1..][..k - 1] == b[..k][1..];
    }
  }

  /** Messages choose in the order of their plain module names, and of their own names where those are equal. */
  lemma NameLeIs(a: string, b: string)
    ensures NameLe(a, b) <==>
            if ToSnakeCase(a) == ToSnakeCase(b) then ComesFirst(a, b) else ComesFirst(ToSnakeCase(a), ToSnakeCase(b))
  {
    StringLeIs(a, b);
    StringLeIs(ToSnakeCase(a), ToSnakeCase(b));
  }

  // ----- what a module has to avoid -----

  /** What is taken when name number `k` in order chooses: what was from the start, and what earlier ones chose. */
  lemma {:induction false} TakenMeans(sorted: seq<string>, occupied: set<string>, taken: set<string>, k: nat, x: string)
    requires k <= |sorted|
    ensures x in TakenAt(sorted, occupied, taken, k) <==>
            x in taken || exists j | 0 <= j < k :: ChoseAt(sorted, occupied, taken, j, x)
    decreases k
  {
    if k > 0 {
      var next, tail := TakenNext(sorted, occupied, taken), sorted[1..];
      TakenMeans(tail, occupied, next, k - 1, x);
      assert Assign(sorted, occupied, taken)[1..] == Assign(tail, occupied, next);
      forall j | 0 <= j < k - 1
        ensures ChoseAt(tail, occupied, next, j, x) <==> ChoseAt(sorted, occupied, taken, j + 1, x)
      {
        assert tail[j] == sorted[j + 1] && Assign(tail, occupied, next)[j] == Assign(sorted, occupied, taken)[j + 1];
      }
      assert x in next <==> x in taken || ChoseAt(sorted, occupied, taken, 0, x);
      if j :| 0 <= j < k && ChoseAt(sorted, occupied, taken, j, x) {
        if j > 0 { assert ChoseAt(tail, occupied, next, j - 1, x); }
      }
    }
  }

  ghost predicate ChoseAt(sorted: seq<string>, occupied: set<string>, taken: set<string>, j: nat, x: string)
    requires j < |sorted|
  {
    IsOccupied(occupied, Base(sorted[j])) && Assign(sorted, occupied, taken)[j] == x
  }

  /** A name that the message at place `k` of the order cannot choose. */
  ghost predicate Blocked(names: seq<string>, occupied: set<string>, out: seq<string>, k: nat, x: string)
    requires |out| == |names| && k < |names|
  {
    || x in occupied || x == "__buffa"
    || (exists j | 0 <= j < |names| :: ToSnakeCase(names[j]) == x)
    || (exists l | 0 <= l < k :: ChoseEarlier(names, occupied, out, l, x))
  }

  ghost predicate ChoseEarlier(names: seq<string>, occupied: set<string>, out: seq<string>, l: nat, x: string)
    requires |out| == |names| && l < |names|
  {
    var j := SortedOrder(names)[l];
    IsOccupied(occupied, ToSnakeCase(names[j])) && out[j] == x
  }

  /**
    A message whose plain module name is occupied or reserved gets the shortest extension of it by underscores that
    is not occupied, not the sentinel, not the plain module name of any message, and not chosen by an earlier one.
   */
  lemma ModuleIsShortest(names: seq<string>, occupied: set<string>, out: seq<string>, i: nat) returns (k: nat, n: nat)
    requires Deconflicted(names, occupied, out) && i < |names|
    requires ToSnakeCase(names[i]) in occupied || ToSnakeCase(names[i]) in ["self", "super", "crate", "arbitrary"]
    ensures |out| == |names| && k < |names| && SortedOrder(names)[k] == i
    ensures n > 0 && out[i] == ToSnakeCase(names[i]) + Underscores(n) && !Blocked(names, occupied, out, k, out[i])
    ensures forall m | 0 < m < n :: Blocked(names, occupied, out, k, ToSnakeCase(names[i]) + Underscores(m))
  {
    k := ModuleChoice(names, occupied, out, i);
    var base := Base(names[i]);
    var taken := TakenAt(Pick(names, SortedOrder(names)), occupied, Taken(names, occupied), k);
    n := ShortestFree(taken, base, out[i]);
    BlockedIs(names, occupied, out, k, out[i]);
    forall m | 0 < m < n
      ensures Blocked(names, occupied, out, k, base + Underscores(m))
    {
      BlockedIs(names, occupied, out, k, base + Underscores(m));
    }
  }

  lemma ShortestFree(taken: set<string>, base: string, r: string) returns (n: nat)
    requires r == FirstFree(taken, base + "_")
    ensures n > 0 && r == base + Underscores(n) && r !in taken
    ensures forall m | 0 < m < n :: base + Underscores(m) in taken
  {
    n := |r| - |base|;
    FirstFreeIs(taken, base + "_");
    UnderscoreFirst(base, n - 1);
    forall m | 0 < m < n
      ensures base + Underscores(m) in taken
    {
      UnderscoreFirst(base, m - 1);
    }
  }

  lemma BlockedIs(names: seq<string>, occupied: set<string>, out: seq<string>, k: nat, x: string)
    requires Deconflicted(names, occupied, out) && k < |names|
    ensures |out| == |names|
    ensures x in TakenAt(Pick(names, SortedOrder(names)), occupied, Taken(names, occupied), k) <==>
            Blocked(names, occupied, out, k, x)
  {
    var order := SortedOrder(names);
    var sorted, taken := Pick(names, order), Taken(names, occupied);
    TakenMeans(sorted, occupied, taken, k, x);
    assert Pick(out, order) == Assign(sorted, occupied, taken);
    forall l | 0 <= l < k ensures ChoseAt(sorted, occupied, taken, l, x) <==> ChoseEarlier(names, occupied, out, l, x) {
      assert Pick(out, order)[l] == out[order[l]];
    }
    BasesAre(names, x);
  }

  lemma BasesAre(names: seq<string>, x: string)
    ensures x in Bases(names) <==> exists j | 0 <= j < |names| :: ToSnakeCase(names[j]) == x
  {
    if j :| 0 <= j < |names| && ToSnakeCase(names[j]) == x { assert Bases(names)[j] == x; }
  }
}
