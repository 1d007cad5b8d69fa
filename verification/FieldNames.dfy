/**
  Planning of idiomatic field and oneof names (buffa-codegen/src/field_names.rs):
  per-message collision resolution, and the merge of its exceptions across messages.
 */
module FieldNames {
  import opened Text
  import opened Descriptors
  import SC = SnakeCase

  function Converted(m: Member): string { SC.SnakeCase(m.name) }

  predicate Changed(m: Member) { Converted(m) != m.name }

  /** `<converted>_f<number>`. */
  function Suffixed(m: Member): string
    requires m.number.Some?
  {
    Converted(m) + "_f" + Decimal(m.number.value)
  }

  // ----- the outcome for one message, stated on its members -----

  predicate Collides(ms: seq<Member>, i: nat)
    requires i < |ms|
  {
    exists j | 0 <= j < |ms| :: j != i && Converted(ms[j]) == Converted(ms[i])
  }

  /** First round: a changed field of a colliding group is suffixed, a changed oneof keeps its name. */
  function FirstChoice(ms: seq<Member>, i: nat): string
    requires i < |ms|
  {
    if !Changed(ms[i]) || !Collides(ms, i) then Converted(ms[i])
    else if ms[i].number.Some? then Suffixed(ms[i])
    else ms[i].name
  }

  function FirstChoices(ms: seq<Member>): (r: seq<string>)
    ensures |r| == |ms|
    ensures forall i | 0 <= i < |ms| :: r[i] == FirstChoice(ms, i)
  {
    seq(|ms|, i requires 0 <= i < |ms| => FirstChoice(ms, i))
  }

  /** Second round: a collision that is left sends every changed member back to its proto name. */
  ghost predicate Reverts(ms: seq<Member>) {
    !Distinct(FirstChoices(ms))
  }

  ghost function FinalName(ms: seq<Member>, i: nat): string
    requires i < |ms|
  {
    if Reverts(ms) && Changed(ms[i]) then ms[i].name else FirstChoice(ms, i)
  }

  ghost function FinalNames(ms: seq<Member>): (r: seq<string>)
    ensures |r| == |ms|
    ensures forall i | 0 <= i < |ms| :: r[i] == FinalName(ms, i)
  {
    seq(|ms|, i requires 0 <= i < |ms| => FinalName(ms, i))
  }

  /** How far a name is from the plain conversion: 0 plain, 1 suffixed, 2 verbatim. */
  function NameAtRank(m: Member, rank: nat): string {
    if rank == 0 then Converted(m)
    else if rank == 1 && m.number.Some? then Suffixed(m)
    else m.name
  }

  ghost function RankIn(ms: seq<Member>, i: nat): (r: nat)
    requires i < |ms|
    ensures r <= 2
  {
    if !Changed(ms[i]) then 0
    else if Reverts(ms) then 2
    else if !Collides(ms, i) then 0
    else if ms[i].number.Some? then 1
    else 2
  }

  lemma RankNames(ms: seq<Member>, i: nat)
    requires i < |ms|
    ensures FinalName(ms, i) == NameAtRank(ms[i], RankIn(ms, i))
  {
  }

  /** Equal members of one message have equal ranks. */
  lemma RankOfEqualMembers(ms: seq<Member>, i: nat, j: nat)
    requires i < |ms| && j < |ms| && ms[i] == ms[j]
    ensures RankIn(ms, i) == RankIn(ms, j)
  {
    if i != j {
      assert Collides(ms, i) && Collides(ms, j);
    }
  }

  // ----- shapes of names -----

  lemma SuffixShape(m: Member)
    requires m.number.Some?
    ensures NoUpper(Suffixed(m))
    ensures Suffixed(m) != Converted(m)
    ensures Changed(m) ==> Suffixed(m) != m.name
  {
    SC.InsertionOnly(m.name);
    SC.Unchanged(m.name);
    var d := Decimal(m.number.value);
    assert |Suffixed(m)| == |Converted(m)| + 2 + |d|;
    assert forall i | 0 <= i < |d| :: !IsUpper(d[i]);
  }

  /** The suffix can be read back: it starts at the last underscore. */
  lemma SuffixedInjective(a: Member, b: Member)
    requires a.number.Some? && b.number.Some? && Suffixed(a) == Suffixed(b)
    ensures Converted(a) == Converted(b) && a.number == b.number
  {
    var ca, da := Converted(a), Decimal(a.number.value);
    var cb, db := Converted(b), Decimal(b.number.value);
    var s := Suffixed(a);
    assert s == ca + "_f" + da && s == cb + "_f" + db;
    assert s[|ca|] == '_' && s[|cb|] == '_';
    assert forall i | |ca| < i < |s| :: s[i] != '_' by {
      forall i | |ca| + 2 <= i < |s| ensures s[i] != '_' { assert s[i] == da[i - |ca| - 2]; }
    }
    assert forall i | |cb| < i < |s| :: s[i] != '_' by {
      forall i | |cb| + 2 <= i < |s| ensures s[i] != '_' { assert s[i] == db[i - |cb| - 2]; }
    }
    assert |ca| == |cb|;
    assert s[..|ca|] == ca && s[..|cb|] == cb;
    assert s[|ca| + 2..] == da && s[|cb| + 2..] == db;
    DecimalInjective(a.number.value, b.number.value);
  }

  /** A converted or suffixed name has no uppercase letter; a changed proto name has one. */
  lemma VerbatimStandsApart(a: Member, b: Member, rank: nat)
    requires Changed(a) && rank < 2 && (b.number.Some? || rank == 0)
    ensures a.name != NameAtRank(b, rank)
  {
    SC.Unchanged(a.name);
    SC.InsertionOnly(b.name);
    if b.number.Some? { SuffixShape(b); }
  }

  /** A message's own plan always ends with pairwise distinct names. */
  lemma OwnNamesDistinct(ms: seq<Member>)
    requires ValidMembers(ms)
    ensures Distinct(FinalNames(ms))
  {
    if Reverts(ms) {
      forall i | 0 <= i < |ms| ensures FinalNames(ms)[i] == ms[i].name {
        assert FinalName(ms, i) == ms[i].name;
      }
    } else {
      assert FinalNames(ms) == FirstChoices(ms);
    }
  }

  // ----- the merge over all messages -----

  /** The rank message `ms` gives member `m`: 0 when it does not declare it or leaves it alone. */
  ghost function ProposedRank(ms: seq<Member>, m: Member): (r: nat)
    ensures r <= 2
    ensures forall i | 0 <= i < |ms| && ms[i] == m :: RankIn(ms, i) == r
    ensures m !in ms ==> r == 0
  {
    if m in ms then
      var i :| 0 <= i < |ms| && ms[i] == m;
      assert forall j | 0 <= j < |ms| && ms[j] == m :: RankIn(ms, j) == RankIn(ms, i) by {
        forall j | 0 <= j < |ms| && ms[j] == m ensures RankIn(ms, j) == RankIn(ms, i) {
          RankOfEqualMembers(ms, i, j);
        }
      }
      RankIn(ms, i)
    else 0
  }

  function Max(a: nat, b: nat): nat { if a >= b then a else b }

  /** The merged rank of a member: the join of the ranks the messages propose. */
  ghost function MergedRank(msgs: seq<seq<Member>>, m: Member): (r: nat)
    ensures r <= 2
  {
    if msgs == [] then 0
    else Max(MergedRank(msgs[..|msgs| - 1], m), ProposedRank(msgs[|msgs| - 1], m))
  }

  lemma {:induction false} MergedRankIsJoin(msgs: seq<seq<Member>>, m: Member)
    ensures forall ms | ms in msgs :: ProposedRank(ms, m) <= MergedRank(msgs, m)
    ensures MergedRank(msgs, m) == 0 || exists ms | ms in msgs :: ProposedRank(ms, m) == MergedRank(msgs, m)
  {
    if msgs != [] {
      var init, last := msgs[..|msgs| - 1], msgs[|msgs| - 1];
      assert msgs == init + [last];
      MergedRankIsJoin(init, m);
    }
  }

  function Key(m: Member): (string, int)
    requires m.number.Some?
  {
    (m.name, m.number.value)
  }

  /** The tables hold exactly the members of positive rank, each with the name of its rank. */
  ghost predicate Tables(renames: map<(string, int), string>, verbatim: set<string>, msgs: seq<seq<Member>>) {
    && (forall m: Member | m.number.Some? ::
          && (Key(m) in renames <==> MergedRank(msgs, m) > 0)
          && (Key(m) in renames ==> renames[Key(m)] == NameAtRank(m, MergedRank(msgs, m))))
    && (forall m: Member | m.number.None? :: m.name in verbatim <==> MergedRank(msgs, m) > 0)
  }

  // ----- lookups -----

  function PlannedFieldName(idiomatic: bool, renames: map<(string, int), string>, name: string, number: int): string {
    if !idiomatic then name
    else if (name, number) in renames then renames[(name, number)]
    else SC.SnakeCase(name)
  }

  function PlannedOneofName(idiomatic: bool, verbatim: set<string>, name: string): string {
    if !idiomatic || name in verbatim then name else SC.SnakeCase(name)
  }

  function PlannedName(idiomatic: bool, renames: map<(string, int), string>, verbatim: set<string>, m: Member): string {
    if m.number.Some? then PlannedFieldName(idiomatic, renames, m.name, m.number.value)
    else PlannedOneofName(idiomatic, verbatim, m.name)
  }

  /** A oneof is never suffixed. */
  lemma {:induction false} OneofRank(msgs: seq<seq<Member>>, m: Member)
    requires m.number.None?
    ensures MergedRank(msgs, m) != 1
  {
    if msgs != [] {
      OneofRank(msgs[..|msgs| - 1], m);
      var ms := msgs[|msgs| - 1];
      if m in ms {
        var i :| 0 <= i < |ms| && ms[i] == m;
        assert ProposedRank(ms, m) == RankIn(ms, i);
      }
    }
  }

  /** Every lookup yields the name of the member's merged rank. */
  lemma LookupByRank(renames: map<(string, int), string>, verbatim: set<string>, msgs: seq<seq<Member>>, m: Member)
    requires Tables(renames, verbatim, msgs)
    ensures PlannedName(true, renames, verbatim, m) == NameAtRank(m, MergedRank(msgs, m))
  {
    if m.number.None? { OneofRank(msgs, m); }
  }

  /** A name that is in snake_case already is never touched. */
  lemma {:induction false} SnakeNamesUntouched(msgs: seq<seq<Member>>, m: Member)
    requires NoUpper(m.name)
    ensures MergedRank(msgs, m) == 0
  {
    SC.Unchanged(m.name);
    if msgs != [] {
      SnakeNamesUntouched(msgs[..|msgs| - 1], m);
      var ms := msgs[|msgs| - 1];
      if m in ms {
        var i :| 0 <= i < |ms| && ms[i] == m;
        assert ProposedRank(ms, m) == RankIn(ms, i);
      }
    }
  }

  /** The merge does not depend on the order, or the multiplicity, of the messages. */
  lemma MergeIgnoresOrder(
    r1: map<(string, int), string>, v1: set<string>, msgs1: seq<seq<Member>>,
    r2: map<(string, int), string>, v2: set<string>, msgs2: seq<seq<Member>>)
    requires Tables(r1, v1, msgs1) && Tables(r2, v2, msgs2)
    requires forall ms :: ms in msgs1 <==> ms in msgs2
    ensures r1 == r2 && v1 == v2
  {
    forall m ensures MergedRank(msgs1, m) == MergedRank(msgs2, m) {
      MergedRankIsJoin(msgs1, m);
      MergedRankIsJoin(msgs2, m);
    }
    forall k: (string, int)
      ensures k in r1 <==> k in r2
      ensures k in r1 ==> r1[k] == r2[k]
    {
      assert k == Key(Member(k.0, Some(k.1)));
    }
    forall name: string ensures name in v1 <==> name in v2 {
      assert name == Member(name, None).name;
    }
  }

  // ----- uniqueness after the merge -----

  ghost function ResolvedNames(msgs: seq<seq<Member>>, ms: seq<Member>): (r: seq<string>)
    ensures |r| == |ms|
    ensures forall i | 0 <= i < |ms| :: r[i] == NameAtRank(ms[i], MergedRank(msgs, ms[i]))
  {
    seq(|ms|, i requires 0 <= i < |ms| => NameAtRank(ms[i], MergedRank(msgs, ms[i])))
  }

  /** Field `ms[a]` collides with nothing in its own message, but takes the suffix another message gives it. */
  ghost predicate InheritsSuffix(msgs: seq<seq<Member>>, ms: seq<Member>, a: nat)
    requires a < |ms|
  {
    ms[a].number.Some? && RankIn(ms, a) == 0 && MergedRank(msgs, ms[a]) == 1
  }

  /** A member that no message adjusts converts to the very name that `ms[a]` inherits. */
  ghost predicate InheritedClash(msgs: seq<seq<Member>>, ms: seq<Member>) {
    exists a, b | 0 <= a < |ms| && 0 <= b < |ms| ::
      InheritsSuffix(msgs, ms, a) && MergedRank(msgs, ms[b]) == 0 && Converted(ms[b]) == Suffixed(ms[a])
  }

  lemma OwnRankBelowMerged(msgs: seq<seq<Member>>, ms: seq<Member>, i: nat)
    requires ms in msgs && i < |ms|
    ensures RankIn(ms, i) <= MergedRank(msgs, ms[i])
  {
    MergedRankIsJoin(msgs, ms[i]);
    assert RankIn(ms, i) == ProposedRank(ms, ms[i]);
  }

  lemma OwnNamesSeparate(ms: seq<Member>, i: nat, j: nat)
    requires ValidMembers(ms) && i < |ms| && j < |ms| && i != j
    ensures NameAtRank(ms[i], RankIn(ms, i)) != NameAtRank(ms[j], RankIn(ms, j))
  {
    OwnNamesDistinct(ms);
    RankNames(ms, i);
    RankNames(ms, j);
    assert FinalNames(ms)[i] == FinalName(ms, i) && FinalNames(ms)[j] == FinalName(ms, j);
  }

  lemma PositiveRankIsChanged(msgs: seq<seq<Member>>, m: Member)
    requires MergedRank(msgs, m) > 0
    ensures Changed(m)
  {
    SC.Unchanged(m.name);
    if NoUpper(m.name) { SnakeNamesUntouched(msgs, m); }
  }

  /** Two members share their name after the merge only where one inherits a suffix that the other spells. */
  lemma SharedNameIsInherited(msgs: seq<seq<Member>>, ms: seq<Member>, i: nat, j: nat)
    requires ms in msgs && ValidMembers(ms) && i < |ms| && j < |ms| && i != j
    requires MergedRank(msgs, ms[i]) >= MergedRank(msgs, ms[j])
    requires NameAtRank(ms[i], MergedRank(msgs, ms[i])) == NameAtRank(ms[j], MergedRank(msgs, ms[j]))
    ensures InheritsSuffix(msgs, ms, i) && MergedRank(msgs, ms[j]) == 0 && Converted(ms[j]) == Suffixed(ms[i])
  {
    var ri, rj := MergedRank(msgs, ms[i]), MergedRank(msgs, ms[j]);
    SharedNameRanks(msgs, ms, i, j);
    OwnRankBelowMerged(msgs, ms, i);
    OwnRankBelowMerged(msgs, ms, j);
    if RankIn(ms, i) == ri { OwnNamesSeparate(ms, i, j); }
  }

  lemma SharedNameRanks(msgs: seq<seq<Member>>, ms: seq<Member>, i: nat, j: nat)
    requires ms in msgs && ValidMembers(ms) && i < |ms| && j < |ms| && i != j
    requires MergedRank(msgs, ms[i]) >= MergedRank(msgs, ms[j])
    requires NameAtRank(ms[i], MergedRank(msgs, ms[i])) == NameAtRank(ms[j], MergedRank(msgs, ms[j]))
    ensures MergedRank(msgs, ms[i]) < 2 && MergedRank(msgs, ms[j]) == 0
    ensures MergedRank(msgs, ms[i]) == 1 ==> ms[i].number.Some?
  {
    var ri, rj := MergedRank(msgs, ms[i]), MergedRank(msgs, ms[j]);
    if ms[i].number.None? { OneofRank(msgs, ms[i]); }
    if ms[j].number.None? { OneofRank(msgs, ms[j]); }
    if ri == 2 && rj < 2 {
      PositiveRankIsChanged(msgs, ms[i]);
      VerbatimStandsApart(ms[i], ms[j], rj);
    } else if ri == 1 && rj == 1 {
      SuffixedInjective(ms[i], ms[j]);
    }
  }

  /** After the merge the names of a message are pairwise distinct unless it inherits a clash. */
  lemma ResolvedNamesDistinct(msgs: seq<seq<Member>>, ms: seq<Member>)
    requires ms in msgs && ValidMembers(ms)
    ensures Distinct(ResolvedNames(msgs, ms)) <==> !InheritedClash(msgs, ms)
  {
    var names := ResolvedNames(msgs, ms);
    if !Distinct(names) {
      var i, j :| 0 <= i < j < |ms| && names[i] == names[j];
      if MergedRank(msgs, ms[i]) >= MergedRank(msgs, ms[j]) {
        SharedNameIsInherited(msgs, ms, i, j);
      } else {
        SharedNameIsInherited(msgs, ms, j, i);
      }
    }
    if InheritedClash(msgs, ms) {
      var a, b :| 0 <= a < |ms| && 0 <= b < |ms| &&
        InheritsSuffix(msgs, ms, a) && MergedRank(msgs, ms[b]) == 0 && Converted(ms[b]) == Suffixed(ms[a]);
      assert names[a] == names[b] && a != b;
    }
  }

  // ----- the planner -----

  /** `IdiomaticFieldNamesAdjusted`: the members of one message whose names were adjusted. */
  datatype Warning = NamesAdjusted(messageName: string, assignments: set<(string, string)>)

  class FieldNamePlan {
    var fieldRenames: map<(string, int), string>
    var oneofKeepVerbatim: set<string>
    var warnings: seq<Warning>

    constructor ()
      ensures fieldRenames == map[] && oneofKeepVerbatim == {} && warnings == []
    {
      fieldRenames, oneofKeepVerbatim, warnings := map[], {}, [];
    }

    ghost predicate Merges(msgs: seq<seq<Member>>)
      reads this
    {
      Tables(fieldRenames, oneofKeepVerbatim, msgs)
    }
  }

  ghost predicate HasCollision(ms: seq<Member>) {
    exists i | 0 <= i < |ms| :: Collides(ms, i)
  }

  /** The positions of the members whose name the message adjusts. */
  ghost function AdjustedIn(ms: seq<Member>): set<nat> {
    set i: nat | i < |ms| && RankIn(ms, i) > 0
  }

  ghost function AssignmentsAt(ms: seq<Member>, finals: seq<string>, at: set<nat>): set<(string, string)> {
    set i | i in at && i < |ms| && i < |finals| :: (ms[i].name, finals[i])
  }

  ghost function Assignments(ms: seq<Member>): set<(string, string)> {
    AssignmentsAt(ms, FinalNames(ms), AdjustedIn(ms))
  }

  ghost function NamesAt(fqn: string, ms: seq<Member>, at: set<nat>): set<(string, string)> {
    set i | i in at && i < |ms| :: (fqn, ms[i].name)
  }

  ghost function WarnedNames(fqn: string, ms: seq<Member>): set<(string, string)> {
    NamesAt(fqn, ms, AdjustedIn(ms))
  }

  /** `group` lists, in order, the positions before `n` that convert to `key`. */
  ghost predicate IsGroup(group: seq<nat>, converted: seq<string>, key: string, n: nat)
    requires n <= |converted|
  {
    && (forall s, t | 0 <= s < t < |group| :: group[s] < group[t])
    && (forall i: nat :: i in group <==> i < n && converted[i] == key)
  }

  lemma GroupGrows(group: seq<nat>, converted: seq<string>, n: nat)
    requires n < |converted| && IsGroup(group, converted, converted[n], n)
    ensures IsGroup(group + [n], converted, converted[n], n + 1)
  {
    forall t | 0 <= t < |group| ensures group[t] < n { assert group[t] in group; }
  }

  /** `groups` has the group of `key` among the positions before `n`, if there is any. */
  ghost predicate HasGroup(groups: map<string, seq<nat>>, converted: seq<string>, n: nat, key: string)
    requires n <= |converted|
  {
    && (key in groups <==> key in converted[..n])
    && (key in groups ==> IsGroup(groups[key], converted, key, n))
  }

  ghost predicate Grouped(groups: map<string, seq<nat>>, converted: seq<string>, n: nat)
    requires n <= |converted|
  {
    forall key :: HasGroup(groups, converted, n, key)
  }

  lemma GroupedStep(groups: map<string, seq<nat>>, converted: seq<string>, n: nat)
    requires n < |converted| && Grouped(groups, converted, n)
    ensures var key := converted[n];
            Grouped(groups[key := (if key in groups then groups[key] else []) + [n]], converted, n + 1)
  {
    var key := converted[n];
    var group := if key in groups then groups[key] else [];
    var after: map<string, seq<nat>> := groups[key := group + [n]];
    forall k: string
      ensures k in after <==> k in converted[..n + 1]
      ensures k in after ==> IsGroup(after[k], converted, k, n + 1)
    {
      assert HasGroup(groups, converted, n, k);
      OneMoreName(converted, n, k);
      if k == key {
        if key !in groups { NoGroupIsEmpty(converted, n); }
        GroupGrows(group, converted, n);
      } else if k in groups {
        GroupStays(groups[k], converted, k, n);
      }
    }
  }

  lemma NoGroupIsEmpty(converted: seq<string>, n: nat)
    requires n < |converted| && converted[n] !in converted[..n]
    ensures IsGroup([], converted, converted[n], n)
  {
    forall j | 0 <= j < n ensures converted[j] != converted[n] {
      assert converted[j] in converted[..n];
    }
  }

  lemma OneMoreName(names: seq<string>, n: nat, name: string)
    requires n < |names|
    ensures name in names[..n + 1] <==> name in names[..n] || name == names[n]
  {
    assert names[..n + 1] == names[..n] + [names[n]];
  }

  lemma GroupStays(group: seq<nat>, converted: seq<string>, key: string, n: nat)
    requires n < |converted| && converted[n] != key && IsGroup(group, converted, key, n)
    ensures IsGroup(group, converted, key, n + 1)
  {
  }

  method GroupByConversion(converted: seq<string>) returns (groups: map<string, seq<nat>>)
    ensures forall key :: key in groups <==> key in converted
    ensures forall key | key in groups :: IsGroup(groups[key], converted, key, |converted|)
  {
    groups := map[];
    for i := 0 to |converted|
      invariant Grouped(groups, converted, i)
    {
      var key := converted[i];
      GroupedStep(groups, converted, i);
      groups := groups[key := (if key in groups then groups[key] else []) + [i]];
    }
    assert converted[..|converted|] == converted;
    forall key
      ensures key in groups <==> key in converted
      ensures key in groups ==> IsGroup(groups[key], converted, key, |converted|)
    {
      assert HasGroup(groups, converted, |converted|, key);
    }
  }

  ghost predicate ConvertedFrom(ms: seq<Member>, converted: seq<string>) {
    |converted| == |ms| && forall i | 0 <= i < |ms| :: converted[i] == Converted(ms[i])
  }

  /** A group has two members exactly when each of them collides. */
  lemma GroupCollides(ms: seq<Member>, converted: seq<string>, group: seq<nat>, i: nat)
    requires ConvertedFrom(ms, converted) && i < |ms|
    requires IsGroup(group, converted, converted[i], |converted|)
    ensures |group| > 1 <==> Collides(ms, i)
  {
    assert i in group;
    if |group| > 1 {
      var j := if group[0] == i then group[1] else group[0];
      assert j in group;
    }
    if Collides(ms, i) {
      var j :| 0 <= j < |ms| && j != i && Converted(ms[j]) == Converted(ms[i]);
      assert j in group;
    }
  }

  /** The state of the first round when the members at `done` are settled. */
  ghost predicate Settled(ms: seq<Member>, finals: seq<string>, adjusted: seq<nat>, done: set<nat>) {
    && |finals| == |ms|
    && (forall i: nat {:trigger finals[i]} | i < |ms| ::
      finals[i] == if i in done then FirstChoice(ms, i) else Converted(ms[i]))
    && (forall i: nat {:trigger i in adjusted} :: i in adjusted <==> i < |ms| && i in done && Changed(ms[i]))
  }

  lemma SettleOne(ms: seq<Member>, finals: seq<string>, adjusted: seq<nat>, done: set<nat>, i: nat)
    requires Settled(ms, finals, adjusted, done) && i < |ms| && Collides(ms, i)
    ensures Changed(ms[i]) ==> Settled(ms, finals[i := FirstChoice(ms, i)], adjusted + [i], done + {i})
    ensures !Changed(ms[i]) ==> Settled(ms, finals, adjusted, done + {i})
  {
  }

  method ResolveGroup(ms: seq<Member>, group: seq<nat>, finals0: seq<string>, adjusted0: seq<nat>, ghost done: set<nat>)
    returns (finals: seq<string>, adjusted: seq<nat>)
    requires forall i | i in group :: i < |ms| && Collides(ms, i)
    requires Settled(ms, finals0, adjusted0, done)
    ensures Settled(ms, finals, adjusted, done + ToSet(group))
  {
    finals, adjusted := finals0, adjusted0;
    ghost var settled := done;
    for t := 0 to |group|
      invariant settled == done + ToSet(group[..t])
      invariant Settled(ms, finals, adjusted, settled)
    {
      var i := group[t];
      assert i in group;
      assert group[..t + 1] == group[..t] + [i];
      SettleOne(ms, finals, adjusted, settled, i);
      settled := settled + {i};
      var m := ms[i];
      var converted := SC.IdiomaticSnakeCase(m.name);
      if converted == m.name { continue; }
      var choice := if m.number.Some? then converted + "_f" + Decimal(m.number.value) else m.name;
      assert choice == FirstChoice(ms, i);
      finals, adjusted := finals[i := choice], adjusted + [i];
    }
    assert group[..|group|] == group;
  }

  ghost predicate MembersOf(ms: seq<Member>, key: string, group: seq<nat>) {
    forall i: nat :: i in group <==> i < |ms| && Converted(ms[i]) == key
  }

  /** The colliding groups, each with the positions of its members. */
  ghost predicate CollidingGroups(ms: seq<Member>, colliding: map<string, seq<nat>>) {
    && (forall i: nat | i < |ms| :: Converted(ms[i]) in colliding <==> Collides(ms, i))
    && (forall key | key in colliding :: MembersOf(ms, key, colliding[key]))
  }

  lemma GroupPositions(ms: seq<Member>, colliding: map<string, seq<nat>>, key: string)
    requires CollidingGroups(ms, colliding) && key in colliding
    ensures forall i: nat :: i in colliding[key] <==> i < |ms| && Converted(ms[i]) == key
    ensures forall i | i in colliding[key] :: i < |ms| && Collides(ms, i)
  {
    assert MembersOf(ms, key, colliding[key]);
  }

  /** `done` has the positions of the groups that are no longer to do. */
  ghost predicate Visited(ms: seq<Member>, colliding: map<string, seq<nat>>, todo: set<string>, done: set<nat>) {
    forall i: nat :: i in done <==> i < |ms| && Converted(ms[i]) in colliding && Converted(ms[i]) !in todo
  }

  lemma DoneStep(ms: seq<Member>, colliding: map<string, seq<nat>>, todo: set<string>, key: string, done: set<nat>)
    requires CollidingGroups(ms, colliding) && key in todo && key in colliding && Visited(ms, colliding, todo, done)
    ensures Visited(ms, colliding, todo - {key}, done + ToSet(colliding[key]))
  {
    GroupPositions(ms, colliding, key);
  }

  /** First round: visits the colliding groups in no particular order. */
  method ResolveGroups(ms: seq<Member>, converted: seq<string>, colliding: map<string, seq<nat>>)
    returns (finals: seq<string>, adjusted: seq<nat>)
    requires ConvertedFrom(ms, converted) && CollidingGroups(ms, colliding)
    ensures finals == FirstChoices(ms)
    ensures forall i: nat {:trigger i in adjusted} :: i in adjusted <==> i < |ms| && Changed(ms[i]) && Collides(ms, i)
  {
    finals, adjusted := converted, [];
    var todo := colliding.Keys;
    ghost var done: set<nat> := {};
    while todo != {}
      invariant todo <= colliding.Keys
      invariant Visited(ms, colliding, todo, done)
      invariant Settled(ms, finals, adjusted, done)
    {
      var key :| key in todo;
      var group := colliding[key];
      GroupPositions(ms, colliding, key);
      finals, adjusted := ResolveGroup(ms, group, finals, adjusted, done);
      DoneStep(ms, colliding, todo, key, done);
      done, todo := done + ToSet(group), todo - {key};
    }
    FirstRoundDone(ms, finals, adjusted, done);
  }

  lemma FirstRoundDone(ms: seq<Member>, finals: seq<string>, adjusted: seq<nat>, done: set<nat>)
    requires Settled(ms, finals, adjusted, done)
    requires forall i: nat :: i in done <==> i < |ms| && Collides(ms, i)
    ensures finals == FirstChoices(ms)
    ensures forall i: nat {:trigger i in adjusted} :: i in adjusted <==> i < |ms| && Changed(ms[i]) && Collides(ms, i)
  {
  }

  /** Second round: if a name is still shared, every changed member reverts to its proto name. */
  method RevertIfShared(ms: seq<Member>, converted: seq<string>, finals0: seq<string>, adjusted0: seq<nat>)
    returns (finals: seq<string>, adjusted: seq<nat>)
    requires ConvertedFrom(ms, converted) && finals0 == FirstChoices(ms)
    requires forall i: nat {:trigger i in adjusted0} ::
      i in adjusted0 <==> i < |ms| && Changed(ms[i]) && Collides(ms, i)
    ensures finals == FinalNames(ms) && ToSet(adjusted) == AdjustedIn(ms)
  {
    finals, adjusted := finals0, adjusted0;
    var unique := ToSet(finals);
    DistinctByCount(finals);
    if |unique| != |finals| {
      for i := 0 to |ms|
        invariant |finals| == |ms|
        invariant forall j {:trigger finals[j]} | 0 <= j < |ms| ::
          finals[j] == if j < i && Changed(ms[j]) then ms[j].name else FirstChoice(ms, j)
        invariant forall j: nat {:trigger j in adjusted} :: j in adjusted <==>
          j < |ms| && Changed(ms[j]) && (j < i || Collides(ms, j))
      {
        if converted[i] != ms[i].name {
          finals := finals[i := ms[i].name];
          if i !in adjusted { adjusted := adjusted + [i]; }
        }
      }
    }
  }

  /** The rank of an entry, read off its name as the merge does. */
  function EntryRank(name: string, value: string): nat {
    if value == name then 2 else 1
  }

  lemma EntryRankIsRank(m: Member, rank: nat)
    requires m.number.Some? && Changed(m) && 0 < rank <= 2
    ensures EntryRank(m.name, NameAtRank(m, rank)) == rank
  {
    SuffixShape(m);
  }

  // ----- recording the exceptions of one message -----

  lemma MergedWithOneMore(done: seq<seq<Member>>, ms: seq<Member>, m: Member)
    ensures MergedRank(done + [ms], m) == Max(MergedRank(done, m), ProposedRank(ms, m))
  {
    assert (done + [ms])[..|done|] == done;
  }

  /** The rank of `m` when the members in `recorded` of the next message `ms` have been merged. */
  ghost function RankSoFar(done: seq<seq<Member>>, ms: seq<Member>, recorded: set<Member>, m: Member): nat {
    MergedRank(if m in recorded then done + [ms] else done, m)
  }

  /** What the tables hold for one member. */
  ghost predicate RecordedAt(renames: map<(string, int), string>, verbatim: set<string>, m: Member, rank: nat) {
    if m.number.Some? then
      (Key(m) in renames <==> rank > 0) && (Key(m) in renames ==> renames[Key(m)] == NameAtRank(m, rank))
    else m.name in verbatim <==> rank > 0
  }

  ghost predicate Recording(renames: map<(string, int), string>, verbatim: set<string>,
                            done: seq<seq<Member>>, ms: seq<Member>, recorded: set<Member>) {
    forall m: Member :: RecordedAt(renames, verbatim, m, RankSoFar(done, ms, recorded, m))
  }

  /** Members outside the adjusted ones keep the rank they had. */
  lemma RecordingDone(renames: map<(string, int), string>, verbatim: set<string>,
                      done: seq<seq<Member>>, ms: seq<Member>, recorded: set<Member>)
    requires Recording(renames, verbatim, done, ms, recorded)
    requires forall i | 0 <= i < |ms| && RankIn(ms, i) > 0 :: ms[i] in recorded
    ensures Tables(renames, verbatim, done + [ms])
  {
    forall m: Member ensures RecordedAt(renames, verbatim, m, MergedRank(done + [ms], m)) {
      assert RecordedAt(renames, verbatim, m, RankSoFar(done, ms, recorded, m));
      MergedWithOneMore(done, ms, m);
    }
  }

  /** Recording one adjusted field: the entry is replaced exactly when the new rank is higher. */
  lemma RecordField(renames: map<(string, int), string>, verbatim: set<string>,
                    done: seq<seq<Member>>, ms: seq<Member>, recorded: set<Member>, m: Member)
    requires Recording(renames, verbatim, done, ms, recorded)
    requires m.number.Some? && Changed(m) && ProposedRank(ms, m) > 0
    ensures
      var name := NameAtRank(m, ProposedRank(ms, m));
      var replace := Key(m) !in renames || EntryRank(m.name, name) > EntryRank(m.name, renames[Key(m)]);
      Recording(if replace then renames[Key(m) := name] else renames, verbatim, done, ms, recorded + {m})
  {
    var name := NameAtRank(m, ProposedRank(ms, m));
    var replace := Key(m) !in renames || EntryRank(m.name, name) > EntryRank(m.name, renames[Key(m)]);
    var after := if replace then renames[Key(m) := name] else renames;
    MergedWithOneMore(done, ms, m);
    ReplacesWhenHigher(renames, verbatim, done, ms, recorded, m);
    forall other: Member ensures RecordedAt(after, verbatim, other, RankSoFar(done, ms, recorded + {m}, other)) {
      assert RecordedAt(renames, verbatim, other, RankSoFar(done, ms, recorded, other));
      if other != m { KeysDiffer(other, m); }
    }
  }

  lemma KeysDiffer(other: Member, m: Member)
    requires other != m && m.number.Some?
    ensures other.number.Some? ==> Key(other) != Key(m)
  {
  }

  /** The entry afterwards is the one of the higher rank. */
  lemma ReplacesWhenHigher(renames: map<(string, int), string>, verbatim: set<string>,
                           done: seq<seq<Member>>, ms: seq<Member>, recorded: set<Member>, m: Member)
    requires Recording(renames, verbatim, done, ms, recorded)
    requires m.number.Some? && Changed(m) && ProposedRank(ms, m) > 0
    ensures
      var name := NameAtRank(m, ProposedRank(ms, m));
      var replace := Key(m) !in renames || EntryRank(m.name, name) > EntryRank(m.name, renames[Key(m)]);
      (if replace then name else renames[Key(m)]) == NameAtRank(m, MergedRank(done + [ms], m))
  {
    assert RecordedAt(renames, verbatim, m, RankSoFar(done, ms, recorded, m));
    MergedWithOneMore(done, ms, m);
    EntryRankIsRank(m, ProposedRank(ms, m));
    if MergedRank(done, m) > 0 { EntryRankIsRank(m, MergedRank(done, m)); }
    EntryRankIsRank(m, MergedRank(done + [ms], m));
  }

  lemma RecordOneof(renames: map<(string, int), string>, verbatim: set<string>,
                    done: seq<seq<Member>>, ms: seq<Member>, recorded: set<Member>, m: Member)
    requires Recording(renames, verbatim, done, ms, recorded)
    requires m.number.None? && ProposedRank(ms, m) > 0
    ensures Recording(renames, verbatim + {m.name}, done, ms, recorded + {m})
  {
    MergedWithOneMore(done, ms, m);
    forall other: Member
      ensures RecordedAt(renames, verbatim + {m.name}, other, RankSoFar(done, ms, recorded + {m}, other))
    {
      assert RecordedAt(renames, verbatim, other, RankSoFar(done, ms, recorded, other));
    }
  }

  method RecordOne(plan: FieldNamePlan, m: Member, name: string,
                   ghost done: seq<seq<Member>>, ghost ms: seq<Member>, ghost recorded: set<Member>)
    requires Recording(plan.fieldRenames, plan.oneofKeepVerbatim, done, ms, recorded)
    requires Changed(m) && ProposedRank(ms, m) > 0 && name == NameAtRank(m, ProposedRank(ms, m))
    modifies plan`fieldRenames, plan`oneofKeepVerbatim
    ensures Recording(plan.fieldRenames, plan.oneofKeepVerbatim, done, ms, recorded + {m})
  {
    if m.number.Some? {
      RecordField(plan.fieldRenames, plan.oneofKeepVerbatim, done, ms, recorded, m);
      var key := (m.name, m.number.value);
      var replace := key !in plan.fieldRenames ||
        EntryRank(m.name, name) > EntryRank(m.name, plan.fieldRenames[key]);
      if replace {
        plan.fieldRenames := plan.fieldRenames[key := name];
      }
    } else {
      RecordOneof(plan.fieldRenames, plan.oneofKeepVerbatim, done, ms, recorded, m);
      plan.oneofKeepVerbatim := plan.oneofKeepVerbatim + {m.name};
    }
  }

  ghost function MembersAt(ms: seq<Member>, at: set<nat>): set<Member> {
    set i | i in at && i < |ms| :: ms[i]
  }

  lemma OneMoreAt(ms: seq<Member>, finals: seq<string>, at: set<nat>, i: nat, fqn: string)
    requires i < |ms| == |finals|
    ensures MembersAt(ms, at + {i}) == MembersAt(ms, at) + {ms[i]}
    ensures AssignmentsAt(ms, finals, at + {i}) == AssignmentsAt(ms, finals, at) + {(ms[i].name, finals[i])}
    ensures NamesAt(fqn, ms, at + {i}) == NamesAt(fqn, ms, at) + {(fqn, ms[i].name)}
  {
  }

  lemma AdjustedMember(ms: seq<Member>, finals: seq<string>, i: nat)
    requires finals == FinalNames(ms) && i in AdjustedIn(ms)
    ensures i < |ms| && Changed(ms[i]) && ProposedRank(ms, ms[i]) > 0
    ensures finals[i] == NameAtRank(ms[i], ProposedRank(ms, ms[i]))
  {
    RankNames(ms, i);
    assert ProposedRank(ms, ms[i]) == RankIn(ms, i);
  }

  lemma AllRecorded(renames: map<(string, int), string>, verbatim: set<string>, done: seq<seq<Member>>, ms: seq<Member>)
    requires Recording(renames, verbatim, done, ms, MembersAt(ms, AdjustedIn(ms)))
    ensures Tables(renames, verbatim, done + [ms])
  {
    RecordingDone(renames, verbatim, done, ms, MembersAt(ms, AdjustedIn(ms)));
  }

  /** What has been collected when the first `t` adjusted members are done. */
  ghost predicate Collecting(ms: seq<Member>, finals: seq<string>, fqn: string, adjusted: seq<nat>, t: nat,
                             assignments: set<(string, string)>, warned0: set<(string, string)>,
                             warned: set<(string, string)>)
    requires t <= |adjusted|
  {
    && assignments == AssignmentsAt(ms, finals, ToSet(adjusted[..t]))
    && warned == warned0 + NamesAt(fqn, ms, ToSet(adjusted[..t]))
  }

  lemma CollectingStep(ms: seq<Member>, finals: seq<string>, fqn: string, adjusted: seq<nat>, t: nat,
                       assignments: set<(string, string)>, warned0: set<(string, string)>,
                       warned: set<(string, string)>)
    requires t < |adjusted| && Collecting(ms, finals, fqn, adjusted, t, assignments, warned0, warned)
    requires finals == FinalNames(ms) && ToSet(adjusted) == AdjustedIn(ms)
    ensures
      var i := adjusted[t];
      && i < |ms| && Changed(ms[i]) && ProposedRank(ms, ms[i]) > 0
      && finals[i] == NameAtRank(ms[i], ProposedRank(ms, ms[i]))
      && MembersAt(ms, ToSet(adjusted[..t + 1])) == MembersAt(ms, ToSet(adjusted[..t])) + {ms[i]}
      && Collecting(ms, finals, fqn, adjusted, t + 1, assignments + {(ms[i].name, finals[i])}, warned0,
                    warned + {(fqn, ms[i].name)})
  {
    var i := adjusted[t];
    assert i in ToSet(adjusted);
    PrefixSet(adjusted, t);
    AdjustedMember(ms, finals, i);
    OneMoreAt(ms, finals, ToSet(adjusted[..t]), i, fqn);
  }

  method RecordAdjusted(plan: FieldNamePlan, fqn: string, ms: seq<Member>, finals: seq<string>, adjusted: seq<nat>,
                        warned0: set<(string, string)>, ghost done: seq<seq<Member>>)
    returns (warned: set<(string, string)>)
    requires plan.Merges(done)
    requires finals == FinalNames(ms) && ToSet(adjusted) == AdjustedIn(ms)
    modifies plan
    ensures plan.Merges(done + [ms])
    ensures plan.warnings == old(plan.warnings) + [NamesAdjusted(fqn, Assignments(ms))]
    ensures warned == warned0 + WarnedNames(fqn, ms)
  {
    var assignments: set<(string, string)>;
    assignments, warned := RecordEach(plan, fqn, ms, finals, adjusted, warned0, done);
    AllOfThem(adjusted);
    AllRecorded(plan.fieldRenames, plan.oneofKeepVerbatim, done, ms);
    plan.warnings := plan.warnings + [NamesAdjusted(fqn, assignments)];
  }

  method RecordEach(plan: FieldNamePlan, fqn: string, ms: seq<Member>, finals: seq<string>, adjusted: seq<nat>,
                    warned0: set<(string, string)>, ghost done: seq<seq<Member>>)
    returns (assignments: set<(string, string)>, warned: set<(string, string)>)
    requires Tables(plan.fieldRenames, plan.oneofKeepVerbatim, done)
    requires finals == FinalNames(ms) && ToSet(adjusted) == AdjustedIn(ms)
    modifies plan`fieldRenames, plan`oneofKeepVerbatim
    ensures Recording(plan.fieldRenames, plan.oneofKeepVerbatim, done, ms, MembersAt(ms, ToSet(adjusted[..|adjusted|])))
    ensures Collecting(ms, finals, fqn, adjusted, |adjusted|, assignments, warned0, warned)
  {
    assignments, warned := {}, warned0;
    assert MembersAt(ms, ToSet(adjusted[..0])) == {};
    for t := 0 to |adjusted|
      invariant Collecting(ms, finals, fqn, adjusted, t, assignments, warned0, warned)
      invariant Recording(plan.fieldRenames, plan.oneofKeepVerbatim, done, ms, MembersAt(ms, ToSet(adjusted[..t])))
    {
      CollectingStep(ms, finals, fqn, adjusted, t, assignments, warned0, warned);
      var i := adjusted[t];
      assignments := assignments + {(ms[i].name, finals[i])};
      warned := warned + {(fqn, ms[i].name)};
      RecordOne(plan, ms[i], finals[i], done, ms, MembersAt(ms, ToSet(adjusted[..t])));
    }
  }

  /** A message without a collision adjusts nothing. */
  lemma NoCollision(renames: map<(string, int), string>, verbatim: set<string>,
                    done: seq<seq<Member>>, fqn: string, ms: seq<Member>)
    requires !HasCollision(ms) && Tables(renames, verbatim, done)
    ensures Tables(renames, verbatim, done + [ms]) && WarnedNames(fqn, ms) == {}
  {
    forall i, j | 0 <= i < j < |ms| ensures FirstChoices(ms)[i] != FirstChoices(ms)[j] {
      assert !Collides(ms, i) && !Collides(ms, j);
    }
    assert !Reverts(ms);
    forall i: nat | i < |ms| ensures RankIn(ms, i) == 0 {
      assert !Collides(ms, i);
    }
    RecordingDone(renames, verbatim, done, ms, {});
  }

  lemma GroupsCollide(ms: seq<Member>, converted: seq<string>, groups: map<string, seq<nat>>,
                      colliding: map<string, seq<nat>>)
    requires ConvertedFrom(ms, converted)
    requires forall key :: key in groups <==> key in converted
    requires forall key | key in groups :: IsGroup(groups[key], converted, key, |converted|)
    requires colliding == map key | key in groups && |groups[key]| > 1 :: groups[key]
    ensures CollidingGroups(ms, colliding)
    ensures colliding != map[] ==> HasCollision(ms)
    ensures colliding == map[] ==> !HasCollision(ms)
  {
    forall i: nat | i < |ms| ensures Converted(ms[i]) in colliding <==> Collides(ms, i) {
      GroupCollides(ms, converted, groups[converted[i]], i);
    }
    forall key | key in colliding ensures MembersOf(ms, key, colliding[key]) {
      assert IsGroup(groups[key], converted, key, |converted|);
    }
    if colliding != map[] {
      var key :| key in colliding;
      var i := groups[key][0];
      assert i in groups[key];
      assert Converted(ms[i]) in colliding;
    }
  }

  method ConvertAll(ms: seq<Member>) returns (converted: seq<string>)
    ensures ConvertedFrom(ms, converted)
  {
    converted := [];
    for i := 0 to |ms|
      invariant |converted| == i
      invariant forall j | 0 <= j < i :: converted[j] == Converted(ms[j])
    {
      var c := SC.IdiomaticSnakeCase(ms[i].name);
      converted := converted + [c];
    }
  }

  method PlanMessage(plan: FieldNamePlan, fqn: string, msg: Message, warned0: set<(string, string)>,
                     ghost done: seq<seq<Member>>)
    returns (warned: set<(string, string)>)
    requires plan.Merges(done)
    modifies plan
    ensures plan.Merges(done + [StructMembers(msg)])
    ensures warned == warned0 + WarnedNames(fqn, StructMembers(msg))
    ensures plan.warnings == old(plan.warnings) +
      if HasCollision(StructMembers(msg)) then [NamesAdjusted(fqn, Assignments(StructMembers(msg)))] else []
  {
    var members := CollectStructMembers(msg);
    var converted := ConvertAll(members);
    var groups := GroupByConversion(converted);
    var colliding := map key | key in groups && |groups[key]| > 1 :: groups[key];
    GroupsCollide(members, converted, groups, colliding);
    if colliding == map[] {
      NoCollision(plan.fieldRenames, plan.oneofKeepVerbatim, done, fqn, members);
      return warned0;
    }
    var finals, adjusted := ResolveGroups(members, converted, colliding);
    finals, adjusted := RevertIfShared(members, converted, finals, adjusted);
    warned := RecordAdjusted(plan, fqn, members, finals, adjusted, warned0, done);
  }

  // ----- the warnings for inherited adjustments -----

  /** The adjustments `msg` takes from the merged tables without having recorded them itself. */
  ghost function InheritedFields(fqn: string, fields: seq<Field>, renames: map<(string, int), string>,
                                 warned: set<(string, string)>): set<(string, string)> {
    set f | f in fields && f.name.Some? && !IsRealOneofMember(f) && (fqn, f.name.value) !in warned
            && (f.name.value, f.number.GetOr(0)) in renames
          :: (f.name.value, renames[(f.name.value, f.number.GetOr(0))])
  }

  ghost function InheritedOneofs(fqn: string, oneofs: seq<Oneof>, verbatim: set<string>,
                                 warned: set<(string, string)>): set<(string, string)> {
    set o | o in oneofs && o.name.Some? && (fqn, o.name.value) !in warned && o.name.value in verbatim
            && SC.SnakeCase(o.name.value) != o.name.value
          :: (o.name.value, o.name.value)
  }

  ghost function Inherited(fqn: string, msg: Message, renames: map<(string, int), string>, verbatim: set<string>,
                           warned: set<(string, string)>): set<(string, string)> {
    InheritedFields(fqn, msg.fields, renames, warned) + InheritedOneofs(fqn, msg.oneofs, verbatim, warned)
  }

  method SweepInherited(plan: FieldNamePlan, fqn: string, msg: Message, warned: set<(string, string)>)
    modifies plan`warnings
    ensures
      var inherited := Inherited(fqn, msg, plan.fieldRenames, plan.oneofKeepVerbatim, warned);
      plan.warnings == old(plan.warnings) + if inherited == {} then [] else [NamesAdjusted(fqn, inherited)]
  {
    var inherited: set<(string, string)> := {};
    for i := 0 to |msg.fields|
      invariant inherited == InheritedFields(fqn, msg.fields[..i], plan.fieldRenames, warned)
      invariant plan.warnings == old(plan.warnings)
    {
      assert msg.fields[..i + 1] == msg.fields[..i] + [msg.fields[i]];
      var field := msg.fields[i];
      if field.name.None? || IsRealOneofMember(field) { continue; }
      var name := field.name.value;
      if (fqn, name) in warned { continue; }
      var key := (name, field.number.GetOr(0));
      if key in plan.fieldRenames {
        inherited := inherited + {(name, plan.fieldRenames[key])};
      }
    }
    assert msg.fields[..|msg.fields|] == msg.fields;
    ghost var fromFields := inherited;
    for i := 0 to |msg.oneofs|
      invariant inherited == fromFields + InheritedOneofs(fqn, msg.oneofs[..i], plan.oneofKeepVerbatim, warned)
      invariant plan.warnings == old(plan.warnings)
    {
      assert msg.oneofs[..i + 1] == msg.oneofs[..i] + [msg.oneofs[i]];
      if msg.oneofs[i].name.None? { continue; }
      var name := msg.oneofs[i].name.value;
      var converted := SC.IdiomaticSnakeCase(name);
      if (fqn, name) in warned || name !in plan.oneofKeepVerbatim || converted == name { continue; }
      inherited := inherited + {(name, name)};
    }
    assert msg.oneofs[..|msg.oneofs|] == msg.oneofs;
    if inherited != {} {
      plan.warnings := plan.warnings + [NamesAdjusted(fqn, inherited)];
    }
  }

  lemma {:induction false} FieldMemberSource(fields: seq<Field>, m: Member)
    requires m in FieldMembers(fields)
    ensures m.number.Some?
    ensures exists f | f in fields ::
      f.name == Some(m.name) && !IsRealOneofMember(f) && f.number.GetOr(0) == m.number.value
  {
    var init, last := fields[..|fields| - 1], fields[|fields| - 1];
    if m in FieldMembers(init) {
      FieldMemberSource(init, m);
      var f :| f in init && f.name == Some(m.name) && !IsRealOneofMember(f) && f.number.GetOr(0) == m.number.value;
      assert f in fields;
    } else {
      assert last in fields;
    }
  }

  lemma {:induction false} OneofMemberSource(oneofs: seq<Oneof>, used: set<int>, m: Member)
    requires m in OneofMembers(oneofs, used)
    ensures m.number.None? && Oneof(Some(m.name)) in oneofs
  {
    var init := oneofs[..|oneofs| - 1];
    if m in OneofMembers(init, used) {
      OneofMemberSource(init, used, m);
    }
  }

  // ----- the whole pass -----

  ghost function MembersOfAll(scopes: seq<Scope>): (r: seq<seq<Member>>)
    ensures |r| == |scopes|
    ensures forall i | 0 <= i < |scopes| :: r[i] == StructMembers(scopes[i].msg)
  {
    seq(|scopes|, i requires 0 <= i < |scopes| => StructMembers(scopes[i].msg))
  }

  /** Some warning for the message named `fqn` lists the member `name`. */
  ghost predicate Listed(warnings: seq<Warning>, fqn: string, name: string) {
    exists w, a | w in warnings && a in w.assignments :: w.messageName == fqn && a.0 == name
  }

  lemma ListedMore(warnings: seq<Warning>, more: seq<Warning>, fqn: string, name: string)
    requires Listed(warnings, fqn, name) || Listed(more, fqn, name)
    ensures Listed(warnings + more, fqn, name)
  {
    if Listed(warnings, fqn, name) {
      var w, a :| w in warnings && a in w.assignments && w.messageName == fqn && a.0 == name;
      assert w in warnings + more;
    } else {
      var w, a :| w in more && a in w.assignments && w.messageName == fqn && a.0 == name;
      assert w in warnings + more;
    }
  }

  /** The warning that a message records for its own collisions lists all it adjusts. */
  lemma OwnAdjustmentsListed(fqn: string, ms: seq<Member>, name: string)
    requires (fqn, name) in WarnedNames(fqn, ms)
    ensures HasCollision(ms)
    ensures Listed([NamesAdjusted(fqn, Assignments(ms))], fqn, name)
  {
    var i :| i in AdjustedIn(ms) && ms[i].name == name;
    if !HasCollision(ms) {
      NoCollision(map[], {}, [], fqn, ms);
    }
    var w := NamesAdjusted(fqn, Assignments(ms));
    assert (name, FinalNames(ms)[i]) in w.assignments;
    assert w in [w];
  }

  lemma InheritedListed(msgs: seq<seq<Member>>, renames: map<(string, int), string>, verbatim: set<string>,
                        sc: Scope, warned: set<(string, string)>, m: Member)
    requires Tables(renames, verbatim, msgs) && m in StructMembers(sc.msg) && MergedRank(msgs, m) > 0
    requires (sc.fqn, m.name) !in warned
    ensures
      var inherited := Inherited(sc.fqn, sc.msg, renames, verbatim, warned);
      inherited != {} && Listed([NamesAdjusted(sc.fqn, inherited)], sc.fqn, m.name)
  {
    var inherited := Inherited(sc.fqn, sc.msg, renames, verbatim, warned);
    var w := NamesAdjusted(sc.fqn, inherited);
    assert w in [w];
    PositiveRankIsChanged(msgs, m);
    if m in FieldMembers(sc.msg.fields) {
      FieldMemberSource(sc.msg.fields, m);
      assert (m.name, renames[Key(m)]) in inherited;
    } else {
      OneofMemberSource(sc.msg.oneofs, RealOneofs(sc.msg.fields), m);
      assert (m.name, m.name) in inherited;
    }
  }

  /** Every member that the merge adjusts is listed in a warning for its own message. */
  ghost predicate AllListed(scopes: seq<Scope>, msgs: seq<seq<Member>>, warnings: seq<Warning>) {
    forall sc, m | sc in scopes && m in StructMembers(sc.msg) && MergedRank(msgs, m) > 0 ::
      Listed(warnings, sc.fqn, m.name)
  }

  ghost predicate WarnedListed(warned: set<(string, string)>, warnings: seq<Warning>) {
    forall p | p in warned :: Listed(warnings, p.0, p.1)
  }

  lemma WarnedListedStep(warned: set<(string, string)>, warnings: seq<Warning>, fqn: string, ms: seq<Member>)
    requires WarnedListed(warned, warnings)
    ensures WarnedListed(warned + WarnedNames(fqn, ms),
                         warnings + if HasCollision(ms) then [NamesAdjusted(fqn, Assignments(ms))] else [])
  {
    var more := if HasCollision(ms) then [NamesAdjusted(fqn, Assignments(ms))] else [];
    forall p | p in warned + WarnedNames(fqn, ms) ensures Listed(warnings + more, p.0, p.1) {
      if p !in warned { OwnAdjustmentsListed(fqn, ms, p.1); }
      ListedMore(warnings, more, p.0, p.1);
    }
  }

  // ----- nothing else is listed -----

  /** A field outside the real oneofs, or a oneof, the synthetic ones among them. */
  predicate Declares(msg: Message, m: Member) {
    if m.number.Some? then m in FieldMembers(msg.fields) else Oneof(Some(m.name)) in msg.oneofs
  }

  /** The message `sc` declares the member that `a` lists, and the merge takes it at least to the name `a` gives. */
  ghost predicate Explains(msgs: seq<seq<Member>>, fqn: string, a: (string, string), sc: Scope, m: Member, rank: nat) {
    && sc.fqn == fqn && Declares(sc.msg, m) && a == (m.name, NameAtRank(m, rank))
    && 0 < rank <= MergedRank(msgs, m)
  }

  ghost predicate Explained(scopes: seq<Scope>, msgs: seq<seq<Member>>, fqn: string, a: (string, string)) {
    exists sc, m, rank | sc in scopes :: Explains(msgs, fqn, a, sc, m, rank)
  }

  ghost predicate OnlyAdjusted(scopes: seq<Scope>, msgs: seq<seq<Member>>, warnings: seq<Warning>) {
    forall w, a | w in warnings && a in w.assignments :: Explained(scopes, msgs, w.messageName, a)
  }

  lemma OwnExplained(scopes: seq<Scope>, sc: Scope, msgs: seq<seq<Member>>, a: (string, string))
    requires sc in scopes && StructMembers(sc.msg) in msgs && a in Assignments(StructMembers(sc.msg))
    ensures Explained(scopes, msgs, sc.fqn, a)
  {
    var ms := StructMembers(sc.msg);
    var i :| i in AdjustedIn(ms) && a == (ms[i].name, FinalNames(ms)[i]);
    AdjustedMember(ms, FinalNames(ms), i);
    MergedRankIsJoin(msgs, ms[i]);
    if ms[i] in FieldMembers(sc.msg.fields) {
      FieldMemberSource(sc.msg.fields, ms[i]);
    } else {
      OneofMemberSource(sc.msg.oneofs, RealOneofs(sc.msg.fields), ms[i]);
    }
    assert Explains(msgs, sc.fqn, a, sc, ms[i], ProposedRank(ms, ms[i]));
  }

  lemma {:induction false} FieldIsMember(fields: seq<Field>, f: Field)
    requires f in fields && f.name.Some? && !IsRealOneofMember(f)
    ensures Member(f.name.value, Some(f.number.GetOr(0))) in FieldMembers(fields)
  {
    if f != fields[|fields| - 1] { FieldIsMember(fields[..|fields| - 1], f); }
  }

  lemma InheritedExplained(scopes: seq<Scope>, sc: Scope, msgs: seq<seq<Member>>, renames: map<(string, int), string>,
                           verbatim: set<string>, warned: set<(string, string)>, a: (string, string))
    requires sc in scopes && Tables(renames, verbatim, msgs)
      && a in Inherited(sc.fqn, sc.msg, renames, verbatim, warned)
    ensures Explained(scopes, msgs, sc.fqn, a)
  {
    if a in InheritedFields(sc.fqn, sc.msg.fields, renames, warned) {
      var f :| f in sc.msg.fields && f.name.Some? && !IsRealOneofMember(f) && a.0 == f.name.value
               && (f.name.value, f.number.GetOr(0)) in renames && a.1 == renames[(f.name.value, f.number.GetOr(0))];
      var m := Member(f.name.value, Some(f.number.GetOr(0)));
      FieldIsMember(sc.msg.fields, f);
      assert Key(m) in renames;
      assert Explains(msgs, sc.fqn, a, sc, m, MergedRank(msgs, m));
    } else {
      var m := Member(a.0, None);
      assert Oneof(Some(a.0)) in sc.msg.oneofs && m.name in verbatim;
      assert Explains(msgs, sc.fqn, a, sc, m, MergedRank(msgs, m));
    }
  }

  lemma OwnWarning(scopes: seq<Scope>, k: nat, warnings: seq<Warning>)
    requires k < |scopes| && OnlyAdjusted(scopes, MembersOfAll(scopes), warnings)
    ensures
      var ms := StructMembers(scopes[k].msg);
      OnlyAdjusted(scopes, MembersOfAll(scopes),
                   warnings + if HasCollision(ms) then [NamesAdjusted(scopes[k].fqn, Assignments(ms))] else [])
  {
    var ms := StructMembers(scopes[k].msg);
    assert MembersOfAll(scopes)[k] == ms;
    forall a | a in Assignments(ms) ensures Explained(scopes, MembersOfAll(scopes), scopes[k].fqn, a) {
      OwnExplained(scopes, scopes[k], MembersOfAll(scopes), a);
    }
  }

  lemma InheritedWarning(scopes: seq<Scope>, k: nat, msgs: seq<seq<Member>>, renames: map<(string, int), string>,
                         verbatim: set<string>, warnings: seq<Warning>, warned: set<(string, string)>)
    requires k < |scopes| && Tables(renames, verbatim, msgs) && OnlyAdjusted(scopes, msgs, warnings)
    ensures
      var inherited := Inherited(scopes[k].fqn, scopes[k].msg, renames, verbatim, warned);
      OnlyAdjusted(scopes, msgs, warnings + if inherited == {} then [] else [NamesAdjusted(scopes[k].fqn, inherited)])
  {
    var inherited := Inherited(scopes[k].fqn, scopes[k].msg, renames, verbatim, warned);
    forall a | a in inherited ensures Explained(scopes, msgs, scopes[k].fqn, a) {
      InheritedExplained(scopes, scopes[k], msgs, renames, verbatim, warned, a);
    }
  }

  method PlanCollisions(plan: FieldNamePlan, scopes: seq<Scope>) returns (warned: set<(string, string)>)
    requires plan.Merges([]) && plan.warnings == []
    modifies plan
    ensures plan.Merges(MembersOfAll(scopes))
    ensures WarnedListed(warned, plan.warnings) && OnlyAdjusted(scopes, MembersOfAll(scopes), plan.warnings)
  {
    ghost var msgs := MembersOfAll(scopes);
    warned := {};
    for k := 0 to |scopes|
      invariant plan.Merges(msgs[..k])
      invariant WarnedListed(warned, plan.warnings)
      invariant OnlyAdjusted(scopes, msgs, plan.warnings)
    {
      WarnedListedStep(warned, plan.warnings, scopes[k].fqn, msgs[k]);
      OwnWarning(scopes, k, plan.warnings);
      warned := PlanMessage(plan, scopes[k].fqn, scopes[k].msg, warned, msgs[..k]);
      assert msgs[..k + 1] == msgs[..k] + [msgs[k]];
    }
    assert msgs[..|scopes|] == msgs;
  }

  lemma SweepStep(done: seq<Scope>, sc: Scope, msgs: seq<seq<Member>>, renames: map<(string, int), string>,
                  verbatim: set<string>, warnings: seq<Warning>, warned: set<(string, string)>)
    requires Tables(renames, verbatim, msgs) && WarnedListed(warned, warnings) && AllListed(done, msgs, warnings)
    ensures
      var inherited := Inherited(sc.fqn, sc.msg, renames, verbatim, warned);
      var after := warnings + if inherited == {} then [] else [NamesAdjusted(sc.fqn, inherited)];
      WarnedListed(warned, after) && AllListed(done + [sc], msgs, after)
  {
    var inherited := Inherited(sc.fqn, sc.msg, renames, verbatim, warned);
    var more := if inherited == {} then [] else [NamesAdjusted(sc.fqn, inherited)];
    forall p | p in warned ensures Listed(warnings + more, p.0, p.1) {
      ListedMore(warnings, more, p.0, p.1);
    }
    forall s, m | s in done + [sc] && m in StructMembers(s.msg) && MergedRank(msgs, m) > 0
      ensures Listed(warnings + more, s.fqn, m.name)
    {
      if s !in done && (s.fqn, m.name) !in warned { InheritedListed(msgs, renames, verbatim, s, warned, m); }
      if (s.fqn, m.name) in warned { assert Listed(warnings, (s.fqn, m.name).0, (s.fqn, m.name).1); }
      ListedMore(warnings, more, s.fqn, m.name);
    }
  }

  lemma SweepNext(scopes: seq<Scope>, k: nat, msgs: seq<seq<Member>>, renames: map<(string, int), string>,
                  verbatim: set<string>, warnings: seq<Warning>, warned: set<(string, string)>)
    requires k < |scopes| && Tables(renames, verbatim, msgs)
    requires WarnedListed(warned, warnings) && AllListed(scopes[..k], msgs, warnings)
    ensures
      var inherited := Inherited(scopes[k].fqn, scopes[k].msg, renames, verbatim, warned);
      var after := warnings + if inherited == {} then [] else [NamesAdjusted(scopes[k].fqn, inherited)];
      WarnedListed(warned, after) && AllListed(scopes[..k + 1], msgs, after)
  {
    OneLonger(scopes, k);
    SweepStep(scopes[..k], scopes[k], msgs, renames, verbatim, warnings, warned);
  }

  method SweepAll(plan: FieldNamePlan, scopes: seq<Scope>, warned: set<(string, string)>)
    requires plan.Merges(MembersOfAll(scopes)) && WarnedListed(warned, plan.warnings)
    requires OnlyAdjusted(scopes, MembersOfAll(scopes), plan.warnings)
    modifies plan`warnings
    ensures plan.Merges(MembersOfAll(scopes))
    ensures AllListed(scopes, MembersOfAll(scopes), plan.warnings)
    ensures OnlyAdjusted(scopes, MembersOfAll(scopes), plan.warnings)
  {
    ghost var msgs, renames, verbatim := MembersOfAll(scopes), plan.fieldRenames, plan.oneofKeepVerbatim;
    for k := 0 to |scopes|
      invariant plan.fieldRenames == renames && plan.oneofKeepVerbatim == verbatim
      invariant WarnedListed(warned, plan.warnings)
      invariant AllListed(scopes[..k], msgs, plan.warnings)
      invariant OnlyAdjusted(scopes, msgs, plan.warnings)
    {
      InheritedWarning(scopes, k, msgs, renames, verbatim, plan.warnings, warned);
      SweepNext(scopes, k, msgs, renames, verbatim, plan.warnings, warned);
      SweepInherited(plan, scopes[k].fqn, scopes[k].msg, warned);
    }
    AllOfThem(scopes);
  }

  method PlanFieldNames(files: seq<File>) returns (plan: FieldNamePlan)
    ensures fresh(plan)
    ensures plan.Merges(MembersOfAll(MessagesInFiles(files)))
    ensures AllListed(MessagesInFiles(files), MembersOfAll(MessagesInFiles(files)), plan.warnings)
    ensures OnlyAdjusted(MessagesInFiles(files), MembersOfAll(MessagesInFiles(files)), plan.warnings)
  {
    plan := new FieldNamePlan();
    var scopes := MessagesInFiles(files);
    var warned := PlanCollisions(plan, scopes);
    SweepAll(plan, scopes, warned);
  }

  /** A looked-up name differs from the plain conversion exactly for the adjusted members. */
  lemma AdjustedMeansRenamed(plan: FieldNamePlan, msgs: seq<seq<Member>>, m: Member)
    requires plan.Merges(msgs)
    ensures PlannedName(true, plan.fieldRenames, plan.oneofKeepVerbatim, m) != Converted(m) <==> MergedRank(msgs, m) > 0
  {
    LookupByRank(plan.fieldRenames, plan.oneofKeepVerbatim, msgs, m);
    if MergedRank(msgs, m) > 0 { PositiveRankIsChanged(msgs, m); }
    if m.number.Some? { SuffixShape(m); } else { OneofRank(msgs, m); }
  }

  lemma CollidingPair(p: Member, q: Member)
    requires !Changed(p) && Changed(q) && Converted(p) == Converted(q) && q.number.Some?
    ensures ProposedRank([p, q], q) == 1
  {
    var ms := [p, q];
    SuffixShape(q);
    assert ms[0] != ms[1];
    assert Collides(ms, 1);
    assert FirstChoice(ms, 0) == Converted(p) && FirstChoice(ms, 1) == Suffixed(q);
    assert Distinct(FirstChoices(ms));
    assert RankIn(ms, 1) == 1 && q == ms[1];
  }

  lemma SeparatePair(p: Member, q: Member)
    requires Converted(p) != Converted(q)
    ensures RankIn([p, q], 0) == 0 && RankIn([p, q], 1) == 0
  {
    var ms := [p, q];
    assert !Collides(ms, 0) && !Collides(ms, 1);
    assert FirstChoice(ms, 0) == Converted(p) && FirstChoice(ms, 1) == Converted(q);
    assert Distinct(FirstChoices(ms));
  }

  lemma MergedOfTwo(a: seq<Member>, b: seq<Member>, m: Member)
    ensures MergedRank([a, b], m) == Max(ProposedRank(a, m), ProposedRank(b, m))
  {
    MergedWithOneMore([], a, m);
    MergedWithOneMore([a], b, m);
    assert [] + [a] == [a] && [a] + [b] == [a, b];
  }

  /** Two messages clash whenever one suffixes a field that the other puts beside that very name. */
  lemma InheritedClashFamily(x: Member, y: Member, z: Member)
    requires !Changed(x) && Changed(y) && Converted(y) == x.name && y.number.Some?
    requires Converted(z) == Suffixed(y) && z != x && z != y
    ensures InheritedClash([[x, y], [y, z]], [y, z])
  {
    var a, b := [x, y], [y, z];
    SuffixShape(y);
    CollidingPair(x, y);
    SeparatePair(y, z);
    assert b[0] == y && b[1] == z;
    assert ProposedRank(b, y) == 0 && ProposedRank(b, z) == 0;
    assert z !in a;
    MergedOfTwo(a, b, y);
    MergedOfTwo(a, b, z);
    assert InheritsSuffix([a, b], b, 0);
  }

  /**
    The inherited clash is real: in
      A { user_name = 11; userName = 12; }   B { userName = 12; user_name_f12 = 13; }
    message B has no collision of its own, but takes `user_name_f12` from A for its field 12.
   */
  lemma InheritedClashExists()
    ensures InheritedClash(
              [[Member("user_name", Some(11)), Member("userName", Some(12))],
               [Member("userName", Some(12)), Member("user_name_f12", Some(13))]],
              [Member("userName", Some(12)), Member("user_name_f12", Some(13))])
  {
    UserNameConverts();
    InheritedClashFamily(
      Member("user_name", Some(11)), Member("userName", Some(12)), Member("user_name_f12", Some(13)));
  }

  /** A oneof that converts to the name of a field beside it keeps its own name. */
  lemma OneofKeepsName(x: Member, o: Member)
    requires !Changed(x) && Changed(o) && Converted(o) == x.name && o.number.None?
    ensures FinalNames([x, o]) == [x.name, o.name]
  {
    var ms := [x, o];
    assert ms[0] == x && ms[1] == o && Collides(ms, 1);
    assert FirstChoice(ms, 0) == x.name && FirstChoice(ms, 1) == o.name;
    assert Distinct(FirstChoices(ms));
  }

  /** `message M { int32 data_value = 1; oneof dataValue { int32 inner = 2; } }` */
  lemma OneofBesideField(msg: Message)
    requires msg.fields == [Field(Some("data_value"), Some(1), TypeOther, None, None, false, None),
                            Field(Some("inner"), Some(2), TypeOther, None, Some(0), false, None)]
    requires msg.oneofs == [Oneof(Some("dataValue"))]
    ensures StructMembers(msg) == [Member("data_value", Some(1)), Member("dataValue", None)]
    ensures FinalNames(StructMembers(msg)) == ["data_value", "dataValue"]
  {
    var fields, oneofs := StructMembersAre(msg);
    TwoMembers(msg, fields, oneofs);
    DataValueConverts();
    OneofKeepsName(Member("data_value", Some(1)), Member("dataValue", None));
  }

  lemma TwoMembers(msg: Message, fields: seq<nat>, oneofs: seq<nat>)
    requires |msg.fields| == 2 && StandsAlone(msg.fields[0]) && !StandsAlone(msg.fields[1])
    requires |msg.oneofs| == 1 && HoldsMembers(msg, 0)
    requires Increasing(fields) && forall i: nat :: i in fields <==> i < |msg.fields| && StandsAlone(msg.fields[i])
    requires Increasing(oneofs) && forall i: nat :: i in oneofs <==> i < |msg.oneofs| && HoldsMembers(msg, i)
    ensures fields == [0] && oneofs == [0]
  {
    OnlyZero(fields);
    OnlyZero(oneofs);
  }

  lemma OnlyZero(at: seq<nat>)
    requires Increasing(at) && forall i: nat :: i in at <==> i == 0
    ensures at == [0]
  {
    assert 0 in at;
    assert forall k | 0 <= k < |at| :: at[k] in at;
    if |at| > 1 { SecondIsPositive(at); }
  }

  lemma SecondIsPositive(at: seq<nat>)
    requires Increasing(at) && |at| > 1
    ensures at[1] > 0 && at[1] in at
  {
    assert at[0] < at[1];
  }

  lemma DataValueConverts()
    ensures SC.SnakeCase("dataValue") == "data_value" == SC.SnakeCase("data_value")
  {
    SC.Unchanged("data_value");
    var s := "dataValue";
    SC.PrefixOfLower(s, 4);
    assert SC.SnakePrefix(s, 4) == "data";
    assert SC.SnakePrefix(s, 5) == "data_v";
    assert SC.SnakePrefix(s, 6) == "data_va";
    assert SC.SnakePrefix(s, 7) == "data_val";
    assert SC.SnakePrefix(s, 8) == "data_valu";
  }

  // ----- warnings that list a name the member does not get -----

  /**
    The name that a message's own warning lists for a member is the one the member gets, exactly when
    no other message takes the member further.
   */
  lemma ListedNameIsFinal(renames: map<(string, int), string>, verbatim: set<string>, msgs: seq<seq<Member>>,
                          ms: seq<Member>, i: nat)
    requires Tables(renames, verbatim, msgs) && ms in msgs && i in AdjustedIn(ms)
    ensures FinalNames(ms)[i] == PlannedName(true, renames, verbatim, ms[i])
            <==> RankIn(ms, i) == MergedRank(msgs, ms[i])
  {
    var m := ms[i];
    LookupByRank(renames, verbatim, msgs, m);
    MergedRankIsJoin(msgs, m);
    AdjustedMember(ms, FinalNames(ms), i);
    assert ProposedRank(ms, m) == RankIn(ms, i);
    if m.number.Some? { SuffixShape(m); } else { OneofRank(msgs, m); }
  }

  /** A message that suffixes a field, beside one that has the same fields and then one of the suffixed name. */
  lemma StaleWarningFamily(x: Member, y: Member, z: Member)
    requires !Changed(x) && Changed(y) && Converted(y) == x.name && y.number.Some?
    requires !Changed(z) && z.name == Suffixed(y)
    ensures
      var a, b := [x, y], [x, y, z];
      (y.name, Suffixed(y)) in Assignments(a) && MergedRank([a, b], y) == 2
  {
    var a, b := [x, y], [x, y, z];
    SuffixShape(y);
    CollidingPair(x, y);
    assert a[1] == y && ProposedRank(a, y) == RankIn(a, 1) == 1;
    assert !Reverts(a);
    assert FinalNames(a)[1] == Suffixed(y);
    assert 1 in AdjustedIn(a);
    assert b[0] == x && b[1] == y && b[2] == z;
    assert Collides(b, 1) && FirstChoice(b, 1) == Suffixed(y);
    assert FirstChoices(b)[1] == FirstChoices(b)[2];
    assert RankIn(b, 1) == 2 && ProposedRank(b, y) == 2;
    MergedOfTwo(a, b, y);
  }

  /**
    In
      A { user_name = 11; userName = 12; }   B { user_name = 11; userName = 12; user_name_f12 = 13; }
    the warning for A lists `user_name_f12` for a field that is generated as `userName`.
   */
  lemma StaleWarningExists(renames: map<(string, int), string>, verbatim: set<string>)
    requires
      var x, y, z := Member("user_name", Some(11)), Member("userName", Some(12)), Member("user_name_f12", Some(13));
      Tables(renames, verbatim, [[x, y], [x, y, z]])
    ensures
      ("userName", "user_name_f12") in Assignments([Member("user_name", Some(11)), Member("userName", Some(12))])
    ensures PlannedName(true, renames, verbatim, Member("userName", Some(12))) == "userName"
  {
    UserNameConverts();
    var x, y, z := Member("user_name", Some(11)), Member("userName", Some(12)), Member("user_name_f12", Some(13));
    StaleWarningFamily(x, y, z);
    LookupByRank(renames, verbatim, [[x, y], [x, y, z]], y);
  }

  lemma UserNameConverts()
    ensures SC.SnakeCase("userName") == "user_name" == SC.SnakeCase("user_name")
    ensures SC.SnakeCase("user_name_f12") == "user_name_f12" == "user_name" + "_f" + Decimal(12)
  {
    SC.Unchanged("user_name");
    SC.Unchanged("user_name_f12");
    UserNamePrefix();
    var s := "userName";
    assert SC.SnakePrefix(s, 6) == "user_na";
    assert SC.SnakePrefix(s, 7) == "user_nam";
  }

  lemma UserNamePrefix()
    ensures SC.SnakePrefix("userName", 5) == "user_n"
  {
    var s := "userName";
    SC.PrefixOfLower(s, 4);
    assert SC.SnakePrefix(s, 4) == "user";
  }
}
