/**
  Renames of members whose keyword-escaped identifier is already taken
  (buffa-codegen/src/field_names.rs, `plan_keyword_escapes`).
 */
module KeywordEscapes {
  import opened Text
  import opened Descriptors
  import opened Idents
  import SC = SnakeCase
  import FN = FieldNames

  predicate EqIgnoreCase(a: string, b: string) { LowerAll(a) == LowerAll(b) }

  // ----- names before escaping -----

  /** The naming in force: the proto names, or the idiomatic plan. */
  datatype Naming = Naming(idiomatic: bool, renames: map<(string, int), string>, verbatim: set<string>) {
    function Name(m: Member): string { FN.PlannedName(idiomatic, renames, verbatim, m) }

    /** Every planned exception is the proto name or the suffixed conversion. */
    ghost predicate Valid() {
      forall m: Member | m.number.Some? && FN.Key(m) in renames ::
        renames[FN.Key(m)] == m.name || renames[FN.Key(m)] == FN.Suffixed(m)
    }
  }

  function Names(n: Naming, ms: seq<Member>): (r: seq<string>)
    ensures |r| == |ms|
    ensures forall i | 0 <= i < |ms| :: r[i] == n.Name(ms[i])
  {
    seq(|ms|, i requires 0 <= i < |ms| => n.Name(ms[i]))
  }

  // ----- the plan, stated on the member lists of the generated messages -----

  /** In this message the escaped identifier of `m` is another member's name. */
  predicate Clashes(n: Naming, ms: seq<Member>, m: Member) {
    m in ms && IsSuffixEscaped(n.Name(m)) && n.Name(m) + "_" in Names(n, ms)
  }

  ghost predicate NeedsRename(n: Naming, lists: seq<seq<Member>>, m: Member) {
    exists ms | ms in lists :: Clashes(n, ms, m)
  }

  /** The names used beside `m` in any message that declares it. */
  function NamesBeside(n: Naming, lists: seq<seq<Member>>, m: Member): (r: set<string>)
    ensures forall name :: name in r <==> exists ms | ms in lists :: m in ms && name in Names(n, ms)
  {
    set ms, name | ms in lists && m in ms && name in Names(n, ms) :: name
  }

  function Renamed(n: Naming, lists: seq<seq<Member>>, m: Member): string {
    FirstFree(NamesBeside(n, lists, m), n.Name(m) + "__")
  }

  ghost predicate IsEscapePlan(plan: map<Member, string>, n: Naming, lists: seq<seq<Member>>) {
    && (forall m :: m in plan <==> NeedsRename(n, lists, m))
    && (forall m | m in plan :: plan[m] == Renamed(n, lists, m))
  }

  function FinalIdent(n: Naming, plan: map<Member, string>, m: Member): string {
    FieldIdent(if m in plan then plan[m] else n.Name(m))
  }

  function FinalIdents(n: Naming, plan: map<Member, string>, ms: seq<Member>): (r: seq<string>)
    ensures |r| == |ms|
    ensures forall i | 0 <= i < |ms| :: r[i] == FinalIdent(n, plan, ms[i])
  {
    seq(|ms|, i requires 0 <= i < |ms| => FinalIdent(n, plan, ms[i]))
  }

  // ----- the prefilter skips nothing -----

  predicate HasKeywordNamed(msg: Message) {
    || (exists f | f in msg.fields ::
          f.name.Some? && exists k | k in SUFFIX_ESCAPED_KEYWORDS :: EqIgnoreCase(f.name.value, k))
    || (exists o | o in msg.oneofs ::
          o.name.Some? && exists k | k in SUFFIX_ESCAPED_KEYWORDS :: EqIgnoreCase(o.name.value, k))
  }

  lemma KeywordShape(name: string)
    requires IsSuffixEscaped(name)
    ensures '_' !in name && 0 < |name| && LowerAll(name) in SUFFIX_ESCAPED_KEYWORDS
  {
    assert LowerAll("self") == "self" && LowerAll("super") == "super";
    assert LowerAll("Self") == "self" && LowerAll("crate") == "crate";
  }

  /** A member with a keyword for its planned name is spelled like a keyword, up to case. */
  lemma PlannedKeyword(n: Naming, m: Member)
    requires n.Valid() && IsSuffixEscaped(n.Name(m))
    ensures exists k | k in SUFFIX_ESCAPED_KEYWORDS :: EqIgnoreCase(m.name, k)
  {
    var name := n.Name(m);
    KeywordShape(name);
    assert m.number.Some? ==> FN.Suffixed(m)[|FN.Converted(m)|] == '_';
    if name == FN.Converted(m) {
      SC.OneWord(m.name);
      SC.InsertionOnly(m.name);
      assert LowerAll(name) == LowerAll(m.name);
    }
    assert EqIgnoreCase(m.name, name);
  }

  lemma PrefilterIsSound(n: Naming, msg: Message, m: Member)
    requires n.Valid() && m in StructMembers(msg) && IsSuffixEscaped(n.Name(m))
    ensures HasKeywordNamed(msg)
  {
    PlannedKeyword(n, m);
    if m in FieldMembers(msg.fields) {
      FN.FieldMemberSource(msg.fields, m);
    } else {
      FN.OneofMemberSource(msg.oneofs, RealOneofs(msg.fields), m);
      assert Oneof(Some(m.name)) in msg.oneofs;
    }
  }

  // ----- uniqueness of the final identifiers -----

  lemma NeedyIsEscaped(n: Naming, lists: seq<seq<Member>>, m: Member)
    requires NeedsRename(n, lists, m)
    ensures IsSuffixEscaped(n.Name(m))
  {
  }

  lemma ExtensionIsNoKeyword(name: string, s: string)
    requires |s| > |name| && s[|name|] == '_'
    ensures !IsSuffixEscaped(s) && FieldIdent(s) == s
  {
    if IsSuffixEscaped(s) { KeywordShape(s); }
  }

  /** A renamed member ends in at least two underscores and is free in every message that declares it. */
  lemma RenamedIsFree(plan: map<Member, string>, n: Naming, lists: seq<seq<Member>>, ms: seq<Member>, m: Member)
    requires IsEscapePlan(plan, n, lists) && ms in lists && m in ms && m in plan
    ensures plan[m] !in Names(n, ms)
    ensures IsSuffixEscaped(n.Name(m))
    ensures exists k | k >= 2 :: plan[m] == n.Name(m) + Underscores(k)
    ensures FinalIdent(n, plan, m) == plan[m]
  {
    var name, renamed := n.Name(m), Renamed(n, lists, m);
    NeedyIsEscaped(n, lists, m);
    var k := |renamed| - |name|;
    FirstFreeIs(NamesBeside(n, lists, m), name + "__");
    UnderscoresAfterTwo(name, k - 2);
    ExtensionIsNoKeyword(name, renamed);
  }

  lemma StemOfExtension(a: string, i: nat, b: string, j: nat)
    requires IsSuffixEscaped(a) && IsSuffixEscaped(b) && a + Underscores(i) == b + Underscores(j)
    ensures a == b && i == j
  {
    KeywordShape(a);
    KeywordShape(b);
    var s := a + Underscores(i);
    assert forall k | 0 <= k < |a| :: s[k] == a[k] != '_';
    assert forall k | 0 <= k < |b| :: s[k] == b[k] != '_';
    assert |a| < |s| ==> s[|a|] == '_';
    assert |b| < |s| ==> s[|b|] == '_';
    assert s[..|a|] == a && s[..|b|] == b;
  }

  /** Neither of two distinct names is renamed: their identifiers still differ. */
  lemma UnrenamedDiffer(plan: map<Member, string>, n: Naming, lists: seq<seq<Member>>, ms: seq<Member>, a: Member,
                        b: Member)
    requires IsEscapePlan(plan, n, lists) && ms in lists && a in ms && b in ms
    requires n.Name(a) != n.Name(b) && a !in plan && b !in plan
    ensures FinalIdent(n, plan, a) != FinalIdent(n, plan, b)
  {
    var i :| 0 <= i < |ms| && ms[i] == a;
    var j :| 0 <= j < |ms| && ms[j] == b;
    assert Names(n, ms)[i] == n.Name(a) && Names(n, ms)[j] == n.Name(b);
    assert !Clashes(n, ms, a) && !Clashes(n, ms, b);
    if IsSuffixEscaped(n.Name(a)) && IsSuffixEscaped(n.Name(b)) {
      assert (n.Name(a) + "_")[..|n.Name(a)|] == n.Name(a) && (n.Name(b) + "_")[..|n.Name(b)|] == n.Name(b);
    }
  }

  lemma RenamedDiffers(plan: map<Member, string>, n: Naming, lists: seq<seq<Member>>, ms: seq<Member>, a: Member,
                       b: Member)
    requires IsEscapePlan(plan, n, lists) && ms in lists && a in ms && b in ms
    requires n.Name(a) != n.Name(b) && a in plan
    ensures FinalIdent(n, plan, a) != FinalIdent(n, plan, b)
  {
    RenamedIsFree(plan, n, lists, ms, a);
    var k :| k >= 2 && plan[a] == n.Name(a) + Underscores(k);
    var j :| 0 <= j < |ms| && ms[j] == b;
    assert Names(n, ms)[j] == n.Name(b);
    if b in plan {
      RenamedIsFree(plan, n, lists, ms, b);
      var l :| l >= 2 && plan[b] == n.Name(b) + Underscores(l);
      if plan[a] == plan[b] { StemOfExtension(n.Name(a), k, n.Name(b), l); }
    } else if IsSuffixEscaped(n.Name(b)) {
      assert n.Name(b) + "_" == n.Name(b) + Underscores(1);
      if plan[a] == n.Name(b) + "_" { StemOfExtension(n.Name(a), k, n.Name(b), 1); }
    }
  }

  /** Distinct names stay distinct identifiers, in every generated message. */
  lemma FinalIdentsDistinct(plan: map<Member, string>, n: Naming, lists: seq<seq<Member>>, ms: seq<Member>)
    requires IsEscapePlan(plan, n, lists) && ms in lists && Distinct(Names(n, ms))
    ensures Distinct(FinalIdents(n, plan, ms))
  {
    forall i, j | 0 <= i < j < |ms| ensures FinalIdents(n, plan, ms)[i] != FinalIdents(n, plan, ms)[j] {
      assert Names(n, ms)[i] != Names(n, ms)[j];
      if ms[i] in plan {
        RenamedDiffers(plan, n, lists, ms, ms[i], ms[j]);
      } else if ms[j] in plan {
        RenamedDiffers(plan, n, lists, ms, ms[j], ms[i]);
      } else {
        UnrenamedDiffer(plan, n, lists, ms, ms[i], ms[j]);
      }
    }
  }

  /** With idiomatic names off, every generated message ends with distinct identifiers. */
  lemma DefaultModeDistinct(plan: map<Member, string>, n: Naming, lists: seq<seq<Member>>, ms: seq<Member>)
    requires IsEscapePlan(plan, n, lists) && ms in lists && ValidMembers(ms) && !n.idiomatic
    ensures Distinct(FinalIdents(n, plan, ms))
  {
    FinalIdentsDistinct(plan, n, lists, ms);
  }

  /** With them on, that fails for exactly the messages that inherit a suffix clash. */
  lemma IdiomaticModeDistinct(plan: map<Member, string>, n: Naming, msgs: seq<seq<Member>>, lists: seq<seq<Member>>,
                              ms: seq<Member>)
    requires n.idiomatic && FN.Tables(n.renames, n.verbatim, msgs)
    requires IsEscapePlan(plan, n, lists) && ms in lists && ms in msgs && ValidMembers(ms)
    ensures Distinct(FinalIdents(n, plan, ms)) <==> !FN.InheritedClash(msgs, ms)
  {
    forall i | 0 <= i < |ms| ensures Names(n, ms)[i] == FN.ResolvedNames(msgs, ms)[i] {
      FN.LookupByRank(n.renames, n.verbatim, msgs, ms[i]);
    }
    assert Names(n, ms) == FN.ResolvedNames(msgs, ms);
    FN.ResolvedNamesDistinct(msgs, ms);
    if FN.InheritedClash(msgs, ms) {
      var a, b :| 0 <= a < |ms| && 0 <= b < |ms| && FN.InheritsSuffix(msgs, ms, a) &&
        FN.MergedRank(msgs, ms[b]) == 0 && FN.Converted(ms[b]) == FN.Suffixed(ms[a]);
      SharedSuffixIsFinal(plan, n, lists, ms[a], FN.Suffixed(ms[a]));
      SharedSuffixIsFinal(plan, n, lists, ms[b], FN.Suffixed(ms[a]));
      assert FN.Suffixed(ms[a])[|FN.Converted(ms[a])|] == '_';
      assert FinalIdents(n, plan, ms)[a] == FinalIdents(n, plan, ms)[b] && a != b;
    } else {
      FinalIdentsDistinct(plan, n, lists, ms);
    }
  }

  lemma SharedSuffixIsFinal(plan: map<Member, string>, n: Naming, lists: seq<seq<Member>>, m: Member, name: string)
    requires IsEscapePlan(plan, n, lists) && n.Name(m) == name && '_' in name
    ensures FinalIdent(n, plan, m) == name
  {
    if IsSuffixEscaped(name) { KeywordShape(name); }
    assert m !in plan;
  }

  // ----- the planner -----

  datatype EscapeMember = EscapeMember(member: Member, rustName: string)

  datatype EscapeScope = EscapeScope(fqn: string, members: seq<EscapeMember>)

  /** `KeywordEscapedNamesAdjusted`: the renamed members of one message. */
  datatype Warning = KeywordEscapedNamesAdjusted(messageName: string, assignments: set<(string, string)>)

  function EscapeMembers(n: Naming, ms: seq<Member>): (r: seq<EscapeMember>)
    ensures |r| == |ms|
    ensures forall i | 0 <= i < |ms| :: r[i] == EscapeMember(ms[i], n.Name(ms[i]))
  {
    seq(|ms|, i requires 0 <= i < |ms| => EscapeMember(ms[i], n.Name(ms[i])))
  }

  /** The files this run generates; all of them when no selection is given. */
  function GeneratedFiles(files: seq<File>, generated: Option<set<string>>): seq<File> {
    if files == [] then []
    else (if generated.None? || files[0].name.GetOr("") in generated.value then [files[0]] else [])
         + GeneratedFiles(files[1..], generated)
  }

  ghost function ListsOf(scopes: seq<Scope>): seq<seq<Member>> { FN.MembersOfAll(scopes) }

  /** Message number `k` has a member with a keyword for its name. */
  ghost predicate HasEscaped(n: Naming, ms: seq<Member>) {
    exists m | m in ms :: IsSuffixEscaped(n.Name(m))
  }

  /** `kept` are the scopes of the messages with a keyword member, in order. */
  ghost predicate KeepsEscaped(n: Naming, messages: seq<Scope>, kept: seq<EscapeScope>) {
    && (forall s | s in kept :: exists sc | sc in messages ::
          s == EscapeScope(sc.fqn, EscapeMembers(n, StructMembers(sc.msg))) && HasEscaped(n, StructMembers(sc.msg)))
    && (forall sc | sc in messages && HasEscaped(n, StructMembers(sc.msg)) ::
          EscapeScope(sc.fqn, EscapeMembers(n, StructMembers(sc.msg))) in kept)
  }

  method CollectScopes(n: Naming, messages: seq<Scope>) returns (scopes: seq<EscapeScope>)
    requires n.Valid()
    ensures KeepsEscaped(n, messages, scopes)
  {
    scopes := [];
    for k := 0 to |messages|
      invariant KeepsEscaped(n, messages[..k], scopes)
    {
      var sc := messages[k];
      assert messages[..k + 1] == messages[..k] + [sc];
      if !HasKeywordNamed(sc.msg) {
        assert !HasEscaped(n, StructMembers(sc.msg)) by {
          if m :| m in StructMembers(sc.msg) && IsSuffixEscaped(n.Name(m)) { PrefilterIsSound(n, sc.msg, m); }
        }
        continue;
      }
      var structMembers := CollectStructMembers(sc.msg);
      var members: seq<EscapeMember> := EscapeMembers(n, structMembers);
      if exists m | m in members :: IsSuffixEscaped(m.rustName) {
        assert HasEscaped(n, structMembers) by {
          var m :| m in members && IsSuffixEscaped(m.rustName);
          assert m.member in structMembers;
        }
        scopes := scopes + [EscapeScope(sc.fqn, members)];
      } else {
        assert !HasEscaped(n, structMembers) by {
          if m :| m in structMembers && IsSuffixEscaped(n.Name(m)) { assert EscapeMember(m, n.Name(m)) in members; }
        }
      }
    }
    assert messages[..|messages|] == messages;
  }

  predicate ScopeClash(s: EscapeScope, e: EscapeMember) {
    e in s.members && IsSuffixEscaped(e.rustName) && exists o | o in s.members :: o.rustName == e.rustName + "_"
  }

  ghost predicate ClashesIn(scopes: seq<EscapeScope>, m: Member) {
    exists s, e | s in scopes && e in s.members :: e.member == m && ScopeClash(s, e)
  }

  predicate Declares(s: EscapeScope, m: Member) {
    exists e | e in s.members :: e.member == m
  }

  /** Some scope that declares `m` uses the name `candidate`. */
  predicate Taken(scopes: seq<EscapeScope>, m: Member, candidate: string) {
    exists s | s in scopes :: Declares(s, m) && Uses(s, candidate)
  }

  lemma EscapeMembersFaithful(n: Naming, ms: seq<Member>)
    ensures forall m :: m in ms <==> EscapeMember(m, n.Name(m)) in EscapeMembers(n, ms)
    ensures forall e | e in EscapeMembers(n, ms) :: e == EscapeMember(e.member, n.Name(e.member)) && e.member in ms
    ensures forall name :: name in Names(n, ms) <==> exists e | e in EscapeMembers(n, ms) :: e.rustName == name
  {
    var es := EscapeMembers(n, ms);
    forall m | m in ms ensures EscapeMember(m, n.Name(m)) in es {
      var i :| 0 <= i < |ms| && ms[i] == m;
      assert es[i] == EscapeMember(m, n.Name(m));
    }
    forall name | name in Names(n, ms) ensures exists e | e in es :: e.rustName == name {
      var i :| 0 <= i < |ms| && Names(n, ms)[i] == name;
      assert es[i] in es && es[i].rustName == name;
    }
    forall e | e in es ensures e.rustName in Names(n, ms) {
      var i :| 0 <= i < |es| && es[i] == e;
      assert Names(n, ms)[i] == e.rustName;
    }
  }

  lemma ClashInScope(n: Naming, ms: seq<Member>, fqn: string, e: EscapeMember)
    requires e.rustName == n.Name(e.member)
    ensures ScopeClash(EscapeScope(fqn, EscapeMembers(n, ms)), e) <==> Clashes(n, ms, e.member)
  {
    EscapeMembersFaithful(n, ms);
  }

  lemma KeptSource(n: Naming, messages: seq<Scope>, scopes: seq<EscapeScope>, s: EscapeScope) returns (ms: seq<Member>)
    requires KeepsEscaped(n, messages, scopes) && s in scopes
    ensures ms in ListsOf(messages) && s.members == EscapeMembers(n, ms)
  {
    var sc :| sc in messages && s == EscapeScope(sc.fqn, EscapeMembers(n, StructMembers(sc.msg)));
    var k :| 0 <= k < |messages| && messages[k] == sc;
    ms := ListsOf(messages)[k];
  }

  lemma KeptTarget(n: Naming, messages: seq<Scope>, scopes: seq<EscapeScope>, ms: seq<Member>) returns (s: EscapeScope)
    requires KeepsEscaped(n, messages, scopes) && ms in ListsOf(messages) && HasEscaped(n, ms)
    ensures s in scopes && s.members == EscapeMembers(n, ms)
  {
    var k :| 0 <= k < |messages| && ListsOf(messages)[k] == ms;
    assert messages[k] in messages;
    s := EscapeScope(messages[k].fqn, EscapeMembers(n, ms));
  }

  /** Looking only at the kept scopes finds exactly the members that need a rename. */
  lemma ScopesShowNeed(n: Naming, messages: seq<Scope>, scopes: seq<EscapeScope>, m: Member)
    requires KeepsEscaped(n, messages, scopes)
    ensures NeedsRename(n, ListsOf(messages), m) <==>
            exists s | s in scopes :: ScopeClash(s, EscapeMember(m, n.Name(m)))
  {
    var e := EscapeMember(m, n.Name(m));
    if s :| s in scopes && ScopeClash(s, e) {
      var ms := KeptSource(n, messages, scopes, s);
      ClashInScope(n, ms, s.fqn, e);
    }
    if ms :| ms in ListsOf(messages) && Clashes(n, ms, m) {
      var s := KeptTarget(n, messages, scopes, ms);
      ClashInScope(n, ms, s.fqn, e);
    }
  }

  predicate Uses(s: EscapeScope, candidate: string) {
    exists e | e in s.members :: e.rustName == candidate
  }

  lemma UsesInScope(n: Naming, ms: seq<Member>, s: EscapeScope, m: Member, candidate: string)
    requires s.members == EscapeMembers(n, ms)
    ensures Declares(s, m) <==> m in ms
    ensures Uses(s, candidate) <==> candidate in Names(n, ms)
  {
    EscapeMembersFaithful(n, ms);
  }

  /** For a keyword member, the kept scopes show every name used beside it. */
  lemma ScopesShowTaken(n: Naming, messages: seq<Scope>, scopes: seq<EscapeScope>, m: Member, candidate: string)
    requires KeepsEscaped(n, messages, scopes) && IsSuffixEscaped(n.Name(m))
    ensures Taken(scopes, m, candidate) <==> candidate in NamesBeside(n, ListsOf(messages), m)
  {
    if s :| s in scopes && Declares(s, m) && Uses(s, candidate) {
      var ms := KeptSource(n, messages, scopes, s);
      UsesInScope(n, ms, s, m, candidate);
    }
    if ms :| ms in ListsOf(messages) && m in ms && candidate in Names(n, ms) {
      var s := KeptTarget(n, messages, scopes, ms);
      UsesInScope(n, ms, s, m, candidate);
    }
  }

  method CollectColliding(scopes: seq<EscapeScope>) returns (colliding: map<Member, string>)
    ensures forall m :: m in colliding <==> ClashesIn(scopes, m)
    ensures forall m | m in colliding :: exists s | s in scopes :: ScopeClash(s, EscapeMember(m, colliding[m]))
  {
    colliding := map[];
    for k := 0 to |scopes|
      invariant Finds(scopes, k, colliding)
    {
      var found := CollidingIn(scopes[k]);
      FindsMore(scopes, k, colliding, found);
      colliding := colliding + found;
    }
    assert scopes[..|scopes|] == scopes;
  }

  /** The clashing members of the first `k` scopes, each with the name it has in some scope. */
  ghost predicate Finds(scopes: seq<EscapeScope>, k: nat, colliding: map<Member, string>)
    requires k <= |scopes|
  {
    && (forall m :: m in colliding <==> ClashesIn(scopes[..k], m))
    && (forall m | m in colliding :: NamedIn(scopes, m, colliding[m]))
  }

  ghost predicate NamedIn(scopes: seq<EscapeScope>, m: Member, name: string) {
    exists s | s in scopes :: ScopeClash(s, EscapeMember(m, name))
  }

  lemma FindsMore(scopes: seq<EscapeScope>, k: nat, colliding: map<Member, string>, found: map<Member, string>)
    requires k < |scopes| && Finds(scopes, k, colliding)
    requires forall m :: m in found <==> ClashesInOne(scopes[k], m)
    requires forall m | m in found :: ScopeClash(scopes[k], EscapeMember(m, found[m]))
    ensures Finds(scopes, k + 1, colliding + found)
  {
    OneMoreScope(scopes, k);
    var all := colliding + found;
    forall m | m in all ensures NamedIn(scopes, m, all[m]) {
      if m in found { assert scopes[k] in scopes && ScopeClash(scopes[k], EscapeMember(m, found[m])); }
    }
  }

  ghost predicate ClashesInOne(s: EscapeScope, m: Member) {
    exists e | e in s.members :: e.member == m && ScopeClash(s, e)
  }

  lemma OneMoreScope(scopes: seq<EscapeScope>, k: nat)
    requires k < |scopes|
    ensures forall m :: ClashesIn(scopes[..k + 1], m) <==> ClashesIn(scopes[..k], m) || ClashesInOne(scopes[k], m)
  {
    forall m ensures ClashesIn(scopes[..k + 1], m) <==> ClashesIn(scopes[..k], m) || ClashesInOne(scopes[k], m) {
      OneLonger(scopes, k);
      if s, e :| s in scopes[..k] && e in s.members && e.member == m && ScopeClash(s, e) {
        assert s in scopes[..k + 1];
      }
      if ClashesInOne(scopes[k], m) {
        var e :| e in scopes[k].members && e.member == m && ScopeClash(scopes[k], e);
        assert scopes[k] in scopes[..k + 1];
      }
    }
  }

  method CollidingIn(scope: EscapeScope) returns (found: map<Member, string>)
    ensures forall m :: m in found <==> ClashesInOne(scope, m)
    ensures forall m | m in found :: ScopeClash(scope, EscapeMember(m, found[m]))
  {
    found := map[];
    for i := 0 to |scope.members|
      invariant forall m :: m in found <==> exists e | e in scope.members[..i] :: e.member == m && ScopeClash(scope, e)
      invariant forall m | m in found :: ScopeClash(scope, EscapeMember(m, found[m]))
    {
      var e := scope.members[i];
      assert scope.members[..i + 1] == scope.members[..i] + [e];
      if !IsSuffixEscaped(e.rustName) { continue; }
      var escaped := e.rustName + "_";
      if exists o | o in scope.members :: o.rustName == escaped {
        assert EscapeMember(e.member, e.rustName) == e;
        found := found[e.member := e.rustName];
      }
    }
    assert scope.members[..|scope.members|] == scope.members;
  }

  method ChooseName(n: Naming, ghost messages: seq<Scope>, scopes: seq<EscapeScope>, m: Member, rustName: string)
    returns (renamed: string)
    requires KeepsEscaped(n, messages, scopes) && IsSuffixEscaped(n.Name(m)) && rustName == n.Name(m)
    ensures renamed == Renamed(n, ListsOf(messages), m)
  {
    ghost var beside := NamesBeside(n, ListsOf(messages), m);
    renamed := rustName + "__";
    ScopesShowTaken(n, messages, scopes, m, renamed);
    while Taken(scopes, m, renamed)
      invariant Taken(scopes, m, renamed) <==> renamed in beside
      invariant FirstFree(beside, renamed) == Renamed(n, ListsOf(messages), m)
      decreases |Renamed(n, ListsOf(messages), m)| - |renamed|
    {
      FirstFreeStep(beside, renamed);
      renamed := renamed + "_";
      ScopesShowTaken(n, messages, scopes, m, renamed);
    }
  }

  function AssignmentsOf(plan: map<Member, string>, members: seq<EscapeMember>): (r: set<(string, string)>)
    ensures forall a :: a in r <==> exists e | e in members :: e.member in plan && a == (e.member.name, plan[e.member])
  {
    set e | e in members && e.member in plan :: (e.member.name, plan[e.member])
  }

  /** One warning per scope with a renamed member, listing exactly its renamed members. */
  ghost predicate WarnsExactly(scopes: seq<EscapeScope>, plan: map<Member, string>, warnings: seq<Warning>) {
    forall w :: w in warnings <==> exists s | s in scopes ::
      AssignmentsOf(plan, s.members) != {} && w == KeywordEscapedNamesAdjusted(s.fqn, AssignmentsOf(plan, s.members))
  }

  method Warn(scopes: seq<EscapeScope>, plan: map<Member, string>) returns (warnings: seq<Warning>)
    ensures WarnsExactly(scopes, plan, warnings)
  {
    warnings := [];
    for k := 0 to |scopes|
      invariant WarnsExactly(scopes[..k], plan, warnings)
    {
      assert scopes[..k + 1] == scopes[..k] + [scopes[k]];
      var assignments := AssignmentsOf(plan, scopes[k].members);
      if assignments != {} {
        warnings := warnings + [KeywordEscapedNamesAdjusted(scopes[k].fqn, assignments)];
      }
    }
    assert scopes[..|scopes|] == scopes;
  }

  /** Every generated message that declares a renamed member is warned about it, under its new name. */
  ghost predicate AllWarned(messages: seq<Scope>, plan: map<Member, string>, warnings: seq<Warning>) {
    forall sc, m | sc in messages && m in StructMembers(sc.msg) && m in plan ::
      exists w | w in warnings :: w.messageName == sc.fqn && (m.name, plan[m]) in w.assignments
  }

  /** What is listed for a message is a renamed member that a message of that name declares, under its new name. */
  ghost predicate OnlyRenamedWarned(messages: seq<Scope>, plan: map<Member, string>, warnings: seq<Warning>) {
    forall w, a | w in warnings && a in w.assignments ::
      exists sc, m | sc in messages && m in StructMembers(sc.msg) ::
        sc.fqn == w.messageName && m in plan && a == (m.name, plan[m])
  }

  lemma ScopesWarnOnlyRenamed(n: Naming, messages: seq<Scope>, scopes: seq<EscapeScope>, plan: map<Member, string>,
                              warnings: seq<Warning>)
    requires KeepsEscaped(n, messages, scopes) && WarnsExactly(scopes, plan, warnings)
    ensures OnlyRenamedWarned(messages, plan, warnings)
  {
    forall w, a | w in warnings && a in w.assignments
      ensures exists sc, m | sc in messages && m in StructMembers(sc.msg) ::
        sc.fqn == w.messageName && m in plan && a == (m.name, plan[m])
    {
      var s :| s in scopes && w == KeywordEscapedNamesAdjusted(s.fqn, AssignmentsOf(plan, s.members));
      var sc :| sc in messages && s == EscapeScope(sc.fqn, EscapeMembers(n, StructMembers(sc.msg)));
      EscapeMembersFaithful(n, StructMembers(sc.msg));
      var e :| e in s.members && e.member in plan && a == (e.member.name, plan[e.member]);
      assert e.member in StructMembers(sc.msg);
    }
  }

  lemma ScopesAreWarned(n: Naming, messages: seq<Scope>, scopes: seq<EscapeScope>, plan: map<Member, string>,
                        warnings: seq<Warning>)
    requires KeepsEscaped(n, messages, scopes) && WarnsExactly(scopes, plan, warnings)
    requires forall m | m in plan :: IsSuffixEscaped(n.Name(m))
    ensures AllWarned(messages, plan, warnings) && OnlyRenamedWarned(messages, plan, warnings)
  {
    ScopesWarnOnlyRenamed(n, messages, scopes, plan, warnings);
    forall sc, m | sc in messages && m in StructMembers(sc.msg) && m in plan
      ensures exists w | w in warnings :: w.messageName == sc.fqn && (m.name, plan[m]) in w.assignments
    {
      var members := EscapeMembers(n, StructMembers(sc.msg));
      EscapeMembersFaithful(n, StructMembers(sc.msg));
      assert HasEscaped(n, StructMembers(sc.msg));
      var s := EscapeScope(sc.fqn, members);
      assert s in scopes;
      assert EscapeMember(m, n.Name(m)) in members;
      assert (m.name, plan[m]) in AssignmentsOf(plan, members);
      assert KeywordEscapedNamesAdjusted(s.fqn, AssignmentsOf(plan, s.members)) in warnings;
    }
  }

  method ChooseNames(n: Naming, ghost messages: seq<Scope>, scopes: seq<EscapeScope>, colliding: map<Member, string>)
    returns (plan: map<Member, string>)
    requires KeepsEscaped(n, messages, scopes)
    requires forall m | m in colliding :: colliding[m] == n.Name(m) && IsSuffixEscaped(n.Name(m))
    ensures plan.Keys == colliding.Keys
    ensures forall m | m in plan :: plan[m] == Renamed(n, ListsOf(messages), m)
  {
    plan := map[];
    var todo := colliding.Keys;
    while todo != {}
      invariant todo <= colliding.Keys && plan.Keys == colliding.Keys - todo
      invariant forall m | m in plan :: plan[m] == Renamed(n, ListsOf(messages), m)
    {
      var m :| m in todo;
      assert m in colliding;
      var renamed := ChooseName(n, messages, scopes, m, colliding[m]);
      plan := plan[m := renamed];
      todo := todo - {m};
    }
  }

  method PlanKeywordEscapes(files: seq<File>, n: Naming, generated: Option<set<string>>)
    returns (plan: map<Member, string>, warnings: seq<Warning>)
    requires n.Valid()
    ensures IsEscapePlan(plan, n, ListsOf(MessagesInFiles(GeneratedFiles(files, generated))))
    ensures AllWarned(MessagesInFiles(GeneratedFiles(files, generated)), plan, warnings)
    ensures OnlyRenamedWarned(MessagesInFiles(GeneratedFiles(files, generated)), plan, warnings)
  {
    var messages := MessagesInFiles(GeneratedFiles(files, generated));
    var scopes := CollectScopes(n, messages);
    var colliding := CollectColliding(scopes);
    NeedsAreColliding(n, messages, scopes, colliding);
    plan := ChooseNames(n, messages, scopes, colliding);
    warnings := Warn(scopes, plan);
    ScopesAreWarned(n, messages, scopes, plan, warnings);
  }

  lemma NeedsAreColliding(n: Naming, messages: seq<Scope>, scopes: seq<EscapeScope>, colliding: map<Member, string>)
    requires KeepsEscaped(n, messages, scopes)
    requires forall m :: m in colliding <==> ClashesIn(scopes, m)
    requires forall m | m in colliding :: exists s | s in scopes :: ScopeClash(s, EscapeMember(m, colliding[m]))
    ensures forall m :: m in colliding <==> NeedsRename(n, ListsOf(messages), m)
    ensures forall m | m in colliding :: colliding[m] == n.Name(m) && IsSuffixEscaped(n.Name(m))
  {
    forall s, e | s in scopes && ScopeClash(s, e) ensures e.rustName == n.Name(e.member) {
      var sc :| sc in messages && s == EscapeScope(sc.fqn, EscapeMembers(n, StructMembers(sc.msg)));
      EscapeMembersFaithful(n, StructMembers(sc.msg));
    }
    forall m ensures m in colliding <==> NeedsRename(n, ListsOf(messages), m) {
      ScopesShowNeed(n, messages, scopes, m);
      if m in colliding {
        var s, e: EscapeMember :| s in scopes && e in s.members && e.member == m && ScopeClash(s, e);
        assert e == EscapeMember(m, n.Name(m));
      }
    }
  }

  // ----- both plans together (buffa-codegen/src/context.rs) -----

  lemma MergedTablesAreValid(n: Naming, msgs: seq<seq<Member>>)
    requires FN.Tables(n.renames, n.verbatim, msgs)
    ensures n.Valid()
  {
  }

  lemma {:induction false} GeneratedIsPart(files: seq<File>, generated: Option<set<string>>, sc: Scope)
    requires sc in MessagesInFiles(GeneratedFiles(files, generated))
    ensures sc in MessagesInFiles(files)
  {
    if files != [] {
      var kept := GeneratedFiles(files, generated);
      if files[0].name.GetOr("") in generated.GetOr({files[0].name.GetOr("")}) {
        assert kept == [files[0]] + GeneratedFiles(files[1..], generated);
        assert kept[1..] == GeneratedFiles(files[1..], generated);
        if sc in MessagesInFiles(kept[1..]) { GeneratedIsPart(files[1..], generated, sc); }
      } else {
        assert kept == GeneratedFiles(files[1..], generated);
        GeneratedIsPart(files[1..], generated, sc);
      }
    }
  }

  lemma GeneratedListIsPart(files: seq<File>, generated: Option<set<string>>, ms: seq<Member>)
    requires ms in ListsOf(MessagesInFiles(GeneratedFiles(files, generated)))
    ensures ms in ListsOf(MessagesInFiles(files))
  {
    var part := MessagesInFiles(GeneratedFiles(files, generated));
    var k :| 0 <= k < |part| && ListsOf(part)[k] == ms;
    GeneratedIsPart(files, generated, part[k]);
    var all := MessagesInFiles(files);
    var l :| 0 <= l < |all| && all[l] == part[k];
    assert ListsOf(all)[l] == ms;
  }

  /** The names a run gives: distinct in every generated message, but for inherited suffix clashes. */
  method PlanMemberNames(files: seq<File>, idiomatic: bool, generated: Option<set<string>>)
    returns (n: Naming, plan: map<Member, string>)
    ensures n.idiomatic == idiomatic
    ensures forall ms | ms in ListsOf(MessagesInFiles(GeneratedFiles(files, generated))) && ValidMembers(ms) ::
      Distinct(FinalIdents(n, plan, ms)) <==> !(idiomatic && FN.InheritedClash(ListsOf(MessagesInFiles(files)), ms))
  {
    n := Naming(idiomatic, map[], {});
    if idiomatic {
      var fieldPlan := FN.PlanFieldNames(files);
      n := Naming(idiomatic, fieldPlan.fieldRenames, fieldPlan.oneofKeepVerbatim);
      MergedTablesAreValid(n, ListsOf(MessagesInFiles(files)));
    }
    var warnings;
    plan, warnings := PlanKeywordEscapes(files, n, generated);
    ghost var lists := ListsOf(MessagesInFiles(GeneratedFiles(files, generated)));
    forall ms | ms in lists && ValidMembers(ms)
      ensures Distinct(FinalIdents(n, plan, ms)) <==>
              !(idiomatic && FN.InheritedClash(ListsOf(MessagesInFiles(files)), ms))
    {
      if idiomatic {
        GeneratedListIsPart(files, generated, ms);
        IdiomaticModeDistinct(plan, n, ListsOf(MessagesInFiles(files)), lists, ms);
      } else {
        DefaultModeDistinct(plan, n, lists, ms);
      }
    }
  }

  // ----- the plan, member by member -----

  /** Some generated message has `m` beside a member whose name is that of `m` and `extra`. */
  ghost predicate Beside(n: Naming, lists: seq<seq<Member>>, m: Member, extra: string) {
    exists ms, other | ms in lists && m in ms && other in ms :: n.Name(other) == n.Name(m) + extra
  }

  lemma BesideIs(n: Naming, lists: seq<seq<Member>>, m: Member, extra: string)
    ensures n.Name(m) + extra in NamesBeside(n, lists, m) <==> Beside(n, lists, m, extra)
  {
    if ms :| ms in lists && m in ms && n.Name(m) + extra in Names(n, ms) {
      var i :| 0 <= i < |ms| && Names(n, ms)[i] == n.Name(m) + extra;
      assert ms[i] in ms;
    }
    if ms, other :| ms in lists && m in ms && other in ms && n.Name(other) == n.Name(m) + extra {
      var i :| 0 <= i < |ms| && ms[i] == other;
      assert Names(n, ms)[i] == n.Name(m) + extra;
    }
  }

  /**
    A member is renamed exactly when its name is one of the four keywords and some message has it beside a member
    of that name with an underscore; and then to the name with the fewest underscores, from two on, that no
    message has beside it.
   */
  lemma RenamedExactly(plan: map<Member, string>, n: Naming, lists: seq<seq<Member>>, m: Member)
    requires IsEscapePlan(plan, n, lists)
    ensures m in plan <==> n.Name(m) in ["self", "super", "Self", "crate"] && Beside(n, lists, m, "_")
    ensures m in plan ==>
      exists k: nat | 2 <= k ::
        && plan[m] == n.Name(m) + Underscores(k) && !Beside(n, lists, m, Underscores(k))
        && forall l | 2 <= l < k :: Beside(n, lists, m, Underscores(l))
  {
    BesideIs(n, lists, m, "_");
    NeedIs(n, lists, m);
    if m in plan { ShortestFree(n, lists, m); }
  }

  lemma NeedIs(n: Naming, lists: seq<seq<Member>>, m: Member)
    ensures NeedsRename(n, lists, m) <==> IsSuffixEscaped(n.Name(m)) && n.Name(m) + "_" in NamesBeside(n, lists, m)
  {
    if ms :| ms in lists && m in ms && n.Name(m) + "_" in Names(n, ms) {
      assert IsSuffixEscaped(n.Name(m)) ==> Clashes(n, ms, m);
    }
  }

  lemma ShortestFree(n: Naming, lists: seq<seq<Member>>, m: Member)
    ensures exists k: nat | 2 <= k ::
      && Renamed(n, lists, m) == n.Name(m) + Underscores(k) && !Beside(n, lists, m, Underscores(k))
      && forall l | 2 <= l < k :: Beside(n, lists, m, Underscores(l))
  {
    var name, taken := n.Name(m), NamesBeside(n, lists, m);
    var r := FirstFree(taken, name + "__");
    var k := |r| - |name|;
    FirstFreeIs(taken, name + "__");
    UnderscoresAfterTwo(name, k - 2);
    BesideIs(n, lists, m, Underscores(k));
    forall l | 2 <= l < k ensures Beside(n, lists, m, Underscores(l)) {
      UnderscoresAfterTwo(name, l - 2);
      BesideIs(n, lists, m, Underscores(l));
    }
  }

  /** The names that are escaped: the proto names by default, and the planned ones in idiomatic mode. */
  lemma NamesAre(n: Naming, msgs: seq<seq<Member>>, m: Member)
    requires n.idiomatic ==> FN.Tables(n.renames, n.verbatim, msgs)
    ensures n.Name(m) == if n.idiomatic then FN.NameAtRank(m, FN.MergedRank(msgs, m)) else m.name
  {
    if n.idiomatic { FN.LookupByRank(n.renames, n.verbatim, msgs, m); }
  }

  /** The files of the selection; all of them without one. */
  lemma {:induction false} GeneratedAre(files: seq<File>, generated: Option<set<string>>, f: File)
    ensures f in GeneratedFiles(files, generated) <==>
            f in files && (generated.Some? ==> (if f.name.Some? then f.name.value else "") in generated.value)
  {
    if files != [] { GeneratedAre(files[1..], generated, f); }
  }
}
