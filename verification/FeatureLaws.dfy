/**
  Laws of the override pass (buffa-codegen/src/feature_overrides.rs): running it again changes
  nothing, and only the rules that match something matter.
 */
module FeatureLaws {
  import opened Text
  import opened Descriptors
  import opened FeatureOverrides
  import opened FeatureRouting
  import opened FeatureMeaning

  // ----- idempotence -----

  /** The parts of a field and of a nested message that routing looks at. */
  ghost predicate SameKeys(a: Message, b: Message) {
    && |a.fields| == |b.fields|
    && (forall i | 0 <= i < |a.fields| ::
      a.fields[i].name == b.fields[i].name && a.fields[i].typeName == b.fields[i].typeName)
    && |a.nested| == |b.nested|
    && (forall i | 0 <= i < |a.nested| ::
      a.nested[i].name == b.nested[i].name && a.nested[i].mapEntry == b.nested[i].mapEntry)
  }

  lemma {:induction false} SameEntryName(msgName: string, a: seq<Message>, b: seq<Message>, f: Field, g: Field)
    requires f.typeName == g.typeName && |a| == |b|
    requires forall i | 0 <= i < |a| :: a[i].name == b[i].name && a[i].mapEntry == b[i].mapEntry
    ensures MapEntryName(msgName, a, f) == MapEntryName(msgName, b, g)
  {
    if a != [] {
      assert forall i | 0 <= i < |a[1..]| :: a[1..][i] == a[i + 1] && b[1..][i] == b[i + 1];
      SameEntryName(msgName, a[1..], b[1..], f, g);
    }
  }

  lemma {:induction false} SameEntries(msgName: string, prefix: string, a: Message, b: Message, n: nat,
                                       rules: seq<string>)
    requires SameKeys(a, b) && n <= |a.fields|
    ensures MatchedEntries(msgName, prefix, a, a.fields[..n], rules) ==
      MatchedEntries(msgName, prefix, b, b.fields[..n], rules)
  {
    if n > 0 {
      assert a.fields[..n][..n - 1] == a.fields[..n - 1] && b.fields[..n][..n - 1] == b.fields[..n - 1];
      SameEntries(msgName, prefix, a, b, n - 1, rules);
      SameEntryName(msgName, a.nested, b.nested, a.fields[n - 1], b.fields[n - 1]);
    }
  }

  lemma FieldTwice(rules: seq<string>, local: set<string>, inner: string, routed: bool, f: Field)
    ensures RewriteField(rules, local, inner, routed, RewriteField(rules, local, inner, routed, f)) ==
            RewriteField(rules, local, inner, routed, f)
  {
  }

  lemma {:induction false} MessageTwice(rules: seq<string>, local: set<string>, prefix: string, routed: bool,
                                        msg: Message)
    ensures RewriteMessage(rules, local, prefix, routed, RewriteMessage(rules, local, prefix, routed, msg)) ==
            RewriteMessage(rules, local, prefix, routed, msg)
    decreases msg
  {
    if msg.name.Some? {
      var once := RewriteMessage(rules, local, prefix, routed, msg);
      var twice := RewriteMessage(rules, local, prefix, routed, once);
      var inner := prefix + msg.name.value + ".";
      var entries := MatchedEntries(msg.name.value, inner, msg, msg.fields, rules);
      assert SameKeys(msg, once);
      SameEntries(msg.name.value, inner, msg, once, |msg.fields|, rules);
      assert msg.fields[..|msg.fields|] == msg.fields && once.fields[..|once.fields|] == once.fields;
      forall i | 0 <= i < |msg.fields| ensures twice.fields[i] == once.fields[i] {
        FieldTwice(rules, local, inner, routed, msg.fields[i]);
      }
      forall i | 0 <= i < |msg.nested| ensures twice.nested[i] == once.nested[i] {
        MessageTwice(rules, local, inner, FirstFor(entries, msg.nested[i].name).Some?, msg.nested[i]);
      }
      assert twice.fields == once.fields && twice.enums == once.enums && twice.nested == once.nested;
    }
  }

  lemma LocalEnumsKept(rules: seq<string>, files: seq<File>)
    ensures LocalEnums(Rewrite(rules, files)) == LocalEnums(files)
  {
    var states := FileStates(files);
    LocalIsRegistered(files);
    LocalIsRegistered(Rewrite(rules, files));
    FileStatesOpened(rules, LocalEnums(files), files, Rewrite(rules, files));
    forall n | n in Names(states) ensures n in Names(Opened(rules, states)) {
      var i :| 0 <= i < |states| && states[i].0 == n;
      assert Opened(rules, states)[i] in Opened(rules, states);
    }
    forall n | n in Names(Opened(rules, states)) ensures n in Names(states) {
      var i :| 0 <= i < |states| && Opened(rules, states)[i].0 == n;
      assert states[i] in states;
    }
  }

  /** Applying the same rules again changes nothing. */
  lemma PassIsIdempotent(rules: seq<string>, files: seq<File>)
    ensures Rewrite(rules, Rewrite(rules, files)) == Rewrite(rules, files)
  {
    LocalEnumsKept(rules, files);
    var local := LocalEnums(files);
    forall k | 0 <= k < |files|
      ensures RewriteFile(rules, local, RewriteFile(rules, local, files[k])) == RewriteFile(rules, local, files[k])
    {
      FileTwice(rules, local, files[k]);
    }
  }

  lemma FileTwice(rules: seq<string>, local: set<string>, f: File)
    ensures RewriteFile(rules, local, RewriteFile(rules, local, f)) == RewriteFile(rules, local, f)
  {
    var once := RewriteFile(rules, local, f);
    var twice := RewriteFile(rules, local, once);
    var prefix := PackagePrefix(f.package);
    forall i | 0 <= i < |f.messages| ensures twice.messages[i] == once.messages[i] {
      MessageTwice(rules, local, prefix, false, f.messages[i]);
    }
    assert twice.enums == once.enums && twice.messages == once.messages;
  }

  // ----- only what is matched matters -----

  /** `fewer` matches nothing that `rules` does not, and as much of what was looked up. */
  ghost predicate Agree(rules: seq<string>, fewer: seq<string>, queried: set<string>) {
    && (forall q :: AnyMatch(fewer, q) ==> AnyMatch(rules, q))
    && (forall q | q in queried && AnyMatch(rules, q) :: AnyMatch(fewer, q))
  }

  /** The routing of an enum-valued entry is the same under both rule lists. */
  ghost predicate RoutesAlike(first: Option<string>, second: bool, msg: Message) {
    HasEnumValue(msg) ==> (first.Some? <==> second)
  }

  lemma FieldAlike(rules: seq<string>, fewer: seq<string>, local: set<string>, inner: string,
                   first: Option<string>, second: bool, msg: Message, i: nat)
    requires i < |msg.fields| && RoutesAlike(first, second, msg)
    requires Agree(rules, fewer, (if first.Some? then AllValueQueries(local, first.value, msg.fields) else {})
                                 + AllFieldQueries(inner, msg.fields))
    ensures RewriteField(rules, local, inner, first.Some?, msg.fields[i]) ==
            RewriteField(fewer, local, inner, second, msg.fields[i])
  {
    var f := msg.fields[i];
    assert f in msg.fields;
    if IsEnumField(f) {
      assert f.typeName.value in FieldQueries(inner, f) && inner + f.name.value in FieldQueries(inner, f);
    }
    if first.Some? && f.number == Some(2) && f.fieldType == TypeEnum && f.typeName.Some? && f.typeName.value in local {
      assert f.typeName.value in ValueQueries(local, first.value, f);
    }
  }

  lemma NestedRoutesAlike(rules: seq<string>, fewer: seq<string>, local: set<string>, inner: string, msg: Message,
                          i: nat)
    requires msg.name.Some? && i < |msg.nested|
    requires
      var first := FirstFor(MatchedEntries(msg.name.value, inner, msg, msg.fields, rules), msg.nested[i].name);
      Agree(rules, fewer, Queried(rules, local, inner, first, msg.nested[i]))
    ensures
      var first := FirstFor(MatchedEntries(msg.name.value, inner, msg, msg.fields, rules), msg.nested[i].name);
      var second := FirstFor(MatchedEntries(msg.name.value, inner, msg, msg.fields, fewer), msg.nested[i].name).Some?;
      RoutesAlike(first, second, msg.nested[i])
  {
    var child := msg.nested[i];
    if child.name.Some? && HasEnumValue(child) {
      var name := child.name.value;
      RoutingIsExact(rules, inner, msg, name);
      RoutingIsExact(fewer, inner, msg, name);
      var first := FirstFor(MatchedEntries(msg.name.value, inner, msg, msg.fields, rules), child.name);
      if first.Some? {
        var k := FirstRouted(rules, inner, msg, msg.fields, name);
        var v :| v in child.fields && v.number == Some(2) && v.fieldType == TypeEnum;
        assert first.value in ValueQueries(local, first.value, v);
        assert first.value in AllValueQueries(local, first.value, child.fields);
        assert Routes(fewer, inner, msg, msg.fields[k], name);
      }
    }
  }

  lemma {:induction false} MessageAlike(rules: seq<string>, fewer: seq<string>, local: set<string>, prefix: string,
                                        first: Option<string>, second: bool, msg: Message)
    requires Agree(rules, fewer, Queried(rules, local, prefix, first, msg)) && RoutesAlike(first, second, msg)
    ensures RewriteMessage(rules, local, prefix, first.Some?, msg) == RewriteMessage(fewer, local, prefix, second, msg)
    decreases msg
  {
    if msg.name.Some? {
      var inner := prefix + msg.name.value + ".";
      var entries := MatchedEntries(msg.name.value, inner, msg, msg.fields, rules);
      var entries2 := MatchedEntries(msg.name.value, inner, msg, msg.fields, fewer);
      var a, b := RewriteMessage(rules, local, prefix, first.Some?, msg),
        RewriteMessage(fewer, local, prefix, second, msg);
      forall i | 0 <= i < |msg.fields| ensures a.fields[i] == b.fields[i] {
        FieldAlike(rules, fewer, local, inner, first, second, msg, i);
      }
      forall i | 0 <= i < |msg.enums| ensures a.enums[i] == b.enums[i] {
        var e := msg.enums[i];
        if e.name.Some? { assert e in msg.enums && inner + e.name.value in EnumFqns(inner, msg.enums); }
      }
      forall i | 0 <= i < |msg.nested| ensures a.nested[i] == b.nested[i] {
        NestedIsQueried(rules, local, inner, entries, msg.nested, i);
        var route := FirstFor(entries, msg.nested[i].name);
        NestedRoutesAlike(rules, fewer, local, inner, msg, i);
        MessageAlike(rules, fewer, local, inner, route, FirstFor(entries2, msg.nested[i].name).Some?, msg.nested[i]);
      }
      assert a.fields == b.fields && a.enums == b.enums && a.nested == b.nested;
    }
  }

  lemma {:induction false} NestedIsQueried(rules: seq<string>, local: set<string>, inner: string,
                                           entries: seq<(string, string)>, nested: seq<Message>, i: nat)
    requires i < |nested|
    ensures Queried(rules, local, inner, FirstFor(entries, nested[i].name), nested[i])
            <= QueriedNested(rules, local, inner, entries, nested)
  {
    if i > 0 { NestedIsQueried(rules, local, inner, entries, nested[1..], i - 1); }
  }

  lemma FileAlike(rules: seq<string>, fewer: seq<string>, local: set<string>, f: File)
    requires Agree(rules, fewer, QueriedFile(rules, local, f))
    ensures RewriteFile(rules, local, f) == RewriteFile(fewer, local, f)
  {
    var a, b := RewriteFile(rules, local, f), RewriteFile(fewer, local, f);
    var prefix := PackagePrefix(f.package);
    forall i | 0 <= i < |f.messages| ensures a.messages[i] == b.messages[i] {
      NestedIsQueried(rules, local, prefix, [], f.messages, i);
      MessageAlike(rules, fewer, local, prefix, None, false, f.messages[i]);
    }
    forall i | 0 <= i < |f.enums| ensures a.enums[i] == b.enums[i] {
      var e := f.enums[i];
      if e.name.Some? { assert e in f.enums && prefix + e.name.value in EnumFqns(prefix, f.enums); }
    }
    assert a.enums == b.enums && a.messages == b.messages;
  }

  lemma {:induction false} FileIsQueried(rules: seq<string>, local: set<string>, files: seq<File>, k: nat)
    requires k < |files|
    ensures QueriedFile(rules, local, files[k]) <= QueriedFiles(rules, local, files)
  {
    if k > 0 { FileIsQueried(rules, local, files[1..], k - 1); }
  }

  /** Rule lists that agree on what is looked up rewrite the descriptors alike. */
  lemma AgreeingRulesRewriteAlike(rules: seq<string>, fewer: seq<string>, files: seq<File>)
    requires Agree(rules, fewer, QueriedFiles(rules, LocalEnums(files), files))
    ensures Rewrite(rules, files) == Rewrite(fewer, files)
  {
    forall k | 0 <= k < |files| ensures Rewrite(rules, files)[k] == Rewrite(fewer, files)[k] {
      FileIsQueried(rules, LocalEnums(files), files, k);
      FileAlike(rules, fewer, LocalEnums(files), files[k]);
    }
  }

  /** The order and the repetition of rules do not matter. */
  lemma RuleOrderIrrelevant(rules1: seq<string>, rules2: seq<string>, files: seq<File>)
    requires forall r :: r in rules1 <==> r in rules2
    ensures Rewrite(rules1, files) == Rewrite(rules2, files)
  {
    forall q ensures AnyMatch(rules1, q) <==> AnyMatch(rules2, q) {
      SubsetMatches(rules1, rules2, q);
      SubsetMatches(rules2, rules1, q);
    }
    AgreeingRulesRewriteAlike(rules1, rules2, files);
  }

  lemma SubsetMatches(a: seq<string>, b: seq<string>, q: string)
    requires forall r | r in a :: r in b
    ensures AnyMatch(a, q) ==> AnyMatch(b, q)
  {
    if AnyMatch(a, q) {
      var i :| 0 <= i < |a| && RuleMatchesOne(a[i], q);
      assert a[i] in b;
    }
  }

  /** The rules that match something that was looked up. */
  ghost function Matched(rules: seq<string>, queried: set<string>): (r: seq<string>)
    ensures forall x :: x in r <==> x in rules && !Inert(x, queried)
  {
    if rules == [] then []
    else
      var init, last := rules[..|rules| - 1], rules[|rules| - 1];
      assert rules == init + [last];
      Matched(init, queried) + if Inert(last, queried) then [] else [last]
  }

  lemma {:induction false} UnmatchedHolds(rules: seq<string>, queried: set<string>, rule: string)
    ensures rule in Unmatched(rules, queried) <==> rule in rules && Inert(rule, queried)
  {
    if rules != [] {
      var init, last := rules[..|rules| - 1], rules[|rules| - 1];
      assert rules == init + [last];
      UnmatchedHolds(init, queried, rule);
    }
  }

  /** Deleting the rules that are reported as unmatched leaves the rewritten descriptors identical. */
  lemma UnmatchedRulesAreInert(rules: seq<string>, files: seq<File>)
    ensures
      var queried := QueriedFiles(rules, LocalEnums(files), files);
      Rewrite(Matched(rules, queried), files) == Rewrite(rules, files)
  {
    var queried := QueriedFiles(rules, LocalEnums(files), files);
    var kept := Matched(rules, queried);
    forall q ensures AnyMatch(kept, q) ==> AnyMatch(rules, q) {
      SubsetMatches(kept, rules, q);
    }
    forall q | q in queried && AnyMatch(rules, q) ensures AnyMatch(kept, q) {
      var i :| 0 <= i < |rules| && RuleMatchesOne(rules[i], q);
      assert !Inert(rules[i], queried) && rules[i] in kept;
    }
    AgreeingRulesRewriteAlike(rules, kept, files);
  }
}
