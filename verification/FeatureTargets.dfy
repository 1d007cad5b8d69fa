/**
  What a rule of the override pass can be meant for, stated on the descriptors alone, and when the
  report of unmatched rules is right about it.
 */
module FeatureTargets {
  import opened Text
  import opened Descriptors
  import opened FeatureOverrides
  import opened FeatureRouting
  import EP = ExternPaths
  import FL = FeatureLaws

  // ----- the targets -----

  function FieldTargets(homes: set<Home>): set<string> {
    set h, f, q | h in homes && f in h.msg.fields && q in FieldQueries(h.inner, f) :: q
  }

  /** The enums of the set, and the paths and type names of its enum-typed fields. */
  function EnumTargets(files: seq<File>): set<string> {
    LocalEnums(files) + FieldTargets(AllHomes(files))
  }

  /** `f` is a map field of the message, and the values of its entry are enums. */
  ghost predicate IsEnumMap(h: Home, f: Field, entry: Message) {
    IsEntry(h.msg, entry) && HasEnumValue(entry) && f in h.msg.fields && IsMapField(h.inner, f, entry.name.value)
  }

  /** Everything a rule can be meant for: enums, enum-typed fields, their enums, and enum-valued map fields. */
  ghost predicate IsTarget(files: seq<File>, q: string) {
    q in EnumTargets(files) ||
    exists h, f, e | h in AllHomes(files) && e in h.msg.nested && f in h.msg.fields ::
      IsEnumMap(h, f, e) && q == h.inner + f.name.value
  }

  /** The name of an enum: declared in a file, or in a message at any depth. */
  ghost predicate NamesEnum(files: seq<File>, q: string) {
    || (exists f, e | f in files && e in f.enums ::
          e.name.Some? && q == (if f.package.GetOr("") == "" then "." else "." + f.package.value + ".") + e.name.value)
    || (exists h, e | h in AllHomes(files) && e in h.msg.enums :: e.name.Some? && q == h.inner + e.name.value)
  }

  /** The path, or the type name, of an enum-typed field. */
  ghost predicate NamesEnumField(files: seq<File>, q: string) {
    exists h, f | h in AllHomes(files) && f in h.msg.fields ::
      && f.fieldType == TypeEnum && f.name.Some? && f.typeName.Some?
      && (q == h.inner + f.name.value || q == f.typeName.value)
  }

  /** The path of a field whose type is a map entry of its message, if the entry's field number 2 has an enum type. */
  ghost predicate NamesEnumMap(files: seq<File>, q: string) {
    exists h, f, e | h in AllHomes(files) && e in h.msg.nested && f in h.msg.fields ::
      && e.mapEntry && e.name.Some? && f.name.Some? && f.typeName == Some(h.inner + e.name.value)
      && q == h.inner + f.name.value
      && exists v | v in e.fields :: v.number == Some(2) && v.fieldType == TypeEnum
  }

  /** The targets of the set. */
  lemma TargetsAre(files: seq<File>, q: string)
    ensures IsTarget(files, q) <==> NamesEnum(files, q) || NamesEnumField(files, q) || NamesEnumMap(files, q)
  {
    EnumsAre(files, q);
    FieldsAre(files, q);
    MapsAre(files, q);
  }

  lemma FieldsAre(files: seq<File>, q: string)
    ensures q in FieldTargets(AllHomes(files)) <==> NamesEnumField(files, q)
  {
    if q in FieldTargets(AllHomes(files)) {
      var h, f :| h in AllHomes(files) && f in h.msg.fields && q in FieldQueries(h.inner, f);
    }
    if NamesEnumField(files, q) {
      var h, f :|
        h in AllHomes(files) && f in h.msg.fields && f.fieldType == TypeEnum && f.name.Some? && f.typeName.Some?
        && (q == h.inner + f.name.value || q == f.typeName.value);
      assert q in FieldQueries(h.inner, f);
    }
  }

  lemma MapsAre(files: seq<File>, q: string)
    ensures NamesEnumMap(files, q) <==>
            exists h, f, e | h in AllHomes(files) && e in h.msg.nested && f in h.msg.fields ::
              IsEnumMap(h, f, e) && q == h.inner + f.name.value
  {
    if NamesEnumMap(files, q) {
      var h, f, e :| h in AllHomes(files) && e in h.msg.nested && f in h.msg.fields
        && e.mapEntry && e.name.Some? && f.name.Some? && f.typeName == Some(h.inner + e.name.value)
        && q == h.inner + f.name.value
        && exists v | v in e.fields :: v.number == Some(2) && v.fieldType == TypeEnum;
      assert IsEnumMap(h, f, e);
    }
  }

  lemma {:induction false} EnumSource(prefix: string, msg: Message, q: string)
    requires q in MessageEnumFqns(prefix, msg)
    ensures exists h | h in Homes(prefix, msg) :: q in EnumFqns(h.inner, h.msg.enums)
    decreases msg, 1
  {
    var inner := prefix + msg.name.value + ".";
    if q in EnumFqns(inner, msg.enums) {
      assert Home(inner, msg) in Homes(prefix, msg);
    } else {
      EnumSourceIn(inner, msg.nested, q);
    }
  }

  lemma {:induction false} EnumSourceIn(prefix: string, msgs: seq<Message>, q: string)
    requires q in MessagesEnumFqns(prefix, msgs)
    ensures exists h | h in HomesIn(prefix, msgs) :: q in EnumFqns(h.inner, h.msg.enums)
    decreases msgs, 0
  {
    if q in MessageEnumFqns(prefix, msgs[0]) {
      EnumSource(prefix, msgs[0], q);
    } else {
      EnumSourceIn(prefix, msgs[1..], q);
    }
  }

  ghost predicate NamesFileEnum(files: seq<File>, q: string) {
    exists f | f in files :: q in EnumFqns(PackagePrefix(f.package), f.enums)
  }

  ghost predicate NamesHomeEnum(files: seq<File>, q: string) {
    exists h | h in AllHomes(files) :: q in EnumFqns(h.inner, h.msg.enums)
  }

  lemma {:induction false} EnumSourceInFiles(files: seq<File>, q: string)
    ensures q in LocalEnums(files) <==> NamesFileEnum(files, q) || NamesHomeEnum(files, q)
  {
    if h :| h in AllHomes(files) && q in EnumFqns(h.inner, h.msg.enums) { HomeEnumsInFiles(files, h); }
    if files != [] {
      var f, rest := files[0], files[1..];
      assert files == [f] + rest;
      EnumSourceInFiles(rest, q);
      if q in MessagesEnumFqns(PackagePrefix(f.package), f.messages) {
        EnumSourceIn(PackagePrefix(f.package), f.messages, q);
        assert NamesHomeEnum(files, q);
      }
      if NamesFileEnum(rest, q) { assert NamesFileEnum(files, q); }
      if NamesHomeEnum(rest, q) { assert NamesHomeEnum(files, q); }
      if q in EnumFqns(PackagePrefix(f.package), f.enums) { assert NamesFileEnum(files, q); }
    }
  }

  lemma EnumsAre(files: seq<File>, q: string)
    ensures q in LocalEnums(files) <==> NamesEnum(files, q)
  {
    EnumSourceInFiles(files, q);
  }

  ghost predicate Misses(rule: string, files: seq<File>) {
    forall q | IsTarget(files, q) :: !RuleMatchesOne(rule, q)
  }

  /** The rules that a run reports as unmatched. */
  ghost function Reported(rules: seq<string>, files: seq<File>): seq<string> {
    Unmatched(rules, QueriedFiles(rules, LocalEnums(files), files))
  }

  ghost predicate ReportIsRight(rules: seq<string>, rule: string, files: seq<File>) {
    rule in Reported(rules, files) <==> rule in rules && Misses(rule, files)
  }

  // ----- what the pass looks up, message by message -----

  ghost predicate IsRoutedPath(rules: seq<string>, h: Home, e: Message, q: string) {
    && e in h.msg.nested && e.name.Some? && HasEnumValue(e) && h.msg.name.Some?
    && FirstFor(MatchedEntries(h.msg.name.value, h.inner, h.msg, h.msg.fields, rules), e.name) == Some(q)
  }

  /** Looked up at home: the enums and enum-typed fields it declares, and the paths routed to its entries. */
  ghost predicate LookedUpAt(rules: seq<string>, local: set<string>, h: Home, q: string) {
    || q in AllFieldQueries(h.inner, h.msg.fields)
    || q in EnumFqns(h.inner, h.msg.enums)
    || exists e | e in h.msg.nested :: IsRoutedPath(rules, h, e, q)
  }

  /** The value of a routed entry adds its map field's path, and at most an enum of the set. */
  lemma ValueLookups(local: set<string>, path: string, fields: seq<Field>, e: Message, q: string)
    requires fields == e.fields
    ensures q in AllValueQueries(local, path, fields) ==> (q == path && HasEnumValue(e)) || q in local
    ensures HasEnumValue(e) ==> path in AllValueQueries(local, path, fields)
  {
    if HasEnumValue(e) {
      var f :| f in e.fields && f.number == Some(2) && f.fieldType == TypeEnum;
      assert path in ValueQueries(local, path, f);
    }
  }

  /** Within one tree: its own routed path, an enum of the set, or what is looked up at one of its homes. */
  lemma {:induction false} QueriedInTree(rules: seq<string>, local: set<string>, prefix: string, routed: Option<string>,
                                         msg: Message, q: string)
    ensures q in Queried(rules, local, prefix, routed, msg) ==>
              || (msg.name.Some? && routed == Some(q) && HasEnumValue(msg))
              || q in local
              || exists h | h in Homes(prefix, msg) :: LookedUpAt(rules, local, h, q)
    ensures msg.name.Some? && routed == Some(q) && HasEnumValue(msg) ==> q in Queried(rules, local, prefix, routed, msg)
    ensures (exists h | h in Homes(prefix, msg) :: LookedUpAt(rules, local, h, q)) ==>
              q in Queried(rules, local, prefix, routed, msg)
    decreases msg, 1
  {
    if msg.name.Some? {
      var h := Home(prefix + msg.name.value + ".", msg);
      if routed.Some? { ValueLookups(local, routed.value, msg.fields, msg, q); }
      QueriedBelow(rules, local, h, msg.nested, q);
      assert h in Homes(prefix, msg);
      if q in AllFieldQueries(h.inner, msg.fields) || q in EnumFqns(h.inner, msg.enums) {
        assert LookedUpAt(rules, local, h, q);
      }
      if e :| e in msg.nested && IsRoutedPath(rules, h, e, q) {
        assert LookedUpAt(rules, local, h, q);
      }
    }
  }

  lemma {:induction false} QueriedBelow(rules: seq<string>, local: set<string>, h: Home, nested: seq<Message>,
                                        q: string)
    requires h.msg.name.Some? && forall m | m in nested :: m in h.msg.nested
    ensures
      var entries := MatchedEntries(h.msg.name.value, h.inner, h.msg, h.msg.fields, rules);
      var below := QueriedNested(rules, local, h.inner, entries, nested);
      && (q in below ==>
            || (exists e | e in nested :: IsRoutedPath(rules, h, e, q))
            || q in local
            || exists k | k in HomesIn(h.inner, nested) :: LookedUpAt(rules, local, k, q))
      && ((exists e | e in nested :: IsRoutedPath(rules, h, e, q)) ==> q in below)
      && ((exists k | k in HomesIn(h.inner, nested) :: LookedUpAt(rules, local, k, q)) ==> q in below)
    decreases nested, 0
  {
    if nested != [] {
      var first, rest := nested[0], nested[1..];
      assert nested == [first] + rest;
      var entries := MatchedEntries(h.msg.name.value, h.inner, h.msg, h.msg.fields, rules);
      QueriedInTree(rules, local, h.inner, FirstFor(entries, first.name), first, q);
      QueriedBelow(rules, local, h, rest, q);
      assert first.name.Some? && FirstFor(entries, first.name) == Some(q) && HasEnumValue(first) ==>
             IsRoutedPath(rules, h, first, q);
    }
  }

  lemma {:induction false} QueriedInMessages(rules: seq<string>, local: set<string>, prefix: string, msgs: seq<Message>,
                                             q: string)
    ensures q in QueriedNested(rules, local, prefix, [], msgs) ==>
              q in local || exists h | h in HomesIn(prefix, msgs) :: LookedUpAt(rules, local, h, q)
    ensures (exists h | h in HomesIn(prefix, msgs) :: LookedUpAt(rules, local, h, q)) ==>
              q in QueriedNested(rules, local, prefix, [], msgs)
    decreases |msgs|
  {
    if msgs != [] {
      QueriedInTree(rules, local, prefix, None, msgs[0], q);
      QueriedInMessages(rules, local, prefix, msgs[1..], q);
    }
  }

  lemma {:induction false} QueriedInFiles(rules: seq<string>, local: set<string>, files: seq<File>, q: string)
    requires LocalEnums(files) <= local
    ensures q in QueriedFiles(rules, local, files) ==>
              q in local || exists h | h in AllHomes(files) :: LookedUpAt(rules, local, h, q)
    ensures (exists h | h in AllHomes(files) :: LookedUpAt(rules, local, h, q)) ==>
      q in QueriedFiles(rules, local, files)
  {
    if files != [] {
      var prefix := PackagePrefix(files[0].package);
      QueriedInMessages(rules, local, prefix, files[0].messages, q);
      QueriedInFiles(rules, local, files[1..], q);
    }
  }

  /** The enums of the set are all looked up. */
  lemma {:induction false} EnumsOfTree(rules: seq<string>, local: set<string>, prefix: string, routed: Option<string>,
                                       msg: Message)
    ensures MessageEnumFqns(prefix, msg) <= Queried(rules, local, prefix, routed, msg)
    decreases msg, 1
  {
    if msg.name.Some? {
      var inner := prefix + msg.name.value + ".";
      EnumsOfTrees(rules, local, inner, MatchedEntries(msg.name.value, inner, msg, msg.fields, rules), msg.nested);
    }
  }

  lemma {:induction false} EnumsOfTrees(rules: seq<string>, local: set<string>, inner: string,
                                        entries: seq<(string, string)>, msgs: seq<Message>)
    ensures MessagesEnumFqns(inner, msgs) <= QueriedNested(rules, local, inner, entries, msgs)
    decreases msgs, 0
  {
    if msgs != [] {
      EnumsOfTree(rules, local, inner, FirstFor(entries, msgs[0].name), msgs[0]);
      EnumsOfTrees(rules, local, inner, entries, msgs[1..]);
    }
  }

  lemma {:induction false} EnumsOfFiles(rules: seq<string>, local: set<string>, files: seq<File>)
    ensures LocalEnums(files) <= QueriedFiles(rules, local, files)
  {
    if files != [] {
      EnumsOfTrees(rules, local, PackagePrefix(files[0].package), [], files[0].messages);
      EnumsOfFiles(rules, local, files[1..]);
    }
  }

  /** What is declared at a home is among the enums of the set. */
  lemma {:induction false} HomeEnums(prefix: string, msg: Message, h: Home)
    requires h in Homes(prefix, msg)
    ensures EnumFqns(h.inner, h.msg.enums) <= MessageEnumFqns(prefix, msg)
    decreases msg, 1
  {
    var inner := prefix + msg.name.value + ".";
    if h != Home(inner, msg) { HomeEnumsIn(inner, msg.nested, h); }
  }

  lemma {:induction false} HomeEnumsIn(prefix: string, msgs: seq<Message>, h: Home)
    requires h in HomesIn(prefix, msgs)
    ensures EnumFqns(h.inner, h.msg.enums) <= MessagesEnumFqns(prefix, msgs)
    decreases msgs, 0
  {
    if h in Homes(prefix, msgs[0]) { HomeEnums(prefix, msgs[0], h); } else { HomeEnumsIn(prefix, msgs[1..], h); }
  }

  lemma {:induction false} HomeEnumsInFiles(files: seq<File>, h: Home)
    requires h in AllHomes(files)
    ensures EnumFqns(h.inner, h.msg.enums) <= LocalEnums(files)
  {
    if h in HomesIn(PackagePrefix(files[0].package), files[0].messages) {
      HomeEnumsIn(PackagePrefix(files[0].package), files[0].messages, h);
    } else {
      HomeEnumsInFiles(files[1..], h);
    }
  }

  /** The paths that are routed anywhere under the rules. */
  ghost predicate IsRouted(rules: seq<string>, files: seq<File>, q: string) {
    exists h, e | h in AllHomes(files) && e in h.msg.nested :: IsRoutedPath(rules, h, e, q)
  }

  /**
    The look-ups of the pass, without its recursion: the enums of the set, the paths and type names of its
    enum-typed fields, and for each enum-valued entry the path of the first field that routes to it.
   */
  lemma LookupsAre(rules: seq<string>, files: seq<File>, q: string)
    ensures q in QueriedFiles(rules, LocalEnums(files), files) <==> q in EnumTargets(files) || IsRouted(rules, files, q)
  {
    var local := LocalEnums(files);
    QueriedInFiles(rules, local, files, q);
    EnumsOfFiles(rules, local, files);
    if h :| h in AllHomes(files) && LookedUpAt(rules, local, h, q) {
      HomeEnumsInFiles(files, h);
      if q in AllFieldQueries(h.inner, h.msg.fields) {
        var f :| f in h.msg.fields && q in FieldQueries(h.inner, f);
        assert q in FieldTargets(AllHomes(files));
      }
    }
    if q in FieldTargets(AllHomes(files)) {
      var h, f :| h in AllHomes(files) && f in h.msg.fields && q in FieldQueries(h.inner, f);
      assert q in AllFieldQueries(h.inner, h.msg.fields);
      assert LookedUpAt(rules, local, h, q);
    }
    if IsRouted(rules, files, q) {
      var h, e :| h in AllHomes(files) && e in h.msg.nested && IsRoutedPath(rules, h, e, q);
      assert LookedUpAt(rules, local, h, q);
    }
  }

  // ----- the report -----

  /** Field `i` of the message suggests the entry. */
  ghost predicate SuggestsAt(h: Home, e: Message, i: nat) {
    i < |h.msg.fields| && e.name.Some? && Suggests(h.msg, h.msg.fields[i], e.name.value)
  }

  /** A field that suggests the entry is its map field, and the first to suggest it; or it is an enum field itself. */
  ghost predicate NamedOnceAt(h: Home, e: Message, i: nat)
    requires SuggestsAt(h, e, i)
  {
    || IsEnumField(h.msg.fields[i])
    || (IsMapField(h.inner, h.msg.fields[i], e.name.value) && forall j | 0 <= j < i :: !SuggestsAt(h, e, j))
  }

  ghost predicate NamedOnce(h: Home, e: Message) {
    forall i: nat | SuggestsAt(h, e, i) :: NamedOnceAt(h, e, i)
  }

  /** Each enum-valued entry of the set is suggested by one field, its map field. */
  ghost predicate EntriesNamedOnce(files: seq<File>) {
    forall h, e | h in AllHomes(files) && IsEntry(h.msg, e) && HasEnumValue(e) :: NamedOnce(h, e)
  }

  ghost predicate AllValidNames(files: seq<File>) {
    forall h | h in AllHomes(files) :: ValidNames(h.msg)
  }

  /** The prefix of what a message declares ends in the message's name. */
  ghost predicate EndsInOwnName(h: Home)
    requires h.msg.name.Some?
  {
    exists before: string :: before != "" && before[|before| - 1] == '.' && h.inner == before + h.msg.name.value + "."
  }

  lemma {:induction false} HomeShape(prefix: string, msg: Message, h: Home)
    requires prefix != "" && prefix[|prefix| - 1] == '.' && h in Homes(prefix, msg)
    ensures h.msg.name.Some? && EndsInOwnName(h)
    decreases msg, 1
  {
    var inner := prefix + msg.name.value + ".";
    if h != Home(inner, msg) { HomeShapeIn(inner, msg.nested, h); }
  }

  lemma {:induction false} HomeShapeIn(prefix: string, msgs: seq<Message>, h: Home)
    requires prefix != "" && prefix[|prefix| - 1] == '.' && h in HomesIn(prefix, msgs)
    ensures h.msg.name.Some? && EndsInOwnName(h)
    decreases msgs, 0
  {
    if h in Homes(prefix, msgs[0]) { HomeShape(prefix, msgs[0], h); } else { HomeShapeIn(prefix, msgs[1..], h); }
  }

  lemma {:induction false} HomesEndInTheirNames(files: seq<File>, h: Home)
    requires h in AllHomes(files)
    ensures h.msg.name.Some? && EndsInOwnName(h)
  {
    var prefix := PackagePrefix(files[0].package);
    if h in HomesIn(prefix, files[0].messages) {
      HomeShapeIn(prefix, files[0].messages, h);
    } else {
      HomesEndInTheirNames(files[1..], h);
    }
  }

  lemma MapFieldIsSuggested(files: seq<File>, h: Home, f: Field, entry: string)
    requires h in AllHomes(files) && IsMapField(h.inner, f, entry)
    ensures Suggests(h.msg, f, entry)
  {
    HomesEndInTheirNames(files, h);
    var before: string :| before != "" && before[|before| - 1] == '.' && h.inner == before + h.msg.name.value + ".";
    MapFieldSuggests(before, h.msg, f, entry);
  }

  /** The routed path of an entry, by type names. */
  lemma RoutedIs(rules: seq<string>, h: Home, e: Message, q: string) returns (i: nat)
    requires ValidNames(h.msg) && IsRoutedPath(rules, h, e, q)
    ensures IsEntry(h.msg, e) && SuggestsAt(h, e, i)
    ensures q == h.inner + h.msg.fields[i].name.value && AnyMatch(rules, q)
    ensures forall j | 0 <= j < i && SuggestsAt(h, e, j) :: !AnyMatch(rules, h.inner + h.msg.fields[j].name.value)
  {
    i := FirstRouted(rules, h.inner, h.msg, h.msg.fields, e.name.value);
    RoutedBySuffix(rules, h.inner, h.msg, e);
    LookupIsBySuffix(h.msg, h.msg.fields[i], e);
    forall j | 0 <= j < i && SuggestsAt(h, e, j) ensures !AnyMatch(rules, h.inner + h.msg.fields[j].name.value) {
      LookupIsBySuffix(h.msg, h.msg.fields[j], e);
    }
  }

  /** If a rule matches the first field that suggests an entry, that field is routed. */
  lemma FirstIsRouted(rules: seq<string>, h: Home, e: Message, i: nat)
    requires ValidNames(h.msg) && IsEntry(h.msg, e) && HasEnumValue(e) && SuggestsAt(h, e, i)
    requires AnyMatch(rules, h.inner + h.msg.fields[i].name.value)
    requires forall j | 0 <= j < i && SuggestsAt(h, e, j) :: !AnyMatch(rules, h.inner + h.msg.fields[j].name.value)
    ensures IsRoutedPath(rules, h, e, h.inner + h.msg.fields[i].name.value)
  {
    var k := FirstRouted(rules, h.inner, h.msg, h.msg.fields, e.name.value);
    LookupIsBySuffix(h.msg, h.msg.fields[i], e);
    assert Routes(rules, h.inner, h.msg, h.msg.fields[i], e.name.value);
    LookupIsBySuffix(h.msg, h.msg.fields[k], e);
    assert SuggestsAt(h, e, k);
    assert i == k;
  }

  lemma EnumFieldIsTarget(files: seq<File>, h: Home, f: Field)
    requires h in AllHomes(files) && f in h.msg.fields && f.name.Some?
    ensures IsEnumField(f) ==> h.inner + f.name.value in EnumTargets(files)
  {
    assert IsEnumField(f) ==> h.inner + f.name.value in FieldQueries(h.inner, f);
  }

  /** A rule in the list that matches a target matches something that is looked up. */
  lemma TargetIsLookedUp(rules: seq<string>, files: seq<File>, q: string)
    requires EntriesNamedOnce(files) && AllValidNames(files) && IsTarget(files, q) && AnyMatch(rules, q)
    ensures q in QueriedFiles(rules, LocalEnums(files), files)
  {
    LookupsAre(rules, files, q);
    if q !in EnumTargets(files) {
      var h, f, e :| h in AllHomes(files) && e in h.msg.nested && f in h.msg.fields &&
        IsEnumMap(h, f, e) && q == h.inner + f.name.value;
      var i :| 0 <= i < |h.msg.fields| && h.msg.fields[i] == f;
      MapFieldIsSuggested(files, h, f, e.name.value);
      assert SuggestsAt(h, e, i) && NamedOnce(h, e) && NamedOnceAt(h, e, i);
      EnumFieldIsTarget(files, h, f);
      FirstIsRouted(rules, h, e, i);
    }
  }

  /** Whatever is looked up is a target. */
  lemma LookupIsTarget(rules: seq<string>, files: seq<File>, q: string)
    requires EntriesNamedOnce(files) && AllValidNames(files) && q in QueriedFiles(rules, LocalEnums(files), files)
    ensures IsTarget(files, q)
  {
    LookupsAre(rules, files, q);
    if q !in EnumTargets(files) {
      var h, e :| h in AllHomes(files) && e in h.msg.nested && IsRoutedPath(rules, h, e, q);
      var i := RoutedIs(rules, h, e, q);
      assert NamedOnce(h, e) && NamedOnceAt(h, e, i);
      var f := h.msg.fields[i];
      EnumFieldIsTarget(files, h, f);
      assert IsEnumMap(h, f, e);
    }
  }

  /** When entries are named once: a rule is reported if and only if it is in the list and misses every target. */
  lemma ReportedExactly(rules: seq<string>, rule: string, files: seq<File>)
    requires EntriesNamedOnce(files) && AllValidNames(files)
    ensures ReportIsRight(rules, rule, files)
  {
    var queried := QueriedFiles(rules, LocalEnums(files), files);
    FL.UnmatchedHolds(rules, queried, rule);
    if rule in rules {
      if q :| q in queried && RuleMatchesOne(rule, q) { LookupIsTarget(rules, files, q); }
      if q :| IsTarget(files, q) && RuleMatchesOne(rule, q) {
        var k :| 0 <= k < |rules| && rules[k] == rule;
        assert AnyMatch(rules, q);
        TargetIsLookedUp(rules, files, q);
      }
    }
  }

  // ----- and only then -----

  /** The rule for the path of one field matches just that path, of all that is looked up or meant. */
  lemma OwnRule(files: seq<File>, h: Home, f: Field, q: string)
    requires OwnPaths(files) && h in AllHomes(files) && f in h.msg.fields && f.name.Some? && !IsEnumField(f)
    requires RuleMatchesOne(h.inner + f.name.value, q)
    ensures q !in EnumTargets(files)
    ensures forall h2, f2 | && h2 in AllHomes(files) && f2 in h2.msg.fields
                            && f2.name.Some? && q == h2.inner + f2.name.value ::
              h2 == h && f2 == f
  {
    assert OwnPath(files, h, f);
    PlainRule(h.inner + f.name.value, q);
    forall t | t in FieldTargets(AllHomes(files)) ensures !EP.MatchesProtoPrefix(h.inner + f.name.value, t) {
      var h2, f2 :| h2 in AllHomes(files) && f2 in h2.msg.fields && t in FieldQueries(h2.inner, f2);
    }
  }

  lemma PathMatchesItself(files: seq<File>, h: Home, f: Field)
    requires OwnPaths(files) && h in AllHomes(files) && f in h.msg.fields && f.name.Some?
    ensures RuleMatchesOne(h.inner + f.name.value, h.inner + f.name.value)
  {
    assert OwnPath(files, h, f);
    PlainRule(h.inner + f.name.value, h.inner + f.name.value);
  }

  /** One field suggests one entry. */
  lemma OneSuggestion(h: Home, f: Field, a: Message, b: Message)
    requires ValidNames(h.msg) && IsEntry(h.msg, a) && IsEntry(h.msg, b)
    requires Suggests(h.msg, f, a.name.value) && Suggests(h.msg, f, b.name.value)
    ensures a == b
  {
    OneEntry(f.typeName.value, h.msg.name.value, a.name.value, b.name.value);
    SameEntry(h.msg, a, b);
  }

  lemma OneIndex(msg: Message, i: nat, j: nat)
    requires ValidNames(msg) && i < |msg.fields| && j < |msg.fields|
    requires msg.fields[i].name.Some? && msg.fields[i].name == msg.fields[j].name
    ensures i == j
  {
  }

  /** A lookalike that no enum type explains: its rule is taken for matched, but is meant for nothing. */
  lemma LookalikeGoesUnreported(files: seq<File>, h: Home, e: Message, i: nat)
    requires OwnPaths(files) && AllValidNames(files) && h in AllHomes(files) && IsEntry(h.msg, e) && HasEnumValue(e)
    requires SuggestsAt(h, e, i) && !IsEnumField(h.msg.fields[i]) && !IsMapField(h.inner, h.msg.fields[i], e.name.value)
    ensures
      var rule := h.inner + h.msg.fields[i].name.value;
      Misses(rule, files) && rule !in Reported([rule], files) && !ReportIsRight([rule], rule, files)
  {
    var f := h.msg.fields[i];
    var rule := h.inner + f.name.value;
    var rules := [rule];
    PathMatchesItself(files, h, f);
    assert RuleMatchesOne(rules[0], rule) && AnyMatch(rules, rule);
    forall j | 0 <= j < i && SuggestsAt(h, e, j) ensures !AnyMatch(rules, h.inner + h.msg.fields[j].name.value) {
      EarlierUnmatched(files, h, e, i, j);
    }
    FirstIsRouted(rules, h, e, i);
    LookupsAre(rules, files, rule);
    FL.UnmatchedHolds(rules, QueriedFiles(rules, LocalEnums(files), files), rule);
    forall q | IsTarget(files, q) ensures !RuleMatchesOne(rule, q) {
      LookalikeIsNoTarget(files, h, e, i, q);
    }
  }

  lemma EarlierUnmatched(files: seq<File>, h: Home, e: Message, i: nat, j: nat)
    requires OwnPaths(files) && AllValidNames(files) && h in AllHomes(files)
    requires j < i && SuggestsAt(h, e, i) && SuggestsAt(h, e, j)
    ensures !AnyMatch([h.inner + h.msg.fields[i].name.value], h.inner + h.msg.fields[j].name.value)
  {
    FieldsApart(files, h, h.msg.fields[i], h.msg.fields[j]);
  }

  lemma FieldsApart(files: seq<File>, h: Home, f: Field, f2: Field)
    requires OwnPaths(files) && h in AllHomes(files) && f in h.msg.fields && f2 in h.msg.fields
    requires f.name.Some? && f2.name.Some? && f.name != f2.name
    ensures !AnyMatch([h.inner + f.name.value], h.inner + f2.name.value)
  {
    assert OwnPath(files, h, f);
    PlainRule(h.inner + f.name.value, h.inner + f2.name.value);
  }

  lemma LookalikeIsNoTarget(files: seq<File>, h: Home, e: Message, i: nat, q: string)
    requires OwnPaths(files) && AllValidNames(files) && h in AllHomes(files) && IsEntry(h.msg, e)
    requires SuggestsAt(h, e, i) && !IsEnumField(h.msg.fields[i]) && !IsMapField(h.inner, h.msg.fields[i], e.name.value)
    requires IsTarget(files, q)
    ensures !RuleMatchesOne(h.inner + h.msg.fields[i].name.value, q)
  {
    var f := h.msg.fields[i];
    if RuleMatchesOne(h.inner + f.name.value, q) {
      OwnRule(files, h, f, q);
      var h2, f2, e2 :| h2 in AllHomes(files) && e2 in h2.msg.nested && f2 in h2.msg.fields &&
        IsEnumMap(h2, f2, e2) && q == h2.inner + f2.name.value;
      MapFieldIsSuggested(files, h, f, e2.name.value);
      OneSuggestion(h, f, e, e2);
    }
  }

  /** A map field behind another field that suggests its entry: its rule is meant for it, but reported. */
  lemma LateMapFieldIsReported(files: seq<File>, h: Home, e: Message, i: nat, j: nat)
    requires OwnPaths(files) && AllValidNames(files) && h in AllHomes(files) && IsEntry(h.msg, e) && HasEnumValue(e)
    requires SuggestsAt(h, e, i) && !IsEnumField(h.msg.fields[i]) && IsMapField(h.inner, h.msg.fields[i], e.name.value)
    requires j < i && SuggestsAt(h, e, j)
    ensures
      var late, early := h.inner + h.msg.fields[i].name.value, h.inner + h.msg.fields[j].name.value;
      !ReportIsRight([late, early], late, files)
      && late in Reported([late, early], files) && IsTarget(files, late) && RuleMatchesOne(late, late)
  {
    var f := h.msg.fields[i];
    var late, early := h.inner + f.name.value, h.inner + h.msg.fields[j].name.value;
    var rules := [late, early];
    PathMatchesItself(files, h, f);
    PathMatchesItself(files, h, h.msg.fields[j]);
    assert RuleMatchesOne(rules[1], early) && AnyMatch(rules, early);
    assert IsEnumMap(h, f, e) && IsTarget(files, late);
    forall q | q in QueriedFiles(rules, LocalEnums(files), files) ensures !RuleMatchesOne(late, q) {
      LateIsNotLookedUp(files, h, e, i, j, rules, q);
    }
    FL.UnmatchedHolds(rules, QueriedFiles(rules, LocalEnums(files), files), late);
  }

  lemma LateIsNotLookedUp(files: seq<File>, h: Home, e: Message, i: nat, j: nat, rules: seq<string>, q: string)
    requires OwnPaths(files) && AllValidNames(files) && h in AllHomes(files) && IsEntry(h.msg, e)
    requires SuggestsAt(h, e, i) && !IsEnumField(h.msg.fields[i])
    requires j < i && SuggestsAt(h, e, j) && AnyMatch(rules, h.inner + h.msg.fields[j].name.value)
    requires q in QueriedFiles(rules, LocalEnums(files), files)
    ensures !RuleMatchesOne(h.inner + h.msg.fields[i].name.value, q)
  {
    var f := h.msg.fields[i];
    LookupsAre(rules, files, q);
    if RuleMatchesOne(h.inner + f.name.value, q) {
      OwnRule(files, h, f, q);
      var h2, e2 :| h2 in AllHomes(files) && e2 in h2.msg.nested && IsRoutedPath(rules, h2, e2, q);
      var k := RoutedIs(rules, h2, e2, q);
      assert h2 == h;
      EarlierRoutes(h, e, i, j, rules, e2, q);
    }
  }

  lemma SamePath(inner: string, a: string, b: string)
    requires inner + a == inner + b
    ensures a == b
  {
    PrefixCancels(inner, a, b);
  }

  lemma EarlierRoutes(h: Home, e: Message, i: nat, j: nat, rules: seq<string>, e2: Message, q: string)
    requires ValidNames(h.msg) && IsEntry(h.msg, e) && j < i && SuggestsAt(h, e, i) && SuggestsAt(h, e, j)
    requires AnyMatch(rules, h.inner + h.msg.fields[j].name.value) && q == h.inner + h.msg.fields[i].name.value
    ensures !IsRoutedPath(rules, h, e2, q)
  {
    if IsRoutedPath(rules, h, e2, q) {
      var k := RoutedIs(rules, h, e2, q);
      SamePath(h.inner, h.msg.fields[k].name.value, h.msg.fields[i].name.value);
      OneIndex(h.msg, i, k);
      OneSuggestion(h, h.msg.fields[i], e, e2);
    }
  }

  /** The report is right for all rule lists and rules if and only if entries are named once. */
  lemma ReportIsRightExactly(files: seq<File>)
    requires OwnPaths(files) && AllValidNames(files)
    ensures (forall rules: seq<string>, rule: string :: ReportIsRight(rules, rule, files)) <==> EntriesNamedOnce(files)
  {
    if EntriesNamedOnce(files) {
      forall rules: seq<string>, rule: string ensures ReportIsRight(rules, rule, files) {
        ReportedExactly(rules, rule, files);
      }
    } else {
      var h, e :| h in AllHomes(files) && IsEntry(h.msg, e) && HasEnumValue(e) && !NamedOnce(h, e);
      var i: nat :| SuggestsAt(h, e, i) && !NamedOnceAt(h, e, i);
      if IsMapField(h.inner, h.msg.fields[i], e.name.value) {
        var j: nat :| j < i && SuggestsAt(h, e, j);
        LateMapFieldIsReported(files, h, e, i, j);
      } else {
        LookalikeGoesUnreported(files, h, e, i);
      }
    }
  }

  // ----- the order of the rules -----

  lemma {:induction false} SameEntriesMatched(rules1: seq<string>, rules2: seq<string>, msgName: string, inner: string,
                                              msg: Message, fields: seq<Field>)
    requires forall q :: AnyMatch(rules1, q) <==> AnyMatch(rules2, q)
    ensures MatchedEntries(msgName, inner, msg, fields, rules1) == MatchedEntries(msgName, inner, msg, fields, rules2)
    decreases |fields|
  {
    if fields != [] { SameEntriesMatched(rules1, rules2, msgName, inner, msg, fields[..|fields| - 1]); }
  }

  /** Whether a rule is reported does not depend on the order or the repetition of the rules. */
  lemma ReportIgnoresOrder(rules1: seq<string>, rules2: seq<string>, files: seq<File>, rule: string)
    requires forall r :: r in rules1 <==> r in rules2
    ensures rule in Reported(rules1, files) <==> rule in Reported(rules2, files)
  {
    var local := LocalEnums(files);
    forall q ensures AnyMatch(rules1, q) <==> AnyMatch(rules2, q) {
      FL.SubsetMatches(rules1, rules2, q);
      FL.SubsetMatches(rules2, rules1, q);
    }
    forall q ensures q in QueriedFiles(rules1, local, files) <==> q in QueriedFiles(rules2, local, files) {
      LookupsAre(rules1, files, q);
      LookupsAre(rules2, files, q);
      forall h, e | h in AllHomes(files) && e in h.msg.nested
        ensures IsRoutedPath(rules1, h, e, q) <==> IsRoutedPath(rules2, h, e, q)
      {
        if h.msg.name.Some? {
          SameEntriesMatched(rules1, rules2, h.msg.name.value, h.inner, h.msg, h.msg.fields);
        }
      }
    }
    FL.UnmatchedHolds(rules1, QueriedFiles(rules1, local, files), rule);
    FL.UnmatchedHolds(rules2, QueriedFiles(rules2, local, files), rule);
  }
}
