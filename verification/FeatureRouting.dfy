/**
  How the override pass finds the map entry that a rule on a map field is meant for
  (`find_map_entry` of buffa-codegen/src/message.rs compares only the end of a type name), and
  where that finds the wrong one.
 */
module FeatureRouting {
  import opened Text
  import opened Descriptors
  import opened ExternPaths
  import opened FeatureOverrides

  // ----- the entry that a type name names -----

  lemma TailIsOne(s: string, a: string, b: string)
    requires '.' !in a && '.' !in b && |a| < |s| && |b| < |s|
    requires s[|s| - |a|..] == a && s[|s| - |b|..] == b
    requires s[|s| - |a| - 1] == '.' && s[|s| - |b| - 1] == '.'
    ensures a == b
  {
    DotsLieBefore(s, a);
    DotsLieBefore(s, b);
  }

  lemma DotsLieBefore(s: string, a: string)
    requires '.' !in a && |a| <= |s| && s[|s| - |a|..] == a
    ensures forall i | |s| - |a| <= i < |s| :: s[i] != '.'
  {
    assert forall i | |s| - |a| <= i < |s| :: s[i] == a[i - (|s| - |a|)];
  }

  lemma EntryTail(typeName: string, msgName: string, entry: string)
    requires NamesEntry(typeName, msgName, entry)
    ensures |entry| < |typeName| && typeName[|typeName| - |entry|..] == entry
    ensures typeName[|typeName| - |entry| - 1] == '.'
  {
    var tail := msgName + "." + entry;
    var n := |typeName| - |tail|;
    assert forall i | 0 <= i < |tail| :: typeName[n + i] == typeName[n..][i];
    assert tail[|msgName|] == '.';
    assert forall i | 0 <= i < |entry| :: tail[|msgName| + 1 + i] == entry[i];
  }

  /** A type name ends in one entry only. */
  lemma OneEntry(typeName: string, msgName: string, a: string, b: string)
    requires NamesEntry(typeName, msgName, a) && NamesEntry(typeName, msgName, b)
    requires '.' !in a && '.' !in b
    ensures a == b
  {
    EntryTail(typeName, msgName, a);
    EntryTail(typeName, msgName, b);
    TailIsOne(typeName, a, b);
  }

  /** What protoc guarantees of the names in a message: nested names have no dots, and none is used twice. */
  ghost predicate ValidNames(msg: Message) {
    && (forall n | n in msg.nested && n.name.Some? :: '.' !in n.name.value)
    && (forall i, j | 0 <= i < j < |msg.nested| && msg.nested[i].name.Some? :: msg.nested[i].name != msg.nested[j].name)
    && (forall i, j | 0 <= i < j < |msg.fields| && msg.fields[i].name.Some? :: msg.fields[i].name != msg.fields[j].name)
  }

  /** The type of `f` ends in `<message>.<entry>`: the criterion of `find_map_entry`. */
  predicate Suggests(msg: Message, f: Field, entry: string) {
    msg.name.Some? && f.name.Some? && f.typeName.Some? && NamesEntry(f.typeName.value, msg.name.value, entry)
  }

  /** The type of `f` is the entry: `f` is the map field. */
  predicate IsMapField(inner: string, f: Field, entry: string) {
    f.name.Some? && f.typeName == Some(inner + entry)
  }

  predicate IsEntry(msg: Message, entry: Message) {
    entry in msg.nested && entry.mapEntry && entry.name.Some?
  }

  lemma {:induction false} EntryNameIs(msgName: string, nested: seq<Message>, f: Field, name: string)
    requires forall n | n in nested && n.name.Some? :: '.' !in n.name.value
    ensures MapEntryName(msgName, nested, f) == Some(name) <==>
            f.typeName.Some? && NamesEntry(f.typeName.value, msgName, name)
            && exists n | n in nested :: n.mapEntry && n.name == Some(name)
    decreases |nested|
  {
    if nested != [] && f.typeName.Some? {
      var first, rest := nested[0], nested[1..];
      assert nested == [first] + rest;
      EntryNameIs(msgName, rest, f, name);
      if first.mapEntry && first.name.Some? && NamesEntry(f.typeName.value, msgName, first.name.value) {
        if NamesEntry(f.typeName.value, msgName, name) && '.' !in name {
          OneEntry(f.typeName.value, msgName, name, first.name.value);
        }
        if exists n | n in nested :: n.mapEntry && n.name == Some(name) { assert '.' !in name; }
      }
    }
  }

  /** The lookup takes `f` for a map field with that entry exactly when the type of `f` ends in its name. */
  lemma LookupIsBySuffix(msg: Message, f: Field, entry: Message)
    requires ValidNames(msg) && IsEntry(msg, entry) && msg.name.Some? && f.name.Some?
    ensures MapEntryName(msg.name.value, msg.nested, f) == entry.name <==> Suggests(msg, f, entry.name.value)
  {
    EntryNameIs(msg.name.value, msg.nested, f, entry.name.value);
  }

  /** A true map field is found. */
  lemma MapFieldSuggests(prefix: string, msg: Message, f: Field, entry: string)
    requires msg.name.Some? && prefix != "" && prefix[|prefix| - 1] == '.'
    requires IsMapField(prefix + msg.name.value + ".", f, entry)
    ensures Suggests(msg, f, entry)
  {
    var tail := msg.name.value + "." + entry;
    assert f.typeName.value == prefix + tail;
  }

  // ----- the field that routes a rule -----

  /** A rule matches the path of `f`, and the lookup takes `f` for a map field with the entry `name`. */
  ghost predicate Routes(rules: seq<string>, inner: string, msg: Message, f: Field, name: string) {
    && msg.name.Some? && f.name.Some?
    && MapEntryName(msg.name.value, msg.nested, f) == Some(name)
    && AnyMatch(rules, inner + f.name.value)
  }

  /** The path that stands for the entry `name` is that of the first field that routes to it. */
  ghost predicate IsFirst(rules: seq<string>, inner: string, msg: Message, fields: seq<Field>, name: string, i: nat,
                          path: string) {
    && i < |fields| && Routes(rules, inner, msg, fields[i], name)
    && path == inner + fields[i].name.value
    && forall j | 0 <= j < i :: !Routes(rules, inner, msg, fields[j], name)
  }

  lemma {:induction false} FirstOfInit(before: seq<(string, string)>, all: seq<(string, string)>, name: string)
    requires all == before || (|all| == |before| + 1 && all[..|before|] == before)
    ensures FirstFor(before, Some(name)).Some? ==> FirstFor(all, Some(name)) == FirstFor(before, Some(name))
    ensures FirstFor(before, Some(name)).None? && FirstFor(all, Some(name)).Some? ==>
      all != before && all[|before|].0 == name && FirstFor(all, Some(name)) == Some(all[|before|].1)
    ensures all != before && all[|before|].0 == name ==> FirstFor(all, Some(name)).Some?
    decreases |before|
  {
    if before != [] && before[0].0 != name {
      assert all[0] == before[0];
      if all != before { assert all[1..][..|before| - 1] == before[1..]; }
      FirstOfInit(before[1..], all[1..], name);
    } else if before == [] && all != [] {
      assert all[1..] == [];
    }
  }

  lemma {:induction false} FirstRouted(rules: seq<string>, inner: string, msg: Message, fields: seq<Field>,
                                       name: string)
    returns (i: nat)
    requires msg.name.Some?
    ensures match FirstFor(MatchedEntries(msg.name.value, inner, msg, fields, rules), Some(name))
            case Some(path) => IsFirst(rules, inner, msg, fields, name, i, path)
            case None => forall k | 0 <= k < |fields| :: !Routes(rules, inner, msg, fields[k], name)
    decreases |fields|
  {
    i := 0;
    if fields != [] {
      var n := |fields| - 1;
      var init, f := fields[..n], fields[n];
      i := FirstRouted(rules, inner, msg, init, name);
      var before := MatchedEntries(msg.name.value, inner, msg, init, rules);
      FirstOfInit(before, MatchedEntries(msg.name.value, inner, msg, fields, rules), name);
      assert forall k | 0 <= k < n :: init[k] == fields[k];
      if FirstFor(before, Some(name)).None? { i := n; }
    }
  }

  /** Routing finds an entry exactly when a rule matches a field that the lookup takes for its map field. */
  lemma RoutingIsExact(rules: seq<string>, inner: string, msg: Message, name: string)
    requires msg.name.Some?
    ensures FirstFor(MatchedEntries(msg.name.value, inner, msg, msg.fields, rules), Some(name)).Some?
            <==> exists f | f in msg.fields :: Routes(rules, inner, msg, f, name)
  {
    var i := FirstRouted(rules, inner, msg, msg.fields, name);
    if exists f | f in msg.fields :: Routes(rules, inner, msg, f, name) {
      var f :| f in msg.fields && Routes(rules, inner, msg, f, name);
      var k :| 0 <= k < |msg.fields| && msg.fields[k] == f;
    }
  }

  /** In terms of type names: of the nested messages only a map entry is routed, by every field that suggests it. */
  lemma RoutedBySuffix(rules: seq<string>, inner: string, msg: Message, entry: Message)
    requires ValidNames(msg) && msg.name.Some? && entry in msg.nested && entry.name.Some?
    ensures FirstFor(MatchedEntries(msg.name.value, inner, msg, msg.fields, rules), entry.name).Some? <==>
            entry.mapEntry
            && exists f | f in msg.fields && Suggests(msg, f, entry.name.value) :: AnyMatch(rules, inner + f.name.value)
  {
    var name := entry.name.value;
    RoutingIsExact(rules, inner, msg, name);
    forall f | f in msg.fields && f.name.Some?
      ensures MapEntryName(msg.name.value, msg.nested, f) == Some(name) <==> entry.mapEntry && Suggests(msg, f, name)
    {
      EntryNameIs(msg.name.value, msg.nested, f, name);
      if n :| n in msg.nested && n.mapEntry && n.name == Some(name) { SameEntry(msg, n, entry); }
    }
  }

  lemma SameEntry(msg: Message, a: Message, b: Message)
    requires ValidNames(msg) && a in msg.nested && b in msg.nested && a.name.Some? && a.name == b.name
    ensures a == b
  {
    var i :| 0 <= i < |msg.nested| && msg.nested[i] == a;
    var j :| 0 <= j < |msg.nested| && msg.nested[j] == b;
  }

  ghost predicate HasEnumValue(msg: Message) {
    exists f | f in msg.fields :: f.number == Some(2) && f.fieldType == TypeEnum
  }

  // ----- every message of the set, with the prefix of what it declares -----

  datatype Home = Home(inner: string, msg: Message)

  function Homes(prefix: string, msg: Message): set<Home>
    decreases msg, 0
  {
    if msg.name.None? then {}
    else
      var inner := prefix + msg.name.value + ".";
      {Home(inner, msg)} + HomesIn(inner, msg.nested)
  }

  function HomesIn(prefix: string, msgs: seq<Message>): set<Home>
    decreases msgs, 1
  {
    if msgs == [] then {} else Homes(prefix, msgs[0]) + HomesIn(prefix, msgs[1..])
  }

  function AllHomes(files: seq<File>): set<Home> {
    if files == [] then {}
    else HomesIn(PackagePrefix(files[0].package), files[0].messages) + AllHomes(files[1..])
  }

  // ----- rules that are plain paths -----

  /** A path that normalization leaves alone, as every field path is. */
  predicate IsPlain(path: string) {
    |path| > 1 && path[0] == '.' && path[|path| - 1] != '.' && !IsWhiteSpace(path[|path| - 1])
  }

  lemma PlainRule(path: string, q: string)
    requires IsPlain(path)
    ensures RuleMatchesOne(path, q) <==> MatchesProtoPrefix(path, q)
    ensures AnyMatch([path], q) <==> MatchesProtoPrefix(path, q)
  {
    assert TrimStart(path) == path;
    assert TrimEnd(path) == path && TrimEndDots(path) == path;
    assert RuleMatchesOne([path][0], q) <==> AnyMatch([path], q);
  }

  /**
    What protoc guarantees of a field's path: it is the field's alone. No enum, no enum type name and no
    path of another field is equal to it or lies below it.
   */
  ghost predicate OwnPath(files: seq<File>, h: Home, f: Field)
    requires f.name.Some?
  {
    var p := h.inner + f.name.value;
    && IsPlain(p)
    && (forall q | q in LocalEnums(files) :: !MatchesProtoPrefix(p, q))
    && (forall h2, f2 | h2 in AllHomes(files) && f2 in h2.msg.fields ::
          && (IsEnumField(f2) ==> !MatchesProtoPrefix(p, f2.typeName.value))
          && (f2.name.Some? && MatchesProtoPrefix(p, h2.inner + f2.name.value) ==> h2 == h && f2 == f))
  }

  ghost predicate OwnPaths(files: seq<File>) {
    forall h, f | h in AllHomes(files) && f in h.msg.fields && f.name.Some? :: OwnPath(files, h, f)
  }
}
