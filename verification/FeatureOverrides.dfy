/**
  Path-scoped `enum_type` overrides (buffa-codegen/src/feature_overrides.rs), and the openness
  of a field they are read back as (buffa-codegen/src/features.rs, and the closedness table of
  buffa-codegen/src/context.rs).
 */
module FeatureOverrides {
  import opened Text
  import opened Descriptors
  import opened ExternPaths

  // ----- rules -----

  function TrimEndDots(s: string): string {
    if s != "" && s[|s| - 1] == '.' then TrimEndDots(s[..|s| - 1]) else s
  }

  predicate RuleMatchesOne(rule: string, fqn: string) {
    var trimmed := Trim(rule);
    if trimmed == "." then true
    else
      var r := TrimEndDots(trimmed);
      if r == "" then false
      else if "." <= r then MatchesProtoPrefix(r, fqn)
      else if "." <= fqn then MatchesProtoPrefix(r, fqn[1..])
      else MatchesProtoPrefix(r, fqn)
  }

  predicate AnyMatch(rules: seq<string>, fqn: string) {
    exists i | 0 <= i < |rules| :: RuleMatchesOne(rules[i], fqn)
  }

  /** Marks every rule that matches, without stopping at the first. */
  method RuleMatches(rules: seq<string>, fqn: string, matched: array<bool>) returns (any: bool)
    requires matched.Length == |rules|
    modifies matched
    ensures any == AnyMatch(rules, fqn)
    ensures Marked(rules, {fqn}, old(matched[..]), matched[..])
  {
    any := false;
    for i := 0 to |rules|
      invariant any == exists j | 0 <= j < i :: RuleMatchesOne(rules[j], fqn)
      invariant forall j | 0 <= j < |rules| ::
        matched[j] == (old(matched[j]) || (j < i && RuleMatchesOne(rules[j], fqn)))
    {
      if RuleMatchesOne(rules[i], fqn) {
        matched[i] := true;
        any := true;
      }
    }
    assert fqn in {fqn};
  }

  /** The marks after the paths `queried` were looked up: a rule stays or becomes marked when it matches one. */
  ghost predicate Marked(rules: seq<string>, queried: set<string>, before: seq<bool>, after: seq<bool>) {
    && |before| == |rules| == |after|
    && forall i | 0 <= i < |rules| :: after[i] == (before[i] || exists q | q in queried :: RuleMatchesOne(rules[i], q))
  }

  lemma MarkedTwice(rules: seq<string>, q1: set<string>, q2: set<string>, a: seq<bool>, b: seq<bool>, c: seq<bool>)
    requires Marked(rules, q1, a, b) && Marked(rules, q2, b, c)
    ensures Marked(rules, q1 + q2, a, c)
  {
  }

  lemma MarkedNone(rules: seq<string>, a: seq<bool>)
    requires |a| == |rules|
    ensures Marked(rules, {}, a, a)
  {
  }

  // ----- map entries (buffa-codegen/src/message.rs) -----

  /** `typeName` is `<scope>.<msgName>.<entryName>`, for some scope. */
  predicate NamesEntry(typeName: string, msgName: string, entryName: string) {
    var tail := msgName + "." + entryName;
    && |tail| <= |typeName|
    && typeName[|typeName| - |tail|..] == tail
    && (|tail| == |typeName| || typeName[|typeName| - |tail| - 1] == '.')
  }

  /** The name of the entry of a map field: the first map-entry message that its type names. */
  function MapEntryName(msgName: string, nested: seq<Message>, field: Field): Option<string> {
    if field.typeName.None? || nested == [] then None
    else if nested[0].mapEntry && nested[0].name.Some?
      && NamesEntry(field.typeName.value, msgName, nested[0].name.value)
    then nested[0].name
    else MapEntryName(msgName, nested[1..], field)
  }

  /** Map fields of a message that a rule matches, as (entry name, field path), in field order. */
  function MatchedEntries(msgName: string, prefix: string, msg: Message, fields: seq<Field>,
                          rules: seq<string>): seq<(string, string)> {
    if fields == [] then []
    else
      var init, f := fields[..|fields| - 1], fields[|fields| - 1];
      var entry := if f.name.Some? then MapEntryName(msgName, msg.nested, f) else None;
      MatchedEntries(msgName, prefix, msg, init, rules) +
      if f.name.Some? && entry.Some? && AnyMatch(rules, prefix + f.name.value)
      then [(entry.value, prefix + f.name.value)] else []
  }

  /** The path of the first matched map field whose entry is named `name`. */
  function FirstFor(entries: seq<(string, string)>, name: Option<string>): Option<string> {
    if entries == [] || name.None? then None
    else if entries[0].0 == name.value then Some(entries[0].1)
    else FirstFor(entries[1..], name)
  }

  // ----- the rewrite, as a function -----

  function OpenEnum(rules: seq<string>, prefix: string, e: EnumDecl): EnumDecl {
    if e.name.Some? && AnyMatch(rules, prefix + e.name.value) then e.(enumType := Some(OPEN)) else e
  }

  /** The value field of a matched map's entry is opened, unless its own enum is. */
  function OpenValue(rules: seq<string>, local: set<string>, f: Field): Field {
    if f.number == Some(2) && f.fieldType == TypeEnum
       && !(f.typeName.Some? && f.typeName.value in local && AnyMatch(rules, f.typeName.value))
    then f.(enumType := Some(OPEN)) else f
  }

  predicate IsEnumField(f: Field) {
    f.fieldType == TypeEnum && f.name.Some? && f.typeName.Some?
  }

  function OpenField(rules: seq<string>, local: set<string>, prefix: string, f: Field): Field {
    if !IsEnumField(f) then f
    else
      var fieldMatch := AnyMatch(rules, prefix + f.name.value);
      var isLocal := f.typeName.value in local;
      var typeMatch := AnyMatch(rules, f.typeName.value);
      if (fieldMatch || (!isLocal && typeMatch)) && !(isLocal && typeMatch) then f.(enumType := Some(OPEN)) else f
  }

  function RewriteField(rules: seq<string>, local: set<string>, prefix: string, routed: bool, f: Field): Field {
    OpenField(rules, local, prefix, if routed then OpenValue(rules, local, f) else f)
  }

  /** The message at `prefix`; `routed` when a rule matches the map field whose entry it is. */
  function RewriteMessage(rules: seq<string>, local: set<string>, prefix: string, routed: bool,
                          msg: Message): (r: Message)
    ensures r.name == msg.name && r.mapEntry == msg.mapEntry && r.enumType == msg.enumType
    decreases msg
  {
    if msg.name.None? then msg
    else
      var inner := prefix + msg.name.value + ".";
      var entries := MatchedEntries(msg.name.value, inner, msg, msg.fields, rules);
      msg.(
        fields := seq(|msg.fields|,
          i requires 0 <= i < |msg.fields| => RewriteField(rules, local, inner, routed, msg.fields[i])),
        enums := seq(|msg.enums|, i requires 0 <= i < |msg.enums| => OpenEnum(rules, inner, msg.enums[i])),
        nested := seq(|msg.nested|, i requires 0 <= i < |msg.nested| =>
          RewriteMessage(rules, local, inner, FirstFor(entries, msg.nested[i].name).Some?, msg.nested[i])))
  }

  function PackagePrefix(package: Option<string>): string {
    if package.Some? && package.value != "" then "." + package.value + "." else "."
  }

  function RewriteFile(rules: seq<string>, local: set<string>, f: File): File {
    var prefix := PackagePrefix(f.package);
    f.(enums := seq(|f.enums|, i requires 0 <= i < |f.enums| => OpenEnum(rules, prefix, f.enums[i])),
       messages := seq(|f.messages|, i requires 0 <= i < |f.messages| =>
         RewriteMessage(rules, local, prefix, false, f.messages[i])))
  }

  function EnumFqns(prefix: string, enums: seq<EnumDecl>): set<string> {
    set e | e in enums && e.name.Some? :: prefix + e.name.value
  }

  function MessageEnumFqns(prefix: string, msg: Message): set<string>
    decreases msg, 0
  {
    if msg.name.None? then {}
    else
      var inner := prefix + msg.name.value + ".";
      EnumFqns(inner, msg.enums) + MessagesEnumFqns(inner, msg.nested)
  }

  function MessagesEnumFqns(prefix: string, msgs: seq<Message>): set<string>
    decreases msgs, 1
  {
    if msgs == [] then {} else MessageEnumFqns(prefix, msgs[0]) + MessagesEnumFqns(prefix, msgs[1..])
  }

  /** The enums declared in the set. */
  function LocalEnums(files: seq<File>): set<string> {
    if files == [] then {}
    else
      var prefix := PackagePrefix(files[0].package);
      EnumFqns(prefix, files[0].enums) + MessagesEnumFqns(prefix, files[0].messages) + LocalEnums(files[1..])
  }

  function Rewrite(rules: seq<string>, files: seq<File>): seq<File> {
    seq(|files|, i requires 0 <= i < |files| => RewriteFile(rules, LocalEnums(files), files[i]))
  }

  // ----- the paths that are looked up -----

  function ValueQueries(local: set<string>, path: string, f: Field): set<string> {
    if f.number == Some(2) && f.fieldType == TypeEnum
    then {path} + (if f.typeName.Some? && f.typeName.value in local then {f.typeName.value} else {})
    else {}
  }

  function FieldQueries(prefix: string, f: Field): set<string> {
    if IsEnumField(f) then {prefix + f.name.value, f.typeName.value} else {}
  }

  function AllValueQueries(local: set<string>, path: string, fields: seq<Field>): set<string> {
    set f, q | f in fields && q in ValueQueries(local, path, f) :: q
  }

  function AllFieldQueries(prefix: string, fields: seq<Field>): set<string> {
    set f, q | f in fields && q in FieldQueries(prefix, f) :: q
  }

  /** Every path that decides something about `msg` and what is nested in it. */
  function Queried(rules: seq<string>, local: set<string>, prefix: string, routed: Option<string>,
                   msg: Message): set<string>
    decreases msg, 0
  {
    if msg.name.None? then {}
    else
      var inner := prefix + msg.name.value + ".";
      var entries := MatchedEntries(msg.name.value, inner, msg, msg.fields, rules);
      (if routed.Some? then AllValueQueries(local, routed.value, msg.fields) else {})
      + AllFieldQueries(inner, msg.fields) + EnumFqns(inner, msg.enums)
      + QueriedNested(rules, local, inner, entries, msg.nested)
  }

  function QueriedNested(rules: seq<string>, local: set<string>, inner: string, entries: seq<(string, string)>,
                         nested: seq<Message>): set<string>
    decreases nested, 1
  {
    if nested == [] then {}
    else Queried(rules, local, inner, FirstFor(entries, nested[0].name), nested[0])
         + QueriedNested(rules, local, inner, entries, nested[1..])
  }

  function QueriedMessages(rules: seq<string>, local: set<string>, prefix: string, msgs: seq<Message>): set<string> {
    QueriedNested(rules, local, prefix, [], msgs)
  }

  function QueriedFiles(rules: seq<string>, local: set<string>, files: seq<File>): set<string> {
    if files == [] then {}
    else QueriedFile(rules, local, files[0]) + QueriedFiles(rules, local, files[1..])
  }

  // ----- the pass -----

  method OpenEnums(enums: seq<EnumDecl>, prefix: string, rules: seq<string>,
                   matched: array<bool>) returns (out: seq<EnumDecl>)
    requires matched.Length == |rules|
    modifies matched
    ensures out == seq(|enums|, i requires 0 <= i < |enums| => OpenEnum(rules, prefix, enums[i]))
    ensures Marked(rules, EnumFqns(prefix, enums), old(matched[..]), matched[..])
  {
    out := [];
    MarkedNone(rules, matched[..]);
    for i := 0 to |enums|
      invariant |out| == i && forall j | 0 <= j < i :: out[j] == OpenEnum(rules, prefix, enums[j])
      invariant Marked(rules, EnumFqns(prefix, enums[..i]), old(matched[..]), matched[..])
    {
      assert enums[..i + 1] == enums[..i] + [enums[i]];
      var e := enums[i];
      if e.name.None? {
        assert EnumFqns(prefix, enums[..i + 1]) == EnumFqns(prefix, enums[..i]);
        out := out + [e];
        continue;
      }
      ghost var before := matched[..];
      var any := RuleMatches(rules, prefix + e.name.value, matched);
      MarkedTwice(rules, EnumFqns(prefix, enums[..i]), {prefix + e.name.value}, old(matched[..]), before, matched[..]);
      assert EnumFqns(prefix, enums[..i + 1]) == EnumFqns(prefix, enums[..i]) + {prefix + e.name.value};
      out := out + [if any then e.(enumType := Some(OPEN)) else e];
    }
    assert enums[..|enums|] == enums;
  }

  method OpenValueField(f: Field, path: string, rules: seq<string>, local: set<string>, matched: array<bool>)
    returns (out: Field)
    requires matched.Length == |rules|
    modifies matched
    ensures out == OpenValue(rules, local, f)
    ensures Marked(rules, ValueQueries(local, path, f), old(matched[..]), matched[..])
  {
    out := f;
    MarkedNone(rules, matched[..]);
    if f.number == Some(2) && f.fieldType == TypeEnum {
      var viaEnum := false;
      ghost var asked: set<string> := {};
      if f.typeName.Some? && f.typeName.value in local {
        viaEnum := RuleMatches(rules, f.typeName.value, matched);
        asked := {f.typeName.value};
      }
      if !viaEnum { out := f.(enumType := Some(OPEN)); }
      ghost var before := matched[..];
      var any := RuleMatches(rules, path, matched);
      MarkedTwice(rules, asked, {path}, old(matched[..]), before, matched[..]);
      assert asked + {path} == ValueQueries(local, path, f);
    }
  }

  method OpenDirectField(f: Field, prefix: string, rules: seq<string>, local: set<string>, matched: array<bool>)
    returns (out: Field)
    requires matched.Length == |rules|
    modifies matched
    ensures out == OpenField(rules, local, prefix, f)
    ensures Marked(rules, FieldQueries(prefix, f), old(matched[..]), matched[..])
  {
    out := f;
    MarkedNone(rules, matched[..]);
    if f.fieldType != TypeEnum || f.name.None? || f.typeName.None? { return; }
    var fieldMatch := RuleMatches(rules, prefix + f.name.value, matched);
    ghost var between := matched[..];
    var isLocal := f.typeName.value in local;
    var typeMatch := RuleMatches(rules, f.typeName.value, matched);
    MarkedTwice(rules, {prefix + f.name.value}, {f.typeName.value}, old(matched[..]), between, matched[..]);
    assert {prefix + f.name.value} + {f.typeName.value} == FieldQueries(prefix, f);
    var openedViaEnum := isLocal && typeMatch;
    var externMatch := !isLocal && typeMatch;
    if (fieldMatch || externMatch) && !openedViaEnum {
      out := f.(enumType := Some(OPEN));
    }
  }

  method OpenValueFields(fields: seq<Field>, path: string, rules: seq<string>, local: set<string>, matched: array<bool>)
    returns (out: seq<Field>)
    requires matched.Length == |rules|
    modifies matched
    ensures |out| == |fields| && forall i | 0 <= i < |fields| :: out[i] == OpenValue(rules, local, fields[i])
    ensures Marked(rules, AllValueQueries(local, path, fields), old(matched[..]), matched[..])
  {
    out := [];
    MarkedNone(rules, matched[..]);
    for i := 0 to |fields|
      invariant |out| == i && forall j | 0 <= j < i :: out[j] == OpenValue(rules, local, fields[j])
      invariant Marked(rules, AllValueQueries(local, path, fields[..i]), old(matched[..]), matched[..])
    {
      assert fields[..i + 1] == fields[..i] + [fields[i]];
      ghost var before := matched[..];
      var f := OpenValueField(fields[i], path, rules, local, matched);
      MarkedTwice(rules, AllValueQueries(local, path, fields[..i]), ValueQueries(local, path, fields[i]),
                  old(matched[..]), before, matched[..]);
      assert AllValueQueries(local, path, fields[..i + 1]) ==
             AllValueQueries(local, path, fields[..i]) + ValueQueries(local, path, fields[i]);
      out := out + [f];
    }
    assert fields[..|fields|] == fields;
  }

  method OpenDirectFields(fields: seq<Field>, prefix: string, rules: seq<string>, local: set<string>,
                          matched: array<bool>)
    returns (out: seq<Field>)
    requires matched.Length == |rules|
    modifies matched
    ensures |out| == |fields| && forall i | 0 <= i < |fields| :: out[i] == OpenField(rules, local, prefix, fields[i])
    ensures Marked(rules, AllFieldQueries(prefix, fields), old(matched[..]), matched[..])
  {
    out := [];
    MarkedNone(rules, matched[..]);
    for i := 0 to |fields|
      invariant |out| == i && forall j | 0 <= j < i :: out[j] == OpenField(rules, local, prefix, fields[j])
      invariant Marked(rules, AllFieldQueries(prefix, fields[..i]), old(matched[..]), matched[..])
    {
      assert fields[..i + 1] == fields[..i] + [fields[i]];
      ghost var before := matched[..];
      var f := OpenDirectField(fields[i], prefix, rules, local, matched);
      MarkedTwice(rules, AllFieldQueries(prefix, fields[..i]), FieldQueries(prefix, fields[i]),
                  old(matched[..]), before, matched[..]);
      assert AllFieldQueries(prefix, fields[..i + 1]) ==
             AllFieldQueries(prefix, fields[..i]) + FieldQueries(prefix, fields[i]);
      out := out + [f];
    }
    assert fields[..|fields|] == fields;
  }

  method CollectMatchedEntries(msgName: string, prefix: string, msg: Message, rules: seq<string>)
    returns (entries: seq<(string, string)>)
    ensures entries == MatchedEntries(msgName, prefix, msg, msg.fields, rules)
  {
    entries := [];
    for i := 0 to |msg.fields|
      invariant entries == MatchedEntries(msgName, prefix, msg, msg.fields[..i], rules)
    {
      assert msg.fields[..i + 1][..i] == msg.fields[..i];
      var field := msg.fields[i];
      if field.name.None? { continue; }
      var entry := MapEntryName(msgName, msg.nested, field);
      if entry.None? { continue; }
      if AnyMatch(rules, prefix + field.name.value) {
        entries := entries + [(entry.value, prefix + field.name.value)];
      }
    }
    assert msg.fields[..|msg.fields|] == msg.fields;
  }

  lemma QueriesBelow(prefix: string, a: seq<Field>, b: seq<Field>)
    requires |a| == |b| && forall i | 0 <= i < |a| :: FieldQueries(prefix, a[i]) == FieldQueries(prefix, b[i])
    ensures AllFieldQueries(prefix, a) <= AllFieldQueries(prefix, b)
  {
    forall q | q in AllFieldQueries(prefix, a) ensures q in AllFieldQueries(prefix, b) {
      var f :| f in a && q in FieldQueries(prefix, f);
      var i :| 0 <= i < |a| && a[i] == f;
      assert b[i] in b;
    }
  }

  /** Opening a value keeps what a field is asked about. */
  lemma SameFieldQueries(rules: seq<string>, local: set<string>, prefix: string, fields: seq<Field>, values: seq<Field>)
    requires |values| == |fields| && forall i | 0 <= i < |fields| :: values[i] == OpenValue(rules, local, fields[i])
    ensures AllFieldQueries(prefix, values) == AllFieldQueries(prefix, fields)
  {
    QueriesBelow(prefix, fields, values);
    QueriesBelow(prefix, values, fields);
  }

  /** Both passes over the fields of a message: first the routed value, then every field by its own path. */
  method OpenFields(fields: seq<Field>, prefix: string, rules: seq<string>, local: set<string>, routed: Option<string>,
                    matched: array<bool>)
    returns (out: seq<Field>)
    requires matched.Length == |rules|
    modifies matched
    ensures out ==
      seq(|fields|, i requires 0 <= i < |fields| => RewriteField(rules, local, prefix, routed.Some?, fields[i]))
    ensures Marked(rules, (if routed.Some? then AllValueQueries(local, routed.value, fields) else {})
      + AllFieldQueries(prefix, fields),
                   old(matched[..]), matched[..])
  {
    var values := fields;
    ghost var asked: set<string> := {};
    MarkedNone(rules, matched[..]);
    if routed.Some? {
      values := OpenValueFields(fields, routed.value, rules, local, matched);
      asked := AllValueQueries(local, routed.value, fields);
      SameFieldQueries(rules, local, prefix, fields, values);
    }
    ghost var between := matched[..];
    out := OpenDirectFields(values, prefix, rules, local, matched);
    MarkedTwice(rules, asked, AllFieldQueries(prefix, values), old(matched[..]), between, matched[..]);
  }

  method ApplyToMessage(msg: Message, prefix: string, rules: seq<string>, local: set<string>, routed: Option<string>,
                        matched: array<bool>)
    returns (out: Message)
    requires matched.Length == |rules|
    modifies matched
    ensures out == RewriteMessage(rules, local, prefix, routed.Some?, msg)
    ensures Marked(rules, Queried(rules, local, prefix, routed, msg), old(matched[..]), matched[..])
    decreases msg, 0
  {
    MarkedNone(rules, matched[..]);
    if msg.name.None? { return msg; }
    var inner := prefix + msg.name.value + ".";
    var entries := CollectMatchedEntries(msg.name.value, inner, msg, rules);
    ghost var start := matched[..];
    var fields := OpenFields(msg.fields, inner, rules, local, routed, matched);
    ghost var asked := (if routed.Some? then AllValueQueries(local, routed.value, msg.fields) else {})
                       + AllFieldQueries(inner, msg.fields);
    ghost var afterFields := matched[..];
    var enums := OpenEnums(msg.enums, inner, rules, matched);
    MarkedTwice(rules, asked, EnumFqns(inner, msg.enums), start, afterFields, matched[..]);
    ghost var afterEnums := matched[..];
    var nested := ApplyToNested(msg.nested, inner, rules, local, entries, matched);
    MarkedTwice(rules, asked + EnumFqns(inner, msg.enums), QueriedNested(rules, local, inner, entries, msg.nested),
                start, afterEnums, matched[..]);
    out := msg.(fields := fields, enums := enums, nested := nested);
  }

  method ApplyToNested(nested: seq<Message>, inner: string, rules: seq<string>, local: set<string>,
                       entries: seq<(string, string)>, matched: array<bool>)
    returns (out: seq<Message>)
    requires matched.Length == |rules|
    modifies matched
    ensures out == seq(|nested|, i requires 0 <= i < |nested| =>
      RewriteMessage(rules, local, inner, FirstFor(entries, nested[i].name).Some?, nested[i]))
    ensures Marked(rules, QueriedNested(rules, local, inner, entries, nested), old(matched[..]), matched[..])
    decreases nested, 1
  {
    out := [];
    MarkedNone(rules, matched[..]);
    for i := 0 to |nested|
      invariant |out| == i
      invariant forall j | 0 <= j < i ::
        out[j] == RewriteMessage(rules, local, inner, FirstFor(entries, nested[j].name).Some?, nested[j])
      invariant Marked(rules, QueriedNested(rules, local, inner, entries, nested[..i]), old(matched[..]), matched[..])
    {
      var routed := FirstFor(entries, nested[i].name);
      ghost var before := matched[..];
      var m := ApplyToMessage(nested[i], inner, rules, local, routed, matched);
      NestedMarked(rules, local, inner, entries, nested, i, old(matched[..]), before, matched[..]);
      out := out + [m];
    }
    assert nested[..|nested|] == nested;
  }

  lemma NestedMarked(rules: seq<string>, local: set<string>, inner: string, entries: seq<(string, string)>,
                     nested: seq<Message>, i: nat, start: seq<bool>, before: seq<bool>, after: seq<bool>)
    requires i < |nested|
    requires Marked(rules, QueriedNested(rules, local, inner, entries, nested[..i]), start, before)
    requires Marked(rules, Queried(rules, local, inner, FirstFor(entries, nested[i].name), nested[i]), before, after)
    ensures Marked(rules, QueriedNested(rules, local, inner, entries, nested[..i + 1]), start, after)
  {
    var more := Queried(rules, local, inner, FirstFor(entries, nested[i].name), nested[i]);
    OneLonger(nested, i);
    NestedAppend(rules, local, inner, entries, nested[..i], nested[i]);
    MarkedTwice(rules, QueriedNested(rules, local, inner, entries, nested[..i]), more, start, before, after);
  }

  lemma {:induction false} NestedAppend(rules: seq<string>, local: set<string>, inner: string,
                                        entries: seq<(string, string)>, init: seq<Message>, m: Message)
    ensures QueriedNested(rules, local, inner, entries, init + [m]) ==
            QueriedNested(rules, local, inner, entries, init)
            + Queried(rules, local, inner, FirstFor(entries, m.name), m)
    decreases |init|
  {
    if init != [] {
      NestedAppend(rules, local, inner, entries, init[1..], m);
      assert (init + [m])[1..] == init[1..] + [m];
    }
  }

  function QueriedFile(rules: seq<string>, local: set<string>, f: File): set<string> {
    EnumFqns(PackagePrefix(f.package), f.enums) + QueriedMessages(rules, local, PackagePrefix(f.package), f.messages)
  }

  method ApplyToFile(f: File, rules: seq<string>, local: set<string>, matched: array<bool>) returns (out: File)
    requires matched.Length == |rules|
    modifies matched
    ensures out == RewriteFile(rules, local, f)
    ensures Marked(rules, QueriedFile(rules, local, f), old(matched[..]), matched[..])
  {
    var prefix := PackagePrefix(f.package);
    var enums := OpenEnums(f.enums, prefix, rules, matched);
    ghost var between := matched[..];
    var messages := ApplyToNested(f.messages, prefix, rules, local, [], matched);
    MarkedTwice(rules, EnumFqns(prefix, f.enums), QueriedMessages(rules, local, prefix, f.messages),
                old(matched[..]), between, matched[..]);
    out := f.(enums := enums, messages := messages);
  }

  lemma {:induction false} FilesAppend(rules: seq<string>, local: set<string>, init: seq<File>, f: File)
    ensures QueriedFiles(rules, local, init + [f]) == QueriedFiles(rules, local, init) + QueriedFile(rules, local, f)
  {
    if init != [] {
      FilesAppend(rules, local, init[1..], f);
      assert (init + [f])[1..] == init[1..] + [f];
    }
  }

  lemma FilesMarked(rules: seq<string>, local: set<string>, files: seq<File>, k: nat,
                    start: seq<bool>, before: seq<bool>, after: seq<bool>)
    requires k < |files|
    requires Marked(rules, QueriedFiles(rules, local, files[..k]), start, before)
    requires Marked(rules, QueriedFile(rules, local, files[k]), before, after)
    ensures Marked(rules, QueriedFiles(rules, local, files[..k + 1]), start, after)
  {
    OneLonger(files, k);
    FilesAppend(rules, local, files[..k], files[k]);
    MarkedTwice(rules, QueriedFiles(rules, local, files[..k]), QueriedFile(rules, local, files[k]), start, before,
      after);
  }

  ghost predicate RewrittenUpTo(rules: seq<string>, local: set<string>, files: seq<File>, k: nat, out: seq<File>) {
    |out| == k <= |files| && forall j | 0 <= j < k :: out[j] == RewriteFile(rules, local, files[j])
  }

  lemma RewrittenNext(rules: seq<string>, local: set<string>, files: seq<File>, k: nat, out: seq<File>)
    requires k < |files| && RewrittenUpTo(rules, local, files, k, out)
    ensures RewrittenUpTo(rules, local, files, k + 1, out + [RewriteFile(rules, local, files[k])])
  {
  }

  method ApplyOpenEnumRules(files: seq<File>, rules: seq<string>, matched: array<bool>) returns (out: seq<File>)
    requires matched.Length == |rules|
    modifies matched
    ensures out == Rewrite(rules, files)
    ensures Marked(rules, QueriedFiles(rules, LocalEnums(files), files), old(matched[..]), matched[..])
  {
    var local := LocalEnums(files);
    out := [];
    MarkedNone(rules, matched[..]);
    for k := 0 to |files|
      invariant RewrittenUpTo(rules, local, files, k, out)
      invariant Marked(rules, QueriedFiles(rules, local, files[..k]), old(matched[..]), matched[..])
    {
      ghost var before := matched[..];
      var f := ApplyToFile(files[k], rules, local, matched);
      FilesMarked(rules, local, files, k, old(matched[..]), before, matched[..]);
      RewrittenNext(rules, local, files, k, out);
      out := out + [f];
    }
    assert files[..|files|] == files;
  }

  /** The rewritten set and the rules that matched nothing; nothing at all when no rule is configured. */
  method ApplyFeatureOverrides(files: seq<File>, overrides: seq<string>)
    returns (r: Option<(seq<File>, seq<string>)>)
    ensures r.None? <==> overrides == []
    ensures r.Some? ==> r.value.0 == Rewrite(overrides, files)
    ensures r.Some? ==> r.value.1 == Unmatched(overrides, QueriedFiles(overrides, LocalEnums(files), files))
  {
    if overrides == [] { return None; }
    var matched := new bool[|overrides|](i => false);
    var out := ApplyOpenEnumRules(files, overrides, matched);
    var unmatched := [];
    ghost var queried := QueriedFiles(overrides, LocalEnums(files), files);
    for i := 0 to |overrides|
      invariant unmatched == Unmatched(overrides[..i], queried)
      invariant Marked(overrides, queried, seq(|overrides|, j => false), matched[..])
    {
      assert overrides[..i + 1][..i] == overrides[..i];
      if !matched[i] { unmatched := unmatched + [overrides[i]]; }
    }
    assert overrides[..|overrides|] == overrides;
    return Some((out, unmatched));
  }

  ghost predicate Inert(rule: string, queried: set<string>) {
    forall q | q in queried :: !RuleMatchesOne(rule, q)
  }

  /** The rules that match nothing that was looked up, in order. */
  ghost function Unmatched(rules: seq<string>, queried: set<string>): seq<string> {
    if rules == [] then []
    else
      Unmatched(rules[..|rules| - 1], queried) +
      if Inert(rules[|rules| - 1], queried) then [rules[|rules| - 1]] else []
  }

  /** The rules that are returned are those that match nothing looked up, in their order and as often as they occur. */
  lemma {:induction false} UnmatchedInOrder(rules: seq<string>, queried: set<string>) returns (at: seq<nat>)
    ensures Increasing(at)
    ensures forall i: nat :: i in at <==> i < |rules| && !exists q | q in queried :: RuleMatchesOne(rules[i], q)
    ensures |Unmatched(rules, queried)| == |at|
    ensures forall k | 0 <= k < |at| :: at[k] in at && Unmatched(rules, queried)[k] == rules[at[k]]
  {
    at := [];
    if rules != [] {
      var n := |rules| - 1;
      at := UnmatchedInOrder(rules[..n], queried);
      assert forall k | 0 <= k < |at| :: at[k] in at && rules[..n][at[k]] == rules[at[k]];
      if Inert(rules[n], queried) {
        IncreasingMore(at, n);
        at := at + [n];
      }
    }
  }

  /**
    The slot of a field is set exactly for an enum-typed field with a name and a type that a rule matches by its
    path, or by an enum of another set, or that is number 2 of a routed entry, unless its own enum is in the set and
    matched itself; and nothing else about the field changes.
   */
  lemma SlotExactly(rules: seq<string>, local: set<string>, prefix: string, routed: bool, f: Field)
    requires f.fieldType == TypeEnum && f.name.Some? && f.typeName.Some?
    ensures
      var matchedEnum := AnyMatch(rules, f.typeName.value);
      RewriteField(rules, local, prefix, routed, f) ==
      if && !(f.typeName.value in local && matchedEnum)
         && (AnyMatch(rules, prefix + f.name.value) || matchedEnum || (routed && f.number == Some(2)))
      then f.(enumType := Some(OPEN)) else f
  {
  }

  /** Fields of other types, and those without a name or type outside of routed entries, are left alone. */
  lemma OtherFieldsStay(rules: seq<string>, local: set<string>, prefix: string, routed: bool, f: Field)
    ensures f.fieldType != TypeEnum ==> RewriteField(rules, local, prefix, routed, f) == f
    ensures (f.name.None? || f.typeName.None?) && !(routed && f.number == Some(2)) ==>
              RewriteField(rules, local, prefix, routed, f) == f
  {
  }
}
