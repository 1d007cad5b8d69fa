/** The parts of protobuf's descriptor messages that the planning passes read and rewrite. */
module Descriptors {
  import opened Text

  /** `FeatureSet.enum_type`. */
  datatype EnumType = OPEN | CLOSED | UNKNOWN

  /** `FieldDescriptorProto.type`, reduced to the distinction the passes make. */
  datatype FieldType = TypeEnum | TypeMessage | TypeOther

  datatype Field = Field(
    name: Option<string>,
    number: Option<int>,
    fieldType: FieldType,
    typeName: Option<string>,
    oneofIndex: Option<int>,
    proto3Optional: bool,
    enumType: Option<EnumType>)

  datatype Oneof = Oneof(name: Option<string>)

  datatype EnumValue = EnumValue(name: string, number: int, deprecated: bool)

  datatype EnumDecl = EnumDecl(name: Option<string>, enumType: Option<EnumType>, values: seq<EnumValue>)

  datatype Message = Message(
    name: Option<string>,
    fields: seq<Field>,
    oneofs: seq<Oneof>,
    nested: seq<Message>,
    enums: seq<EnumDecl>,
    mapEntry: bool,
    enumType: Option<EnumType>)

  datatype File = File(
    name: Option<string>,
    package: Option<string>,
    messages: seq<Message>,
    enums: seq<EnumDecl>,
    enumType: EnumType)

  /** A member of a oneof other than the synthetic one of a proto3 `optional` field. */
  predicate IsRealOneofMember(f: Field) {
    f.oneofIndex.Some? && !f.proto3Optional
  }

  // ----- every message of a descriptor set -----

  /** A message with its dotted name (no leading dot). */
  datatype Scope = Scope(fqn: string, msg: Message)

  /** `msg` and the messages nested in it, the nested ones first; map entries are skipped. */
  function MessagesIn(fqn: string, msg: Message): seq<Scope>
    decreases msg, 0
  {
    if msg.mapEntry then [] else MessagesInAll(fqn + ".", msg.nested) + [Scope(fqn, msg)]
  }

  function MessagesInAll(prefix: string, msgs: seq<Message>): seq<Scope>
    decreases msgs, 1
  {
    if msgs == [] then []
    else MessagesIn(prefix + msgs[0].name.GetOr(""), msgs[0]) + MessagesInAll(prefix, msgs[1..])
  }

  function MessagesInFiles(files: seq<File>): seq<Scope> {
    if files == [] then []
    else
      var package := files[0].package.GetOr("");
      MessagesInAll(if package == "" then "" else package + ".", files[0].messages)
      + MessagesInFiles(files[1..])
  }

  // ----- the struct namespace of a message -----

  /** A field (`number` set) or a real oneof (`number` unset) of a message's struct. */
  datatype Member = Member(name: string, number: Option<int>)

  const I32_MAX := 0x7fff_ffff

  function FieldMembers(fields: seq<Field>): seq<Member> {
    if fields == [] then []
    else
      var f := fields[|fields| - 1];
      FieldMembers(fields[..|fields| - 1]) +
      if f.name.Some? && !IsRealOneofMember(f) then [Member(f.name.value, Some(f.number.GetOr(0)))] else []
  }

  function RealOneofs(fields: seq<Field>): set<int> {
    set f | f in fields && f.name.Some? && IsRealOneofMember(f) :: f.oneofIndex.value
  }

  function OneofMembers(oneofs: seq<Oneof>, used: set<int>): seq<Member> {
    if oneofs == [] then []
    else
      var last := |oneofs| - 1;
      OneofMembers(oneofs[..last], used) +
      if oneofs[last].name.Some? && (if last <= I32_MAX then last else I32_MAX) in used
      then [Member(oneofs[last].name.value, None)] else []
  }

  function StructMembers(msg: Message): seq<Member> {
    FieldMembers(msg.fields) + OneofMembers(msg.oneofs, RealOneofs(msg.fields))
  }

  method CollectFieldMembers(fields: seq<Field>) returns (members: seq<Member>, realOneofs: set<int>)
    ensures members == FieldMembers(fields) && realOneofs == RealOneofs(fields)
  {
    members, realOneofs := [], {};
    for i := 0 to |fields|
      invariant members == FieldMembers(fields[..i])
      invariant realOneofs == RealOneofs(fields[..i])
    {
      var field := fields[i];
      OneMoreField(fields, i);
      if field.name.None? { continue; }
      if IsRealOneofMember(field) {
        realOneofs := realOneofs + {field.oneofIndex.value};
        continue;
      }
      members := members + [Member(field.name.value, Some(field.number.GetOr(0)))];
    }
    assert fields[..|fields|] == fields;
  }

  lemma OneMoreField(fields: seq<Field>, i: nat)
    requires i < |fields|
    ensures var f := fields[i];
            && FieldMembers(fields[..i + 1]) ==
               FieldMembers(fields[..i]) +
               (if f.name.Some? && !IsRealOneofMember(f) then [Member(f.name.value, Some(f.number.GetOr(0)))] else [])
            && RealOneofs(fields[..i + 1]) ==
               RealOneofs(fields[..i]) + if f.name.Some? && IsRealOneofMember(f) then {f.oneofIndex.value} else {}
  {
    assert fields[..i + 1][..i] == fields[..i];
    assert fields[..i + 1] == fields[..i] + [fields[i]];
  }

  method CollectStructMembers(msg: Message) returns (members: seq<Member>)
    ensures members == StructMembers(msg)
  {
    var fields, realOneofs := CollectFieldMembers(msg.fields);
    members := fields;
    for i := 0 to |msg.oneofs|
      invariant members == fields + OneofMembers(msg.oneofs[..i], realOneofs)
    {
      assert msg.oneofs[..i + 1][..i] == msg.oneofs[..i];
      if msg.oneofs[i].name.Some? && (if i <= I32_MAX then i else I32_MAX) in realOneofs {
        members := members + [Member(msg.oneofs[i].name.value, None)];
      }
    }
    assert msg.oneofs[..|msg.oneofs|] == msg.oneofs;
  }

  // ----- which declarations are members -----

  ghost predicate Increasing(at: seq<nat>) {
    forall i, j | 0 <= i < j < |at| :: at[i] < at[j]
  }

  lemma IncreasingMore(at: seq<nat>, n: nat)
    requires Increasing(at) && forall i | i in at :: i < n
    ensures Increasing(at + [n])
  {
    assert forall i | 0 <= i < |at| :: at[i] in at;
  }

  /** A field that is stored in the struct itself: one of no oneof, or a proto3 `optional` one. */
  predicate StandsAlone(f: Field) {
    f.name.Some? && (f.oneofIndex.None? || f.proto3Optional)
  }

  /** Oneof number `i` is named, and holds some named field that is not a proto3 `optional` one. */
  ghost predicate HoldsMembers(msg: Message, i: nat)
    requires i < |msg.oneofs|
  {
    && msg.oneofs[i].name.Some?
    && exists f | f in msg.fields ::
         && f.name.Some? && !f.proto3Optional
         && f.oneofIndex == Some(if i <= 0x7fff_ffff then i else 0x7fff_ffff)
  }

  /** The members are those of the fields at the given positions, under their names and numbers (0 if unset). */
  ghost predicate MembersOf(fields: seq<Field>, at: seq<nat>, members: seq<Member>) {
    && |members| == |at|
    && forall k | 0 <= k < |at| ::
         && at[k] in at && at[k] < |fields|
         && fields[at[k]].name == Some(members[k].name)
         && members[k].number == Some(if fields[at[k]].number.Some? then fields[at[k]].number.value else 0)
  }

  lemma MembersMore(fields: seq<Field>, f: Field, at: seq<nat>, members: seq<Member>)
    requires MembersOf(fields, at, members) && f.name.Some?
    ensures MembersOf(fields + [f], at + [|fields|], members + [Member(f.name.value, Some(f.number.GetOr(0)))])
  {
    var at', all := at + [|fields|], fields + [f];
    forall k | 0 <= k < |at'| ensures at'[k] in at' && at'[k] < |all| {}
    assert forall k | 0 <= k < |at| :: at[k] in at && all[at[k]] == fields[at[k]];
  }

  lemma {:induction false} FieldPositions(fields: seq<Field>) returns (at: seq<nat>)
    ensures Increasing(at) && forall i: nat :: i in at <==> i < |fields| && StandsAlone(fields[i])
    ensures MembersOf(fields, at, FieldMembers(fields))
  {
    at := [];
    if fields != [] {
      var n := |fields| - 1;
      at := FieldPositions(fields[..n]);
      assert fields == fields[..n] + [fields[n]];
      if StandsAlone(fields[n]) {
        MembersMore(fields[..n], fields[n], at, FieldMembers(fields[..n]));
        IncreasingMore(at, n);
        at := at + [n];
      } else {
        assert forall k | 0 <= k < |at| :: at[k] in at;
        assert FieldMembers(fields) == FieldMembers(fields[..n]);
      }
    }
  }

  lemma {:induction false} OneofPositions(oneofs: seq<Oneof>, used: set<int>) returns (at: seq<nat>)
    ensures Increasing(at)
    ensures forall i: nat :: i in at <==>
      i < |oneofs| && oneofs[i].name.Some? && (if i <= I32_MAX then i else I32_MAX) in used
    ensures |OneofMembers(oneofs, used)| == |at|
    ensures forall k | 0 <= k < |at| ::
      at[k] in at &&
      var m := OneofMembers(oneofs, used)[k];
      oneofs[at[k]].name == Some(m.name) && m.number == None
  {
    at := [];
    if oneofs != [] {
      var n := |oneofs| - 1;
      at := OneofPositions(oneofs[..n], used);
      assert forall k | 0 <= k < |at| :: at[k] in at && oneofs[..n][at[k]] == oneofs[at[k]];
      if oneofs[n].name.Some? && (if n <= I32_MAX then n else I32_MAX) in used {
        IncreasingMore(at, n);
        at := at + [n];
      }
    }
  }

  /**
    The members of a struct, in order and each once: the fields that stand alone, under their names and
    numbers (0 if unset), and behind them the oneofs that hold members.
   */
  lemma StructMembersAre(msg: Message) returns (fields: seq<nat>, oneofs: seq<nat>)
    ensures Increasing(fields) && forall i: nat :: i in fields <==> i < |msg.fields| && StandsAlone(msg.fields[i])
    ensures Increasing(oneofs) && forall i: nat :: i in oneofs <==> i < |msg.oneofs| && HoldsMembers(msg, i)
    ensures |StructMembers(msg)| == |fields| + |oneofs|
    ensures MembersOf(msg.fields, fields, StructMembers(msg)[..|fields|])
    ensures forall k | 0 <= k < |oneofs| ::
      oneofs[k] in oneofs &&
      var m := StructMembers(msg)[|fields| + k];
      msg.oneofs[oneofs[k]].name == Some(m.name) && m.number == None
  {
    fields := FieldPositions(msg.fields);
    oneofs := OneofPositions(msg.oneofs, RealOneofs(msg.fields));
    forall i: nat ensures i in oneofs <==> i < |msg.oneofs| && HoldsMembers(msg, i) {
      if i < |msg.oneofs| { UsedIndex(msg.fields, if i <= I32_MAX then i else I32_MAX); }
    }
  }

  lemma UsedIndex(fields: seq<Field>, index: int)
    ensures index in RealOneofs(fields) <==>
            exists f | f in fields :: f.name.Some? && !f.proto3Optional && f.oneofIndex == Some(index)
  {
  }

  /** What protoc guarantees of a message: its member names differ, and so do its field numbers. */
  ghost predicate ValidMembers(members: seq<Member>) {
    forall i, j | 0 <= i < j < |members| ::
      && members[i].name != members[j].name
      && (members[i].number.Some? ==> members[i].number != members[j].number)
  }

  // ----- which messages there are -----

  /** The message at a place below `msgs`, with the dotted name of the place; map entries have nothing below them. */
  function ScopeAt(prefix: string, msgs: seq<Message>, place: seq<nat>): Option<Scope>
    requires place != []
    decreases |place|
  {
    if place[0] >= |msgs| || msgs[place[0]].mapEntry then None
    else
      var m := msgs[place[0]];
      var fqn := prefix + if m.name.Some? then m.name.value else "";
      if |place| == 1 then Some(Scope(fqn, m)) else ScopeAt(fqn + ".", m.nested, place[1..])
  }

  lemma {:induction false} ScopeListed(prefix: string, msgs: seq<Message>, place: seq<nat>)
    requires place != [] && ScopeAt(prefix, msgs, place).Some?
    ensures ScopeAt(prefix, msgs, place).value in MessagesInAll(prefix, msgs)
    decreases |place|, place[0]
  {
    if place[0] == 0 {
      var m := msgs[0];
      if |place| > 1 { ScopeListed(prefix + m.name.GetOr("") + ".", m.nested, place[1..]); }
    } else {
      var rest := [place[0] - 1] + place[1..];
      assert rest[1..] == place[1..];
      ScopeListed(prefix, msgs[1..], rest);
    }
  }

  lemma {:induction false} ScopeSource(prefix: string, msgs: seq<Message>, sc: Scope) returns (place: seq<nat>)
    requires sc in MessagesInAll(prefix, msgs)
    ensures place != [] && ScopeAt(prefix, msgs, place) == Some(sc)
    decreases msgs
  {
    var m := msgs[0];
    var fqn := prefix + m.name.GetOr("");
    if sc in MessagesIn(fqn, m) {
      if sc == Scope(fqn, m) {
        place := [0];
      } else {
        var rest := ScopeSource(fqn + ".", m.nested, sc);
        place := [0] + rest;
        assert place[1..] == rest;
      }
    } else {
      var rest := ScopeSource(prefix, msgs[1..], sc);
      place := [rest[0] + 1] + rest[1..];
      assert place[1..] == rest[1..];
    }
  }

  ghost predicate IsScopeOf(f: File, sc: Scope) {
    var prefix := if f.package.Some? && f.package.value != "" then f.package.value + "." else "";
    exists place :: StandsAt(prefix, f.messages, place, sc)
  }

  predicate StandsAt(prefix: string, msgs: seq<Message>, place: seq<nat>, sc: Scope) {
    place != [] && ScopeAt(prefix, msgs, place) == Some(sc)
  }

  /** The messages that are planned: those of every file, at any depth, but for map entries and what is below them. */
  lemma {:induction false} MessagesAre(files: seq<File>, sc: Scope)
    ensures sc in MessagesInFiles(files) <==> exists f | f in files :: IsScopeOf(f, sc)
  {
    if files != [] {
      var f := files[0];
      assert files == [f] + files[1..];
      MessagesAre(files[1..], sc);
      FileScopes(f, sc);
    }
  }

  lemma FileScopes(f: File, sc: Scope)
    ensures
      var package := f.package.GetOr("");
      sc in MessagesInAll(if package == "" then "" else package + ".", f.messages) <==> IsScopeOf(f, sc)
  {
    var package := f.package.GetOr("");
    var prefix := if package == "" then "" else package + ".";
    if sc in MessagesInAll(prefix, f.messages) {
      var place := ScopeSource(prefix, f.messages, sc);
      assert StandsAt(prefix, f.messages, place, sc);
    }
    if place :| StandsAt(prefix, f.messages, place, sc) { ScopeListed(prefix, f.messages, place); }
  }
}
