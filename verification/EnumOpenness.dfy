/** Whether an enum is closed: the nearest `enum_type` slot that is set, from the enum outwards, decides. */
module EnumOpenness {
  import opened Text
  import opened Descriptors
  import opened FeatureOverrides
  import opened FeatureRouting
  import opened FeatureMeaning

  predicate IsSet(slot: Option<EnumType>) { slot == Some(OPEN) || slot == Some(CLOSED) }

  /** The first slot that is set says CLOSED; or none is set, and the default is closed. */
  ghost predicate ClosedBy(slots: seq<Option<EnumType>>, default: bool) {
    || (exists k | 0 <= k < |slots| :: slots[k] == Some(CLOSED) && forall j | 0 <= j < k :: !IsSet(slots[j]))
    || (default && forall k | 0 <= k < |slots| :: !IsSet(slots[k]))
  }

  /** A slot further out is what the ones further in default to. */
  lemma OuterSlot(slots: seq<Option<EnumType>>, outer: Option<EnumType>, default: bool)
    ensures ClosedBy(slots + [outer], default) <==> ClosedBy(slots, ResolveClosed(default, outer))
  {
    var all := slots + [outer];
    assert forall k | 0 <= k < |slots| :: all[k] == slots[k];
    assert all[|slots|] == outer;
    if k :| 0 <= k < |slots| && slots[k] == Some(CLOSED) && forall j | 0 <= j < k :: !IsSet(slots[j]) {
      assert all[k] == Some(CLOSED);
    }
    if k :| 0 <= k < |all| && all[k] == Some(CLOSED) && forall j | 0 <= j < k :: !IsSet(all[j]) {
      assert k < |slots| ==> slots[k] == Some(CLOSED);
      assert k == |slots| ==> outer == Some(CLOSED);
    }
  }

  lemma OneSlot(slot: Option<EnumType>, default: bool)
    ensures ResolveClosed(default, slot) <==> ClosedBy([slot], default)
  {
    OuterSlot([], slot, default);
    assert [] + [slot] == [slot];
  }

  /** The slots of the messages around a place, from the inside out. */
  function SlotsAt(msg: Message, place: seq<nat>): seq<Option<EnumType>>
    requires MessageAt(msg, place).Some?
    decreases place
  {
    (if place == [] then [] else SlotsAt(msg.nested[place[0]], place[1..])) + [msg.enumType]
  }

  lemma {:induction false} StatesOfEnums(prefix: string, closed: bool, enums: seq<EnumDecl>, e: EnumDecl)
    requires e in enums && e.name.Some?
    ensures (prefix + e.name.value, ResolveClosed(closed, e.enumType)) in EnumStates(prefix, closed, enums)
  {
    if e != enums[0] { StatesOfEnums(prefix, closed, enums[1..], e); }
  }

  lemma {:induction false} StatesOfNested(prefix: string, closed: bool, msgs: seq<Message>, i: nat, state: EnumState)
    requires i < |msgs| && state in MessageStates(prefix, closed, msgs[i])
    ensures state in MessagesStates(prefix, closed, msgs)
  {
    if i > 0 { StatesOfNested(prefix, closed, msgs[1..], i - 1, state); }
  }

  /** An enum declared in a message at any depth. */
  lemma {:induction false} StateAt(prefix: string, closed: bool, msg: Message, place: seq<nat>, e: EnumDecl)
    requires MessageAt(msg, place).Some? && e in MessageAt(msg, place).value.enums && e.name.Some?
    ensures (InnerAt(prefix, msg, place) + e.name.value, ClosedBy([e.enumType] + SlotsAt(msg, place), closed))
            in MessageStates(prefix, closed, msg)
    decreases place
  {
    var inner, slot := prefix + msg.name.value + ".", ResolveClosed(closed, msg.enumType);
    if place == [] {
      StatesOfEnums(inner, slot, msg.enums, e);
      OneSlot(e.enumType, slot);
      OuterSlot([e.enumType], msg.enumType, closed);
      assert [e.enumType] + SlotsAt(msg, place) == [e.enumType] + [msg.enumType];
      assert InnerAt(prefix, msg, place) == inner;
    } else {
      var child, rest := msg.nested[place[0]], place[1..];
      var slots := [e.enumType] + SlotsAt(child, rest);
      StateAt(inner, slot, child, rest, e);
      StatesOfNested(inner, slot, msg.nested, place[0],
                     (InnerAt(inner, child, rest) + e.name.value, ClosedBy(slots, slot)));
      OuterSlot(slots, msg.enumType, closed);
      assert [e.enumType] + SlotsAt(msg, place) == slots + [msg.enumType];
    }
  }

  lemma {:induction false} StateOfFile(files: seq<File>, i: nat, state: EnumState)
    requires i < |files| && state in StatesOfOne(files[i])
    ensures state in FileStates(files)
  {
    assert FileStates(files) == StatesOfOne(files[0]) + FileStates(files[1..]);
    if i > 0 { StateOfFile(files[1..], i - 1, state); }
  }

  function StatesOfOne(f: File): seq<EnumState> {
    MessagesStates(PackagePrefix(f.package), f.enumType == CLOSED, f.messages)
    + EnumStates(PackagePrefix(f.package), f.enumType == CLOSED, f.enums)
  }

  /** The slot of the enum, then those of the messages around it, then the file. */
  lemma EnumInMessage(files: seq<File>, i: nat, top: nat, place: seq<nat>, e: EnumDecl)
    requires i < |files| && top < |files[i].messages|
    requires MessageAt(files[i].messages[top], place).Some?
    requires e in MessageAt(files[i].messages[top], place).value.enums && e.name.Some?
    ensures (InnerAt(PackagePrefix(files[i].package), files[i].messages[top], place) + e.name.value,
             ClosedBy([e.enumType] + SlotsAt(files[i].messages[top], place), files[i].enumType == CLOSED))
            in FileStates(files)
  {
    var prefix, closed, msg := PackagePrefix(files[i].package), files[i].enumType == CLOSED, files[i].messages[top];
    var state := (InnerAt(prefix, msg, place) + e.name.value, ClosedBy([e.enumType] + SlotsAt(msg, place), closed));
    StateAt(prefix, closed, msg, place, e);
    StatesOfNested(prefix, closed, files[i].messages, top, state);
    StateOfFile(files, i, state);
  }

  lemma EnumInFile(files: seq<File>, i: nat, e: EnumDecl)
    requires i < |files| && e in files[i].enums && e.name.Some?
    ensures (PackagePrefix(files[i].package) + e.name.value, ClosedBy([e.enumType], files[i].enumType == CLOSED))
            in FileStates(files)
  {
    var prefix, closed := PackagePrefix(files[i].package), files[i].enumType == CLOSED;
    StatesOfEnums(prefix, closed, files[i].enums, e);
    OneSlot(e.enumType, closed);
    StateOfFile(files, i, (prefix + e.name.value, ResolveClosed(closed, e.enumType)));
  }

  /** With one declaration of a name, the table finds it. */
  lemma {:induction false} TableFinds(states: seq<EnumState>, fqn: string, closed: bool)
    requires (fqn, closed) in states && forall s | s in states && s.0 == fqn :: s.1 == closed
    ensures Closedness(states, fqn) == Some(closed)
  {
    var n := |states| - 1;
    assert states[n] in states;
    if states[n].0 != fqn { TableFinds(states[..n], fqn, closed); }
  }

  /** A field: its own slot when that is OPEN, then the enum it refers to, and its own slots when that is unknown. */
  lemma FieldIs(states: seq<EnumState>, f: Field, parentClosed: bool)
    ensures f.fieldType == TypeEnum && f.enumType == Some(OPEN) ==> !FieldClosed(states, f, parentClosed)
    ensures f.fieldType == TypeEnum && f.enumType != Some(OPEN) && f.typeName.Some?
            && Closedness(states, f.typeName.value).Some? ==>
              FieldClosed(states, f, parentClosed) == Closedness(states, f.typeName.value).value
    ensures f.typeName.None? || Closedness(states, f.typeName.value).None? ==>
              (FieldClosed(states, f, parentClosed) <==> ClosedBy([f.enumType], parentClosed))
  {
    OneSlot(f.enumType, parentClosed);
  }
}
