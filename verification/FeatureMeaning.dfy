/**
  What the override pass means for the code generator: the openness of every enum-typed field as
  buffa-codegen/src/features.rs resolves it, before and after the rewrite.
 */
module FeatureMeaning {
  import opened Text
  import opened Descriptors
  import opened FeatureOverrides
  import opened FeatureRouting

  // ----- resolution -----

  /** `resolve_child`, for `enum_type`: a slot that is set overrides the parent. */
  function ResolveClosed(parentClosed: bool, slot: Option<EnumType>): bool {
    match slot
    case Some(OPEN) => false
    case Some(CLOSED) => true
    case _ => parentClosed
  }

  /** An enum of the set and whether it is closed, as the table records it. */
  type EnumState = (string, bool)

  function EnumStates(prefix: string, parentClosed: bool, enums: seq<EnumDecl>): seq<EnumState> {
    if enums == [] then []
    else
      (if enums[0].name.Some? then [(prefix + enums[0].name.value, ResolveClosed(parentClosed, enums[0].enumType))]
        else [])
      + EnumStates(prefix, parentClosed, enums[1..])
  }

  function MessageStates(prefix: string, parentClosed: bool, msg: Message): seq<EnumState>
    decreases msg, 0
  {
    if msg.name.None? then []
    else
      var inner := prefix + msg.name.value + ".";
      var closed := ResolveClosed(parentClosed, msg.enumType);
      EnumStates(inner, closed, msg.enums) + MessagesStates(inner, closed, msg.nested)
  }

  function MessagesStates(prefix: string, parentClosed: bool, msgs: seq<Message>): seq<EnumState>
    decreases msgs, 1
  {
    if msgs == [] then []
    else MessageStates(prefix, parentClosed, msgs[0]) + MessagesStates(prefix, parentClosed, msgs[1..])
  }

  /** The registrations of the closedness table, in order. */
  function FileStates(files: seq<File>): seq<EnumState> {
    if files == [] then []
    else
      var prefix, closed := PackagePrefix(files[0].package), files[0].enumType == CLOSED;
      MessagesStates(prefix, closed, files[0].messages) + EnumStates(prefix, closed, files[0].enums)
      + FileStates(files[1..])
  }

  /** The table's entry for `fqn`: the last registration wins. */
  function Closedness(states: seq<EnumState>, fqn: string): Option<bool> {
    if states == [] then None
    else if states[|states| - 1].0 == fqn then Some(states[|states| - 1].1)
    else Closedness(states[..|states| - 1], fqn)
  }

  /** `resolve_field`: an OPEN slot of the field's own wins, then the referenced enum, then the chain. */
  method ResolveField(states: seq<EnumState>, f: Field, parentClosed: bool) returns (closed: bool)
    ensures closed == FieldClosed(states, f, parentClosed)
  {
    closed := ResolveClosed(parentClosed, f.enumType);
    var fieldOpensEnum := f.enumType == Some(OPEN);
    if f.fieldType == TypeEnum && !fieldOpensEnum {
      if f.typeName.Some? {
        var known := Closedness(states, f.typeName.value);
        if known.Some? { closed := known.value; }
      }
    }
  }

  function FieldClosed(states: seq<EnumState>, f: Field, parentClosed: bool): bool {
    if f.fieldType == TypeEnum && f.enumType != Some(OPEN) && f.typeName.Some?
       && Closedness(states, f.typeName.value).Some?
    then Closedness(states, f.typeName.value).value
    else ResolveClosed(parentClosed, f.enumType)
  }

  // ----- the closedness table after the rewrite -----

  function Opened(rules: seq<string>, states: seq<EnumState>): (r: seq<EnumState>)
    ensures |r| == |states|
    ensures forall i | 0 <= i < |r| :: r[i] == (states[i].0, states[i].1 && !AnyMatch(rules, states[i].0))
  {
    seq(|states|, i requires 0 <= i < |states| => (states[i].0, states[i].1 && !AnyMatch(rules, states[i].0)))
  }

  lemma {:induction false} OpenedLookup(rules: seq<string>, states: seq<EnumState>, fqn: string)
    ensures Closedness(Opened(rules, states), fqn) ==
            match Closedness(states, fqn)
            case Some(closed) => Some(closed && !AnyMatch(rules, fqn))
            case None => None
  {
    if states != [] {
      OpenedLookup(rules, states[..|states| - 1], fqn);
      assert Opened(rules, states)[..|states| - 1] == Opened(rules, states[..|states| - 1]);
    }
  }

  lemma OpenedAppend(rules: seq<string>, a: seq<EnumState>, b: seq<EnumState>)
    ensures Opened(rules, a + b) == Opened(rules, a) + Opened(rules, b)
  {
  }

  lemma {:induction false} EnumStatesOpened(rules: seq<string>, prefix: string, parentClosed: bool,
                                            enums: seq<EnumDecl>, out: seq<EnumDecl>)
    requires |out| == |enums| && forall i | 0 <= i < |enums| :: out[i] == OpenEnum(rules, prefix, enums[i])
    ensures EnumStates(prefix, parentClosed, out) == Opened(rules, EnumStates(prefix, parentClosed, enums))
  {
    if enums != [] {
      var e := enums[0];
      var state := if e.name.Some? then [(prefix + e.name.value, ResolveClosed(parentClosed, e.enumType))] else [];
      EnumStatesOpened(rules, prefix, parentClosed, enums[1..], out[1..]);
      OpenedAppend(rules, state, EnumStates(prefix, parentClosed, enums[1..]));
      if e.name.Some? { OneStateOpened(rules, prefix, parentClosed, e); }
      assert out[0] == OpenEnum(rules, prefix, e);
    }
  }

  lemma OneStateOpened(rules: seq<string>, prefix: string, parentClosed: bool, e: EnumDecl)
    requires e.name.Some?
    ensures Opened(rules, [(prefix + e.name.value, ResolveClosed(parentClosed, e.enumType))]) ==
            [(prefix + e.name.value, ResolveClosed(parentClosed, OpenEnum(rules, prefix, e).enumType))]
  {
  }

  lemma NestedRewritten(rules: seq<string>, local: set<string>, prefix: string, msg: Message, out: Message)
    requires msg.name.Some? && Rewritten(rules, local, prefix, msg, out)
    ensures out.name == msg.name && out.enumType == msg.enumType
    ensures |out.enums| == |msg.enums| && |out.nested| == |msg.nested|
    ensures forall i | 0 <= i < |msg.enums| ::
      out.enums[i] == OpenEnum(rules, prefix + msg.name.value + ".", msg.enums[i])
    ensures forall i | 0 <= i < |msg.nested| ::
      Rewritten(rules, local, prefix + msg.name.value + ".", msg.nested[i], out.nested[i])
  {
    var inner := prefix + msg.name.value + ".";
    var entries := MatchedEntries(msg.name.value, inner, msg, msg.fields, rules);
    forall i | 0 <= i < |msg.nested| ensures Rewritten(rules, local, inner, msg.nested[i], out.nested[i]) {
      assert out.nested[i] ==
        RewriteMessage(rules, local, inner, FirstFor(entries, msg.nested[i].name).Some?, msg.nested[i]);
    }
  }

  ghost predicate Rewritten(rules: seq<string>, local: set<string>, prefix: string, msg: Message, out: Message) {
    exists routed :: out == RewriteMessage(rules, local, prefix, routed, msg)
  }

  lemma {:induction false} MessageStatesOpened(rules: seq<string>, local: set<string>, prefix: string,
                                               parentClosed: bool,
                                               msg: Message, out: Message)
    requires Rewritten(rules, local, prefix, msg, out)
    ensures MessageStates(prefix, parentClosed, out) == Opened(rules, MessageStates(prefix, parentClosed, msg))
    decreases msg, 0
  {
    if msg.name.Some? {
      var inner := prefix + msg.name.value + ".";
      var closed := ResolveClosed(parentClosed, msg.enumType);
      NestedRewritten(rules, local, prefix, msg, out);
      EnumStatesOpened(rules, inner, closed, msg.enums, out.enums);
      MessagesStatesOpened(rules, local, inner, closed, msg.nested, out.nested);
      OpenedAppend(rules, EnumStates(inner, closed, msg.enums), MessagesStates(inner, closed, msg.nested));
    }
  }

  lemma {:induction false} MessagesStatesOpened(rules: seq<string>, local: set<string>, prefix: string,
                                                parentClosed: bool,
                                                msgs: seq<Message>, out: seq<Message>)
    requires |out| == |msgs| && forall i | 0 <= i < |msgs| :: Rewritten(rules, local, prefix, msgs[i], out[i])
    ensures MessagesStates(prefix, parentClosed, out) == Opened(rules, MessagesStates(prefix, parentClosed, msgs))
    decreases msgs, 1
  {
    if msgs != [] {
      MessageStatesOpened(rules, local, prefix, parentClosed, msgs[0], out[0]);
      assert forall i | 0 <= i < |msgs[1..]| :: out[1..][i] == out[i + 1] && msgs[1..][i] == msgs[i + 1];
      MessagesStatesOpened(rules, local, prefix, parentClosed, msgs[1..], out[1..]);
      OpenedAppend(rules, MessageStates(prefix, parentClosed, msgs[0]),
        MessagesStates(prefix, parentClosed, msgs[1..]));
    }
  }

  lemma {:induction false} FileStatesOpened(rules: seq<string>, local: set<string>, files: seq<File>, out: seq<File>)
    requires |out| == |files| && forall i | 0 <= i < |files| :: out[i] == RewriteFile(rules, local, files[i])
    ensures FileStates(out) == Opened(rules, FileStates(files))
  {
    if files != [] {
      var f := files[0];
      var prefix, closed := PackagePrefix(f.package), f.enumType == CLOSED;
      FileStateOpened(rules, local, f, out[0]);
      assert forall i | 0 <= i < |files[1..]| :: out[1..][i] == RewriteFile(rules, local, files[1..][i]);
      FileStatesOpened(rules, local, files[1..], out[1..]);
      var ms, es := MessagesStates(prefix, closed, f.messages), EnumStates(prefix, closed, f.enums);
      OpenedAppend(rules, ms + es, FileStates(files[1..]));
    }
  }

  lemma FileStateOpened(rules: seq<string>, local: set<string>, f: File, out: File)
    requires out == RewriteFile(rules, local, f)
    ensures
      var prefix, closed := PackagePrefix(f.package), f.enumType == CLOSED;
      MessagesStates(prefix, closed, out.messages) + EnumStates(prefix, closed, out.enums) ==
      Opened(rules, MessagesStates(prefix, closed, f.messages) + EnumStates(prefix, closed, f.enums))
  {
    var prefix, closed := PackagePrefix(f.package), f.enumType == CLOSED;
    forall i | 0 <= i < |f.messages| ensures Rewritten(rules, local, prefix, f.messages[i], out.messages[i]) {
      assert out.messages[i] == RewriteMessage(rules, local, prefix, false, f.messages[i]);
    }
    MessagesStatesOpened(rules, local, prefix, closed, f.messages, out.messages);
    EnumStatesOpened(rules, prefix, closed, f.enums, out.enums);
    OpenedAppend(rules, MessagesStates(prefix, closed, f.messages), EnumStates(prefix, closed, f.enums));
  }

  // ----- the pass's local enums are those of the table -----

  ghost function Names(states: seq<EnumState>): set<string> { set s | s in states :: s.0 }

  lemma {:induction false} EnumNames(prefix: string, parentClosed: bool, enums: seq<EnumDecl>)
    ensures EnumFqns(prefix, enums) == Names(EnumStates(prefix, parentClosed, enums))
  {
    if enums != [] {
      EnumNames(prefix, parentClosed, enums[1..]);
      assert enums == [enums[0]] + enums[1..];
      var states, rest := EnumStates(prefix, parentClosed, enums), EnumStates(prefix, parentClosed, enums[1..]);
      var head := states[..|states| - |rest|];
      assert EnumStates(prefix, parentClosed, enums) == head + EnumStates(prefix, parentClosed, enums[1..]);
      assert Names(head) == EnumFqns(prefix, [enums[0]]);
      assert EnumFqns(prefix, enums) == EnumFqns(prefix, [enums[0]]) + EnumFqns(prefix, enums[1..]);
    }
  }

  lemma NamesAppend(a: seq<EnumState>, b: seq<EnumState>)
    ensures Names(a + b) == Names(a) + Names(b)
  {
  }

  lemma {:induction false} MessageNames(prefix: string, parentClosed: bool, msg: Message)
    ensures MessageEnumFqns(prefix, msg) == Names(MessageStates(prefix, parentClosed, msg))
    decreases msg, 0
  {
    if msg.name.Some? {
      var inner := prefix + msg.name.value + ".";
      var closed := ResolveClosed(parentClosed, msg.enumType);
      EnumNames(inner, closed, msg.enums);
      MessagesNames(inner, closed, msg.nested);
      NamesAppend(EnumStates(inner, closed, msg.enums), MessagesStates(inner, closed, msg.nested));
    }
  }

  lemma {:induction false} MessagesNames(prefix: string, parentClosed: bool, msgs: seq<Message>)
    ensures MessagesEnumFqns(prefix, msgs) == Names(MessagesStates(prefix, parentClosed, msgs))
    decreases msgs, 1
  {
    if msgs != [] {
      MessageNames(prefix, parentClosed, msgs[0]);
      MessagesNames(prefix, parentClosed, msgs[1..]);
      NamesAppend(MessageStates(prefix, parentClosed, msgs[0]), MessagesStates(prefix, parentClosed, msgs[1..]));
    }
  }

  lemma {:induction false} LocalIsRegistered(files: seq<File>)
    ensures LocalEnums(files) == Names(FileStates(files))
  {
    if files != [] {
      var prefix, closed := PackagePrefix(files[0].package), files[0].enumType == CLOSED;
      EnumNames(prefix, closed, files[0].enums);
      MessagesNames(prefix, closed, files[0].messages);
      LocalIsRegistered(files[1..]);
      var ms, es := MessagesStates(prefix, closed, files[0].messages), EnumStates(prefix, closed, files[0].enums);
      NamesAppend(ms + es, FileStates(files[1..]));
      NamesAppend(ms, es);
    }
  }

  lemma {:induction false} KnownIsNamed(states: seq<EnumState>, fqn: string)
    ensures Closedness(states, fqn).Some? <==> fqn in Names(states)
  {
    if states != [] {
      var init, last := states[..|states| - 1], states[|states| - 1];
      KnownIsNamed(init, fqn);
      assert states == init + [last];
      NamesAppend(init, [last]);
      assert Names([last]) == {last.0};
    }
  }

  // ----- the rewrite of one field -----

  /** What routing makes of a field: open before, or a rule names it or its enum, or it is a routed value. */
  ghost predicate OpenedByRouting(rules: seq<string>, states: seq<EnumState>, inner: string, routed: bool, f: Field,
                                  parentClosed: bool)
    requires IsEnumField(f)
  {
    || !FieldClosed(states, f, parentClosed)
    || AnyMatch(rules, inner + f.name.value)
    || AnyMatch(rules, f.typeName.value)
    || (routed && f.number == Some(2))
  }

  /** Recording on the enum when it is local, and on the field otherwise, resolves as one would want. */
  lemma RewriteMeansRouting(rules: seq<string>, files: seq<File>, inner: string, routed: bool, f: Field,
                            parentClosed: bool)
    requires IsEnumField(f)
    ensures !FieldClosed(FileStates(Rewrite(rules, files)),
                         RewriteField(rules, LocalEnums(files), inner, routed, f), parentClosed)
            <==> OpenedByRouting(rules, FileStates(files), inner, routed, f, parentClosed)
  {
    var name := f.typeName.value;
    FileStatesOpened(rules, LocalEnums(files), files, Rewrite(rules, files));
    OpenedLookup(rules, FileStates(files), name);
    LocalIsRegistered(files);
    KnownIsNamed(FileStates(files), name);
  }

  // ----- every field of the set, by its place -----

  /** The message at a place: from `msg` down through positions among the nested messages. */
  function MessageAt(msg: Message, place: seq<nat>): Option<Message> {
    if msg.name.None? then None
    else if place == [] then Some(msg)
    else if place[0] < |msg.nested| then MessageAt(msg.nested[place[0]], place[1..])
    else None
  }

  /** The prefix of the field paths of the message at a place. */
  function InnerAt(prefix: string, msg: Message, place: seq<nat>): string
    requires MessageAt(msg, place).Some?
    decreases place
  {
    var inner := prefix + msg.name.value + ".";
    if place == [] then inner else InnerAt(inner, msg.nested[place[0]], place[1..])
  }

  /** Whether a rule matches a map field of the enclosing message whose entry is the message at a place. */
  function RoutedAt(rules: seq<string>, prefix: string, routed: bool, msg: Message, place: seq<nat>): bool
    requires MessageAt(msg, place).Some?
    decreases place
  {
    if place == [] then routed
    else
      var inner := prefix + msg.name.value + ".";
      var child := msg.nested[place[0]];
      RoutedAt(rules, inner, FirstFor(MatchedEntries(msg.name.value, inner, msg, msg.fields, rules), child.name).Some?,
               child, place[1..])
  }

  /** The rewritten message stands where the original stood. */
  lemma {:induction false} RewriteInPlace(rules: seq<string>, local: set<string>, prefix: string, routed: bool,
                                          msg: Message, place: seq<nat>)
    requires MessageAt(msg, place).Some?
    ensures
      var m := MessageAt(msg, place).value;
      var after := MessageAt(RewriteMessage(rules, local, prefix, routed, msg), place);
      && after.Some? && |after.value.fields| == |m.fields|
      && forall i | 0 <= i < |m.fields| :: after.value.fields[i] ==
           RewriteField(rules, local, InnerAt(prefix, msg, place), RoutedAt(rules, prefix, routed, msg, place),
             m.fields[i])
    decreases place
  {
    if place != [] {
      var inner := prefix + msg.name.value + ".";
      var child := msg.nested[place[0]];
      var entries := MatchedEntries(msg.name.value, inner, msg, msg.fields, rules);
      RewriteInPlace(rules, local, inner, FirstFor(entries, child.name).Some?, child, place[1..]);
    }
  }

  /** The enclosing message of the one at a place, and what was routed to that place from it. */
  lemma {:induction false} ParentAt(rules: seq<string>, prefix: string, routed: bool, msg: Message, place: seq<nat>)
    requires place != [] && MessageAt(msg, place).Some?
    ensures
      var up := place[..|place| - 1];
      && MessageAt(msg, up).Some?
      && var parent, entry := MessageAt(msg, up).value, MessageAt(msg, place).value;
      var inner := InnerAt(prefix, msg, up);
      && parent.name.Some? && entry.name.Some? && entry in parent.nested
      && InnerAt(prefix, msg, place) == inner + entry.name.value + "."
      && RoutedAt(rules, prefix, routed, msg, place) ==
         FirstFor(MatchedEntries(parent.name.value, inner, parent, parent.fields, rules), entry.name).Some?
    decreases place
  {
    if |place| > 1 {
      var inner := prefix + msg.name.value + ".";
      var child := msg.nested[place[0]];
      var first := FirstFor(MatchedEntries(msg.name.value, inner, msg, msg.fields, rules), child.name).Some?;
      ParentAt(rules, inner, first, child, place[1..]);
      assert place[1..][..|place| - 2] == place[..|place| - 1][1..];
    }
  }

  /** Where a message is, its home is. */
  lemma {:induction false} PlaceIsHome(prefix: string, msg: Message, place: seq<nat>)
    requires MessageAt(msg, place).Some?
    ensures Home(InnerAt(prefix, msg, place), MessageAt(msg, place).value) in Homes(prefix, msg)
    decreases place
  {
    if place != [] {
      var inner := prefix + msg.name.value + ".";
      PlaceIsHome(inner, msg.nested[place[0]], place[1..]);
      NestedHome(inner, msg.nested, place[0]);
    }
  }

  lemma {:induction false} NestedHome(prefix: string, msgs: seq<Message>, i: nat)
    requires i < |msgs|
    ensures Homes(prefix, msgs[i]) <= HomesIn(prefix, msgs)
  {
    if i > 0 { NestedHome(prefix, msgs[1..], i - 1); }
  }

  lemma {:induction false} FileHome(files: seq<File>, k: nat, j: nat)
    requires k < |files| && j < |files[k].messages|
    ensures Homes(PackagePrefix(files[k].package), files[k].messages[j]) <= AllHomes(files)
  {
    if k == 0 {
      NestedHome(PackagePrefix(files[0].package), files[0].messages, j);
    } else {
      FileHome(files[1..], k - 1, j);
    }
  }

  // ----- the meaning of the pass -----

  /** A field of the set: in a file, a top-level message, a message at a place in it, by its position. */
  datatype Spot = Spot(file: nat, top: nat, place: seq<nat>, field: nat)

  predicate IsSpot(files: seq<File>, s: Spot) {
    && s.file < |files| && s.top < |files[s.file].messages|
    && MessageAt(files[s.file].messages[s.top], s.place).Some?
    && s.field < |MessageAt(files[s.file].messages[s.top], s.place).value.fields|
    && IsEnumField(MessageAt(files[s.file].messages[s.top], s.place).value.fields[s.field])
  }

  function Top(files: seq<File>, s: Spot): Message
    requires IsSpot(files, s)
  {
    files[s.file].messages[s.top]
  }

  /** The message that declares the field. */
  function HomeOf(files: seq<File>, s: Spot): Home
    requires IsSpot(files, s)
  {
    Home(InnerAt(PackagePrefix(files[s.file].package), Top(files, s), s.place), MessageAt(Top(files, s), s.place).value)
  }

  function FieldOf(files: seq<File>, s: Spot): Field
    requires IsSpot(files, s)
  {
    HomeOf(files, s).msg.fields[s.field]
  }

  /** The message around the one that declares the field, if that is nested. */
  function ParentOf(files: seq<File>, s: Spot): Option<Home>
    requires IsSpot(files, s)
  {
    if s.place == [] then None
    else
      var up := s.place[..|s.place| - 1];
      ParentAt([], PackagePrefix(files[s.file].package), false, Top(files, s), s.place);
      Some(Home(InnerAt(PackagePrefix(files[s.file].package), Top(files, s), up), MessageAt(Top(files, s), up).value))
  }

  /** The field is the value of the entry of a map field of `parent` that a rule names. */
  ghost predicate NamedThroughMap(rules: seq<string>, parent: Home, entry: Message, f: Field) {
    && entry.mapEntry && entry.name.Some? && f.number == Some(2)
    && exists g | g in parent.msg.fields && IsMapField(parent.inner, g, entry.name.value) ::
         AnyMatch(rules, parent.inner + g.name.value)
  }

  /** The specification: open before, or a rule names the field, its enum, or the map it is the value of. */
  ghost predicate ShouldBeOpen(rules: seq<string>, files: seq<File>, s: Spot, parentClosed: bool)
    requires IsSpot(files, s)
  {
    var f, home, parent := FieldOf(files, s), HomeOf(files, s), ParentOf(files, s);
    || !FieldClosed(FileStates(files), f, parentClosed)
    || AnyMatch(rules, home.inner + f.name.value)
    || AnyMatch(rules, f.typeName.value)
    || (parent.Some? && NamedThroughMap(rules, parent.value, home.msg, f))
  }

  /** What the field resolves to after the pass, in the message that then stands at its place. */
  function OpenAfter(rules: seq<string>, files: seq<File>, s: Spot, parentClosed: bool): bool
    requires IsSpot(files, s)
  {
    var after := MessageAt(Rewrite(rules, files)[s.file].messages[s.top], s.place);
    RewriteInPlace(rules, LocalEnums(files), PackagePrefix(files[s.file].package), false, Top(files, s), s.place);
    !FieldClosed(FileStates(Rewrite(rules, files)), after.value.fields[s.field], parentClosed)
  }

  /** A field that the lookup takes for a map field of the entry although its type is another one. */
  predicate IsLookalike(parent: Home, g: Field, entry: string) {
    Suggests(parent.msg, g, entry) && !IsMapField(parent.inner, g, entry)
  }

  /** The field is the value of an entry, and a rule names a lookalike of the map field. */
  ghost predicate Misrouted(rules: seq<string>, parent: Home, entry: Message, f: Field) {
    && entry.mapEntry && entry.name.Some? && f.number == Some(2)
    && exists g | g in parent.msg.fields && IsLookalike(parent, g, entry.name.value) ::
         AnyMatch(rules, parent.inner + g.name.value)
  }

  ghost predicate HasLookalike(parent: Home, entry: Message) {
    entry.name.Some? && exists g | g in parent.msg.fields :: IsLookalike(parent, g, entry.name.value)
  }

  lemma {:induction false} InnerEndsInDot(prefix: string, msg: Message, place: seq<nat>)
    requires MessageAt(msg, place).Some?
    ensures MessageAt(msg, place).value.name.Some?
    ensures exists before: string ::
              (before == prefix || (before != "" && before[|before| - 1] == '.'))
              && InnerAt(prefix, msg, place) == before + MessageAt(msg, place).value.name.value + "."
    decreases place
  {
    var inner := prefix + msg.name.value + ".";
    if place == [] {
      assert InnerAt(prefix, msg, place) == prefix + MessageAt(msg, place).value.name.value + ".";
    } else {
      InnerEndsInDot(inner, msg.nested[place[0]], place[1..]);
      assert inner[|inner| - 1] == '.';
    }
  }

  /** Every true map field of the parent is found by the lookup. */
  lemma MapFieldsAreFound(files: seq<File>, s: Spot)
    requires IsSpot(files, s) && s.place != []
    ensures
      var parent, entry := ParentOf(files, s).value, HomeOf(files, s).msg;
      entry.name.Some? && forall g | IsMapField(parent.inner, g, entry.name.value) ::
        Suggests(parent.msg, g, entry.name.value)
  {
    var prefix := PackagePrefix(files[s.file].package);
    var up := s.place[..|s.place| - 1];
    ParentAt([], prefix, false, Top(files, s), s.place);
    InnerEndsInDot(prefix, Top(files, s), up);
    var parent, entry := ParentOf(files, s).value, HomeOf(files, s).msg;
    var before: string :| (before == prefix || (before != "" && before[|before| - 1] == '.'))
                          && parent.inner == before + parent.msg.name.value + ".";
    forall g | IsMapField(parent.inner, g, entry.name.value) ensures Suggests(parent.msg, g, entry.name.value) {
      MapFieldSuggests(before, parent.msg, g, entry.name.value);
    }
  }

  /**
    For every rule list and every enum-typed field of every message at any depth: the field resolves open
    after the pass exactly when it should, or when a rule names a lookalike of the map field it is a value of.
   */
  lemma PassOpensExactly(rules: seq<string>, files: seq<File>, s: Spot, parentClosed: bool)
    requires IsSpot(files, s)
    requires ParentOf(files, s).Some? ==> ValidNames(ParentOf(files, s).value.msg)
    ensures
      var parent := ParentOf(files, s);
      OpenAfter(rules, files, s, parentClosed) <==>
        || ShouldBeOpen(rules, files, s, parentClosed)
        || (parent.Some? && Misrouted(rules, parent.value, HomeOf(files, s).msg, FieldOf(files, s)))
  {
    RoutingDecides(rules, files, s, parentClosed);
    if s.place != [] && FieldOf(files, s).number == Some(2) { RoutedValue(rules, files, s); }
  }

  function RoutedTo(rules: seq<string>, files: seq<File>, s: Spot): bool
    requires IsSpot(files, s)
  {
    RoutedAt(rules, PackagePrefix(files[s.file].package), false, Top(files, s), s.place)
  }

  lemma RoutingDecides(rules: seq<string>, files: seq<File>, s: Spot, parentClosed: bool)
    requires IsSpot(files, s)
    ensures OpenAfter(rules, files, s, parentClosed) <==>
            OpenedByRouting(rules, FileStates(files), HomeOf(files, s).inner, RoutedTo(rules, files, s),
                            FieldOf(files, s), parentClosed)
  {
    RewriteInPlace(rules, LocalEnums(files), PackagePrefix(files[s.file].package), false, Top(files, s), s.place);
    RewriteMeansRouting(rules, files, HomeOf(files, s).inner, RoutedTo(rules, files, s), FieldOf(files, s),
      parentClosed);
  }

  lemma RoutedValue(rules: seq<string>, files: seq<File>, s: Spot)
    requires IsSpot(files, s) && s.place != [] && FieldOf(files, s).number == Some(2)
    requires ValidNames(ParentOf(files, s).value.msg)
    ensures
      var parent, entry, f := ParentOf(files, s).value, HomeOf(files, s).msg, FieldOf(files, s);
      RoutedTo(rules, files, s) <==> NamedThroughMap(rules, parent, entry, f) || Misrouted(rules, parent, entry, f)
  {
    var parent, entry := ParentOf(files, s).value, HomeOf(files, s).msg;
    ParentAt(rules, PackagePrefix(files[s.file].package), false, Top(files, s), s.place);
    RoutedBySuffix(rules, parent.inner, parent.msg, entry);
    MapFieldsAreFound(files, s);
    RoutedSplits(rules, parent, entry, FieldOf(files, s));
  }

  /** A suggested map field is the map field, or a lookalike. */
  lemma RoutedSplits(rules: seq<string>, parent: Home, entry: Message, f: Field)
    requires entry.name.Some? && f.number == Some(2)
    requires forall g | IsMapField(parent.inner, g, entry.name.value) :: Suggests(parent.msg, g, entry.name.value)
    ensures
      (entry.mapEntry
       && exists g | g in parent.msg.fields && Suggests(parent.msg, g, entry.name.value) ::
            AnyMatch(rules, parent.inner + g.name.value))
      <==> NamedThroughMap(rules, parent, entry, f) || Misrouted(rules, parent, entry, f)
  {
    var name := entry.name.value;
    if g :| g in parent.msg.fields && Suggests(parent.msg, g, name) && AnyMatch(rules, parent.inner + g.name.value) {
      assert IsMapField(parent.inner, g, name) || IsLookalike(parent, g, name);
    }
  }

  /** The pass does what it should for this field under this rule list. */
  ghost predicate MeetsSpec(rules: seq<string>, files: seq<File>, s: Spot, parentClosed: bool)
    requires IsSpot(files, s)
  {
    OpenAfter(rules, files, s, parentClosed) <==> ShouldBeOpen(rules, files, s, parentClosed)
  }

  /** Without a lookalike in the enclosing message, the pass means its specification for every rule list. */
  lemma PassMeansSpec(rules: seq<string>, files: seq<File>, s: Spot, parentClosed: bool)
    requires IsSpot(files, s)
    requires
      var parent := ParentOf(files, s);
      parent.Some? && HomeOf(files, s).msg.mapEntry ==> !HasLookalike(parent.value, HomeOf(files, s).msg)
    requires ParentOf(files, s).Some? ==> ValidNames(ParentOf(files, s).value.msg)
    ensures MeetsSpec(rules, files, s, parentClosed)
  {
    PassOpensExactly(rules, files, s, parentClosed);
  }

  /** The rule that names just the path of a lookalike opens the map value against the specification. */
  lemma LookalikeMisroutes(files: seq<File>, s: Spot, parentClosed: bool, g: Field)
    requires IsSpot(files, s) && OwnPaths(files)
    requires ParentOf(files, s).Some? && ValidNames(ParentOf(files, s).value.msg)
    requires HomeOf(files, s).msg.mapEntry && FieldOf(files, s).number == Some(2)
    requires FieldClosed(FileStates(files), FieldOf(files, s), parentClosed)
    requires
      var parent, entry := ParentOf(files, s).value, HomeOf(files, s).msg;
      g in parent.msg.fields && entry.name.Some? && IsLookalike(parent, g, entry.name.value)
    ensures
      var rules := [ParentOf(files, s).value.inner + g.name.value];
      OpenAfter(rules, files, s, parentClosed) && !ShouldBeOpen(rules, files, s, parentClosed)
  {
    SpotHomes(files, s);
    OwnRuleOnlyMisroutes(files, ParentOf(files, s).value, g, HomeOf(files, s), FieldOf(files, s));
    PassOpensExactly([ParentOf(files, s).value.inner + g.name.value], files, s, parentClosed);
  }

  lemma OwnRuleOnlyMisroutes(files: seq<File>, parent: Home, g: Field, home: Home, f: Field)
    requires OwnPaths(files) && parent in AllHomes(files) && home in AllHomes(files) && home.inner != parent.inner
    requires g in parent.msg.fields && f in home.msg.fields && IsEnumField(f)
    requires home.msg.mapEntry && home.msg.name.Some? && f.number == Some(2)
    requires IsLookalike(parent, g, home.msg.name.value)
    ensures
      var rules := [parent.inner + g.name.value];
      && Misrouted(rules, parent, home.msg, f) && !NamedThroughMap(rules, parent, home.msg, f)
      && !AnyMatch(rules, home.inner + f.name.value) && !AnyMatch(rules, f.typeName.value)
  {
    assert OwnPath(files, parent, g);
    PlainRule(parent.inner + g.name.value, parent.inner + g.name.value);
    OwnRuleMissesEntry(files, parent, g, home, f);
    OwnRuleMissesMap(files, parent, g, home.msg, f);
  }

  lemma SpotHomes(files: seq<File>, s: Spot)
    requires IsSpot(files, s) && ParentOf(files, s).Some?
    ensures HomeOf(files, s) in AllHomes(files) && ParentOf(files, s).value in AllHomes(files)
    ensures HomeOf(files, s).inner != ParentOf(files, s).value.inner
  {
    var prefix, top := PackagePrefix(files[s.file].package), Top(files, s);
    FileHome(files, s.file, s.top);
    PlaceIsHome(prefix, top, s.place);
    ParentAt([], prefix, false, top, s.place);
    PlaceIsHome(prefix, top, s.place[..|s.place| - 1]);
  }

  lemma OwnRuleMissesMap(files: seq<File>, parent: Home, g: Field, entry: Message, f: Field)
    requires parent in AllHomes(files) && g in parent.msg.fields && entry.name.Some?
    requires IsLookalike(parent, g, entry.name.value) && OwnPath(files, parent, g)
    ensures !NamedThroughMap([parent.inner + g.name.value], parent, entry, f)
  {
    forall h | h in parent.msg.fields && IsMapField(parent.inner, h, entry.name.value)
      ensures !AnyMatch([parent.inner + g.name.value], parent.inner + h.name.value)
    {
      PlainRule(parent.inner + g.name.value, parent.inner + h.name.value);
    }
  }

  lemma OwnRuleMissesEntry(files: seq<File>, parent: Home, g: Field, home: Home, f: Field)
    requires parent in AllHomes(files) && home in AllHomes(files) && g in parent.msg.fields && g.name.Some?
    requires OwnPath(files, parent, g) && f in home.msg.fields && IsEnumField(f) && home.inner != parent.inner
    ensures
      var rules := [parent.inner + g.name.value];
      !AnyMatch(rules, home.inner + f.name.value) && !AnyMatch(rules, f.typeName.value)
  {
    PlainRule(parent.inner + g.name.value, home.inner + f.name.value);
    PlainRule(parent.inner + g.name.value, f.typeName.value);
  }

  /**
    For a map value that is closed by itself, the pass meets its specification under all rule lists if and
    only if no field of the enclosing message has a type name that ends in `<message>.<entry>` without
    being the entry.
   */
  lemma PassMeansSpecExactly(files: seq<File>, s: Spot, parentClosed: bool)
    requires IsSpot(files, s) && OwnPaths(files)
    requires ParentOf(files, s).Some? && ValidNames(ParentOf(files, s).value.msg)
    requires HomeOf(files, s).msg.mapEntry && FieldOf(files, s).number == Some(2)
    requires FieldClosed(FileStates(files), FieldOf(files, s), parentClosed)
    ensures (forall rules: seq<string> :: MeetsSpec(rules, files, s, parentClosed))
            <==> !HasLookalike(ParentOf(files, s).value, HomeOf(files, s).msg)
  {
    var parent, entry := ParentOf(files, s).value, HomeOf(files, s).msg;
    if HasLookalike(parent, entry) {
      var g :| g in parent.msg.fields && IsLookalike(parent, g, entry.name.value);
      LookalikeMisroutes(files, s, parentClosed, g);
      assert !MeetsSpec([parent.inner + g.name.value], files, s, parentClosed);
    } else {
      forall rules: seq<string> ensures MeetsSpec(rules, files, s, parentClosed) {
        PassMeansSpec(rules, files, s, parentClosed);
      }
    }
  }
}
