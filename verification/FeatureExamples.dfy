/**
  A valid descriptor set on which the override pass does not do what its documentation says:
  a field of message `M` has a message type that another package declares under the name of the
  entry of a map field of `M`.

    package a;                          package b.M;
    message M {                         message FooEntry {}
      b.M.FooEntry x = 1;
      map<string, E> foo = 2;
    }
    enum E { ... }   // closed
 */
module FeatureExamples {
  import opened Text
  import opened Descriptors
  import opened FeatureOverrides
  import opened FeatureRouting
  import opened FeatureMeaning
  import FT = FeatureTargets
  import EP = ExternPaths
  import RN = RuleNames

  const X := Field(Some("x"), Some(1), TypeMessage, Some(".b.M.FooEntry"), None, false, None)
  const FOO := Field(Some("foo"), Some(2), TypeMessage, Some(".a.M.FooEntry"), None, false, None)
  const KEY := Field(Some("key"), Some(1), TypeOther, None, None, false, None)
  const VALUE := Field(Some("value"), Some(2), TypeEnum, Some(".a.E"), None, false, None)

  const E := EnumDecl(Some("E"), None, [EnumValue("ZERO", 0, false)])

  const ENTRY := Message(Some("FooEntry"), [KEY, VALUE], [], [], [], true, None)
  const M := Message(Some("M"), [X, FOO], [], [ENTRY], [], false, None)
  const OTHER := Message(Some("FooEntry"), [], [], [], [], false, None)

  const FILES := [
    File(Some("a.proto"), Some("a"), [M], [E], CLOSED),
    File(Some("b.proto"), Some("b.M"), [OTHER], [], CLOSED)]

  /** The value of the map. */
  const SPOT := Spot(0, 0, [0], 1)

  // ----- what the set declares -----

  lemma OneMessage(prefix: string, msg: Message)
    requires msg.name.Some?
    ensures var inner := prefix + msg.name.value + ".";
            && HomesIn(prefix, [msg]) == {Home(inner, msg)} + HomesIn(inner, msg.nested)
            && MessagesEnumFqns(prefix, [msg]) == EnumFqns(inner, msg.enums) + MessagesEnumFqns(inner, msg.nested)
  {
    assert [msg][1..] == [];
  }

  lemma OneMessageStates(prefix: string, closed: bool, msg: Message)
    requires msg.name.Some? && msg.enumType == None
    ensures var inner := prefix + msg.name.value + ".";
            MessagesStates(prefix, closed, [msg]) ==
            EnumStates(inner, closed, msg.enums) + MessagesStates(inner, closed, msg.nested)
  {
    assert [msg][1..] == [];
  }

  lemma TwoFiles(a: File, b: File)
    ensures AllHomes([a, b]) ==
      HomesIn(PackagePrefix(a.package), a.messages) + HomesIn(PackagePrefix(b.package), b.messages)
    ensures LocalEnums([a, b]) ==
            EnumFqns(PackagePrefix(a.package), a.enums) + MessagesEnumFqns(PackagePrefix(a.package), a.messages)
            + EnumFqns(PackagePrefix(b.package), b.enums) + MessagesEnumFqns(PackagePrefix(b.package), b.messages)
    ensures FileStates([a, b]) ==
            MessagesStates(PackagePrefix(a.package), a.enumType == CLOSED, a.messages)
            + EnumStates(PackagePrefix(a.package), a.enumType == CLOSED, a.enums)
            + (MessagesStates(PackagePrefix(b.package), b.enumType == CLOSED, b.messages)
               + EnumStates(PackagePrefix(b.package), b.enumType == CLOSED, b.enums))
  {
    assert [a, b][1..] == [b] && [b][1..] == [];
    assert AllHomes([b]) == HomesIn(PackagePrefix(b.package), b.messages);
    assert LocalEnums([b]) ==
           EnumFqns(PackagePrefix(b.package), b.enums) + MessagesEnumFqns(PackagePrefix(b.package), b.messages);
    assert FileStates([b]) == MessagesStates(PackagePrefix(b.package), b.enumType == CLOSED, b.messages)
                              + EnumStates(PackagePrefix(b.package), b.enumType == CLOSED, b.enums);
  }

  lemma Prefixes()
    ensures PackagePrefix(Some("a")) == ".a." && PackagePrefix(Some("b.M")) == ".b.M."
    ensures ".a." + "M" + "." == ".a.M." && ".a." + "E" == ".a.E"
    ensures ".a.M." + "FooEntry" + "." == ".a.M.FooEntry." && ".b.M." + "FooEntry" + "." == ".b.M.FooEntry."
  {
  }

  lemma ExampleHomes()
    ensures AllHomes(FILES) == {Home(".a.M.", M), Home(".a.M.FooEntry.", ENTRY), Home(".b.M.FooEntry.", OTHER)}
  {
    Prefixes();
    TwoFiles(FILES[0], FILES[1]);
    OneMessage(".a.", M);
    OneMessage(".a.M.", ENTRY);
    OneMessage(".b.M.", OTHER);
  }

  lemma ExampleEnums()
    ensures LocalEnums(FILES) == {".a.E"}
  {
    Prefixes();
    TwoFiles(FILES[0], FILES[1]);
    OneMessage(".a.", M);
    OneMessage(".a.M.", ENTRY);
    OneMessage(".b.M.", OTHER);
    assert EnumFqns(".a.", [E]) == {".a.E"} by {
      assert E in [E];
    }
  }

  /** The paths of the fields. */
  const PATHS: set<string> := {".a.M.x", ".a.M.foo", ".a.M.FooEntry.key", ".a.M.FooEntry.value"}

  lemma PathsDiffer()
    ensures forall p, q | p in PATHS && q in PATHS + {".a.E"} && EP.MatchesProtoPrefix(p, q) :: p == q
    ensures forall p | p in PATHS :: IsPlain(p)
  {
  }

  lemma FieldPath(h: Home, f: Field)
    requires h in AllHomes(FILES) && f in h.msg.fields
    ensures f.name.Some? && h.inner + f.name.value in PATHS
    ensures f == X <==> h.inner + f.name.value == ".a.M.x"
    ensures f == FOO <==> h.inner + f.name.value == ".a.M.foo"
    ensures f == KEY <==> h.inner + f.name.value == ".a.M.FooEntry.key"
    ensures f == VALUE <==> h.inner + f.name.value == ".a.M.FooEntry.value"
    ensures h == if f == X || f == FOO then Home(".a.M.", M) else Home(".a.M.FooEntry.", ENTRY)
    ensures IsEnumField(f) ==> f == VALUE
  {
    ExampleHomes();
    assert ".a.M." + "x" == ".a.M.x" && ".a.M." + "foo" == ".a.M.foo";
    assert ".a.M.FooEntry." + "key" == ".a.M.FooEntry.key" && ".a.M.FooEntry." + "value" == ".a.M.FooEntry.value";
  }

  lemma ExampleIsValid()
    ensures FT.AllValidNames(FILES) && OwnPaths(FILES)
  {
    ExampleHomes();
    forall h, f | h in AllHomes(FILES) && f in h.msg.fields && f.name.Some? ensures OwnPath(FILES, h, f) {
      ExampleOwnPath(h, f);
    }
  }

  lemma ExampleOwnPath(h: Home, f: Field)
    requires h in AllHomes(FILES) && f in h.msg.fields && f.name.Some?
    ensures OwnPath(FILES, h, f)
  {
    ExampleEnums();
    PathsDiffer();
    FieldPath(h, f);
    forall h2, f2 | h2 in AllHomes(FILES) && f2 in h2.msg.fields
      ensures IsEnumField(f2) ==> !EP.MatchesProtoPrefix(h.inner + f.name.value, f2.typeName.value)
      ensures f2.name.Some? && EP.MatchesProtoPrefix(h.inner + f.name.value, h2.inner + f2.name.value) ==>
        h2 == h && f2 == f
    {
      FieldsApart(h, f, h2, f2);
    }
  }

  lemma FieldsApart(h: Home, f: Field, h2: Home, f2: Field)
    requires h in AllHomes(FILES) && f in h.msg.fields && h2 in AllHomes(FILES) && f2 in h2.msg.fields
    ensures f.name.Some? && f2.name.Some?
    ensures IsEnumField(f2) ==> !EP.MatchesProtoPrefix(h.inner + f.name.value, f2.typeName.value)
    ensures EP.MatchesProtoPrefix(h.inner + f.name.value, h2.inner + f2.name.value) ==> h2 == h && f2 == f
  {
    FieldPath(h, f);
    FieldPath(h2, f2);
    PathsDiffer();
  }

  /** `x` is taken for the map field, because its type name ends in `M.FooEntry`. */
  lemma XIsLookalike()
    ensures IsLookalike(Home(".a.M.", M), X, "FooEntry")
    ensures IsMapField(".a.M.", FOO, "FooEntry") && Suggests(M, FOO, "FooEntry")
  {
    RN.BehindScope(".b", "M", "FooEntry");
    RN.BehindScope(".a", "M", "FooEntry");
    assert ".b" + "." + ("M" + "." + "FooEntry") == ".b.M.FooEntry";
    assert ".a" + "." + ("M" + "." + "FooEntry") == ".a.M.FooEntry" == ".a.M." + "FooEntry";
  }

  /** The map value is closed; the rule `.a.M.x` opens it, and names neither it nor its enum nor its map. */
  lemma PassMissesSpec()
    ensures IsSpot(FILES, SPOT) && FieldOf(FILES, SPOT) == VALUE
    ensures FieldClosed(FileStates(FILES), VALUE, true)
    ensures OpenAfter([".a.M.x"], FILES, SPOT, true) && !ShouldBeOpen([".a.M.x"], FILES, SPOT, true)
  {
    ExampleSpot();
    ExampleIsClosed();
    ExampleIsValid();
    XIsLookalike();
    assert ".a.M." + "x" == ".a.M.x";
    LookalikeMisroutes(FILES, SPOT, true, X);
  }

  lemma ExampleSpot()
    ensures IsSpot(FILES, SPOT) && FieldOf(FILES, SPOT) == VALUE && HomeOf(FILES, SPOT).msg == ENTRY
    ensures ParentOf(FILES, SPOT) == Some(Home(".a.M.", M)) && ValidNames(M)
  {
    assert [0][1..] == [] && SPOT.place[..0] == [];
    assert MessageAt(M, [0]) == Some(ENTRY);
    assert "." + "a" + "." == ".a." && ".a." + "M" + "." == ".a.M.";
  }

  lemma ExampleIsClosed()
    ensures FieldClosed(FileStates(FILES), VALUE, true)
  {
    Prefixes();
    TwoFiles(FILES[0], FILES[1]);
    OneMessageStates(".a.", true, M);
    OneMessageStates(".a.M.", true, ENTRY);
    OneMessageStates(".b.M.", true, OTHER);
    assert [E][1..] == [];
    assert FileStates(FILES) == [(".a.E", true)];
  }

  /** With both rules in force, the one that names the map field itself is reported as unmatched. */
  lemma MapRuleIsReported()
    ensures ".a.M.foo" in FT.Reported([".a.M.foo", ".a.M.x"], FILES)
    ensures FT.IsTarget(FILES, ".a.M.foo") && RuleMatchesOne(".a.M.foo", ".a.M.foo")
  {
    ExampleHomes();
    ExampleIsValid();
    XIsLookalike();
    var h := Home(".a.M.", M);
    assert VALUE in ENTRY.fields && HasEnumValue(ENTRY);
    assert ".a.M." + "x" == ".a.M.x" && ".a.M." + "foo" == ".a.M.foo";
    assert h in AllHomes(FILES) && IsEntry(M, ENTRY);
    FT.LateMapFieldIsReported(FILES, h, ENTRY, 1, 0);
  }
}
