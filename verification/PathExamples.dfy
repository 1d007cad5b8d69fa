/** Descriptor sets on which registered paths coincide, or references miss. */
module PathExamples {
  import opened Text
  import opened Idents
  import opened Segments
  import opened Descriptors
  import opened ExternPaths
  import opened Registry
  import opened Packages
  import opened RegistryPass
  import opened RustPaths
  import opened RelativePaths
  import D = Deconflict

  const PLAIN := Config([], [], "")

  // ----- two files of a package with messages that share a module -----

  const X := Message(Some("X"), [], [], [], [], false, None)

  function Outer(name: string): Message { Message(Some(name), [], [], [X], [], false, None) }

  function OneFile(package: string, name: string): File {
    File(Some(name), Some(package), [Outer(name)], [], OPEN)
  }

  function TwoFiles(package: string, a: string, b: string): seq<File> {
    [OneFile(package, a), OneFile(package, b)]
  }

  /** `X` is the one type of the scope. */
  lemma OuterScope(fqn: string, name: string)
    ensures ScopeTypes(PLAIN, fqn, Outer(name)) == [LocalTypeName("", "X")]
    ensures TreeOk(PLAIN, fqn, Outer(name))
  {
    var nested := [X];
    assert nested[1..] == [] && LocalMessages(PLAIN, fqn, []) == [] && LocalMessages(PLAIN, fqn, nested) == ["X"];
    assert LocalMessages(PLAIN, fqn + ".X", []) == [] && ScopeTypes(PLAIN, fqn + "." + "X", X) == [];
    assert TreeOk(PLAIN, fqn + "." + "X", X);
    assert ChildrenOk(PLAIN, fqn, []) && ChildrenOk(PLAIN, fqn, nested);
  }

  lemma PlainPath(file: File, name: string)
    requires file.name.Some?
    ensures TopPath(PLAIN, file, name) == (LocalModule(PackageOf(file)) + [LocalTypeName("", name)], false)
  {
    assert FileRoot(PLAIN, file) == None && Best(PLAIN.externs, 0, TypeFqn(PackageOf(file), name)) == None;
  }

  lemma PackageTypes(package: string, a: string, b: string)
    ensures PackageTypeNames(PLAIN, TwoFiles(package, a, b), package) == {LocalTypeName("", a), LocalTypeName("", b)}
  {
    var files := TwoFiles(package, a, b);
    FileTypes(package, a);
    FileTypes(package, b);
    assert files[0] == OneFile(package, a) && files[1] == OneFile(package, b);
    assert files[0] in files && files[1] in files;
  }

  lemma FileTypes(package: string, name: string)
    ensures FileTypeNames(PLAIN, OneFile(package, name)) == {LocalTypeName("", name)}
  {
    var f := OneFile(package, name);
    PlainPath(f, name);
    assert Outer(name) in f.messages;
    assert forall m | m in f.messages :: m == Outer(name);
  }

  lemma OneUnit(files: seq<File>, package: string, name: string)
    ensures MessageUnits(PLAIN, files, OneFile(package, name), [Outer(name)]) ==
            [MessageUnit(PLAIN, files, OneFile(package, name), Outer(name))]
  {
    assert [Outer(name)][..0] == [];
    assert MessageUnits(PLAIN, files, OneFile(package, name), []) == [];
  }

  lemma TwoUnits(package: string, a: string, b: string)
    ensures
      var files := TwoFiles(package, a, b);
      Units(PLAIN, files, files) ==
      [MessageUnit(PLAIN, files, files[0], Outer(a)), MessageUnit(PLAIN, files, files[1], Outer(b))]
  {
    var files := TwoFiles(package, a, b);
    OneUnit(files, package, a);
    OneUnit(files, package, b);
    UnitsOfTwo(files, files[0], files[1]);
  }

  lemma UnitsOfTwo(files: seq<File>, f: File, g: File)
    requires f.enums == [] && g.enums == []
    ensures Units(PLAIN, files, [f, g]) ==
      MessageUnits(PLAIN, files, f, f.messages) + MessageUnits(PLAIN, files, g, g.messages)
  {
    assert [f, g][..1] == [f] && [f][..0] == [];
    assert EnumUnits(PLAIN, f, []) == [] && EnumUnits(PLAIN, g, []) == [] && Units(PLAIN, files, []) == [];
    assert Units(PLAIN, files, [f]) == MessageUnits(PLAIN, files, f, f.messages);
  }

  /** The generator accepts two such files when their messages' types have different names. */
  lemma TwoFilesAreChecked(package: string, a: string, b: string)
    requires ValidPackage(package) && LocalTypeName("", a) != LocalTypeName("", b)
    ensures FilesChecked(PLAIN, TwoFiles(package, a, b))
  {
    TypesAreOk(package, a, b);
    TreesAreOk(package, a, b);
    assert forall f | f in TwoFiles(package, a, b) :: PackageOf(f) == package;
  }

  lemma TypesAreOk(package: string, a: string, b: string)
    requires LocalTypeName("", a) != LocalTypeName("", b)
    ensures TopTypesDiffer(PLAIN, Units(PLAIN, TwoFiles(package, a, b), TwoFiles(package, a, b)))
  {
    TwoUnits(package, a, b);
    PairDiffers(Units(PLAIN, TwoFiles(package, a, b), TwoFiles(package, a, b)));
  }

  lemma PairDiffers(units: seq<Unit>)
    requires |units| == 2 && LocalTypeName("", units[0].name) != LocalTypeName("", units[1].name)
    ensures TopTypesDiffer(PLAIN, units)
  {
  }

  lemma TreesAreOk(package: string, a: string, b: string)
    ensures forall f, m | f in TwoFiles(package, a, b) && m in f.messages && m.name.Some? ::
      TreeOk(PLAIN, TypeFqn(PackageOf(f), m.name.value), m)
  {
    OuterScope(TypeFqn(package, a), a);
    OuterScope(TypeFqn(package, b), b);
    forall f, m | f in TwoFiles(package, a, b) && m in f.messages
      ensures TreeOk(PLAIN, TypeFqn(PackageOf(f), m.name.value), m)
    {
      assert m == Outer(a) || m == Outer(b);
    }
  }

  /** Different types, one free base: the nested type is registered twice under one path. */
  lemma NestedTypeTwice(package: string, a: string, b: string)
    requires package != "" && a != b && ToSnakeCase(a) == ToSnakeCase(b)
    requires !NoUpper(a) && !NoUpper(b)
    requires ToSnakeCase(a) !in D.RESERVED_MODULE_NAMES && ToSnakeCase(a) != D.PACKAGE_RESERVED_MODULE_NAME
    ensures SomeTypeTwice(PLAIN, TwoFiles(package, a, b))
    ensures !Injective(AllEntries(PLAIN, TwoFiles(package, a, b)))
  {
    var files := TwoFiles(package, a, b);
    BaseIsFree(package, a, b);
    PlainPath(files[0], a);
    PlainPath(files[1], b);
    OuterScope(TypeFqn(package, a), a);
    OuterScope(TypeFqn(package, b), b);
    assert LocalTypeName("", "X") in ScopeTypes(PLAIN, TypeFqn(package, a), Outer(a));
    assert DeclaresTwice(PLAIN, files, files[0], Outer(a), files[1], Outer(b));
    assert files[0] in files && Outer(a) in files[0].messages && files[1] in files && Outer(b) in files[1].messages;
    TwiceIsNotInjective(PLAIN, files);
  }

  lemma BaseIsFree(package: string, a: string, b: string)
    requires package != "" && ToSnakeCase(a) == ToSnakeCase(b) && !NoUpper(a) && !NoUpper(b)
    requires ToSnakeCase(a) !in D.RESERVED_MODULE_NAMES && ToSnakeCase(a) != D.PACKAGE_RESERVED_MODULE_NAME
    ensures !D.IsOccupied(Occupied(PLAIN, TwoFiles(package, a, b), package), ToSnakeCase(a))
  {
    var files := TwoFiles(package, a, b);
    PackageTypes(package, a, b);
    SnakeShape(a);
    TypeKeepsUpper(a);
    TypeKeepsUpper(b);
    NoSubPackage(package, AllPackages(files));
  }

  lemma NoSubPackage(package: string, all: set<string>)
    requires package != "" && all <= {package}
    ensures ChildSegments(package, all) == {}
  {
    assert RestBelow(package, package) == None;
  }

  lemma TypeKeepsUpper(name: string)
    requires !NoUpper(name)
    ensures !NoUpper(LocalTypeName("", name))
  {
    var i :| 0 <= i < |name| && IsUpper(name[i]);
    assert "" + name == name && LocalTypeName("", name)[i] == name[i];
  }

  /** `message FooBar { message X {} }` and, in another file of the package, `message Foo_Bar { message X {} }`. */
  lemma FooBarTwice(package: string, a: string, b: string)
    requires package != "" && ValidPackage(package) && a == "FooBar" && b == "Foo_Bar"
    ensures FilesChecked(PLAIN, TwoFiles(package, a, b)) && !Injective(AllEntries(PLAIN, TwoFiles(package, a, b)))
  {
    FooBarConverts();
    FooBarNames(a, b);
    BothHold(package, a, b, "foo_bar");
  }

  lemma BothHold(package: string, a: string, b: string, base: string)
    requires package != "" && ValidPackage(package) && a != b && LocalTypeName("", a) != LocalTypeName("", b)
    requires ToSnakeCase(a) == base == ToSnakeCase(b) && !NoUpper(a) && !NoUpper(b)
    requires base !in D.RESERVED_MODULE_NAMES && base != D.PACKAGE_RESERVED_MODULE_NAME
    ensures FilesChecked(PLAIN, TwoFiles(package, a, b)) && !Injective(AllEntries(PLAIN, TwoFiles(package, a, b)))
  {
    TwoFilesAreChecked(package, a, b);
    NestedTypeTwice(package, a, b);
  }

  lemma FooBarNames(a: string, b: string)
    requires a == "FooBar" && b == "Foo_Bar"
    ensures !NoUpper(a) && !NoUpper(b) && LocalTypeName("", a) != LocalTypeName("", b)
  {
    assert IsUpper(a[0]) && IsUpper(b[0]);
    TypesDifferAt(a, b, 3);
  }

  lemma TypesDifferAt(a: string, b: string, i: nat)
    requires i < |a| && i < |b| && a[i] != b[i]
    ensures LocalTypeName("", a) != LocalTypeName("", b)
  {
    assert "" + a == a && "" + b == b;
    assert LocalTypeName("", a)[i] == a[i] && LocalTypeName("", b)[i] == b[i];
  }

  lemma FooBarConverts()
    ensures ToSnakeCase("FooBar") == "foo_bar" == ToSnakeCase("Foo_Bar")
  {
    var a, b := "FooBar", "Foo_Bar";
    assert SnakeFrom(a, 6) == "" && SnakeFrom(b, 7) == "";
    assert SnakeFrom(a, 5) == "r" && SnakeFrom(b, 6) == "r";
    assert SnakeFrom(a, 4) == "ar" && SnakeFrom(b, 5) == "ar";
    assert SnakeFrom(a, 3) == "_bar" && SnakeFrom(b, 4) == "bar";
    assert SnakeFrom(a, 2) == "o_bar" && SnakeFrom(b, 3) == "_bar" && SnakeFrom(b, 2) == "o_bar";
    assert SnakeFrom(a, 1) == "oo_bar" && SnakeFrom(b, 1) == "oo_bar";
  }

  // ----- a package with a keyword among its segments -----

  /** A file that declares one empty message. */
  function OneMessage(package: string, name: string): seq<File> {
    [File(Some("one.proto"), Some(package), [Message(Some(name), [], [], [], [], false, None)], [], OPEN)]
  }

  lemma OneEntry(package: string, name: string)
    ensures var es := AllEntries(PLAIN, OneMessage(package, name));
            && |es| == 1 && es[0].emitted && es[0].package == package && es[0].fqn == TypeFqn(package, name)
            && es[0].path == LocalModule(package) + [LocalTypeName("", name)]
  {
    var files := OneMessage(package, name);
    var f := files[0];
    var msg := f.messages[0];
    assert PLAIN.externs == [] && FileRoot(PLAIN, f) == None;
    assert Best(PLAIN.externs, 0, TypeFqn(package, name)) == None;
    assert TopPath(PLAIN, f, name) == (LocalModule(package) + [LocalTypeName("", name)], false);
    assert files[..0] == [] && f.messages[..0] == [];
    assert NestedEntries(PLAIN, TopSite(PLAIN, files, f, name), msg) == [];
    var entry := TopMessageEntry(PLAIN, files, f, name);
    var u := Unit(package, name, true, true, [entry] + []);
    assert MessageUnits(PLAIN, files, f, f.messages) == [] + [u];
    assert EnumUnits(PLAIN, f, []) == [] && Units(PLAIN, files, []) == [];
    assert Units(PLAIN, files, files) == [u];
    assert [u][..0] == [] && Flatten([]) == [];
  }

  predicate KeywordLater(path: Path) {
    path != [] && path[0] != "" && path[0] !in UNNAMEABLE && !Nameable(path)
  }

  /** An unnameable segment behind a first one that is a name: the reference from the root names nothing. */
  lemma MissedFromRoot(t: Tables, e: Entry)
    requires Recorded(t, e) && LocalModule(e.package) < e.path && KeywordLater(LocalModule(e.package))
    ensures Relative(t, e.fqn, "", 0) == Some(e.path) && Resolve([], e.path) == None
  {
    LeadsNowhere(LocalModule(e.package), e.path);
    ReferenceShape(t, e, "", 0);
    assert Supers(0) + e.path[0..] == e.path;
  }

  lemma LeadsNowhere(to: Path, path: Path)
    requires to < path && KeywordLater(to)
    ensures !IsAbsolute(path) && Resolve([], path) == None
  {
    var i :| 0 <= i < |to| && to[i] in UNNAMEABLE;
    assert path[0] == to[0] && path[i] == to[i];
    assert "crate" in UNNAMEABLE && "self" in UNNAMEABLE && "super" in UNNAMEABLE;
  }

  lemma KeywordPackage(t: Tables, package: string, name: string)
    requires forall e | e in AllEntries(PLAIN, OneMessage(package, name)) :: Recorded(t, e)
    requires KeywordLater(LocalModule(package))
    ensures var path := LocalModule(package) + [LocalTypeName("", name)];
            Relative(t, TypeFqn(package, name), "", 0) == Some(path) && Resolve([], path) == None
  {
    OneEntry(package, name);
    var es := AllEntries(PLAIN, OneMessage(package, name));
    assert es[0] in es;
    MissedFromRoot(t, es[0]);
  }

  lemma TwoSegments(first: string, second: string)
    requires '.' !in first && '.' !in second
    ensures LocalModule(first + "." + second) == [first, second]
  {
    SplitOne(first);
    SplitLast(first, second);
    assert (first + "." + second)[|first|] == '.';
  }

  /** In packages such as `a.super`, `a.Self` and `a._`, the reference to a type from the root names nothing. */
  lemma KeywordExample(t: Tables, first: string, word: string, name: string)
    requires word in UNNAMEABLE && first !in UNNAMEABLE && first != "" && '.' !in first
    requires forall e | e in AllEntries(PLAIN, OneMessage(first + "." + word, name)) :: Recorded(t, e)
    ensures var path := [first, word, LocalTypeName("", name)];
            Relative(t, TypeFqn(first + "." + word, name), "", 0) == Some(path) && Resolve([], path) == None
  {
    var package := first + "." + word;
    assert '.' !in word;
    TwoSegments(first, word);
    LaterWord(LocalModule(package), word);
    KeywordPackage(t, package, name);
    assert LocalModule(package) + [LocalTypeName("", name)] == [first, word, LocalTypeName("", name)];
  }

  lemma LaterWord(path: Path, word: string)
    requires word in UNNAMEABLE && |path| == 2 && path[0] !in UNNAMEABLE && path[0] != "" && path[1] == word
    ensures KeywordLater(path)
  {
  }

  /** `package a.Self`: the module is declared as `a::Self_`, and the reference from the root is `a::Self::T`. */
  lemma SelfExample(t: Tables, name: string)
    requires forall e | e in AllEntries(PLAIN, OneMessage("a.Self", name)) :: Recorded(t, e)
    ensures DeclaredModule("a.Self") == ["a", "Self_"]
    ensures Relative(t, TypeFqn("a.Self", name), "", 0) == Some(["a", "Self", LocalTypeName("", name)])
    ensures Resolve([], ["a", "Self", LocalTypeName("", name)]) == None
  {
    assert "a" + "." + "Self" == "a.Self";
    TwoSegments("a", "Self");
    assert FieldIdent("a") == "a" && FieldIdent("Self") == "Self_";
    assert DeclaredModule("a.Self") == [FieldIdent("a"), FieldIdent("Self")];
    KeywordExample(t, "a", "Self", name);
  }
}
