/**
  Top-level types: their paths and modules, package by package
  (buffa-codegen/src/context.rs, `child_package_segments` and `with_extern_resolution`).
 */
module Packages {
  import opened Text
  import opened Idents
  import opened Segments
  import opened Descriptors
  import opened ExternPaths
  import opened Registry
  import D = Deconflict

  function PackageOf(file: File): string { file.package.GetOr("") }

  function AllPackages(files: seq<File>): set<string> { set f | f in files :: PackageOf(f) }

  /** `package.replace('.', "::")`. */
  function LocalModule(package: string): Path { if package == "" then [] else Split(package) }

  /** The module of a package: its segments as they are written; none for the unnamed package. */
  lemma ModuleSpellsPackage(package: string)
    ensures LocalModule(package) == [] <==> package == ""
    ensures package != "" ==> Join(LocalModule(package)) == package
    ensures forall s | s in LocalModule(package) :: '.' !in s
  {
    JoinSplit(package);
    SplitHasNoDots(package);
  }

  function FileRoot(cfg: Config, file: File): Option<Path> {
    if file.name.Some? then Exact(cfg.fileRoots, file.name.value) else None
  }

  // ----- sub-packages -----

  /** What follows `package.` in `q`. */
  function RestBelow(package: string, q: string): Option<string> {
    if package == "" then Some(q)
    else if package + "." <= q then Some(q[|package| + 1..])
    else None
  }

  /** The first segments of the packages below `package`: the sub-package modules beside its own. */
  function ChildSegments(package: string, all: set<string>): set<string> {
    set q | q in all && RestBelow(package, q).Some? && RestBelow(package, q).value != "" ::
      Split(RestBelow(package, q).value)[0]
  }

  const PATH_KEYWORDS: seq<string> := ["self", "super", "crate"]

  // ----- top-level types -----

  /** The path of a type, and whether it is another crate's. */
  function ResolveTypePath(cfg: Config, fqn: string, name: string, root: Option<Path>, local: Path): (Path, bool)
    requires "." <= fqn
  {
    if Exact(cfg.externs, fqn).Some? then (Exact(cfg.externs, fqn).value, true)
    else if root.Some? then (root.value + [name], true)
    else if ResolveType(fqn, cfg.externs).Some? then (ResolveType(fqn, cfg.externs).value, true)
    else (local + [LocalTypeName(cfg.prefix, name)], false)
  }

  function TopPath(cfg: Config, file: File, name: string): (Path, bool) {
    ResolveTypePath(cfg, TypeFqn(PackageOf(file), name), name, FileRoot(cfg, file), LocalModule(PackageOf(file)))
  }

  /** The names of a file's top-level messages that no exact entry maps elsewhere. */
  function FileMessageNames(cfg: Config, package: string, msgs: seq<Message>): seq<string> {
    if msgs == [] then []
    else
      var init, last := msgs[..|msgs| - 1], msgs[|msgs| - 1];
      FileMessageNames(cfg, package, init) +
      if last.name.Some? && Override(cfg, TypeFqn(package, last.name.value)).None? then [last.name.value] else []
  }

  function MessageNames(cfg: Config, files: seq<File>, package: string): seq<string> {
    if files == [] then []
    else
      var init, last := files[..|files| - 1], files[|files| - 1];
      MessageNames(cfg, init, package) +
      if PackageOf(last) == package then FileMessageNames(cfg, package, last.messages) else []
  }

  /** The Rust names of the messages, and of the enums, that no exact entry maps elsewhere. */
  function FileMessageTypes(cfg: Config, file: File, msgs: seq<Message>): set<string> {
    set m | m in msgs && m.name.Some? && Override(cfg, TypeFqn(PackageOf(file), m.name.value)).None? ::
      LastSegment(TopPath(cfg, file, m.name.value).0)
  }

  function FileEnumTypes(cfg: Config, file: File, enums: seq<EnumDecl>): set<string> {
    set e | e in enums && e.name.Some? && Override(cfg, TypeFqn(PackageOf(file), e.name.value)).None? ::
      LastSegment(TopPath(cfg, file, e.name.value).0)
  }

  function FileTypeNames(cfg: Config, file: File): set<string> {
    FileMessageTypes(cfg, file, file.messages) + FileEnumTypes(cfg, file, file.enums)
  }

  function PackageTypeNames(cfg: Config, files: seq<File>, package: string): set<string> {
    set f, t | f in files && PackageOf(f) == package && t in FileTypeNames(cfg, f) :: t
  }

  /** The names that no module of a top-level message of `package` can take. */
  function Occupied(cfg: Config, files: seq<File>, package: string): set<string> {
    var child := ChildSegments(package, AllPackages(files));
    child + (set k | k in PATH_KEYWORDS && k in child :: k + "_")
    + {D.PACKAGE_RESERVED_MODULE_NAME} + PackageTypeNames(cfg, files, package)
  }

  ghost function TopModule(cfg: Config, files: seq<File>, package: string, name: string): string {
    ModuleAmong(MessageNames(cfg, files, package), Occupied(cfg, files, package), name)
  }

  ghost function TopSite(cfg: Config, files: seq<File>, file: File, name: string): Site {
    var package := PackageOf(file);
    var fqn := TypeFqn(package, name);
    var (path, isExtern) := TopPath(cfg, file, name);
    var m := if Override(cfg, fqn).Some? then ExternOverrideModule(name, path, true)
      else TopModule(cfg, files, package, name);
    Site(package, fqn, [name], (if isExtern then Parent(path) else LocalModule(package)) + [m], !isExtern)
  }

  ghost function TopMessageEntry(cfg: Config, files: seq<File>, file: File, name: string): Entry {
    var fqn := TypeFqn(PackageOf(file), name);
    var (path, isExtern) := TopPath(cfg, file, name);
    var m := TopModule(cfg, files, PackageOf(file), name);
    Entry(PackageOf(file), fqn, path, !isExtern,
          if Override(cfg, fqn).Some? || m == ToSnakeCase(name) then None else Some(m),
          Some(TopSite(cfg, files, file, name)))
  }

  ghost function TopEnumEntry(cfg: Config, file: File, name: string): Entry {
    var (path, isExtern) := TopPath(cfg, file, name);
    Entry(PackageOf(file), TypeFqn(PackageOf(file), name), path, !isExtern, None, None)
  }

  // ----- the registered types, one unit for each top-level declaration -----

  datatype Unit = Unit(package: string, name: string, isMessage: bool, emitted: bool, entries: seq<Entry>)

  ghost function MessageUnits(cfg: Config, files: seq<File>, file: File, msgs: seq<Message>): seq<Unit> {
    if msgs == [] then []
    else
      var init, last := msgs[..|msgs| - 1], msgs[|msgs| - 1];
      MessageUnits(cfg, files, file, init) +
      if last.name.None? then []
      else
        [MessageUnit(cfg, files, file, last)]
  }

  ghost function MessageUnit(cfg: Config, files: seq<File>, file: File, m: Message): Unit
    requires m.name.Some?
  {
    Unit(PackageOf(file), m.name.value, true, !TopPath(cfg, file, m.name.value).1,
         [TopMessageEntry(cfg, files, file, m.name.value)]
         + NestedEntries(cfg, TopSite(cfg, files, file, m.name.value), m))
  }

  ghost function EnumUnits(cfg: Config, file: File, enums: seq<EnumDecl>): seq<Unit> {
    if enums == [] then []
    else
      var init, last := enums[..|enums| - 1], enums[|enums| - 1];
      EnumUnits(cfg, file, init) +
      if last.name.None? then []
      else [Unit(PackageOf(file), last.name.value, false, !TopPath(cfg, file, last.name.value).1,
                 [TopEnumEntry(cfg, file, last.name.value)])]
  }

  /** The units of the files `part` of the descriptor set `files`. */
  ghost function Units(cfg: Config, files: seq<File>, part: seq<File>): seq<Unit> {
    if part == [] then []
    else
      var init, last := part[..|part| - 1], part[|part| - 1];
      Units(cfg, files, init) + MessageUnits(cfg, files, last, last.messages) + EnumUnits(cfg, last, last.enums)
  }

  ghost function Flatten(units: seq<Unit>): seq<Entry> {
    if units == [] then [] else Flatten(units[..|units| - 1]) + units[|units| - 1].entries
  }

  /** Every type of the descriptor set, in the order of registration. */
  ghost function AllEntries(cfg: Config, files: seq<File>): seq<Entry> {
    Flatten(Units(cfg, files, files))
  }

  // ----- what the proto compiler and the configuration guarantee -----

  predicate ValidPackage(package: string) {
    package == "" || "" !in Split(package)
  }

  /** Two types this run emits in one package have distinct Rust names. */
  ghost predicate TopTypesDiffer(cfg: Config, units: seq<Unit>) {
    forall i, j | && 0 <= i < j < |units| && units[i].package == units[j].package
                  && units[i].emitted && units[j].emitted ::
      LocalTypeName(cfg.prefix, units[i].name) != LocalTypeName(cfg.prefix, units[j].name)
  }

  /** What the generator itself checks of its input, besides valid packages. */
  ghost predicate FilesChecked(cfg: Config, files: seq<File>) {
    && (forall f | f in files :: ValidPackage(PackageOf(f)))
    && (forall f, m | f in files && m in f.messages && m.name.Some? ::
      TreeOk(cfg, TypeFqn(PackageOf(f), m.name.value), m))
    && TopTypesDiffer(cfg, Units(cfg, files, files))
  }

  /** In addition, that free bases differ; the generator checks that within each file, not across a package. */
  ghost predicate FilesOk(cfg: Config, files: seq<File>) {
    && FilesChecked(cfg, files)
    && forall f | f in files ::
         FreeBasesDiffer(MessageNames(cfg, files, PackageOf(f)), Occupied(cfg, files, PackageOf(f)))
  }

  // ----- shapes of top-level paths -----

  /** An emitted entry of a unit: its own type, or inside the module of its message. */
  ghost predicate InUnit(cfg: Config, files: seq<File>, u: Unit, e: Entry) {
    && u.emitted
    && (|| e.path == LocalModule(u.package) + [LocalTypeName(cfg.prefix, u.name)]
        || (u.isMessage && u.name in MessageNames(cfg, files, u.package) &&
            LocalModule(u.package) + [TopModule(cfg, files, u.package, u.name)] < e.path))
  }

  ghost predicate UnitOk(cfg: Config, files: seq<File>, u: Unit) {
    && Injective(u.entries)
    && u.package in AllPackages(files)
    && forall e | e in u.entries && e.emitted :: InUnit(cfg, files, u, e)
  }

  lemma {:induction false} FileMessageNamed(cfg: Config, package: string, msgs: seq<Message>, m: Message)
    requires m in msgs && m.name.Some? && Override(cfg, TypeFqn(package, m.name.value)).None?
    ensures m.name.value in FileMessageNames(cfg, package, msgs)
  {
    var init := msgs[..|msgs| - 1];
    if m in init { FileMessageNamed(cfg, package, init, m); }
  }

  lemma {:induction false} MessageNamed(cfg: Config, files: seq<File>, f: File, m: Message)
    requires f in files && m in f.messages && m.name.Some?
    requires Override(cfg, TypeFqn(PackageOf(f), m.name.value)).None?
    ensures m.name.value in MessageNames(cfg, files, PackageOf(f))
  {
    var init := files[..|files| - 1];
    if f in init {
      MessageNamed(cfg, init, f, m);
    } else {
      FileMessageNamed(cfg, PackageOf(f), f.messages, m);
    }
  }

  lemma MessageUnitOk(cfg: Config, files: seq<File>, f: File, m: Message)
    requires f in files && m in f.messages && m.name.Some?
    requires TreeOk(cfg, TypeFqn(PackageOf(f), m.name.value), m)
    ensures UnitOk(cfg, files, MessageUnit(cfg, files, f, m))
  {
    var name := m.name.value;
    var entry, site := TopMessageEntry(cfg, files, f, name), TopSite(cfg, files, f, name);
    NestedInside(cfg, site, m);
    NestedInjective(cfg, site, m);
    if site.emitted {
      MessageNamed(cfg, files, f, m);
    } else {
      NothingEmittedBelow(cfg, site, m);
    }
    InjectiveAppend([entry], NestedEntries(cfg, site, m));
  }

  lemma {:induction false} MessageUnitsOk(cfg: Config, files: seq<File>, f: File, msgs: seq<Message>)
    requires f in files && forall m | m in msgs :: m in f.messages
    requires forall m | m in f.messages && m.name.Some? :: TreeOk(cfg, TypeFqn(PackageOf(f), m.name.value), m)
    ensures forall u | u in MessageUnits(cfg, files, f, msgs) :: UnitOk(cfg, files, u)
  {
    if msgs != [] {
      MessageUnitsOk(cfg, files, f, msgs[..|msgs| - 1]);
      var last := msgs[|msgs| - 1];
      if last.name.Some? { MessageUnitOk(cfg, files, f, last); }
    }
  }

  lemma {:induction false} EnumUnitsOk(cfg: Config, files: seq<File>, f: File, enums: seq<EnumDecl>)
    requires f in files
    ensures forall u | u in EnumUnits(cfg, f, enums) :: UnitOk(cfg, files, u)
  {
    if enums != [] { EnumUnitsOk(cfg, files, f, enums[..|enums| - 1]); }
  }

  lemma {:induction false} UnitsOk(cfg: Config, files: seq<File>, part: seq<File>)
    requires forall f | f in part :: f in files
    requires forall f, m | f in files && m in f.messages && m.name.Some? ::
      TreeOk(cfg, TypeFqn(PackageOf(f), m.name.value), m)
    ensures forall u | u in Units(cfg, files, part) :: UnitOk(cfg, files, u)
  {
    if part != [] {
      var last := part[|part| - 1];
      UnitsOk(cfg, files, part[..|part| - 1]);
      MessageUnitsOk(cfg, files, last, last.messages);
      EnumUnitsOk(cfg, files, last, last.enums);
    }
  }

  // ----- different units are apart -----

  /** A package whose segments start another's has the next segment among its sub-package modules. */
  lemma NextSegmentIsChild(p: string, q: string, all: set<string>)
    requires q in all && ValidPackage(q) && LocalModule(p) < LocalModule(q)
    ensures LocalModule(q)[|LocalModule(p)|] in ChildSegments(p, all)
  {
    if p != "" {
      SplitPrefix(p, q);
      var rest := q[|p| + 1..];
      assert RestBelow(p, q) == Some(rest);
      assert Split(rest)[0] == Split(q)[|Split(p)|];
      assert Split("") == [""] && "" !in Split(q);
    }
  }

  lemma PackagesApart(cfg: Config, files: seq<File>, u: Unit, e: Entry, v: Unit, f: Entry)
    requires InUnit(cfg, files, u, e) && InUnit(cfg, files, v, f)
    requires v.package in AllPackages(files) && ValidPackage(v.package)
    requires u.package != v.package && |LocalModule(u.package)| <= |LocalModule(v.package)|
    ensures e.path != f.path
  {
    var ps, qs := LocalModule(u.package), LocalModule(v.package);
    if e.path == f.path {
      assert ps < e.path && qs < f.path;
      assert ps == e.path[..|ps|] == qs[..|ps|];
      if |ps| == |qs| {
        if u.package != "" && v.package != "" { SplitInjective(u.package, v.package); }
        assert false;
      }
      assert ps < qs;
      NextSegmentIsChild(u.package, v.package, AllPackages(files));
      assert e.path[|ps|] == qs[|ps|];
      var m := TopModule(cfg, files, u.package, u.name);
      assert |e.path| > |ps| + 1;
      ExtendedPath(ps, m, e.path);
      ModuleIsNoType(MessageNames(cfg, files, u.package), Occupied(cfg, files, u.package), u.name);
    }
  }

  // ----- two messages in one module -----

  /** Two messages of a package that share a free base, and with it their module. */
  ghost predicate SharedModule(cfg: Config, files: seq<File>, package: string, a: string, b: string) {
    a != b && ToSnakeCase(a) == ToSnakeCase(b) && !D.IsOccupied(Occupied(cfg, files, package), ToSnakeCase(a))
  }

  /** Two top-level messages of one package, both declared by this run, put a type of one path into one module. */
  ghost predicate DeclaresTwice(cfg: Config, files: seq<File>, f: File, m: Message, g: File, n: Message) {
    && m.name.Some? && n.name.Some? && PackageOf(f) == PackageOf(g)
    && !TopPath(cfg, f, m.name.value).1 && !TopPath(cfg, g, n.name.value).1
    && SharedModule(cfg, files, PackageOf(f), m.name.value, n.name.value)
    && Overlap(cfg, TypeFqn(PackageOf(f), m.name.value), m, TypeFqn(PackageOf(g), n.name.value), n)
  }

  ghost predicate SomeTypeTwice(cfg: Config, files: seq<File>) {
    exists f, m, g, n | f in files && m in f.messages && g in files && n in g.messages ::
      DeclaresTwice(cfg, files, f, m, g, n)
  }

  /** An emitted entry below the unit's own type, in its module. */
  ghost predicate InModule(cfg: Config, files: seq<File>, u: Unit, e: Entry) {
    && u.emitted && u.isMessage && u.name in MessageNames(cfg, files, u.package)
    && LocalModule(u.package) + [TopModule(cfg, files, u.package, u.name)] < e.path
  }

  lemma SamePackageApart(cfg: Config, files: seq<File>, u: Unit, e: Entry, v: Unit, f: Entry)
    requires InUnit(cfg, files, u, e) && InUnit(cfg, files, v, f) && u.package == v.package
    requires LocalTypeName(cfg.prefix, u.name) != LocalTypeName(cfg.prefix, v.name)
    requires InModule(cfg, files, u, e) && InModule(cfg, files, v, f) ==>
      !SharedModule(cfg, files, u.package, u.name, v.name)
    ensures e.path != f.path
  {
    var at := LocalModule(u.package);
    var mu, mv := TopModule(cfg, files, u.package, u.name), TopModule(cfg, files, v.package, v.name);
    if e.path == at + [LocalTypeName(cfg.prefix, u.name)] {
      assert e.path[|at|] == LocalTypeName(cfg.prefix, u.name);
      if f.path == at + [LocalTypeName(cfg.prefix, v.name)] {
        assert f.path[|at|] == LocalTypeName(cfg.prefix, v.name);
      } else {
        ExtendedPath(at, mv, f.path);
      }
    } else {
      ExtendedPath(at, mu, e.path);
      if f.path != at + [LocalTypeName(cfg.prefix, v.name)] {
        ExtendedPath(at, mv, f.path);
        ModulesAgree(MessageNames(cfg, files, u.package), Occupied(cfg, files, u.package), u.name, v.name);
      }
    }
  }

  lemma {:induction false} MessageUnitSource(cfg: Config, files: seq<File>, f: File, msgs: seq<Message>, u: Unit)
    requires u in MessageUnits(cfg, files, f, msgs)
    ensures u.isMessage
    ensures exists m | m in msgs :: m.name.Some? && u == MessageUnit(cfg, files, f, m)
  {
    var init, last := msgs[..|msgs| - 1], msgs[|msgs| - 1];
    assert last in msgs;
    if u in MessageUnits(cfg, files, f, init) { MessageUnitSource(cfg, files, f, init, u); }
  }

  lemma {:induction false} EnumUnitSource(cfg: Config, f: File, enums: seq<EnumDecl>, u: Unit)
    requires u in EnumUnits(cfg, f, enums)
    ensures !u.isMessage
  {
    var init := enums[..|enums| - 1];
    if u in EnumUnits(cfg, f, init) { EnumUnitSource(cfg, f, init, u); }
  }

  lemma {:induction false} UnitSource(cfg: Config, files: seq<File>, part: seq<File>, u: Unit)
    requires u in Units(cfg, files, part) && u.isMessage
    ensures exists f, m | f in part && m in f.messages :: m.name.Some? && u == MessageUnit(cfg, files, f, m)
  {
    var init, last := part[..|part| - 1], part[|part| - 1];
    if u in Units(cfg, files, init) {
      UnitSource(cfg, files, init, u);
    } else if u in EnumUnits(cfg, last, last.enums) {
      EnumUnitSource(cfg, last, last.enums, u);
    } else {
      MessageUnitSource(cfg, files, last, last.messages, u);
      assert last in part;
    }
  }

  lemma {:induction false} MessageUnitListed(cfg: Config, files: seq<File>, f: File, msgs: seq<Message>, m: Message)
    requires m in msgs && m.name.Some?
    ensures MessageUnit(cfg, files, f, m) in MessageUnits(cfg, files, f, msgs)
  {
    var init := msgs[..|msgs| - 1];
    if m in init { MessageUnitListed(cfg, files, f, init, m); }
  }

  lemma {:induction false} UnitListed(cfg: Config, files: seq<File>, part: seq<File>, f: File, m: Message)
    requires f in part && m in f.messages && m.name.Some?
    ensures MessageUnit(cfg, files, f, m) in Units(cfg, files, part)
  {
    var init := part[..|part| - 1];
    if f in init { UnitListed(cfg, files, init, f, m); } else { MessageUnitListed(cfg, files, f, f.messages, m); }
  }

  /** What a message's unit has in its module are the types nested in the message. */
  lemma InModuleIsNested(cfg: Config, files: seq<File>, f: File, m: Message, e: Entry)
    requires m.name.Some? && e in MessageUnit(cfg, files, f, m).entries
    requires InModule(cfg, files, MessageUnit(cfg, files, f, m), e)
    ensures e in NestedEntries(cfg, TopSite(cfg, files, f, m.name.value), m)
    ensures TopSite(cfg, files, f, m.name.value).emitted
  {
    var u := MessageUnit(cfg, files, f, m);
    ExtendedPath(LocalModule(u.package), TopModule(cfg, files, u.package, u.name), e.path);
  }

  /** Sites of messages that share a module coincide. */
  lemma SharedSites(cfg: Config, files: seq<File>, f: File, m: Message, g: File, n: Message)
    requires f in files && m in f.messages && g in files && n in g.messages
    requires m.name.Some? && n.name.Some? && PackageOf(f) == PackageOf(g)
    requires !TopPath(cfg, f, m.name.value).1 && !TopPath(cfg, g, n.name.value).1
    requires SharedModule(cfg, files, PackageOf(f), m.name.value, n.name.value)
    ensures
      var sa, sb := TopSite(cfg, files, f, m.name.value), TopSite(cfg, files, g, n.name.value);
      sa.emitted && sb.emitted && sa.at == sb.at
  {
    MessageNamed(cfg, files, f, m);
    MessageNamed(cfg, files, g, n);
    ModulesAgree(MessageNames(cfg, files, PackageOf(f)), Occupied(cfg, files, PackageOf(f)), m.name.value,
      n.name.value);
  }

  /** Entries of two units that share a module have different paths, unless the messages declare a type twice. */
  lemma SharedModuleApart(cfg: Config, files: seq<File>, u: Unit, e: Entry, v: Unit, f: Entry)
    requires u in Units(cfg, files, files) && v in Units(cfg, files, files) && u.package == v.package
    requires e in u.entries && f in v.entries && e.emitted && f.emitted
    requires InModule(cfg, files, u, e) && InModule(cfg, files, v, f)
    requires SharedModule(cfg, files, u.package, u.name, v.name) && !SomeTypeTwice(cfg, files)
    ensures e.path != f.path
  {
    UnitSource(cfg, files, files, u);
    UnitSource(cfg, files, files, v);
    var fu, mu :| fu in files && mu in fu.messages && mu.name.Some? && u == MessageUnit(cfg, files, fu, mu);
    var fv, mv :| fv in files && mv in fv.messages && mv.name.Some? && v == MessageUnit(cfg, files, fv, mv);
    InModuleIsNested(cfg, files, fu, mu, e);
    InModuleIsNested(cfg, files, fv, mv, f);
    SharedSites(cfg, files, fu, mu, fv, mv);
    OverlapShares(cfg, TopSite(cfg, files, fu, mu.name.value), mu, TopSite(cfg, files, fv, mv.name.value), mv);
    assert !DeclaresTwice(cfg, files, fu, mu, fv, mv);
  }

  lemma UnitsApart(cfg: Config, files: seq<File>, u: Unit, v: Unit)
    requires UnitOk(cfg, files, u) && UnitOk(cfg, files, v)
    requires u in Units(cfg, files, files) && v in Units(cfg, files, files) && !SomeTypeTwice(cfg, files)
    requires forall f | f in files :: ValidPackage(PackageOf(f))
    requires u.package == v.package && u.emitted && v.emitted ==>
      LocalTypeName(cfg.prefix, u.name) != LocalTypeName(cfg.prefix, v.name)
    ensures Apart(u.entries, v.entries)
  {
    forall e, f | e in u.entries && f in v.entries && e.emitted && f.emitted ensures e.path != f.path {
      if u.package == v.package {
        if InModule(cfg, files, u, e) && InModule(cfg, files, v, f)
           && SharedModule(cfg, files, u.package, u.name, v.name) {
          SharedModuleApart(cfg, files, u, e, v, f);
        } else {
          SamePackageApart(cfg, files, u, e, v, f);
        }
      } else if |LocalModule(u.package)| <= |LocalModule(v.package)| {
        PackagesApart(cfg, files, u, e, v, f);
      } else {
        PackagesApart(cfg, files, v, f, u, e);
      }
    }
  }

  lemma {:induction false} FlattenSource(units: seq<Unit>, e: Entry)
    requires e in Flatten(units)
    ensures exists u | u in units :: e in u.entries
  {
    var init := units[..|units| - 1];
    if e in Flatten(init) {
      FlattenSource(init, e);
    } else {
      assert units[|units| - 1] in units;
    }
  }

  lemma {:induction false} FlattenInjective(units: seq<Unit>)
    requires forall u | u in units :: Injective(u.entries)
    requires forall i, j | 0 <= i < j < |units| :: Apart(units[i].entries, units[j].entries)
    ensures Injective(Flatten(units))
  {
    if units != [] {
      var init, last := units[..|units| - 1], units[|units| - 1];
      FlattenInjective(init);
      forall e, f | e in Flatten(init) && f in last.entries && e.emitted && f.emitted ensures e.path != f.path {
        FlattenSource(init, e);
        var u :| u in init && e in u.entries;
        var i :| 0 <= i < |init| && init[i] == u;
        assert Apart(units[i].entries, units[|units| - 1].entries);
      }
      InjectiveAppend(Flatten(init), last.entries);
    }
  }

  lemma {:induction false} FlattenHolds(units: seq<Unit>, u: Unit, e: Entry)
    requires u in units && e in u.entries
    ensures e in Flatten(units)
  {
    var init := units[..|units| - 1];
    if u in init { FlattenHolds(init, u, e); }
  }

  lemma {:induction false} InjectiveApart(units: seq<Unit>, i: nat, j: nat)
    requires Injective(Flatten(units)) && i < j < |units|
    ensures Apart(units[i].entries, units[j].entries)
  {
    var init, last := units[..|units| - 1], units[|units| - 1];
    var before := Flatten(init);
    assert forall k | 0 <= k < |before| :: Flatten(units)[k] == before[k];
    if j < |init| {
      InjectiveApart(init, i, j);
    } else {
      forall x, y | x in units[i].entries && y in last.entries && x.emitted && y.emitted ensures x.path != y.path {
        assert units[i] == init[i];
        FlattenHolds(init, init[i], x);
        var k :| 0 <= k < |before| && before[k] == x;
        var l :| 0 <= l < |last.entries| && last.entries[l] == y;
        assert Flatten(units)[k] == x && Flatten(units)[|before| + l] == y;
      }
    }
  }

  lemma TwiceIsNotApart(cfg: Config, files: seq<File>, f: File, m: Message, g: File, n: Message)
    requires f in files && m in f.messages && g in files && n in g.messages && DeclaresTwice(cfg, files, f, m, g, n)
    ensures !Apart(MessageUnit(cfg, files, f, m).entries, MessageUnit(cfg, files, g, n).entries)
  {
    var sa, sb := TopSite(cfg, files, f, m.name.value), TopSite(cfg, files, g, n.name.value);
    SharedSites(cfg, files, f, m, g, n);
    OverlapShares(cfg, sa, m, sb, n);
    var x, y :| x in NestedEntries(cfg, sa, m) && y in NestedEntries(cfg, sb, n)
                && x.emitted && y.emitted && x.path == y.path;
    assert x in MessageUnit(cfg, files, f, m).entries && y in MessageUnit(cfg, files, g, n).entries;
  }

  lemma TwiceIsNotInjective(cfg: Config, files: seq<File>)
    requires SomeTypeTwice(cfg, files)
    ensures !Injective(AllEntries(cfg, files))
  {
    var units := Units(cfg, files, files);
    var f, m, g, n :| f in files && m in f.messages && g in files && n in g.messages
      && DeclaresTwice(cfg, files, f, m, g, n);
    UnitListed(cfg, files, files, f, m);
    UnitListed(cfg, files, files, g, n);
    TwiceIsNotApart(cfg, files, f, m, g, n);
    NotApart(units, MessageUnit(cfg, files, f, m), MessageUnit(cfg, files, g, n));
  }

  lemma NotApart(units: seq<Unit>, u: Unit, v: Unit)
    requires u in units && v in units && u.name != v.name && !Apart(u.entries, v.entries)
    ensures !Injective(Flatten(units))
  {
    var i :| 0 <= i < |units| && units[i] == u;
    var j :| 0 <= j < |units| && units[j] == v;
    if Injective(Flatten(units)) {
      if i < j { InjectiveApart(units, i, j); } else { InjectiveApart(units, j, i); }
    }
  }

  /**
    No two types that a run emits get the same Rust path, in any package and at any depth, if and only if no
    two top-level messages of a package share a free base and declare a type twice below it.
   */
  lemma PathsInjectiveExactly(cfg: Config, files: seq<File>)
    requires FilesChecked(cfg, files)
    ensures Injective(AllEntries(cfg, files)) <==> !SomeTypeTwice(cfg, files)
  {
    if SomeTypeTwice(cfg, files) {
      TwiceIsNotInjective(cfg, files);
    } else {
      var units := Units(cfg, files, files);
      UnitsOk(cfg, files, files);
      forall i, j | 0 <= i < j < |units| ensures Apart(units[i].entries, units[j].entries) {
        assert units[i] in units && units[j] in units;
        UnitsApart(cfg, files, units[i], units[j]);
      }
      FlattenInjective(units);
    }
  }

  /** In particular, paths are distinct whenever the free bases of every package are. */
  lemma PathsInjective(cfg: Config, files: seq<File>)
    requires FilesOk(cfg, files)
    ensures Injective(AllEntries(cfg, files))
  {
    PathsInjectiveExactly(cfg, files);
    forall f, m, g, n | f in files && m in f.messages && g in files && n in g.messages
      ensures !DeclaresTwice(cfg, files, f, m, g, n)
    {
      if DeclaresTwice(cfg, files, f, m, g, n) {
        MessageNamed(cfg, files, f, m);
        MessageNamed(cfg, files, g, n);
        BasesDiffer(MessageNames(cfg, files, PackageOf(f)), Occupied(cfg, files, PackageOf(f)), m.name.value,
          n.name.value);
      }
    }
  }

  lemma BasesDiffer(names: seq<string>, occupied: set<string>, a: string, b: string)
    requires FreeBasesDiffer(names, occupied) && a in names && b in names && a != b
    ensures ToSnakeCase(a) == ToSnakeCase(b) ==> D.IsOccupied(occupied, ToSnakeCase(a))
  {
    var i :| 0 <= i < |names| && names[i] == a;
    var j :| 0 <= j < |names| && names[j] == b;
  }

  /** The module of a top-level message is no type, sub-package module or reserved name of its package. */
  lemma TopModuleIsFree(cfg: Config, files: seq<File>, f: File, m: Message)
    requires f in files && m in f.messages && m.name.Some?
    requires Override(cfg, TypeFqn(PackageOf(f), m.name.value)).None?
    ensures
      var chosen := TopModule(cfg, files, PackageOf(f), m.name.value);
      && chosen !in PackageTypeNames(cfg, files, PackageOf(f))
      && chosen !in ChildSegments(PackageOf(f), AllPackages(files))
      && chosen !in D.RESERVED_MODULE_NAMES
      && !D.IsOccupied(Occupied(cfg, files, PackageOf(f)), chosen)
      && chosen != D.PACKAGE_RESERVED_MODULE_NAME
      && forall c | c in ChildSegments(PackageOf(f), AllPackages(files)) :: chosen != FieldIdent(c)
  {
    var names, occupied := MessageNames(cfg, files, PackageOf(f)), Occupied(cfg, files, PackageOf(f));
    MessageNamed(cfg, files, f, m);
    ModuleIsNoType(names, occupied, m.name.value);
    ModuleIsLower(names, occupied, m.name.value);
    var chosen := TopModule(cfg, files, PackageOf(f), m.name.value);
    forall c | c in ChildSegments(PackageOf(f), AllPackages(files)) ensures chosen != FieldIdent(c) {
      assert c in occupied && (c in PATH_KEYWORDS ==> c + "_" in occupied);
      assert IsUpper("Self_"[0]);
      assert IsSuffixEscaped(c) ==> c in PATH_KEYWORDS || FieldIdent(c) == "Self_";
    }
  }

  // ----- the names of a package -----

  /** The sub-package modules of a package: the segments that follow its own in the names of the set's packages. */
  lemma ChildSegmentsAre(p: string, all: set<string>, s: string)
    requires forall q | q in all :: ValidPackage(q)
    ensures s in ChildSegments(p, all) <==>
            exists q | q in all :: LocalModule(p) < LocalModule(q) && LocalModule(q)[|LocalModule(p)|] == s
  {
    if q :| q in all && LocalModule(p) < LocalModule(q) && LocalModule(q)[|LocalModule(p)|] == s {
      NextSegmentIsChild(p, q, all);
      ChildOf(p, q);
    }
    if s in ChildSegments(p, all) {
      var q :| q in all && RestBelow(p, q).Some? && RestBelow(p, q).value != "" && s == Split(RestBelow(p, q).value)[0];
      ChildOf(p, q);
    }
  }

  lemma ChildOf(p: string, q: string)
    requires ValidPackage(q)
    ensures RestBelow(p, q).Some? && RestBelow(p, q).value != "" <==> LocalModule(p) < LocalModule(q)
    ensures LocalModule(p) < LocalModule(q) ==>
            Split(RestBelow(p, q).value)[0] == LocalModule(q)[|LocalModule(p)|]
  {
    if p != "" && p + "." <= q {
      var rest := q[|p| + 1..];
      assert q == p + "." + rest;
      SplitConcat(p, rest);
      assert Split("") == [""] && "" in Split("");
    }
    if p != "" && LocalModule(p) < LocalModule(q) { SplitPrefix(p, q); }
  }

  /** The top-level messages of a package that no exact entry maps elsewhere, over all its files. */
  lemma {:induction false} FileMessageNamesAre(cfg: Config, package: string, msgs: seq<Message>, name: string)
    ensures name in FileMessageNames(cfg, package, msgs) <==>
            exists m | m in msgs :: m.name == Some(name) && Override(cfg, TypeFqn(package, name)).None?
  {
    if msgs != [] {
      var init, last := msgs[..|msgs| - 1], msgs[|msgs| - 1];
      assert msgs == init + [last];
      FileMessageNamesAre(cfg, package, init, name);
    }
  }

  ghost predicate DeclaresMessage(cfg: Config, files: seq<File>, package: string, name: string) {
    exists f, m | f in files && m in f.messages ::
      PackageOf(f) == package && m.name == Some(name) && Override(cfg, TypeFqn(package, name)).None?
  }

  lemma {:induction false} MessageNamesAre(cfg: Config, files: seq<File>, package: string, name: string)
    ensures name in MessageNames(cfg, files, package) <==> DeclaresMessage(cfg, files, package, name)
  {
    if files != [] {
      var init, last := files[..|files| - 1], files[|files| - 1];
      assert files == init + [last];
      MessageNamesAre(cfg, init, package, name);
      FileMessageNamesAre(cfg, package, last.messages, name);
      if DeclaresMessage(cfg, init, package, name) {
        var f, m :| f in init && m in f.messages && PackageOf(f) == package && m.name == Some(name)
          && Override(cfg, TypeFqn(package, name)).None?;
        assert f in files;
      }
    }
  }

  /** The Rust name of a type of the file, as registered, unless an exact entry maps it elsewhere. */
  ghost predicate IsFileType(cfg: Config, f: File, t: string) {
    || (exists m | m in f.messages ::
          m.name.Some? && Override(cfg, TypeFqn(PackageOf(f), m.name.value)).None?
          && t == LastSegment(TopPath(cfg, f, m.name.value).0))
    || (exists e | e in f.enums ::
          e.name.Some? && Override(cfg, TypeFqn(PackageOf(f), e.name.value)).None?
          && t == LastSegment(TopPath(cfg, f, e.name.value).0))
  }

  ghost predicate IsTypeName(cfg: Config, files: seq<File>, package: string, t: string) {
    exists f | f in files :: PackageOf(f) == package && IsFileType(cfg, f, t)
  }

  lemma FileTypesAre(cfg: Config, f: File, t: string)
    ensures t in FileTypeNames(cfg, f) <==> IsFileType(cfg, f, t)
  {
    assert t in FileMessageTypes(cfg, f, f.messages) <==>
           exists m | m in f.messages ::
             m.name.Some? && Override(cfg, TypeFqn(PackageOf(f), m.name.value)).None?
             && t == LastSegment(TopPath(cfg, f, m.name.value).0);
  }

  lemma PackageTypesAre(cfg: Config, files: seq<File>, package: string, t: string)
    ensures t in PackageTypeNames(cfg, files, package) <==> IsTypeName(cfg, files, package, t)
  {
    forall f | f in files ensures t in FileTypeNames(cfg, f) <==> IsFileType(cfg, f, t) { FileTypesAre(cfg, f, t); }
  }

  /**
    The module of a top-level message is its plain conversion, unless that is a reserved name, a sub-package module,
    the escape of one that is a path keyword, or a type of the package.
   */
  lemma TopModuleKeeps(cfg: Config, files: seq<File>, f: File, m: Message)
    requires f in files && m in f.messages && m.name.Some?
    requires Override(cfg, TypeFqn(PackageOf(f), m.name.value)).None?
    ensures
      var base, children := ToSnakeCase(m.name.value), ChildSegments(PackageOf(f), AllPackages(files));
      TopModule(cfg, files, PackageOf(f), m.name.value) == base <==>
        && base !in ["self", "super", "crate", "arbitrary"] && base != "oneof"
        && base !in children
        && !("self" in children && base == "self_") && !("super" in children && base == "super_")
        && !("crate" in children && base == "crate_")
        && !IsTypeName(cfg, files, PackageOf(f), base)
  {
    var names, occupied := MessageNames(cfg, files, PackageOf(f)), Occupied(cfg, files, PackageOf(f));
    var base := ToSnakeCase(m.name.value);
    MessageNamed(cfg, files, f, m);
    PackageTypesAre(cfg, files, PackageOf(f), base);
    PlainExactly(names, occupied, m.name.value);
    OccupiedIs(cfg, files, PackageOf(f), base);
  }

  lemma OccupiedIs(cfg: Config, files: seq<File>, package: string, base: string)
    ensures
      var children := ChildSegments(package, AllPackages(files));
      base in Occupied(cfg, files, package) <==>
        || base in children || base == "oneof" || base in PackageTypeNames(cfg, files, package)
        || ("self" in children && base == "self_") || ("super" in children && base == "super_")
        || ("crate" in children && base == "crate_")
  {
    EscapesAre(ChildSegments(package, AllPackages(files)), base);
  }

  lemma EscapesAre(children: set<string>, base: string)
    ensures (exists k | k in PATH_KEYWORDS && k in children :: base == k + "_") <==>
      || ("self" in children && base == "self_") || ("super" in children && base == "super_")
      || ("crate" in children && base == "crate_")
  {
    assert "self" + "_" == "self_" && "super" + "_" == "super_" && "crate" + "_" == "crate_";
    assert PATH_KEYWORDS[0] == "self" && PATH_KEYWORDS[1] == "super" && PATH_KEYWORDS[2] == "crate";
  }

  // ----- which types a run emits -----

  /** A top-level type is emitted exactly when its file has no root, and no entry names it or an ancestor of it. */
  lemma EmittedExactly(cfg: Config, f: File, name: string)
    ensures !TopPath(cfg, f, name).1 <==>
            && (f.name.Some? ==> forall i | 0 <= i < |cfg.fileRoots| :: cfg.fileRoots[i].0 != f.name.value)
            && (forall i | 0 <= i < |cfg.externs| ::
                  cfg.externs[i].0 != TypeFqn(PackageOf(f), name)
                  && !NamesAncestor(cfg.externs[i].0, TypeFqn(PackageOf(f), name)))
    ensures !TopPath(cfg, f, name).1 ==>
              TopPath(cfg, f, name).0 == LocalModule(PackageOf(f)) + [LocalTypeName(cfg.prefix, name)]
  {
    ResolvedExactly(TypeFqn(PackageOf(f), name), cfg.externs);
  }

  /** An entry for the type itself comes first, then the root of its file, and then an entry for an ancestor. */
  lemma PathPrecedence(cfg: Config, f: File, name: string)
    ensures forall i | 0 <= i < |cfg.externs| && cfg.externs[i].0 == TypeFqn(PackageOf(f), name)
                       && forall j | 0 <= j < i :: cfg.externs[j].0 != TypeFqn(PackageOf(f), name) ::
              TopPath(cfg, f, name) == (cfg.externs[i].1, true)
    ensures forall k | && 0 <= k < |cfg.fileRoots| && f.name == Some(cfg.fileRoots[k].0)
                       && (forall j | 0 <= j < k :: cfg.fileRoots[j].0 != cfg.fileRoots[k].0)
                       && (forall i | 0 <= i < |cfg.externs| :: cfg.externs[i].0 != TypeFqn(PackageOf(f), name)) ::
              TopPath(cfg, f, name) == (cfg.fileRoots[k].1 + [name], true)
  {
  }
}
