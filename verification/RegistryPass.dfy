/**
  The registration pass itself (buffa-codegen/src/context.rs, `with_extern_resolution` and
  `register_nested_types`): three tables, filled in place.
 */
module RegistryPass {
  import opened Text
  import opened Idents
  import opened Descriptors
  import opened ExternPaths
  import opened Registry
  import opened Packages
  import D = Deconflict

  datatype Tables = Tables(typeMap: map<string, Path>, packageOf: map<string, string>, moduleNames: map<string, string>)

  /** The tables after one more type is registered. */
  ghost function Put(t: Tables, e: Entry): Tables {
    Tables(t.typeMap[e.fqn := e.path], t.packageOf[e.fqn := e.package],
           if e.rename.Some? then t.moduleNames[e.fqn := e.rename.value] else t.moduleNames)
  }

  ghost function PutAll(t: Tables, es: seq<Entry>): Tables
    decreases |es|
  {
    if es == [] then t else PutAll(Put(t, es[0]), es[1..])
  }

  lemma {:induction false} PutAllAppend(t: Tables, a: seq<Entry>, b: seq<Entry>)
    ensures PutAll(t, a + b) == PutAll(PutAll(t, a), b)
    decreases |a|
  {
    if a == [] {
      assert a + b == b;
    } else {
      assert (a + b)[0] == a[0] && (a + b)[1..] == a[1..] + b;
      PutAllAppend(Put(t, a[0]), a[1..], b);
    }
  }

  lemma PutOne(t: Tables, e: Entry, b: seq<Entry>)
    ensures PutAll(t, [e] + b) == PutAll(Put(t, e), b)
  {
    assert ([e] + b)[1..] == b;
  }

  function Lookup(m: map<string, string>, key: string): Option<string> {
    if key in m then Some(m[key]) else None
  }

  ghost predicate Recorded(t: Tables, e: Entry) {
    && e.fqn in t.typeMap && t.typeMap[e.fqn] == e.path
    && e.fqn in t.packageOf && t.packageOf[e.fqn] == e.package
    && Lookup(t.moduleNames, e.fqn) == e.rename
  }

  ghost predicate UniqueFqns(es: seq<Entry>) {
    forall i, j | 0 <= i < j < |es| :: es[i].fqn != es[j].fqn
  }

  lemma {:induction false} OthersUntouched(t: Tables, es: seq<Entry>, e: Entry)
    requires Recorded(t, e) && forall x | x in es :: x.fqn != e.fqn
    ensures Recorded(PutAll(t, es), e)
    decreases |es|
  {
    if es != [] { OthersUntouched(Put(t, es[0]), es[1..], e); }
  }

  /** With unique names, the final tables hold every type as it was registered. */
  lemma {:induction false} AllRecorded(t: Tables, es: seq<Entry>)
    requires UniqueFqns(es)
    requires forall e | e in es && e.fqn in t.moduleNames :: e.rename == Some(t.moduleNames[e.fqn])
    ensures forall e | e in es :: Recorded(PutAll(t, es), e)
    decreases |es|
  {
    if es != [] {
      var first, rest := es[0], es[1..];
      assert forall k | 0 <= k < |rest| :: rest[k].fqn == es[k + 1].fqn != first.fqn;
      AllRecorded(Put(t, first), rest);
      OthersUntouched(Put(t, first), rest, first);
      assert es == [first] + rest;
    }
  }

  class TypeRegistry {
    var typeMap: map<string, Path>
    var packageOf: map<string, string>
    var moduleNames: map<string, string>

    constructor ()
      ensures Contents() == Tables(map[], map[], map[])
    {
      typeMap, packageOf, moduleNames := map[], map[], map[];
    }

    ghost function Contents(): Tables
      reads this
    {
      Tables(typeMap, packageOf, moduleNames)
    }

    method Register(package: string, fqn: string, path: Path)
      modifies this
      ensures typeMap == old(typeMap)[fqn := path] && packageOf == old(packageOf)[fqn := package]
      ensures moduleNames == old(moduleNames)
    {
      typeMap := typeMap[fqn := path];
      packageOf := packageOf[fqn := package];
    }
  }

  // ----- nested types -----

  /** Nested messages of one message have different names. */
  ghost predicate UniqueNames(cfg: Config, fqn: string, msg: Message)
    decreases msg, 1
  {
    Distinct(LocalMessages(cfg, fqn, msg.nested)) && ChildrenUnique(cfg, fqn, msg.nested)
  }

  ghost predicate ChildrenUnique(cfg: Config, fqn: string, children: seq<Message>)
    decreases children, 0
  {
    children == [] ||
    (&& (children[0].name.Some? ==> UniqueNames(cfg, fqn + "." + children[0].name.value, children[0]))
     && ChildrenUnique(cfg, fqn, children[1..]))
  }

  /** The chosen modules, by message name. */
  ghost predicate ModulesByName(names: seq<string>, occupied: set<string>, modules: map<string, string>) {
    && (forall n :: n in modules <==> n in names)
    && (forall n | n in names :: modules[n] == ModuleAmong(names, occupied, n))
  }

  lemma AmongAt(names: seq<string>, occupied: set<string>, i: nat)
    requires Distinct(names) && i < |names|
    ensures ModuleAmong(names, occupied, names[i]) == D.Modules(names, occupied)[i]
  {
    assert names[i] in names;
  }

  method ChooseModules(names: seq<string>, occupied: set<string>) returns (modules: map<string, string>)
    requires Distinct(names)
    ensures ModulesByName(names, occupied, modules)
  {
    modules := map[];
    if names == [] { return; }
    var chosen := D.DeconflictModules(names, occupied);
    D.DeconflictedUnique(names, occupied, chosen, D.Modules(names, occupied));
    for i := 0 to |names|
      invariant forall n :: n in modules <==> n in names[..i]
      invariant forall n | n in modules :: modules[n] == ModuleAmong(names, occupied, n)
    {
      assert names[..i + 1] == names[..i] + [names[i]];
      AmongAt(names, occupied, i);
      modules := modules[names[i] := chosen[i]];
    }
    assert names[..|names|] == names;
  }

  /** Registering the first of some children, then all below it, leaves the others to do. */
  lemma ChildStep(t: Tables, cfg: Config, site: Site, msg: Message, children: seq<Message>)
    requires children != []
    ensures PutAll(t, ChildEntries(cfg, site, msg, children)) ==
      var c, rest := children[0], ChildEntries(cfg, site, msg, children[1..]);
      if c.name.None? then PutAll(t, rest)
      else PutAll(PutAll(Put(t, MessageEntry(cfg, site, msg, c)),
                         NestedEntries(cfg, ChildSite(cfg, site, msg, c), c)), rest)
  {
    var c, rest := children[0], ChildEntries(cfg, site, msg, children[1..]);
    if c.name.None? {
      assert ChildEntries(cfg, site, msg, children) == rest;
    } else {
      var entry, below := MessageEntry(cfg, site, msg, c), NestedEntries(cfg, ChildSite(cfg, site, msg, c), c);
      assert ChildEntries(cfg, site, msg, children) == ([entry] + below) + rest;
      PutAllAppend(t, [entry] + below, rest);
      PutOne(t, entry, below);
    }
  }

  method RegisterNestedTypes(reg: TypeRegistry, cfg: Config, package: string, fqn: string, at: Path, msg: Message,
                             ghost site: Site)
    requires site.package == package && site.fqn == fqn && site.at == at
    requires UniqueNames(cfg, fqn, msg)
    modifies reg
    ensures reg.Contents() == PutAll(old(reg.Contents()), NestedEntries(cfg, site, msg))
    decreases msg
  {
    var local := LocalMessages(cfg, fqn, msg.nested);
    var localModules := ChooseModules(local, ToSet(ScopeTypes(cfg, fqn, msg)));
    ghost var before := reg.Contents();
    ghost var goal := PutAll(before, ChildEntries(cfg, site, msg, msg.nested));
    assert msg.nested[0..] == msg.nested;
    for i := 0 to |msg.nested|
      invariant ChildrenUnique(cfg, fqn, msg.nested[i..])
      invariant PutAll(reg.Contents(), ChildEntries(cfg, site, msg, msg.nested[i..])) == goal
    {
      var c := msg.nested[i];
      assert msg.nested[i..][0] == c && msg.nested[i..][1..] == msg.nested[i + 1..];
      ChildStep(reg.Contents(), cfg, site, msg, msg.nested[i..]);
      if c.name.None? { continue; }
      var childFqn, childAt := RegisterMessage(reg, cfg, package, fqn, at, c, local, localModules, site, msg);
      RegisterNestedTypes(reg, cfg, package, childFqn, childAt, c, ChildSite(cfg, site, msg, c));
    }
    PutAllAppend(before, ChildEntries(cfg, site, msg, msg.nested), EnumEntries(cfg, site, msg.enums));
    RegisterEnums(reg, cfg, package, fqn, at, msg.enums, site);
  }

  /** Registers one nested message, and says where its own nested types go. */
  method RegisterMessage(reg: TypeRegistry, cfg: Config, package: string, parentFqn: string, at: Path, c: Message,
                         local: seq<string>, localModules: map<string, string>, ghost site: Site, ghost msg: Message)
    returns (fqn: string, childAt: Path)
    requires site.package == package && site.fqn == parentFqn && site.at == at && c.name.Some?
    requires local == LocalMessages(cfg, parentFqn, msg.nested)
    requires ModulesByName(local, ToSet(ScopeTypes(cfg, parentFqn, msg)), localModules)
    modifies reg
    ensures reg.Contents() == Put(old(reg.Contents()), MessageEntry(cfg, site, msg, c))
    ensures fqn == ChildSite(cfg, site, msg, c).fqn && childAt == ChildSite(cfg, site, msg, c).at
  {
    var name := c.name.value;
    fqn := parentFqn + "." + name;
    var rust := Override(cfg, fqn);
    if rust.Some? {
      var m := ComputeOverrideModule(name, rust.value, false);
      childAt := Parent(rust.value) + [m];
      reg.Register(package, fqn, rust.value);
    } else {
      var m := if name in localModules then localModules[name] else ToSnakeCase(name);
      if m != ToSnakeCase(name) {
        reg.moduleNames := reg.moduleNames[fqn := m];
      }
      childAt := at + [m];
      reg.Register(package, fqn, at + [LocalTypeName(cfg.prefix, name)]);
    }
  }

  method RegisterEnums(reg: TypeRegistry, cfg: Config, package: string, fqn: string, at: Path, enums: seq<EnumDecl>,
                       ghost site: Site)
    requires site.package == package && site.fqn == fqn && site.at == at
    modifies reg
    ensures reg.Contents() == PutAll(old(reg.Contents()), EnumEntries(cfg, site, enums))
  {
    ghost var goal := PutAll(reg.Contents(), EnumEntries(cfg, site, enums));
    assert enums[0..] == enums;
    for i := 0 to |enums|
      invariant PutAll(reg.Contents(), EnumEntries(cfg, site, enums[i..])) == goal
    {
      assert enums[i..][0] == enums[i] && enums[i..][1..] == enums[i + 1..];
      if enums[i].name.None? {
        assert EnumEntries(cfg, site, enums[i..]) == EnumEntries(cfg, site, enums[i + 1..]);
        continue;
      }
      var name := enums[i].name.value;
      PutOne(reg.Contents(), EnumEntry(cfg, site, name), EnumEntries(cfg, site, enums[i + 1..]));
      var rust := Override(cfg, fqn + "." + name);
      reg.Register(package, fqn + "." + name,
                   if rust.Some? then rust.value else at + [LocalTypeName(cfg.prefix, name)]);
    }
  }

  // ----- the pre-pass over packages -----

  function NamesFor(m: map<string, seq<string>>, package: string): seq<string> {
    if package in m then m[package] else []
  }

  function TypesFor(m: map<string, set<string>>, package: string): set<string> {
    if package in m then m[package] else {}
  }

  lemma OneMoreMessage(cfg: Config, file: File, msgs: seq<Message>, m: Message)
    ensures FileMessageTypes(cfg, file, msgs + [m]) ==
            FileMessageTypes(cfg, file, msgs) + FileMessageTypes(cfg, file, [m])
    ensures FileMessageNames(cfg, PackageOf(file), msgs + [m]) ==
            FileMessageNames(cfg, PackageOf(file), msgs) + FileMessageNames(cfg, PackageOf(file), [m])
  {
    assert (msgs + [m])[..|msgs|] == msgs;
    assert [m][..0] == [];
  }

  lemma OneMessage(cfg: Config, file: File, m: Message)
    ensures
      var kept := m.name.Some? && Override(cfg, TypeFqn(PackageOf(file), m.name.value)).None?;
      && FileMessageNames(cfg, PackageOf(file), [m]) == (if kept then [m.name.value] else [])
      && FileMessageTypes(cfg, file, [m]) == if kept then {LastSegment(TopPath(cfg, file, m.name.value).0)} else {}
  {
    assert [m][..0] == [];
    assert m in [m];
  }

  /** The messages of one file: their names, and their Rust type names. */
  method CollectMessages(cfg: Config, file: File) returns (names: seq<string>, types: set<string>)
    ensures names == FileMessageNames(cfg, PackageOf(file), file.messages)
    ensures types == FileMessageTypes(cfg, file, file.messages)
  {
    names, types := [], {};
    for i := 0 to |file.messages|
      invariant names == FileMessageNames(cfg, PackageOf(file), file.messages[..i])
      invariant types == FileMessageTypes(cfg, file, file.messages[..i])
    {
      var m := file.messages[i];
      assert file.messages[..i + 1] == file.messages[..i] + [m];
      OneMoreMessage(cfg, file, file.messages[..i], m);
      OneMessage(cfg, file, m);
      if m.name.None? || Override(cfg, TypeFqn(PackageOf(file), m.name.value)).Some? { continue; }
      types := types + {LastSegment(TopPath(cfg, file, m.name.value).0)};
      names := names + [m.name.value];
    }
    assert file.messages[..|file.messages|] == file.messages;
  }

  lemma OneMoreEnum(cfg: Config, file: File, enums: seq<EnumDecl>, e: EnumDecl)
    ensures
      var kept := e.name.Some? && Override(cfg, TypeFqn(PackageOf(file), e.name.value)).None?;
      FileEnumTypes(cfg, file, enums + [e]) ==
      FileEnumTypes(cfg, file, enums) + if kept then {LastSegment(TopPath(cfg, file, e.name.value).0)} else {}
  {
  }

  method CollectEnums(cfg: Config, file: File) returns (types: set<string>)
    ensures types == FileEnumTypes(cfg, file, file.enums)
  {
    types := {};
    for i := 0 to |file.enums|
      invariant types == FileEnumTypes(cfg, file, file.enums[..i])
    {
      var e := file.enums[i];
      assert file.enums[..i + 1] == file.enums[..i] + [e];
      OneMoreEnum(cfg, file, file.enums[..i], e);
      if e.name.None? || Override(cfg, TypeFqn(PackageOf(file), e.name.value)).Some? { continue; }
      types := types + {LastSegment(TopPath(cfg, file, e.name.value).0)};
    }
    assert file.enums[..|file.enums|] == file.enums;
  }

  /** The tables of the pre-pass when the files `part` have been visited. */
  ghost predicate Collected(cfg: Config, part: seq<File>, all: set<string>, names: map<string, seq<string>>,
                            types: map<string, set<string>>) {
    && all == AllPackages(part)
    && (forall p :: NamesFor(names, p) == MessageNames(cfg, part, p))
    && (forall p :: TypesFor(types, p) == PackageTypeNames(cfg, part, p))
  }

  lemma CollectedStep(cfg: Config, part: seq<File>, file: File, all: set<string>, names: map<string, seq<string>>,
                      types: map<string, set<string>>)
    requires Collected(cfg, part, all, names, types)
    ensures
      var p := PackageOf(file);
      Collected(cfg, part + [file], all + {p},
                names[p := NamesFor(names, p) + FileMessageNames(cfg, p, file.messages)],
                types[p := TypesFor(types, p) + FileTypeNames(cfg, file)])
  {
    var package := PackageOf(file);
    var names' := names[package := NamesFor(names, package) + FileMessageNames(cfg, package, file.messages)];
    var types' := types[package := TypesFor(types, package) + FileTypeNames(cfg, file)];
    assert AllPackages(part + [file]) == AllPackages(part) + {package};
    forall p: string ensures NamesFor(names', p) == MessageNames(cfg, part + [file], p) {
      NamesStep(cfg, part, file, p);
      assert MessageNames(cfg, part, p) + [] == MessageNames(cfg, part, p);
    }
    forall p: string ensures TypesFor(types', p) == PackageTypeNames(cfg, part + [file], p) {
      TypesStep(cfg, part, file, p);
    }
  }

  lemma NamesStep(cfg: Config, part: seq<File>, file: File, p: string)
    ensures MessageNames(cfg, part + [file], p) ==
            MessageNames(cfg, part, p) + (if p == PackageOf(file) then FileMessageNames(cfg, p, file.messages) else [])
  {
    assert (part + [file])[..|part|] == part;
  }

  lemma TypesStep(cfg: Config, part: seq<File>, file: File, p: string)
    ensures PackageTypeNames(cfg, part + [file], p) ==
            PackageTypeNames(cfg, part, p) + (if p == PackageOf(file) then FileTypeNames(cfg, file) else {})
  {
  }

  method CollectPackages(cfg: Config, files: seq<File>)
    returns (all: set<string>, names: map<string, seq<string>>, types: map<string, set<string>>)
    ensures Collected(cfg, files, all, names, types)
  {
    all, names, types := {}, map[], map[];
    for k := 0 to |files|
      invariant Collected(cfg, files[..k], all, names, types)
    {
      var package := PackageOf(files[k]);
      assert files[..k + 1] == files[..k] + [files[k]];
      CollectedStep(cfg, files[..k], files[k], all, names, types);
      var mine, mineTypes := CollectMessages(cfg, files[k]);
      var enumTypes := CollectEnums(cfg, files[k]);
      all := all + {package};
      names := names[package := NamesFor(names, package) + mine];
      types := types[package := TypesFor(types, package) + (mineTypes + enumTypes)];
    }
    assert files[..|files|] == files;
  }

  // ----- the modules of top-level messages -----

  /** What protoc guarantees: a simple name has no dot, and a package's message names differ. */
  ghost predicate TopNamesOk(cfg: Config, files: seq<File>) {
    && (forall p, n | n in MessageNames(cfg, files, p) :: '.' !in n)
    && (forall p :: Distinct(MessageNames(cfg, files, p)))
  }

  lemma TypeFqnInjective(p: string, n: string, q: string, m: string)
    requires '.' !in n && '.' !in m && TypeFqn(p, n) == TypeFqn(q, m)
    ensures p == q && n == m
  {
    assert TypeFqn(p, n) == Dotted(p) + "." + n && TypeFqn(q, m) == Dotted(q) + "." + m;
    LastDotSplits(Dotted(p), n, Dotted(q), m);
    assert p == if p == "" then "" else Dotted(p)[1..];
    assert q == if q == "" then "" else Dotted(q)[1..];
  }

  function Dotted(package: string): string { if package == "" then "" else "." + package }

  lemma LastDotSplits(a: string, n: string, b: string, m: string)
    requires '.' !in n && '.' !in m && a + "." + n == b + "." + m
    ensures a == b && n == m
  {
    var s := a + "." + n;
    assert s[|a|] == '.' && s[|b|] == '.';
    assert forall k | |a| < k < |s| :: s[k] == n[k - |a| - 1] != '.';
    assert forall k | |b| < k < |s| :: s[k] == m[k - |b| - 1] != '.';
    assert |a| == |b|;
    assert s[..|a|] == a && s[..|a|] == b && s[|a| + 1..] == n && s[|a| + 1..] == m;
  }

  /** What is recorded for a message `name` in module `m`. */
  function Rename(m: string, name: string): Option<string> {
    if m == ToSnakeCase(name) then None else Some(m)
  }

  ghost function TopRename(cfg: Config, files: seq<File>, p: string, n: string): Option<string> {
    Rename(TopModule(cfg, files, p, n), n)
  }

  /** The recorded module names are those of the messages of the packages `done`. */
  ghost predicate TopRenames(cfg: Config, files: seq<File>, done: set<string>, recorded: map<string, string>) {
    && (forall p, n | p in done && n in MessageNames(cfg, files, p) ::
          Lookup(recorded, TypeFqn(p, n)) == TopRename(cfg, files, p, n))
    && (forall key | key in recorded :: exists p, n | p in done && n in MessageNames(cfg, files, p) ::
      key == TypeFqn(p, n))
  }

  /** The table after the first `k` names of a package: the modules that differ from the conversion are added. */
  function ModulesRecorded(package: string, names: seq<string>, modules: map<string, string>,
                           recorded0: map<string, string>, k: nat): map<string, string>
    requires k <= |names| && forall n | n in names :: n in modules
  {
    if k == 0 then recorded0
    else
      var before, name := ModulesRecorded(package, names, modules, recorded0, k - 1), names[k - 1];
      if modules[name] == ToSnakeCase(name) then before else before[TypeFqn(package, name) := modules[name]]
  }

  lemma {:induction false} RecordedSource(package: string, names: seq<string>, modules: map<string, string>,
                                          recorded0: map<string, string>, k: nat, key: string)
    requires k <= |names| && forall n | n in names :: n in modules
    requires key in ModulesRecorded(package, names, modules, recorded0, k) && key !in recorded0
    ensures exists n | n in names :: key == TypeFqn(package, n)
  {
    if k > 0 {
      if key in ModulesRecorded(package, names, modules, recorded0, k - 1) {
        RecordedSource(package, names, modules, recorded0, k - 1, key);
      } else {
        assert names[k - 1] in names;
      }
    }
  }

  lemma {:induction false} RecordedName(package: string, names: seq<string>, modules: map<string, string>,
                                        recorded0: map<string, string>, k: nat, n: string)
    requires k <= |names| && forall m | m in names :: m in modules && '.' !in m
    requires n in names && TypeFqn(package, n) !in recorded0
    ensures Lookup(ModulesRecorded(package, names, modules, recorded0, k), TypeFqn(package, n)) ==
            if n in names[..k] then Rename(modules[n], n) else None
  {
    if k > 0 {
      RecordedName(package, names, modules, recorded0, k - 1, n);
      OneLonger(names, k - 1);
      var last := names[k - 1];
      assert last in names;
      if TypeFqn(package, last) == TypeFqn(package, n) { TypeFqnInjective(package, last, package, n); }
    }
  }

  lemma {:induction false} RecordedKept(package: string, names: seq<string>, modules: map<string, string>,
                                        recorded0: map<string, string>, k: nat)
    requires k <= |names| && forall n | n in names :: n in modules
    requires forall n | n in names :: TypeFqn(package, n) !in recorded0
    ensures
      var recorded := ModulesRecorded(package, names, modules, recorded0, k);
      forall key | key in recorded0 :: key in recorded && recorded[key] == recorded0[key]
  {
    if k > 0 {
      RecordedKept(package, names, modules, recorded0, k - 1);
      assert names[k - 1] in names;
    }
  }

  /** Records the renamed modules of one package. */
  method RecordModules(package: string, names: seq<string>, modules: map<string, string>,
                       recorded0: map<string, string>)
    returns (recorded: map<string, string>)
    requires forall n | n in names :: n in modules && '.' !in n
    requires forall n | n in names :: TypeFqn(package, n) !in recorded0
    ensures forall n | n in names :: Lookup(recorded, TypeFqn(package, n)) == Rename(modules[n], n)
    ensures forall key :: key in recorded ==> key in recorded0 || exists n | n in names :: key == TypeFqn(package, n)
    ensures forall key | key in recorded0 :: key in recorded && recorded[key] == recorded0[key]
  {
    recorded := recorded0;
    for i := 0 to |names|
      invariant recorded == ModulesRecorded(package, names, modules, recorded0, i)
    {
      var name := names[i];
      if modules[name] == ToSnakeCase(name) { continue; }
      recorded := recorded[TypeFqn(package, name) := modules[name]];
    }
    RecordedAll(package, names, modules, recorded0);
  }

  lemma RecordedAll(package: string, names: seq<string>, modules: map<string, string>, recorded0: map<string, string>)
    requires forall n | n in names :: n in modules && '.' !in n
    requires forall n | n in names :: TypeFqn(package, n) !in recorded0
    ensures
      var recorded := ModulesRecorded(package, names, modules, recorded0, |names|);
      && (forall n | n in names :: Lookup(recorded, TypeFqn(package, n)) == Rename(modules[n], n))
      && (forall key :: key in recorded ==> key in recorded0 || exists n | n in names :: key == TypeFqn(package, n))
      && (forall key | key in recorded0 :: key in recorded && recorded[key] == recorded0[key])
  {
    var recorded := ModulesRecorded(package, names, modules, recorded0, |names|);
    RecordedKept(package, names, modules, recorded0, |names|);
    AllOfThem(names);
    forall n | n in names ensures Lookup(recorded, TypeFqn(package, n)) == Rename(modules[n], n) {
      RecordedName(package, names, modules, recorded0, |names|, n);
    }
    forall key | key in recorded && key !in recorded0 ensures exists n | n in names :: key == TypeFqn(package, n) {
      RecordedSource(package, names, modules, recorded0, |names|, key);
    }
  }

  method NameTopModules(cfg: Config, ghost files: seq<File>, all: set<string>, names: map<string, seq<string>>,
                        types: map<string, set<string>>)
    returns (recorded: map<string, string>)
    requires TopNamesOk(cfg, files) && Collected(cfg, files, all, names, types)
    ensures TopRenames(cfg, files, names.Keys, recorded)
  {
    recorded := map[];
    var todo := names.Keys;
    while todo != {}
      invariant todo <= names.Keys
      invariant TopRenames(cfg, files, names.Keys - todo, recorded)
    {
      var package :| package in todo;
      ghost var done := names.Keys - todo;
      recorded :=
        NamePackage(cfg, files, all, package, NamesFor(names, package), TypesFor(types, package), recorded, done);
      todo := todo - {package};
      assert names.Keys - todo == done + {package};
    }
  }

  method NamePackage(cfg: Config, ghost files: seq<File>, all: set<string>, package: string, names: seq<string>,
                     types: set<string>, recorded0: map<string, string>, ghost done: set<string>)
    returns (recorded: map<string, string>)
    requires TopNamesOk(cfg, files) && all == AllPackages(files)
    requires names == MessageNames(cfg, files, package) && types == PackageTypeNames(cfg, files, package)
    requires TopRenames(cfg, files, done, recorded0) && package !in done
    ensures TopRenames(cfg, files, done + {package}, recorded)
  {
    var occupied := ChildSegments(package, all);
    var escaped := set k | k in PATH_KEYWORDS && k in occupied :: k + "_";
    occupied := occupied + escaped + {D.PACKAGE_RESERVED_MODULE_NAME} + types;
    var modules := ChooseModules(names, occupied);
    RecordedElsewhere(cfg, files, done, recorded0, package);
    recorded := RecordModules(package, names, modules, recorded0);
    RenamesGrow(cfg, files, done, recorded0, package, modules, recorded);
  }

  lemma RecordedElsewhere(cfg: Config, files: seq<File>, done: set<string>, recorded: map<string, string>,
                          package: string)
    requires TopNamesOk(cfg, files) && TopRenames(cfg, files, done, recorded) && package !in done
    ensures forall n | n in MessageNames(cfg, files, package) :: TypeFqn(package, n) !in recorded
  {
    forall n | n in MessageNames(cfg, files, package) ensures TypeFqn(package, n) !in recorded {
      if TypeFqn(package, n) in recorded {
        var p, m :| p in done && m in MessageNames(cfg, files, p) && TypeFqn(package, n) == TypeFqn(p, m);
        TypeFqnInjective(package, n, p, m);
      }
    }
  }

  lemma RenamesGrow(cfg: Config, files: seq<File>, done: set<string>, recorded: map<string, string>, package: string,
                    modules: map<string, string>, more: map<string, string>)
    requires TopNamesOk(cfg, files) && TopRenames(cfg, files, done, recorded) && package !in done
    requires ModulesByName(MessageNames(cfg, files, package), Occupied(cfg, files, package), modules)
    requires forall n | n in MessageNames(cfg, files, package) ::
      Lookup(more, TypeFqn(package, n)) == Rename(modules[n], n)
    requires forall key :: key in more ==>
      key in recorded || exists n | n in MessageNames(cfg, files, package) :: key == TypeFqn(package, n)
    requires forall key | key in recorded :: key in more && more[key] == recorded[key]
    ensures TopRenames(cfg, files, done + {package}, more)
  {
    forall p, n | p in done + {package} && n in MessageNames(cfg, files, p)
      ensures Lookup(more, TypeFqn(p, n)) == TopRename(cfg, files, p, n)
    {
      if p != package && TypeFqn(p, n) !in recorded && TypeFqn(p, n) in more {
        var m :| m in MessageNames(cfg, files, package) && TypeFqn(p, n) == TypeFqn(package, m);
        TypeFqnInjective(p, n, package, m);
      }
    }
  }

  // ----- top-level types -----

  lemma {:induction false} LookupUntouched(t: Tables, es: seq<Entry>, key: string)
    requires forall e | e in es :: e.fqn != key
    ensures Lookup(PutAll(t, es).moduleNames, key) == Lookup(t.moduleNames, key)
    decreases |es|
  {
    if es != [] { LookupUntouched(Put(t, es[0]), es[1..], key); }
  }

  /** The recorded module of every top-level message is the one chosen for it. */
  ghost predicate KnowsTopModules(cfg: Config, files: seq<File>, recorded: map<string, string>) {
    forall f, m | f in files && m in f.messages && m.name.Some?
      && Override(cfg, TypeFqn(PackageOf(f), m.name.value)).None? ::
      Lookup(recorded, TypeFqn(PackageOf(f), m.name.value)) == TopRename(cfg, files, PackageOf(f), m.name.value)
  }

  method RegisterTopMessage(reg: TypeRegistry, cfg: Config, ghost files: seq<File>, file: File, m: Message)
    requires m.name.Some? && UniqueNames(cfg, TypeFqn(PackageOf(file), m.name.value), m)
    requires Override(cfg, TypeFqn(PackageOf(file), m.name.value)).None? ==>
      Lookup(reg.moduleNames, TypeFqn(PackageOf(file), m.name.value)) ==
        TopRename(cfg, files, PackageOf(file), m.name.value)
    modifies reg
    ensures reg.Contents() == PutAll(old(reg.Contents()),
      [TopMessageEntry(cfg, files, file, m.name.value)]
        + NestedEntries(cfg, TopSite(cfg, files, file, m.name.value), m))
  {
    var name := m.name.value;
    var package := PackageOf(file);
    var fqn := TypeFqn(package, name);
    ghost var entry, site := TopMessageEntry(cfg, files, file, name), TopSite(cfg, files, file, name);
    PutOne(reg.Contents(), entry, NestedEntries(cfg, site, m));
    var (path, isExtern) := TopPath(cfg, file, name);
    var chosen;
    if Override(cfg, fqn).Some? {
      chosen := ComputeOverrideModule(name, path, true);
    } else {
      var found := Lookup(reg.moduleNames, fqn);
      chosen := found.GetOr(ToSnakeCase(name));
    }
    var at := (if isExtern then Parent(path) else LocalModule(package)) + [chosen];
    label Before:
    reg.Register(package, fqn, path);
    assert reg.moduleNames == Put(old@Before(reg.Contents()), entry).moduleNames;
    RegisterNestedTypes(reg, cfg, package, fqn, at, m, site);
  }

  lemma {:induction false} FlattenAppend(a: seq<Unit>, b: seq<Unit>)
    ensures Flatten(a + b) == Flatten(a) + Flatten(b)
  {
    if b == [] {
      assert a + b == a;
    } else {
      assert (a + b)[..|a + b| - 1] == a + b[..|b| - 1];
      FlattenAppend(a, b[..|b| - 1]);
    }
  }

  lemma FlattenOne(u: Unit)
    ensures Flatten([u]) == u.entries
  {
    assert [u][..0] == [];
  }

  lemma UniqueParts(a: seq<Entry>, b: seq<Entry>)
    requires UniqueFqns(a + b)
    ensures UniqueFqns(a) && forall e, f | e in a && f in b :: e.fqn != f.fqn
  {
    forall i, j | 0 <= i < j < |a| ensures a[i].fqn != a[j].fqn { assert (a + b)[i].fqn != (a + b)[j].fqn; }
    forall i, j | 0 <= i < |a| && 0 <= j < |b| ensures a[i].fqn != b[j].fqn {
      assert (a + b)[i].fqn != (a + b)[|a| + j].fqn;
    }
  }

  lemma MessageUnitStep(cfg: Config, files: seq<File>, file: File, msgs: seq<Message>, m: Message)
    ensures Flatten(MessageUnits(cfg, files, file, msgs + [m])) == Flatten(MessageUnits(cfg, files, file, msgs)) +
      if m.name.None? then []
      else TopMessageEntries(cfg, files, file, m)
  {
    assert (msgs + [m])[..|msgs|] == msgs;
    if m.name.Some? {
      var u := Unit(PackageOf(file), m.name.value, true, !TopPath(cfg, file, m.name.value).1,
                    [TopMessageEntry(cfg, files, file, m.name.value)]
                    + NestedEntries(cfg, TopSite(cfg, files, file, m.name.value), m));
      FlattenAppend(MessageUnits(cfg, files, file, msgs), [u]);
      FlattenOne(u);
    } else {
      assert MessageUnits(cfg, files, file, msgs) + [] == MessageUnits(cfg, files, file, msgs);
    }
  }

  lemma {:induction false} MessageUnitsPrefix(cfg: Config, files: seq<File>, file: File, msgs: seq<Message>, i: nat)
    requires i <= |msgs|
    ensures Flatten(MessageUnits(cfg, files, file, msgs[..i])) <= Flatten(MessageUnits(cfg, files, file, msgs))
    decreases |msgs| - i
  {
    if i == |msgs| {
      assert msgs[..i] == msgs;
    } else {
      assert msgs[..i + 1] == msgs[..i] + [msgs[i]];
      MessageUnitStep(cfg, files, file, msgs[..i], msgs[i]);
      MessageUnitsPrefix(cfg, files, file, msgs, i + 1);
    }
  }

  lemma UniquePrefix(before: seq<Entry>, part: seq<Entry>, whole: seq<Entry>)
    requires part <= whole && UniqueFqns(before + whole)
    ensures UniqueFqns(before + part)
  {
    assert before + whole == (before + part) + whole[|part|..];
    UniqueParts(before + part, whole[|part|..]);
  }

  ghost function FileMessagesUpTo(cfg: Config, files: seq<File>, file: File, i: nat): seq<Entry>
    requires i <= |file.messages|
  {
    Flatten(MessageUnits(cfg, files, file, file.messages[..i]))
  }

  ghost function TopMessageEntries(cfg: Config, files: seq<File>, file: File, m: Message): seq<Entry>
    requires m.name.Some?
  {
    [TopMessageEntry(cfg, files, file, m.name.value)] + NestedEntries(cfg, TopSite(cfg, files, file, m.name.value), m)
  }

  /** What registering message number `i` starts from, and what it leads to. */
  lemma NextMessage(cfg: Config, files: seq<File>, file: File, start: Tables, before: seq<Entry>, i: nat)
    requires i < |file.messages|
    requires UniqueFqns(before + Flatten(MessageUnits(cfg, files, file, file.messages)))
    ensures
      var m := file.messages[i];
      var here := PutAll(start, before + FileMessagesUpTo(cfg, files, file, i));
      && PutAll(start, before + FileMessagesUpTo(cfg, files, file, i + 1))
         == (if m.name.None? then here else PutAll(here, TopMessageEntries(cfg, files, file, m)))
      && (m.name.Some? ==>
            Lookup(here.moduleNames, TypeFqn(PackageOf(file), m.name.value))
            == Lookup(start.moduleNames, TypeFqn(PackageOf(file), m.name.value)))
  {
    var m := file.messages[i];
    UpToNext(cfg, files, file, i);
    if m.name.Some? {
      MessageUnitsPrefix(cfg, files, file, file.messages, i + 1);
      PutNext(start, before, FileMessagesUpTo(cfg, files, file, i), TopMessageEntries(cfg, files, file, m),
              Flatten(MessageUnits(cfg, files, file, file.messages)));
    }
  }

  lemma UpToNext(cfg: Config, files: seq<File>, file: File, i: nat)
    requires i < |file.messages|
    ensures
      var m := file.messages[i];
      FileMessagesUpTo(cfg, files, file, i + 1) ==
      if m.name.None? then FileMessagesUpTo(cfg, files, file, i)
      else FileMessagesUpTo(cfg, files, file, i) + TopMessageEntries(cfg, files, file, m)
  {
    var m := file.messages[i];
    OneLonger(file.messages, i);
    MessageUnitStep(cfg, files, file, file.messages[..i], m);
  }

  /** Registering a new type first does not disturb what was recorded for it before the pass. */
  lemma PutNext(start: Tables, before: seq<Entry>, part: seq<Entry>, next: seq<Entry>, whole: seq<Entry>)
    requires next != [] && part + next <= whole && UniqueFqns(before + whole)
    ensures PutAll(start, before + (part + next)) == PutAll(PutAll(start, before + part), next)
    ensures Lookup(PutAll(start, before + part).moduleNames, next[0].fqn) == Lookup(start.moduleNames, next[0].fqn)
  {
    assert before + (part + next) == (before + part) + next;
    UniquePrefix(before, part + next, whole);
    UniqueParts(before + part, next);
    assert next[0] in next;
    LookupUntouched(start, before + part, next[0].fqn);
    PutAllAppend(start, before + part, next);
  }

  method RegisterMessages(reg: TypeRegistry, cfg: Config, ghost files: seq<File>, file: File,
                          ghost start: Tables, ghost before: seq<Entry>)
    requires file in files && KnowsTopModules(cfg, files, start.moduleNames)
    requires forall m | m in file.messages && m.name.Some? ::
      UniqueNames(cfg, TypeFqn(PackageOf(file), m.name.value), m)
    requires UniqueFqns(before + Flatten(MessageUnits(cfg, files, file, file.messages)))
    requires reg.Contents() == PutAll(start, before)
    modifies reg
    ensures reg.Contents() == PutAll(start, before + Flatten(MessageUnits(cfg, files, file, file.messages)))
  {
    assert before + [] == before;
    for i := 0 to |file.messages|
      invariant reg.Contents() == PutAll(start, before + FileMessagesUpTo(cfg, files, file, i))
    {
      NextMessage(cfg, files, file, start, before, i);
      if file.messages[i].name.Some? {
        RegisterTopMessage(reg, cfg, files, file, file.messages[i]);
      }
    }
    assert file.messages[..|file.messages|] == file.messages;
  }

  method RegisterTopEnums(reg: TypeRegistry, cfg: Config, file: File)
    modifies reg
    ensures reg.Contents() == PutAll(old(reg.Contents()), Flatten(EnumUnits(cfg, file, file.enums)))
  {
    ghost var start := reg.Contents();
    for i := 0 to |file.enums|
      invariant reg.Contents() == PutAll(start, Flatten(EnumUnits(cfg, file, file.enums[..i])))
    {
      var e := file.enums[i];
      assert file.enums[..i + 1][..i] == file.enums[..i];
      ghost var done := EnumUnits(cfg, file, file.enums[..i]);
      if e.name.None? {
        assert EnumUnits(cfg, file, file.enums[..i + 1]) == done;
        continue;
      }
      var name := e.name.value;
      ghost var u := Unit(PackageOf(file), name, false, !TopPath(cfg, file, name).1, [TopEnumEntry(cfg, file, name)]);
      assert EnumUnits(cfg, file, file.enums[..i + 1]) == done + [u];
      FlattenAppend(done, [u]);
      FlattenOne(u);
      PutAllAppend(start, Flatten(done), u.entries);
      PutOne(reg.Contents(), u.entries[0], []);
      reg.Register(PackageOf(file), TypeFqn(PackageOf(file), name), TopPath(cfg, file, name).0);
    }
    assert file.enums[..|file.enums|] == file.enums;
  }

  // ----- the whole pass -----

  ghost function FileEntries(cfg: Config, files: seq<File>, f: File): seq<Entry> {
    Flatten(MessageUnits(cfg, files, f, f.messages)) + Flatten(EnumUnits(cfg, f, f.enums))
  }

  ghost function EntriesUpTo(cfg: Config, files: seq<File>, k: nat): seq<Entry>
    requires k <= |files|
  {
    Flatten(Units(cfg, files, files[..k]))
  }

  lemma NextFile(cfg: Config, files: seq<File>, k: nat)
    requires k < |files|
    ensures EntriesUpTo(cfg, files, k + 1) == EntriesUpTo(cfg, files, k) + FileEntries(cfg, files, files[k])
  {
    assert files[..k + 1][..k] == files[..k];
    var f := files[k];
    FlattenAppend(Units(cfg, files, files[..k]) + MessageUnits(cfg, files, f, f.messages), EnumUnits(cfg, f, f.enums));
    FlattenAppend(Units(cfg, files, files[..k]), MessageUnits(cfg, files, f, f.messages));
  }

  lemma {:induction false} UpToIsPrefix(cfg: Config, files: seq<File>, k: nat)
    requires k <= |files|
    ensures EntriesUpTo(cfg, files, k) <= AllEntries(cfg, files)
    decreases |files| - k
  {
    if k == |files| {
      assert files[..k] == files;
    } else {
      NextFile(cfg, files, k);
      UpToIsPrefix(cfg, files, k + 1);
    }
  }

  /** What protoc guarantees of a descriptor set. */
  ghost predicate DescriptorsOk(cfg: Config, files: seq<File>) {
    && TopNamesOk(cfg, files)
    && UniqueFqns(AllEntries(cfg, files))
    && (forall f, m | f in files && m in f.messages && m.name.Some? ::
      UniqueNames(cfg, TypeFqn(PackageOf(f), m.name.value), m))
  }

  lemma RecordedTopModules(cfg: Config, files: seq<File>, names: map<string, seq<string>>,
                           recorded: map<string, string>)
    requires TopRenames(cfg, files, names.Keys, recorded)
    requires forall p :: NamesFor(names, p) == MessageNames(cfg, files, p)
    ensures KnowsTopModules(cfg, files, recorded)
  {
    forall f, m | f in files && m in f.messages && m.name.Some?
      && Override(cfg, TypeFqn(PackageOf(f), m.name.value)).None?
      ensures Lookup(recorded, TypeFqn(PackageOf(f), m.name.value)) == TopRename(cfg, files, PackageOf(f), m.name.value)
    {
      MessageNamed(cfg, files, f, m);
      assert NamesFor(names, PackageOf(f)) != [];
    }
  }

  method RegisterFile(reg: TypeRegistry, cfg: Config, ghost files: seq<File>, file: File,
                      ghost start: Tables, ghost before: seq<Entry>)
    requires file in files && KnowsTopModules(cfg, files, start.moduleNames)
    requires forall m | m in file.messages && m.name.Some? ::
      UniqueNames(cfg, TypeFqn(PackageOf(file), m.name.value), m)
    requires UniqueFqns(before + FileEntries(cfg, files, file))
    requires reg.Contents() == PutAll(start, before)
    modifies reg
    ensures reg.Contents() == PutAll(start, before + FileEntries(cfg, files, file))
  {
    ghost var msgs, enums := Flatten(MessageUnits(cfg, files, file, file.messages)),
      Flatten(EnumUnits(cfg, file, file.enums));
    assert FileEntries(cfg, files, file) == msgs + enums;
    ConcatIsAssociative(before, msgs, enums);
    UniquePrefix(before, msgs, msgs + enums);
    RegisterMessages(reg, cfg, files, file, start, before);
    RegisterTopEnums(reg, cfg, file);
    PutAllAppend(start, before + msgs, enums);
  }

  method BuildRegistry(cfg: Config, files: seq<File>) returns (reg: TypeRegistry)
    requires DescriptorsOk(cfg, files)
    ensures fresh(reg)
    ensures forall e | e in AllEntries(cfg, files) :: Recorded(reg.Contents(), e)
  {
    reg := new TypeRegistry();
    var all, names, types := CollectPackages(cfg, files);
    reg.moduleNames := NameTopModules(cfg, files, all, names, types);
    RecordedTopModules(cfg, files, names, reg.moduleNames);
    ghost var start := reg.Contents();
    for k := 0 to |files|
      invariant reg.Contents() == PutAll(start, EntriesUpTo(cfg, files, k))
    {
      NextFile(cfg, files, k);
      UpToIsPrefix(cfg, files, k + 1);
      UniquePrefix([], EntriesUpTo(cfg, files, k + 1), AllEntries(cfg, files));
      assert [] + EntriesUpTo(cfg, files, k + 1) == EntriesUpTo(cfg, files, k + 1);
      assert [] + AllEntries(cfg, files) == AllEntries(cfg, files);
      RegisterFile(reg, cfg, files, files[k], start, EntriesUpTo(cfg, files, k));
    }
    assert files[..|files|] == files;
    RecordedAgree(cfg, files, names, start.moduleNames);
    AllRecorded(start, AllEntries(cfg, files));
  }

  /** Every recorded name belongs to a registered top-level message. */
  lemma {:induction false} NamedMessage(cfg: Config, files: seq<File>, part: seq<File>, p: string, n: string)
    requires n in MessageNames(cfg, part, p)
    ensures Override(cfg, TypeFqn(p, n)).None?
    ensures exists f | f in part && PackageOf(f) == p ::
      TopMessageEntry(cfg, files, f, n) in Flatten(Units(cfg, files, part))
  {
    var init, last := part[..|part| - 1], part[|part| - 1];
    var units := Units(cfg, files, init);
    FlattenAppend(units + MessageUnits(cfg, files, last, last.messages), EnumUnits(cfg, last, last.enums));
    FlattenAppend(units, MessageUnits(cfg, files, last, last.messages));
    if n in MessageNames(cfg, init, p) {
      NamedMessage(cfg, files, init, p, n);
      var f :| f in init && PackageOf(f) == p && TopMessageEntry(cfg, files, f, n) in Flatten(units);
      assert f in part;
    } else {
      NamedInFile(cfg, files, last, last.messages, n);
      assert last in part;
    }
  }

  lemma {:induction false} NamedInFile(cfg: Config, files: seq<File>, f: File, msgs: seq<Message>, n: string)
    requires n in FileMessageNames(cfg, PackageOf(f), msgs)
    ensures Override(cfg, TypeFqn(PackageOf(f), n)).None?
    ensures TopMessageEntry(cfg, files, f, n) in Flatten(MessageUnits(cfg, files, f, msgs))
  {
    var init, last := msgs[..|msgs| - 1], msgs[|msgs| - 1];
    assert msgs == init + [last];
    MessageUnitStep(cfg, files, f, init, last);
    if n in FileMessageNames(cfg, PackageOf(f), init) { NamedInFile(cfg, files, f, init, n); }
  }

  lemma TopEntryAgrees(cfg: Config, files: seq<File>, f: File, n: string, recorded: map<string, string>)
    requires Override(cfg, TypeFqn(PackageOf(f), n)).None? && TypeFqn(PackageOf(f), n) in recorded
    requires Lookup(recorded, TypeFqn(PackageOf(f), n)) == TopRename(cfg, files, PackageOf(f), n)
    ensures TopMessageEntry(cfg, files, f, n).fqn == TypeFqn(PackageOf(f), n)
    ensures TopMessageEntry(cfg, files, f, n).rename == Some(recorded[TypeFqn(PackageOf(f), n)])
  {
  }

  lemma EntryAgrees(cfg: Config, files: seq<File>, e: Entry, p: string, n: string, recorded: map<string, string>)
    requires UniqueFqns(AllEntries(cfg, files)) && e in AllEntries(cfg, files)
    requires n in MessageNames(cfg, files, p) && e.fqn == TypeFqn(p, n) && e.fqn in recorded
    requires Lookup(recorded, TypeFqn(p, n)) == TopRename(cfg, files, p, n)
    ensures e.rename == Some(recorded[e.fqn])
  {
    NamedMessage(cfg, files, files, p, n);
    var f :| f in files && PackageOf(f) == p && TopMessageEntry(cfg, files, f, n) in AllEntries(cfg, files);
    TopEntryAgrees(cfg, files, f, n, recorded);
    UniqueEntry(AllEntries(cfg, files), e, TopMessageEntry(cfg, files, f, n));
  }

  lemma RecordedAgree(cfg: Config, files: seq<File>, names: map<string, seq<string>>, recorded: map<string, string>)
    requires UniqueFqns(AllEntries(cfg, files)) && TopRenames(cfg, files, names.Keys, recorded)
    ensures forall e | e in AllEntries(cfg, files) && e.fqn in recorded :: e.rename == Some(recorded[e.fqn])
  {
    forall e | e in AllEntries(cfg, files) && e.fqn in recorded ensures e.rename == Some(recorded[e.fqn]) {
      var p, n :| p in names.Keys && n in MessageNames(cfg, files, p) && e.fqn == TypeFqn(p, n);
      EntryAgrees(cfg, files, e, p, n, recorded);
    }
  }

  lemma UniqueEntry(es: seq<Entry>, e: Entry, f: Entry)
    requires UniqueFqns(es) && e in es && f in es && e.fqn == f.fqn
    ensures e == f
  {
    var i :| 0 <= i < |es| && es[i] == e;
    var j :| 0 <= j < |es| && es[j] == f;
  }
}
