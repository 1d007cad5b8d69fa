/**
  References to registered types (buffa-codegen/src/context.rs, `rust_type_relative` and
  `rust_type_relative_split`), with the import registry off.
 */
module RelativePaths {
  import opened Text
  import opened Idents
  import opened Segments
  import opened Descriptors
  import opened ExternPaths
  import opened Registry
  import opened Packages
  import opened RegistryPass
  import opened RustPaths
  import D = Deconflict

  /** A path that starts with `::` or `crate::`. */
  predicate IsAbsolute(path: Path) {
    |path| > 1 && (path[0] == "" || path[0] == "crate")
  }

  function CommonLen(a: Path, b: Path): (n: nat)
    ensures n <= |a| && n <= |b| && a[..n] == b[..n]
    ensures n < |a| && n < |b| ==> a[n] != b[n]
  {
    if a == [] || b == [] || a[0] != b[0] then 0
    else
      var n := CommonLen(a[1..], b[1..]);
      assert a[..n + 1] == [a[0]] + a[1..][..n] && b[..n + 1] == [b[0]] + b[1..][..n];
      n + 1
  }

  /** `full` without the leading `parent::`, when it has one. */
  function StripModule(full: Path, parent: Path): Path {
    if parent < full then full[|parent|..] else full
  }

  function TargetPackage(t: Tables, fqn: string): string {
    Lookup(t.packageOf, fqn).GetOr("")
  }

  /** From the current scope up to the common package and down to the target package. */
  function ToPackage(current: string, target: string, nesting: nat): Path {
    if current == target then Supers(nesting)
    else
      var from, to := LocalModule(current), LocalModule(target);
      var common := CommonLen(from, to);
      Supers(|from| - common + nesting) + to[common..]
  }

  function Relative(t: Tables, fqn: string, current: string, nesting: nat): Option<Path> {
    if fqn !in t.typeMap then None
    else if IsAbsolute(t.typeMap[fqn]) then Some(t.typeMap[fqn])
    else
      var target := TargetPackage(t, fqn);
      Some(ToPackage(current, target, nesting) + StripModule(t.typeMap[fqn], LocalModule(target)))
  }

  datatype SplitPath = SplitPath(toPackage: Path, withinPackage: Path, isExtern: bool)

  /** How many segments of a type's name lie within its package. */
  function WithinSegments(fqn: string, package: string): nat {
    var dotless := if "." <= fqn then fqn[1..] else fqn;
    |Split(if package != "" && package + "." <= dotless then dotless[|package| + 1..] else dotless)|
  }

  function RelativeSplit(t: Tables, fqn: string, current: string, nesting: nat): Option<SplitPath> {
    if fqn !in t.typeMap then None
    else
      var full := t.typeMap[fqn];
      var target := TargetPackage(t, fqn);
      if IsAbsolute(full) then Some(AbsoluteSplit(full, WithinSegments(fqn, target)))
      else Some(SplitPath(ToPackage(current, target, nesting), StripModule(full, LocalModule(target)), false))
  }

  function AbsoluteSplit(full: Path, within: nat): SplitPath {
    var cut := if within <= |full| then |full| - within else 0;
    // The module before the cut is the empty string when it has no segment but a leading `::`.
    if cut == 0 || (cut == 1 && full[0] == "") then SplitPath([], full, true)
    else SplitPath(full[..cut], StripModule(full, full[..cut]), true)
  }

  /** The two halves always join to the whole path, for local, cross-package and extern types. */
  lemma SplitJoinsToRelative(t: Tables, fqn: string, current: string, nesting: nat)
    ensures RelativeSplit(t, fqn, current, nesting).Some? <==> Relative(t, fqn, current, nesting).Some?
    ensures
      var split := RelativeSplit(t, fqn, current, nesting);
      split.Some? ==> Relative(t, fqn, current, nesting) == Some(split.value.toPackage + split.value.withinPackage)
  {
    if fqn in t.typeMap && IsAbsolute(t.typeMap[fqn]) {
      var full := t.typeMap[fqn];
      var within := WithinSegments(fqn, TargetPackage(t, fqn));
      CutJoins(full, if within <= |full| then |full| - within else 0);
    }
  }

  lemma CutJoins(full: Path, cut: nat)
    requires cut < |full|
    ensures [] + full == full && full[..cut] + StripModule(full, full[..cut]) == full
  {
    assert full[..cut] < full;
  }

  // ----- what a path in a module names -----

  datatype Target = InTree(path: Path) | Absolute(path: Path)

  /** Words that cannot name a module. The registration pre-pass allows for the first three only. */
  const UNNAMEABLE: seq<string> := ["self", "super", "crate", "Self", "_"]

  predicate Nameable(path: Path) {
    forall i | 0 <= i < |path| :: path[i] !in UNNAMEABLE
  }

  /** Leading `super`s climb; what follows them must be names. */
  function Climb(scope: Path, rel: Path): Option<Path>
    decreases |rel|
  {
    if rel != [] && rel[0] == "super" then (if scope == [] then None else Climb(scope[..|scope| - 1], rel[1..]))
    else if Nameable(rel) then Some(scope + rel)
    else None
  }

  /** A leading `self` stands for the scope. */
  function Resolve(scope: Path, rel: Path): Option<Target> {
    if IsAbsolute(rel) then Some(Absolute(rel))
    else
      var found := Climb(scope, if rel != [] && rel[0] == "self" then rel[1..] else rel);
      if found.Some? then Some(InTree(found.value)) else None
  }

  lemma {:induction false} ClimbSupers(scope: Path, n: nat, down: Path)
    requires n <= |scope|
    ensures Climb(scope, Supers(n) + down) == Climb(scope[..|scope| - n], down)
  {
    if n == 0 {
      assert Supers(0) + down == down && scope[..|scope|] == scope;
    } else {
      var rel := Supers(n) + down;
      assert rel[1..] == Supers(n - 1) + down;
      ClimbSupers(scope[..|scope| - 1], n - 1, down);
      assert scope[..|scope| - 1][..|scope| - n] == scope[..|scope| - n];
    }
  }

  /** A path that is not all names leads nowhere, or less deep than it is long. */
  lemma {:induction false} ClimbLength(scope: Path, rel: Path)
    ensures
      var found := Climb(scope, rel);
      found.Some? ==> |found.value| <= |scope| + |rel| && (!Nameable(rel) ==> |found.value| < |scope| + |rel|)
    decreases |rel|
  {
    if rel != [] && rel[0] == "super" && scope != [] { ClimbLength(scope[..|scope| - 1], rel[1..]); }
  }

  // ----- shapes of emitted paths -----

  /** A simple name from which no type or module named `word` results. */
  predicate Allows(word: string, name: string) {
    word == "_" ==> name != "" && name != "_"
  }

  /** No message or enum below `msg` has the name `_`, or none. */
  predicate Named(msg: Message)
    decreases msg, 1
  {
    && (forall e | e in msg.enums && e.name.Some? :: Allows("_", e.name.value))
    && AllNamed(msg.nested)
  }

  predicate AllNamed(msgs: seq<Message>)
    decreases msgs, 0
  {
    msgs == [] ||
    (&& (msgs[0].name.Some? ==> Allows("_", msgs[0].name.value))
     && Named(msgs[0])
     && AllNamed(msgs[1..]))
  }

  ghost predicate FilesNamed(files: seq<File>) {
    forall f | f in files ::
      && AllNamed(f.messages)
      && forall e | e in f.enums && e.name.Some? :: Allows("_", e.name.value)
  }

  lemma {:induction false} OneIsNamed(msgs: seq<Message>, m: Message)
    requires AllNamed(msgs) && m in msgs
    ensures Named(m) && (m.name.Some? ==> Allows("_", m.name.value))
  {
    if m != msgs[0] { OneIsNamed(msgs[1..], m); }
  }

  /** Beyond its package, a path has no segment `word`. */
  ghost predicate Clean(word: string, package: string, path: Path) {
    LocalModule(package) <= path && word !in path[|LocalModule(package)|..]
  }

  lemma CleanMore(word: string, package: string, path: Path, segment: string)
    requires Clean(word, package, path) && segment != word
    ensures Clean(word, package, path + [segment])
  {
    var n := |LocalModule(package)|;
    assert (path + [segment])[n..] == path[n..] + [segment];
  }

  lemma TypeIsNameable(word: string, prefix: string, name: string)
    requires word in UNNAMEABLE && Allows(word, name)
    ensures LocalTypeName(prefix, name) != word
  {
    var x := prefix + name;
    assert (x + "_")[|x + "_"| - 1] == '_';
    if word == "_" {
      assert x[|x| - 1] == name[|name| - 1] && |x| >= |name|;
    } else {
      assert IsSuffixEscaped(word) && word[|word| - 1] != '_';
    }
  }

  /** A chosen module is lower case, outside the reserved names, and begins like the name. */
  lemma ModuleIsNameable(word: string, names: seq<string>, occupied: set<string>, name: string)
    requires word in UNNAMEABLE && Allows(word, name) && name in names
    ensures ModuleAmong(names, occupied, name) != word
  {
    var m := ModuleAmong(names, occupied, name);
    ModuleIsNoType(names, occupied, name);
    var n := ModuleShape(names, occupied, name);
    SnakeShape(name);
    if word == "Self" {
      ModuleIsLower(names, occupied, name);
      assert IsUpper(word[0]);
    } else if word == "_" {
      assert m[0] == ToSnakeCase(name)[0] && |m| >= |name|;
    } else {
      assert word in D.RESERVED_MODULE_NAMES;
    }
  }

  ghost predicate AllClean(word: string, es: seq<Entry>) {
    forall e | e in es && e.emitted :: CleanEntry(word, e)
  }

  ghost predicate CleanEntry(word: string, e: Entry) {
    && Clean(word, e.package, e.path) && |LocalModule(e.package)| < |e.path|
    && (e.nested.Some? ==> Clean(word, e.package, e.nested.value.at))
  }

  lemma {:induction false} LocalMessageNamed(cfg: Config, fqn: string, nested: seq<Message>, c: Message)
    requires c in nested && !c.mapEntry && c.name.Some? && Override(cfg, fqn + "." + c.name.value).None?
    ensures c.name.value in LocalMessages(cfg, fqn, nested)
  {
    if c != nested[0] { LocalMessageNamed(cfg, fqn, nested[1..], c); }
  }

  lemma {:induction false} NestedClean(word: string, cfg: Config, site: Site, msg: Message)
    requires word in UNNAMEABLE && (word == "_" ==> Named(msg))
    requires site.emitted ==> Clean(word, site.package, site.at)
    ensures AllClean(word, NestedEntries(cfg, site, msg))
    decreases msg, 1
  {
    if site.emitted {
      ChildrenClean(word, cfg, site, msg, msg.nested);
      EnumsClean(word, cfg, site, msg.enums);
    } else {
      NothingEmittedBelow(cfg, site, msg);
    }
  }

  lemma ChildClean(word: string, cfg: Config, site: Site, msg: Message, c: Message)
    requires word in UNNAMEABLE && Clean(word, site.package, site.at)
    requires c in msg.nested && c.name.Some? && Allows(word, c.name.value)
    ensures ChildSite(cfg, site, msg, c).emitted ==> Clean(word, site.package, ChildSite(cfg, site, msg, c).at)
    ensures AllClean(word, [MessageEntry(cfg, site, msg, c)])
  {
    var name := c.name.value;
    TypeIsNameable(word, cfg.prefix, name);
    CleanMore(word, site.package, site.at, LocalTypeName(cfg.prefix, name));
    if ChildSite(cfg, site, msg, c).emitted {
      LocalMessageNamed(cfg, site.fqn, msg.nested, c);
      ModuleIsNameable(word, LocalMessages(cfg, site.fqn, msg.nested), ToSet(ScopeTypes(cfg, site.fqn, msg)), name);
      CleanMore(word, site.package, site.at, NestedModule(cfg, site.fqn, msg, name));
    }
  }

  lemma {:induction false} ChildrenClean(word: string, cfg: Config, site: Site, msg: Message, children: seq<Message>)
    requires word in UNNAMEABLE && (word == "_" ==> AllNamed(children))
    requires site.emitted && Clean(word, site.package, site.at) && forall c | c in children :: c in msg.nested
    ensures AllClean(word, ChildEntries(cfg, site, msg, children))
    decreases children, 0
  {
    if children != [] {
      var c := children[0];
      ChildrenClean(word, cfg, site, msg, children[1..]);
      if c.name.Some? {
        ChildClean(word, cfg, site, msg, c);
        NestedClean(word, cfg, ChildSite(cfg, site, msg, c), c);
        var entry := MessageEntry(cfg, site, msg, c);
        assert entry in [entry];
      }
    }
  }

  lemma {:induction false} EnumsClean(word: string, cfg: Config, site: Site, enums: seq<EnumDecl>)
    requires word in UNNAMEABLE && forall e | e in enums && e.name.Some? :: Allows(word, e.name.value)
    requires Clean(word, site.package, site.at)
    ensures AllClean(word, EnumEntries(cfg, site, enums))
  {
    if enums != [] {
      EnumsClean(word, cfg, site, enums[1..]);
      if enums[0].name.Some? {
        TypeIsNameable(word, cfg.prefix, enums[0].name.value);
        CleanMore(word, site.package, site.at, LocalTypeName(cfg.prefix, enums[0].name.value));
      }
    }
  }

  lemma TopClean(word: string, cfg: Config, files: seq<File>, f: File, m: Message)
    requires word in UNNAMEABLE && f in files && m in f.messages && m.name.Some?
    requires Allows(word, m.name.value) && (word == "_" ==> Named(m))
    ensures AllClean(word, TopMessageEntries(cfg, files, f, m))
  {
    var name := m.name.value;
    var site := TopSite(cfg, files, f, name);
    var package := PackageOf(f);
    TypeIsNameable(word, cfg.prefix, name);
    CleanMore(word, package, LocalModule(package), LocalTypeName(cfg.prefix, name));
    if site.emitted {
      MessageNamed(cfg, files, f, m);
      ModuleIsNameable(word, MessageNames(cfg, files, package), Occupied(cfg, files, package), name);
      CleanMore(word, package, LocalModule(package), TopModule(cfg, files, package, name));
    }
    NestedClean(word, cfg, site, m);
  }

  lemma {:induction false} MessageUnitsClean(word: string, cfg: Config, files: seq<File>, f: File, msgs: seq<Message>)
    requires word in UNNAMEABLE && f in files && (forall m | m in msgs :: m in f.messages)
    requires word == "_" ==> AllNamed(f.messages)
    ensures forall u | u in MessageUnits(cfg, files, f, msgs) :: AllClean(word, u.entries)
  {
    if msgs != [] {
      MessageUnitsClean(word, cfg, files, f, msgs[..|msgs| - 1]);
      var m := msgs[|msgs| - 1];
      if m.name.Some? {
        if word == "_" { OneIsNamed(f.messages, m); }
        TopClean(word, cfg, files, f, m);
      }
    }
  }

  lemma {:induction false} EnumUnitsClean(word: string, cfg: Config, f: File, enums: seq<EnumDecl>)
    requires word in UNNAMEABLE && forall e | e in enums && e.name.Some? :: Allows(word, e.name.value)
    ensures forall u | u in EnumUnits(cfg, f, enums) :: AllClean(word, u.entries)
  {
    if enums != [] {
      EnumUnitsClean(word, cfg, f, enums[..|enums| - 1]);
      var e := enums[|enums| - 1];
      if e.name.Some? {
        TypeIsNameable(word, cfg.prefix, e.name.value);
        CleanMore(word, PackageOf(f), LocalModule(PackageOf(f)), LocalTypeName(cfg.prefix, e.name.value));
      }
    }
  }

  lemma {:induction false} UnitsClean(word: string, cfg: Config, files: seq<File>, part: seq<File>)
    requires word in UNNAMEABLE && (forall f | f in part :: f in files) && (word == "_" ==> FilesNamed(files))
    ensures forall u | u in Units(cfg, files, part) :: AllClean(word, u.entries)
  {
    if part != [] {
      var f := part[|part| - 1];
      UnitsClean(word, cfg, files, part[..|part| - 1]);
      MessageUnitsClean(word, cfg, files, f, f.messages);
      EnumUnitsClean(word, cfg, f, f.enums);
    }
  }

  lemma EntryIsClean(word: string, cfg: Config, files: seq<File>, e: Entry)
    requires word in UNNAMEABLE && (word == "_" ==> FilesNamed(files))
    requires e in AllEntries(cfg, files) && e.emitted
    ensures CleanEntry(word, e)
  {
    UnitsClean(word, cfg, files, files);
    FlattenSource(Units(cfg, files, files), e);
  }

  /** The segments of a path behind its package. */
  function Behind(package: string, path: Path): Path
    requires LocalModule(package) <= path
  {
    path[|LocalModule(package)|..]
  }

  /** The only unnameable segment that an emitted path can add to its package is `_`. */
  lemma EmittedShape(cfg: Config, files: seq<File>, e: Entry)
    requires e in AllEntries(cfg, files) && e.emitted
    ensures LocalModule(e.package) < e.path
    ensures Nameable(Behind(e.package, e.path)) <==> "_" !in Behind(e.package, e.path)
    ensures FilesNamed(files) ==> Nameable(Behind(e.package, e.path))
    ensures e.nested.Some? ==> LocalModule(e.package) <= e.nested.value.at
    ensures e.nested.Some? ==>
      (Nameable(Behind(e.package, e.nested.value.at)) <==> "_" !in Behind(e.package, e.nested.value.at))
    ensures e.nested.Some? && FilesNamed(files) ==> Nameable(Behind(e.package, e.nested.value.at))
  {
    forall word | word in UNNAMEABLE && (word == "_" ==> FilesNamed(files)) ensures CleanEntry(word, e) {
      EntryIsClean(word, cfg, files, e);
    }
    assert CleanEntry("self", e) && "_" in UNNAMEABLE;
    NameableBut(Behind(e.package, e.path));
    if e.nested.Some? { NameableBut(Behind(e.package, e.nested.value.at)); }
  }

  lemma NameableBut(path: Path)
    ensures Nameable(path) <==> forall word | word in UNNAMEABLE :: word !in path
  {
    if i :| 0 <= i < |path| && path[i] in UNNAMEABLE { assert path[i] in path; }
  }

  // ----- where types are declared -----

  /** The modules that the generated tree declares for a package: keywords take an underscore. */
  function DeclaredModule(package: string): (r: Path)
    ensures |r| == |LocalModule(package)|
    ensures forall i | 0 <= i < |r| :: r[i] == FieldIdent(LocalModule(package)[i])
  {
    seq(|LocalModule(package)|, i requires 0 <= i < |LocalModule(package)| => FieldIdent(LocalModule(package)[i]))
  }

  /** Where an emitted type is declared. */
  function Declared(e: Entry): Path
    requires LocalModule(e.package) <= e.path
  {
    DeclaredModule(e.package) + Behind(e.package, e.path)
  }

  /**
    From any module of the package, the ancillary path of a message leads to the modules of its nested
    types, moved below the package's sentinel and kind, if and only if none of them is `_`; the package's own
    segments do not matter.
   */
  lemma AncillaryLands(cfg: Config, files: seq<File>, t: Tables, e: Entry, kind: AncillaryKind, mods: Path)
    requires forall x | x in AllEntries(cfg, files) :: Recorded(t, x)
    requires e in AllEntries(cfg, files) && e.emitted && e.nested.Some?
    ensures LocalModule(e.package) <= e.nested.value.at
    ensures
      var to, site := DeclaredModule(e.package), e.nested.value;
      var within := Behind(e.package, site.at);
      Resolve(to + mods, AncillaryPath(t.moduleNames, kind, e.package, site.chain, |mods|)) ==
      Some(InTree(to + [D.SENTINEL_MOD] + kind.Segments() + within))
      <==> "_" !in within
  {
    var to, site := DeclaredModule(e.package), e.nested.value;
    AncillaryMirrorsRegistration(cfg, files, t, e, kind, |mods|);
    EmittedShape(cfg, files, e);
    var within := Behind(e.package, site.at);
    var down := [D.SENTINEL_MOD] + kind.Segments() + within;
    KindIsNameable(kind, within);
    AncillaryDescends(to, mods, down);
    Regroup(Supers(|mods|), [D.SENTINEL_MOD], kind.Segments(), within);
    Regroup(to, [D.SENTINEL_MOD], kind.Segments(), within);
  }

  lemma Regroup(a: Path, b: Path, c: Path, d: Path)
    ensures a + b + c + d == a + (b + c + d)
  {
  }

  lemma KindIsNameable(kind: AncillaryKind, tail: Path)
    ensures Nameable([D.SENTINEL_MOD] + kind.Segments() + tail) <==> Nameable(tail)
  {
    var head := [D.SENTINEL_MOD] + kind.Segments();
    assert Nameable(head);
    assert forall i | 0 <= i < |tail| :: (head + tail)[|head| + i] == tail[i];
  }

  lemma AncillaryDescends(to: Path, mods: Path, down: Path)
    requires down != [] && down[0] == D.SENTINEL_MOD
    ensures Resolve(to + mods, Supers(|mods|) + down) == Some(InTree(to + down)) <==> Nameable(down)
  {
    var rel := Supers(|mods|) + down;
    assert rel[0] == if |mods| > 0 then "super" else D.SENTINEL_MOD;
    ClimbSupers(to + mods, |mods|, down);
    assert (to + mods)[..|to|] == to;
  }

  // ----- references land on their target -----

  /** The segments shared with the scope's package, and how far below them the scope lies. */
  function Shared(current: string, target: string): (n: nat)
    ensures n <= |LocalModule(current)| && n <= |LocalModule(target)|
    ensures LocalModule(current)[..n] == LocalModule(target)[..n]
  {
    if current == target then |LocalModule(current)| else CommonLen(LocalModule(current), LocalModule(target))
  }

  lemma ReferenceShape(t: Tables, e: Entry, current: string, nesting: nat)
    requires Recorded(t, e) && LocalModule(e.package) < e.path && !IsAbsolute(e.path)
    ensures
      var shared := Shared(current, e.package);
      Relative(t, e.fqn, current, nesting) == Some(Supers(|LocalModule(current)| - shared + nesting) + e.path[shared..])
  {
    var to, shared := LocalModule(e.package), Shared(current, e.package);
    ToPackageShape(current, e.package, nesting);
    DownFromShared(to, e.path, shared, Supers(|LocalModule(current)| - shared + nesting));
  }

  lemma ToPackageShape(current: string, target: string, nesting: nat)
    ensures var shared := Shared(current, target);
            ToPackage(current, target, nesting) ==
            Supers(|LocalModule(current)| - shared + nesting) + LocalModule(target)[shared..]
  {
  }

  lemma DownFromShared(to: Path, path: Path, shared: nat, supers: Path)
    requires to <= path && shared <= |to|
    ensures (supers + to[shared..]) + path[|to|..] == supers + path[shared..]
  {
    assert to == path[..|to|];
    assert to[shared..] + path[|to|..] == path[shared..];
    ConcatIsAssociative(supers, to[shared..], path[|to|..]);
  }

  /** From the first `shared` modules of the scope, up and down again. */
  lemma UpAndDown(scope: Path, up: nat, down: Path, target: Path)
    requires up <= |scope| && (down != [] ==> down[0] != "") && |target| == |scope| - up + |down|
    requires Nameable(down) ==> target == scope[..|scope| - up] + down
    ensures Resolve(scope, Supers(up) + down) == Some(InTree(target)) <==> Nameable(down)
  {
    var rel, top := Supers(up) + down, scope[..|scope| - up];
    ClimbSupers(scope, up, down);
    ClimbLength(top, down);
    assert rel != [] ==> rel[0] == if up > 0 then "super" else down[0];
    if up == 0 {
      assert rel == down && top == scope;
      if down != [] {
        ClimbLength(scope, down[1..]);
        assert Nameable(down) ==> down[0] !in UNNAMEABLE;
      }
    }
  }

  /** A keyword-free part of a package is declared as it is registered. */
  lemma DeclaredParts(current: string, target: string, shared: nat)
    requires shared == Shared(current, target)
    ensures DeclaredModule(current)[..shared] == DeclaredModule(target)[..shared]
    ensures Nameable(LocalModule(target)[shared..]) ==>
      DeclaredModule(target) == DeclaredModule(target)[..shared] + LocalModule(target)[shared..]
  {
    EscapedAlike(LocalModule(current), DeclaredModule(current), LocalModule(target), DeclaredModule(target), shared);
    EscapedNames(LocalModule(target), DeclaredModule(target), shared);
  }

  lemma EscapedAlike(from: Path, declaredFrom: Path, to: Path, declaredTo: Path, shared: nat)
    requires |from| == |declaredFrom| && |to| == |declaredTo| && shared <= |from| && shared <= |to|
    requires forall i | 0 <= i < |from| :: declaredFrom[i] == FieldIdent(from[i])
    requires forall i | 0 <= i < |to| :: declaredTo[i] == FieldIdent(to[i])
    requires from[..shared] == to[..shared]
    ensures declaredFrom[..shared] == declaredTo[..shared]
  {
    assert forall i | 0 <= i < shared :: from[i] == from[..shared][i] == to[..shared][i] == to[i];
  }

  lemma EscapedNames(to: Path, declared: Path, shared: nat)
    requires |to| == |declared| && shared <= |to|
    requires forall i | 0 <= i < |to| :: declared[i] == FieldIdent(to[i])
    ensures Nameable(to[shared..]) ==> declared == declared[..shared] + to[shared..]
  {
    if Nameable(to[shared..]) {
      forall i | shared <= i < |to| ensures declared[i] == to[i] {
        NameStays(to[shared..][i - shared]);
      }
    }
  }

  lemma NameStays(segment: string)
    requires segment !in UNNAMEABLE
    ensures FieldIdent(segment) == segment
  {
  }

  /** `target`, when everything below the shared modules is a name. */
  lemma DeclaredBelow(to: Path, declared: Path, path: Path, shared: nat)
    requires to < path && shared <= |to| == |declared|
    requires Nameable(to[shared..]) ==> declared == declared[..shared] + to[shared..]
    ensures Nameable(path[shared..]) ==> declared + path[|to|..] == declared[..shared] + path[shared..]
  {
    if Nameable(path[shared..]) {
      assert forall i | 0 <= i < |to[shared..]| :: to[shared..][i] == path[shared..][i];
      assert path[shared..] == to[shared..] + path[|to|..];
      ConcatIsAssociative(declared[..shared], to[shared..], path[|to|..]);
    }
  }

  lemma ScopeCut(from: Path, mods: Path, shared: nat)
    requires shared <= |from|
    ensures (from + mods)[..shared] == from[..shared]
  {
  }

  /** The reference from the module `mods` of a package names the place where the type is declared. */
  predicate Lands(t: Tables, e: Entry, current: string, mods: Path)
    requires LocalModule(e.package) <= e.path
  {
    Resolve(DeclaredModule(current) + mods, Relative(t, e.fqn, current, |mods|).GetOr([])) == Some(InTree(Declared(e)))
  }

  /**
    That is so if and only if everything the reference descends is a name, and the registered path does not
    read as one from the crate root.
   */
  lemma LandsExactly(t: Tables, e: Entry, current: string, mods: Path)
    requires Recorded(t, e) && "" !in e.path && LocalModule(e.package) < e.path
    ensures Lands(t, e, current, mods) <==> !IsAbsolute(e.path) && Nameable(e.path[Shared(current, e.package)..])
  {
    if IsAbsolute(e.path) {
      assert Relative(t, e.fqn, current, |mods|) == Some(e.path);
    } else {
      ReferenceShape(t, e, current, |mods|);
      LocalLands(e, current, mods, Relative(t, e.fqn, current, |mods|).value);
    }
  }

  lemma LocalLands(e: Entry, current: string, mods: Path, rel: Path)
    requires "" !in e.path && LocalModule(e.package) < e.path
    requires rel == Supers(|LocalModule(current)| - Shared(current, e.package) + |mods|)
                    + e.path[Shared(current, e.package)..]
    ensures Resolve(DeclaredModule(current) + mods, rel) == Some(InTree(Declared(e)))
            <==> Nameable(e.path[Shared(current, e.package)..])
  {
    var from, to, shared := DeclaredModule(current), LocalModule(e.package), Shared(current, e.package);
    DeclaredParts(current, e.package, shared);
    DescendsFrom(from, mods, to, DeclaredModule(e.package), e.path, shared, rel, Declared(e));
  }

  lemma DescendsFrom(from: Path, mods: Path, to: Path, declared: Path, path: Path, shared: nat, rel: Path, target: Path)
    requires to < path && "" !in path && shared <= |to| == |declared| && shared <= |from|
    requires from[..shared] == declared[..shared]
    requires rel == Supers(|from| - shared + |mods|) + path[shared..] && target == declared + path[|to|..]
    requires Nameable(to[shared..]) ==> declared == declared[..shared] + to[shared..]
    ensures Resolve(from + mods, rel) == Some(InTree(target)) <==> Nameable(path[shared..])
  {
    DeclaredBelow(to, declared, path, shared);
    ScopeCut(from, mods, shared);
    assert path[shared] in path;
    UpAndDown(from + mods, |from| - shared + |mods|, path[shared..], target);
  }

  /** An unnameable segment misdirects the reference from the root. */
  lemma KeywordMisdirects(t: Tables, e: Entry)
    requires Recorded(t, e) && "" !in e.path && LocalModule(e.package) < e.path && !Nameable(e.path)
    ensures !Lands(t, e, "", [])
  {
    LandsExactly(t, e, "", []);
    assert e.path[0..] == e.path;
  }

  lemma NameableEverywhere(e: Entry, shared: nat)
    requires Nameable(e.path) && "" !in e.path && shared < |e.path|
    ensures !IsAbsolute(e.path) && Nameable(e.path[shared..])
  {
    assert e.path[0] in e.path && e.path[0] !in UNNAMEABLE;
    assert forall i | 0 <= i < |e.path[shared..]| :: e.path[shared..][i] == e.path[shared + i];
  }

  ghost predicate LandsFromEverywhere(t: Tables, e: Entry)
    requires LocalModule(e.package) <= e.path
  {
    forall current, mods: Path :: Lands(t, e, current, mods)
  }

  lemma NameableParts(to: Path, path: Path)
    requires to <= path
    ensures Nameable(path) <==> Nameable(to) && Nameable(path[|to|..])
  {
    assert path == to + path[|to|..];
    assert forall i | 0 <= i < |path| :: path[i] == if i < |to| then to[i] else path[|to|..][i - |to|];
    assert forall i | 0 <= i < |to| :: to[i] == path[i];
    assert forall i | 0 <= i < |path[|to|..]| :: path[|to|..][i] == path[|to| + i];
  }

  /**
    References to a type are right from everywhere if and only if no segment of its package is a path keyword
    or `_`, and neither the type nor a module around it is named `_`.
   */
  lemma ReferencesLand(cfg: Config, files: seq<File>, t: Tables, e: Entry)
    requires e in AllEntries(cfg, files) && e.emitted && Recorded(t, e) && "" !in e.path
    ensures LocalModule(e.package) < e.path
    ensures LandsFromEverywhere(t, e) <==> Nameable(LocalModule(e.package)) && "_" !in Behind(e.package, e.path)
    ensures FilesNamed(files) ==> (LandsFromEverywhere(t, e) <==> Nameable(LocalModule(e.package)))
  {
    EmittedShape(cfg, files, e);
    NameableParts(LocalModule(e.package), e.path);
    if Nameable(e.path) {
      forall current, mods: Path ensures Lands(t, e, current, mods) {
        NameableEverywhere(e, Shared(current, e.package));
        LandsExactly(t, e, current, mods);
      }
    } else {
      KeywordMisdirects(t, e);
    }
  }

  /** Within its own package, a reference is right whatever the package is called, unless that begins with `crate`. */
  lemma OwnPackageLands(cfg: Config, files: seq<File>, t: Tables, e: Entry, mods: Path)
    requires e in AllEntries(cfg, files) && e.emitted && Recorded(t, e) && "" !in e.path && FilesNamed(files)
    ensures LocalModule(e.package) < e.path
    ensures Lands(t, e, e.package, mods)
            <==> LocalModule(e.package) == [] || LocalModule(e.package)[0] != "crate"
  {
    EmittedShape(cfg, files, e);
    LandsExactly(t, e, e.package, mods);
    var tail := Behind(e.package, e.path);
    assert tail[0] !in UNNAMEABLE && "crate" in UNNAMEABLE;
    assert e.path[0] in e.path;
    assert e.path[0] == if LocalModule(e.package) == [] then tail[0] else LocalModule(e.package)[0];
  }

  // ----- no reference climbs less -----

  lemma {:induction false} NestedPackage(cfg: Config, site: Site, msg: Message)
    ensures forall e | e in NestedEntries(cfg, site, msg) :: e.package == site.package
    decreases msg, 1
  {
    ChildrenPackage(cfg, site, msg, msg.nested);
    EnumsPackage(cfg, site, msg.enums);
  }

  lemma {:induction false} ChildrenPackage(cfg: Config, site: Site, msg: Message, children: seq<Message>)
    ensures forall e | e in ChildEntries(cfg, site, msg, children) :: e.package == site.package
    decreases children, 0
  {
    if children != [] {
      ChildrenPackage(cfg, site, msg, children[1..]);
      var c := children[0];
      if c.name.Some? { NestedPackage(cfg, ChildSite(cfg, site, msg, c), c); }
    }
  }

  lemma {:induction false} EnumsPackage(cfg: Config, site: Site, enums: seq<EnumDecl>)
    ensures forall e | e in EnumEntries(cfg, site, enums) :: e.package == site.package
  {
    if enums != [] { EnumsPackage(cfg, site, enums[1..]); }
  }

  lemma {:induction false} MessageUnitsPackage(cfg: Config, files: seq<File>, f: File, msgs: seq<Message>)
    ensures forall u, e | u in MessageUnits(cfg, files, f, msgs) && e in u.entries :: e.package == u.package
  {
    if msgs != [] {
      MessageUnitsPackage(cfg, files, f, msgs[..|msgs| - 1]);
      var m := msgs[|msgs| - 1];
      if m.name.Some? { NestedPackage(cfg, TopSite(cfg, files, f, m.name.value), m); }
    }
  }

  lemma {:induction false} EnumUnitsPackage(cfg: Config, f: File, enums: seq<EnumDecl>)
    ensures forall u, e | u in EnumUnits(cfg, f, enums) && e in u.entries :: e.package == u.package
  {
    if enums != [] { EnumUnitsPackage(cfg, f, enums[..|enums| - 1]); }
  }

  lemma {:induction false} UnitsPackage(cfg: Config, files: seq<File>, part: seq<File>)
    ensures forall u, e | u in Units(cfg, files, part) && e in u.entries :: e.package == u.package
  {
    if part != [] {
      var f := part[|part| - 1];
      UnitsPackage(cfg, files, part[..|part| - 1]);
      MessageUnitsPackage(cfg, files, f, f.messages);
      EnumUnitsPackage(cfg, f, f.enums);
    }
  }

  /** Beyond the package, a longer path starts with a module that is no sub-package. */
  lemma FirstModuleIsNoPackage(cfg: Config, files: seq<File>, e: Entry)
    requires FilesChecked(cfg, files) && e in AllEntries(cfg, files) && e.emitted
    requires |e.path| > |LocalModule(e.package)| + 1
    ensures e.path[|LocalModule(e.package)|] !in ChildSegments(e.package, AllPackages(files))
  {
    var units := Units(cfg, files, files);
    UnitsOk(cfg, files, files);
    UnitsPackage(cfg, files, files);
    FlattenSource(units, e);
    var u :| u in units && e in u.entries;
    assert InUnit(cfg, files, u, e);
    var m := TopModule(cfg, files, u.package, u.name);
    ExtendedPath(LocalModule(u.package), m, e.path);
    ModuleIsNoType(MessageNames(cfg, files, u.package), Occupied(cfg, files, u.package), u.name);
  }

  lemma ClimbLands(scope: Path, k: nat, down: Path, path: Path)
    requires down != [] && Nameable(down) && Climb(scope, Supers(k) + down) == Some(path)
    ensures k <= |scope| && scope[..|scope| - k] + down == path
    decreases k
  {
    if k == 0 {
      assert Supers(0) + down == down && scope[..|scope|] == scope;
      assert down[0] !in PATH_KEYWORDS;
    } else {
      assert (Supers(k) + down)[0] == "super";
      assert (Supers(k) + down)[1..] == Supers(k - 1) + down;
      ClimbLands(scope[..|scope| - 1], k - 1, down, path);
      assert scope[..|scope| - 1][..|scope| - k] == scope[..|scope| - k];
    }
  }

  /** A path that is right from two scopes in differently named modules climbs at least to the package. */
  lemma ClimbsToPackage(from: Path, a: Path, b: Path, k: nat, down: Path, path: Path)
    requires down != [] && Nameable(down) && |a| == |b| && (|a| > 0 ==> a[0] != b[0])
    requires Climb(from + a, Supers(k) + down) == Some(path)
    requires Climb(from + b, Supers(k) + down) == Some(path)
    ensures |a| <= k <= |from| + |a| && from[..|from| + |a| - k] + down == path
  {
    var scopeA, scopeB := from + a, from + b;
    ClimbLands(scopeA, k, down, path);
    ClimbLands(scopeB, k, down, path);
    AtLeastToPackage(from, a, b, scopeA, scopeB, k, down, path);
  }

  lemma AtLeastToPackage(from: Path, a: Path, b: Path, scopeA: Path, scopeB: Path, k: nat, down: Path, path: Path)
    requires |a| == |b| && (|a| > 0 ==> a[0] != b[0]) && scopeA == from + a && scopeB == from + b
    requires k <= |scopeA| && scopeA[..|scopeA| - k] + down == path
    requires k <= |scopeB| && scopeB[..|scopeB| - k] + down == path
    ensures |a| <= k <= |from| + |a| && from[..|from| + |a| - k] + down == path
  {
    if k < |a| {
      SameFirstModule(from, a, b, k, down, path);
    } else {
      CutPrefix(from, a, |from| + |a| - k);
    }
  }

  lemma CutPrefix(from: Path, a: Path, n: nat)
    requires n <= |from|
    ensures (from + a)[..n] == from[..n]
  {
  }

  lemma SameFirstModule(from: Path, a: Path, b: Path, k: nat, down: Path, path: Path)
    requires k < |a| == |b|
    requires (from + a)[..|from + a| - k] + down == path
    requires (from + b)[..|from + b| - k] + down == path
    ensures a[0] == b[0]
  {
    FirstModuleShows(from, a, k, down, path);
    FirstModuleShows(from, b, k, down, path);
  }

  lemma FirstModuleShows(from: Path, mods: Path, k: nat, down: Path, path: Path)
    requires k < |mods| && (from + mods)[..|from + mods| - k] + down == path
    ensures |path| > |from| && path[|from|] == mods[0]
  {
  }

  /** `k` supers and then `down` name `path` from the module `mods` of the package `from`. */
  ghost predicate Reaches(from: Path, mods: Path, k: nat, down: Path, path: Path) {
    Climb(from + mods, Supers(k) + down) == Some(path)
  }

  /** A path to the type cannot start below the segments it shares with the scope's package. */
  lemma StartsAtShared(package: string, path: Path, current: string, all: set<string>, j: nat, down: Path)
    requires NoPackageBelow(package, path, all) && current in all && ValidPackage(current)
    requires j <= |LocalModule(current)| && down != [] && LocalModule(current)[..j] + down == path
    ensures j <= Shared(current, package)
  {
    if j > Shared(current, package) {
      StartsBelow(LocalModule(current), LocalModule(package), j, down, path);
      NextSegmentIsChild(package, current, all);
    }
  }

  /** A path that goes on for more than one segment behind its package goes on in no sub-package. */
  ghost predicate NoPackageBelow(package: string, path: Path, all: set<string>) {
    var to := LocalModule(package);
    to < path && (|path| > |to| + 1 ==> path[|to|] !in ChildSegments(package, all))
  }

  lemma StartsBelow(from: Path, to: Path, j: nat, down: Path, path: Path)
    requires to < path && j <= |from| && down != [] && from[..j] + down == path && j > CommonLen(from, to)
    ensures to < from && |path| > |to| + 1 && path[|to|] == from[|to|]
  {
    var n := CommonLen(from, to);
    assert path[n] == from[n];
    assert n == |to|;
    assert from[..n] == to;
  }

  lemma ClimbsAtLeast(package: string, path: Path, current: string, all: set<string>, a: Path, b: Path, k: nat,
                      down: Path)
    requires NoPackageBelow(package, path, all) && current in all && ValidPackage(current)
    requires down != [] && Nameable(down)
    requires |a| == |b| && (|a| > 0 ==> a[0] != b[0])
    requires Reaches(LocalModule(current), a, k, down, path) && Reaches(LocalModule(current), b, k, down, path)
    ensures k >= |LocalModule(current)| - Shared(current, package) + |a|
  {
    ClimbsToPackage(LocalModule(current), a, b, k, down, path);
    StartsAtShared(package, path, current, all, |LocalModule(current)| + |a| - k, down);
  }

  lemma EndsInNoPackage(cfg: Config, files: seq<File>, e: Entry)
    requires FilesChecked(cfg, files) && e in AllEntries(cfg, files) && e.emitted && LocalModule(e.package) < e.path
    ensures NoPackageBelow(e.package, e.path, AllPackages(files))
  {
    if |e.path| > |LocalModule(e.package)| + 1 { FirstModuleIsNoPackage(cfg, files, e); }
  }

  /**
    Any path that is right from two equally deep scopes of a package, below modules with different
    names, climbs at least as far as the reference; at the package's own level one scope is enough.
   */
  lemma FewestSupers(cfg: Config, files: seq<File>, e: Entry, current: string, a: Path, b: Path, k: nat, down: Path)
    requires FilesChecked(cfg, files) && e in AllEntries(cfg, files) && e.emitted && LocalModule(e.package) < e.path
    requires current in AllPackages(files)
    requires down != [] && Nameable(down)
    requires |a| == |b| && (|a| > 0 ==> a[0] != b[0])
    requires Reaches(LocalModule(current), a, k, down, e.path) && Reaches(LocalModule(current), b, k, down, e.path)
    ensures k >= |LocalModule(current)| - Shared(current, e.package) + |a|
  {
    EndsInNoPackage(cfg, files, e);
    ClimbsAtLeast(e.package, e.path, current, AllPackages(files), a, b, k, down);
  }
}
