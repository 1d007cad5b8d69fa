/**
  References split at the boundary of the target's package (buffa-codegen/src/context.rs,
  `rust_type_relative_split`): where the two halves lie, and where they lead with the ancillary modules
  between them.
 */
module SplitPaths {
  import opened Text
  import opened Idents
  import opened Descriptors
  import opened ExternPaths
  import opened Registry
  import opened Packages
  import opened RegistryPass
  import opened RustPaths
  import opened RelativePaths
  import D = Deconflict

  /** A split reference is another crate's exactly when the registered path is absolute. */
  lemma ExternIsAbsolute(t: Tables, fqn: string, current: string, nesting: nat)
    ensures RelativeSplit(t, fqn, current, nesting).Some? <==> fqn in t.typeMap
    ensures fqn in t.typeMap ==>
      (RelativeSplit(t, fqn, current, nesting).value.isExtern
       <==> |t.typeMap[fqn]| > 1 && (t.typeMap[fqn][0] == "" || t.typeMap[fqn][0] == "crate"))
  {
  }

  // ----- types of this run -----

  /** The split of a type of this run: up to its package and down again, and the rest of its path. */
  lemma LocalHalves(t: Tables, e: Entry, current: string, nesting: nat, split: SplitPath)
    requires Recorded(t, e) && LocalModule(e.package) < e.path && !IsAbsolute(e.path)
    requires RelativeSplit(t, e.fqn, current, nesting) == Some(split)
    ensures split.withinPackage == Behind(e.package, e.path) && !split.isExtern
    ensures split.toPackage == Supers(|LocalModule(current)| - Shared(current, e.package) + nesting)
                               + LocalModule(e.package)[Shared(current, e.package)..]
  {
    ToPackageShape(current, e.package, nesting);
  }

  /**
    The first half leads from every module of every package to the module of the target's package, as far as
    the segments below the shared ones are names; the second is the path behind the package.
   */
  lemma LocalSplit(t: Tables, e: Entry, current: string, mods: Path, split: SplitPath)
    requires Recorded(t, e) && "" !in e.path && LocalModule(e.package) < e.path && !IsAbsolute(e.path)
    requires RelativeSplit(t, e.fqn, current, |mods|) == Some(split)
    ensures !split.isExtern && LocalModule(e.package) + split.withinPackage == e.path
    ensures Resolve(DeclaredModule(current) + mods, split.toPackage) == Some(InTree(DeclaredModule(e.package)))
            <==> Nameable(LocalModule(e.package)[Shared(current, e.package)..])
  {
    LocalParts(t, e, current, mods, split);
    LeadsToPackage(DeclaredModule(current), mods, LocalModule(e.package), DeclaredModule(e.package),
                   Shared(current, e.package), split.toPackage);
  }

  /** `rel` climbs from the module `mods` of `from` to the shared segments, and goes on with those of `to`. */
  ghost predicate Leads(from: Path, mods: Path, to: Path, declared: Path, shared: nat, rel: Path) {
    && shared <= |to| == |declared| && shared <= |from| && "" !in to && from[..shared] == declared[..shared]
    && (Nameable(to[shared..]) ==> declared == declared[..shared] + to[shared..])
    && rel == Supers(|from| - shared + |mods|) + to[shared..]
  }

  lemma LocalParts(t: Tables, e: Entry, current: string, mods: Path, split: SplitPath)
    requires Recorded(t, e) && "" !in e.path && LocalModule(e.package) < e.path && !IsAbsolute(e.path)
    requires RelativeSplit(t, e.fqn, current, |mods|) == Some(split)
    ensures !split.isExtern && split.withinPackage == Behind(e.package, e.path)
    ensures LocalModule(e.package) + split.withinPackage == e.path
    ensures Leads(DeclaredModule(current), mods, LocalModule(e.package), DeclaredModule(e.package),
                  Shared(current, e.package), split.toPackage)
  {
    LocalHalves(t, e, current, |mods|, split);
    NoEmptySegment(LocalModule(e.package), e.path);
    ShapeLeads(current, e.package, mods, split.toPackage);
  }

  lemma ShapeLeads(current: string, target: string, mods: Path, rel: Path)
    requires "" !in LocalModule(target)
    requires rel == Supers(|LocalModule(current)| - Shared(current, target) + |mods|)
                    + LocalModule(target)[Shared(current, target)..]
    ensures Leads(DeclaredModule(current), mods, LocalModule(target), DeclaredModule(target),
                  Shared(current, target), rel)
  {
    var from, to, declared, shared :=
      DeclaredModule(current), LocalModule(target), DeclaredModule(target), Shared(current, target);
    DeclaredParts(current, target, shared);
    LeadsBy(from, mods, to, declared, shared, |LocalModule(current)|, rel);
  }

  lemma LeadsBy(from: Path, mods: Path, to: Path, declared: Path, shared: nat, depth: nat, rel: Path)
    requires |from| == depth && shared <= depth && shared <= |to| == |declared| && "" !in to
    requires from[..shared] == declared[..shared]
    requires Nameable(to[shared..]) ==> declared == declared[..shared] + to[shared..]
    requires rel == Supers(depth - shared + |mods|) + to[shared..]
    ensures Leads(from, mods, to, declared, shared, rel)
  {
  }

  lemma NoEmptySegment(to: Path, path: Path)
    requires to < path && "" !in path
    ensures "" !in to && to + path[|to|..] == path
  {
    assert to == path[..|to|];
  }

  lemma LeadsToPackage(from: Path, mods: Path, to: Path, declared: Path, shared: nat, rel: Path)
    requires Leads(from, mods, to, declared, shared, rel)
    ensures Resolve(from + mods, rel) == Some(InTree(declared)) <==> Nameable(to[shared..])
  {
    ScopeCut(from, mods, shared);
    assert shared < |to| ==> to[shared] in to;
    UpAndDown(from + mods, |from| - shared + |mods|, to[shared..], declared);
  }

  /** What callers compose: the first half, the sentinel, the kind, and the second half. */
  function Composed(split: SplitPath, kind: AncillaryKind): Path {
    split.toPackage + [D.SENTINEL_MOD] + kind.Segments() + split.withinPackage
  }

  /** It leads below the sentinel and the kind of the target's own package. */
  lemma ComposedLands(t: Tables, e: Entry, kind: AncillaryKind, current: string, mods: Path, split: SplitPath)
    requires Recorded(t, e) && "" !in e.path && LocalModule(e.package) < e.path && !IsAbsolute(e.path)
    requires RelativeSplit(t, e.fqn, current, |mods|) == Some(split)
    ensures Resolve(DeclaredModule(current) + mods, Composed(split, kind)) == Some(InTree(Below(e, kind)))
            <==> Nameable(LocalModule(e.package)[Shared(current, e.package)..]) && Nameable(Behind(e.package, e.path))
  {
    LocalParts(t, e, current, mods, split);
    ComposedDescends(DeclaredModule(current), mods, LocalModule(e.package), DeclaredModule(e.package),
                     Shared(current, e.package), kind, Behind(e.package, e.path), split.toPackage,
                     Composed(split, kind), Below(e, kind));
  }

  /** Below the sentinel of its own package, and there below the kind. */
  function Below(e: Entry, kind: AncillaryKind): Path
    requires LocalModule(e.package) <= e.path
  {
    DeclaredModule(e.package) + [D.SENTINEL_MOD] + kind.Segments() + Behind(e.package, e.path)
  }

  lemma ComposedDescends(from: Path, mods: Path, to: Path, declared: Path, shared: nat, kind: AncillaryKind, tail: Path,
                         first: Path, rel: Path, target: Path)
    requires Leads(from, mods, to, declared, shared, first)
    requires rel == first + [D.SENTINEL_MOD] + kind.Segments() + tail
    requires target == declared + [D.SENTINEL_MOD] + kind.Segments() + tail
    ensures Resolve(from + mods, rel) == Some(InTree(target)) <==> Nameable(to[shared..]) && Nameable(tail)
  {
    var supers, low := Supers(|from| - shared + |mods|), [D.SENTINEL_MOD] + kind.Segments() + tail;
    Regroup(first, [D.SENTINEL_MOD], kind.Segments(), tail);
    ConcatIsAssociative(supers, to[shared..], low);
    Regroup(declared, [D.SENTINEL_MOD], kind.Segments(), tail);
    KindIsNameable(kind, tail);
    BothNameable(to[shared..], low);
    DescendsLower(from, mods, to, declared, shared, low, rel, target);
  }

  lemma DescendsLower(from: Path, mods: Path, to: Path, declared: Path, shared: nat, low: Path, rel: Path, target: Path)
    requires shared <= |to| == |declared| && shared <= |from| && "" !in to && from[..shared] == declared[..shared]
    requires Nameable(to[shared..]) ==> declared == declared[..shared] + to[shared..]
    requires Nameable(to[shared..] + low) ==> Nameable(to[shared..])
    requires low != [] && low[0] == D.SENTINEL_MOD
    requires rel == Supers(|from| - shared + |mods|) + (to[shared..] + low) && target == declared + low
    ensures Resolve(from + mods, rel) == Some(InTree(target)) <==> Nameable(to[shared..] + low)
  {
    var down := to[shared..] + low;
    ScopeCut(from, mods, shared);
    assert down[0] == if shared < |to| then to[shared] else D.SENTINEL_MOD;
    assert shared < |to| ==> to[shared] in to;
    if Nameable(down) { ConcatIsAssociative(declared[..shared], to[shared..], low); }
    UpAndDown(from + mods, |from| - shared + |mods|, down, target);
  }

  lemma BothNameable(a: Path, b: Path)
    ensures Nameable(a + b) <==> Nameable(a) && Nameable(b)
  {
    NameableParts(a, a + b);
    assert (a + b)[|a|..] == b;
  }

  // ----- types of other crates -----

  /** No configured entry names the type, or anything below it. */
  predicate Unmapped(cfg: Config, fqn: string) {
    forall i | 0 <= i < |cfg.externs| :: cfg.externs[i].0 != fqn && !(fqn + "." <= cfg.externs[i].0)
  }

  /** Simple names are not empty and have no dot, at any depth. */
  predicate DotFree(msg: Message)
    decreases msg, 1
  {
    && (forall e | e in msg.enums && e.name.Some? :: e.name.value != "" && '.' !in e.name.value)
    && AllDotFree(msg.nested)
  }

  predicate AllDotFree(msgs: seq<Message>)
    decreases msgs, 0
  {
    msgs == [] ||
    (&& (msgs[0].name.Some? ==> msgs[0].name.value != "" && '.' !in msgs[0].name.value)
     && DotFree(msgs[0])
     && AllDotFree(msgs[1..]))
  }

  /** `path` is `root` and then one segment for each name of the chain. */
  ghost predicate HangsOff(root: Path, path: Path, chain: seq<string>) {
    root <= path && |path| == |root| + |chain|
  }

  ghost predicate Rooted(root: Path, site: Site) {
    ValidChain(site.chain) && site.fqn == ChainFqn(site.package, site.chain) && HangsOff(root, site.at, site.chain)
  }

  /** An entry of the package, hanging off `root` at the depth of its name. */
  ghost predicate EntryRooted(root: Path, package: string, e: Entry) {
    e.package == package
    && exists chain :: ValidChain(chain) && e.fqn == ChainFqn(package, chain) && HangsOff(root, e.path, chain)
  }

  lemma ChainGrows(root: Path, site: Site, name: string, last: string)
    requires Rooted(root, site) && name != "" && '.' !in name
    ensures ValidChain(site.chain + [name])
    ensures site.fqn + "." + name == ChainFqn(site.package, site.chain + [name])
    ensures HangsOff(root, site.at + [last], site.chain + [name])
  {
    assert (site.chain + [name])[..|site.chain|] == site.chain;
  }

  lemma NotMapped(cfg: Config, fqn: string, name: string)
    requires Unmapped(cfg, fqn)
    ensures Override(cfg, fqn + "." + name).None? && Unmapped(cfg, fqn + "." + name)
  {
    forall i | 0 <= i < |cfg.externs|
      ensures cfg.externs[i].0 != fqn + "." + name && !(fqn + "." + name + "." <= cfg.externs[i].0)
    {
      assert fqn + "." <= fqn + "." + name <= fqn + "." + name + ".";
    }
  }

  lemma {:induction false} NestedRooted(cfg: Config, root: Path, site: Site, msg: Message)
    requires Rooted(root, site) && Unmapped(cfg, site.fqn) && DotFree(msg)
    ensures forall e | e in NestedEntries(cfg, site, msg) :: EntryRooted(root, site.package, e)
    decreases msg, 1
  {
    ChildrenRooted(cfg, root, site, msg, msg.nested);
    EnumsRooted(cfg, root, site, msg.enums);
  }

  lemma {:induction false} ChildrenRooted(cfg: Config, root: Path, site: Site, msg: Message, children: seq<Message>)
    requires Rooted(root, site) && Unmapped(cfg, site.fqn) && AllDotFree(children)
    ensures forall e | e in ChildEntries(cfg, site, msg, children) :: EntryRooted(root, site.package, e)
    decreases children, 0
  {
    if children != [] {
      var c := children[0];
      ChildrenRooted(cfg, root, site, msg, children[1..]);
      if c.name.Some? {
        var name := c.name.value;
        NotMapped(cfg, site.fqn, name);
        ChainGrows(root, site, name, LocalTypeName(cfg.prefix, name));
        ChainGrows(root, site, name, NestedModule(cfg, site.fqn, msg, name));
        assert EntryRooted(root, site.package, MessageEntry(cfg, site, msg, c));
        NestedRooted(cfg, root, ChildSite(cfg, site, msg, c), c);
      }
    }
  }

  lemma {:induction false} EnumsRooted(cfg: Config, root: Path, site: Site, enums: seq<EnumDecl>)
    requires Rooted(root, site) && Unmapped(cfg, site.fqn)
    requires forall e | e in enums && e.name.Some? :: e.name.value != "" && '.' !in e.name.value
    ensures forall e | e in EnumEntries(cfg, site, enums) :: EntryRooted(root, site.package, e)
  {
    if enums != [] {
      EnumsRooted(cfg, root, site, enums[1..]);
      if enums[0].name.Some? {
        var name := enums[0].name.value;
        NotMapped(cfg, site.fqn, name);
        ChainGrows(root, site, name, LocalTypeName(cfg.prefix, name));
        assert EntryRooted(root, site.package, EnumEntry(cfg, site, name));
      }
    }
  }

  lemma ChainCount(package: string, chain: seq<string>)
    requires ValidChain(chain)
    ensures WithinSegments(ChainFqn(package, chain), package) == |chain|
  {
    ProtoFqnIsChainFqn(package, chain);
    WithinPackage(package, chain);
    var fqn := ChainFqn(package, chain);
    assert fqn[1..] == ProtoFqn(package, chain);
  }

  /** The split in front of the last `count` segments of an absolute path; it needs a module there, not a bare `::`. */
  ghost predicate CutsOff(split: SplitPath, path: Path, count: nat) {
    if |path| <= count || (|path| == count + 1 && path[0] == "")
    then split.toPackage == [] && split.withinPackage == path
    else |split.withinPackage| == count && split.toPackage + split.withinPackage == path
  }

  /** An absolute path, however short, is split by the names of the type below its package. */
  lemma ExternCut(t: Tables, e: Entry, chain: seq<string>, current: string, nesting: nat)
    requires Recorded(t, e) && ValidChain(chain) && e.fqn == ChainFqn(e.package, chain) && IsAbsolute(e.path)
    ensures
      var split := RelativeSplit(t, e.fqn, current, nesting);
      split.Some? && split.value.isExtern && CutsOff(split.value, e.path, |chain|)
  {
    ChainCount(e.package, chain);
    AbsoluteCut(e.path, |chain|);
  }

  lemma AbsoluteCut(path: Path, count: nat)
    requires path != [] && count > 0
    ensures CutsOff(AbsoluteSplit(path, count), path, count)
  {
    CutJoins(path, if count < |path| then |path| - count else 0);
  }

  /** A type that hangs off `root` by its names is split at `root`; a bare `::` is no module to split at. */
  lemma RootedSplit(t: Tables, e: Entry, root: Path, current: string, nesting: nat)
    requires Recorded(t, e) && EntryRooted(root, e.package, e) && IsAbsolute(e.path)
    ensures
      var split := RelativeSplit(t, e.fqn, current, nesting);
      && split.Some? && split.value.isExtern && split.value.toPackage + split.value.withinPackage == e.path
      && split.value.toPackage == if root == [""] then [] else root
  {
    var chain :| ValidChain(chain) && e.fqn == ChainFqn(e.package, chain) && HangsOff(root, e.path, chain);
    ExternCut(t, e, chain, current, nesting);
    assert e.path[..|root|] == root;
  }

  /** The module that a package, or a file, of another crate is mapped to. */
  ghost predicate MappedTo(cfg: Config, f: File, root: Path) {
    match FileRoot(cfg, f)
    case Some(r) => root == r
    case None =>
      && ResolvePrefix(PackageOf(f), cfg.externs) == Some(root)
      && !(PackageOf(f) == "" && (exists i | 0 <= i < |cfg.externs| :: cfg.externs[i].0 == "")
           && (forall i | 0 <= i < |cfg.externs| :: cfg.externs[i].0 != "."))
  }

  /**
    The types of a mapped package or file, nested ones included: the first half of the split is the module that
    the package is mapped to, but for a bare `::`, which is left with the second half.
   */
  lemma ExternSplit(cfg: Config, files: seq<File>, t: Tables, f: File, m: Message, root: Path, e: Entry,
                    current: string, nesting: nat)
    requires m.name.Some? && m.name.value != "" && '.' !in m.name.value && DotFree(m) && !("." <= PackageOf(f))
    requires Unmapped(cfg, TypeFqn(PackageOf(f), m.name.value)) && MappedTo(cfg, f, root)
    requires e in TopMessageEntries(cfg, files, f, m) && Recorded(t, e) && IsAbsolute(e.path)
    ensures
      var split := RelativeSplit(t, e.fqn, current, nesting);
      && split.Some? && split.value.isExtern && split.value.toPackage + split.value.withinPackage == e.path
      && split.value.toPackage == if root == [""] then [] else root
  {
    EntryIsRooted(cfg, files, f, m, root, e);
    RootedSplit(t, e, root, current, nesting);
  }

  lemma EntryIsRooted(cfg: Config, files: seq<File>, f: File, m: Message, root: Path, e: Entry)
    requires m.name.Some? && m.name.value != "" && '.' !in m.name.value && DotFree(m) && !("." <= PackageOf(f))
    requires Unmapped(cfg, TypeFqn(PackageOf(f), m.name.value)) && MappedTo(cfg, f, root)
    requires e in TopMessageEntries(cfg, files, f, m)
    ensures EntryRooted(root, e.package, e)
  {
    TopRooted(cfg, files, f, m, root);
  }

  lemma MappedPath(cfg: Config, f: File, name: string, root: Path)
    requires name != "" && '.' !in name && !("." <= PackageOf(f))
    requires Unmapped(cfg, TypeFqn(PackageOf(f), name)) && MappedTo(cfg, f, root)
    ensures exists last :: TopPath(cfg, f, name) == (root + [last], true)
    ensures Override(cfg, TypeFqn(PackageOf(f), name)).None?
  {
    TypeExtendsPackage(PackageOf(f), name, cfg.externs);
    if FileRoot(cfg, f).Some? {
      assert TopPath(cfg, f, name) == (root + [name], true);
    } else {
      assert TopPath(cfg, f, name) == (root + [EscapeTypeName(name)], true);
    }
  }

  lemma OneName(package: string, name: string, root: Path, last: string)
    requires name != "" && '.' !in name
    ensures ValidChain([name]) && ChainFqn(package, [name]) == TypeFqn(package, name)
    ensures Parent(root + [last]) == root && HangsOff(root, root + [last], [name])
  {
  }

  lemma TopSiteRooted(cfg: Config, files: seq<File>, f: File, name: string, root: Path) returns (last: string)
    requires name != "" && '.' !in name && !("." <= PackageOf(f))
    requires Unmapped(cfg, TypeFqn(PackageOf(f), name)) && MappedTo(cfg, f, root)
    ensures TopPath(cfg, f, name) == (root + [last], true)
    ensures Rooted(root, TopSite(cfg, files, f, name))
  {
    MappedPath(cfg, f, name, root);
    last :| TopPath(cfg, f, name) == (root + [last], true);
    OneName(PackageOf(f), name, root, last);
    OneName(PackageOf(f), name, root, TopModule(cfg, files, PackageOf(f), name));
  }

  lemma TopRooted(cfg: Config, files: seq<File>, f: File, m: Message, root: Path)
    requires m.name.Some? && m.name.value != "" && '.' !in m.name.value && DotFree(m) && !("." <= PackageOf(f))
    requires Unmapped(cfg, TypeFqn(PackageOf(f), m.name.value)) && MappedTo(cfg, f, root)
    ensures forall e | e in TopMessageEntries(cfg, files, f, m) :: EntryRooted(root, PackageOf(f), e)
  {
    var name := m.name.value;
    var last := TopSiteRooted(cfg, files, f, name, root);
    OneName(PackageOf(f), name, root, last);
    assert EntryRooted(root, PackageOf(f), TopMessageEntry(cfg, files, f, name));
    NestedRooted(cfg, root, TopSite(cfg, files, f, name), m);
  }
}
