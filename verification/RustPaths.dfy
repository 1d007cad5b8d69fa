/**
  Paths to registered types from an emission scope (buffa-codegen/src/context.rs,
  `ancillary_prefix`, `rust_type_relative` and `rust_type_relative_split`), with the import
  registry off.
 */
module RustPaths {
  import opened Idents
  import opened Segments
  import opened Descriptors
  import opened ExternPaths
  import opened Registry
  import opened Packages
  import opened RegistryPass
  import D = Deconflict

  // ----- the module path of a message -----

  /** The leading-dot name of the message with the given chain of simple names. */
  function ChainFqn(package: string, chain: seq<string>): string
    requires chain != []
  {
    if |chain| == 1 then TypeFqn(package, chain[0])
    else ChainFqn(package, chain[..|chain| - 1]) + "." + chain[|chain| - 1]
  }

  function ModuleName(names: map<string, string>, fqn: string, name: string): string {
    Lookup(names, fqn).GetOr(ToSnakeCase(name))
  }

  /** The modules of the messages on the chain, outermost first. */
  function Walk(names: map<string, string>, package: string, chain: seq<string>): seq<string> {
    if chain == [] then []
    else
      var last := |chain| - 1;
      Walk(names, package, chain[..last]) + [ModuleName(names, ChainFqn(package, chain), chain[last])]
  }

  /** `site` is named by its chain, and lies where the walk along the chain leads. */
  ghost predicate WalkedTo(names: map<string, string>, site: Site) {
    && site.chain != [] && site.fqn == ChainFqn(site.package, site.chain)
    && site.at == LocalModule(site.package) + Walk(names, site.package, site.chain)
  }

  /** The entry of a message and the site of its nested types name the same message. */
  ghost predicate Belongs(e: Entry)
    requires e.nested.Some?
  {
    e.nested.value.package == e.package && e.nested.value.fqn == e.fqn
  }

  ghost predicate AllWalked(names: map<string, string>, es: seq<Entry>) {
    forall e | e in es && e.emitted && e.nested.Some? :: Belongs(e) && WalkedTo(names, e.nested.value)
  }

  lemma WalkFurther(names: map<string, string>, site: Site, child: Site, name: string, m: string)
    requires WalkedTo(names, site) && child.package == site.package && child.chain == site.chain + [name]
    requires child.fqn == site.fqn + "." + name && child.at == site.at + [m]
    requires m == ModuleName(names, child.fqn, name)
    ensures WalkedTo(names, child)
  {
    assert child.chain[..|child.chain| - 1] == site.chain;
  }

  lemma {:induction false} NestedWalked(cfg: Config, t: Tables, site: Site, msg: Message)
    requires forall e | e in NestedEntries(cfg, site, msg) :: Recorded(t, e)
    requires site.emitted ==> WalkedTo(t.moduleNames, site)
    ensures AllWalked(t.moduleNames, NestedEntries(cfg, site, msg))
    decreases msg, 1
  {
    if site.emitted {
      ChildrenWalked(cfg, t, site, msg, msg.nested);
      EnumsHaveNoSite(cfg, site, msg.enums);
    } else {
      NothingEmittedBelow(cfg, site, msg);
    }
  }

  lemma {:induction false} EnumsHaveNoSite(cfg: Config, site: Site, enums: seq<EnumDecl>)
    ensures forall e | e in EnumEntries(cfg, site, enums) :: e.nested.None?
  {
    if enums != [] { EnumsHaveNoSite(cfg, site, enums[1..]); }
  }

  lemma ChildWalked(cfg: Config, t: Tables, site: Site, msg: Message, c: Message)
    requires c.name.Some? && WalkedTo(t.moduleNames, site) && Recorded(t, MessageEntry(cfg, site, msg, c))
    requires ChildSite(cfg, site, msg, c).emitted
    ensures WalkedTo(t.moduleNames, ChildSite(cfg, site, msg, c))
  {
    var name := c.name.value;
    WalkFurther(t.moduleNames, site, ChildSite(cfg, site, msg, c), name, NestedModule(cfg, site.fqn, msg, name));
  }

  lemma {:induction false} ChildrenWalked(cfg: Config, t: Tables, site: Site, msg: Message, children: seq<Message>)
    requires forall e | e in ChildEntries(cfg, site, msg, children) :: Recorded(t, e)
    requires site.emitted && WalkedTo(t.moduleNames, site)
    ensures AllWalked(t.moduleNames, ChildEntries(cfg, site, msg, children))
    decreases children, 0
  {
    if children != [] {
      var c := children[0];
      var rest := ChildEntries(cfg, site, msg, children[1..]);
      assert forall e | e in rest :: e in ChildEntries(cfg, site, msg, children);
      ChildrenWalked(cfg, t, site, msg, children[1..]);
      if c.name.Some? {
        var entry, child := MessageEntry(cfg, site, msg, c), ChildSite(cfg, site, msg, c);
        assert entry in ChildEntries(cfg, site, msg, children);
        if child.emitted { ChildWalked(cfg, t, site, msg, c); }
        assert forall e | e in NestedEntries(cfg, child, c) :: e in ChildEntries(cfg, site, msg, children);
        NestedWalked(cfg, t, child, c);
      }
    }
  }

  lemma TopWalked(cfg: Config, files: seq<File>, t: Tables, file: File, name: string)
    requires Recorded(t, TopMessageEntry(cfg, files, file, name)) && TopSite(cfg, files, file, name).emitted
    ensures WalkedTo(t.moduleNames, TopSite(cfg, files, file, name))
  {
    var site := TopSite(cfg, files, file, name);
    var fqn := TypeFqn(PackageOf(file), name);
    assert [name][..0] == [];
    assert Walk(t.moduleNames, site.package, [name]) == [ModuleName(t.moduleNames, fqn, name)];
  }

  lemma {:induction false} MessageUnitsWalked(cfg: Config, files: seq<File>, t: Tables, file: File, msgs: seq<Message>)
    requires forall u, e | u in MessageUnits(cfg, files, file, msgs) && e in u.entries :: Recorded(t, e)
    ensures forall u | u in MessageUnits(cfg, files, file, msgs) :: AllWalked(t.moduleNames, u.entries)
  {
    if msgs != [] {
      var m := msgs[|msgs| - 1];
      MessageUnitsWalked(cfg, files, t, file, msgs[..|msgs| - 1]);
      if m.name.Some? {
        var u := Unit(PackageOf(file), m.name.value, true, !TopPath(cfg, file, m.name.value).1,
                      TopMessageEntries(cfg, files, file, m));
        assert u in MessageUnits(cfg, files, file, msgs);
        var entry, site := TopMessageEntry(cfg, files, file, m.name.value), TopSite(cfg, files, file, m.name.value);
        assert entry in u.entries;
        if site.emitted { TopWalked(cfg, files, t, file, m.name.value); }
        NestedWalked(cfg, t, site, m);
      }
    }
  }

  lemma {:induction false} EnumUnitsWalked(cfg: Config, file: File, enums: seq<EnumDecl>, names: map<string, string>)
    ensures forall u | u in EnumUnits(cfg, file, enums) :: AllWalked(names, u.entries)
  {
    if enums != [] { EnumUnitsWalked(cfg, file, enums[..|enums| - 1], names); }
  }

  lemma {:induction false} UnitsWalked(cfg: Config, files: seq<File>, t: Tables, part: seq<File>)
    requires forall e | e in Flatten(Units(cfg, files, part)) :: Recorded(t, e)
    ensures AllWalked(t.moduleNames, Flatten(Units(cfg, files, part)))
  {
    if part != [] {
      var f := part[|part| - 1];
      var before := Units(cfg, files, part[..|part| - 1]);
      var msgs, enums := MessageUnits(cfg, files, f, f.messages), EnumUnits(cfg, f, f.enums);
      FlattenAppend(before + msgs, enums);
      FlattenAppend(before, msgs);
      UnitsWalked(cfg, files, t, part[..|part| - 1]);
      forall u, e | u in msgs && e in u.entries ensures Recorded(t, e) { FlattenHolds(msgs, u, e); }
      MessageUnitsWalked(cfg, files, t, f, f.messages);
      EnumUnitsWalked(cfg, f, f.enums, t.moduleNames);
      forall e | e in Flatten(msgs) && e.emitted && e.nested.Some?
        ensures Belongs(e) && WalkedTo(t.moduleNames, e.nested.value)
      {
        FlattenSource(msgs, e);
      }
      forall e | e in Flatten(enums) && e.emitted && e.nested.Some?
        ensures Belongs(e) && WalkedTo(t.moduleNames, e.nested.value)
      {
        FlattenSource(enums, e);
      }
    }
  }

  // ----- ancillary paths -----

  datatype AncillaryKind = OneofKind | ViewKind | ViewOneofKind | LazyViewKind {
    function Segments(): Path {
      match this
      case OneofKind => ["oneof"]
      case ViewKind => ["view"]
      case ViewOneofKind => ["view", "oneof"]
      case LazyViewKind => ["lazy_view"]
    }
  }

  function Supers(n: nat): (r: Path)
    ensures |r| == n && forall i | 0 <= i < n :: r[i] == "super"
  {
    seq(n, i => "super")
  }

  /** The name of a message of `package`, without the leading dot. */
  function ProtoFqn(package: string, chain: seq<string>): string
    requires chain != []
  {
    (if package == "" then "" else package + ".") + Join(chain)
  }

  predicate ValidChain(chain: seq<string>) {
    chain != [] && forall i | 0 <= i < |chain| :: chain[i] != "" && '.' !in chain[i]
  }

  lemma {:induction false} ProtoFqnIsChainFqn(package: string, chain: seq<string>)
    requires chain != []
    ensures "." + ProtoFqn(package, chain) == ChainFqn(package, chain)
  {
    if |chain| > 1 {
      ProtoFqnIsChainFqn(package, chain[..|chain| - 1]);
    }
  }

  /** `MessageModuleName` of the dotless name. */
  function MessageModuleName(names: map<string, string>, protoFqn: string): string {
    Lookup(names, "." + protoFqn).GetOr(ToSnakeCase(Split(protoFqn)[|Split(protoFqn)| - 1]))
  }

  lemma LastOfProtoFqn(package: string, chain: seq<string>)
    requires ValidChain(chain)
    ensures Split(ProtoFqn(package, chain))[|Split(ProtoFqn(package, chain))| - 1] == chain[|chain| - 1]
  {
    var last := chain[|chain| - 1];
    var s := ProtoFqn(package, chain);
    if |chain| == 1 {
      if package == "" {
        assert s == last;
        SplitOne(last);
      } else {
        assert s == package + "." + last;
        SplitLast(package, last);
      }
    } else {
      var before := ProtoFqn(package, chain[..|chain| - 1]);
      assert s == before + "." + last;
      SplitLast(before, last);
    }
  }

  lemma WithinPackage(package: string, chain: seq<string>)
    requires ValidChain(chain)
    ensures
      var s := ProtoFqn(package, chain);
      && (package != "" ==> package + "." <= s)
      && Split(if package == "" then s else s[|package| + 1..]) == chain
  {
    SplitJoin(chain);
    var s := ProtoFqn(package, chain);
    if package == "" { assert s == Join(chain); } else { assert s[|package| + 1..] == Join(chain); }
  }

  lemma NextName(package: string, chain: seq<string>, i: nat)
    requires ValidChain(chain) && i < |chain|
    ensures ProtoFqn(package, chain[..i + 1]) ==
      var before := if i == 0 then package else ProtoFqn(package, chain[..i]);
      (if before == "" then "" else before + ".") + chain[i]
  {
    var c := chain[..i + 1];
    assert c[..|c| - 1] == chain[..i];
    if i > 0 { assert |Join(chain[..i])| > 0 by { JoinNonEmpty(chain[..i]); } }
  }

  lemma JoinNonEmpty(segments: seq<string>)
    requires |segments| > 0 && segments[0] != ""
    ensures Join(segments) != ""
  {
  }

  method ClimbFrom(nesting: nat) returns (supers: Path)
    ensures supers == Supers(nesting)
  {
    supers := [];
    for i := 0 to nesting
      invariant supers == Supers(i)
    {
      supers := supers + ["super"];
    }
  }

  /** One more name of the chain extends the dotted name and the walk alike. */
  lemma NextStep(names: map<string, string>, package: string, chain: seq<string>, i: nat)
    requires ValidChain(chain) && i < |chain|
    ensures
      var before := if i == 0 then package else ProtoFqn(package, chain[..i]);
      var fqn := (if before == "" then "" else before + ".") + chain[i];
      && fqn == ProtoFqn(package, chain[..i + 1])
      && Walk(names, package, chain[..i + 1]) == Walk(names, package, chain[..i]) + [MessageModuleName(names, fqn)]
  {
    var c := chain[..i + 1];
    NextName(package, chain, i);
    assert c[..|c| - 1] == chain[..i];
    ProtoFqnIsChainFqn(package, c);
    LastOfProtoFqn(package, c);
  }

  /** From below `nesting` modules up to the package, and down the ancillary tree to the message's module. */
  function AncillaryPath(names: map<string, string>, kind: AncillaryKind, package: string, chain: seq<string>,
                         nesting: nat): Path
  {
    Supers(nesting) + [D.SENTINEL_MOD] + kind.Segments() + Walk(names, package, chain)
  }

  /** The `__buffa` path of a message's ancillary types, climbing to the package root and descending again. */
  method AncillaryPrefix(reg: TypeRegistry, kind: AncillaryKind, package: string, protoFqn: string, nesting: nat,
                         ghost chain: seq<string>)
    returns (path: Path)
    requires ValidChain(chain) && protoFqn == ProtoFqn(package, chain)
    ensures path == AncillaryPath(reg.moduleNames, kind, package, chain, nesting)
  {
    var supers := ClimbFrom(nesting);
    WithinPackage(package, chain);
    var within := if package == "" then protoFqn
                  else if package + "." <= protoFqn then protoFqn[|package| + 1..]
                  else protoFqn;
    var names := Split(within);
    var fqn := package;
    var msgSegs: seq<string> := [];
    for i := 0 to |names|
      invariant fqn == if i == 0 then package else ProtoFqn(package, chain[..i])
      invariant msgSegs == Walk(reg.moduleNames, package, chain[..i])
    {
      var name := names[i];
      NextStep(reg.moduleNames, package, chain, i);
      fqn := (if fqn == "" then "" else fqn + ".") + name;
      msgSegs := msgSegs + [MessageModuleName(reg.moduleNames, fqn)];
    }
    assert chain[..|chain|] == chain;
    path := supers + [D.SENTINEL_MOD] + kind.Segments() + msgSegs;
  }

  /**
    Emission and registration agree: the modules that `AncillaryPrefix` walks are those under
    which the pass put the nested types of the message.
   */
  lemma EmissionMatchesRegistration(cfg: Config, files: seq<File>, t: Tables, e: Entry)
    requires forall x | x in AllEntries(cfg, files) :: Recorded(t, x)
    requires e in AllEntries(cfg, files) && e.emitted && e.nested.Some?
    ensures e.nested.value.chain != [] && e.fqn == ChainFqn(e.package, e.nested.value.chain)
    ensures e.nested.value.at == LocalModule(e.package) + Walk(t.moduleNames, e.package, e.nested.value.chain)
  {
    UnitsWalked(cfg, files, t, files);
  }

  /**
    For every emitted message, asked for by its own name, the path emission computes is the sentinel, the
    kind, and the modules of the message's nested types as registered, behind the package.
   */
  lemma AncillaryMirrorsRegistration(cfg: Config, files: seq<File>, t: Tables, e: Entry, kind: AncillaryKind,
                                     nesting: nat)
    requires forall x | x in AllEntries(cfg, files) :: Recorded(t, x)
    requires e in AllEntries(cfg, files) && e.emitted && e.nested.Some?
    ensures
      var site := e.nested.value;
      && site.chain != [] && "." + ProtoFqn(e.package, site.chain) == e.fqn
      && LocalModule(e.package) <= site.at
      && AncillaryPath(t.moduleNames, kind, e.package, site.chain, nesting) ==
         Supers(nesting) + [D.SENTINEL_MOD] + kind.Segments() + site.at[|LocalModule(e.package)|..]
  {
    EmissionMatchesRegistration(cfg, files, t, e);
    var site := e.nested.value;
    ProtoFqnIsChainFqn(e.package, site.chain);
    assert site.at[|LocalModule(e.package)|..] == Walk(t.moduleNames, e.package, site.chain);
  }

  /** The modules of the kinds. */
  lemma KindNames()
    ensures OneofKind.Segments() == ["oneof"]
    ensures ViewKind.Segments() == ["view"]
    ensures ViewOneofKind.Segments() == ["view", "oneof"]
    ensures LazyViewKind.Segments() == ["lazy_view"]
  {
  }
}
