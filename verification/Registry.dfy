/**
  The Rust path of every proto type, and the module of every message's nested types
  (buffa-codegen/src/context.rs, `with_extern_resolution` and `register_nested_types`).
 */
module Registry {
  import opened Text
  import opened Idents
  import opened Descriptors
  import opened ExternPaths
  import D = Deconflict

  /** `extern_path` entries, file-level roots, and the prefix of local type names. */
  datatype Config = Config(externs: seq<ExternPath>, fileRoots: seq<ExternPath>, prefix: string)

  /** Where the nested types of a message go. */
  datatype Site = Site(
    package: string,
    fqn: string,        // of the message, with the leading dot
    chain: seq<string>, // the names of the enclosing messages and of the message itself
    at: Path,           // the module of its nested types
    emitted: bool)      // whether this run declares that module

  /** One registered type. */
  datatype Entry = Entry(
    package: string,
    fqn: string,
    path: Path,
    emitted: bool,          // declared by this run, and not a map entry
    rename: Option<string>, // the module name recorded for a message, when it is not `snake_case(Name)`
    nested: Option<Site>)   // for a message: where its nested types go

  // ----- module names -----

  function LastSegment(path: Path): string { if path == [] then "" else path[|path| - 1] }

  function Parent(path: Path): Path { if path == [] then [] else path[..|path| - 1] }

  function ExternOverrideModule(name: string, rust: Path, packageLevel: bool): string {
    var m := ToSnakeCase(name);
    if m in D.RESERVED_MODULE_NAMES || (packageLevel && m == D.PACKAGE_RESERVED_MODULE_NAME)
      || m == LastSegment(rust) then
      (if m + "_" == LastSegment(rust) then m + "__" else m + "_")
    else m
  }

  method ComputeOverrideModule(name: string, rust: Path, packageLevel: bool) returns (r: string)
    ensures r == ExternOverrideModule(name, rust, packageLevel)
    ensures r != LastSegment(rust)
  {
    var typeName := LastSegment(rust);
    r := ToSnakeCase(name);
    if r in D.RESERVED_MODULE_NAMES || (packageLevel && r == D.PACKAGE_RESERVED_MODULE_NAME) || r == typeName {
      ghost var m := r;
      r := r + "_";
      while r == typeName
        invariant r == m + "_" || (r == m + "__" && m + "_" == typeName)
        decreases |m| + 2 - |r|
      {
        r := r + "_";
        assert r == m + "__";
      }
    }
  }

  // ----- one message's nested types -----

  function Override(cfg: Config, fqn: string): Option<Path> { Exact(cfg.externs, fqn) }

  function LocalMessages(cfg: Config, fqn: string, nested: seq<Message>): seq<string> {
    if nested == [] then []
    else
      var m := nested[0];
      (if !m.mapEntry && m.name.Some? && Override(cfg, fqn + "." + m.name.value).None? then [m.name.value] else [])
      + LocalMessages(cfg, fqn, nested[1..])
  }

  function LocalEnums(cfg: Config, fqn: string, enums: seq<EnumDecl>): seq<string> {
    if enums == [] then []
    else
      (if enums[0].name.Some? && Override(cfg, fqn + "." + enums[0].name.value).None? then [enums[0].name.value]
       else [])
      + LocalEnums(cfg, fqn, enums[1..])
  }

  function TypeNames(cfg: Config, names: seq<string>): (r: seq<string>)
    ensures |r| == |names|
    ensures forall i | 0 <= i < |r| :: r[i] == LocalTypeName(cfg.prefix, names[i])
  {
    seq(|names|, i requires 0 <= i < |names| => LocalTypeName(cfg.prefix, names[i]))
  }

  /** The Rust names of the types declared in the module of `msg`. */
  function ScopeTypes(cfg: Config, fqn: string, msg: Message): seq<string> {
    TypeNames(cfg, LocalMessages(cfg, fqn, msg.nested) + LocalEnums(cfg, fqn, msg.enums))
  }

  /** The module given to `name` among `names`; a name outside them keeps its plain conversion. */
  ghost function ModuleAmong(names: seq<string>, occupied: set<string>, name: string): string {
    if name in names then
      var i :| 0 <= i < |names| && names[i] == name;
      D.Modules(names, occupied)[i]
    else ToSnakeCase(name)
  }

  ghost function NestedModule(cfg: Config, fqn: string, msg: Message, name: string): string {
    ModuleAmong(LocalMessages(cfg, fqn, msg.nested), ToSet(ScopeTypes(cfg, fqn, msg)), name)
  }

  ghost function ChildSite(cfg: Config, site: Site, msg: Message, child: Message): Site
    requires child.name.Some?
  {
    var name := child.name.value;
    var fqn := site.fqn + "." + name;
    match Override(cfg, fqn)
    case Some(rust) => Site(site.package, fqn, site.chain + [name],
                            Parent(rust) + [ExternOverrideModule(name, rust, false)], false)
    case None => Site(site.package, fqn, site.chain + [name], site.at + [NestedModule(cfg, site.fqn, msg, name)],
                      site.emitted && !child.mapEntry)
  }

  ghost function MessageEntry(cfg: Config, site: Site, msg: Message, child: Message): Entry
    requires child.name.Some?
  {
    var name := child.name.value;
    var fqn := site.fqn + "." + name;
    var nested := ChildSite(cfg, site, msg, child);
    match Override(cfg, fqn)
    case Some(rust) => Entry(site.package, fqn, rust, false, None, Some(nested))
    case None =>
      var m := NestedModule(cfg, site.fqn, msg, name);
      Entry(site.package, fqn, site.at + [LocalTypeName(cfg.prefix, name)], nested.emitted,
            if m == ToSnakeCase(name) then None else Some(m), Some(nested))
  }

  ghost function EnumEntry(cfg: Config, site: Site, name: string): Entry {
    var fqn := site.fqn + "." + name;
    match Override(cfg, fqn)
    case Some(rust) => Entry(site.package, fqn, rust, false, None, None)
    case None => Entry(site.package, fqn, site.at + [LocalTypeName(cfg.prefix, name)], site.emitted, None, None)
  }

  /** The types nested in `msg`, at any depth, in the order the pass registers them. */
  ghost function NestedEntries(cfg: Config, site: Site, msg: Message): seq<Entry>
    decreases msg, 1
  {
    ChildEntries(cfg, site, msg, msg.nested) + EnumEntries(cfg, site, msg.enums)
  }

  ghost function ChildEntries(cfg: Config, site: Site, msg: Message, children: seq<Message>): seq<Entry>
    decreases children, 0
  {
    if children == [] then []
    else
      var c := children[0];
      (if c.name.None? then []
       else [MessageEntry(cfg, site, msg, c)] + NestedEntries(cfg, ChildSite(cfg, site, msg, c), c))
      + ChildEntries(cfg, site, msg, children[1..])
  }

  ghost function EnumEntries(cfg: Config, site: Site, enums: seq<EnumDecl>): seq<Entry> {
    if enums == [] then []
    else
      (if enums[0].name.Some? then [EnumEntry(cfg, site, enums[0].name.value)] else [])
      + EnumEntries(cfg, site, enums[1..])
  }

  // ----- what the proto compiler and the configuration guarantee -----

  /** Bases that no type name or reserved name is in the way of. */
  ghost predicate FreeBasesDiffer(names: seq<string>, occupied: set<string>) {
    forall i, j | 0 <= i < j < |names| && !D.IsOccupied(occupied, ToSnakeCase(names[i])) ::
      ToSnakeCase(names[i]) != ToSnakeCase(names[j])
  }

  /** In the scope of `msg`, types have distinct Rust names, and free bases differ. */
  ghost predicate ScopeOk(cfg: Config, fqn: string, msg: Message) {
    && Distinct(ScopeTypes(cfg, fqn, msg))
    && FreeBasesDiffer(LocalMessages(cfg, fqn, msg.nested), ToSet(ScopeTypes(cfg, fqn, msg)))
  }

  ghost predicate TreeOk(cfg: Config, fqn: string, msg: Message)
    decreases msg, 1
  {
    ScopeOk(cfg, fqn, msg) && ChildrenOk(cfg, fqn, msg.nested)
  }

  ghost predicate ChildrenOk(cfg: Config, fqn: string, children: seq<Message>)
    decreases children, 0
  {
    children == [] ||
    (&& (children[0].name.Some? ==> TreeOk(cfg, fqn + "." + children[0].name.value, children[0]))
     && ChildrenOk(cfg, fqn, children[1..]))
  }

  // ----- no two emitted types share a path -----

  /** The emitted entries have pairwise distinct paths. */
  ghost predicate Injective(es: seq<Entry>) {
    forall i, j | 0 <= i < j < |es| && es[i].emitted && es[j].emitted :: es[i].path != es[j].path
  }

  ghost predicate Apart(a: seq<Entry>, b: seq<Entry>) {
    forall x, y | x in a && y in b && x.emitted && y.emitted :: x.path != y.path
  }

  lemma InjectiveAppend(a: seq<Entry>, b: seq<Entry>)
    requires Injective(a) && Injective(b) && Apart(a, b)
    ensures Injective(a + b)
  {
    var s := a + b;
    forall i, j | 0 <= i < j < |s| && s[i].emitted && s[j].emitted ensures s[i].path != s[j].path {
      if i < |a| && |a| <= j { assert a[i] in a && b[j - |a|] in b; }
    }
  }

  /** Emitted entries lie strictly inside the module `at`. */
  ghost predicate Inside(es: seq<Entry>, at: Path) {
    forall e | e in es && e.emitted :: at < e.path
  }

  lemma ExtendedPath(at: Path, m: string, path: Path)
    requires at + [m] < path
    ensures at < path && |path| > |at| + 1 && path[|at|] == m
  {
    assert (at + [m])[..|at|] == at;
  }

  /** Everything emitted below a message lies in its module. */
  lemma {:induction false} NestedInside(cfg: Config, site: Site, msg: Message)
    ensures Inside(NestedEntries(cfg, site, msg), site.at)
    decreases msg, 1
  {
    ChildrenInside(cfg, site, msg, msg.nested);
    EnumsInside(cfg, site, msg.enums);
  }

  lemma {:induction false} ChildrenInside(cfg: Config, site: Site, msg: Message, children: seq<Message>)
    ensures Inside(ChildEntries(cfg, site, msg, children), site.at)
    decreases children, 0
  {
    if children != [] {
      var c := children[0];
      ChildrenInside(cfg, site, msg, children[1..]);
      if c.name.Some? {
        var child := ChildSite(cfg, site, msg, c);
        NestedInside(cfg, child, c);
        if !child.emitted {
          NothingEmittedBelow(cfg, child, c);
        } else {
          forall e | e in NestedEntries(cfg, child, c) && e.emitted ensures site.at < e.path {
            ExtendedPath(site.at, child.at[|site.at|], e.path);
          }
        }
      }
    }
  }

  lemma {:induction false} EnumsInside(cfg: Config, site: Site, enums: seq<EnumDecl>)
    ensures Inside(EnumEntries(cfg, site, enums), site.at)
  {
    if enums != [] { EnumsInside(cfg, site, enums[1..]); }
  }

  /** Nothing is emitted below a site that is not. */
  lemma {:induction false} NothingEmittedBelow(cfg: Config, site: Site, msg: Message)
    requires !site.emitted
    ensures forall e | e in NestedEntries(cfg, site, msg) :: !e.emitted
    decreases msg, 1
  {
    NoChildEmitted(cfg, site, msg, msg.nested);
    NoEnumEmitted(cfg, site, msg.enums);
  }

  lemma {:induction false} NoChildEmitted(cfg: Config, site: Site, msg: Message, children: seq<Message>)
    requires !site.emitted
    ensures forall e | e in ChildEntries(cfg, site, msg, children) :: !e.emitted
    decreases children, 0
  {
    if children != [] {
      NoChildEmitted(cfg, site, msg, children[1..]);
      var c := children[0];
      if c.name.Some? { NothingEmittedBelow(cfg, ChildSite(cfg, site, msg, c), c); }
    }
  }

  lemma {:induction false} NoEnumEmitted(cfg: Config, site: Site, enums: seq<EnumDecl>)
    requires !site.emitted
    ensures forall e | e in EnumEntries(cfg, site, enums) :: !e.emitted
  {
    if enums != [] { NoEnumEmitted(cfg, site, enums[1..]); }
  }

  /** Modules of different messages of a scope differ, and none is the name of a type beside it. */
  lemma ModulesDiffer(names: seq<string>, occupied: set<string>, a: string, b: string)
    requires FreeBasesDiffer(names, occupied) && a in names && b in names && a != b
    ensures ModuleAmong(names, occupied, a) != ModuleAmong(names, occupied, b)
  {
    D.ModulesDistinct(names, occupied, D.Modules(names, occupied));
  }

  lemma ModuleIsNoType(names: seq<string>, occupied: set<string>, a: string)
    requires a in names
    ensures !D.IsOccupied(occupied, ModuleAmong(names, occupied, a))
  {
    forall i | 0 <= i < |names| ensures !D.IsOccupied(occupied, D.Modules(names, occupied)[i]) {
      D.ModuleAvoidsScope(names, occupied, D.Modules(names, occupied), i);
    }
  }

  lemma ModuleShape(names: seq<string>, occupied: set<string>, name: string) returns (n: nat)
    requires name in names
    ensures ModuleAmong(names, occupied, name) == ToSnakeCase(name) + Underscores(n)
  {
    var out := D.Modules(names, occupied);
    forall i | 0 <= i < |names|
      ensures exists n: nat :: out[i] == ToSnakeCase(names[i]) + Underscores(n)
    {
      D.ModuleAvoidsScope(names, occupied, out, i);
      assert ToSnakeCase(names[i]) + Underscores(0) == ToSnakeCase(names[i]);
    }
    n :| ModuleAmong(names, occupied, name) == ToSnakeCase(name) + Underscores(n);
  }

  lemma PlainExactly(names: seq<string>, occupied: set<string>, name: string)
    requires name in names
    ensures ModuleAmong(names, occupied, name) == ToSnakeCase(name) <==> !D.IsOccupied(occupied, ToSnakeCase(name))
  {
    var out := D.Modules(names, occupied);
    forall i | 0 <= i < |names| && names[i] == name
      ensures out[i] == ToSnakeCase(name) <==> !D.IsOccupied(occupied, ToSnakeCase(name))
    {
      D.ModuleAvoidsScope(names, occupied, out, i);
    }
  }

  lemma ModuleIsLower(names: seq<string>, occupied: set<string>, name: string)
    requires name in names
    ensures NoUpper(ModuleAmong(names, occupied, name))
  {
    var n := ModuleShape(names, occupied, name);
    SnakeShape(name);
  }

  /** An emitted entry below the children named `names`: one of their types, or inside one of their modules. */
  ghost predicate Below(cfg: Config, site: Site, msg: Message, names: seq<string>, e: Entry) {
    || (exists n | n in names :: e.path == site.at + [LocalTypeName(cfg.prefix, n)])
    || (exists n | n in names :: site.at + [NestedModule(cfg, site.fqn, msg, n)] < e.path)
  }

  lemma HeadShape(cfg: Config, site: Site, msg: Message, c: Message, e: Entry)
    requires c.name.Some? && e.emitted
    requires e in [MessageEntry(cfg, site, msg, c)] + NestedEntries(cfg, ChildSite(cfg, site, msg, c), c)
    ensures !c.mapEntry && Override(cfg, site.fqn + "." + c.name.value).None?
    ensures Below(cfg, site, msg, [c.name.value], e)
  {
    var child := ChildSite(cfg, site, msg, c);
    if !child.emitted { NothingEmittedBelow(cfg, child, c); }
    NestedInside(cfg, child, c);
    assert c.name.value in [c.name.value];
  }

  lemma {:induction false} ChildShapes(cfg: Config, site: Site, msg: Message, children: seq<Message>)
    ensures forall e | e in ChildEntries(cfg, site, msg, children) && e.emitted ::
      Below(cfg, site, msg, LocalMessages(cfg, site.fqn, children), e)
  {
    if children != [] {
      ChildShapes(cfg, site, msg, children[1..]);
      var c := children[0];
      var names := LocalMessages(cfg, site.fqn, children);
      forall e | e in ChildEntries(cfg, site, msg, children) && e.emitted ensures Below(cfg, site, msg, names, e) {
        if e in ChildEntries(cfg, site, msg, children[1..]) {
          BelowMore(cfg, site, msg, LocalMessages(cfg, site.fqn, children[1..]), names, e);
        } else {
          HeadShape(cfg, site, msg, c, e);
          BelowMore(cfg, site, msg, [c.name.value], names, e);
        }
      }
    }
  }

  lemma BelowMore(cfg: Config, site: Site, msg: Message, names: seq<string>, more: seq<string>, e: Entry)
    requires Below(cfg, site, msg, names, e) && forall n | n in names :: n in more
    ensures Below(cfg, site, msg, more, e)
  {
  }

  /** Entries below differently named children of a well-formed scope have different paths. */
  lemma BelowApart(cfg: Config, site: Site, msg: Message, a: string, e: Entry, names: seq<string>, f: Entry)
    requires ScopeOk(cfg, site.fqn, msg)
    requires a in LocalMessages(cfg, site.fqn, msg.nested) && a !in names
    requires forall n | n in names :: n in LocalMessages(cfg, site.fqn, msg.nested)
    requires Below(cfg, site, msg, [a], e) && Below(cfg, site, msg, names, f)
    ensures e.path != f.path
  {
    var local := LocalMessages(cfg, site.fqn, msg.nested);
    var types := ToSet(ScopeTypes(cfg, site.fqn, msg));
    if e.path == f.path {
      if n :| n in names && f.path == site.at + [LocalTypeName(cfg.prefix, n)] {
        assert e.path == site.at + [LocalTypeName(cfg.prefix, a)];
        assert e.path[|site.at|] == f.path[|site.at|];
        TypesDiffer(cfg, local + LocalEnums(cfg, site.fqn, msg.enums), a, n);
      } else {
        var n :| n in names && site.at + [NestedModule(cfg, site.fqn, msg, n)] < f.path;
        ExtendedPath(site.at, NestedModule(cfg, site.fqn, msg, n), f.path);
        assert site.at + [NestedModule(cfg, site.fqn, msg, a)] < e.path;
        ExtendedPath(site.at, NestedModule(cfg, site.fqn, msg, a), e.path);
        ModulesDiffer(local, types, a, n);
      }
    }
  }

  lemma TypesDiffer(cfg: Config, names: seq<string>, a: string, b: string)
    requires Distinct(TypeNames(cfg, names)) && a in names && b in names && a != b
    ensures LocalTypeName(cfg.prefix, a) != LocalTypeName(cfg.prefix, b)
  {
    var i :| 0 <= i < |names| && names[i] == a;
    var j :| 0 <= j < |names| && names[j] == b;
    assert TypeNames(cfg, names)[i] != TypeNames(cfg, names)[j];
  }

  lemma DistinctNames(cfg: Config, a: seq<string>, b: seq<string>)
    requires Distinct(TypeNames(cfg, a + b))
    ensures Distinct(a) && Distinct(b) && forall x | x in a :: x !in b
  {
    var t := TypeNames(cfg, a + b);
    forall i, j | 0 <= i < j < |a| ensures a[i] != a[j] { assert t[i] != t[j]; }
    forall i, j | 0 <= i < j < |b| ensures b[i] != b[j] { assert t[|a| + i] != t[|a| + j]; }
    forall i, j | 0 <= i < |a| && 0 <= j < |b| ensures a[i] != b[j] { assert t[i] != t[|a| + j]; }
  }

  /** A type beside the messages `names` shares no path with what lies below them. */
  lemma BelowApartFromEnum(cfg: Config, site: Site, msg: Message, names: seq<string>, e: Entry, t: string)
    requires t !in names && Below(cfg, site, msg, names, e)
    requires forall n | n in names :: LocalTypeName(cfg.prefix, n) != LocalTypeName(cfg.prefix, t)
    ensures e.path != site.at + [LocalTypeName(cfg.prefix, t)]
  {
    var path := site.at + [LocalTypeName(cfg.prefix, t)];
    assert path[|site.at|] == LocalTypeName(cfg.prefix, t);
    if n :| n in names && e.path == site.at + [LocalTypeName(cfg.prefix, n)] {
      assert e.path[|site.at|] == LocalTypeName(cfg.prefix, n);
    } else {
      var n :| n in names && site.at + [NestedModule(cfg, site.fqn, msg, n)] < e.path;
      ExtendedPath(site.at, NestedModule(cfg, site.fqn, msg, n), e.path);
    }
  }

  lemma ChildrenApartFromEnums(cfg: Config, site: Site, msg: Message)
    requires ScopeOk(cfg, site.fqn, msg)
    ensures Apart(ChildEntries(cfg, site, msg, msg.nested), EnumEntries(cfg, site, msg.enums))
  {
    var local, enums := LocalMessages(cfg, site.fqn, msg.nested), LocalEnums(cfg, site.fqn, msg.enums);
    DistinctNames(cfg, local, enums);
    ChildShapes(cfg, site, msg, msg.nested);
    EnumShapes(cfg, site, msg.enums);
    var a, b := ChildEntries(cfg, site, msg, msg.nested), EnumEntries(cfg, site, msg.enums);
    forall e, f | e in a && f in b && e.emitted && f.emitted ensures e.path != f.path {
      var t :| t in enums && f.path == site.at + [LocalTypeName(cfg.prefix, t)];
      forall n | n in local ensures LocalTypeName(cfg.prefix, n) != LocalTypeName(cfg.prefix, t) {
        TypesDiffer(cfg, local + enums, n, t);
      }
      BelowApartFromEnum(cfg, site, msg, local, e, t);
    }
  }

  lemma DistinctTail(cfg: Config, a: seq<string>, b: seq<string>)
    requires Distinct(TypeNames(cfg, a + b))
    ensures Distinct(TypeNames(cfg, b))
  {
    assert forall i | 0 <= i < |b| :: TypeNames(cfg, b)[i] == TypeNames(cfg, a + b)[|a| + i];
  }

  /** No two types emitted below a well-formed message share a path. */
  lemma {:induction false} NestedInjective(cfg: Config, site: Site, msg: Message)
    requires TreeOk(cfg, site.fqn, msg)
    ensures Injective(NestedEntries(cfg, site, msg))
    decreases msg, 1
  {
    var local, enums := LocalMessages(cfg, site.fqn, msg.nested), LocalEnums(cfg, site.fqn, msg.enums);
    DistinctNames(cfg, local, enums);
    DistinctTail(cfg, local, enums);
    ChildrenInjective(cfg, site, msg, msg.nested);
    EnumsInjective(cfg, site, msg.enums);
    ChildrenApartFromEnums(cfg, site, msg);
    InjectiveAppend(ChildEntries(cfg, site, msg, msg.nested), EnumEntries(cfg, site, msg.enums));
  }

  ghost function HeadEntries(cfg: Config, site: Site, msg: Message, c: Message): seq<Entry>
    requires c.name.Some?
  {
    [MessageEntry(cfg, site, msg, c)] + NestedEntries(cfg, ChildSite(cfg, site, msg, c), c)
  }

  lemma HeadName(cfg: Config, fqn: string, children: seq<Message>)
    requires children != [] && children[0].name.Some? && !children[0].mapEntry
    requires Override(cfg, fqn + "." + children[0].name.value).None? && Distinct(LocalMessages(cfg, fqn, children))
    ensures children[0].name.value in LocalMessages(cfg, fqn, children)
    ensures children[0].name.value !in LocalMessages(cfg, fqn, children[1..])
    ensures forall n | n in LocalMessages(cfg, fqn, children[1..]) :: n in LocalMessages(cfg, fqn, children)
  {
    var names, rest := LocalMessages(cfg, fqn, children), LocalMessages(cfg, fqn, children[1..]);
    assert names == [children[0].name.value] + rest;
    assert forall k | 0 <= k < |rest| :: rest[k] == names[k + 1] != names[0];
  }

  lemma HeadApart(cfg: Config, site: Site, msg: Message, children: seq<Message>)
    requires children != [] && children[0].name.Some?
    requires ScopeOk(cfg, site.fqn, msg) && Distinct(LocalMessages(cfg, site.fqn, children))
    requires forall n | n in LocalMessages(cfg, site.fqn, children) :: n in LocalMessages(cfg, site.fqn, msg.nested)
    ensures Apart(HeadEntries(cfg, site, msg, children[0]), ChildEntries(cfg, site, msg, children[1..]))
  {
    var c, rest := children[0], children[1..];
    ChildShapes(cfg, site, msg, rest);
    forall e, f | e in HeadEntries(cfg, site, msg, c) && f in ChildEntries(cfg, site, msg, rest) && e.emitted
      && f.emitted
      ensures e.path != f.path
    {
      HeadShape(cfg, site, msg, c, e);
      HeadName(cfg, site.fqn, children);
      BelowApart(cfg, site, msg, c.name.value, e, LocalMessages(cfg, site.fqn, rest), f);
    }
  }

  lemma RestOfNames(cfg: Config, fqn: string, children: seq<Message>)
    requires children != [] && Distinct(LocalMessages(cfg, fqn, children))
    ensures Distinct(LocalMessages(cfg, fqn, children[1..]))
    ensures forall n | n in LocalMessages(cfg, fqn, children[1..]) :: n in LocalMessages(cfg, fqn, children)
  {
    var names, rest := LocalMessages(cfg, fqn, children), LocalMessages(cfg, fqn, children[1..]);
    assert forall i | 0 <= i < |rest| :: rest[i] == names[i + |names| - |rest|];
  }

  lemma {:induction false} ChildrenInjective(cfg: Config, site: Site, msg: Message, children: seq<Message>)
    requires ScopeOk(cfg, site.fqn, msg) && ChildrenOk(cfg, site.fqn, children)
    requires Distinct(LocalMessages(cfg, site.fqn, children))
    requires forall n | n in LocalMessages(cfg, site.fqn, children) :: n in LocalMessages(cfg, site.fqn, msg.nested)
    ensures Injective(ChildEntries(cfg, site, msg, children))
    decreases children, 0
  {
    if children != [] {
      var c, rest := children[0], children[1..];
      RestOfNames(cfg, site.fqn, children);
      ChildrenInjective(cfg, site, msg, rest);
      if c.name.Some? {
        NestedInjective(cfg, ChildSite(cfg, site, msg, c), c);
        HeadInjective(cfg, site, msg, c);
        HeadApart(cfg, site, msg, children);
        InjectiveAppend(HeadEntries(cfg, site, msg, c), ChildEntries(cfg, site, msg, rest));
        assert ChildEntries(cfg, site, msg, children) ==
          HeadEntries(cfg, site, msg, c) + ChildEntries(cfg, site, msg, rest);
      } else {
        assert ChildEntries(cfg, site, msg, children) == [] + ChildEntries(cfg, site, msg, rest);
      }
    }
  }

  lemma HeadInjective(cfg: Config, site: Site, msg: Message, c: Message)
    requires c.name.Some? && Injective(NestedEntries(cfg, ChildSite(cfg, site, msg, c), c))
    ensures Injective([MessageEntry(cfg, site, msg, c)] + NestedEntries(cfg, ChildSite(cfg, site, msg, c), c))
  {
    var child := ChildSite(cfg, site, msg, c);
    var entry, below := MessageEntry(cfg, site, msg, c), NestedEntries(cfg, child, c);
    NestedInside(cfg, child, c);
    if !child.emitted { NothingEmittedBelow(cfg, child, c); }
    InjectiveAppend([entry], below);
  }

  lemma {:induction false} EnumShapes(cfg: Config, site: Site, enums: seq<EnumDecl>)
    ensures forall e | e in EnumEntries(cfg, site, enums) && e.emitted ::
      exists t | t in LocalEnums(cfg, site.fqn, enums) :: e.path == site.at + [LocalTypeName(cfg.prefix, t)]
  {
    if enums != [] {
      EnumShapes(cfg, site, enums[1..]);
      var names, rest := LocalEnums(cfg, site.fqn, enums), LocalEnums(cfg, site.fqn, enums[1..]);
      assert forall t | t in rest :: t in names;
      if enums[0].name.Some? && Override(cfg, site.fqn + "." + enums[0].name.value).None? {
        assert names[0] == enums[0].name.value;
      }
    }
  }

  lemma EnumApart(cfg: Config, site: Site, enums: seq<EnumDecl>)
    requires enums != [] && enums[0].name.Some? && Distinct(TypeNames(cfg, LocalEnums(cfg, site.fqn, enums)))
    ensures Apart([EnumEntry(cfg, site, enums[0].name.value)], EnumEntries(cfg, site, enums[1..]))
  {
    var entry, others := EnumEntry(cfg, site, enums[0].name.value), EnumEntries(cfg, site, enums[1..]);
    EnumShapes(cfg, site, enums[1..]);
    forall f | f in others && entry.emitted && f.emitted ensures entry.path != f.path {
      var n :| n in LocalEnums(cfg, site.fqn, enums[1..]) && f.path == site.at + [LocalTypeName(cfg.prefix, n)];
      EnumNamesDiffer(cfg, site.fqn, enums, n);
      assert entry.path[|site.at|] != f.path[|site.at|];
    }
  }

  lemma EnumNamesDiffer(cfg: Config, fqn: string, enums: seq<EnumDecl>, n: string)
    requires enums != [] && enums[0].name.Some? && Distinct(TypeNames(cfg, LocalEnums(cfg, fqn, enums)))
    requires Override(cfg, fqn + "." + enums[0].name.value).None?
    requires n in LocalEnums(cfg, fqn, enums[1..])
    ensures LocalTypeName(cfg.prefix, enums[0].name.value) != LocalTypeName(cfg.prefix, n)
  {
    var names, rest := LocalEnums(cfg, fqn, enums), LocalEnums(cfg, fqn, enums[1..]);
    assert names == [enums[0].name.value] + rest;
    var k :| 0 <= k < |rest| && rest[k] == n;
    assert TypeNames(cfg, names)[0] != TypeNames(cfg, names)[k + 1];
  }

  lemma {:induction false} EnumsInjective(cfg: Config, site: Site, enums: seq<EnumDecl>)
    requires Distinct(TypeNames(cfg, LocalEnums(cfg, site.fqn, enums)))
    ensures Injective(EnumEntries(cfg, site, enums))
  {
    if enums != [] {
      var names, rest := LocalEnums(cfg, site.fqn, enums), LocalEnums(cfg, site.fqn, enums[1..]);
      assert names == names[..|names| - |rest|] + rest;
      DistinctTail(cfg, names[..|names| - |rest|], rest);
      EnumsInjective(cfg, site, enums[1..]);
      if enums[0].name.Some? {
        EnumApart(cfg, site, enums);
        InjectiveAppend([EnumEntry(cfg, site, enums[0].name.value)], EnumEntries(cfg, site, enums[1..]));
      }
    }
  }

  // ----- trees that hang off one module -----

  /** A nested message whose module is declared with its parent's. */
  predicate Opens(cfg: Config, fqn: string, c: Message) {
    !c.mapEntry && c.name.Some? && Override(cfg, fqn + "." + c.name.value).None?
  }

  /** Put into one module, the two messages declare a type twice: right there, or in equally named modules below. */
  ghost predicate Overlap(cfg: Config, p: string, a: Message, q: string, b: Message)
    decreases a
  {
    || (exists t | t in ScopeTypes(cfg, p, a) :: t in ScopeTypes(cfg, q, b))
    || (exists c, d | c in a.nested && d in b.nested && Opens(cfg, p, c) && Opens(cfg, q, d) ::
          && NestedModule(cfg, p, a, c.name.value) == NestedModule(cfg, q, b, d.name.value)
          && Overlap(cfg, p + "." + c.name.value, c, q + "." + d.name.value, d))
  }

  /** The entry is a type of the message's own scope. */
  ghost predicate IsOwnType(cfg: Config, site: Site, msg: Message, e: Entry) {
    exists t | t in ScopeTypes(cfg, site.fqn, msg) :: e.path == site.at + [t]
  }

  ghost predicate IsBelowChild(cfg: Config, site: Site, msg: Message, c: Message, e: Entry) {
    c in msg.nested && Opens(cfg, site.fqn, c) && e in NestedEntries(cfg, ChildSite(cfg, site, msg, c), c)
  }

  lemma {:induction false} LocalMessageIs(cfg: Config, fqn: string, nested: seq<Message>, name: string)
    ensures name in LocalMessages(cfg, fqn, nested) <==>
            exists c | c in nested :: Opens(cfg, fqn, c) && c.name.value == name
  {
    if nested != [] { LocalMessageIs(cfg, fqn, nested[1..], name); }
  }

  lemma TypeInScope(cfg: Config, fqn: string, msg: Message, name: string)
    requires name in LocalMessages(cfg, fqn, msg.nested) || name in LocalEnums(cfg, fqn, msg.enums)
    ensures LocalTypeName(cfg.prefix, name) in ScopeTypes(cfg, fqn, msg)
  {
    var names := LocalMessages(cfg, fqn, msg.nested) + LocalEnums(cfg, fqn, msg.enums);
    assert name in names;
    var i :| 0 <= i < |names| && names[i] == name;
    assert TypeNames(cfg, names)[i] == LocalTypeName(cfg.prefix, name);
  }

  lemma {:induction false} ChildSource(cfg: Config, site: Site, msg: Message, children: seq<Message>, e: Entry)
    requires site.emitted && e in ChildEntries(cfg, site, msg, children) && e.emitted
    requires forall c | c in children :: c in msg.nested
    ensures IsOwnType(cfg, site, msg, e) || exists c :: IsBelowChild(cfg, site, msg, c, e)
  {
    var c := children[0];
    if e in ChildEntries(cfg, site, msg, children[1..]) {
      ChildSource(cfg, site, msg, children[1..], e);
    } else {
      var child := ChildSite(cfg, site, msg, c);
      if !child.emitted { NothingEmittedBelow(cfg, child, c); }
      assert Opens(cfg, site.fqn, c);
      if e == MessageEntry(cfg, site, msg, c) {
        LocalMessageIs(cfg, site.fqn, msg.nested, c.name.value);
        TypeInScope(cfg, site.fqn, msg, c.name.value);
      } else {
        assert IsBelowChild(cfg, site, msg, c, e);
      }
    }
  }

  /** An emitted entry below a message is a type of its scope, or lies below a child. */
  lemma NestedSource(cfg: Config, site: Site, msg: Message, e: Entry)
    requires site.emitted && e in NestedEntries(cfg, site, msg) && e.emitted
    ensures IsOwnType(cfg, site, msg, e) || exists c :: IsBelowChild(cfg, site, msg, c, e)
  {
    if e in ChildEntries(cfg, site, msg, msg.nested) {
      ChildSource(cfg, site, msg, msg.nested, e);
    } else {
      EnumShapes(cfg, site, msg.enums);
      var t :| t in LocalEnums(cfg, site.fqn, msg.enums) && e.path == site.at + [LocalTypeName(cfg.prefix, t)];
      TypeInScope(cfg, site.fqn, msg, t);
    }
  }

  lemma {:induction false} ChildListed(cfg: Config, site: Site, msg: Message, children: seq<Message>, c: Message)
    requires c in children && c.name.Some?
    ensures MessageEntry(cfg, site, msg, c) in ChildEntries(cfg, site, msg, children)
    ensures forall e | e in NestedEntries(cfg, ChildSite(cfg, site, msg, c), c) ::
      e in ChildEntries(cfg, site, msg, children)
  {
    if c != children[0] { ChildListed(cfg, site, msg, children[1..], c); }
  }

  lemma {:induction false} EnumListed(cfg: Config, site: Site, enums: seq<EnumDecl>, name: string)
    requires site.emitted && name in LocalEnums(cfg, site.fqn, enums)
    ensures exists e | e in EnumEntries(cfg, site, enums) ::
      e.emitted && e.path == site.at + [LocalTypeName(cfg.prefix, name)]
  {
    if enums[0].name == Some(name) && Override(cfg, site.fqn + "." + name).None? {
      assert EnumEntry(cfg, site, name) in EnumEntries(cfg, site, enums);
    } else {
      EnumListed(cfg, site, enums[1..], name);
    }
  }

  /** Every type of a declared scope has an emitted entry. */
  lemma OwnTypeListed(cfg: Config, site: Site, msg: Message, t: string) returns (e: Entry)
    requires site.emitted && t in ScopeTypes(cfg, site.fqn, msg)
    ensures e in NestedEntries(cfg, site, msg) && e.emitted && e.path == site.at + [t]
  {
    var local, enums := LocalMessages(cfg, site.fqn, msg.nested), LocalEnums(cfg, site.fqn, msg.enums);
    var i :| 0 <= i < |ScopeTypes(cfg, site.fqn, msg)| && ScopeTypes(cfg, site.fqn, msg)[i] == t;
    var name := (local + enums)[i];
    if name in local {
      LocalMessageIs(cfg, site.fqn, msg.nested, name);
      var c :| c in msg.nested && Opens(cfg, site.fqn, c) && c.name.value == name;
      ChildListed(cfg, site, msg, msg.nested, c);
      e := MessageEntry(cfg, site, msg, c);
    } else {
      EnumListed(cfg, site, msg.enums, name);
      e :| e in EnumEntries(cfg, site, msg.enums) && e.emitted && e.path == site.at + [LocalTypeName(cfg.prefix, name)];
    }
  }

  /** An entry below a child lies in the child's module. */
  lemma BelowChildIsInside(cfg: Config, site: Site, msg: Message, c: Message, e: Entry)
    requires site.emitted && IsBelowChild(cfg, site, msg, c, e) && e.emitted
    ensures ChildSite(cfg, site, msg, c).emitted
    ensures ChildSite(cfg, site, msg, c).at == site.at + [NestedModule(cfg, site.fqn, msg, c.name.value)]
    ensures |e.path| > |site.at| + 1 && e.path[|site.at|] == NestedModule(cfg, site.fqn, msg, c.name.value)
  {
    NestedInside(cfg, ChildSite(cfg, site, msg, c), c);
    ExtendedPath(site.at, NestedModule(cfg, site.fqn, msg, c.name.value), e.path);
  }

  /** Two messages whose modules coincide share the path of a type exactly when they overlap. */
  lemma {:induction false} OverlapShares(cfg: Config, sa: Site, a: Message, sb: Site, b: Message)
    requires sa.emitted && sb.emitted && sa.at == sb.at
    ensures Overlap(cfg, sa.fqn, a, sb.fqn, b) <==> !Apart(NestedEntries(cfg, sa, a), NestedEntries(cfg, sb, b))
    decreases a
  {
    if !Apart(NestedEntries(cfg, sa, a), NestedEntries(cfg, sb, b)) {
      var x, y :| x in NestedEntries(cfg, sa, a) && y in NestedEntries(cfg, sb, b)
                  && x.emitted && y.emitted && x.path == y.path;
      SharedMeansOverlap(cfg, sa, a, sb, b, x, y);
    }
    if Overlap(cfg, sa.fqn, a, sb.fqn, b) { OverlapMeansShared(cfg, sa, a, sb, b); }
  }

  lemma {:induction false} SharedMeansOverlap(cfg: Config, sa: Site, a: Message, sb: Site, b: Message, x: Entry,
                                              y: Entry)
    requires sa.emitted && sb.emitted && sa.at == sb.at
    requires x in NestedEntries(cfg, sa, a) && y in NestedEntries(cfg, sb, b) && x.emitted && y.emitted
      && x.path == y.path
    ensures Overlap(cfg, sa.fqn, a, sb.fqn, b)
    decreases a
  {
    NestedSource(cfg, sa, a, x);
    NestedSource(cfg, sb, b, y);
    if c :| IsBelowChild(cfg, sa, a, c, x) {
      BelowChildIsInside(cfg, sa, a, c, x);
      assert !IsOwnType(cfg, sb, b, y);
      var d :| IsBelowChild(cfg, sb, b, d, y);
      BelowChildIsInside(cfg, sb, b, d, y);
      SharedMeansOverlap(cfg, ChildSite(cfg, sa, a, c), c, ChildSite(cfg, sb, b, d), d, x, y);
    } else {
      OwnTypesAgree(cfg, sa, a, sb, b, x, y);
    }
  }

  lemma OwnTypesAgree(cfg: Config, sa: Site, a: Message, sb: Site, b: Message, x: Entry, y: Entry)
    requires sb.emitted && sa.at == sb.at && x.path == y.path && y.emitted
    requires IsOwnType(cfg, sa, a, x) && (IsOwnType(cfg, sb, b, y) || exists d :: IsBelowChild(cfg, sb, b, d, y))
    ensures exists t | t in ScopeTypes(cfg, sa.fqn, a) :: t in ScopeTypes(cfg, sb.fqn, b)
  {
    var t :| t in ScopeTypes(cfg, sa.fqn, a) && x.path == sa.at + [t];
    assert x.path[|sa.at|] == t;
    if d :| IsBelowChild(cfg, sb, b, d, y) { BelowChildIsInside(cfg, sb, b, d, y); }
    var u :| u in ScopeTypes(cfg, sb.fqn, b) && y.path == sb.at + [u];
    assert y.path[|sb.at|] == u;
  }

  lemma {:induction false} OverlapMeansShared(cfg: Config, sa: Site, a: Message, sb: Site, b: Message)
    requires sa.emitted && sb.emitted && sa.at == sb.at && Overlap(cfg, sa.fqn, a, sb.fqn, b)
    ensures !Apart(NestedEntries(cfg, sa, a), NestedEntries(cfg, sb, b))
    decreases a
  {
    if t :| t in ScopeTypes(cfg, sa.fqn, a) && t in ScopeTypes(cfg, sb.fqn, b) {
      var x := OwnTypeListed(cfg, sa, a, t);
      var y := OwnTypeListed(cfg, sb, b, t);
    } else {
      var c, d :| c in a.nested && d in b.nested && Opens(cfg, sa.fqn, c) && Opens(cfg, sb.fqn, d)
        && NestedModule(cfg, sa.fqn, a, c.name.value) == NestedModule(cfg, sb.fqn, b, d.name.value)
        && Overlap(cfg, sa.fqn + "." + c.name.value, c, sb.fqn + "." + d.name.value, d);
      OverlapMeansShared(cfg, ChildSite(cfg, sa, a, c), c, ChildSite(cfg, sb, b, d), d);
      SharedBelow(cfg, sa, a, c, sb, b, d);
    }
  }

  lemma SharedBelow(cfg: Config, sa: Site, a: Message, c: Message, sb: Site, b: Message, d: Message)
    requires c in a.nested && c.name.Some? && d in b.nested && d.name.Some?
    requires !Apart(NestedEntries(cfg, ChildSite(cfg, sa, a, c), c), NestedEntries(cfg, ChildSite(cfg, sb, b, d), d))
    ensures !Apart(NestedEntries(cfg, sa, a), NestedEntries(cfg, sb, b))
  {
    ChildListed(cfg, sa, a, a.nested, c);
    ChildListed(cfg, sb, b, b.nested, d);
    var x, y :| x in NestedEntries(cfg, ChildSite(cfg, sa, a, c), c)
      && y in NestedEntries(cfg, ChildSite(cfg, sb, b, d), d)
                && x.emitted && y.emitted && x.path == y.path;
    assert x in NestedEntries(cfg, sa, a) && y in NestedEntries(cfg, sb, b);
  }

  /** The modules of two messages of a scope coincide exactly when they have the same free base. */
  lemma ModulesAgree(names: seq<string>, occupied: set<string>, a: string, b: string)
    requires a in names && b in names && a != b
    ensures ModuleAmong(names, occupied, a) == ModuleAmong(names, occupied, b) <==>
            ToSnakeCase(a) == ToSnakeCase(b) && !D.IsOccupied(occupied, ToSnakeCase(a))
  {
    var out := D.Modules(names, occupied);
    forall i, j | 0 <= i < |names| && 0 <= j < |names| && i != j
      ensures out[i] == out[j] <==> !D.IsOccupied(occupied, D.Base(names[i])) && D.Base(names[i]) == D.Base(names[j])
    {
      D.SameModule(names, occupied, out, i, j);
    }
  }

  // ----- modules beside mapped types -----

  /** A name that a module can have beside a type of another crate. */
  predicate Usable(m: string, rust: Path, packageLevel: bool) {
    m !in ["self", "super", "crate", "arbitrary"] && !(packageLevel && m == "oneof") && m != LastSegment(rust)
  }

  /** The module of an overridden message is the shortest extension by underscores that it can have. */
  lemma OverrideIsShortest(name: string, rust: Path, packageLevel: bool) returns (n: nat)
    ensures ExternOverrideModule(name, rust, packageLevel) == ToSnakeCase(name) + Underscores(n)
    ensures Usable(ToSnakeCase(name) + Underscores(n), rust, packageLevel)
    ensures forall k: nat | k < n :: !Usable(ToSnakeCase(name) + Underscores(k), rust, packageLevel)
  {
    var m := ToSnakeCase(name);
    assert m + Underscores(0) == m && m + Underscores(1) == m + "_" && m + Underscores(2) == m + "__";
    assert (m + "_")[|m|] == '_' && (m + "__")[|m| + 1] == '_';
    n := if Usable(m, rust, packageLevel) then 0 else if m + "_" != LastSegment(rust) then 1 else 2;
  }

  /** The enums of a scope that no exact entry maps elsewhere. */
  lemma {:induction false} LocalEnumIs(cfg: Config, fqn: string, enums: seq<EnumDecl>, name: string)
    ensures name in LocalEnums(cfg, fqn, enums) <==>
            exists e | e in enums :: e.name == Some(name) && Override(cfg, fqn + "." + name).None?
  {
    if enums != [] { LocalEnumIs(cfg, fqn, enums[1..], name); }
  }

  /** The type names of a scope: those of its own messages, but for map entries, and of its enums. */
  lemma ScopeTypesAre(cfg: Config, fqn: string, msg: Message, t: string)
    ensures t in ScopeTypes(cfg, fqn, msg) <==>
      || (exists c | c in msg.nested ::
            !c.mapEntry && c.name.Some? && Override(cfg, fqn + "." + c.name.value).None?
            && t == LocalTypeName(cfg.prefix, c.name.value))
      || (exists e | e in msg.enums ::
            e.name.Some? && Override(cfg, fqn + "." + e.name.value).None?
            && t == LocalTypeName(cfg.prefix, e.name.value))
  {
    var names := LocalMessages(cfg, fqn, msg.nested) + LocalEnums(cfg, fqn, msg.enums);
    forall name
      ensures name in names <==> name in LocalMessages(cfg, fqn, msg.nested) || name in LocalEnums(cfg, fqn, msg.enums)
    {
    }
    forall name
      ensures name in LocalMessages(cfg, fqn, msg.nested) <==>
              exists c | c in msg.nested :: Opens(cfg, fqn, c) && c.name.value == name
      ensures name in LocalEnums(cfg, fqn, msg.enums) <==>
              exists e | e in msg.enums :: e.name == Some(name) && Override(cfg, fqn + "." + name).None?
    {
      LocalMessageIs(cfg, fqn, msg.nested, name);
      LocalEnumIs(cfg, fqn, msg.enums, name);
    }
    if t in ScopeTypes(cfg, fqn, msg) {
      var i :| 0 <= i < |names| && TypeNames(cfg, names)[i] == t;
      assert names[i] in names;
    }
    if c :| c in msg.nested && Opens(cfg, fqn, c) && t == LocalTypeName(cfg.prefix, c.name.value) {
      TypeInScope(cfg, fqn, msg, c.name.value);
    }
    if e :| e in msg.enums && e.name.Some? && Override(cfg, fqn + "." + e.name.value).None?
            && t == LocalTypeName(cfg.prefix, e.name.value) {
      TypeInScope(cfg, fqn, msg, e.name.value);
    }
  }

  /**
    The module of a nested message is none of the types beside it, and its plain conversion unless that is one of
    them or a reserved name.
   */
  lemma NestedModuleIs(cfg: Config, fqn: string, msg: Message, c: Message)
    requires c in msg.nested && Opens(cfg, fqn, c)
    ensures
      var m, base := NestedModule(cfg, fqn, msg, c.name.value), ToSnakeCase(c.name.value);
      && m !in ScopeTypes(cfg, fqn, msg) && m !in ["self", "super", "crate", "arbitrary"]
      && (m == base <==> base !in ScopeTypes(cfg, fqn, msg) && base !in ["self", "super", "crate", "arbitrary"])
  {
    var names, types := LocalMessages(cfg, fqn, msg.nested), ToSet(ScopeTypes(cfg, fqn, msg));
    LocalMessageIs(cfg, fqn, msg.nested, c.name.value);
    ModuleIsNoType(names, types, c.name.value);
    PlainExactly(names, types, c.name.value);
  }

  /** A nested message that an exact entry maps elsewhere: its own nested types go beside the mapped path. */
  lemma OverriddenSite(cfg: Config, site: Site, msg: Message, c: Message, rust: Path)
    requires c.name.Some? && Override(cfg, site.fqn + "." + c.name.value) == Some(rust)
    ensures
      var child := ChildSite(cfg, site, msg, c);
      && !child.emitted && |child.at| == (if rust == [] then 0 else |rust| - 1) + 1
      && child.at[..|child.at| - 1] == (if rust == [] then [] else rust[..|rust| - 1])
      && Usable(child.at[|child.at| - 1], rust, false)
  {
    var n := OverrideIsShortest(c.name.value, rust, false);
  }
}
