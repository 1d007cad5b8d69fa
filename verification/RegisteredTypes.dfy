/** Which types the registration pass records: every declared one, at any depth, under its name and at its path. */
module RegisteredTypes {
  import opened Text
  import opened Idents
  import opened Descriptors
  import opened ExternPaths
  import opened Registry
  import opened Packages

  /** A registered type, without what only the pass itself needs. */
  datatype Place = Place(package: string, fqn: string, path: Path, emitted: bool)

  function At(e: Entry): Place { Place(e.package, e.fqn, e.path, e.emitted) }

  // ----- where a declaration belongs -----

  /** A type declared in a message: where an entry for its name maps it, or else in the module of the message. */
  ghost predicate IsIn(cfg: Config, site: Site, name: string, emitted: bool, t: Place) {
    && t.package == site.package && t.fqn == site.fqn + "." + name
    && match Override(cfg, t.fqn)
       case Some(rust) => t.path == rust && !t.emitted
       case None => t.path == site.at + [LocalTypeName(cfg.prefix, name)] && t.emitted == emitted
  }

  /** A message at some depth below another one, by indices, with the site of its nested types. */
  ghost function SiteAt(cfg: Config, site: Site, msg: Message, place: seq<nat>): Option<(Site, Message)>
    decreases |place|
  {
    if place == [] then Some((site, msg))
    else if place[0] < |msg.nested| && msg.nested[place[0]].name.Some? then
      var c := msg.nested[place[0]];
      SiteAt(cfg, ChildSite(cfg, site, msg, c), c, place[1..])
    else None
  }

  ghost predicate IsNestedMessage(cfg: Config, site: Site, msg: Message, t: Place) {
    exists c | c in msg.nested && c.name.Some? :: IsIn(cfg, site, c.name.value, site.emitted && !c.mapEntry, t)
  }

  ghost predicate IsNestedEnum(cfg: Config, site: Site, msg: Message, t: Place) {
    exists d | d in msg.enums && d.name.Some? :: IsIn(cfg, site, d.name.value, site.emitted, t)
  }

  /** A message or enum that is declared right inside the message at `place`. */
  ghost predicate IsBelow(cfg: Config, site: Site, msg: Message, place: seq<nat>, t: Place) {
    match SiteAt(cfg, site, msg, place)
    case None => false
    case Some((s, p)) => IsNestedMessage(cfg, s, p, t) || IsNestedEnum(cfg, s, p, t)
  }

  ghost predicate IsTop(cfg: Config, f: File, name: string, t: Place) {
    t == Place(PackageOf(f), TypeFqn(PackageOf(f), name), TopPath(cfg, f, name).0, !TopPath(cfg, f, name).1)
  }

  ghost predicate IsMessageType(cfg: Config, files: seq<File>, f: File, m: Message, t: Place) {
    m.name.Some? &&
    (|| IsTop(cfg, f, m.name.value, t)
     || exists place :: IsBelow(cfg, TopSite(cfg, files, f, m.name.value), m, place, t))
  }

  /** A type that one of the files declares, at any depth. */
  ghost predicate IsDeclared(cfg: Config, files: seq<File>, t: Place) {
    || (exists f, m :: f in files && m in f.messages && IsMessageType(cfg, files, f, m, t))
    || (exists f, d :: f in files && d in f.enums && d.name.Some? && IsTop(cfg, f, d.name.value, t))
  }

  // ----- the types below one message -----

  lemma {:induction false} EnumsBelow(cfg: Config, site: Site, enums: seq<EnumDecl>, t: Place)
    ensures (exists e | e in EnumEntries(cfg, site, enums) :: At(e) == t) <==>
            exists d | d in enums && d.name.Some? :: IsIn(cfg, site, d.name.value, site.emitted, t)
  {
    if enums != [] {
      EnumsBelow(cfg, site, enums[1..], t);
      var d := enums[0];
      assert enums == [d] + enums[1..];
      if d.name.Some? {
        assert At(EnumEntry(cfg, site, d.name.value)) == t <==> IsIn(cfg, site, d.name.value, site.emitted, t);
      }
    }
  }

  lemma MessageBelow(cfg: Config, site: Site, msg: Message, c: Message, t: Place)
    requires c.name.Some?
    ensures At(MessageEntry(cfg, site, msg, c)) == t <==>
            IsIn(cfg, site, c.name.value, site.emitted && !c.mapEntry, t)
  {
  }

  lemma {:induction false} SourceBelow(cfg: Config, site: Site, msg: Message, e: Entry) returns (place: seq<nat>)
    requires e in NestedEntries(cfg, site, msg)
    ensures IsBelow(cfg, site, msg, place, At(e))
    decreases msg, |msg.nested| + 1
  {
    if e in EnumEntries(cfg, site, msg.enums) {
      EnumsBelow(cfg, site, msg.enums, At(e));
      place := [];
    } else {
      place := SourceAmong(cfg, site, msg, 0, e);
    }
  }

  lemma {:induction false} SourceAmong(cfg: Config, site: Site, msg: Message, k: nat, e: Entry)
    returns (place: seq<nat>)
    requires k <= |msg.nested| && e in ChildEntries(cfg, site, msg, msg.nested[k..])
    ensures IsBelow(cfg, site, msg, place, At(e))
    decreases msg, |msg.nested| - k
  {
    var c := msg.nested[k];
    if c.name.Some? && e == MessageEntry(cfg, site, msg, c) {
      MessageBelow(cfg, site, msg, c, At(e));
      place := [];
    } else if c.name.Some? && e in NestedEntries(cfg, ChildSite(cfg, site, msg, c), c) {
      var rest := SourceBelow(cfg, ChildSite(cfg, site, msg, c), c, e);
      place := [k] + rest;
      assert place[1..] == rest;
    } else {
      assert msg.nested[k..][1..] == msg.nested[k + 1..];
      place := SourceAmong(cfg, site, msg, k + 1, e);
    }
  }

  lemma {:induction false} ListedBelow(cfg: Config, site: Site, msg: Message, place: seq<nat>, t: Place)
    returns (e: Entry)
    requires IsBelow(cfg, site, msg, place, t)
    ensures e in NestedEntries(cfg, site, msg) && At(e) == t
    decreases |place|
  {
    if place != [] {
      var c := msg.nested[place[0]];
      e := ListedBelow(cfg, ChildSite(cfg, site, msg, c), c, place[1..], t);
      ChildListed(cfg, site, msg, msg.nested, c);
    } else if IsNestedMessage(cfg, site, msg, t) {
      var c :| c in msg.nested && c.name.Some? && IsIn(cfg, site, c.name.value, site.emitted && !c.mapEntry, t);
      e := MessageEntry(cfg, site, msg, c);
      MessageBelow(cfg, site, msg, c, t);
      ChildListed(cfg, site, msg, msg.nested, c);
    } else {
      EnumsBelow(cfg, site, msg.enums, t);
      e :| e in EnumEntries(cfg, site, msg.enums) && At(e) == t;
    }
  }

  // ----- the types of a run -----

  lemma {:induction false} EnumUnitIs(cfg: Config, f: File, enums: seq<EnumDecl>, u: Unit)
    ensures u in EnumUnits(cfg, f, enums) <==>
            exists d | d in enums && d.name.Some? :: u == EnumUnit(cfg, f, d.name.value)
  {
    if enums != [] {
      var n := |enums| - 1;
      assert enums == enums[..n] + [enums[n]];
      EnumUnitIs(cfg, f, enums[..n], u);
    }
  }

  /** The unit of a top-level enum. */
  ghost function EnumUnit(cfg: Config, f: File, name: string): Unit {
    Unit(PackageOf(f), name, false, !TopPath(cfg, f, name).1, [TopEnumEntry(cfg, f, name)])
  }

  lemma {:induction false} MessageUnitIs(cfg: Config, files: seq<File>, f: File, msgs: seq<Message>, u: Unit)
    ensures u in MessageUnits(cfg, files, f, msgs) <==>
            exists m | m in msgs && m.name.Some? :: u == MessageUnit(cfg, files, f, m)
  {
    if msgs != [] {
      var n := |msgs| - 1;
      assert msgs == msgs[..n] + [msgs[n]];
      MessageUnitIs(cfg, files, f, msgs[..n], u);
    }
  }

  ghost predicate IsUnitOf(cfg: Config, files: seq<File>, f: File, u: Unit) {
    || (exists m | m in f.messages && m.name.Some? :: u == MessageUnit(cfg, files, f, m))
    || (exists d | d in f.enums && d.name.Some? :: u == EnumUnit(cfg, f, d.name.value))
  }

  lemma {:induction false} UnitIs(cfg: Config, files: seq<File>, part: seq<File>, u: Unit)
    ensures u in Units(cfg, files, part) <==> exists f | f in part :: IsUnitOf(cfg, files, f, u)
  {
    if part != [] {
      var n := |part| - 1;
      assert part == part[..n] + [part[n]];
      UnitIs(cfg, files, part[..n], u);
      FileUnitIs(cfg, files, part[n], u);
    }
  }

  lemma FileUnitIs(cfg: Config, files: seq<File>, f: File, u: Unit)
    ensures u in MessageUnits(cfg, files, f, f.messages) || u in EnumUnits(cfg, f, f.enums) <==>
            IsUnitOf(cfg, files, f, u)
  {
    MessageUnitIs(cfg, files, f, f.messages, u);
    EnumUnitIs(cfg, f, f.enums, u);
  }

  lemma EntryIsDeclared(cfg: Config, files: seq<File>, f: File, u: Unit, e: Entry)
    requires f in files && IsUnitOf(cfg, files, f, u) && e in u.entries
    ensures IsDeclared(cfg, files, At(e))
  {
    if m :| m in f.messages && m.name.Some? && u == MessageUnit(cfg, files, f, m) {
      if e != TopMessageEntry(cfg, files, f, m.name.value) {
        var place := SourceBelow(cfg, TopSite(cfg, files, f, m.name.value), m, e);
      }
      assert IsMessageType(cfg, files, f, m, At(e));
    }
  }

  lemma MessageTypeListed(cfg: Config, files: seq<File>, f: File, m: Message, t: Place) returns (e: Entry)
    requires IsMessageType(cfg, files, f, m, t)
    ensures e in MessageUnit(cfg, files, f, m).entries && At(e) == t
  {
    if IsTop(cfg, f, m.name.value, t) {
      e := TopMessageEntry(cfg, files, f, m.name.value);
    } else {
      var place :| IsBelow(cfg, TopSite(cfg, files, f, m.name.value), m, place, t);
      e := ListedBelow(cfg, TopSite(cfg, files, f, m.name.value), m, place, t);
    }
  }

  /** The pass registers exactly the declared types, each under its full name and at its own path. */
  lemma RegisteredExactly(cfg: Config, files: seq<File>, t: Place)
    ensures (exists e | e in AllEntries(cfg, files) :: At(e) == t) <==> IsDeclared(cfg, files, t)
  {
    if e :| e in AllEntries(cfg, files) && At(e) == t {
      FlattenSource(Units(cfg, files, files), e);
      var u :| u in Units(cfg, files, files) && e in u.entries;
      UnitIs(cfg, files, files, u);
      var f :| f in files && IsUnitOf(cfg, files, f, u);
      EntryIsDeclared(cfg, files, f, u, e);
    }
    if f, m :| f in files && m in f.messages && IsMessageType(cfg, files, f, m, t) {
      var e := MessageTypeListed(cfg, files, f, m, t);
      InRun(cfg, files, f, MessageUnit(cfg, files, f, m), e);
    } else if f, d :| f in files && d in f.enums && d.name.Some? && IsTop(cfg, f, d.name.value, t) {
      InRun(cfg, files, f, EnumUnit(cfg, f, d.name.value), TopEnumEntry(cfg, f, d.name.value));
    }
  }

  lemma InRun(cfg: Config, files: seq<File>, f: File, u: Unit, e: Entry)
    requires f in files && IsUnitOf(cfg, files, f, u) && e in u.entries
    ensures e in AllEntries(cfg, files)
  {
    UnitIs(cfg, files, files, u);
    FlattenHolds(Units(cfg, files, files), u, e);
  }
}
