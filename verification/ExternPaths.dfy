/**
  Resolution of proto packages and types against `extern_path` entries
  (buffa-codegen/src/context.rs). Proto names are strings, as in the source; a Rust path is the
  sequence of its `::` segments.
 */
module ExternPaths {
  import opened Text
  import opened Idents
  import opened Segments

  type Path = seq<string>

  /** `(proto prefix, Rust path)`. */
  type ExternPath = (string, Path)

  predicate MatchesProtoPrefix(prefix: string, fqn: string) {
    prefix == "." || prefix == fqn || (prefix <= fqn && |prefix| < |fqn| && fqn[|prefix|] == '.')
  }

  function Modules(segments: seq<string>): (r: Path)
    ensures |r| == |segments|
    ensures forall i | 0 <= i < |r| :: r[i] == ToSnakeCase(segments[i])
  {
    seq(|segments|, i requires 0 <= i < |segments| => ToSnakeCase(segments[i]))
  }

  // ----- the best entry -----

  /** `prefix` ends at a segment boundary of `s`, with more of `s` to come. */
  predicate Covers(prefix: string, s: string) {
    prefix == "." || (prefix <= s && |prefix| < |s| && s[|prefix|] == '.')
  }

  /** What is left of `s` after a covering prefix and its boundary dot. */
  function Remainder(prefix: string, s: string): string
    requires Covers(prefix, s) && |s| > 0
  {
    if prefix == "." then s[1..] else s[|prefix| + 1..]
  }

  /** The first of the longest entries among the first `n` that cover `s`. */
  function Best(paths: seq<ExternPath>, n: nat, s: string): (r: Option<nat>)
    requires n <= |paths|
    ensures r.None? ==> forall i | 0 <= i < n :: !Covers(paths[i].0, s)
    ensures r.Some? ==> r.value < n && Covers(paths[r.value].0, s)
    ensures r.Some? ==> forall i | 0 <= i < n && Covers(paths[i].0, s) ::
      |paths[i].0| < |paths[r.value].0| || (|paths[i].0| == |paths[r.value].0| && r.value <= i)
  {
    if n == 0 then None
    else
      var before := Best(paths, n - 1, s);
      if Covers(paths[n - 1].0, s) && (before.None? || |paths[n - 1].0| > |paths[before.value].0|)
      then Some(n - 1) else before
  }

  /** The first entry for exactly `s`. */
  function Exact(paths: seq<ExternPath>, s: string): (r: Option<Path>)
    ensures r.None? <==> forall i | 0 <= i < |paths| :: paths[i].0 != s
    ensures r.Some? ==> exists i | 0 <= i < |paths| ::
      paths[i] == (s, r.value) && forall j | 0 <= j < i :: paths[j].0 != s
  {
    if paths == [] then None
    else if paths[0].0 == s then
      assert paths[0] == (s, paths[0].1);
      Some(paths[0].1)
    else
      var r := Exact(paths[1..], s);
      assert r.Some? ==> exists i | 0 <= i < |paths| ::
        paths[i] == (s, r.value) && forall j | 0 <= j < i :: paths[j].0 != s by {
        if r.Some? {
          var i :| 0 <= i < |paths[1..]| && paths[1..][i] == (s, r.value)
            && forall j | 0 <= j < i :: paths[1..][j].0 != s;
          assert paths[i + 1] == (s, r.value);
          forall j | 0 <= j < i + 1 ensures paths[j].0 != s {
            if j > 0 { assert paths[j] == paths[1..][j - 1]; }
          }
        }
      }
      r
  }

  // ----- resolution -----

  function ResolvePrefix(package: string, paths: seq<ExternPath>): Option<Path> {
    var dotted := "." + package;
    if Exact(paths, dotted).Some? then Exact(paths, dotted)
    else
      var best := Best(paths, |paths|, dotted);
      if best.None? then None
      else
        var prefix, rest := paths[best.value].0, Remainder(paths[best.value].0, dotted);
        Some(paths[best.value].1 + Modules(Split(if prefix == "." && "." <= rest then rest[1..] else rest)))
  }

  function ResolveType(fqn: string, paths: seq<ExternPath>): Option<Path>
    requires "." <= fqn
  {
    if Exact(paths, fqn).Some? then Exact(paths, fqn)
    else
      var best := Best(paths, |paths|, fqn);
      if best.None? then None
      else
        var segments := Split(Remainder(paths[best.value].0, fqn));
        Some(paths[best.value].1 + Modules(segments[..|segments| - 1]) + [EscapeTypeName(segments[|segments| - 1])])
  }

  method SnakeModules(segments: seq<string>) returns (suffix: Path)
    ensures suffix == Modules(segments)
  {
    suffix := [];
    for k := 0 to |segments|
      invariant suffix == Modules(segments[..k])
    {
      assert segments[..k + 1] == segments[..k] + [segments[k]];
      suffix := suffix + [ToSnakeCase(segments[k])];
    }
    assert segments[..|segments|] == segments;
  }

  method ResolveExternPrefix(package: string, paths: seq<ExternPath>) returns (r: Option<Path>)
    ensures r == ResolvePrefix(package, paths)
  {
    var dotted := "." + package;
    var best: Option<nat> := None;
    for k := 0 to |paths|
      invariant best == Best(paths, k, dotted)
      invariant forall j | 0 <= j < k :: paths[j].0 != dotted
    {
      var (prefix, rust) := paths[k];
      if dotted == prefix {
        return Some(rust);
      }
      if prefix <= dotted {
        var rest := dotted[|prefix|..];
        if prefix == "." || "." <= rest {
          if best.None? || |prefix| > |paths[best.value].0| {
            best := Some(k);
          }
        }
      }
    }
    if best.None? { return None; }
    var prefix := paths[best.value].0;
    var rest := dotted[|prefix|..];
    rest := if "." <= rest then rest[1..] else rest;
    var suffix := SnakeModules(Split(rest));
    return Some(paths[best.value].1 + suffix);
  }

  method ResolveExternType(fqn: string, paths: seq<ExternPath>) returns (r: Option<Path>)
    requires "." <= fqn
    ensures r == ResolveType(fqn, paths)
  {
    if Exact(paths, fqn).Some? {
      return Exact(paths, fqn);
    }
    var best: Option<nat> := None;
    for k := 0 to |paths|
      invariant best == Best(paths, k, fqn)
    {
      var prefix := paths[k].0;
      var matches := prefix == "." || (prefix <= fqn && "." <= fqn[|prefix|..]);
      if matches && (best.None? || |prefix| > |paths[best.value].0|) {
        best := Some(k);
      }
    }
    if best.None? { return None; }
    var prefix := paths[best.value].0;
    var rest := if prefix == "." then fqn[1..] else fqn[|prefix|..][1..];
    var segments := Split(rest);
    var typeName := segments[|segments| - 1];
    segments := segments[..|segments| - 1];
    var path := paths[best.value].1;
    for k := 0 to |segments|
      invariant path == paths[best.value].1 + Modules(segments[..k])
    {
      assert segments[..k + 1] == segments[..k] + [segments[k]];
      path := path + [ToSnakeCase(segments[k])];
    }
    assert segments[..|segments|] == segments;
    return Some(path + [EscapeTypeName(typeName)]);
  }

  // ----- a type and its package resolve alike -----

  /** The leading-dot name of a type declared in `package`. */
  function TypeFqn(package: string, name: string): string {
    if package == "" then "." + name else "." + package + "." + name
  }

  /** What protoc guarantees of the package and of a type's simple name. */
  predicate ValidNames(package: string, name: string) {
    !("." <= package) && '.' !in name
  }

  /** The Rust path of a type in a resolved package module. */
  function WithType(parent: Option<Path>, name: string): Option<Path> {
    if parent.Some? then Some(parent.value + [EscapeTypeName(name)]) else None
  }

  /** The entries that cover a type are those that cover its package, and the package's own. */
  lemma CoversAlike(package: string, name: string, prefix: string)
    requires ValidNames(package, name) && package != "" && prefix != TypeFqn(package, name)
    ensures Covers(prefix, TypeFqn(package, name)) <==> prefix == "." + package || Covers(prefix, "." + package)
  {
    var dotted, fqn := "." + package, TypeFqn(package, name);
    assert fqn == dotted + "." + name && fqn[|dotted|] == '.' && fqn[..|dotted|] == dotted;
    if prefix <= fqn && |prefix| < |fqn| {
      if |prefix| <= |dotted| {
        assert prefix == fqn[..|prefix|] == (dotted + ("." + name))[..|prefix|] == dotted[..|prefix|];
      } else {
        assert fqn[|prefix|] == name[|prefix| - |dotted| - 1];
      }
    }
    if prefix <= dotted {
      assert prefix == dotted[..|prefix|] == fqn[..|prefix|];
    }
  }

  lemma {:induction false} BestAlike(package: string, name: string, paths: seq<ExternPath>, n: nat)
    requires ValidNames(package, name) && package != "" && n <= |paths|
    requires forall i | 0 <= i < |paths| :: paths[i].0 != TypeFqn(package, name) && paths[i].0 != "." + package
    ensures Best(paths, n, TypeFqn(package, name)) == Best(paths, n, "." + package)
  {
    if n > 0 {
      BestAlike(package, name, paths, n - 1);
      var prefix := paths[n - 1].0;
      CoversAlike(package, name, prefix);
      assert Covers(prefix, TypeFqn(package, name)) <==> Covers(prefix, "." + package);
    }
  }

  lemma FirstExact(paths: seq<ExternPath>, s: string) returns (i: nat)
    requires Exact(paths, s).Some?
    ensures i < |paths| && paths[i] == (s, Exact(paths, s).value) && forall j | 0 <= j < i :: paths[j].0 != s
  {
    i :| 0 <= i < |paths| && paths[i] == (s, Exact(paths, s).value) && forall j | 0 <= j < i :: paths[j].0 != s;
  }

  lemma LongestIsPackage(package: string, name: string, prefix: string)
    requires ValidNames(package, name) && package != "" && prefix != TypeFqn(package, name)
    requires Covers(prefix, TypeFqn(package, name)) && |prefix| >= |"." + package|
    ensures prefix == "." + package
  {
    CoversAlike(package, name, prefix);
  }

  /** The package's own entry, if there is one, is the longest that covers its types. */
  lemma ExactIsBest(package: string, name: string, paths: seq<ExternPath>)
    requires ValidNames(package, name) && package != ""
    requires forall i | 0 <= i < |paths| :: paths[i].0 != TypeFqn(package, name)
    requires Exact(paths, "." + package).Some?
    ensures
      var best := Best(paths, |paths|, TypeFqn(package, name));
      best.Some? && paths[best.value] == ("." + package, Exact(paths, "." + package).value)
  {
    var dotted, fqn := "." + package, TypeFqn(package, name);
    var i := FirstExact(paths, dotted);
    CoversAlike(package, name, dotted);
    assert Covers(paths[i].0, fqn);
    var b := Best(paths, |paths|, fqn).value;
    LongestIsPackage(package, name, paths[b].0);
    assert b == i;
  }

  /** The type itself is all that is left below the entry. */
  lemma OnlyType(rust: Path, name: string)
    requires Split(name) == [name]
    ensures rust + Modules(Split(name)[..|Split(name)| - 1]) + [EscapeTypeName(Split(name)[|Split(name)| - 1])] ==
            rust + [EscapeTypeName(name)]
  {
  }

  /** A named package: every top-level type resolves to its package's module followed by its name. */
  lemma TypeFollowsPackage(package: string, name: string, paths: seq<ExternPath>)
    requires ValidNames(package, name) && package != ""
    requires forall i | 0 <= i < |paths| :: paths[i].0 != TypeFqn(package, name)
    ensures ResolveType(TypeFqn(package, name), paths) ==
            WithType(ResolvePrefix(package, paths), name)
  {
    var dotted, fqn := "." + package, TypeFqn(package, name);
    assert fqn == dotted + "." + name;
    if Exact(paths, dotted).Some? {
      ExactIsBest(package, name, paths);
      assert Remainder(dotted, fqn) == name;
      SplitOne(name);
      OnlyType(Exact(paths, dotted).value, name);
    } else {
      BestAlike(package, name, paths, |paths|);
      var best := Best(paths, |paths|, dotted);
      if best.Some? {
        var prefix := paths[best.value].0;
        var rest := Remainder(prefix, dotted);
        assert dotted[1..] == package;
        assert Remainder(prefix, fqn) == rest + "." + name;
        SplitLast(rest, name);
        assert Split(rest + "." + name)[..|Split(rest)|] == Split(rest);
      }
    }
  }

  /** The unnamed package is covered by the entries `.` and, were it given, the empty one. */
  lemma UnnamedPackage(name: string, paths: seq<ExternPath>, n: nat)
    requires '.' !in name && n <= |paths|
    requires forall i | 0 <= i < |paths| :: paths[i].0 != "." + name
    ensures forall i | 0 <= i < |paths| :: Covers(paths[i].0, "." + name) <==> paths[i].0 == "." || paths[i].0 == ""
    ensures forall i | 0 <= i < |paths| :: Covers(paths[i].0, ".") <==> paths[i].0 == "." || paths[i].0 == ""
  {
    var fqn := "." + name;
    forall i | 0 <= i < |paths| && Covers(paths[i].0, fqn) ensures paths[i].0 == "." || paths[i].0 == "" {
      var p := paths[i].0;
      assert 0 < |p| < |fqn| ==> fqn[|p|] == name[|p| - 1];
    }
  }

  lemma RootBest(name: string, paths: seq<ExternPath>) returns (i: nat)
    requires '.' !in name
    requires forall i | 0 <= i < |paths| :: paths[i].0 != "." + name
    requires exists i | 0 <= i < |paths| :: paths[i].0 == "."
    ensures i < |paths| && paths[i].0 == "." && Exact(paths, ".") == Some(paths[i].1)
    ensures Best(paths, |paths|, "." + name) == Some(i)
  {
    UnnamedPackage(name, paths, |paths|);
    i :| 0 <= i < |paths| && paths[i] == (".", Exact(paths, ".").value) && forall j | 0 <= j < i :: paths[j].0 != ".";
    assert Covers(paths[i].0, "." + name);
  }

  lemma RootEntryDecides(name: string, paths: seq<ExternPath>)
    requires '.' !in name
    requires forall i | 0 <= i < |paths| :: paths[i].0 != "." + name
    requires exists i | 0 <= i < |paths| :: paths[i].0 == "."
    ensures ResolveType("." + name, paths) == WithType(ResolvePrefix("", paths), name)
  {
    assert "." + "" == "." && ("." + name)[1..] == name;
    SplitOne(name);
    var i := RootBest(name, paths);
    OnlyType(paths[i].1, name);
  }

  lemma EmptyEntryDecides(name: string, paths: seq<ExternPath>)
    requires '.' !in name
    requires forall i | 0 <= i < |paths| :: paths[i].0 != "." + name && paths[i].0 != "."
    requires exists i | 0 <= i < |paths| :: paths[i].0 == ""
    ensures ResolveType("." + name, paths) != WithType(ResolvePrefix("", paths), name)
  {
    var fqn := "." + name;
    assert "." + "" == "." && fqn[1..] == name;
    SplitOne(name);
    UnnamedPackage(name, paths, |paths|);
    EmptyBest(paths, |paths|, fqn);
    var rust := paths[Best(paths, |paths|, ".").value].1;
    OnlyType(rust, name);
    assert ResolveType(fqn, paths) == Some(rust + [EscapeTypeName(name)]);
    var prefix := ResolvePrefix("", paths).value;
    assert prefix == rust + Modules([""]);
    assert |prefix + [EscapeTypeName(name)]| == |rust| + 2;
  }

  lemma {:induction false} EmptyBest(paths: seq<ExternPath>, n: nat, fqn: string)
    requires n <= |paths|
    requires forall i | 0 <= i < |paths| :: Covers(paths[i].0, fqn) <==> Covers(paths[i].0, ".")
    ensures Best(paths, n, fqn) == Best(paths, n, ".")
  {
    if n > 0 { EmptyBest(paths, n - 1, fqn); }
  }

  /** Every top-level type without an entry of its own follows its package, unless the empty prefix decides. */
  lemma TypeExtendsPackage(package: string, name: string, paths: seq<ExternPath>)
    requires ValidNames(package, name) && name != ""
    requires forall i | 0 <= i < |paths| :: paths[i].0 != TypeFqn(package, name)
    ensures ResolveType(TypeFqn(package, name), paths) ==
            WithType(ResolvePrefix(package, paths), name)
            <==> !(package == "" && (exists i | 0 <= i < |paths| :: paths[i].0 == "")
                   && (forall i | 0 <= i < |paths| :: paths[i].0 != "."))
  {
    if package != "" {
      TypeFollowsPackage(package, name, paths);
    } else if exists i | 0 <= i < |paths| :: paths[i].0 == "." {
      RootEntryDecides(name, paths);
    } else if exists i | 0 <= i < |paths| :: paths[i].0 == "" {
      EmptyEntryDecides(name, paths);
    } else {
      UnnamedPackage(name, paths, |paths|);
      assert "." + "" == ".";
    }
  }

  /** An empty prefix alone sends the unnamed package to `rust::` and its types to `rust::T`. */
  lemma EmptyPrefixAlone(rust: Path, name: string)
    requires '.' !in name && name != ""
    ensures var paths := [("", rust)];
            ResolvePrefix("", paths) == Some(rust + [""]) &&
            ResolveType("." + name, paths) == Some(rust + [EscapeTypeName(name)])
  {
    var fqn, paths := "." + name, [("", rust)];
    assert "." + "" == "." && fqn[1..] == name;
    SplitOne(name);
    SplitOne("");
    UnnamedPackage(name, paths, 1);
    EmptyBest(paths, 1, fqn);
    OnlyType(rust, name);
    assert Covers(paths[0].0, ".");
    assert Best(paths, 1, ".") == Some(0);
    assert Modules([""]) == [""];
  }

  /** The exception at the concrete list `[("", x)]`. */
  lemma EmptyPrefixExample()
    ensures var paths := [("", ["x"])];
            ResolvePrefix("", paths) == Some(["x", ""]) && ResolveType(".self", paths) == Some(["x", "self_"])
  {
    EmptyPrefixAlone(["x"], "self");
    assert "." + "self" == ".self" && EscapeTypeName("self") == "self_";
    assert ["x"] + [""] == ["x", ""] && ["x"] + ["self_"] == ["x", "self_"];
  }

  // ----- the longest entry decides -----

  /** The entry names a proper ancestor of `fqn`, or is the catch-all. */
  predicate NamesAncestor(prefix: string, fqn: string) {
    prefix == "." || prefix + "." <= fqn
  }

  lemma CoversIs(prefix: string, fqn: string)
    ensures Covers(prefix, fqn) <==> NamesAncestor(prefix, fqn)
  {
    if Covers(prefix, fqn) && prefix != "." { assert fqn[..|prefix| + 1] == prefix + "."; }
  }

  /** Entry `i` is the first among the longest that name an ancestor. */
  ghost predicate Decides(paths: seq<ExternPath>, i: nat, fqn: string) {
    && i < |paths| && NamesAncestor(paths[i].0, fqn)
    && forall j | 0 <= j < |paths| && NamesAncestor(paths[j].0, fqn) ::
         |paths[j].0| < |paths[i].0| || (|paths[j].0| == |paths[i].0| && i <= j)
  }

  lemma BestDecides(paths: seq<ExternPath>, fqn: string)
    ensures match Best(paths, |paths|, fqn)
            case Some(i) => Decides(paths, i, fqn)
            case None => forall i | 0 <= i < |paths| :: !NamesAncestor(paths[i].0, fqn)
  {
    forall i | 0 <= i < |paths| ensures Covers(paths[i].0, fqn) <==> NamesAncestor(paths[i].0, fqn) {
      CoversIs(paths[i].0, fqn);
    }
  }

  /** `fqn` is the prefix and then the names `below`. */
  ghost predicate HangsBelow(prefix: string, fqn: string, below: seq<string>) {
    && |below| > 0 && (forall k | 0 <= k < |below| :: '.' !in below[k])
    && fqn == (if prefix == "." then "." else prefix + ".") + Join(below)
  }

  lemma BelowEntry(prefix: string, fqn: string, below: seq<string>)
    requires HangsBelow(prefix, fqn, below)
    ensures Covers(prefix, fqn) && Split(Remainder(prefix, fqn)) == below
  {
    SplitJoin(below);
    assert Remainder(prefix, fqn) == Join(below);
  }

  /** The path is `root`, and then the first `n` names in snake_case. */
  ghost predicate GoesOn(path: Path, root: Path, names: seq<string>, n: nat)
    requires n <= |names|
  {
    root <= path && |root| + n <= |path| && forall k | 0 <= k < n :: path[|root| + k] == ToSnakeCase(names[k])
  }

  /**
    A type without an entry of its own: the Rust path of the longest entry that names one of its ancestors, the
    names in between as modules, and its own name escaped; or nothing when there is no such entry.
   */
  lemma TypeByEntry(fqn: string, paths: seq<ExternPath>, i: nat, below: seq<string>)
    requires "." <= fqn && Exact(paths, fqn).None?
    requires Decides(paths, i, fqn) && HangsBelow(paths[i].0, fqn, below)
    ensures
      var r, root, last := ResolveType(fqn, paths), paths[i].1, |below| - 1;
      && r.Some? && GoesOn(r.value, root, below, last)
      && |r.value| == |root| + |below| && r.value[|root| + last] == EscapeTypeName(below[last])
  {
    FoundIs(paths, i, fqn);
    BelowEntry(paths[i].0, fqn, below);
    TypeAt(fqn, paths, i, below);
  }

  lemma TypeAt(fqn: string, paths: seq<ExternPath>, i: nat, below: seq<string>)
    requires "." <= fqn && Exact(paths, fqn).None? && Best(paths, |paths|, fqn) == Some(i)
    requires |below| > 0 && Split(Remainder(paths[i].0, fqn)) == below
    ensures
      var last := |below| - 1;
      ResolveType(fqn, paths) == Some(paths[i].1 + Modules(below[..last]) + [EscapeTypeName(below[last])])
  {
  }

  lemma FoundIs(paths: seq<ExternPath>, i: nat, fqn: string)
    requires Decides(paths, i, fqn)
    ensures Best(paths, |paths|, fqn) == Some(i)
  {
    BestDecides(paths, fqn);
  }

  /** The same for a package: all names below the entry become modules. */
  lemma PackageByEntry(package: string, paths: seq<ExternPath>, i: nat, below: seq<string>)
    requires forall j | 0 <= j < |paths| :: paths[j].0 != "." + package
    requires Decides(paths, i, "." + package) && HangsBelow(paths[i].0, "." + package, below)
    requires Join(below) != "" && Join(below)[0] != '.'
    ensures
      var r, root := ResolvePrefix(package, paths), paths[i].1;
      r.Some? && GoesOn(r.value, root, below, |below|) && |r.value| == |root| + |below|
  {
    FoundIs(paths, i, "." + package);
    BelowEntry(paths[i].0, "." + package, below);
    JoinSplit(Remainder(paths[i].0, "." + package));
  }

  /** Without an entry for the name or an ancestor nothing is resolved; an entry for the name itself comes first. */
  lemma ResolvedExactly(fqn: string, paths: seq<ExternPath>)
    requires "." <= fqn
    ensures ResolveType(fqn, paths).Some? <==>
            exists i | 0 <= i < |paths| :: paths[i].0 == fqn || NamesAncestor(paths[i].0, fqn)
    ensures forall i | 0 <= i < |paths| && paths[i].0 == fqn && forall j | 0 <= j < i :: paths[j].0 != fqn ::
              ResolveType(fqn, paths) == Some(paths[i].1)
  {
    BestDecides(paths, fqn);
  }
}
