/** What a rule of the override pass matches, stated on the segments of names. */
module RuleNames {
  import opened Text
  import opened Segments
  import opened Descriptors
  import opened ExternPaths
  import opened FeatureOverrides
  import opened FeatureRouting
  import opened FeatureMeaning
  import FT = FeatureTargets

  /** A rule as it is written: white space, a name, trailing dots, white space. */
  ghost predicate IsForm(rule: string, left: string, name: string, dots: nat, right: string) {
    && rule == left + name + Repeat('.', dots) + right && IsBlank(left) && IsBlank(right)
    && (name != "" ==> !IsWhiteSpace(name[0]) && name[|name| - 1] != '.')
    && (name != "" && dots == 0 ==> !IsWhiteSpace(name[|name| - 1]))
  }

  lemma {:induction false} DotsEnd(s: string) returns (n: nat)
    ensures n <= |s| && s[n..] == Repeat('.', |s| - n) && (n > 0 ==> s[n - 1] != '.')
    ensures TrimEndDots(s) == s[..n]
  {
    n := |s|;
    if s != "" && s[|s| - 1] == '.' {
      n := DotsEnd(s[..|s| - 1]);
      assert s[n..] == s[..|s| - 1][n..] + ['.'];
      assert s[..|s| - 1][..n] == s[..n];
    } else {
      assert s[..|s|] == s;
    }
  }

  /** Every rule has such a form. */
  lemma RuleForm(rule: string) returns (left: string, name: string, dots: nat, right: string)
    ensures IsForm(rule, left, name, dots, right)
  {
    var i := BlankStart(rule);
    var rest := rule[i..];
    var j := BlankEnd(rest);
    var middle := rest[..j];
    var n := DotsEnd(middle);
    left, name, dots, right := rule[..i], middle[..n], j - n, rest[j..];
    FormJoins(rule, left, rest, middle, name, dots, right);
    FirstAndLast(rest, middle, j, name, n);
  }

  lemma FormJoins(rule: string, left: string, rest: string, middle: string, name: string, dots: nat, right: string)
    requires rule == left + rest && rest == middle + right && middle == name + Repeat('.', dots)
    ensures rule == left + name + Repeat('.', dots) + right
  {
    ConcatIsAssociative(left, middle, right);
    ConcatIsAssociative(left, name, Repeat('.', dots));
  }

  lemma FirstAndLast(rest: string, middle: string, j: nat, name: string, n: nat)
    requires n <= j <= |rest| && middle == rest[..j] && name == middle[..n]
    ensures name != "" ==> name[0] == rest[0] && name[n - 1] == middle[n - 1] == rest[n - 1]
  {
  }

  lemma {:induction false} DotsAreTrimmed(name: string, dots: nat)
    requires name != "" ==> name[|name| - 1] != '.'
    ensures TrimEndDots(name + Repeat('.', dots)) == name
  {
    var s := name + Repeat('.', dots);
    if dots > 0 {
      assert s[..|s| - 1] == name + Repeat('.', dots - 1);
      DotsAreTrimmed(name, dots - 1);
    } else {
      assert s == name;
    }
  }

  lemma Normalized(rule: string, left: string, name: string, dots: nat, right: string)
    requires IsForm(rule, left, name, dots, right)
    ensures Trim(rule) == name + Repeat('.', dots) && TrimEndDots(Trim(rule)) == name
  {
    var middle := name + Repeat('.', dots);
    assert rule == left + middle + right;
    assert middle != "" ==> middle[0] == if name == "" then '.' else name[0];
    assert middle != "" ==> middle[|middle| - 1] == if dots == 0 then name[|name| - 1] else '.';
    TrimIs(rule, left, middle, right);
    DotsAreTrimmed(name, dots);
  }

  function WithoutDot(name: string): string { if "." <= name then name[1..] else name }

  /**
    The rule `.` matches every path, and another rule without a name matches none. A rule with a name, with or
    without its leading dot, matches a path exactly when its segments begin those of the path.
   */
  lemma RuleMeans(rule: string, left: string, name: string, dots: nat, right: string, q: string)
    requires IsForm(rule, left, name, dots, right) && "." <= q
    ensures RuleMatchesOne(rule, q) <==>
            if name == "" then dots == 1 else Split(WithoutDot(name)) <= Split(q[1..])
  {
    Normalized(rule, left, name, dots, right);
    NotJustADot(name, dots);
    if name == "" {
      assert name + Repeat('.', dots) == Repeat('.', dots);
    } else {
      NamedMeans(name, q);
    }
  }

  lemma NotJustADot(name: string, dots: nat)
    requires name != "" ==> name[|name| - 1] != '.'
    ensures name + Repeat('.', dots) == "." <==> name == "" && dots == 1
  {
    var s := name + Repeat('.', dots);
    assert name != "" ==> s[|name| - 1] != '.';
    assert |s| == |name| + dots;
  }

  lemma NamedMeans(name: string, q: string)
    requires name != "" && name[|name| - 1] != '.' && "." <= q
    ensures MatchesProtoPrefix(if "." <= name then name else WithoutDot(name), if "." <= name then q else q[1..])
            <==> Split(WithoutDot(name)) <= Split(q[1..])
  {
    assert WithoutDot(name) != "." by {
      assert WithoutDot(name) != "" ==> WithoutDot(name)[|WithoutDot(name)| - 1] != '.';
    }
    PrefixMeans(WithoutDot(name), q[1..]);
    if "." <= name {
      assert q == "." + q[1..] && name == "." + name[1..];
      DottedPrefix(name[1..], q[1..]);
    }
  }

  lemma PrefixMeans(name: string, q: string)
    requires name != "."
    ensures MatchesProtoPrefix(name, q) <==> Split(name) <= Split(q)
  {
    SplitLe(name, q);
    assert name <= q && |name| < |q| && q[|name|] == '.' <==> name + "." <= q;
  }

  lemma DottedPrefix(name: string, q: string)
    requires name != "" && name != "."
    ensures MatchesProtoPrefix("." + name, "." + q) <==> MatchesProtoPrefix(name, q)
  {
    var a, b := "." + name, "." + q;
    assert a[1..] == name && b[1..] == q;
    assert a <= b <==> name <= q;
    assert |name| < |q| ==> b[|a|] == q[|name|];
  }

  // ----- the rule `.` -----

  /** `.`, with any white space around it. */
  ghost predicate IsRootRule(rule: string) {
    exists left, right :: IsForm(rule, left, "", 1, right)
  }

  lemma RootMatchesAll(rules: seq<string>, rule: string, q: string)
    requires IsRootRule(rule) && rule in rules
    ensures RuleMatchesOne(rule, q) && AnyMatch(rules, q)
  {
    var left, right :| IsForm(rule, left, "", 1, right);
    Normalized(rule, left, "", 1, right);
    assert Repeat('.', 1) == ".";
    var i :| 0 <= i < |rules| && rules[i] == rule;
    assert RuleMatchesOne(rules[i], q);
  }

  /** Where an enum-typed field stands. */
  lemma SpotIs(files: seq<File>, s: Spot)
    requires s.file < |files| && s.top < |files[s.file].messages|
    requires var m := MessageAt(files[s.file].messages[s.top], s.place);
             && m.Some? && s.field < |m.value.fields|
             && var f := m.value.fields[s.field];
                f.fieldType == TypeEnum && f.name.Some? && f.typeName.Some?
    ensures IsSpot(files, s)
  {
  }

  /** With the rule `.` in the list, every enum-typed field resolves open after the pass. */
  lemma RootOpensAll(rules: seq<string>, rule: string, files: seq<File>, s: Spot, parentClosed: bool)
    requires IsRootRule(rule) && rule in rules && IsSpot(files, s)
    ensures OpenAfter(rules, files, s, parentClosed)
  {
    RoutingDecides(rules, files, s, parentClosed);
    RootMatchesAll(rules, rule, HomeOf(files, s).inner + FieldOf(files, s).name.value);
  }

  lemma {:induction false} FirstSuggested(h: Home, e: Message, i: nat) returns (k: nat)
    requires FT.SuggestsAt(h, e, i)
    ensures k <= i && FT.SuggestsAt(h, e, k) && forall j | 0 <= j < k :: !FT.SuggestsAt(h, e, j)
  {
    if j :| 0 <= j < i && FT.SuggestsAt(h, e, j) { k := FirstSuggested(h, e, j); } else { k := i; }
  }

  /** The rule `.` is reported as unmatched only when there is nothing that a rule could be meant for. */
  lemma RootReported(rules: seq<string>, rule: string, files: seq<File>, q: string)
    requires IsRootRule(rule) && rule in rules && FT.AllValidNames(files)
    requires rule in FT.Reported(rules, files)
    ensures !FT.IsTarget(files, q)
  {
    var queried := QueriedFiles(rules, LocalEnums(files), files);
    FT.FL.UnmatchedHolds(rules, queried, rule);
    if FT.IsTarget(files, q) {
      var p := RootLooksUp(rules, rule, files, q);
      RootMatchesAll(rules, rule, p);
    }
  }

  lemma RootLooksUp(rules: seq<string>, rule: string, files: seq<File>, q: string) returns (p: string)
    requires IsRootRule(rule) && rule in rules && FT.AllValidNames(files) && FT.IsTarget(files, q)
    ensures p in QueriedFiles(rules, LocalEnums(files), files)
  {
    p := q;
    if q !in FT.EnumTargets(files) {
      var h, f, e :| h in AllHomes(files) && e in h.msg.nested && f in h.msg.fields &&
        FT.IsEnumMap(h, f, e) && q == h.inner + f.name.value;
      var i :| 0 <= i < |h.msg.fields| && h.msg.fields[i] == f;
      FT.MapFieldIsSuggested(files, h, f, e.name.value);
      var k := FirstSuggested(h, e, i);
      p := h.inner + h.msg.fields[k].name.value;
      RootMatchesAll(rules, rule, p);
      FT.FirstIsRouted(rules, h, e, k);
    }
    FT.LookupsAre(rules, files, p);
  }

  // ----- type names of map entries -----

  /** A type name names an entry of a message when its last two segments are the message's and the entry's name. */
  lemma EntryIsTail(typeName: string, msgName: string, entry: string)
    requires '.' !in msgName && '.' !in entry
    ensures
      var segments := Split(typeName);
      NamesEntry(typeName, msgName, entry) <==>
      |segments| >= 2 && segments[|segments| - 1] == entry && segments[|segments| - 2] == msgName
  {
    var segments := Split(typeName);
    if NamesEntry(typeName, msgName, entry) { EntrySegments(typeName, msgName, entry); }
    if |segments| >= 2 && segments[|segments| - 1] == entry && segments[|segments| - 2] == msgName {
      JoinSplit(typeName);
      TailOfJoin(segments, msgName, entry);
    }
  }

  lemma EntrySegments(typeName: string, msgName: string, entry: string)
    requires '.' !in msgName && '.' !in entry && NamesEntry(typeName, msgName, entry)
    ensures exists before :: Split(typeName) == before + [msgName, entry]
  {
    var tail := msgName + "." + entry;
    SplitOne(msgName);
    SplitLast(msgName, entry);
    assert Split(tail) == [msgName, entry];
    if typeName == tail {
      assert Split(typeName) == [] + [msgName, entry];
    } else {
      var scope := typeName[..|typeName| - |tail| - 1];
      assert typeName == scope + "." + tail;
      SplitConcat(scope, tail);
    }
  }

  lemma TailOfJoin(segments: seq<string>, a: string, b: string)
    requires |segments| >= 2 && segments[|segments| - 1] == b && segments[|segments| - 2] == a
    ensures NamesEntry(Join(segments), a, b)
  {
    var n := |segments|;
    JoinPair(a, b);
    if n == 2 {
      assert segments == [a, b];
      Unscoped(a, b);
    } else {
      var before := segments[..n - 2];
      assert segments == before + [a, b];
      JoinAppend(before, [a, b]);
      BehindScope(Join(before), a, b);
    }
  }

  lemma Unscoped(a: string, b: string)
    ensures NamesEntry(a + "." + b, a, b)
  {
  }

  lemma JoinPair(a: string, b: string)
    ensures Join([a, b]) == a + "." + b
  {
    assert [a, b][..1] == [a];
  }

  lemma BehindScope(scope: string, a: string, b: string)
    ensures NamesEntry(scope + "." + (a + "." + b), a, b)
  {
    var t, tail := scope + "." + (a + "." + b), a + "." + b;
    assert t[|t| - |tail|..] == tail && t[|scope|] == '.';
  }
}
