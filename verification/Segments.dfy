/** Dotted proto names as sequences of segments. */
module Segments {

  /** `s.split('.')`. */
  function Split(s: string): (r: seq<string>)
    ensures |r| > 0
  {
    if s == "" then [""]
    else
      var init, c := Split(s[..|s| - 1]), s[|s| - 1];
      if c == '.' then init + [""] else init[..|init| - 1] + [init[|init| - 1] + [c]]
  }

  lemma {:induction false} SplitLast(a: string, b: string)
    requires '.' !in b
    ensures Split(a + "." + b) == Split(a) + [b]
  {
    var s := a + "." + b;
    if b == "" {
      assert s[..|s| - 1] == a;
    } else {
      var b' := b[..|b| - 1];
      SplitLast(a, b');
      assert s[..|s| - 1] == a + "." + b';
      assert b == b' + [b[|b| - 1]];
    }
  }

  lemma {:induction false} SplitOne(b: string)
    requires '.' !in b
    ensures Split(b) == [b]
  {
    if b != "" {
      SplitOne(b[..|b| - 1]);
      assert b == b[..|b| - 1] + [b[|b| - 1]];
    }
  }

  function Join(segments: seq<string>): string
    requires |segments| > 0
  {
    if |segments| == 1 then segments[0]
    else Join(segments[..|segments| - 1]) + "." + segments[|segments| - 1]
  }

  lemma {:induction false} SplitHasNoDots(s: string)
    ensures forall i | 0 <= i < |Split(s)| :: '.' !in Split(s)[i]
  {
    if s != "" { SplitHasNoDots(s[..|s| - 1]); }
  }

  lemma {:induction false} JoinSplit(s: string)
    ensures Join(Split(s)) == s
  {
    if s != "" {
      var init, c := s[..|s| - 1], s[|s| - 1];
      JoinSplit(init);
      assert s == init + [c];
      var p := Split(init);
      if c == '.' {
        assert (p + [""])[..|p|] == p;
      } else {
        var q := p[..|p| - 1] + [p[|p| - 1] + [c]];
        assert q[..|q| - 1] == p[..|p| - 1];
        assert Split(s) == q;
        if |p| > 1 { assert Join(q) == Join(p[..|p| - 1]) + "." + (p[|p| - 1] + [c]); }
      }
    }
  }

  lemma {:induction false} SplitJoin(segments: seq<string>)
    requires |segments| > 0 && forall i | 0 <= i < |segments| :: '.' !in segments[i]
    ensures Split(Join(segments)) == segments
  {
    var init, last := segments[..|segments| - 1], segments[|segments| - 1];
    if |segments| == 1 {
      SplitOne(last);
    } else {
      SplitJoin(init);
      SplitLast(Join(init), last);
      assert segments == init + [last];
    }
  }

  lemma {:induction false} JoinAppend(a: seq<string>, b: seq<string>)
    requires |a| > 0 && |b| > 0
    ensures Join(a + b) == Join(a) + "." + Join(b)
  {
    var last := b[|b| - 1];
    if |b| == 1 {
      assert (a + b)[..|a + b| - 1] == a;
    } else {
      JoinAppend(a, b[..|b| - 1]);
      assert (a + b)[..|a + b| - 1] == a + b[..|b| - 1];
    }
  }

  lemma SplitInjective(p: string, q: string)
    requires Split(p) == Split(q)
    ensures p == q
  {
    JoinSplit(p);
    JoinSplit(q);
  }

  lemma SplitTail(p: string, q: string)
    requires Split(p) < Split(q)
    ensures q == p + "." + Join(Split(q)[|Split(p)|..])
    ensures Split(Join(Split(q)[|Split(p)|..])) == Split(q)[|Split(p)|..]
  {
    var a, b := Split(p), Split(q)[|Split(p)|..];
    assert Split(q) == a + b;
    JoinSplit(p);
    JoinSplit(q);
    JoinAppend(a, b);
    SplitHasNoDots(q);
    forall i | 0 <= i < |b| ensures '.' !in b[i] { assert b[i] == Split(q)[|a| + i]; }
    SplitJoin(b);
  }

  lemma SplitConcat(a: string, b: string)
    ensures Split(a + "." + b) == Split(a) + Split(b)
  {
    JoinSplit(a);
    JoinSplit(b);
    JoinAppend(Split(a), Split(b));
    SplitHasNoDots(a);
    SplitHasNoDots(b);
    var s := Split(a) + Split(b);
    forall i | 0 <= i < |s| ensures '.' !in s[i] {
      assert s[i] == if i < |Split(a)| then Split(a)[i] else Split(b)[i - |Split(a)|];
    }
    SplitJoin(s);
  }

  /** The segments of `a` begin those of `b`: the same string, or `a`, a dot, and more. */
  lemma SplitLe(a: string, b: string)
    ensures Split(a) <= Split(b) <==> a == b || a + "." <= b
  {
    if a + "." <= b {
      var rest := b[|a| + 1..];
      assert b == a + "." + rest;
      SplitConcat(a, rest);
    }
    if Split(a) <= Split(b) {
      if Split(a) == Split(b) { SplitInjective(a, b); } else { SplitPrefix(a, b); }
    }
  }

  /** When the segments of `p` start those of `q`, then `q` is `p`, a dot, and the rest. */
  lemma SplitPrefix(p: string, q: string)
    requires Split(p) < Split(q)
    ensures p + "." <= q
    ensures Split(q[|p| + 1..]) == Split(q)[|Split(p)|..]
  {
    SplitTail(p, q);
    var rest := Join(Split(q)[|Split(p)|..]);
    assert (p + "." + rest)[|p| + 1..] == rest;
  }
}
