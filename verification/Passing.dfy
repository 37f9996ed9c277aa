/**
 Left-to-right rewriting by a function that finds a match at the front of a text
 and says whether to pass over it as it is or to replace a part of it.
 */
module Passing {
  import opened Rewriting

  /** Nothing starts here; a match stays as it is; or what lies from keep to skip in it gives way. */
  datatype Found = Nothing | Leave(len: nat) | Replace(keep: nat, skip: nat, end: nat)
  {
    predicate Fits(t: string) {
      && (Leave? ==> 0 < len <= |t|)
      && (Replace? ==> 0 < keep <= skip <= end <= |t|)
    }

    /** How much of the match is sure to stay. */
    function Kept(): nat {
      match this
      case Nothing => 0
      case Leave(n) => n
      case Replace(k, _, _) => k
    }
  }

  function FindNothing(t: string): Found {
    Nothing
  }

  type Searcher = f: string -> Found | forall t :: f(t).Fits(t) witness FindNothing

  function Pass(find: Searcher, marker: string, t: string): string
    decreases |t|
  {
    if t == [] then []
    else
      var f := find(t);
      assert f.Fits(t);
      match f
      case Nothing => [t[0]] + Pass(find, marker, t[1..])
      case Leave(n) => t[..n] + Pass(find, marker, t[n..])
      case Replace(keep, skip, end) => t[..keep] + (marker + (t[skip..end] + Pass(find, marker, t[end..])))
  }

  /** How many matches lose their part. */
  function Replaced(find: Searcher, t: string): nat
    decreases |t|
  {
    if t == [] then 0
    else
      var f := find(t);
      assert f.Fits(t);
      match f
      case Nothing => Replaced(find, t[1..])
      case Leave(n) => Replaced(find, t[n..])
      case Replace(_, _, end) => 1 + Replaced(find, t[end..])
  }

  lemma UnfoldNothing(find: Searcher, marker: string, t: string)
    requires t != [] && find(t).Nothing?
    ensures Pass(find, marker, t) == [t[0]] + Pass(find, marker, t[1..]) && Replaced(find, t) == Replaced(find, t[1..])
  {}

  lemma UnfoldLeave(find: Searcher, marker: string, t: string, n: nat)
    requires find(t) == Leave(n)
    ensures 0 < n <= |t|
    ensures Pass(find, marker, t) == t[..n] + Pass(find, marker, t[n..]) && Replaced(find, t) == Replaced(find, t[n..])
  {
    assert find(t).Fits(t);
  }

  lemma UnfoldReplace(find: Searcher, marker: string, t: string, f: Found)
    requires find(t) == f && f.Replace?
    ensures f.Fits(t)
    ensures Pass(find, marker, t) == t[..f.keep] + (marker + (t[f.skip..f.end] + Pass(find, marker, t[f.end..])))
    ensures Replaced(find, t) == 1 + Replaced(find, t[f.end..])
  {
    assert find(t).Fits(t);
  }

  /** The same with the pieces of the text named. */
  lemma ReplacedIs(find: Searcher, marker: string, t: string, f: Found, front: string, close: string, rest: string)
    requires find(t) == f && f.Replace? && f.Fits(t)
    requires t[..f.keep] == front && t[f.skip..f.end] == close && t[f.end..] == rest
    ensures Pass(find, marker, t) == front + (marker + (close + Pass(find, marker, rest)))
  {
    UnfoldReplace(find, marker, t, f);
  }

  /** A pass keeps the front of a text: its first character, and so whether there is any. */
  lemma FirstStays(find: Searcher, marker: string, t: string)
    ensures Pass(find, marker, t) == [] <==> t == []
    ensures t != [] ==> Pass(find, marker, t)[0] == t[0]
  {
    if t != [] {
      assert find(t).Fits(t);
    }
  }

  /** Past a character at which nothing starts, so does the next one. */
  lemma SecondStays(find: Searcher, marker: string, t: string)
    requires t != [] && find(t).Nothing?
    ensures var r := Pass(find, marker, t); (|r| > 1 <==> |t| > 1) && (|t| > 1 ==> r[1] == t[1])
  {
    UnfoldNothing(find, marker, t);
    FirstStays(find, marker, t[1..]);
  }

  ghost predicate NothingUpTo(find: Searcher, t: string, n: nat) {
    n <= |t| && forall i :: 0 <= i < n ==> find(t[i..]).Nothing?
  }

  lemma {:induction false} CopyNothing(find: Searcher, marker: string, t: string, n: nat)
    requires NothingUpTo(find, t, n)
    ensures n <= |t| && Pass(find, marker, t) == t[..n] + Pass(find, marker, t[n..])
    ensures Replaced(find, t) == Replaced(find, t[n..])
    decreases n
  {
    if n == 0 {
      assert t[0..] == t;
    } else {
      assert t[0..] == t;
      forall i | 0 <= i < n - 1 ensures find(t[1..][i..]).Nothing? { assert t[1..][i..] == t[i + 1..]; }
      UnfoldNothing(find, marker, t);
      CopyNothing(find, marker, t[1..], n - 1);
      TakeCons(t, n, Pass(find, marker, t[n..]));
    }
  }

  // ------------------------------------------------------------ prefixes

  /** What a match keeps is nowhere in w, not even cut off by its end. */
  ghost predicate Blind(find: Searcher, w: string) {
    forall x, j: nat {:trigger BlindAt(x, find(x), w, j)} :: BlindAt(x, find(x), w, j)
  }

  predicate BlindAt(x: string, f: Found, w: string, j: nat) {
    j <= |w| && f.Fits(x) && !f.Nothing? ==> !(x[..f.Kept()] <= w[j..])
  }

  lemma BlindTail(find: Searcher, w: string)
    requires w != [] && Blind(find, w)
    ensures Blind(find, w[1..])
  {
    forall x, j: nat ensures BlindAt(x, find(x), w[1..], j) {
      if j <= |w[1..]| {
        assert w[1..][j..] == w[j + 1..];
        assert BlindAt(x, find(x), w, j + 1);
      }
    }
  }

  lemma PrefixWithin(t: string, keep: nat, rest: string, w: string)
    requires keep <= |t| && !(t[..keep] <= w)
    ensures w <= t[..keep] + rest <==> w <= t
  {
    var f := t[..keep] + rest;
    if |w| <= keep {
      assert f[..|w|] == t[..keep][..|w|] == t[..|w|];
    } else {
      assert |w| <= |f| ==> f[..|w|][..keep] == t[..keep];
      assert |w| <= |t| ==> t[..|w|][..keep] == t[..keep];
    }
  }

  /** Text that no match can keep a part of stands at the front exactly when it did before. */
  lemma {:induction false} PrefixPasses(find: Searcher, marker: string, t: string, w: string)
    requires Blind(find, w)
    ensures w <= Pass(find, marker, t) <==> w <= t
    decreases |t|
  {
    if w != [] && t != [] {
      var f := find(t);
      assert f.Fits(t);
      if f.Nothing? {
        BlindTail(find, w);
        PrefixPasses(find, marker, t[1..], w[1..]);
        UnfoldNothing(find, marker, t);
        PrefixCons(w, t);
        PrefixCons(w, [t[0]] + Pass(find, marker, t[1..]));
        assert ([t[0]] + Pass(find, marker, t[1..]))[1..] == Pass(find, marker, t[1..]);
      } else {
        assert BlindAt(t, f, w, 0) && w[0..] == w;
        var rest := if f.Leave? then Pass(find, marker, t[f.len..])
          else marker + (t[f.skip..f.end] + Pass(find, marker, t[f.end..]));
        assert Pass(find, marker, t) == t[..f.Kept()] + rest;
        PrefixWithin(t, f.Kept(), rest, w);
      }
    }
  }

  lemma {:induction false} PrefixPassesAfter(find: Searcher, marker: string, a: string, y: string, w: string)
    requires Blind(find, w)
    ensures w <= a + Pass(find, marker, y) <==> w <= a + y
    decreases |a|
  {
    if a == [] {
      assert a + y == y && a + Pass(find, marker, y) == Pass(find, marker, y);
      PrefixPasses(find, marker, y, w);
    } else if w != [] {
      BlindTail(find, w);
      PrefixPassesAfter(find, marker, a[1..], y, w[1..]);
      PrefixCons(w, a + y);
      PrefixCons(w, a + Pass(find, marker, y));
      assert (a + y)[1..] == a[1..] + y && (a + Pass(find, marker, y))[1..] == a[1..] + Pass(find, marker, y);
    }
  }

  // ------------------------------------------------------------ what a pass leaves alone

  /** Where e finds nothing at the front of a text, it finds nothing there once the rest of the text is passed. */
  ghost predicate ReflectsRest(e: Finder, find: Searcher, marker: string) {
    forall a, y :: ReflectsRestAt(e, find, marker, a, y)
  }

  ghost predicate ReflectsRestAt(e: Finder, find: Searcher, marker: string, a: string, y: string) {
    e(a + y).None? ==> e(a + Pass(find, marker, y)).None?
  }

  /** Replacing a match of a text e finds nothing in gives e nothing to find. */
  ghost predicate ShieldsMatch(e: Finder, find: Searcher, marker: string) {
    forall t, z :: ShieldsMatchAt(e, find, marker, t, z)
  }

  ghost predicate ShieldsMatchAt(e: Finder, find: Searcher, marker: string, t: string, z: string) {
    var f := find(t);
    f.Replace? && f.Fits(t) && StableFor(e, t) && StableFor(e, z)
    ==> StableFor(e, t[..f.keep] + (marker + (t[f.skip..f.end] + z)))
  }

  lemma StableAfterLeave(e: Finder, find: Searcher, marker: string, t: string, n: nat)
    requires ReflectsRest(e, find, marker) && n <= |t| && StableFor(e, t) && StableFor(e, Pass(find, marker, t[n..]))
    ensures StableFor(e, t[..n] + Pass(find, marker, t[n..]))
  {
    forall i | 0 <= i < n ensures e(t[..n][i..] + Pass(find, marker, t[n..])).None? {
      assert t[..n][i..] + t[n..] == t[i..];
      assert ReflectsRestAt(e, find, marker, t[..n][i..], t[n..]);
    }
    StableJoin(e, t[..n], Pass(find, marker, t[n..]));
  }

  /** A pass leaves a text in which e finds nothing such a text. */
  lemma {:induction false} PassKeepsStable(e: Finder, find: Searcher, marker: string, t: string)
    requires ReflectsRest(e, find, marker) && ShieldsMatch(e, find, marker) && StableFor(e, t)
    ensures StableFor(e, Pass(find, marker, t))
    decreases |t|
  {
    if t != [] {
      var f := find(t);
      assert f.Fits(t);
      match f
      case Nothing =>
        StableSuffix(e, t, 1);
        PassKeepsStable(e, find, marker, t[1..]);
        assert [t[0]] == t[..1];
        StableAfterLeave(e, find, marker, t, 1);
      case Leave(n) =>
        StableSuffix(e, t, n);
        PassKeepsStable(e, find, marker, t[n..]);
        StableAfterLeave(e, find, marker, t, n);
      case Replace(_, _, end) =>
        StableSuffix(e, t, end);
        PassKeepsStable(e, find, marker, t[end..]);
        assert ShieldsMatchAt(e, find, marker, t, Pass(find, marker, t[end..]));
    }
  }

  // ------------------------------------------------------------ a second pass

  /** After a pass every match is one to pass over, and nothing new has become one. */
  predicate SettledAt(find: Searcher, marker: string, t: string) {
    var f, g := find(t), find(Pass(find, marker, t));
    && (t != [] && f.Nothing? ==> g.Nothing?)
    && (f.Leave? ==> g == f)
    && (f.Replace? && f.Fits(t) ==> g == Leave(f.keep + |marker| + (f.end - f.skip)))
  }

  ghost predicate Settles(find: Searcher, marker: string) {
    forall t :: SettledAt(find, marker, t)
  }

  /** A second pass changes and replaces nothing. */
  lemma {:induction false} SecondPassIsClean(find: Searcher, marker: string, t: string)
    requires Settles(find, marker)
    ensures Pass(find, marker, Pass(find, marker, t)) == Pass(find, marker, t)
    ensures Replaced(find, Pass(find, marker, t)) == 0
    decreases |t|
  {
    if t != [] {
      var f, r := find(t), Pass(find, marker, t);
      assert SettledAt(find, marker, t) && f.Fits(t);
      var n := if f.Nothing? then 1 else if f.Leave? then f.len else f.end;
      SecondPassIsClean(find, marker, t[n..]);
      var front := if f.Replace? then t[..f.keep] + (marker + t[f.skip..f.end]) else t[..n];
      FrontOfPass(find, marker, t, n, front);
      SecondStep(find, marker, r, front, Pass(find, marker, t[n..]));
    }
  }

  lemma FrontOfPass(find: Searcher, marker: string, t: string, n: nat, front: string)
    requires t != [] && find(t).Fits(t)
    requires var f := find(t);
      && n == (if f.Nothing? then 1 else if f.Leave? then f.len else f.end)
      && front == if f.Replace? then t[..f.keep] + (marker + t[f.skip..f.end]) else t[..n]
    ensures Pass(find, marker, t) == front + Pass(find, marker, t[n..]) && front != []
  {
    var f, rest := find(t), Pass(find, marker, t[n..]);
    if f.Replace? {
      assert t[..f.keep] + (marker + (t[f.skip..f.end] + rest)) == t[..f.keep] + (marker + t[f.skip..f.end]) + rest;
    } else if f.Nothing? {
      assert t[..1] == [t[0]];
    }
  }

  lemma SecondStep(find: Searcher, marker: string, r: string, front: string, rest: string)
    requires r == front + rest && front != [] && Pass(find, marker, rest) == rest && Replaced(find, rest) == 0
    requires (find(r).Nothing? && |front| == 1) || find(r) == Leave(|front|)
    ensures Pass(find, marker, r) == r && Replaced(find, r) == 0
  {
    assert r[|front|..] == rest && r[..|front|] == front;
    if find(r).Nothing? { UnfoldNothing(find, marker, r); } else { UnfoldLeave(find, marker, r, |front|); }
  }
}
