/**
 Left-to-right rewriting of a text by a function that finds a hit at the front
 of it, whatever the hits are.
 */
module Rewriting {
  import opened Common

  /** The first `keep` characters stay, the text goes on at `skip`. */
  datatype Hit = Hit(keep: nat, skip: nat)

  predicate Fits(t: string, h: Option<Hit>) {
    h.Some? ==> 0 < h.value.keep <= h.value.skip <= |t|
  }

  function NoHits(t: string): Option<Hit> {
    None
  }

  /** Says whether a hit starts at the front of a text, and how far it reaches. */
  type Finder = f: string -> Option<Hit> | forall t :: Fits(t, f(t)) witness NoHits

  /** The text with every hit, left to right, replaced by the marker. */
  function Rewrite(find: Finder, marker: string, t: string): string
    decreases |t|
  {
    if t == [] then []
    else if find(t).None? then [t[0]] + Rewrite(find, marker, t[1..])
    else
      assert Fits(t, find(t));
      t[..find(t).value.keep] + marker + Rewrite(find, marker, t[find(t).value.skip..])
  }

  /** How many hits that replaces. */
  function Hits(find: Finder, t: string): nat
    decreases |t|
  {
    if t == [] then 0
    else if find(t).None? then Hits(find, t[1..])
    else
      assert Fits(t, find(t));
      1 + Hits(find, t[find(t).value.skip..])
  }

  lemma UnfoldMiss(find: Finder, marker: string, t: string)
    requires t != [] && find(t).None?
    ensures Rewrite(find, marker, t) == [t[0]] + Rewrite(find, marker, t[1..])
    ensures Hits(find, t) == Hits(find, t[1..])
  {}

  lemma UnfoldHit(find: Finder, marker: string, t: string, h: Hit)
    requires find(t) == Some(h)
    ensures 0 < h.keep <= h.skip <= |t|
    ensures Rewrite(find, marker, t) == t[..h.keep] + (marker + Rewrite(find, marker, t[h.skip..]))
    ensures Hits(find, t) == 1 + Hits(find, t[h.skip..])
  {
    assert Fits(t, find(t));
  }

  // ------------------------------------------------------------ stability

  /** No hit starts anywhere in t. */
  ghost predicate StableFor(find: Finder, t: string) {
    forall i :: 0 <= i <= |t| ==> find(t[i..]).None?
  }

  lemma StableSuffix(find: Finder, t: string, n: nat)
    requires StableFor(find, t) && n <= |t|
    ensures StableFor(find, t[n..])
  {
    forall i | 0 <= i <= |t[n..]| ensures find(t[n..][i..]).None? { assert t[n..][i..] == t[n + i..]; }
  }

  lemma {:induction false} StableIsUnchanged(find: Finder, marker: string, t: string)
    requires StableFor(find, t)
    ensures Rewrite(find, marker, t) == t && Hits(find, t) == 0
    decreases |t|
  {
    if t != [] {
      assert t[0..] == t;
      StableSuffix(find, t, 1);
      StableIsUnchanged(find, marker, t[1..]);
    }
  }

  lemma {:induction false} NoHitsIsStable(find: Finder, t: string)
    requires Hits(find, t) == 0
    ensures StableFor(find, t)
    decreases |t|
  {
    assert Fits(t, find(t));
    if t != [] {
      NoHitsIsStable(find, t[1..]);
      forall i | 0 <= i <= |t| ensures find(t[i..]).None? {
        if i == 0 { assert t[0..] == t; } else { assert t[i..] == t[1..][i - 1..]; }
      }
    }
  }

  /** Putting u in front of a stable text keeps it stable if no hit starts in u. */
  lemma StableJoin(find: Finder, u: string, z: string)
    requires StableFor(find, z)
    requires forall i :: 0 <= i < |u| ==> find(u[i..] + z).None?
    ensures StableFor(find, u + z)
  {
    forall i | 0 <= i <= |u + z| ensures find((u + z)[i..]).None? {
      if i < |u| { assert (u + z)[i..] == u[i..] + z; } else { assert (u + z)[i..] == z[i - |u|..]; }
    }
  }

  lemma StableJoinIff(find: Finder, u: string, z: string)
    ensures StableFor(find, u + z) <==>
      StableFor(find, z) && forall i :: 0 <= i < |u| ==> find(u[i..] + z).None?
  {
    if StableFor(find, u + z) {
      StableSuffix(find, u + z, |u|);
      assert (u + z)[|u|..] == z;
      forall i | 0 <= i < |u| ensures find(u[i..] + z).None? { assert (u + z)[i..] == u[i..] + z; }
    } else if StableFor(find, z) && forall i :: 0 <= i < |u| ==> find(u[i..] + z).None? {
      StableJoin(find, u, z);
    }
  }

  lemma TakeCons(t: string, n: nat, z: string)
    requires 0 < n <= |t|
    ensures [t[0]] + (t[1..][..n - 1] + z) == t[..n] + z && t[1..][n - 1..] == t[n..]
  {
    assert t[..n] == [t[0]] + t[1..][..n - 1];
  }

  /** No hit starts in the first n positions. */
  ghost predicate MissesUpTo(find: Finder, t: string, n: nat) {
    n <= |t| && forall i :: 0 <= i < n ==> find(t[i..]).None?
  }

  lemma MissesTail(find: Finder, t: string, n: nat)
    requires n > 0 && MissesUpTo(find, t, n)
    ensures find(t).None? && MissesUpTo(find, t[1..], n - 1)
  {
    assert t[0..] == t;
    forall i | 0 <= i < n - 1 ensures find(t[1..][i..]).None? { assert t[1..][i..] == t[i + 1..]; }
  }

  /** A stretch in which no hit starts is copied as it is. */
  lemma {:induction false} CopyThrough(find: Finder, marker: string, t: string, n: nat)
    requires MissesUpTo(find, t, n)
    ensures n <= |t|
    ensures Rewrite(find, marker, t) == t[..n] + Rewrite(find, marker, t[n..]) && Hits(find, t) == Hits(find, t[n..])
    decreases n
  {
    if n == 0 {
      assert t[0..] == t;
    } else {
      MissesTail(find, t, n);
      UnfoldMiss(find, marker, t);
      CopyThrough(find, marker, t[1..], n - 1);
      TakeCons(t, n, Rewrite(find, marker, t[n..]));
    }
  }

  // ------------------------------------------------------------ prefixes

  lemma PrefixCons(w: string, t: string)
    requires w != [] && t != []
    ensures w <= t <==> w[0] == t[0] && w[1..] <= t[1..]
  {
    if w <= t { assert t[..|w|] == w; assert t[1..][..|w| - 1] == w[1..]; }
    if w[0] == t[0] && w[1..] <= t[1..] {
      assert t[1..][..|w| - 1] == w[1..];
      assert w == [w[0]] + w[1..] && t[..|w|] == [t[0]] + t[1..][..|w| - 1];
    }
  }

  predicate Has(s: string, p: string) {
    exists i :: 0 <= i <= |s| - |p| && p <= s[i..]
  }

  lemma HasTail(s: string, p: string)
    requires s != [] && !Has(s, p)
    ensures !Has(s[1..], p)
  {
    forall i | 0 <= i <= |s[1..]| - |p| ensures !(p <= s[1..][i..]) { assert s[1..][i..] == s[i + 1..]; }
  }

  lemma HasLonger(s: string, t: string, p: string)
    requires Has(s, p) && s <= t
    ensures Has(t, p)
  {
    var i :| 0 <= i <= |s| - |p| && p <= s[i..];
    assert t[..|s|] == s;
    assert t[i..][..|p|] == t[i..i + |p|] == s[i..i + |p|] == s[i..][..|p|];
  }

  /** A text that lacks one of the pattern's characters lacks the pattern. */
  lemma NoCharNoTrigger(s: string, p: string, j: nat)
    requires j < |p| && p[j] !in s
    ensures !Has(s, p)
  {
    forall i | 0 <= i <= |s| - |p| ensures !(p <= s[i..]) { assert s[i..][j] == s[i + j] && s[i + j] in s; }
  }

  /** p does not occur in w, unless at its very end. */
  predicate AtMostLast(w: string, p: string) {
    w == [] || !Has(w[..|w| - 1], p)
  }

  lemma AtMostLastTail(w: string, p: string)
    requires w != [] && AtMostLast(w, p)
    ensures AtMostLast(w[1..], p)
  {
    if |w| > 1 {
      HasTail(w[..|w| - 1], p);
      assert w[1..][..|w| - 2] == w[..|w| - 1][1..];
    }
  }

  /** What every hit keeps holds p. */
  ghost predicate KeepsTrigger(find: Finder, p: string) {
    forall t {:trigger KeepsTriggerIn(t, find(t), p)} :: KeepsTriggerIn(t, find(t), p)
  }

  predicate KeepsTriggerIn(t: string, h: Option<Hit>, p: string) {
    h.Some? ==> Fits(t, h) && Has(t[..h.value.keep], p)
  }

  lemma PrefixPastKept(t: string, keep: nat, rest: string, w: string, p: string)
    requires keep <= |t| && Has(t[..keep], p) && AtMostLast(w, p)
    ensures w <= t[..keep] + rest <==> w <= t
  {
    var kept := t[..keep];
    var f := kept + rest;
    if |w| <= keep {
      assert f[..|w|] == kept[..|w|] == t[..|w|];
    } else {
      assert kept <= w ==> kept <= w[..|w| - 1];
      if kept <= w[..|w| - 1] { HasLonger(kept, w[..|w| - 1], p); }
      assert |w| <= |f| ==> f[..|w|][..keep] == kept;
      assert |w| <= |t| ==> t[..|w|][..keep] == kept;
    }
  }

  lemma PrefixOfCopied(find: Finder, marker: string, t: string, w: string)
    requires t != [] && w != [] && find(t).None?
    requires w[1..] <= Rewrite(find, marker, t[1..]) <==> w[1..] <= t[1..]
    ensures w <= Rewrite(find, marker, t) <==> w <= t
  {
    var rest := Rewrite(find, marker, t[1..]);
    UnfoldMiss(find, marker, t);
    PrefixCons(w, t);
    PrefixCons(w, [t[0]] + rest);
    assert ([t[0]] + rest)[1..] == rest;
  }

  /** Text that ends before the trigger does stands at the front of the rewritten text exactly when it did before. */
  lemma {:induction false} PrefixAgree(find: Finder, marker: string, t: string, w: string, p: string)
    requires KeepsTrigger(find, p) && AtMostLast(w, p)
    ensures w <= Rewrite(find, marker, t) <==> w <= t
    decreases |t|
  {
    if w != [] && t != [] {
      if find(t).None? {
        AtMostLastTail(w, p);
        PrefixAgree(find, marker, t[1..], w[1..], p);
        PrefixOfCopied(find, marker, t, w);
      } else {
        var h := find(t).value;
        UnfoldHit(find, marker, t, h);
        assert KeepsTriggerIn(t, find(t), p);
        PrefixPastKept(t, h.keep, marker + Rewrite(find, marker, t[h.skip..]), w, p);
      }
    }
  }

  /** The same where no hit starts at the front: then only the rest must end before the trigger. */
  lemma CopiedPrefix(find: Finder, marker: string, t: string, w: string, p: string)
    requires KeepsTrigger(find, p) && t != [] && find(t).None? && w != [] && AtMostLast(w[1..], p)
    ensures w <= Rewrite(find, marker, t) <==> w <= t
  {
    PrefixAgree(find, marker, t[1..], w[1..], p);
    PrefixOfCopied(find, marker, t, w);
  }

  // ------------------------------------------------------------ splitting

  /** Hits in front of a separator do not look past it. */
  ghost predicate SplitsAt(find: Finder, c: char) {
    forall a, b :: SplitsBetween(find, a, c, b)
  }

  predicate SplitsBetween(find: Finder, a: string, c: char, b: string) {
    find(a + [c] + b) == if a == [] then None else find(a)
  }

  lemma SplitCopied(find: Finder, marker: string, a: string, c: char, b: string)
    requires SplitsAt(find, c) && a != [] && find(a).None?
    requires Rewrite(find, marker, a[1..] + [c] + b) == Rewrite(find, marker, a[1..]) + [c] + Rewrite(find, marker, b)
    ensures Rewrite(find, marker, a + [c] + b) == Rewrite(find, marker, a) + [c] + Rewrite(find, marker, b)
  {
    var t := a + [c] + b;
    assert SplitsBetween(find, a, c, b);
    SplitFront(a, c, b, 1);
    UnfoldMiss(find, marker, t);
    UnfoldMiss(find, marker, a);
    Regroup([], [a[0]], Rewrite(find, marker, a[1..]), [c], Rewrite(find, marker, b));
  }

  lemma SplitFront(a: string, c: char, b: string, n: nat)
    requires 0 < n <= |a|
    ensures (a + [c] + b)[0] == a[0] && (a + [c] + b)[n..] == a[n..] + [c] + b
  {}

  lemma SplitRedacted(find: Finder, marker: string, a: string, c: char, b: string, h: Hit)
    requires SplitsAt(find, c) && a != [] && find(a) == Some(h) && h.skip <= |a|
    requires Rewrite(find, marker, a[h.skip..] + [c] + b)
          == Rewrite(find, marker, a[h.skip..]) + [c] + Rewrite(find, marker, b)
    ensures Rewrite(find, marker, a + [c] + b) == Rewrite(find, marker, a) + [c] + Rewrite(find, marker, b)
  {
    var t := a + [c] + b;
    assert SplitsBetween(find, a, c, b);
    UnfoldHit(find, marker, t, h);
    UnfoldHit(find, marker, a, h);
    assert t[..h.keep] == a[..h.keep];
    SplitFront(a, c, b, h.skip);
    Regroup(a[..h.keep], marker, Rewrite(find, marker, a[h.skip..]), [c], Rewrite(find, marker, b));
  }

  lemma Regroup(k: string, m: string, x: string, c: string, y: string)
    ensures k + (m + (x + c + y)) == k + (m + x) + c + y && m + (x + c + y) == m + x + c + y
  {}

  /** The text on either side of a separator is rewritten on its own. */
  lemma {:induction false} Split(find: Finder, marker: string, a: string, c: char, b: string)
    requires SplitsAt(find, c)
    ensures Rewrite(find, marker, a + [c] + b) == Rewrite(find, marker, a) + [c] + Rewrite(find, marker, b)
    decreases |a|
  {
    if a == [] {
      var t := [c] + b;
      assert a + [c] + b == t && t[0] == c && t[1..] == b;
      assert SplitsBetween(find, a, c, b);
      UnfoldMiss(find, marker, t);
    } else if find(a).None? {
      Split(find, marker, a[1..], c, b);
      SplitCopied(find, marker, a, c, b);
    } else {
      UnfoldHit(find, marker, a, find(a).value);
      Split(find, marker, a[find(a).value.skip..], c, b);
      SplitRedacted(find, marker, a, c, b, find(a).value);
    }
  }

  /** A property of characters that the text and the marker have, the rewritten text has. */
  lemma {:induction false} KeepsChars(find: Finder, marker: string, t: string, p: char -> bool)
    requires (forall c :: c in marker ==> p(c)) && forall c :: c in t ==> p(c)
    ensures forall c :: c in Rewrite(find, marker, t) ==> p(c)
    decreases |t|
  {
    if t != [] {
      if find(t).None? {
        UnfoldMiss(find, marker, t);
        KeepsChars(find, marker, t[1..], p);
      } else {
        var h := find(t).value;
        UnfoldHit(find, marker, t, h);
        KeepsChars(find, marker, t[h.skip..], p);
      }
    }
  }

  // ------------------------------------------------------------ one rewriting after another

  /** Where e finds nothing at the front of a text, it finds nothing at the front of the rewritten text. */
  ghost predicate Reflects(e: Finder, f: Finder, marker: string) {
    forall t :: ReflectsAt(e, f, marker, t)
  }

  ghost predicate ReflectsAt(e: Finder, f: Finder, marker: string, t: string) {
    e(t).None? ==> e(Rewrite(f, marker, t)).None?
  }

  /** Replacing a hit of f in a text e finds nothing in gives e nothing to find. */
  ghost predicate Shields(e: Finder, f: Finder, marker: string) {
    forall t, z :: ShieldsAt(e, f, marker, t, z)
  }

  ghost predicate ShieldsAt(e: Finder, f: Finder, marker: string, t: string, z: string) {
    f(t).Some? && Fits(t, f(t)) && StableFor(e, t) && StableFor(e, z)
    ==> StableFor(e, t[..f(t).value.keep] + (marker + z))
  }

  /** The text kept, then a marker, then a stable text: stable if no hit starts in the first two. */
  lemma StableJoinTwo(e: Finder, kept: string, marker: string, z: string)
    requires StableFor(e, z)
    requires forall i :: 0 <= i < |marker| ==> e(marker[i..] + z).None?
    requires forall i :: 0 <= i < |kept| ==> e(kept[i..] + (marker + z)).None?
    ensures StableFor(e, kept + (marker + z))
  {
    StableJoin(e, marker, z);
    StableJoin(e, kept, marker + z);
  }

  lemma StableCons(e: Finder, c: char, z: string)
    requires StableFor(e, z) && e([c] + z).None?
    ensures StableFor(e, [c] + z)
  {
    assert [c][0..] == [c];
    StableJoin(e, [c], z);
  }

  /** Rewriting by f leaves a text in which e finds nothing such a text. */
  lemma {:induction false} StaysStable(e: Finder, f: Finder, marker: string, t: string)
    requires Reflects(e, f, marker) && Shields(e, f, marker) && StableFor(e, t)
    ensures StableFor(e, Rewrite(f, marker, t))
    decreases |t|
  {
    if t != [] {
      if f(t).None? {
        assert t[0..] == t;
        StableSuffix(e, t, 1);
        StaysStable(e, f, marker, t[1..]);
        UnfoldMiss(f, marker, t);
        assert ReflectsAt(e, f, marker, t);
        StableCons(e, t[0], Rewrite(f, marker, t[1..]));
      } else {
        var h := f(t).value;
        UnfoldHit(f, marker, t, h);
        StableSuffix(e, t, h.skip);
        StaysStable(e, f, marker, t[h.skip..]);
        assert ShieldsAt(e, f, marker, t, Rewrite(f, marker, t[h.skip..]));
      }
    }
  }

  /** Rewriting leaves no hit at the front where there was none. */
  ghost predicate CopiesCleanly(f: Finder, marker: string) {
    forall t :: CopiesCleanlyAt(f, marker, t)
  }

  ghost predicate CopiesCleanlyAt(f: Finder, marker: string, t: string) {
    t != [] && f(t).None? ==> f(Rewrite(f, marker, t)).None?
  }

  /** What a hit is replaced by, and what follows it, holds no hit. */
  ghost predicate ReplacesCleanly(f: Finder, marker: string) {
    forall t :: ReplacesCleanlyAt(f, marker, t)
  }

  ghost predicate ReplacesCleanlyAt(f: Finder, marker: string, t: string) {
    f(t).Some? && Fits(t, f(t)) && StableFor(f, Rewrite(f, marker, t[f(t).value.skip..]))
    ==> StableFor(f, Rewrite(f, marker, t))
  }

  /** Rewriting leaves nothing to rewrite. */
  lemma {:induction false} BecomesStable(f: Finder, marker: string, t: string)
    requires CopiesCleanly(f, marker) && ReplacesCleanly(f, marker) && f([]).None?
    ensures StableFor(f, Rewrite(f, marker, t))
    decreases |t|
  {
    if t != [] {
      if f(t).None? {
        BecomesStable(f, marker, t[1..]);
        UnfoldMiss(f, marker, t);
        assert CopiesCleanlyAt(f, marker, t);
        StableCons(f, t[0], Rewrite(f, marker, t[1..]));
      } else {
        UnfoldHit(f, marker, t, f(t).value);
        BecomesStable(f, marker, t[f(t).value.skip..]);
        assert ReplacesCleanlyAt(f, marker, t);
      }
    }
  }
}
