/**
 Exactly when the key-value rule brings URL credentials within reach, told from the
 text it is given: a scheme it leaves alone, and an authority that, with the values
 that give way read as part of it, goes on to an @ that nothing hides.
 */
module RedactOpen {
  import opened Common
  import opened Passing
  import opened Rewriting
  import opened RedactRules
  import opened RedactStability
  import opened RedactOnce
  import opened RedactKeyValues
  import opened RedactKeys
  import opened RedactPairs
  import opened RedactLast
  import opened Redact

  // ------------------------------------------------------------ the condition

  predicate AllUserinfo(s: string) {
    forall c :: c in s ==> IsUserinfo(c)
  }

  predicate NoAt(x: string) {
    '@' !in RunOf(x)
  }

  /** The authority at the front of y, values that give way no longer ending it, holds an @. */
  predicate Opens(find: Searcher, y: string)
    decreases |y|
  {
    if y == [] then false
    else
      var f := find(y);
      assert f.Fits(y);
      match f
      case Nothing => y[0] == '@' || (IsUserinfo(y[0]) && Opens(find, y[1..]))
      case Leave(n) => !NoAt(y[..n]) || (AllUserinfo(y[..n]) && Opens(find, y[n..]))
      case Replace(keep, _, end) => AllUserinfo(y[..keep]) && Opens(find, y[end..])
  }

  const MARKED_AT: string := "[redacted]@"

  /** What the URL rule does not take for credentials at the front of an authority: a marker and an @, or an @. */
  function Skip(x: string): (d: nat)
    ensures d <= |x|
  {
    if MARKED_AT <= x then 11 else if x != [] && x[0] == '@' then 1 else 0
  }

  predicate Reaches(find: Searcher, b: string, y: string) {
    if AllUserinfo(b) then '@' in b || Opens(find, y) else !NoAt(b)
  }

  /** After a scheme stands b, and then the text y that the rule is yet to pass. */
  predicate Exposes(find: Searcher, b: string, y: string) {
    ReachesPast(find, b, y, Skip(b + y))
  }

  predicate ReachesPast(find: Searcher, b: string, y: string, d: nat)
    requires d <= |b| + |y|
  {
    if d <= |b| then Reaches(find, b[d..], y) else Opens(find, y[d - |b|..])
  }

  /** A scheme starts with a, which the rule left alone, and what follows it exposes credentials. */
  predicate Uncovers(find: Searcher, a: string, y: string)
    decreases |y|
  {
    if HasScheme(a) then Exposes(find, AfterScheme(a), y)
    else if y == [] then false
    else
      var f := find(y);
      assert f.Fits(y);
      match f
      case Nothing => Uncovers(find, a + y[..1], y[1..])
      case Leave(n) => Uncovers(find, a + y[..n], y[n..])
      case Replace(_, _, _) => false
  }

  /** A URL whose credentials it uncovers starts in the first n characters. */
  predicate UncoversIn(find: Searcher, t: string, n: nat)
    requires n <= |t|
  {
    exists i :: 0 <= i < n && Uncovers(find, t[i..n], t[n..])
  }

  /** Somewhere in what the rule leaves alone a URL starts whose credentials it uncovers. */
  predicate Bridged(find: Searcher, t: string)
    decreases |t|
  {
    if t == [] then false
    else
      var f := find(t);
      assert f.Fits(t);
      match f
      case Nothing => UncoversIn(find, t, 1) || Bridged(find, t[1..])
      case Leave(n) => UncoversIn(find, t, n) || Bridged(find, t[n..])
      case Replace(_, _, end) => Bridged(find, t[end..])
  }

  // ------------------------------------------------------------ authorities

  lemma RunOfAfter(a: string, y: string)
    requires AllUserinfo(a)
    ensures RunOf(a + y) == a + RunOf(y)
  {
    SpanThrough(a, y, IsUserinfo);
    assert (a + y)[..|a| + Span(y, IsUserinfo)] == a + y[..Span(y, IsUserinfo)];
  }

  lemma RunOfWithin(a: string, y: string)
    requires !AllUserinfo(a)
    ensures RunOf(a + y) == RunOf(a)
  {
    var n := Span(a, IsUserinfo);
    var c :| c in a && !IsUserinfo(c);
    var i :| 0 <= i < |a| && a[i] == c;
    assert n <= i;
    assert (a + y)[n] == a[n] && (a + y)[..n] == a[..n];
    SpanIs(a + y, IsUserinfo, n);
  }

  lemma NoAtAfter(a: string, y: string)
    ensures NoAt(a + y) <==> if AllUserinfo(a) then '@' !in a && NoAt(y) else NoAt(a)
  {
    if AllUserinfo(a) { RunOfAfter(a, y); } else { RunOfWithin(a, y); }
  }

  lemma NoAtMarked(y: string)
    ensures NoAt(MARKER + y) <==> NoAt(y)
  {
    MarkerChars(IsUserinfo);
    NoAtAfter(MARKER, y);
  }

  lemma NoAtReplaced(kept: string, close: string, z: string)
    requires AllKept(kept) && AllUserinfo(close) && '@' !in close
    ensures NoAt(kept + (MARKER + (close + z))) <==> !AllUserinfo(kept) || NoAt(z)
  {
    NoAtAfter(close, z);
    NoAtMarked(close + z);
    KeptHasNoAt(kept);
    NoAtAfter(kept, MARKER + (close + z));
  }

  lemma KeptHasNoAt(kept: string)
    requires AllKept(kept)
    ensures '@' !in kept && NoAt(kept)
  {}

  lemma CloseIsUserinfo(close: string)
    requires forall c :: c in close ==> ClosesValue(c)
    ensures AllUserinfo(close) && '@' !in close
  {}

  lemma NoAtFront(c: char, z: string)
    ensures !NoAt([c] + z) <==> c == '@' || (IsUserinfo(c) && !NoAt(z))
  {
    NoAtAfter([c], z);
    if !IsUserinfo(c) { SpanIs([c], IsUserinfo, 0); }
  }

  lemma NoAtLeft(a: string, z: string)
    ensures !NoAt(a + z) <==> !NoAt(a) || (AllUserinfo(a) && !NoAt(z))
  {
    NoAtAfter(a, z);
    if AllUserinfo(a) {
      NoAtAfter(a, []);
      assert a + [] == a;
    }
  }

  /** What a pass leaves at the front has an @ in its authority exactly when the text opens. */
  lemma {:induction false} OpensIff(find: Searcher, key: KeyFinder, y: string)
    requires Finds(find, key) && KeysStay(key)
    ensures !NoAt(Pass(find, MARKER, y)) <==> Opens(find, y)
    decreases |y|
  {
    if y != [] {
      var f := find(y);
      assert f.Fits(y);
      match f
      case Nothing =>
        OpensIff(find, key, y[1..]);
        UnfoldNothing(find, MARKER, y);
        NoAtFront(y[0], Pass(find, MARKER, y[1..]));
      case Leave(n) =>
        OpensIff(find, key, y[n..]);
        UnfoldLeave(find, MARKER, y, n);
        NoAtLeft(y[..n], Pass(find, MARKER, y[n..]));
      case Replace(keep, skip, end) =>
        OpensIff(find, key, y[end..]);
        UnfoldReplace(find, MARKER, y, f);
        ReplaceText(find, key, y);
        CloseIsUserinfo(y[skip..end]);
        NoAtReplaced(y[..keep], y[skip..end], Pass(find, MARKER, y[end..]));
    }
  }

  lemma ReachesIff(find: Searcher, key: KeyFinder, b: string, y: string)
    requires Finds(find, key) && KeysStay(key)
    ensures Reaches(find, b, y) <==> !NoAt(b + Pass(find, MARKER, y))
  {
    OpensIff(find, key, y);
    NoAtAfter(b, Pass(find, MARKER, y));
  }

  // ------------------------------------------------------------ credentials

  /** Credentials are an @ in the authority, past what the rule does not take for them. */
  lemma ExposedIff(x: string)
    ensures Exposed(RunOf(x)) <==> !NoAt(x[Skip(x)..])
  {
    var d := Skip(x);
    if d == 11 {
      ExposedPastMarker(x[11..], x);
    } else if d == 1 {
      ExposedPastAt(x[1..], x);
    } else {
      assert x[0..] == x;
      ExposedPlain(x);
    }
  }

  lemma ExposedPastMarker(z: string, x: string)
    requires MARKED_AT <= x && z == x[11..]
    ensures Exposed(RunOf(x)) <==> !NoAt(z)
  {
    assert x == MARKER + (['@'] + z) by { assert x[..11] == MARKED_AT; assert MARKED_AT == MARKER + ['@']; }
    if NoAt(z) { MarkedRun(z); } else { LaterAt(MARKED_AT, z, x); }
  }

  lemma ExposedPastAt(z: string, x: string)
    requires x == ['@'] + z
    ensures Exposed(RunOf(x)) <==> !NoAt(z)
  {
    if NoAt(z) {
      RunOfAfter(['@'], z);
      assert ['@'] + RunOf(z) == [] + ['@'] + RunOf(z);
      ExposedOf([], RunOf(z));
    } else {
      LaterAt(['@'], z, x);
    }
  }

  /** An @ past p: credentials longer than p, which is a marker and an @ or an @. */
  lemma LaterAt(p: string, z: string, x: string)
    requires p == MARKED_AT || p == ['@']
    requires x == p + z && !NoAt(z)
    ensures Exposed(RunOf(x))
  {
    RunOfAfter(p, z);
    var a, b := SplitRun(RunOf(z));
    assert p + (a + ['@'] + b) == (p + a) + ['@'] + b;
    ExposedOf(p + a, b);
    assert (p + a)[0] == p[0];
    if p == MARKED_AT { assert |p + a| > |MARKER|; }
  }

  lemma ExposedPlain(x: string)
    requires Skip(x) == 0
    ensures Exposed(RunOf(x)) <==> !NoAt(x)
  {
    var run := RunOf(x);
    if NoAt(x) {
      NoAtNotExposed(run);
    } else {
      var a, b := SplitRun(run);
      ExposedOf(a, b);
      HiddenIsSkipped(x, a, b);
    }
  }

  lemma HiddenIsSkipped(x: string, a: string, b: string)
    requires RunOf(x) == a + ['@'] + b
    ensures a == [] || a == MARKER ==> Skip(x) > 0
  {
    var run, n := RunOf(x), |a|;
    assert run[n] == '@' && x[n] == run[n] && x[..n] == run[..n] == a;
    if a == MARKER { assert x[..11] == a + ['@'] == MARKED_AT; }
  }

  lemma NoKeyInMarked(find: Searcher, key: KeyFinder, i: nat, z: string)
    requires Finds(find, key) && KeysStay(key) && i < 11
    ensures find(MARKED_AT[i..] + z).Nothing?
  {
    var x := MARKED_AT[i..] + z;
    assert x[0] == MARKED_AT[i];
    if i == 0 || i >= 9 {
      NoKeyNoPair(find, key, x);
    } else {
      var d := 9 - i;
      assert x[d] == ']' && forall j :: 0 <= j < d ==> x[j] == MARKED_AT[i + j] && !IsSep(x[j]);
      NoKeyBefore(find, key, x, d);
    }
  }

  /** No key reaches a character that cannot stand in one. */
  lemma NoKeyBefore(find: Searcher, key: KeyFinder, x: string, d: nat)
    requires Finds(find, key) && KeysStay(key) && d < |x| && !IsKeptChar(x[d])
    requires forall j :: 0 <= j < d ==> !IsSep(x[j])
    ensures find(x).Nothing?
  {
    assert FoundAt(key, x, find(x)) && KeyFits(x, key(x)) && KeyTextAt(x, key(x));
    if key(x).Some? { KeyReaches(x, key(x).value, d); }
  }

  lemma KeyReaches(x: string, k: nat, d: nat)
    requires 0 < k <= |x| && KeyTextAt(x, Some(k)) && d < |x| && forall j :: 0 <= j < d ==> !IsSep(x[j])
    ensures IsKeptChar(x[d])
  {
    var i :| 5 <= i < k && IsSep(x[i]);
    assert x[..k][d] == x[d];
  }

  lemma MarkedPasses(find: Searcher, key: KeyFinder, i: nat, z: string)
    requires Finds(find, key) && KeysStay(key) && i <= 11
    ensures NothingUpTo(find, MARKED_AT[i..] + z, 11 - i)
  {
    var y := MARKED_AT[i..] + z;
    forall j | 0 <= j < 11 - i ensures find(y[j..]).Nothing? {
      assert y[j..] == MARKED_AT[i + j..] + z;
      NoKeyInMarked(find, key, i + j, z);
    }
  }

  /** The first n characters of y are the end of a marker and an @. */
  predicate EndsMarked(y: string, n: nat) {
    n <= |y| && n <= 11 && y[..n] == MARKED_AT[11 - n..]
  }

  lemma RestPasses(find: Searcher, key: KeyFinder, y: string, n: nat)
    requires Finds(find, key) && KeysStay(key) && EndsMarked(y, n)
    ensures Pass(find, MARKER, y) == y[..n] + Pass(find, MARKER, y[n..])
  {
    NothingInRest(find, key, y, n);
    CopyNothing(find, MARKER, y, n);
  }

  lemma NothingInRest(find: Searcher, key: KeyFinder, y: string, n: nat)
    requires Finds(find, key) && KeysStay(key) && EndsMarked(y, n)
    ensures NothingUpTo(find, y, n)
  {
    assert y == MARKED_AT[11 - n..] + y[n..];
    MarkedPasses(find, key, 11 - n, y[n..]);
  }

  lemma SkipStays(find: Searcher, key: KeyFinder, b: string, y: string)
    requires Finds(find, key) && KeysStay(key)
    ensures Skip(b + Pass(find, MARKER, y)) == Skip(b + y)
  {
    assert Sealed(MARKED_AT);
    SealedPasses(find, key, b, y, MARKED_AT);
    FirstStays(find, MARKER, y);
    if b != [] { assert (b + y)[0] == (b + Pass(find, MARKER, y))[0] == b[0]; }
    else { assert b + y == y && b + Pass(find, MARKER, y) == Pass(find, MARKER, y); }
  }

  lemma SkippedIsMarked(x: string)
    ensures EndsMarked(x, Skip(x))
  {
    if Skip(x) == 1 { assert x[..1] == MARKED_AT[10..]; } else if Skip(x) == 11 { assert x[..11] == MARKED_AT[0..]; }
    else { assert MARKED_AT[11..] == []; }
  }

  /** What is skipped past b is the end of a marker and an @. */
  lemma SkippedTail(b: string, y: string, d: nat)
    requires EndsMarked(b + y, d) && d > |b|
    ensures EndsMarked(y, d - |b|)
  {
    var n := d - |b|;
    assert y[..n] == (b + y)[..d][|b|..];
    assert MARKED_AT[11 - d..][|b|..] == MARKED_AT[11 - n..];
  }

  lemma ExposesIff(find: Searcher, key: KeyFinder, b: string, y: string)
    requires Finds(find, key) && KeysStay(key)
    ensures Exposed(RunOf(b + Pass(find, MARKER, y))) <==> Exposes(find, b, y)
  {
    SkipStays(find, key, b, y);
    SkippedIsMarked(b + y);
    ReachesPastIff(find, key, b, y, Skip(b + y));
    ExposedIff(b + Pass(find, MARKER, y));
  }

  lemma DropWithin(b: string, r: string, d: nat)
    requires d <= |b|
    ensures (b + r)[d..] == b[d..] + r
  {}

  lemma DropPast(b: string, q: string, z: string)
    ensures (b + (q + z))[|b| + |q|..] == z
  {}

  lemma ReachesPastIff(find: Searcher, key: KeyFinder, b: string, y: string, d: nat)
    requires Finds(find, key) && KeysStay(key) && EndsMarked(b + y, d)
    ensures d <= |b + Pass(find, MARKER, y)|
    ensures !NoAt((b + Pass(find, MARKER, y))[d..]) <==> ReachesPast(find, b, y, d)
  {
    if d <= |b| {
      DropWithin(b, Pass(find, MARKER, y), d);
      ReachesIff(find, key, b[d..], y);
    } else {
      SkippedTail(b, y, d);
      OpensPastIff(find, key, b, y, d - |b|);
    }
  }

  lemma OpensPastIff(find: Searcher, key: KeyFinder, b: string, y: string, n: nat)
    requires Finds(find, key) && KeysStay(key) && EndsMarked(y, n)
    ensures |b| + n <= |b + Pass(find, MARKER, y)|
    ensures !NoAt((b + Pass(find, MARKER, y))[|b| + n..]) <==> Opens(find, y[n..])
  {
    RestPasses(find, key, y, n);
    DropPast(b, y[..n], Pass(find, MARKER, y[n..]));
    OpensIff(find, key, y[n..]);
  }

  // ------------------------------------------------------------ URLs

  lemma Advance(a: string, y: string, n: nat, z: string)
    requires n <= |y|
    ensures a + y == a + y[..n] + y[n..] && a + (y[..n] + z) == a + y[..n] + z
  {}

  lemma SchemeStays(a: string, z: string)
    requires HasScheme(a)
    ensures HasScheme(a + z) && AfterScheme(a + z) == AfterScheme(a) + z
  {
    SchemeParts(a);
    var head := a[..SchemeLen(a)];
    assert a + z == head + "://" + (AfterScheme(a) + z);
    AfterIs(a + z, head, AfterScheme(a) + z);
  }

  lemma AfterIs(t: string, head: string, y: string)
    requires t == head + "://" + y && head != [] && IsLetter(head[0]) && forall c :: c in head ==> IsSchemeChar(c)
    ensures HasScheme(t) && AfterScheme(t) == y
  {
    assert t[..|head| + 3] == head + "://";
    SchemeOfPrefix(t, head);
  }

  /** A scheme that ends within a is a scheme of a. */
  lemma SchemeWithin(a: string, z: string)
    requires HasScheme(a + z) && SchemeLen(a + z) + 3 <= |a|
    ensures HasScheme(a)
  {
    SchemeParts(a + z);
    var n := SchemeLen(a + z);
    assert a[..n + 3] == (a + z)[..n + 3];
    SchemeOfPrefix(a, (a + z)[..n]);
  }

  lemma NotBeforeValue(find: Searcher, key: KeyFinder, a: string, y: string, w: string)
    requires Finds(find, key) && KeysStay(key) && find(y).Replace?
    requires |w| > |a| && w <= a + Pass(find, MARKER, y)
    ensures '[' in w || w[|w| - 1] != '/'
  {
    var f := find(y);
    ReplaceText(find, key, y);
    UnfoldReplace(find, MARKER, y, f);
    var z := y[f.skip..f.end] + Pass(find, MARKER, y[f.end..]);
    var x := a + (y[..f.keep] + (MARKER + z));
    var n := |a| + f.keep;
    if |w| > n {
      assert w[n] == x[n] == MARKER[0];
    } else {
      var last := |w| - 1;
      assert w[last] == x[last] == y[..f.keep][last - |a|];
      assert IsKeptChar(w[last]);
    }
  }

  lemma NoSchemeBeforeValue(find: Searcher, key: KeyFinder, a: string, y: string)
    requires Finds(find, key) && KeysStay(key) && find(y).Replace? && !HasScheme(a)
    ensures !HasScheme(a + Pass(find, MARKER, y))
  {
    var f := a + Pass(find, MARKER, y);
    if HasScheme(f) {
      SchemeParts(f);
      var n := SchemeLen(f);
      var w := f[..n] + "://";
      if n + 3 <= |a| {
        SchemeWithin(a, Pass(find, MARKER, y));
      } else {
        NotBeforeValue(find, key, a, y, w);
      }
    }
  }

  lemma UncoversScheme(find: Searcher, key: KeyFinder, a: string, y: string)
    requires Finds(find, key) && KeysStay(key) && HasScheme(a)
    ensures FindUrl(a + Pass(find, MARKER, y)).Some? <==> Exposes(find, AfterScheme(a), y)
  {
    SchemeStays(a, Pass(find, MARKER, y));
    ExposesIff(find, key, AfterScheme(a), y);
  }

  /** Credentials start with a after the pass exactly when the rule uncovers some there. */
  lemma {:induction false} UncoversIff(find: Searcher, key: KeyFinder, a: string, y: string)
    requires Finds(find, key) && KeysStay(key)
    ensures FindUrl(a + Pass(find, MARKER, y)).Some? <==> Uncovers(find, a, y)
    decreases |y|
  {
    if HasScheme(a) {
      UncoversScheme(find, key, a, y);
    } else if y == [] {
      assert a + Pass(find, MARKER, y) == a;
    } else {
      var f := find(y);
      assert f.Fits(y);
      match f
      case Nothing =>
        UnfoldNothing(find, MARKER, y);
        assert y[..1] == [y[0]];
        Advance(a, y, 1, Pass(find, MARKER, y[1..]));
        UncoversIff(find, key, a + y[..1], y[1..]);
      case Leave(n) =>
        UnfoldLeave(find, MARKER, y, n);
        Advance(a, y, n, Pass(find, MARKER, y[n..]));
        UncoversIff(find, key, a + y[..n], y[n..]);
      case Replace(_, _, _) =>
        NoSchemeBeforeValue(find, key, a, y);
    }
  }

  lemma NoUrlBeforeValue(t: string, a: nat, keep: nat, z: string)
    requires KeptText(t, keep) && a < keep
    ensures FindUrl(t[..keep][a..] + (MARKER + z)).None?
  {
    var x, d := t[..keep][a..] + (MARKER + z), keep - a;
    assert x[d] == '[';
    var n := SchemeLen(x);
    assert n <= d;
    if n < d {
      assert n + 1 < d ==> x[n + 1] == t[..keep][a + n + 1] && IsKeptChar(x[n + 1]);
      assert x[n..][1] == x[n + 1];
    } else {
      assert x[n..][0] == '[';
    }
  }

  lemma UrlsStartWithALetter()
    ensures LetterFirst(URL)
  {
    forall x ensures LetterAt(x, URL(x)) { assert URL(x) == FindUrl(x); }
  }

  lemma ValueShields(t: string, keep: nat, close: string, z: string)
    requires KeptText(t, keep) && StableFor(URL, z) && forall c :: c in close ==> ClosesValue(c)
    ensures StableFor(URL, t[..keep] + (MARKER + (close + z)))
  {
    UrlsStartWithALetter();
    StableAfterClose(URL, close, z);
    var y := close + z;
    forall i | 0 <= i < |MARKER| ensures FindUrl(MARKER[i..] + y).None? { NoSchemeInMarker(y, i); }
    forall a | 0 <= a < keep ensures FindUrl(t[..keep][a..] + (MARKER + y)).None? { NoUrlBeforeValue(t, a, keep, y); }
    StableJoinTwo(URL, t[..keep], MARKER, y);
  }

  lemma StableAfterLeft(find: Searcher, key: KeyFinder, t: string, n: nat)
    requires Finds(find, key) && KeysStay(key) && n <= |t|
    ensures StableFor(URL, t[..n] + Pass(find, MARKER, t[n..])) <==>
      StableFor(URL, Pass(find, MARKER, t[n..])) && !UncoversIn(find, t, n)
  {
    StableJoinIff(URL, t[..n], Pass(find, MARKER, t[n..]));
    forall i | 0 <= i < n
      ensures URL(t[..n][i..] + Pass(find, MARKER, t[n..])).Some? <==> Uncovers(find, t[i..n], t[n..])
    {
      assert t[..n][i..] == t[i..n];
      UncoversIff(find, key, t[i..n], t[n..]);
    }
  }

  lemma StableAfterValue(find: Searcher, key: KeyFinder, t: string)
    requires Finds(find, key) && KeysStay(key) && find(t).Replace?
    ensures find(t).end <= |t|
    ensures StableFor(URL, Pass(find, MARKER, t)) <==> StableFor(URL, Pass(find, MARKER, t[find(t).end..]))
  {
    var f := find(t);
    ReplaceText(find, key, t);
    UnfoldReplace(find, MARKER, t, f);
    var z := Pass(find, MARKER, t[f.end..]);
    if StableFor(URL, z) {
      ValueShields(t, f.keep, t[f.skip..f.end], z);
    } else {
      EndsWith(URL, t[..f.keep], MARKER, t[f.skip..f.end], z);
    }
  }

  lemma EndsWith(e: Finder, a: string, m: string, c: string, z: string)
    requires !StableFor(e, z)
    ensures !StableFor(e, a + (m + (c + z)))
  {
    assert a + (m + (c + z)) == a + (m + c) + z;
    StableJoinIff(e, a + (m + c), z);
  }

  /** A pass leaves credentials exactly when the text is bridged. */
  lemma {:induction false} BridgedIff(find: Searcher, key: KeyFinder, t: string)
    requires Finds(find, key) && KeysStay(key)
    ensures StableFor(URL, Pass(find, MARKER, t)) <==> !Bridged(find, t)
    decreases |t|
  {
    if t != [] {
      var f := find(t);
      assert f.Fits(t);
      match f
      case Nothing =>
        BridgedIff(find, key, t[1..]);
        UnfoldNothing(find, MARKER, t);
        assert [t[0]] == t[..1];
        StableAfterLeft(find, key, t, 1);
      case Leave(n) =>
        BridgedIff(find, key, t[n..]);
        UnfoldLeave(find, MARKER, t, n);
        StableAfterLeft(find, key, t, n);
      case Replace(_, _, end) =>
        BridgedIff(find, key, t[end..]);
        StableAfterValue(find, key, t);
    } else {
      NothingToFind();
    }
  }

  lemma NothingToFind()
    ensures StableFor(URL, [])
  {
    assert FindUrl([]).None?;
  }

  lemma StableIffNotBridged(find: Searcher, key: KeyFinder, u: string)
    requires Finds(find, key) && KeysStay(key)
    ensures Stable(UrlCredentials, Pass(find, MARKER, u)) <==> !Bridged(find, u)
  {
    BridgedIff(find, key, u);
    UrlStable(Pass(find, MARKER, u));
  }

  lemma UrlStable(u: string)
    ensures Stable(UrlCredentials, u) <==> StableFor(URL, u)
  {
    assert FinderOf(UrlCredentials) == URL;
  }

  /**
   A second pass of all the rules changes and counts nothing if and only if the text
   the rules by shape leave is not bridged: the condition looks at nothing the
   key-value rule wrote.
   */
  lemma CleanIffNotBridged(t: string)
    ensures Clean(PAIRS, Redacted(t)) <==> !Bridged(PAIRS, Shapes(t))
  {
    SecretKeysStay();
    SearchingFinds(KEY);
    StableIffNotBridged(PAIRS, KEY, Shapes(t));
    SecondPassIsCleanIff(t);
  }
}
