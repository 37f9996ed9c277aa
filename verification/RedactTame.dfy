/**
 When a second redaction is sure to be clean: no value the key-value rule takes out
 holds a character that ends a URL's authority.
 */
module RedactTame {
  import opened Passing
  import opened RedactRules
  import opened RedactKeyValues
  import opened RedactKeys
  import opened RedactPairs
  import opened RedactLast
  import opened Redact
  import opened RedactOpen

  /** No value that gives way holds white space, a slash, a question mark or a hash. */
  predicate Tame(find: Searcher, t: string)
    decreases |t|
  {
    if t == [] then true
    else
      var f := find(t);
      assert f.Fits(t);
      match f
      case Nothing => Tame(find, t[1..])
      case Leave(n) => Tame(find, t[n..])
      case Replace(keep, skip, end) => AllUserinfo(t[keep..skip]) && Tame(find, t[end..])
  }

  lemma {:induction false} TameDrop(find: Searcher, t: string, n: nat)
    requires NothingUpTo(find, t, n) && Tame(find, t)
    ensures Tame(find, t[n..])
    decreases n
  {
    assert t[0..] == t;
    if n > 0 {
      forall i | 0 <= i < n - 1 ensures find(t[1..][i..]).Nothing? { assert t[1..][i..] == t[i + 1..]; }
      TameDrop(find, t[1..], n - 1);
      assert t[1..][n - 1..] == t[n..];
    }
  }

  lemma InFour(y: string, keep: nat, skip: nat, end: nat)
    requires keep <= skip <= end <= |y|
    ensures y == y[..keep] + (y[keep..skip] + (y[skip..end] + y[end..]))
  {}

  lemma NotAtWithin(kept: string, value: string, close: string, rest: string)
    requires AllUserinfo(kept) && AllUserinfo(value) && AllUserinfo(close) && !NoAt(rest)
    ensures !NoAt(kept + (value + (close + rest)))
  {
    NoAtAfter(close, rest);
    NoAtAfter(value, close + rest);
    NoAtAfter(kept, value + (close + rest));
  }

  /** In a tame text the authority reaches an @ only where it did before. */
  lemma {:induction false} OpenedBefore(find: Searcher, key: KeyFinder, y: string)
    requires Finds(find, key) && KeysStay(key) && Tame(find, y) && Opens(find, y)
    ensures !NoAt(y)
    decreases |y|
  {
    var f := find(y);
    assert f.Fits(y);
    match f
    case Nothing =>
      assert y == [y[0]] + y[1..];
      NoAtFront(y[0], y[1..]);
      if Opens(find, y[1..]) { OpenedBefore(find, key, y[1..]); }
    case Leave(n) =>
      assert y == y[..n] + y[n..];
      NoAtLeft(y[..n], y[n..]);
      if Opens(find, y[n..]) { OpenedBefore(find, key, y[n..]); }
    case Replace(keep, skip, end) =>
      ReplaceText(find, key, y);
      CloseIsUserinfo(y[skip..end]);
      OpenedBefore(find, key, y[end..]);
      InFour(y, keep, skip, end);
      NotAtWithin(y[..keep], y[keep..skip], y[skip..end], y[end..]);
  }

  lemma ExposedBefore(find: Searcher, key: KeyFinder, b: string, y: string)
    requires Finds(find, key) && KeysStay(key) && Tame(find, y) && Exposes(find, b, y)
    ensures Exposed(RunOf(b + y))
  {
    SkippedIsMarked(b + y);
    ReachedPastBefore(find, key, b, y, Skip(b + y));
    ExposedIff(b + y);
  }

  lemma ReachedPastBefore(find: Searcher, key: KeyFinder, b: string, y: string, d: nat)
    requires Finds(find, key) && KeysStay(key) && Tame(find, y)
    requires EndsMarked(b + y, d) && ReachesPast(find, b, y, d)
    ensures !NoAt((b + y)[d..])
  {
    if d <= |b| {
      DropWithin(b, y, d);
      ReachedBefore(find, key, b[d..], y);
    } else {
      SkippedTail(b, y, d);
      OpenedPastBefore(find, key, b, y, d - |b|);
    }
  }

  lemma OpenedPastBefore(find: Searcher, key: KeyFinder, b: string, y: string, n: nat)
    requires Finds(find, key) && KeysStay(key) && Tame(find, y) && EndsMarked(y, n) && Opens(find, y[n..])
    ensures !NoAt((b + y)[|b| + n..])
  {
    NothingInRest(find, key, y, n);
    TameDrop(find, y, n);
    OpenedBefore(find, key, y[n..]);
    assert (b + y)[|b| + n..] == y[n..];
  }

  lemma ReachedBefore(find: Searcher, key: KeyFinder, b: string, y: string)
    requires Finds(find, key) && KeysStay(key) && Tame(find, y) && Reaches(find, b, y)
    ensures !NoAt(b + y)
  {
    if Opens(find, y) { OpenedBefore(find, key, y); }
    NoAtAfter(b, y);
  }

  lemma {:induction false} UncoveredBefore(find: Searcher, key: KeyFinder, a: string, y: string)
    requires Finds(find, key) && KeysStay(key) && Tame(find, y) && Uncovers(find, a, y)
    ensures FindUrl(a + y).Some?
    decreases |y|
  {
    if HasScheme(a) {
      SchemeStays(a, y);
      ExposedBefore(find, key, AfterScheme(a), y);
    } else {
      var f := find(y);
      assert f.Fits(y);
      var n := if f.Leave? then f.len else 1;
      Advance(a, y, n, []);
      UncoveredBefore(find, key, a + y[..n], y[n..]);
    }
  }

  lemma UncoveredIn(find: Searcher, key: KeyFinder, t: string, n: nat) returns (i: nat)
    requires Finds(find, key) && KeysStay(key) && n <= |t| && Tame(find, t[n..]) && UncoversIn(find, t, n)
    ensures i <= |t| && FindUrl(t[i..]).Some?
  {
    var a;
    i, a := StartOf(find, t, n);
    UncoveredBefore(find, key, a, t[n..]);
  }

  lemma StartOf(find: Searcher, t: string, n: nat) returns (i: nat, a: string)
    requires n <= |t| && UncoversIn(find, t, n)
    ensures i <= |t| && t[i..] == a + t[n..] && Uncovers(find, a, t[n..])
  {
    i :| 0 <= i < n && Uncovers(find, t[i..n], t[n..]);
    a := t[i..n];
    assert t[i..] == a + t[n..];
  }

  /** A tame text is bridged only if it held credentials already. */
  lemma {:induction false} BridgedBefore(find: Searcher, key: KeyFinder, t: string) returns (i: nat)
    requires Finds(find, key) && KeysStay(key) && Tame(find, t) && Bridged(find, t)
    ensures i <= |t| && FindUrl(t[i..]).Some?
    decreases |t|
  {
    var f := find(t);
    assert f.Fits(t);
    var n := if f.Nothing? then 1 else if f.Leave? then f.len else f.end;
    if Bridged(find, t[n..]) {
      var k := BridgedBefore(find, key, t[n..]);
      i := n + k;
      assert t[i..] == t[n..][k..];
    } else {
      i := UncoveredIn(find, key, t, n);
    }
  }

  lemma FoundIn(t: string, i: nat)
    requires i <= |t| && FindUrl(t[i..]).Some?
    ensures !Stable(UrlCredentials, t)
  {
    assert URL(t[i..]).Some?;
  }

  lemma TameIsNotBridged(find: Searcher, key: KeyFinder, u: string)
    requires Finds(find, key) && KeysStay(key) && Tame(find, u) && Stable(UrlCredentials, u)
    ensures !Bridged(find, u)
  {
    if Bridged(find, u) {
      var i := BridgedBefore(find, key, u);
      FoundIn(u, i);
    }
  }

  /** Where no value taken out can end an authority, a second pass is clean. */
  lemma TameIsClean(t: string)
    requires Tame(PAIRS, Shapes(t))
    ensures Clean(PAIRS, Redacted(t))
  {
    SecretKeysStay();
    SearchingFinds(KEY);
    NoShapeIsLeft(UrlCredentials, t);
    TameIsNotBridged(PAIRS, KEY, Shapes(t));
    CleanIffNotBridged(t);
  }
}
