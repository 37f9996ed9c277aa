/**
 What the key-value rule, which runs last, leaves of the rules before it: it
 uncovers nothing that has a fixed prefix.
 */
module RedactLast {
  import opened Common
  import opened Passing
  import opened Rewriting
  import opened RedactRules
  import opened RedactStability
  import opened RedactOnce
  import opened RedactKeyValues
  import opened RedactKeys
  import opened RedactPairs

  // ------------------------------------------------------------ what a match keeps

  /** The last character kept before a value. */
  predicate EndsKept(c: char) {
    IsSep(c) || IsBlank(c) || IsQuote(c)
  }

  predicate ClosesValue(c: char) {
    c == '\\' || IsQuote(c)
  }

  predicate KeptText(t: string, keep: nat) {
    0 < keep <= |t| && AllKept(t[..keep]) && EndsKept(t[keep - 1])
  }

  lemma OpeningText(shape: Shape)
    ensures AllKept(Opening(shape)) && (Opening(shape) != [] ==> IsQuote(Opening(shape)[|Opening(shape)| - 1]))
  {}

  lemma ClosingText(shape: Shape, tail: string)
    ensures forall c :: c in tail[..Closing(shape, tail)] ==> ClosesValue(c)
  {
    var n := Closing(shape, tail);
    assert n == 2 ==> tail[..2] == "\\\"";
    assert n == 1 ==> tail[..1] == "\"" || tail[..1] == "'";
  }

  /** Around a value that is replaced stand the key with its separator and opening quote, and the closing quote. */
  lemma ReplaceText(find: Searcher, key: KeyFinder, t: string)
    requires Finds(find, key) && KeysStay(key) && find(t).Replace?
    ensures var f := find(t);
      f.Fits(t) && KeptText(t, f.keep) && forall c :: c in t[f.skip..f.end] ==> ClosesValue(c)
  {
    var k, shape, body, tail := MatchParts(find, key, t);
    assert KeyFits(t, key(t)) && KeyTextAt(t, key(t));
    CutReplaced(t, k, Opening(shape), body, tail, Closing(shape, tail));
    OpeningText(shape);
    ClosingText(shape, tail);
    KeptJoin(t, k, Opening(shape));
  }

  lemma KeptJoin(t: string, k: nat, open: string)
    requires 0 < k && k + |open| <= |t| && t[..k + |open|] == t[..k] + open
    requires AllKept(t[..k]) && EndsKept(t[k - 1])
    requires AllKept(open) && (open != [] ==> IsQuote(open[|open| - 1]))
    ensures KeptText(t, k + |open|)
  {
    if open != [] { assert t[k + |open| - 1] == t[..k + |open|][k + |open| - 1] == open[|open| - 1]; }
  }

  /** The key is part of what every match keeps. */
  lemma KeyIsKept(find: Searcher, key: KeyFinder, t: string)
    requires Finds(find, key) && !find(t).Nothing?
    ensures key(t).Some? && key(t).value <= find(t).Kept() <= |t|
  {
    var k, shape, body, tail := MatchParts(find, key, t);
    assert find(t).Fits(t);
  }

  /** No = or :, unless a bracket stands close before it. */
  predicate Sealed(w: string) {
    forall s :: 0 <= s < |w| && IsSep(w[s]) ==> s <= 7 && |w| > 3 && w[3] == '['
  }

  lemma SealedIsBlind(find: Searcher, key: KeyFinder, w: string)
    requires Finds(find, key) && KeysStay(key) && Sealed(w)
    ensures Blind(find, w)
  {
    forall x, j: nat ensures BlindAt(x, find(x), w, j) {
      if j <= |w| && find(x).Fits(x) && !find(x).Nothing? {
        KeyIsKept(find, key, x);
        assert KeyFits(x, key(x)) && KeyTextAt(x, key(x));
        NoKeyInside(x, key(x).value, find(x).Kept(), w, j);
      }
    }
  }

  lemma NoKeyInside(x: string, k: nat, n: nat, w: string, j: nat)
    requires 0 < k <= n <= |x| && j <= |w| && Sealed(w) && KeyTextAt(x, Some(k))
    ensures !(x[..n] <= w[j..])
  {
    if j <= 2 && |w| > 3 && w[3] == '[' {
      assert w[j..][3 - j] == '[' && IsKeyChar(x[3 - j]) && x[..n][3 - j] == x[3 - j];
    } else {
      var i :| 5 <= i < k && IsSep(x[i]);
      if j + i < |w| { assert !IsSep(w[j + i]) && w[j..][i] == w[j + i] && x[..n][i] == x[i]; }
    }
  }

  // ------------------------------------------------------------ rules with a fixed prefix

  /** e finds nothing but at a letter, nothing in a marker, and nothing new in what is kept before a value. */
  ghost predicate Withstands(e: Finder) {
    && LetterFirst(e)
    && (forall i: nat, z :: MarkerAt(e, i, z))
    && forall t, a: nat, keep: nat, z :: KeptAt(e, t, a, keep, z)
  }

  ghost predicate LetterFirst(e: Finder) {
    forall x {:trigger LetterAt(x, e(x))} :: LetterAt(x, e(x))
  }

  predicate LetterAt(x: string, h: Option<Hit>) {
    h.Some? ==> x != [] && IsLetter(x[0])
  }

  predicate MarkerAt(e: Finder, i: nat, z: string) {
    i < |MARKER| ==> e(MARKER[i..] + z).None?
  }

  predicate KeptAt(e: Finder, t: string, a: nat, keep: nat, z: string) {
    KeptText(t, keep) && a < keep && e(t[a..]).None? ==> e(t[..keep][a..] + z).None?
  }

  lemma EncryptedWithstands()
    ensures Withstands(ENCRYPTED)
  {
    forall i: nat, z ensures MarkerAt(ENCRYPTED, i, z) { if i < |MARKER| { NoEncryptedInMarker(z, i); } }
    forall t, a: nat, keep: nat, z ensures KeptAt(ENCRYPTED, t, a, keep, z) {
      if KeptText(t, keep) && a < keep { NoEncryptedBeforeValue(t, a, keep, z); }
    }
  }

  lemma NoEncryptedBeforeValue(t: string, a: nat, keep: nat, z: string)
    requires KeptText(t, keep) && a < keep
    ensures FindEncrypted(t[..keep][a..] + z).None?
  {
    var x, n := t[..keep][a..] + z, keep - a;
    if n > 3 { assert x[3] == t[..keep][a + 3] && IsKeptChar(x[3]); } else { assert x[n - 1] == t[keep - 1]; }
  }

  lemma AgeWithstands()
    ensures Withstands(AGE)
  {
    forall i: nat, z ensures MarkerAt(AGE, i, z) { if i < |MARKER| { NoAgeInMarker(z, i); } }
    forall t, a: nat, keep: nat, z ensures KeptAt(AGE, t, a, keep, z) {
      if KeptText(t, keep) && a < keep && FindAge(t[a..]).None? { NoAgeBeforeValue(t, a, keep, z); }
    }
  }

  lemma NoAgeBeforeValue(t: string, a: nat, keep: nat, z: string)
    requires KeptText(t, keep) && a < keep && FindAge(t[a..]).None?
    ensures FindAge(t[..keep][a..] + z).None?
  {
    var x := t[..keep][a..] + z;
    AgeIs(x);
    AgeIs(t[a..]);
    if |x| > 16 && IsAlnum(x[16]) {
      assert t[keep - 1] !in AgePlus(x[16]);
      KeptPrefix(t, a, keep, z, AgePlus(x[16]));
    }
  }

  lemma TokenWithstands()
    ensures Withstands(TOKEN)
  {
    forall i: nat, z ensures MarkerAt(TOKEN, i, z) { if i < |MARKER| { NoTokenInMarker(z, i); } }
    forall t, a: nat, keep: nat, z ensures KeptAt(TOKEN, t, a, keep, z) {
      if KeptText(t, keep) && a < keep && FindToken(t[a..]).None? { NoTokenBeforeValue(t, a, keep, z); }
    }
  }

  lemma NoTokenInMarker(z: string, i: nat)
    requires i < |MARKER|
    ensures FindToken(MARKER[i..] + z).None?
  {
    var x := MARKER[i..] + z;
    assert x[0] == MARKER[i];
    if i == 1 { assert x[1] == MARKER[2]; }
  }

  lemma NoTokenBeforeValue(t: string, a: nat, keep: nat, z: string)
    requires KeptText(t, keep) && a < keep && FindToken(t[a..]).None?
    ensures FindToken(t[..keep][a..] + z).None?
  {
    TokenFixed();
    NotInToken(t[keep - 1]);
    FixedBeforeValue(TOKEN, Trigger(ReliaburgerToken), MARKER, t, a, keep, z);
  }

  lemma NotInToken(c: char)
    requires EndsKept(c)
    ensures c !in Trigger(ReliaburgerToken) && c !in Trigger(ReliaburgerToken) + MARKER
  {
    assert Trigger(ReliaburgerToken) + MARKER == TOKEN_DONE;
  }

  lemma FixedBeforeValue(e: Finder, p: string, m: string, t: string, a: nat, keep: nat, z: string)
    requires Fixed(e, p, m) && a < keep <= |t| && t[keep - 1] !in p && t[keep - 1] !in p + m && e(t[a..]).None?
    ensures e(t[..keep][a..] + z).None?
  {
    var x := t[..keep][a..] + z;
    assert FixedAt(x, e(x), p, m) && FixedAt(t[a..], e(t[a..]), p, m);
    KeptPrefix(t, a, keep, z, p);
    KeptPrefix(t, a, keep, z, p + m);
  }

  lemma Shielded(e: Finder, find: Searcher, key: KeyFinder)
    requires Withstands(e) && Finds(find, key) && KeysStay(key)
    ensures ShieldsMatch(e, find, MARKER)
  {
    forall t, z ensures ShieldsMatchAt(e, find, MARKER, t, z) {
      var f := find(t);
      if f.Replace? && f.Fits(t) && StableFor(e, t) && StableFor(e, z) {
        ReplaceText(find, key, t);
        ShieldedOne(e, t, f.keep, t[f.skip..f.end], z);
      }
    }
  }

  /** A closing quote starts nothing that starts with a letter. */
  lemma StableAfterClose(e: Finder, close: string, z: string)
    requires LetterFirst(e) && StableFor(e, z) && forall c :: c in close ==> ClosesValue(c)
    ensures StableFor(e, close + z)
  {
    forall i | 0 <= i < |close| ensures e(close[i..] + z).None? {
      assert LetterAt(close[i..] + z, e(close[i..] + z)) && (close[i..] + z)[0] == close[i] && ClosesValue(close[i]);
    }
    StableJoin(e, close, z);
  }

  lemma ShieldedOne(e: Finder, t: string, keep: nat, close: string, z: string)
    requires Withstands(e) && KeptText(t, keep) && StableFor(e, t) && StableFor(e, z)
    requires forall c :: c in close ==> ClosesValue(c)
    ensures StableFor(e, t[..keep] + (MARKER + (close + z)))
  {
    StableAfterClose(e, close, z);
    var y := close + z;
    forall i | 0 <= i < |MARKER| ensures e(MARKER[i..] + y).None? { assert MarkerAt(e, i, y); }
    forall a | 0 <= a < keep ensures e(t[..keep][a..] + (MARKER + y)).None? {
      assert KeptAt(e, t, a, keep, MARKER + y);
    }
    StableJoinTwo(e, t[..keep], MARKER, y);
  }

  // ------------------------------------------------------------ prefixes across a pass

  lemma SealedPasses(find: Searcher, key: KeyFinder, a: string, y: string, w: string)
    requires Finds(find, key) && KeysStay(key) && Sealed(w)
    ensures w <= a + Pass(find, MARKER, y) <==> w <= a + y
  {
    SealedIsBlind(find, key, w);
    PrefixPassesAfter(find, MARKER, a, y, w);
  }

  lemma FixedReflectsRest(e: Finder, find: Searcher, key: KeyFinder, p: string, m: string)
    requires Fixed(e, p, m) && Finds(find, key) && KeysStay(key) && Sealed(p) && Sealed(p + m)
    ensures ReflectsRest(e, find, MARKER)
  {
    forall a, y ensures ReflectsRestAt(e, find, MARKER, a, y) {
      var z := Pass(find, MARKER, y);
      SealedPasses(find, key, a, y, p);
      SealedPasses(find, key, a, y, p + m);
      assert FixedAt(a + y, e(a + y), p, m) && FixedAt(a + z, e(a + z), p, m);
    }
  }

  lemma EncryptedSealed()
    ensures Sealed(Trigger(EncryptedValue)) && Sealed(Trigger(EncryptedValue) + MarkerOf(EncryptedValue))
  {
    assert Trigger(EncryptedValue) + MarkerOf(EncryptedValue) == ENC_DONE;
  }

  lemma TokenSealed()
    ensures Sealed(Trigger(ReliaburgerToken)) && Sealed(Trigger(ReliaburgerToken) + MARKER)
  {
    assert Trigger(ReliaburgerToken) + MARKER == TOKEN_DONE;
  }

  lemma AgeSealed(c: char)
    requires IsAlnum(c)
    ensures Sealed(AgePlus(c))
  {
    assert forall i :: 0 <= i < 16 ==> AgePlus(c)[i] == Trigger(AgeIdentity)[i];
  }

  lemma AgeReflectsRest(find: Searcher, key: KeyFinder)
    requires Finds(find, key) && KeysStay(key)
    ensures ReflectsRest(AGE, find, MARKER)
  {
    forall a, y ensures ReflectsRestAt(AGE, find, MARKER, a, y) { AgeReflectsRestAt(find, key, a, y); }
  }

  lemma AgeReflectsRestAt(find: Searcher, key: KeyFinder, a: string, y: string)
    requires Finds(find, key) && KeysStay(key)
    ensures ReflectsRestAt(AGE, find, MARKER, a, y)
  {
    var f := a + Pass(find, MARKER, y);
    AgeIs(a + y);
    AgeIs(f);
    if |f| > 16 && IsAlnum(f[16]) && AgePlus(f[16]) <= f { AgePasses(find, key, a, y, f[16]); }
  }

  lemma AgePasses(find: Searcher, key: KeyFinder, a: string, y: string, c: char)
    requires Finds(find, key) && KeysStay(key) && IsAlnum(c) && AgePlus(c) <= a + Pass(find, MARKER, y)
    ensures AgePlus(c) <= a + y && |a + y| > 16 && (a + y)[16] == c
  {
    AgeSealed(c);
    SealedPasses(find, key, a, y, AgePlus(c));
    SeventeenthIs(a + y, c);
  }

  lemma SeventeenthIs(x: string, c: char)
    requires AgePlus(c) <= x
    ensures |x| > 16 && x[16] == c
  {
    assert x[16] == AgePlus(c)[16];
  }

  /** The key-value rule uncovers nothing for a rule with a fixed prefix. */
  lemma PairsUncoverNothing(rule: Rule, t: string)
    requires !rule.UrlCredentials? && Stable(rule, t)
    ensures Stable(rule, Pairs(t))
  {
    SecretKeysStay();
    SearchingFinds(KEY);
    LeavesStable(rule, PAIRS, KEY, t);
  }

  lemma LeavesStable(rule: Rule, find: Searcher, key: KeyFinder, t: string)
    requires !rule.UrlCredentials? && Stable(rule, t) && Finds(find, key) && KeysStay(key)
    ensures Stable(rule, Pass(find, MARKER, t))
  {
    match rule
    case EncryptedValue =>
      EncryptedWithstands();
      Shielded(ENCRYPTED, find, key);
      EncryptedFixed();
      EncryptedSealed();
      FixedReflectsRest(ENCRYPTED, find, key, Trigger(EncryptedValue), MarkerOf(EncryptedValue));
      PassKeepsStable(ENCRYPTED, find, MARKER, t);
    case AgeIdentity =>
      AgeWithstands();
      Shielded(AGE, find, key);
      AgeReflectsRest(find, key);
      PassKeepsStable(AGE, find, MARKER, t);
    case ReliaburgerToken =>
      TokenWithstands();
      Shielded(TOKEN, find, key);
      TokenFixed();
      TokenSealed();
      FixedReflectsRest(TOKEN, find, key, Trigger(ReliaburgerToken), MARKER);
      PassKeepsStable(TOKEN, find, MARKER, t);
  }
}
