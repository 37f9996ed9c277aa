/**
 Why no rule finds anything in the text it wrote itself.
 */
module RedactOnce {
  import opened Common
  import opened Rewriting
  import opened RedactRules
  import opened RedactStability

  // ------------------------------------------------------------ rules with a fixed pattern

  /** The hit is where p stands, unless the marker m follows it already. */
  predicate FixedAt(t: string, h: Option<Hit>, p: string, m: string) {
    && (h.Some? <==> p <= t && !(p + m <= t))
    && (h.Some? ==> Fits(t, h) && h.value.keep == |p|)
  }

  ghost predicate Fixed(find: Finder, p: string, m: string) {
    forall t {:trigger FixedAt(t, find(t), p, m)} :: FixedAt(t, find(t), p, m)
  }

  /** In what is written, p starts at the front only, whatever follows. */
  ghost predicate StartsOnce(p: string, m: string) {
    && p != [] && AtMostLast(p[1..], p) && AtMostLast((p + m)[1..], p)
    && forall a, z :: 0 < a < |p + m| ==> !(p <= (p + m)[a..] + z)
  }

  lemma FixedCopies(find: Finder, p: string, m: string)
    requires Fixed(find, p, m) && KeepsTrigger(find, p) && StartsOnce(p, m)
    ensures CopiesCleanly(find, m)
  {
    forall t ensures CopiesCleanlyAt(find, m, t) {
      if t != [] && find(t).None? {
        var f := Rewrite(find, m, t);
        CopiedPrefix(find, m, t, p, p);
        CopiedPrefix(find, m, t, p + m, p);
        assert FixedAt(t, find(t), p, m) && FixedAt(f, find(f), p, m);
      }
    }
  }

  lemma FixedReplacesOne(find: Finder, p: string, m: string, t: string)
    requires Fixed(find, p, m) && StartsOnce(p, m)
    requires find(t).Some? && Fits(t, find(t)) && StableFor(find, Rewrite(find, m, t[find(t).value.skip..]))
    ensures StableFor(find, Rewrite(find, m, t))
  {
    assert FixedAt(t, find(t), p, m);
    var z := Rewrite(find, m, t[find(t).value.skip..]);
    var w := p + m;
    UnfoldHit(find, m, t, find(t).value);
    assert t[..|p|] == p && p + (m + z) == w + z;
    forall a | 0 <= a < |w| ensures find(w[a..] + z).None? {
      assert FixedAt(w[a..] + z, find(w[a..] + z), p, m);
      if a == 0 { assert w <= w[0..] + z; }
    }
    StableJoin(find, w, z);
  }

  lemma FixedReplaces(find: Finder, p: string, m: string)
    requires Fixed(find, p, m) && StartsOnce(p, m)
    ensures ReplacesCleanly(find, m)
  {
    forall t ensures ReplacesCleanlyAt(find, m, t) {
      if find(t).Some? && Fits(t, find(t)) && StableFor(find, Rewrite(find, m, t[find(t).value.skip..])) {
        FixedReplacesOne(find, p, m, t);
      }
    }
  }

  // ------------------------------------------------------------ encrypted values and tokens

  lemma AppendPrefix(t: string, p: string, m: string)
    requires p <= t
    ensures m <= t[|p|..] <==> p + m <= t
  {
    assert t[..|p|] == p;
    assert |t| >= |p| + |m| ==> t[..|p| + |m|] == p + t[|p|..][..|m|];
  }

  lemma EncryptedFixed()
    ensures Fixed(ENCRYPTED, Trigger(EncryptedValue), MarkerOf(EncryptedValue))
  {
    forall t ensures FixedAt(t, ENCRYPTED(t), Trigger(EncryptedValue), MarkerOf(EncryptedValue)) {
      if Trigger(EncryptedValue) <= t { AppendPrefix(t, Trigger(EncryptedValue), MarkerOf(EncryptedValue)); }
    }
  }

  lemma TokenFixed()
    ensures Fixed(TOKEN, Trigger(ReliaburgerToken), MARKER)
  {
    forall t ensures FixedAt(t, TOKEN(t), Trigger(ReliaburgerToken), MARKER) {
      if Trigger(ReliaburgerToken) <= t { AppendPrefix(t, Trigger(ReliaburgerToken), MARKER); }
    }
  }

  /** Wherever the first character of p stands in w, past the front, another than its second follows. */
  predicate Distinct(w: string, p: string) {
    |p| > 1 && |w| > 0 && w[|w| - 1] != p[0]
    && forall i :: 0 < i < |w| - 1 && w[i] == p[0] ==> w[i + 1] != p[1]
  }

  lemma DistinctStartsOnce(p: string, m: string)
    requires Distinct(p + m, p)
    ensures StartsOnce(p, m)
  {
    var w := p + m;
    forall a, z | 0 < a < |w| ensures !(p <= w[a..] + z) { NotHere(w, p, a, z); }
    NotInTail(w, p, |w|);
    NotInTail(w, p, |p|);
    assert w[1..|p|] == p[1..] && w[1..|w|] == w[1..];
  }

  lemma NotHere(w: string, p: string, a: nat, z: string)
    requires Distinct(w, p) && 0 < a < |w|
    ensures !(p <= w[a..] + z)
  {
    var x := w[a..] + z;
    assert x[0] == w[a];
    if a + 1 < |w| { assert x[1] == w[a + 1]; }
  }

  lemma NotInTail(w: string, p: string, n: nat)
    requires Distinct(w, p) && 1 <= n <= |w|
    ensures AtMostLast(w[1..n], p)
  {
    if n > 1 {
      var s := w[1..n][..n - 2];
      forall i | 0 <= i <= |s| - |p| ensures !(p <= s[i..]) {
        assert s[i..][0] == w[i + 1] && s[i..][1] == w[i + 2];
      }
    }
  }

  lemma EncryptedOnce(t: string)
    ensures StableFor(ENCRYPTED, Rewrite(ENCRYPTED, MarkerOf(EncryptedValue), t))
  {
    var p, m := Trigger(EncryptedValue), MarkerOf(EncryptedValue);
    EncryptedDistinct();
    DistinctStartsOnce(p, m);
    EncryptedFixed();
    EncryptedKeeps();
    FixedCopies(ENCRYPTED, p, m);
    FixedReplaces(ENCRYPTED, p, m);
    BecomesStable(ENCRYPTED, m, t);
  }

  lemma EncryptedDistinct()
    ensures Distinct(Trigger(EncryptedValue) + MarkerOf(EncryptedValue), Trigger(EncryptedValue))
  {
    assert Trigger(EncryptedValue) + MarkerOf(EncryptedValue) == ENC_DONE;
  }

  const TOKEN_DONE: string := "rbrg_[redacted]"

  lemma TokenDistinct()
    ensures Distinct(Trigger(ReliaburgerToken) + MARKER, Trigger(ReliaburgerToken))
  {
    assert Trigger(ReliaburgerToken) + MARKER == TOKEN_DONE;
  }

  lemma TokenOnce(t: string)
    ensures StableFor(TOKEN, Tokens(t))
  {
    var p := Trigger(ReliaburgerToken);
    TokenDistinct();
    DistinctStartsOnce(p, MARKER);
    TokenFixed();
    TokenKeeps();
    FixedCopies(TOKEN, p, MARKER);
    FixedReplaces(TOKEN, p, MARKER);
    BecomesStable(TOKEN, MARKER, t);
  }

  // ------------------------------------------------------------ age identities

  const AGE_DONE: string := "AGE-SECRET-KEY-1[redacted]"

  lemma NoAgeInWritten(z: string, a: nat)
    requires a < |AGE_DONE|
    ensures FindAge(AGE_DONE[a..] + z).None?
  {
    var x := AGE_DONE[a..] + z;
    assert x[0] == AGE_DONE[a];
    if a == 0 {
      assert x[16..][0] == AGE_DONE[16];
    } else {
      assert x[0] != 'A';
    }
  }

  lemma AgeReplacesOne(t: string)
    requires FindAge(t).Some? && StableFor(AGE, Rewrite(AGE, MARKER, t[FindAge(t).value.skip..]))
    ensures StableFor(AGE, Rewrite(AGE, MARKER, t))
  {
    var z := Rewrite(AGE, MARKER, t[FindAge(t).value.skip..]);
    UnfoldHit(AGE, MARKER, t, FindAge(t).value);
    WrittenAge(t, z);
    StableAfterAge(z);
  }

  lemma WrittenAge(t: string, z: string)
    requires Trigger(AgeIdentity) <= t
    ensures t[..16] + (MARKER + z) == AGE_DONE + z
  {
    assert t[..16] == Trigger(AgeIdentity) && Trigger(AgeIdentity) + MARKER == AGE_DONE;
  }

  lemma StableAfterAge(z: string)
    requires StableFor(AGE, z)
    ensures StableFor(AGE, AGE_DONE + z)
  {
    forall a | 0 <= a < |AGE_DONE| ensures FindAge(AGE_DONE[a..] + z).None? { NoAgeInWritten(z, a); }
    StableJoin(AGE, AGE_DONE, z);
  }

  lemma AgeCopiesOne(t: string)
    requires t != [] && FindAge(t).None?
    ensures FindAge(Rewrite(AGE, MARKER, t)).None?
  {
    var f := Rewrite(AGE, MARKER, t);
    AgeIs(t);
    AgeIs(f);
    if |f| > 16 {
      var w := AgePlus(f[16]);
      AgeKeeps();
      assert |w[1..][..15]| < |Trigger(AgeIdentity)|;
      CopiedPrefix(AGE, MARKER, t, w, Trigger(AgeIdentity));
      assert w <= t ==> t[16] == f[16];
    }
  }

  lemma AgeOnce(t: string)
    ensures StableFor(AGE, Rewrite(AGE, MARKER, t))
  {
    forall u ensures CopiesCleanlyAt(AGE, MARKER, u) { if u != [] && FindAge(u).None? { AgeCopiesOne(u); } }
    forall u ensures ReplacesCleanlyAt(AGE, MARKER, u) {
      if FindAge(u).Some? && StableFor(AGE, Rewrite(AGE, MARKER, u[FindAge(u).value.skip..])) { AgeReplacesOne(u); }
    }
    BecomesStable(AGE, MARKER, t);
  }

  // ------------------------------------------------------------ the URL rule

  /** Everything a scheme could start in up to the end of "://" shares the text that follows. */
  lemma SchemePositions(x: string, a: nat)
    requires HasScheme(x) && a < SchemeLen(x) + 3
    ensures FindUrl(x[a..]).Some? ==> Exposed(RunOf(AfterScheme(x)))
  {
    var n := SchemeLen(x);
    SchemeHas(x, n);
    if a < n {
      SchemeParts(x);
      InnerScheme(x, n, a);
    }
  }

  lemma InnerScheme(x: string, n: nat, a: nat)
    requires a < n && n + 3 <= |x| && x[..n + 3] == x[..n] + "://" && forall c :: c in x[..n] ==> IsSchemeChar(c)
    ensures SchemeLen(x[a..]) == n - a && x[a..][n - a + 3..] == x[n + 3..]
  {
    var head := x[a..n];
    assert forall i :: 0 <= i < |head| ==> head[i] == x[..n][a + i];
    assert x[n] == x[..n + 3][n];
    assert x[a..] == head + [':'] + x[n + 1..];
    SpanAll(head, ':', x[n + 1..], IsSchemeChar);
  }

  /** The URL rule does not change the user-information run at the front of a text. */
  lemma RunAcrossUrl(y: string)
    ensures RunOf(Urls(y)) == RunOf(y)
  {
    var n := Span(y, IsUserinfo);
    SpanTaken(y, IsUserinfo);
    if n < |y| {
      SplitHere(y, n);
      RunStays(y[..n], y[n], y[n + 1..]);
    } else {
      assert y[..n] == y;
      NoSlashIsCopied(y);
    }
  }

  lemma RunStays(run: string, c: char, rest: string)
    requires !IsUserinfo(c) && forall d :: d in run ==> IsUserinfo(d)
    ensures RunOf(Urls(run + [c] + rest)) == run
  {
    var y, w := run + [c] + rest, run + [c];
    assert w[..|run|] == run;
    NoCharNoTrigger(run, "://", 1);
    UrlKeeps();
    PrefixAgree(URL, MARKER, y, w, "://");
    assert y[..|w|] == w;
    RunOfPrefix(Urls(y), run, c);
  }

  lemma RunOfPrefix(f: string, run: string, c: char)
    requires run + [c] <= f && !IsUserinfo(c) && forall d :: d in run ==> IsUserinfo(d)
    ensures RunOf(f) == run
  {
    var rest := f[|run| + 1..];
    assert f[..|run| + 1] == run + [c];
    assert f == run + [c] + rest;
    TakeRun(run, c, rest);
  }

  lemma NoSlashIsCopied(y: string)
    requires '/' !in y
    ensures Urls(y) == y
  {
    forall i | 0 <= i < |y| ensures FindUrl(y[i..]).None? { NoSlashNoScheme(y, i); }
    CopyThrough(URL, MARKER, y, |y|);
    assert y[|y|..] == [] && y[..|y|] == y;
  }

  lemma NoSlashNoScheme(y: string, i: nat)
    requires '/' !in y && i < |y|
    ensures !HasScheme(y[i..])
  {
    var x := y[i..];
    var n := SchemeLen(x);
    assert |x[n..]| > 1 ==> x[n..][1] == y[i + n + 1] && y[i + n + 1] in y;
  }

  lemma SchemeEndsOnce(head: string)
    requires forall c :: c in head ==> IsSchemeChar(c)
    ensures AtMostLast(head + "://", "://")
  {
    var w := head + "://";
    var v := w[..|w| - 1];
    forall i | 0 <= i <= |v| - 3 ensures !("://" <= v[i..]) {
      assert v[i..][1] == v[i + 1] && (i + 1 < |head| ==> v[i + 1] in head);
    }
  }

  /** A scheme stands at the front of the rewritten text exactly where it stood before. */
  lemma SchemeWasThere(t: string)
    requires HasScheme(Urls(t))
    ensures HasScheme(t) && SchemeLen(t) == SchemeLen(Urls(t))
  {
    var f := Urls(t);
    SchemeParts(f);
    var head := f[..SchemeLen(f)];
    SchemeEndsOnce(head);
    UrlKeeps();
    PrefixAgree(URL, MARKER, t, head + "://", "://");
    SchemeOfPrefix(t, head);
  }

  /** A scheme without exposed user information is copied through. */
  lemma SchemeIsCopied(t: string)
    requires HasScheme(t) && FindUrl(t).None?
    ensures SchemeLen(t) + 3 <= |t| && Urls(t) == t[..SchemeLen(t) + 3] + Urls(AfterScheme(t))
    ensures Hits(URL, t) == Hits(URL, AfterScheme(t))
  {
    var n := SchemeLen(t);
    SchemeHas(t, n);
    forall i | 0 <= i < n + 3 ensures FindUrl(t[i..]).None? { SchemePositions(t, i); }
    CopyThrough(URL, MARKER, t, n + 3);
  }

  lemma UrlCopiesOne(t: string)
    requires HasScheme(Urls(t)) && FindUrl(t).None?
    ensures FindUrl(Urls(t)).None?
  {
    SchemeWasThere(t);
    SchemeIsCopied(t);
    var n, y := SchemeLen(t), AfterScheme(t);
    assert (t[..n + 3] + Urls(y))[n + 3..] == Urls(y);
    RunAcrossUrl(y);
  }

  /** Past the marker the run goes on at the last @, so the marker is all the user information there is. */
  lemma MarkedRun(rest: string)
    requires '@' !in RunOf(rest)
    ensures !Exposed(RunOf(MARKER + (['@'] + rest)))
  {
    var y, head, run := MARKER + (['@'] + rest), MARKER + ['@'], RunOf(rest);
    assert y == head + rest;
    SpanThrough(head, rest, IsUserinfo);
    assert RunOf(y) == head + run;
    ExposedOf(MARKER, run);
  }

  /** What follows the secret in a URL: the last @ of the run, then a run without one. */
  lemma AfterSecret(t: string, hit: Hit) returns (v: string)
    requires FindUrl(t) == Some(hit)
    ensures hit.skip < |t| && v == t[hit.skip + 1..] && t[hit.skip..] == ['@'] + v && '@' !in RunOf(v)
  {
    var y := AfterScheme(t);
    var k := Userinfo(RunOf(y)).value;
    v := y[k + 1..];
    assert t[hit.skip..] == y[k..];
    AfterUserinfo(y, k);
  }

  lemma AfterUserinfo(y: string, k: nat)
    requires LastAt(RunOf(y)) == Some(k)
    ensures k < |y| && y[k..] == ['@'] + y[k + 1..] && '@' !in RunOf(y[k + 1..])
  {
    var n := Span(y, IsUserinfo);
    var run := y[..n];
    NoAtPast(run, k);
    CutRun(y, n, k);
    SpanTaken(y, IsUserinfo);
    RunOfJoin(run[k + 1..], y[n..]);
  }

  lemma CutRun(y: string, n: nat, k: nat)
    requires k < n <= |y|
    ensures y[..n][k] == y[k] && y[k + 1..] == y[..n][k + 1..] + y[n..] && y[k..] == [y[k]] + y[k + 1..]
  {}

  lemma NoAtPast(run: string, k: nat)
    requires LastAt(run) == Some(k)
    ensures k < |run| && '@' !in run[k + 1..] && forall c :: c in run[k + 1..] ==> c in run
  {
    var b := run[k + 1..];
    assert forall i :: 0 <= i < |b| ==> b[i] == run[k + 1 + i];
  }

  lemma RunOfJoin(b: string, tail: string)
    requires (forall c :: c in b ==> IsUserinfo(c)) && (tail != [] ==> !IsUserinfo(tail[0]))
    ensures RunOf(b + tail) == b
  {
    SpanThrough(b, tail, IsUserinfo);
    assert (b + tail)[..|b|] == b;
  }

  lemma SameScheme(t: string, y: string)
    requires HasScheme(t)
    ensures var x := t[..SchemeLen(t) + 3] + y; HasScheme(x) && SchemeLen(x) == SchemeLen(t) && AfterScheme(x) == y
  {
    SchemeParts(t);
    var n := SchemeLen(t);
    SchemeOfPrefix(t[..n + 3] + y, t[..n]);
  }

  lemma UrlWritten(t: string, hit: Hit, v: string)
    requires FindUrl(t) == Some(hit) && t[hit.skip..] == ['@'] + v && '@' !in RunOf(v)
    ensures !Exposed(RunOf(MARKER + Urls(['@'] + v)))
  {
    var u := ['@'] + v;
    assert u[0] == '@' && u[1..] == v && FindUrl(u).None?;
    UnfoldMiss(URL, MARKER, u);
    RunAcrossUrl(v);
    MarkedRun(Urls(v));
  }

  lemma UrlReplacesOne(t: string, hit: Hit)
    requires FindUrl(t) == Some(hit) && StableFor(URL, Urls(t[hit.skip..]))
    ensures StableFor(URL, Urls(t))
  {
    var v := AfterSecret(t, hit);
    var z := Urls(t[hit.skip..]);
    UrlWritten(t, hit, v);
    UnfoldHit(URL, MARKER, t, hit);
    SameScheme(t, MARKER + z);
    UrlStable(t[..hit.keep], z);
  }

  lemma UrlStable(kept: string, z: string)
    requires HasScheme(kept + (MARKER + z)) && SchemeLen(kept + (MARKER + z)) + 3 == |kept|
    requires !Exposed(RunOf(MARKER + z)) && StableFor(URL, z)
    ensures StableFor(URL, kept + (MARKER + z))
  {
    forall i | 0 <= i < |MARKER| ensures FindUrl(MARKER[i..] + z).None? { NoSchemeInMarker(z, i); }
    forall a | 0 <= a < |kept| ensures FindUrl(kept[a..] + (MARKER + z)).None? { NoUrlInScheme(kept, MARKER + z, a); }
    StableJoinTwo(URL, kept, MARKER, z);
  }

  lemma NoUrlInScheme(kept: string, y: string, a: nat)
    requires HasScheme(kept + y) && SchemeLen(kept + y) + 3 == |kept| && !Exposed(RunOf(y)) && a < |kept|
    ensures FindUrl(kept[a..] + y).None?
  {
    var x := kept + y;
    assert AfterScheme(x) == y;
    SchemePositions(x, a);
    assert x[a..] == kept[a..] + y;
  }

  lemma UrlOnce(t: string)
    ensures StableFor(URL, Urls(t))
  {
    forall u ensures CopiesCleanlyAt(URL, MARKER, u) {
      if HasScheme(Urls(u)) && FindUrl(u).None? { UrlCopiesOne(u); }
    }
    forall u ensures ReplacesCleanlyAt(URL, MARKER, u) {
      var h := FindUrl(u);
      if h.Some? && StableFor(URL, Urls(u[h.value.skip..])) { UrlReplacesOne(u, h.value); }
    }
    BecomesStable(URL, MARKER, t);
  }

  /** A rule leaves a text in which it finds nothing. */
  lemma Establishes(rule: Rule, t: string)
    ensures Stable(rule, Apply(rule, t))
  {
    match rule
    case EncryptedValue => EncryptedOnce(t);
    case AgeIdentity => AgeOnce(t);
    case UrlCredentials => UrlOnce(t);
    case ReliaburgerToken => TokenOnce(t);
  }
}
