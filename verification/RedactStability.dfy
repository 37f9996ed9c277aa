/**
 Why no rule uncovers a secret for one that ran before it: patterns of the
 earlier rule that stand in the rewritten text stood in the text before.
 */
module RedactStability {
  import opened Common
  import opened Rewriting
  import opened RedactRules

  // ------------------------------------------------------------ what a hit keeps

  /** What every hit keeps ends in `last`. */
  ghost predicate EndsIn(find: Finder, last: char) {
    forall t {:trigger EndsInAt(t, find(t), last)} :: EndsInAt(t, find(t), last)
  }

  predicate EndsInAt(t: string, h: Option<Hit>, last: char) {
    h.Some? ==> Fits(t, h) && t[h.value.keep - 1] == last
  }

  lemma AgeKeeps()
    ensures KeepsTrigger(AGE, Trigger(AgeIdentity)) && EndsIn(AGE, '1')
  {
    forall t ensures KeepsTriggerIn(t, AGE(t), Trigger(AgeIdentity)) && EndsInAt(t, AGE(t), '1') {
      if FindAge(t).Some? { WholeHas(t, Trigger(AgeIdentity)); }
    }
  }

  lemma TokenKeeps()
    ensures KeepsTrigger(TOKEN, Trigger(ReliaburgerToken)) && EndsIn(TOKEN, '_')
  {
    forall t ensures KeepsTriggerIn(t, TOKEN(t), Trigger(ReliaburgerToken)) && EndsInAt(t, TOKEN(t), '_') {
      if FindToken(t).Some? { WholeHas(t, Trigger(ReliaburgerToken)); }
    }
  }

  lemma EncryptedKeeps()
    ensures KeepsTrigger(ENCRYPTED, Trigger(EncryptedValue))
  {
    forall t ensures KeepsTriggerIn(t, ENCRYPTED(t), Trigger(EncryptedValue)) {
      if FindEncrypted(t).Some? { WholeHas(t, Trigger(EncryptedValue)); }
    }
  }

  lemma UrlKeeps()
    ensures KeepsTrigger(URL, Trigger(UrlCredentials)) && EndsIn(URL, '/')
  {
    forall t ensures KeepsTriggerIn(t, URL(t), Trigger(UrlCredentials)) && EndsInAt(t, URL(t), '/') {
      if FindUrl(t).Some? { SchemeHas(t, SchemeLen(t)); }
    }
  }

  lemma WholeHas(t: string, p: string)
    requires p <= t
    ensures Has(t[..|p|], p)
  {
    assert t[..|p|][0..] == p;
  }

  lemma SchemeHas(t: string, n: nat)
    requires n <= |t| && "://" <= t[n..]
    ensures n + 3 <= |t| && Has(t[..n + 3], "://") && t[n] == ':' && t[n + 1] == '/' && t[n + 2] == '/'
  {
    assert t[n..][..3] == "://";
    assert t[..n + 3][n..] == t[n..][..3];
    assert t[n] == t[n..][0] && t[n + 1] == t[n..][1] && t[n + 2] == t[n..][2];
  }

  // ------------------------------------------------------------ encrypted values

  const ENC_DONE: string := "ENC[AGE:[redacted]]"

  /** A character that stands in neither the pattern nor what is written for it. */
  predicate Foreign(c: char) {
    c == '-' || c == '1' || c == '/' || c == '_'
  }

  lemma ForeignToEncrypted(c: char)
    requires Foreign(c)
    ensures c !in ENC_DONE && c !in ENC_DONE[..18]
    ensures c !in Trigger(EncryptedValue) && c !in Trigger(EncryptedValue)[..7]
  {}

  lemma EncryptedIs(t: string)
    ensures FindEncrypted(t).Some? <==> Trigger(EncryptedValue) <= t && !(ENC_DONE <= t)
  {
    var p, m := Trigger(EncryptedValue), MarkerOf(EncryptedValue);
    assert ENC_DONE == p + m;
    if p <= t {
      assert t[..8] == p;
      assert |t| >= 19 ==> t[..19] == t[..8] + t[8..][..11];
    }
  }

  lemma EncryptedReflects(find: Finder, marker: string, p: string, j: nat)
    requires KeepsTrigger(find, p) && j < |p| && Foreign(p[j])
    ensures Reflects(ENCRYPTED, find, marker)
  {
    ForeignToEncrypted(p[j]);
    NoCharNoTrigger(Trigger(EncryptedValue)[..7], p, j);
    NoCharNoTrigger(ENC_DONE[..18], p, j);
    forall t ensures ReflectsAt(ENCRYPTED, find, marker, t) {
      PrefixAgree(find, marker, t, Trigger(EncryptedValue), p);
      PrefixAgree(find, marker, t, ENC_DONE, p);
      EncryptedIs(t);
      EncryptedIs(Rewrite(find, marker, t));
    }
  }

  lemma NoEncryptedInMarker(z: string, i: nat)
    requires i < |MARKER|
    ensures FindEncrypted(MARKER[i..] + z).None?
  {
    assert (MARKER[i..] + z)[0] == MARKER[i] != 'E';
  }

  lemma NoEncryptedInKept(t: string, a: nat, keep: nat, z: string)
    requires a < keep <= |t| && Foreign(t[keep - 1]) && FindEncrypted(t[a..]).None?
    ensures FindEncrypted(t[..keep][a..] + z).None?
  {
    EncryptedIs(t[..keep][a..] + z);
    EncryptedIs(t[a..]);
    ForeignToEncrypted(t[keep - 1]);
    KeptPrefix(t, a, keep, z, Trigger(EncryptedValue));
    KeptPrefix(t, a, keep, z, ENC_DONE);
  }

  lemma EncryptedShieldsOne(t: string, keep: nat, z: string)
    requires 0 < keep <= |t| && Foreign(t[keep - 1]) && StableFor(ENCRYPTED, t) && StableFor(ENCRYPTED, z)
    ensures StableFor(ENCRYPTED, t[..keep] + (MARKER + z))
  {
    forall i | 0 <= i < |MARKER| ensures FindEncrypted(MARKER[i..] + z).None? { NoEncryptedInMarker(z, i); }
    forall a | 0 <= a < keep ensures FindEncrypted(t[..keep][a..] + (MARKER + z)).None? {
      NoEncryptedInKept(t, a, keep, MARKER + z);
    }
    StableJoinTwo(ENCRYPTED, t[..keep], MARKER, z);
  }

  lemma EncryptedShields(find: Finder, last: char)
    requires EndsIn(find, last) && Foreign(last)
    ensures Shields(ENCRYPTED, find, MARKER)
  {
    forall t, z ensures ShieldsAt(ENCRYPTED, find, MARKER, t, z) {
      assert EndsInAt(t, find(t), last);
      if find(t).Some? && StableFor(ENCRYPTED, t) && StableFor(ENCRYPTED, z) {
        EncryptedShieldsOne(t, find(t).value.keep, z);
      }
    }
  }

  /** A pattern without the last kept character cannot run past what is kept. */
  lemma KeptPrefix(t: string, a: nat, keep: nat, z: string, w: string)
    requires a < keep <= |t| && t[keep - 1] !in w
    ensures w <= t[..keep][a..] + z <==> w <= t[a..]
  {
    var x, n := t[..keep][a..] + z, keep - a;
    if |w| <= n - 1 {
      assert x[..|w|] == t[a..][..|w|];
    } else if |w| >= n {
      assert x[n - 1] == t[keep - 1] == t[a..][n - 1] && w[n - 1] in w;
    }
  }

  // ------------------------------------------------------------ age identities

  function AgePlus(c: char): string {
    Trigger(AgeIdentity) + [c]
  }

  lemma AgeIs(t: string)
    ensures FindAge(t).Some? <==> |t| > 16 && IsAlnum(t[16]) && AgePlus(t[16]) <= t
  {
    var p := Trigger(AgeIdentity);
    if p <= t && |t| > 16 {
      assert t[16..][0] == t[16];
      assert t[..17] == t[..16] + [t[16]];
    }
    if |t| > 16 && AgePlus(t[16]) <= t { assert t[..16] == AgePlus(t[16])[..16]; }
  }

  lemma AgeReflects(find: Finder, marker: string, p: string, j: nat)
    requires KeepsTrigger(find, p) && j < |p| && (p[j] == '/' || p[j] == '_')
    ensures Reflects(AGE, find, marker)
  {
    forall t ensures ReflectsAt(AGE, find, marker, t) {
      var f := Rewrite(find, marker, t);
      AgeIs(t);
      AgeIs(f);
      if |f| > 16 {
        assert AgePlus(f[16])[..16] == Trigger(AgeIdentity);
        NoCharNoTrigger(Trigger(AgeIdentity), p, j);
        PrefixAgree(find, marker, t, AgePlus(f[16]), p);
        assert AgePlus(f[16]) <= t ==> t[16] == f[16];
      }
    }
  }

  lemma NoAgeInMarker(z: string, i: nat)
    requires i < |MARKER|
    ensures FindAge(MARKER[i..] + z).None?
  {
    assert (MARKER[i..] + z)[0] == MARKER[i] != 'A';
  }

  lemma NoAgeInKept(t: string, a: nat, keep: nat, z: string)
    requires a < keep <= |t| && (t[keep - 1] == '/' || t[keep - 1] == '_') && FindAge(t[a..]).None?
    ensures FindAge(t[..keep][a..] + z).None?
  {
    var x := t[..keep][a..] + z;
    AgeIs(x);
    AgeIs(t[a..]);
    if |x| > 16 && IsAlnum(x[16]) {
      assert t[keep - 1] !in AgePlus(x[16]);
      KeptPrefix(t, a, keep, z, AgePlus(x[16]));
    }
  }

  lemma AgeShieldsOne(t: string, keep: nat, z: string)
    requires 0 < keep <= |t| && (t[keep - 1] == '/' || t[keep - 1] == '_') && StableFor(AGE, t) && StableFor(AGE, z)
    ensures StableFor(AGE, t[..keep] + (MARKER + z))
  {
    forall i | 0 <= i < |MARKER| ensures FindAge(MARKER[i..] + z).None? { NoAgeInMarker(z, i); }
    forall a | 0 <= a < keep ensures FindAge(t[..keep][a..] + (MARKER + z)).None? {
      NoAgeInKept(t, a, keep, MARKER + z);
    }
    StableJoinTwo(AGE, t[..keep], MARKER, z);
  }

  lemma AgeShields(find: Finder, last: char)
    requires EndsIn(find, last) && (last == '/' || last == '_')
    ensures Shields(AGE, find, MARKER)
  {
    forall t, z ensures ShieldsAt(AGE, find, MARKER, t, z) {
      assert EndsInAt(t, find(t), last);
      if find(t).Some? && StableFor(AGE, t) && StableFor(AGE, z) { AgeShieldsOne(t, find(t).value.keep, z); }
    }
  }

  // ------------------------------------------------------------ runs of characters

  lemma {:induction false} SpanOfJoin(a: string, c: char, b: string, p: char -> bool)
    requires !p(c)
    ensures Span(a + [c] + b, p) == Span(a, p)
    decreases |a|
  {
    var t := a + [c] + b;
    if a == [] {
      assert t[0] == c;
    } else {
      assert t[0] == a[0] && t[1..] == a[1..] + [c] + b;
      if p(a[0]) { SpanOfJoin(a[1..], c, b, p); }
    }
  }

  lemma {:induction false} SpanThrough(a: string, b: string, p: char -> bool)
    requires forall c :: c in a ==> p(c)
    ensures Span(a + b, p) == |a| + Span(b, p)
    decreases |a|
  {
    if a == [] {
      assert a + b == b;
    } else {
      assert (a + b)[0] == a[0] && (a + b)[1..] == a[1..] + b;
      SpanThrough(a[1..], b, p);
    }
  }

  lemma SpanAll(a: string, c: char, b: string, p: char -> bool)
    requires !p(c) && forall d :: d in a ==> p(d)
    ensures Span(a + [c] + b, p) == |a|
  {
    SpanThrough(a, [c] + b, p);
    assert a + [c] + b == a + ([c] + b) && ([c] + b)[0] == c;
  }

  lemma SpanWhole(a: string, p: char -> bool)
    requires forall d :: d in a ==> p(d)
    ensures Span(a, p) == |a|
  {
    SpanThrough(a, [], p);
    assert a + [] == a;
  }

  lemma SpanTaken(y: string, p: char -> bool)
    ensures forall c :: c in y[..Span(y, p)] ==> p(c)
  {}

  /** A scheme of n characters, then "://", then y. */
  lemma SchemeOfPrefix(t: string, head: string)
    requires head != [] && IsLetter(head[0]) && head + "://" <= t
    requires forall c :: c in head ==> IsSchemeChar(c)
    ensures HasScheme(t) && SchemeLen(t) == |head|
  {
    var n := |head|;
    assert t[..n + 3] == head + "://";
    assert t[n..][..3] == t[..n + 3][n..] == "://";
    assert t == head + [':'] + t[n + 1..];
    SpanAll(head, ':', t[n + 1..], IsSchemeChar);
  }

  lemma SchemeParts(t: string)
    requires HasScheme(t)
    ensures var n := SchemeLen(t);
      && n + 3 <= |t| && t[..n + 3] == t[..n] + "://" && n > 0
      && (forall c :: c in t[..n] ==> IsSchemeChar(c)) && t == t[..n + 3] + AfterScheme(t)
  {
    var n := SchemeLen(t);
    SchemeHas(t, n);
    assert t[..n + 3] == t[..n] + t[n..][..3];
    SpanTaken(t, IsSchemeChar);
  }

  // ------------------------------------------------------------ the last @

  lemma {:induction false} LastAtIs(a: string, b: string)
    requires '@' !in b
    ensures LastAt(a + ['@'] + b) == Some(|a|)
    decreases |b|
  {
    var s := a + ['@'] + b;
    if b == [] {
      assert s[|s| - 1] == '@';
    } else {
      assert s[|s| - 1] == b[|b| - 1] && s[..|s| - 1] == a + ['@'] + b[..|b| - 1];
      LastAtIs(a, b[..|b| - 1]);
    }
  }

  lemma ExposedOf(a: string, b: string)
    requires '@' !in b
    ensures Exposed(a + ['@'] + b) <==> a != [] && a != MARKER
  {
    LastAtIs(a, b);
    assert (a + ['@'] + b)[..|a|] == a;
  }

  /** A run splits at its last @, or has none. */
  lemma SplitRun(run: string) returns (a: string, b: string)
    requires '@' in run
    ensures run == a + ['@'] + b && '@' !in b
  {
    var k := LastAt(run).value;
    a, b := run[..k], run[k + 1..];
    assert forall i :: 0 <= i < |b| ==> b[i] == run[k + 1 + i];
  }

  lemma NoAtNotExposed(run: string)
    requires '@' !in run
    ensures !Exposed(run)
  {
  }

  // ------------------------------------------------------------ URLs across the token rule

  /** A character no token, no token prefix and no marker contains. */
  predicate Separates(c: char) {
    !IsTokenChar(c) && c != '[' && c != ']'
  }

  lemma PrefixOfJoin(a: string, c: char, b: string, w: string)
    requires c !in w
    ensures w <= a + [c] + b <==> w <= a
  {
    var t := a + [c] + b;
    if |w| <= |a| { assert t[..|w|] == a[..|w|]; } else { assert t[|a|] == c && w[|a|] in w; }
  }

  lemma TokenFindLocal(a: string, c: char, b: string)
    requires Separates(c) && a != []
    ensures FindToken(a + [c] + b) == FindToken(a)
  {
    var t, p := a + [c] + b, Trigger(ReliaburgerToken);
    PrefixOfJoin(a, c, b, p);
    if p <= a {
      assert t[5..] == a[5..] + [c] + b;
      PrefixOfJoin(a[5..], c, b, MARKER);
      SpanOfJoin(a[5..], c, b, IsTokenChar);
    }
  }

  lemma TokenSplitsAt(c: char)
    requires Separates(c)
    ensures SplitsAt(TOKEN, c)
  {
    forall a, b ensures SplitsBetween(TOKEN, a, c, b) {
      if a == [] { assert (a + [c] + b)[0] == c; } else { TokenFindLocal(a, c, b); }
    }
  }

  lemma TokensSplit(a: string, c: char, b: string)
    requires Separates(c)
    ensures Tokens(a + [c] + b) == Tokens(a) + [c] + Tokens(b)
  {
    TokenSplitsAt(c);
    Split(TOKEN, MARKER, a, c, b);
  }

  lemma MarkerChars(p: char -> bool)
    requires forall c :: IsTokenChar(c) || c == '[' || c == ']' ==> p(c)
    ensures forall c :: c in MARKER ==> p(c)
  {}

  lemma NoUnderscoreIsCopied(a: string)
    requires '_' !in a
    ensures Tokens(a) == a
  {
    forall i | 0 <= i < |a| ensures FindToken(a[i..]).None? {
      assert |a[i..]| > 4 ==> a[i..][4] == a[i + 4] && a[i + 4] in a;
    }
    CopyThrough(TOKEN, MARKER, a, |a|);
    assert a[|a|..] == [] && a[..|a|] == a;
  }

  /** The user-information run after the token rule is the token rule of the run. */
  lemma RunAcrossToken(y: string)
    ensures RunOf(Tokens(y)) == Tokens(RunOf(y))
  {
    var n := Span(y, IsUserinfo);
    var run := y[..n];
    SpanTaken(y, IsUserinfo);
    MarkerChars(IsUserinfo);
    KeepsChars(TOKEN, MARKER, run, IsUserinfo);
    if n < |y| {
      SplitHere(y, n);
      RunAcrossSplit(run, y[n], y[n + 1..]);
    } else {
      assert run == y;
      SpanWhole(Tokens(run), IsUserinfo);
    }
  }

  lemma SplitHere(y: string, n: nat)
    requires n < |y|
    ensures y == y[..n] + [y[n]] + y[n + 1..]
  {}

  lemma RunAcrossSplit(run: string, c: char, rest: string)
    requires !IsUserinfo(c) && forall d :: d in Tokens(run) ==> IsUserinfo(d)
    ensures RunOf(Tokens(run + [c] + rest)) == Tokens(run)
  {
    TokensSplit(run, c, rest);
    TakeRun(Tokens(run), c, Tokens(rest));
  }

  lemma TakeRun(f: string, c: char, b: string)
    requires !IsUserinfo(c) && forall d :: d in f ==> IsUserinfo(d)
    ensures RunOf(f + [c] + b) == f
  {
    SpanAll(f, c, b, IsUserinfo);
    assert (f + [c] + b)[..|f|] == f;
  }

  predicate NotAt(c: char) {
    c != '@'
  }

  lemma UserinfoAcrossAt(a: string, b: string)
    requires '@' !in b
    ensures Exposed(Tokens(a + ['@'] + b)) ==> Exposed(a + ['@'] + b)
  {
    TokensAddNoAt(b);
    TokensSplit(a, '@', b);
    ExposedOf(a, b);
    ExposedOf(Tokens(a), Tokens(b));
    TokensOfUserinfo(a);
  }

  lemma TokensAddNoAt(b: string)
    requires '@' !in b
    ensures '@' !in Tokens(b)
  {
    MarkerChars(NotAt);
    KeepsChars(TOKEN, MARKER, b, NotAt);
    assert NotAt('@') == false;
  }

  lemma TokensOfUserinfo(a: string)
    ensures (a == [] ==> Tokens(a) == []) && (a == MARKER ==> Tokens(a) == MARKER)
  {
    if a == MARKER { NoUnderscoreIsCopied(a); }
  }

  /** The token rule exposes no user information that was not exposed. */
  lemma UserinfoAcrossToken(run: string)
    ensures Exposed(Tokens(run)) ==> Exposed(run)
  {
    if '@' in run {
      var a, b := SplitRun(run);
      UserinfoAcrossAt(a, b);
    } else {
      TokensAddNoAt(run);
      NoAtNotExposed(Tokens(run));
    }
  }

  lemma SchemeHasNoToken(head: string)
    requires forall c :: c in head ==> IsSchemeChar(c)
    ensures AtMostLast(head + "://", Trigger(ReliaburgerToken)) && '_' !in head + ":/"
  {
    var w := head + "://";
    assert w[..|w| - 1] == head + ":/";
    NoCharNoTrigger(head + ":/", Trigger(ReliaburgerToken), 4);
  }

  lemma CutScheme(t: string, head: string, y: string)
    requires t == head + "://" + y
    ensures t == (head + ":/") + ['/'] + y
  {}

  /** A scheme at the front of the rewritten text stood there before, and what follows it was rewritten on its own. */
  lemma SchemeAcrossToken(t: string)
    requires HasScheme(Tokens(t))
    ensures HasScheme(t) && AfterScheme(Tokens(t)) == Tokens(AfterScheme(t))
  {
    var f := Tokens(t);
    SchemeParts(f);
    var n := SchemeLen(f);
    var head := f[..n];
    TokenKeeps();
    SchemeHasNoToken(head);
    PrefixAgree(TOKEN, MARKER, t, head + "://", Trigger(ReliaburgerToken));
    SchemeOfPrefix(t, head);
    SchemeParts(t);
    CutScheme(t, head, AfterScheme(t));
    AfterTokenFree(t, head + ":/", AfterScheme(t));
  }

  lemma AfterTokenFree(t: string, a: string, b: string)
    requires t == a + ['/'] + b && '_' !in a
    ensures Tokens(t) == a + ['/'] + Tokens(b) && Tokens(t)[|a| + 1..] == Tokens(b)
  {
    TokensSplit(a, '/', b);
    NoUnderscoreIsCopied(a);
    assert (a + ['/'] + Tokens(b))[|a| + 1..] == Tokens(b);
  }

  lemma UrlReflectsOne(t: string)
    requires HasScheme(Tokens(t))
    ensures FindUrl(Tokens(t)).Some? ==> FindUrl(t).Some?
  {
    SchemeAcrossToken(t);
    RunAcrossToken(AfterScheme(t));
    UserinfoAcrossToken(RunOf(AfterScheme(t)));
  }

  lemma UrlReflects()
    ensures Reflects(URL, TOKEN, MARKER)
  {
    forall t ensures ReflectsAt(URL, TOKEN, MARKER, t) {
      if HasScheme(Tokens(t)) { UrlReflectsOne(t); }
    }
  }

  /** No scheme starts in a marker: its bracket ends every run of scheme characters. */
  lemma NoSchemeInMarker(z: string, i: nat)
    requires i < |MARKER|
    ensures !HasScheme(MARKER[i..] + z)
  {
    var x := MARKER[i..] + z;
    assert x[|MARKER| - 1 - i] == ']';
    var n := SchemeLen(x);
    assert n < |MARKER| - i && x[n] == MARKER[i + n];
    assert x[n..][0] == x[n];
  }

  lemma NoUrlInKept(t: string, a: nat, z: string)
    requires Trigger(ReliaburgerToken) <= t && a < 5
    ensures FindUrl(t[..5][a..] + z).None?
  {
    var x := t[..5][a..] + z;
    assert t[..5] == Trigger(ReliaburgerToken);
    assert x[4 - a] == t[..5][4] == '_';
    var n := SchemeLen(x);
    assert n <= 4 - a && x[n] == t[..5][a + n];
    assert x[n..][0] == x[n];
  }

  lemma UrlShieldsOne(t: string, z: string)
    requires Trigger(ReliaburgerToken) <= t && StableFor(URL, z)
    ensures StableFor(URL, t[..5] + (MARKER + z))
  {
    forall i | 0 <= i < |MARKER| ensures FindUrl(MARKER[i..] + z).None? { NoSchemeInMarker(z, i); }
    forall a | 0 <= a < 5 ensures FindUrl(t[..5][a..] + (MARKER + z)).None? { NoUrlInKept(t, a, MARKER + z); }
    StableJoinTwo(URL, t[..5], MARKER, z);
  }

  lemma UrlShields()
    ensures Shields(URL, TOKEN, MARKER)
  {
    forall t, z ensures ShieldsAt(URL, TOKEN, MARKER, t, z) {
      if FindToken(t).Some? && StableFor(URL, z) { UrlShieldsOne(t, z); }
    }
  }

  // ------------------------------------------------------------ every pair

  /** The pairs in which `later` runs after `earlier`. */
  predicate RunsAfter(earlier: Rule, later: Rule) {
    match earlier
    case EncryptedValue => !later.EncryptedValue?
    case AgeIdentity => later.UrlCredentials? || later.ReliaburgerToken?
    case UrlCredentials => later.ReliaburgerToken?
    case ReliaburgerToken => false
  }

  lemma EncryptedThenAge()
    ensures Reflects(ENCRYPTED, AGE, MARKER) && Shields(ENCRYPTED, AGE, MARKER)
  {
    AgeKeeps();
    EncryptedReflects(AGE, MARKER, Trigger(AgeIdentity), 3);
    EncryptedShields(AGE, '1');
  }

  lemma EncryptedThenUrl()
    ensures Reflects(ENCRYPTED, URL, MARKER) && Shields(ENCRYPTED, URL, MARKER)
  {
    UrlKeeps();
    EncryptedReflects(URL, MARKER, Trigger(UrlCredentials), 1);
    EncryptedShields(URL, '/');
  }

  lemma EncryptedThenToken()
    ensures Reflects(ENCRYPTED, TOKEN, MARKER) && Shields(ENCRYPTED, TOKEN, MARKER)
  {
    TokenKeeps();
    EncryptedReflects(TOKEN, MARKER, Trigger(ReliaburgerToken), 4);
    EncryptedShields(TOKEN, '_');
  }

  lemma AgeThenUrl()
    ensures Reflects(AGE, URL, MARKER) && Shields(AGE, URL, MARKER)
  {
    UrlKeeps();
    AgeReflects(URL, MARKER, Trigger(UrlCredentials), 1);
    AgeShields(URL, '/');
  }

  lemma AgeThenToken()
    ensures Reflects(AGE, TOKEN, MARKER) && Shields(AGE, TOKEN, MARKER)
  {
    TokenKeeps();
    AgeReflects(TOKEN, MARKER, Trigger(ReliaburgerToken), 4);
    AgeShields(TOKEN, '_');
  }

  /** A later rule leaves a text stable for every earlier one. */
  lemma Preserves(earlier: Rule, later: Rule, t: string)
    requires RunsAfter(earlier, later) && Stable(earlier, t)
    ensures Stable(earlier, Apply(later, t))
  {
    match (earlier, later)
    case (EncryptedValue, AgeIdentity) => EncryptedThenAge(); StaysStable(ENCRYPTED, AGE, MARKER, t);
    case (EncryptedValue, UrlCredentials) => EncryptedThenUrl(); StaysStable(ENCRYPTED, URL, MARKER, t);
    case (EncryptedValue, ReliaburgerToken) => EncryptedThenToken(); StaysStable(ENCRYPTED, TOKEN, MARKER, t);
    case (AgeIdentity, UrlCredentials) => AgeThenUrl(); StaysStable(AGE, URL, MARKER, t);
    case (AgeIdentity, ReliaburgerToken) => AgeThenToken(); StaysStable(AGE, TOKEN, MARKER, t);
    case (UrlCredentials, ReliaburgerToken) => UrlReflects(); UrlShields(); StaysStable(URL, TOKEN, MARKER, t);
  }
}
