/**
 What each rule replaces, with its characters written out: the text up to the
 first trigger stays, the secret behind it gives way to the marker, and the rule
 goes on with the text behind the secret.
 */
module RedactExtent {
  import opened Common
  import opened Rewriting
  import opened RedactRules
  import opened RedactStability
  import opened RedactOnce
  import opened Redact

  // ------------------------------------------------------------ alphabets

  /** A letter or digit, by its ASCII code. */
  predicate Letter(c: char) {
    0x41 <= c as int <= 0x5A || 0x61 <= c as int <= 0x7A
  }

  predicate Digit(c: char) {
    0x30 <= c as int <= 0x39
  }

  /** The 25 characters with the Unicode property White_Space. */
  const WHITE_SPACE: set<int> := {
    9, 10, 11, 12, 13, 0x20, 0x85, 0xA0, 0x1680, 0x2000, 0x2001, 0x2002, 0x2003, 0x2004, 0x2005, 0x2006, 0x2007,
    0x2008, 0x2009, 0x200A, 0x2028, 0x2029, 0x202F, 0x205F, 0x3000
  }

  predicate White(c: char) {
    c as int in WHITE_SPACE
  }

  // ------------------------------------------------------------ up to the first trigger

  /** The rule finds nothing except where p stands. */
  ghost predicate OnlyAt(find: Finder, p: string) {
    forall t {:trigger OnlyAtIn(t, find(t), p)} :: OnlyAtIn(t, find(t), p)
  }

  predicate OnlyAtIn(t: string, h: Option<Hit>, p: string) {
    h.Some? ==> p <= t
  }

  lemma Unchanged(find: Finder, marker: string, p: string, t: string)
    requires OnlyAt(find, p) && p != [] && !Has(t, p)
    ensures Rewrite(find, marker, t) == t && Hits(find, t) == 0
  {
    forall i | 0 <= i <= |t| ensures find(t[i..]).None? {
      assert OnlyAtIn(t[i..], find(t[i..]), p);
    }
    StableIsUnchanged(find, marker, t);
  }

  /** p occurs in a + p at its end only. */
  predicate First(a: string, p: string) {
    AtMostLast(a + p, p)
  }

  lemma NotBefore(a: string, p: string, y: string, i: nat)
    requires p != [] && i < |a|
    ensures p <= (a + p + y)[i..] ==> !First(a, p)
  {
    var w, t := (a + p)[..|a| + |p| - 1], a + p + y;
    if p <= t[i..] {
      assert t[i..][..|p|] == t[i..i + |p|] == w[i..i + |p|] == w[i..][..|p|];
      assert Has(w, p);
    }
  }

  lemma CopyFront(find: Finder, marker: string, t: string, a: string, rest: string)
    requires t == a + rest && MissesUpTo(find, t, |a|)
    ensures Rewrite(find, marker, t) == a + Rewrite(find, marker, rest) && Hits(find, t) == Hits(find, rest)
  {
    CopyThrough(find, marker, t, |a|);
    assert t[..|a|] == a && t[|a|..] == rest;
  }

  lemma UpToTrigger(find: Finder, marker: string, p: string, a: string, y: string)
    requires OnlyAt(find, p) && p != [] && First(a, p)
    ensures Rewrite(find, marker, a + p + y) == a + Rewrite(find, marker, p + y)
    ensures Hits(find, a + p + y) == Hits(find, p + y)
  {
    var t := a + p + y;
    forall i | 0 <= i < |a| ensures find(t[i..]).None? {
      NotBefore(a, p, y, i);
      assert OnlyAtIn(t[i..], find(t[i..]), p);
    }
    CopyThrough(find, marker, t, |a|);
    assert t[..|a|] == a && t[|a|..] == p + y;
  }

  lemma Behind(p: string, body: string, z: string)
    ensures p <= p + (body + z) && (p + (body + z))[|p|..] == body + z && (p + (body + z))[|p| + |body|..] == z
    ensures |p + (body + z)| == |p| + |body| + |z| && p + (body + z) == p + body + z
    ensures z != [] ==> (p + (body + z))[|p| + |body|] == z[0]
  {}

  /** What a hit at p that ends where `rest` starts leaves. */
  lemma HitAt(find: Finder, marker: string, p: string, a: string, body: string, z: string, skip: nat, rest: string)
    requires OnlyAt(find, p) && p != [] && First(a, p)
    requires find(p + (body + z)) == Some(Hit(|p|, skip))
    requires skip <= |p + (body + z)| && (p + (body + z))[skip..] == rest
    ensures Rewrite(find, marker, a + p + (body + z)) == a + (p + (marker + Rewrite(find, marker, rest)))
    ensures Hits(find, a + p + (body + z)) == 1 + Hits(find, rest)
  {
    var t := p + (body + z);
    UpToTrigger(find, marker, p, a, body + z);
    UnfoldHit(find, marker, t, Hit(|p|, skip));
    assert t[..|p|] == p;
  }

  // ------------------------------------------------------------ Reliaburger tokens

  lemma TokenOnly()
    ensures OnlyAt(TOKEN, "rbrg_")
  {
    forall t ensures OnlyAtIn(t, TOKEN(t), "rbrg_") {}
  }

  lemma TokenChars(c: char)
    ensures IsTokenChar(c) <==> Letter(c) || Digit(c) || c == '_'
  {}

  predicate TokenText(body: string) {
    forall c :: c in body ==> Letter(c) || Digit(c) || c == '_'
  }

  /** The text does not go on with a character of the token. */
  predicate TokenEnds(z: string) {
    z != [] ==> !(Letter(z[0]) || Digit(z[0]) || z[0] == '_')
  }

  lemma TokenSpan(body: string, z: string)
    requires TokenText(body) && TokenEnds(z)
    ensures Span(body + z, IsTokenChar) == |body|
  {
    forall c | c in body ensures IsTokenChar(c) { TokenChars(c); }
    if z != [] { TokenChars(z[0]); }
    SpanThrough(body, z, IsTokenChar);
  }

  lemma FindsToken(p: string, body: string, z: string)
    requires p == Trigger(ReliaburgerToken) && TokenText(body) && TokenEnds(z) && !(MARKER <= body + z)
    ensures TOKEN(p + (body + z)) == Some(Hit(|p|, |p| + |body|))
  {
    Behind(p, body, z);
    TokenSpan(body, z);
  }

  /** The letters, digits and underscores behind "rbrg_", though there be none, give way. */
  lemma TokenIsReplaced(a: string, body: string, z: string)
    requires First(a, "rbrg_") && TokenText(body) && TokenEnds(z) && !("[redacted]" <= body + z)
    ensures Tokens(a + "rbrg_" + (body + z)) == a + ("rbrg_" + ("[redacted]" + Tokens(z)))
    ensures Hits(TOKEN, a + "rbrg_" + (body + z)) == 1 + Hits(TOKEN, z)
  {
    TokenOnly();
    HitsToken(Trigger(ReliaburgerToken), a, body, z);
  }

  lemma HitsToken(p: string, a: string, body: string, z: string)
    requires p == Trigger(ReliaburgerToken) && OnlyAt(TOKEN, p) && First(a, p)
    requires TokenText(body) && TokenEnds(z) && !(MARKER <= body + z)
    ensures Tokens(a + p + (body + z)) == a + (p + (MARKER + Tokens(z)))
    ensures Hits(TOKEN, a + p + (body + z)) == 1 + Hits(TOKEN, z)
  {
    FindsToken(p, body, z);
    Behind(p, body, z);
    HitAt(TOKEN, MARKER, p, a, body, z, |p| + |body|, z);
  }

  /** A token that was replaced before, and a text without one, stay. */
  lemma TokenStays(a: string, z: string)
    requires First(a, "rbrg_")
    ensures Tokens(a + "rbrg_" + ("[redacted]" + z)) == a + ("rbrg_" + ("[redacted]" + Tokens(z)))
    ensures Hits(TOKEN, a + "rbrg_" + ("[redacted]" + z)) == Hits(TOKEN, z)
  {
    var p, m := Trigger(ReliaburgerToken), MARKER;
    TokenOnly();
    UpToTrigger(TOKEN, m, p, a, m + z);
    assert (m + z)[|m|..] == z;
    DoneToken(p + (m + z), m + z);
    Behind(p, m, Tokens(z));
  }

  lemma NoTokenNoChange(t: string)
    requires !Has(t, "rbrg_")
    ensures Tokens(t) == t && Hits(TOKEN, t) == 0
  {
    TokenOnly();
    Unchanged(TOKEN, MARKER, "rbrg_", t);
  }

  // ------------------------------------------------------------ encrypted values

  lemma EncryptedOnly()
    ensures OnlyAt(ENCRYPTED, "ENC[AGE:")
  {
    forall t ensures OnlyAtIn(t, ENCRYPTED(t), "ENC[AGE:") {}
  }

  /** A character that ends an encrypted value. */
  predicate EndsValue(c: char) {
    c == ']' || c == '"' || c == '\'' || White(c)
  }

  lemma ValueChars(c: char)
    ensures IsEncBody(c) <==> !EndsValue(c)
  {}

  predicate ValueText(body: string) {
    forall c :: c in body ==> !EndsValue(c)
  }

  predicate ValueEnds(z: string) {
    z != [] ==> EndsValue(z[0])
  }

  lemma ValueSpan(body: string, z: string)
    requires ValueText(body) && ValueEnds(z)
    ensures Span(body + z, IsEncBody) == |body|
  {
    forall c | c in body ensures IsEncBody(c) { ValueChars(c); }
    if z != [] { ValueChars(z[0]); }
    SpanThrough(body, z, IsEncBody);
  }

  /** The text behind a value: a bracket that closes it goes with it. */
  function PastBracket(z: string): string {
    if z != [] && z[0] == ']' then z[1..] else z
  }

  lemma HitOfSpan(t: string, p: string, y: string, end: nat, skip: nat)
    requires p == Trigger(EncryptedValue) && p <= t && t[|p|..] == y && !(MarkerOf(EncryptedValue) <= y)
    requires end == |p| + Span(y, IsEncBody) && skip == if end < |t| && t[end] == ']' then end + 1 else end
    ensures ENCRYPTED(t) == Some(Hit(|p|, skip))
  {}

  lemma FindsValue(t: string, p: string, body: string, z: string, skip: nat)
    requires p == Trigger(EncryptedValue) && ValueText(body) && ValueEnds(z) && !(MarkerOf(EncryptedValue) <= body + z)
    requires t == p + (body + z) && skip == |t| - |PastBracket(z)|
    ensures ENCRYPTED(t) == Some(Hit(|p|, skip))
  {
    Behind(p, body, z);
    ValueSpan(body, z);
    HitOfSpan(t, p, body + z, |p| + |body|, skip);
  }

  lemma BehindBracket(t: string, p: string, body: string, z: string)
    requires t == p + (body + z)
    ensures |PastBracket(z)| <= |t| && t[|t| - |PastBracket(z)|..] == PastBracket(z)
  {
    Behind(p, body, z);
  }

  /** Everything behind "ENC[AGE:" up to a bracket, a quote or white space gives way, and a bracket is written. */
  lemma ValueIsReplaced(a: string, body: string, z: string)
    requires First(a, "ENC[AGE:") && ValueText(body) && ValueEnds(z) && !("[redacted]]" <= body + z)
    ensures Values(a + "ENC[AGE:" + (body + z)) == a + ("ENC[AGE:" + ("[redacted]]" + Values(PastBracket(z))))
    ensures Hits(ENCRYPTED, a + "ENC[AGE:" + (body + z)) == 1 + Hits(ENCRYPTED, PastBracket(z))
  {
    assert MarkerOf(EncryptedValue) == "[redacted]]";
    EncryptedOnly();
    HitsValue(Trigger(EncryptedValue), MarkerOf(EncryptedValue), a, body, z, PastBracket(z));
  }

  lemma HitsValue(p: string, m: string, a: string, body: string, z: string, rest: string)
    requires p == Trigger(EncryptedValue) && m == MarkerOf(EncryptedValue) && rest == PastBracket(z)
    requires OnlyAt(ENCRYPTED, p) && First(a, p) && ValueText(body) && ValueEnds(z) && !(m <= body + z)
    ensures Rewrite(ENCRYPTED, m, a + p + (body + z)) == a + (p + (m + Rewrite(ENCRYPTED, m, rest)))
    ensures Hits(ENCRYPTED, a + p + (body + z)) == 1 + Hits(ENCRYPTED, rest)
  {
    var t := p + (body + z);
    BehindBracket(t, p, body, z);
    FindsValue(t, p, body, z, |t| - |rest|);
    HitAt(ENCRYPTED, m, p, a, body, z, |t| - |rest|, rest);
  }

  lemma ValueStays(a: string, z: string)
    requires First(a, "ENC[AGE:")
    ensures Values(a + "ENC[AGE:" + ("[redacted]]" + z)) == a + ("ENC[AGE:" + ("[redacted]]" + Values(z)))
    ensures Hits(ENCRYPTED, a + "ENC[AGE:" + ("[redacted]]" + z)) == Hits(ENCRYPTED, z)
  {
    var p, m := Trigger(EncryptedValue), MarkerOf(EncryptedValue);
    EncryptedOnly();
    UpToTrigger(ENCRYPTED, m, p, a, m + z);
    DoneValue(p, m, z);
  }

  lemma DoneValue(p: string, m: string, z: string)
    requires p == Trigger(EncryptedValue) && m == MarkerOf(EncryptedValue)
    ensures m == "[redacted]]"
    ensures Values(p + (m + z)) == p + (m + Values(z)) && Hits(ENCRYPTED, p + (m + z)) == Hits(ENCRYPTED, z)
  {
    assert p + m == ENC_DONE;
    Behind(p, m, z);
    Behind(p, m, Values(z));
    DoneIsCopied(p + m, z);
  }

  lemma DoneIsCopied(done: string, z: string)
    requires done == ENC_DONE
    ensures Values(done + z) == done + Values(z) && Hits(ENCRYPTED, done + z) == Hits(ENCRYPTED, z)
  {
    assert (done + z)[19..] == z && (done + z)[..19] == done;
    EncryptedDone(done + z);
  }

  lemma NoValueNoChange(t: string)
    requires !Has(t, "ENC[AGE:")
    ensures Values(t) == t && Hits(ENCRYPTED, t) == 0
  {
    EncryptedOnly();
    Unchanged(ENCRYPTED, MarkerOf(EncryptedValue), "ENC[AGE:", t);
  }

  // ------------------------------------------------------------ age identities

  lemma AgeOnly()
    ensures OnlyAt(AGE, "AGE-SECRET-KEY-1")
  {
    forall t ensures OnlyAtIn(t, AGE(t), "AGE-SECRET-KEY-1") {}
  }

  lemma AgeChars(c: char)
    ensures IsAlnum(c) <==> Letter(c) || Digit(c)
  {}

  predicate AgeText(body: string) {
    forall c :: c in body ==> Letter(c) || Digit(c)
  }

  predicate AgeEnds(z: string) {
    z != [] ==> !(Letter(z[0]) || Digit(z[0]))
  }

  lemma AgeSpan(body: string, z: string)
    requires AgeText(body) && AgeEnds(z)
    ensures Span(body + z, IsAlnum) == |body|
  {
    forall c | c in body ensures IsAlnum(c) { AgeChars(c); }
    if z != [] { AgeChars(z[0]); }
    SpanThrough(body, z, IsAlnum);
  }

  lemma FindsIdentity(p: string, body: string, z: string)
    requires p == Trigger(AgeIdentity) && AgeText(body) && AgeEnds(z) && body != []
    ensures AGE(p + (body + z)) == Some(Hit(|p|, |p| + |body|))
  {
    Behind(p, body, z);
    AgeSpan(body, z);
  }

  /** The letters and digits behind "AGE-SECRET-KEY-1", if there are any, give way. */
  lemma IdentityIsReplaced(a: string, body: string, z: string)
    requires First(a, "AGE-SECRET-KEY-1") && AgeText(body) && AgeEnds(z) && body != []
    ensures Identities(a + "AGE-SECRET-KEY-1" + (body + z)) ==
      a + ("AGE-SECRET-KEY-1" + ("[redacted]" + Identities(z)))
    ensures Hits(AGE, a + "AGE-SECRET-KEY-1" + (body + z)) == 1 + Hits(AGE, z)
  {
    AgeOnly();
    HitsIdentity(Trigger(AgeIdentity), a, body, z);
  }

  lemma HitsIdentity(p: string, a: string, body: string, z: string)
    requires p == Trigger(AgeIdentity) && OnlyAt(AGE, p) && First(a, p)
    requires AgeText(body) && AgeEnds(z) && body != []
    ensures Identities(a + p + (body + z)) == a + (p + (MARKER + Identities(z)))
    ensures Hits(AGE, a + p + (body + z)) == 1 + Hits(AGE, z)
  {
    FindsIdentity(p, body, z);
    Behind(p, body, z);
    HitAt(AGE, MARKER, p, a, body, z, |p| + |body|, z);
  }

  lemma IdentityStays(a: string, z: string)
    requires First(a, "AGE-SECRET-KEY-1") && AgeEnds(z)
    ensures Identities(a + "AGE-SECRET-KEY-1" + z) == a + ("AGE-SECRET-KEY-1" + Identities(z))
    ensures Hits(AGE, a + "AGE-SECRET-KEY-1" + z) == Hits(AGE, z)
  {
    var p := Trigger(AgeIdentity);
    AgeOnly();
    UpToTrigger(AGE, MARKER, p, a, z);
    BareIdentity(p, z);
  }

  /** "AGE-SECRET-KEY-1" with nothing behind it holds no identity, nor does its rest. */
  lemma BareIdentity(p: string, z: string)
    requires p == Trigger(AgeIdentity) && AgeEnds(z)
    ensures Identities(p + z) == p + Identities(z) && Hits(AGE, p + z) == Hits(AGE, z)
  {
    var t := p + z;
    assert t[..16] == p && t[16..] == z;
    forall i | 0 <= i < 16 ensures AGE(t[i..]).None? {
      assert t[i..][0] == p[i];
      if i == 0 { AgeSpan([], z); assert t[0..] == t && [] + z == z; } else { assert p[i] != 'A'; }
    }
    CopyThrough(AGE, MARKER, t, 16);
  }

  lemma NoIdentityNoChange(t: string)
    requires !Has(t, "AGE-SECRET-KEY-1")
    ensures Identities(t) == t && Hits(AGE, t) == 0
  {
    AgeOnly();
    Unchanged(AGE, MARKER, "AGE-SECRET-KEY-1", t);
  }

  // ------------------------------------------------------------ URL credentials

  predicate SchemeLetter(c: char) {
    Letter(c) || Digit(c) || c == '+' || c == '.' || c == '-'
  }

  predicate SchemeText(head: string) {
    head != [] && Letter(head[0]) && forall c :: c in head ==> SchemeLetter(c)
  }

  /** No scheme that starts in a reaches beyond it. */
  predicate Closed(a: string) {
    forall i :: 0 <= i < |a| && Letter(a[i]) ==> !SchemeOn(a, i)
  }

  /** From i on the text is all characters of a scheme. */
  predicate SchemeOn(a: string, i: nat) {
    forall j :: i <= j < |a| ==> SchemeLetter(a[j])
  }

  /** A character that ends an authority. */
  predicate EndsInfo(c: char) {
    White(c) || c == '/' || c == '?' || c == '#'
  }

  predicate InfoText(info: string) {
    forall c :: c in info ==> !EndsInfo(c)
  }

  predicate InfoEnds(z: string) {
    z != [] ==> EndsInfo(z[0])
  }

  lemma UrlChars(c: char)
    ensures IsSchemeChar(c) <==> SchemeLetter(c)
    ensures IsLetter(c) <==> Letter(c)
    ensures IsUserinfo(c) <==> !EndsInfo(c)
  {}

  lemma UrlOnly(t: string)
    ensures FindUrl(t).Some? ==> Letter(t[0]) && "://" <= t[SchemeLen(t)..] && SchemeOn(t[..SchemeLen(t)], 0)
  {
    if FindUrl(t).Some? {
      UrlChars(t[0]);
      forall j | 0 <= j < SchemeLen(t) ensures SchemeLetter(t[j]) { UrlChars(t[j]); }
    }
  }

  /** A scheme that starts in front of the first "://" ends there. */
  lemma SchemeEndsThere(a: string, y: string, i: nat)
    requires First(a, "://") && i < |a| && FindUrl((a + "://" + y)[i..]).Some?
    ensures Letter(a[i]) && SchemeOn(a, i)
  {
    var t := a + "://" + y;
    var x := t[i..];
    var n := SchemeLen(x);
    UrlOnly(x);
    assert x[0] == a[i] && x[n..] == t[i + n..];
    if i + n < |a| { NotBefore(a, "://", y, i + n); }
    forall j | i <= j < |a| ensures SchemeLetter(a[j]) { assert x[..n][j - i] == a[j]; }
  }

  lemma SchemeStartsIn(a: string, head: string, y: string, i: nat)
    requires First(a + head, "://") && i < |a| && FindUrl(((a + head) + "://" + y)[i..]).Some?
    ensures !Closed(a)
  {
    SchemeEndsThere(a + head, y, i);
    assert (a + head)[i] == a[i];
    assert forall j :: i <= j < |a| ==> (a + head)[j] == a[j];
  }

  lemma NoSchemeAt(t: string, a: string, head: string, y: string, i: nat)
    requires First(a + head, "://") && Closed(a) && i < |a| && t == (a + head) + "://" + y
    ensures URL(t[i..]).None?
  {
    if FindUrl(t[i..]).Some? { SchemeStartsIn(a, head, y, i); }
  }

  lemma MissesBefore(t: string, a: string, head: string, y: string)
    requires First(a + head, "://") && Closed(a) && t == (a + head) + "://" + y
    ensures MissesUpTo(URL, t, |a|)
  {
    forall i | 0 <= i < |a| ensures URL(t[i..]).None? { NoSchemeAt(t, a, head, y, i); }
  }

  lemma Regrouped(a: string, b: string, c: string, d: string)
    ensures a + (b + (c + d)) == (a + b) + c + d
  {}

  lemma NoSchemeBefore(t: string, a: string, head: string, p: string, y: string)
    requires p == "://" && t == a + (head + (p + y)) && First(a + head, p) && Closed(a)
    ensures Urls(t) == a + Urls(head + (p + y)) && Hits(URL, t) == Hits(URL, head + (p + y))
  {
    Regrouped(a, head, p, y);
    MissesBefore(t, a, head, y);
    CopyFront(URL, MARKER, t, a, head + (p + y));
  }

  lemma InfoRun(run: string, z: string)
    requires InfoText(run) && InfoEnds(z)
    ensures RunOf(run + z) == run
  {
    forall c | c in run ensures IsUserinfo(c) { UrlChars(c); }
    if z != [] { UrlChars(z[0]); }
    RunOfJoin(run, z);
  }

  lemma SchemeIs(head: string, y: string)
    requires SchemeText(head)
    ensures var t := head + ("://" + y); HasScheme(t) && SchemeLen(t) == |head| && AfterScheme(t) == y
  {
    var t := head + ("://" + y);
    forall c | c in head ensures IsSchemeChar(c) { UrlChars(c); }
    UrlChars(head[0]);
    Behind(head, "://", y);
    assert head + "://" <= t;
    SchemeOfPrefix(t, head);
  }

  lemma FindsCredentials(head: string, info: string, y: string, run: string)
    requires SchemeText(head) && RunOf(info + ("@" + y)) == info + ['@'] + run && '@' !in run
    requires info != [] && info != "[redacted]"
    ensures var t := head + ("://" + (info + ("@" + y))); FindUrl(t) == Some(Hit(|head| + 3, |head| + 3 + |info|))
  {
    SchemeIs(head, info + ("@" + y));
    ExposedOf(info, run);
    LastAtIs(info, run);
  }

  /** The text between "://" and the last @ of the authority gives way: the authority ends at white space or at one of
      the characters / ? # or with the text, and its scheme is a letter and letters, digits, + . and -. */
  lemma CredentialsAreReplaced(a: string, head: string, info: string, host: string, z: string)
    requires First(a + head, "://") && Closed(a) && SchemeText(head)
    requires InfoText(info) && info != [] && info != "[redacted]"
    requires InfoText(host) && '@' !in host && InfoEnds(z)
    ensures Urls(a + (head + ("://" + (info + ("@" + (host + z)))))) ==
      a + (head + ("://" + ("[redacted]" + ("@" + Urls(host + z)))))
    ensures Hits(URL, a + (head + ("://" + (info + ("@" + (host + z)))))) == 1 + Hits(URL, host + z)
  {
    var y := host + z;
    var t := head + ("://" + (info + ("@" + y)));
    NoSchemeBefore(a + t, a, head, "://", info + ("@" + y));
    CredentialsRun(info, host, z);
    FindsCredentials(head, info, y, host);
    CredentialsWritten(t, head, "://", info, "@", y);
  }

  lemma CredentialsRun(info: string, host: string, z: string)
    requires InfoText(info) && InfoText(host) && InfoEnds(z)
    ensures RunOf(info + ("@" + (host + z))) == info + ['@'] + host
  {
    assert info + ("@" + (host + z)) == (info + ['@'] + host) + z;
    InfoRun(info + ['@'] + host, z);
  }

  lemma CredentialsWritten(t: string, head: string, p: string, info: string, at: string, y: string)
    requires |p| == 3 && at == "@" && t == head + (p + (info + (at + y)))
    requires FindUrl(t) == Some(Hit(|head| + 3, |head| + 3 + |info|))
    ensures Urls(t) == head + (p + (MARKER + (at + Urls(y)))) && Hits(URL, t) == 1 + Hits(URL, y)
  {
    CredentialsCut(t, head, p, info, at, y, MARKER, Urls(y));
    SecretWritten(t, Hit(|head| + 3, |head| + 3 + |info|), head + p, at, y);
  }

  lemma SecretWritten(t: string, hit: Hit, front: string, at: string, y: string)
    requires FindUrl(t) == Some(hit) && hit.keep <= |t| && t[..hit.keep] == front && at == "@"
    requires hit.skip < |t| && t[hit.skip + 1..] == y
    ensures Urls(t) == front + MARKER + at + Urls(y) && Hits(URL, t) == 1 + Hits(URL, y)
  {
    UrlSecret(t, hit);
  }

  lemma CredentialsCut(
      t: string, head: string, p: string, info: string, at: string, y: string, m: string, r: string)
    requires |p| == 3 && |at| == 1 && t == head + (p + (info + (at + y)))
    ensures |head| + 3 + |info| < |t| && t[..|head| + 3] == head + p && t[|head| + 3 + |info| + 1..] == y
    ensures head + p + m + at + r == head + (p + (m + (at + r)))
  {}

  /** Text that is no credentials: no @ past the front, or the marker and no further @. */
  predicate Harmless(run: string) {
    || (forall i :: 0 < i < |run| ==> run[i] != '@')
    || ("[redacted]@" <= run && '@' !in run[11..])
  }

  /** An authority without credentials, or whose credentials were replaced before, stays. */
  lemma AuthorityStays(a: string, head: string, run: string, z: string)
    requires First(a + head, "://") && Closed(a) && SchemeText(head)
    requires InfoText(run) && InfoEnds(z) && Harmless(run)
    ensures Urls(a + (head + ("://" + (run + z)))) == a + (head + ("://" + Urls(run + z)))
    ensures Hits(URL, a + (head + ("://" + (run + z)))) == Hits(URL, run + z)
  {
    var t := head + ("://" + (run + z));
    NoSchemeBefore(a + t, a, head, "://", run + z);
    InfoRun(run, z);
    HarmlessIsHidden(run);
    SchemeIs(head, run + z);
    SchemeWritten(t, head, "://", run + z);
  }

  lemma SchemeWritten(t: string, head: string, p: string, y: string)
    requires |p| == 3 && t == head + (p + y) && HasScheme(t) && SchemeLen(t) == |head| && FindUrl(t).None?
    ensures Urls(t) == head + (p + Urls(y)) && Hits(URL, t) == Hits(URL, y)
  {
    SchemeIsCopied(t);
    Behind(head, p, y);
    Behind(head, p, Urls(y));
    assert t[..|head| + 3] == head + p;
  }

  lemma HarmlessIsHidden(run: string)
    requires Harmless(run)
    ensures !Exposed(run)
  {
    if "[redacted]@" <= run && '@' !in run[11..] {
      assert run[..11] == MARKER + ['@'] && run == MARKER + ['@'] + run[11..];
      ExposedOf(MARKER, run[11..]);
    }
  }

  /** Where no scheme stands in front of it, "://" stays, and so does a text without it. */
  lemma NoSchemeStays(a: string, y: string)
    requires First(a, "://") && Closed(a)
    ensures Urls(a + ("://" + y)) == a + ("://" + Urls(y)) && Hits(URL, a + ("://" + y)) == Hits(URL, y)
  {
    NoSchemeAround(a, "://", y);
  }

  lemma NoSchemeAround(a: string, p: string, y: string)
    requires p == "://" && First(a, p) && Closed(a)
    ensures Urls(a + (p + y)) == a + (p + Urls(y)) && Hits(URL, a + (p + y)) == Hits(URL, y)
  {
    var t := p + y;
    assert a + [] == a && [] + t == t;
    NoSchemeBefore(a + t, a, [], p, y);
    TriggerHasNoLetters(p);
    MissesWithoutLetters(p, y);
    CopyFront(URL, MARKER, t, p, y);
  }

  lemma NoLetterNoUrl(x: string)
    requires x != [] && !IsLetter(x[0])
    ensures URL(x).None?
  {}

  predicate NoLetters(p: string) {
    forall c :: c in p ==> !IsLetter(c)
  }

  lemma TriggerHasNoLetters(p: string)
    requires p == "://"
    ensures NoLetters(p)
  {}

  lemma MissesWithoutLetters(p: string, y: string)
    requires NoLetters(p)
    ensures MissesUpTo(URL, p + y, |p|)
  {
    var t := p + y;
    forall i | 0 <= i < |p| ensures URL(t[i..]).None? {
      assert t[i..][0] == p[i];
      NoLetterNoUrl(t[i..]);
    }
  }

  lemma NoUrlNoChange(t: string)
    requires !Has(t, "://")
    ensures Urls(t) == t && Hits(URL, t) == 0
  {
    forall i | 0 <= i <= |t| ensures FindUrl(t[i..]).None? { UrlHasTrigger(t, i); }
    StableIsUnchanged(URL, MARKER, t);
  }

  lemma UrlHasTrigger(t: string, i: nat)
    requires i <= |t|
    ensures FindUrl(t[i..]).Some? ==> Has(t, "://")
  {
    if FindUrl(t[i..]).Some? {
      UrlOnly(t[i..]);
      assert t[i..][SchemeLen(t[i..])..] == t[i + SchemeLen(t[i..])..];
    }
  }
}
