/**
 What the key-value rule's keys are like: a key stays one whatever follows its
 separator, and depends on nothing past it.
 */
module RedactKeys {
  import opened Common
  import opened RedactRules
  import opened RedactStability
  import opened RedactKeyValues

  // ------------------------------------------------------------ runs of characters

  lemma SpanIs(s: string, p: char -> bool, n: nat)
    requires n <= |s| && (forall i :: 0 <= i < n ==> p(s[i])) && (n < |s| ==> !p(s[n]))
    ensures Span(s, p) == n
  {}

  // ------------------------------------------------------------ keys and separators

  /** Whatever names a secret: at least five characters, and a longer key with the same end does too. */
  ghost predicate Naming(names: string -> bool) {
    && (forall key {:trigger LongAt(names, key)} :: LongAt(names, key))
    && forall key, i: nat {:trigger EndNames(names, key, i)} :: EndNames(names, key, i)
  }

  predicate LongAt(names: string -> bool, key: string) {
    names(key) ==> |key| >= 5
  }

  predicate EndNames(names: string -> bool, key: string, i: nat) {
    i <= |key| && names(key[i..]) ==> names(key)
  }

  lemma SecretsAreNaming()
    ensures Naming(NamesSecret)
  {
    forall key ensures LongAt(NamesSecret, key) { if NamesSecret(key) { SecretIsLong(key); } }
    forall key, i: nat ensures EndNames(NamesSecret, key, i) {
      if i <= |key| && NamesSecret(key[i..]) { SecretTail(key, i); }
    }
  }

  lemma SecretIsLong(key: string)
    requires NamesSecret(key)
    ensures |key| >= 5
  {
    var n :| 0 <= n <= |key| && FoldAll(key[n..]) in SECRET_WORDS;
    assert |FoldAll(key[n..])| >= 5;
  }

  lemma SecretTail(key: string, i: nat)
    requires i <= |key| && NamesSecret(key[i..])
    ensures NamesSecret(key)
  {
    var n :| 0 <= n <= |key[i..]| && FoldAll(key[i..][n..]) in SECRET_WORDS;
    assert key[i..][n..] == key[i + n..];
  }

  /** What stands between a key and the = or :. */
  predicate IsBetween(c: char) {
    c == '\\' || IsQuote(c) || IsBlank(c)
  }

  lemma BetweenTaken(x: string)
    ensures forall i :: 0 <= i < SepAt(x) ==> IsBetween(x[i])
  {
    var a := if |x| > 0 && x[0] == '\\' then 1 else 0;
    var b := a + if a < |x| && IsQuote(x[a]) then 1 else 0;
    forall i | 0 <= i < SepAt(x) ensures IsBetween(x[i]) {
      if b <= i { assert x[i] == x[b..][i - b]; }
    }
  }

  /** Two texts that agree up to and including the first key character have their separator in the same place. */
  predicate AgreeTo(x: string, y: string, q: nat) {
    && q <= |x| && q <= |y| && x[..q] == y[..q]
    && (|x| > q <==> |y| > q)
    && (|x| > q ==> x[q] == y[q] && IsKeyChar(x[q]))
  }

  lemma AgreeAt(x: string, y: string, q: nat, i: nat)
    requires AgreeTo(x, y, q) && i <= q
    ensures (i < |x| <==> i < |y|) && (i < |x| ==> x[i] == y[i])
  {
    if i < q { assert x[i] == x[..q][i] && y[i] == y[..q][i]; }
  }

  lemma BlanksAgree(x: string, y: string, q: nat, b: nat)
    requires AgreeTo(x, y, q) && b <= q
    ensures Span(x[b..], IsBlank) == Span(y[b..], IsBlank) <= q - b
  {
    var n := Span(x[b..], IsBlank);
    BlanksEnd(x, y, q, b);
    forall i | 0 <= i < n ensures IsBlank(y[b..][i]) { AgreeAt(x, y, q, b + i); assert x[b..][i] == x[b + i]; }
    AgreeAt(x, y, q, b + n);
    assert b + n < |x| ==> x[b..][n] == x[b + n];
    SpanIs(y[b..], IsBlank, n);
  }

  lemma BlanksEnd(x: string, y: string, q: nat, b: nat)
    requires AgreeTo(x, y, q) && b <= q
    ensures Span(x[b..], IsBlank) <= q - b
  {
    if |x| > q { assert x[b..][q - b] == x[q] && !IsBlank(x[q]); }
  }

  lemma SepAtAgrees(x: string, y: string, q: nat)
    requires AgreeTo(x, y, q)
    ensures SepAt(x) == SepAt(y) <= q
  {
    AgreeAt(x, y, q, 0);
    var a := if |x| > 0 && x[0] == '\\' then 1 else 0;
    assert a <= q;
    AgreeAt(x, y, q, a);
    var b := a + if a < |x| && IsQuote(x[a]) then 1 else 0;
    assert b <= q;
    BlanksAgree(x, y, q, b);
  }

  lemma SepAgrees(x: string, y: string, q: nat)
    requires AgreeTo(x, y, q)
    ensures SepLen(x) == SepLen(y) && (SepLen(x).Some? ==> SepLen(x).value <= q)
  {
    SepAtAgrees(x, y, q);
    SepFromAgrees(x, y, q, SepAt(x));
  }

  lemma SepFromAgrees(x: string, y: string, q: nat, c: nat)
    requires AgreeTo(x, y, q) && c <= q
    ensures SepFrom(x, c) == SepFrom(y, c) && (SepFrom(x, c).Some? ==> SepFrom(x, c).value <= q)
  {
    AgreeAt(x, y, q, c);
    if c < |x| && IsSep(x[c]) { BlanksAgree(x, y, q, c + 1); }
  }

  /** A separator stays one whatever follows it, unless more blanks do. */
  lemma SepStays(x: string, m: nat, y: string)
    requires SepLen(x) == Some(m) && (y != [] ==> !IsBlank(y[0]))
    ensures SepLen(x[..m] + y) == Some(m)
  {
    var z, c := x[..m] + y, SepAt(x);
    SepAtStays(x, m, y);
    assert z[c] == x[c];
    BlanksThrough(x, z, c + 1, m);
  }

  lemma BlanksThrough(x: string, z: string, d: nat, m: nat)
    requires d <= m <= |x| && m <= |z| && (forall i :: d <= i < m ==> z[i] == x[i])
    requires Span(x[d..], IsBlank) == m - d && (m < |z| ==> !IsBlank(z[m]))
    ensures Span(z[d..], IsBlank) == m - d
  {
    forall i | 0 <= i < m - d ensures IsBlank(z[d..][i]) { assert z[d..][i] == z[d + i] && x[d..][i] == x[d + i]; }
    assert m < |z| ==> z[d..][m - d] == z[m];
    SpanIs(z[d..], IsBlank, m - d);
  }

  lemma SepAtStays(x: string, m: nat, y: string)
    requires SepLen(x) == Some(m)
    ensures SepAt(x[..m] + y) == SepAt(x)
  {
    var z, c := x[..m] + y, SepAt(x);
    assert c < m && forall i :: 0 <= i <= c ==> z[i] == x[i];
    var a := if |x| > 0 && x[0] == '\\' then 1 else 0;
    var b := a + if a < |x| && IsQuote(x[a]) then 1 else 0;
    assert b <= c;
    BlanksStay(x, z, b, c);
  }

  lemma BlanksStay(x: string, z: string, b: nat, c: nat)
    requires b <= c < |x| && c < |z| && (forall i :: 0 <= i <= c ==> z[i] == x[i])
    requires Span(x[b..], IsBlank) == c - b
    ensures Span(z[b..], IsBlank) == c - b
  {
    forall i | 0 <= i <= c - b ensures z[b..][i] == x[b..][i] { assert z[b..][i] == z[b + i] && x[b..][i] == x[b + i]; }
    SpanIs(z[b..], IsBlank, c - b);
  }

  /** What stands in a key or its separator. */
  predicate IsKeptChar(c: char) {
    IsKeyChar(c) || IsBetween(c) || IsSep(c)
  }

  predicate AllKept(s: string) {
    forall c :: c in s ==> IsKeptChar(c)
  }

  /** What a separator looks like: its = or :, and a = or : or blank at its end. */
  predicate SepTextAt(x: string, r: Option<nat>) {
    r.Some? && KeyFits(x, r) ==>
      && (exists i :: 0 <= i < r.value && IsSep(x[i]))
      && AllKept(x[..r.value])
      && (IsSep(x[r.value - 1]) || IsBlank(x[r.value - 1]))
  }

  predicate SepStaysAt(sep: KeyFinder, x: string, y: string) {
    sep(x).Some? && KeyFits(x, sep(x)) && (y != [] ==> !IsBlank(y[0])) ==> sep(x[..sep(x).value] + y) == sep(x)
  }

  predicate SepAgreesAt(sep: KeyFinder, x: string, y: string, q: nat) {
    AgreeTo(x, y, q) ==> sep(x) == sep(y) && (sep(x).Some? ==> sep(x).value <= q)
  }

  ghost predicate SepsStay(sep: KeyFinder) {
    && (forall x {:trigger SepTextAt(x, sep(x))} :: SepTextAt(x, sep(x)))
    && (forall x, y :: SepStaysAt(sep, x, y))
    && forall x, y, q: nat :: SepAgreesAt(sep, x, y, q)
  }

  lemma SepText(x: string, m: nat)
    requires SepLen(x) == Some(m)
    ensures SepTextAt(x, Some(m))
  {
    var c := SepAt(x);
    BetweenTaken(x);
    forall i | 0 <= i < m ensures IsKeptChar(x[..m][i]) { if i > c { assert x[c + 1..][i - c - 1] == x[i]; } }
    if m - 1 > c { assert x[c + 1..][m - 2 - c] == x[m - 1]; }
  }

  lemma SeparatorsStay()
    ensures SepsStay(SEP)
  {
    forall x ensures SepTextAt(x, SEP(x)) { if SepLen(x).Some? { SepText(x, SepLen(x).value); } }
    forall x, y ensures SepStaysAt(SEP, x, y) {
      if SepLen(x).Some? && (y != [] ==> !IsBlank(y[0])) { SepStays(x, SepLen(x).value, y); }
    }
    forall x, y, q: nat ensures SepAgreesAt(SEP, x, y, q) { if AgreeTo(x, y, q) { SepAgrees(x, y, q); } }
  }

  // ------------------------------------------------------------ keys

  /** A key's five letters and more, its = or :, and a = or : or blank at its end. */
  predicate KeyTextAt(t: string, r: Option<nat>) {
    r.Some? && KeyFits(t, r) ==>
      && r.value > 5 && (forall i :: 0 <= i < 5 ==> IsKeyChar(t[i]))
      && (exists i :: 5 <= i < r.value && IsSep(t[i]))
      && AllKept(t[..r.value])
      && (IsSep(t[r.value - 1]) || IsBlank(t[r.value - 1]))
  }

  /** A key stays one whatever follows its separator, unless more blanks do. */
  predicate KeyStaysAt(key: KeyFinder, t: string, y: string) {
    key(t).Some? && KeyFits(t, key(t)) && (y != [] ==> !IsBlank(y[0])) ==> key(t[..key(t).value] + y) == key(t)
  }

  predicate AllKey(u: string) {
    forall c :: c in u ==> IsKeyChar(c)
  }

  /** Key characters in front of a key make a longer one. */
  predicate KeyEndsAt(key: KeyFinder, u: string, x: string) {
    AllKey(u) && key(x).Some? ==> key(u + x).Some? && key(u + x).value == |u| + key(x).value
  }

  /** Past the run, a key ends before the next key character, and that is all it depends on. */
  predicate KeyAgreesAt(key: KeyFinder, u: string, x: string, y: string, q: nat) {
    AllKey(u) && (x != [] ==> !IsKeyChar(x[0])) && AgreeTo(x, y, q)
    ==> key(u + x) == key(u + y) && (key(u + x).Some? ==> |u| <= key(u + x).value <= |u| + q)
  }

  ghost predicate KeysStay(key: KeyFinder) {
    && (forall t {:trigger KeyTextAt(t, key(t))} :: KeyTextAt(t, key(t)))
    && (forall t, y :: KeyStaysAt(key, t, y))
    && (forall u, x :: KeyEndsAt(key, u, x))
    && forall u, x, y, q: nat :: KeyAgreesAt(key, u, x, y, q)
  }

  lemma KeyParts(names: string -> bool, sep: KeyFinder, t: string, k: nat) returns (n: nat)
    requires KeyLen(names, sep, t) == Some(k)
    ensures n == Span(t, IsKeyChar) < k <= |t| && names(t[..n]) && sep(t[n..]) == Some(k - n)
  {
    n := Span(t, IsKeyChar);
    assert KeyFits(t[n..], sep(t[n..]));
  }

  lemma KeyOf(names: string -> bool, sep: KeyFinder, t: string, n: nat, k: nat, x: string)
    requires n == Span(t, IsKeyChar) <= k && names(t[..n]) && t[n..] == x && sep(x) == Some(k - n)
    ensures KeyLen(names, sep, t) == Some(k)
  {}

  lemma KeyText(names: string -> bool, sep: KeyFinder, t: string, k: nat)
    requires Naming(names) && SepsStay(sep) && KeyLen(names, sep, t) == Some(k)
    ensures KeyTextAt(t, Some(k))
  {
    var n := KeyParts(names, sep, t, k);
    var x, m := t[n..], k - n;
    assert LongAt(names, t[..n]) && SepTextAt(x, sep(x));
    var i :| 0 <= i < m && IsSep(x[i]);
    assert t[n + i] == x[i] && t[k - 1] == x[m - 1];
    forall j | 0 <= j < k ensures IsKeptChar(t[..k][j]) { if j >= n { assert t[j] == x[..m][j - n]; } }
  }

  lemma KeyStays(names: string -> bool, sep: KeyFinder, t: string, k: nat, y: string)
    requires SepsStay(sep) && KeyLen(names, sep, t) == Some(k) && (y != [] ==> !IsBlank(y[0]))
    ensures KeyLen(names, sep, t[..k] + y) == Some(k)
  {
    var n := KeyParts(names, sep, t, k);
    RunStays(t, n, k, y);
    assert KeyFits(t[n..], sep(t[n..])) && SepStaysAt(sep, t[n..], y);
    Cut(t, n, k, y);
    KeyOf(names, sep, t[..k] + y, n, k, t[n..][..k - n] + y);
  }

  lemma Cut(t: string, n: nat, k: nat, y: string)
    requires n <= k <= |t|
    ensures (t[..k] + y)[n..] == t[n..][..k - n] + y
  {}

  lemma RunStays(t: string, n: nat, k: nat, y: string)
    requires n == Span(t, IsKeyChar) < k <= |t|
    ensures Span(t[..k] + y, IsKeyChar) == n && (t[..k] + y)[..n] == t[..n]
  {
    var z := t[..k] + y;
    assert z[..n] == t[..n] && z[n] == t[n];
    SpanIs(z, IsKeyChar, n);
  }

  lemma KeyEnds(names: string -> bool, sep: KeyFinder, u: string, x: string, k: nat)
    requires Naming(names) && AllKey(u) && KeyLen(names, sep, x) == Some(k)
    ensures KeyLen(names, sep, u + x) == Some(|u| + k)
  {
    var n := KeyParts(names, sep, x, k);
    SpanThrough(u, x, IsKeyChar);
    CutRun(u, x, n);
    assert EndNames(names, (u + x)[..|u| + n], |u|);
    KeyOf(names, sep, u + x, |u| + n, |u| + k, x[n..]);
  }

  lemma CutRun(u: string, x: string, n: nat)
    requires n <= |x|
    ensures (u + x)[..|u| + n][|u|..] == x[..n] && (u + x)[|u| + n..] == x[n..]
  {}

  lemma KeyAgrees(names: string -> bool, sep: KeyFinder, u: string, x: string, y: string, q: nat)
    requires SepsStay(sep) && AllKey(u) && (x != [] ==> !IsKeyChar(x[0])) && AgreeTo(x, y, q)
    ensures var k := KeyLen(names, sep, u + x);
      k == KeyLen(names, sep, u + y) && (k.Some? ==> |u| <= k.value <= |u| + q)
  {
    AgreeAt(x, y, q, 0);
    KeyAfter(names, sep, u, x);
    KeyAfter(names, sep, u, y);
    assert SepAgreesAt(sep, x, y, q);
  }

  lemma KeyAfter(names: string -> bool, sep: KeyFinder, u: string, x: string)
    requires AllKey(u) && (x != [] ==> !IsKeyChar(x[0]))
    ensures KeyLen(names, sep, u + x) == if names(u) && sep(x).Some? then Some(|u| + sep(x).value) else None
  {
    SpanThrough(u, x, IsKeyChar);
    assert (u + x)[..|u|] == u && (u + x)[|u|..] == x;
  }

  lemma KeyedStay(names: string -> bool, sep: KeyFinder)
    requires Naming(names) && SepsStay(sep)
    ensures KeysStay(Keyed(names, sep))
  {
    var key := Keyed(names, sep);
    forall t ensures KeyTextAt(t, key(t)) { KeyedText(names, sep, t); }
    forall t, y ensures KeyStaysAt(key, t, y) { KeyedStays(names, sep, t, y); }
    forall u, x ensures KeyEndsAt(key, u, x) { KeyedEnds(names, sep, u, x); }
    forall u, x, y, q: nat ensures KeyAgreesAt(key, u, x, y, q) { KeyedAgrees(names, sep, u, x, y, q); }
  }

  lemma KeyedText(names: string -> bool, sep: KeyFinder, t: string)
    requires Naming(names) && SepsStay(sep)
    ensures KeyTextAt(t, Keyed(names, sep)(t))
  {
    var k := KeyLen(names, sep, t);
    if k.Some? { KeyText(names, sep, t, k.value); }
  }

  lemma KeyedStays(names: string -> bool, sep: KeyFinder, t: string, y: string)
    requires SepsStay(sep)
    ensures KeyStaysAt(Keyed(names, sep), t, y)
  {
    var k := KeyLen(names, sep, t);
    if k.Some? && (y != [] ==> !IsBlank(y[0])) { KeyStays(names, sep, t, k.value, y); }
  }

  lemma KeyedEnds(names: string -> bool, sep: KeyFinder, u: string, x: string)
    requires Naming(names)
    ensures KeyEndsAt(Keyed(names, sep), u, x)
  {
    var k := KeyLen(names, sep, x);
    if AllKey(u) && k.Some? { KeyEnds(names, sep, u, x, k.value); }
  }

  lemma KeyedAgrees(names: string -> bool, sep: KeyFinder, u: string, x: string, y: string, q: nat)
    requires SepsStay(sep)
    ensures KeyAgreesAt(Keyed(names, sep), u, x, y, q)
  {
    if AllKey(u) && (x != [] ==> !IsKeyChar(x[0])) && AgreeTo(x, y, q) { KeyAgrees(names, sep, u, x, y, q); }
  }

  lemma SecretKeysStay()
    ensures KeysStay(KEY)
  {
    SecretsAreNaming();
    SeparatorsStay();
    KeyedStay(NamesSecret, SEP);
  }
}
