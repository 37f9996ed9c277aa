/**
 A text whose second redaction is not clean: the key-value rule takes out the slash
 that ended an authority, and an @ further on makes what precedes it credentials.
 */
module RedactBridge {
  import opened Common
  import opened Passing
  import opened Rewriting
  import opened RedactRules
  import opened RedactStability
  import opened RedactKeyValues
  import opened RedactKeys
  import opened RedactPairs
  import opened Redact

  /** A URL whose authority goes on into a password. */
  function Bridge(value: string): string {
    "a://" + Authority(value)
  }

  function Authority(value: string): string {
    "t," + ("password=" + (value + ",x@h"))
  }

  predicate Lower(s: string) {
    forall c :: c in s ==> 'a' <= c <= 'z'
  }

  // ------------------------------------------------------------ the rules by shape find nothing

  lemma HitHasChar(find: Finder, p: string, j: nat, x: string)
    requires KeepsTrigger(find, p) && j < |p| && find(x).Some?
    ensures p[j] in x
  {
    assert KeepsTriggerIn(x, find(x), p);
    var kept := x[..find(x).value.keep];
    var i :| 0 <= i <= |kept| - |p| && p <= kept[i..];
    assert kept[i..][j] == x[i + j];
  }

  lemma StableWithout(find: Finder, p: string, j: nat, t: string)
    requires KeepsTrigger(find, p) && j < |p| && p[j] !in t
    ensures StableFor(find, t)
  {
    forall i | 0 <= i <= |t| ensures find(t[i..]).None? {
      if find(t[i..]).Some? { HitHasChar(find, p, j, t[i..]); }
    }
  }

  lemma NoColonNoScheme(y: string, i: nat)
    requires ':' !in y && i <= |y|
    ensures FindUrl(y[i..]).None?
  {
    var x := y[i..];
    assert SchemeLen(x) < |x| ==> x[SchemeLen(x)..][0] == y[i + SchemeLen(x)];
  }

  /** After a scheme of one letter, an authority without an @ and no further colon: no credentials anywhere. */
  lemma OneScheme(t: string, y: string)
    requires t == "a://" + y && ':' !in y && '@' !in RunOf(y)
    ensures StableFor(URL, t)
  {
    forall i | 0 <= i <= |t| ensures FindUrl(t[i..]).None? {
      if i == 0 {
        assert t[0..] == t;
        NotAtTheFront(t, y);
      } else if i == 1 {
        assert t[1..][0] == ':';
      } else {
        NotLater(t, y, i);
      }
    }
  }

  lemma NotAtTheFront(t: string, y: string)
    requires t == "a://" + y && '@' !in RunOf(y)
    ensures FindUrl(t).None?
  {
    AtTheFront(t, y);
    NoAtNotExposed(RunOf(y));
  }

  lemma NotLater(t: string, y: string, i: nat)
    requires t == "a://" + y && ':' !in y && 2 <= i <= |t|
    ensures FindUrl(t[i..]).None?
  {
    var z := "//" + y;
    assert t[i..] == z[i - 2..];
    NoColonNoScheme(z, i - 2);
  }

  lemma AtTheFront(t: string, y: string)
    requires t == "a://" + y
    ensures HasScheme(t) && AfterScheme(t) == y
  {
    assert t[..4] == "a" + "://";
    SchemeOfPrefix(t, "a");
    assert t[4..] == y;
  }

  lemma RunToSlash(run: string, rest: string)
    requires '@' !in run && forall c :: c in run ==> IsUserinfo(c)
    ensures '@' !in RunOf(run + ['/'] + rest)
  {
    TakeRun(run, '/', rest);
  }

  lemma NoShapes(t: string)
    requires '[' !in t && 'A' !in t && '_' !in t && StableFor(URL, t)
    ensures Shapes(t) == t
  {
    EncryptedKeeps();
    StableWithout(ENCRYPTED, Trigger(EncryptedValue), 3, t);
    AgeKeeps();
    StableWithout(AGE, Trigger(AgeIdentity), 0, t);
    TokenKeeps();
    StableWithout(TOKEN, Trigger(ReliaburgerToken), 4, t);
    StableShapes(t);
  }

  /** Nothing the rules by shape look for. */
  predicate Dull(s: string) {
    '[' !in s && 'A' !in s && '_' !in s && ':' !in s
  }

  lemma AuthorityIsDull(v: string)
    requires Dull(v)
    ensures Dull(Authority(v))
  {
    assert Dull("t,") && Dull("password=") && Dull(",x@h");
    DullJoin(v, ",x@h");
    DullJoin("password=", v + ",x@h");
    DullJoin("t,", "password=" + (v + ",x@h"));
  }

  lemma DullJoin(a: string, b: string)
    requires Dull(a) && Dull(b)
    ensures Dull(a + b)
  {}

  lemma AuthorityEnds(v1: string, v2: string)
    requires Lower(v1)
    ensures '@' !in RunOf(Authority(v1 + ['/'] + v2))
  {
    var run := "t,password=" + v1;
    SlashInside("t,", "password=", v1, ['/'], v2, ",x@h");
    assert "t," + "password=" == "t,password=";
    RunToSlash(run, v2 + ",x@h");
  }

  lemma SlashInside(a: string, b: string, c: string, d: string, e: string, f: string)
    ensures a + (b + (c + d + e + f)) == a + b + c + d + (e + f)
  {}

  lemma ShapesLeaveBridge(v1: string, v2: string)
    requires Lower(v1) && Lower(v2)
    ensures Shapes(Bridge(v1 + ['/'] + v2)) == Bridge(v1 + ['/'] + v2)
  {
    var v := v1 + ['/'] + v2;
    LowerIsDull(v1, v2);
    AuthorityIsDull(v);
    AuthorityEnds(v1, v2);
    OneScheme(Bridge(v), Authority(v));
    SchemeIsDull(Authority(v));
    NoShapes(Bridge(v));
  }

  lemma LowerIsDull(v1: string, v2: string)
    requires Lower(v1) && Lower(v2)
    ensures Dull(v1 + ['/'] + v2)
  {}

  lemma SchemeIsDull(y: string)
    requires Dull(y)
    ensures var t := "a://" + y; '[' !in t && 'A' !in t && '_' !in t
  {}

  // ------------------------------------------------------------ the key-value rule finds one value

  predicate NoRoom(x: string) {
    |x| <= 5 || exists j :: 0 <= j < 5 && !IsKeyChar(x[j])
  }

  lemma NoRoomForKey(find: Searcher, key: KeyFinder, x: string)
    requires Finds(find, key) && KeysStay(key) && NoRoom(x)
    ensures find(x).Nothing?
  {
    assert FoundAt(key, x, find(x)) && KeyFits(x, key(x)) && KeyTextAt(x, key(x));
  }

  lemma RestPasses(find: Searcher, key: KeyFinder, y: string)
    requires Finds(find, key) && KeysStay(key) && |y| <= 5
    ensures Pass(find, MARKER, y) == y
  {
    forall i | 0 <= i < |y| ensures find(y[i..]).Nothing? { NoRoomForKey(find, key, y[i..]); }
    CopyNothing(find, MARKER, y, |y|);
    assert y[|y|..] == [] && y[..|y|] == y;
  }

  /** One bare value after text with no room for a key gives way; a short rest stays. */
  lemma OneValue(find: Searcher, key: KeyFinder, front: string, name: string, body: string, tail: string)
    requires Finds(find, key) && KeysStay(key)
    requires forall i :: 0 <= i < |front| ==> NoRoom((front + (name + (body + tail)))[i..])
    requires key(name + (body + tail)) == Some(|name|)
    requires Fills(Bare, body) && Inner(Bare, tail) == 0 && !Has(body, MARKER) && |tail| <= 5
    ensures Pass(find, MARKER, front + (name + (body + tail))) == front + (name + (MARKER + tail))
  {
    var x := name + (body + tail);
    var t := front + x;
    forall i | 0 <= i < |front| ensures find(t[i..]).Nothing? { NoRoomForKey(find, key, t[i..]); }
    CopyNothing(find, MARKER, t, |front|);
    assert t[|front|..] == x && t[..|front|] == front;
    ValuePasses(find, key, name, body, tail);
    RestPasses(find, key, tail);
  }

  lemma ValuePasses(find: Searcher, key: KeyFinder, name: string, body: string, tail: string)
    requires Finds(find, key) && KeysStay(key) && key(name + (body + tail)) == Some(|name|)
    requires Fills(Bare, body) && Inner(Bare, tail) == 0 && !Has(body, MARKER)
    ensures Pass(find, MARKER, name + (body + tail)) == name + (MARKER + Pass(find, MARKER, tail))
  {
    var n := |name|;
    ValueFound(find, key, name, body, tail);
    NamedParts(name, body, tail);
    ReplacedIs(find, MARKER, name + (body + tail), Replace(n, n + |body|, n + |body|), name, [], tail);
    assert [] + Pass(find, MARKER, tail) == Pass(find, MARKER, tail);
  }

  lemma ValueFound(find: Searcher, key: KeyFinder, name: string, body: string, tail: string)
    requires Finds(find, key) && KeysStay(key) && key(name + (body + tail)) == Some(|name|)
    requires Fills(Bare, body) && Inner(Bare, tail) == 0 && !Has(body, MARKER)
    ensures find(name + (body + tail)) == Replace(|name|, |name| + |body|, |name| + |body|)
  {
    var x := name + (body + tail);
    assert x[..|name|] == name && Opening(Bare) + (body + tail) == body + tail;
    FoundNext(find, key, x, |name|, Bare, body, tail);
  }

  lemma NamedParts(name: string, body: string, tail: string)
    ensures var x, n := name + (body + tail), |name|;
      x[..n] == name && x[n + |body|..n + |body|] == [] && x[n + |body|..] == tail
  {}

  lemma PasswordNames()
    ensures NamesSecret("password")
  {
    assert FoldAll("password") == "password";
    assert "password"[0..] == "password";
  }

  lemma EqualsSeparates(v: string)
    requires v == [] || !IsBlank(v[0])
    ensures SEP(['='] + v) == Some(1)
  {
    var y := ['='] + v;
    SpanIs(y[0..], IsBlank, 0);
    assert y[1..] == v;
    SpanIs(v, IsBlank, 0);
  }

  lemma PasswordIsKey(names: string -> bool, sep: KeyFinder, v: string)
    requires names("password") && sep(['='] + v) == Some(1)
    ensures KeyLen(names, sep, "password=" + v) == Some(9)
  {
    var x := "password=" + v;
    assert x == "password" + ['='] + v;
    SpanAll("password", '=', v, IsKeyChar);
    assert x[..8] == "password" && x[8..] == ['='] + v;
    KeyOf(names, sep, x, 8, 9, ['='] + v);
  }

  lemma NoRoomInFront(x: string, i: nat)
    requires i < 6
    ensures NoRoom(("a://t," + x)[i..])
  {
    var t := "a://t," + x;
    var j := if i == 0 || i == 4 then 1 else 0;
    assert t[i + j] == "a://t,"[i + j] && |t[i..]| > 5 ==> t[i..][j] == t[i + j];
  }

  lemma BridgePasses(find: Searcher, key: KeyFinder, v: string)
    requires Finds(find, key) && KeysStay(key) && key("password=" + (v + ",x@h")) == Some(9)
    requires Fills(Bare, v) && !Has(v, MARKER)
    ensures Pass(find, MARKER, Bridge(v)) == Bridge(MARKER)
  {
    var tail := ",x@h";
    SpanIs(tail, IsBare, 0);
    forall i | 0 <= i < 6 ensures NoRoom(("a://t," + ("password=" + (v + tail)))[i..]) {
      NoRoomInFront("password=" + (v + tail), i);
    }
    OneValue(find, key, "a://t,", "password=", v, tail);
    JoinFront("password=" + (v + tail));
    JoinFront("password=" + (MARKER + tail));
  }

  lemma JoinFront(x: string)
    ensures "a://" + ("t," + x) == "a://t," + x
  {}

  lemma ValueFills(v1: string, v2: string)
    requires v1 != [] && Lower(v1) && Lower(v2)
    ensures var v := v1 + ['/'] + v2; Fills(Bare, v) && !Has(v, MARKER) && !IsBlank((v + ",x@h")[0])
  {
    var v := v1 + ['/'] + v2;
    assert v[0] == v1[0] && v1[0] in v1 && (v + ",x@h")[0] == v[0];
    NoCharNoTrigger(v, MARKER, 0);
  }

  // ------------------------------------------------------------ the URL rule then finds one more

  lemma InfoIsExposed(info: string)
    requires info != [] && info != MARKER && forall c :: c in info ==> IsUserinfo(c)
    ensures Exposed(RunOf(info + ['@'] + "h"))
  {
    WholeRun(info + ['@'] + "h");
    ExposedOf(info, "h");
  }

  lemma WholeRun(run: string)
    requires forall c :: c in run ==> IsUserinfo(c)
    ensures RunOf(run) == run
  {
    SpanWhole(run, IsUserinfo);
  }

  lemma OpenAtTheFront(t: string, y: string)
    requires t == "a://" + y && Exposed(RunOf(y))
    ensures !StableFor(URL, t)
  {
    AtTheFront(t, y);
    assert t[0..] == t && URL(t).Some?;
  }

  lemma AuthoritySplits(m: string) returns (info: string)
    requires forall c :: c in m ==> IsUserinfo(c)
    ensures Authority(m) == info + ['@'] + "h" && info != [] && info != MARKER
    ensures forall c :: c in info ==> IsUserinfo(c)
  {
    info := "t," + ("password=" + (m + ",x"));
    LastPart("t,", "password=", m, ",x", ['@'], "h");
    assert ",x" + ['@'] + "h" == ",x@h";
    InfoIsLong(info, "password=" + (m + ",x"));
    AllUserinfo(m);
  }

  lemma AllUserinfo(m: string)
    requires forall c :: c in m ==> IsUserinfo(c)
    ensures forall c :: c in "t," + ("password=" + (m + ",x")) ==> IsUserinfo(c)
  {}

  lemma BridgeIsOpen(m: string)
    requires forall c :: c in m ==> IsUserinfo(c)
    ensures !StableFor(URL, Bridge(m))
  {
    var info := AuthoritySplits(m);
    InfoIsExposed(info);
    OpenAtTheFront(Bridge(m), Authority(m));
  }

  lemma LastPart(a: string, b: string, m: string, x: string, at: string, h: string)
    ensures a + (b + (m + (x + at + h))) == a + (b + (m + x)) + at + h
  {}

  lemma InfoIsLong(info: string, rest: string)
    requires info == "t," + rest
    ensures info != [] && info != MARKER
  {
    assert info[0] == 't' && MARKER[0] == '[';
  }

  lemma FirstPass(v1: string, v2: string, m: string)
    requires v1 != [] && Lower(v1) && Lower(v2) && m == MARKER
    ensures Redacted(Bridge(v1 + ['/'] + v2)) == Bridge(m)
  {
    var v := v1 + ['/'] + v2;
    SecretKeysStay();
    SearchingFinds(KEY);
    ValueFills(v1, v2);
    PasswordNames();
    EqualsSeparates(v + ",x@h");
    PasswordIsKey(NamesSecret, SEP, v + ",x@h");
    BridgePasses(PAIRS, KEY, v);
    ShapesLeaveBridge(v1, v2);
  }

  /** Whatever the password, as long as it holds a slash: the first pass leaves what the second takes for
      credentials. */
  lemma SecondPassFires(v1: string, v2: string) returns (once: string)
    requires v1 != [] && Lower(v1) && Lower(v2)
    ensures once == Redacted(Bridge(v1 + ['/'] + v2)) && !Clean(PAIRS, once)
  {
    var m := MarkerIsUserinfo();
    FirstPass(v1, v2, m);
    once := Bridge(m);
    BridgeIsOpen(m);
    NothingIsLeft(EncryptedValue, Bridge(v1 + ['/'] + v2));
    NothingIsLeft(AgeIdentity, Bridge(v1 + ['/'] + v2));
    NotClean(PAIRS, once);
  }

  lemma MarkerIsUserinfo() returns (m: string)
    ensures m == MARKER && forall c :: c in m ==> IsUserinfo(c)
  {
    m := MARKER;
  }
}
