/**
 The redactor as it runs: three pattern rules, the hand-written token scanner, the
 key-value rule, their composition, and the counts they keep.
 */
module Redact {
  import opened Common
  import opened Rewriting
  import opened RedactRules
  import opened RedactStability
  import opened RedactOnce
  import opened Passing
  import opened RedactKeyValues
  import opened RedactPairs
  import opened RedactLast

  /** The rules that know a secret by its shape, in the order they run. */
  function Shapes(t: string): string {
    Tokens(Urls(Identities(Values(t))))
  }

  /** The rule that knows a secret by its key runs last; find is what it looks for. */
  function RedactedBy(find: Searcher, t: string): string {
    Pass(find, MARKER, Shapes(t))
  }

  function Redacted(t: string): string {
    RedactedBy(PAIRS, t)
  }

  datatype Fired = ByShape(rule: Rule) | SecretKeyValue

  type Counts = map<Fired, nat>

  /** n more for a rule; a rule that never fired has no entry. */
  function Add(counts: Counts, rule: Fired, n: nat): Counts {
    if n == 0 then counts else counts[rule := (if rule in counts then counts[rule] else 0) + n]
  }

  lemma AddOne(counts: Counts, rule: Fired, n: nat)
    ensures Add(Add(counts, rule, n), rule, 1) == Add(counts, rule, n + 1)
  {}

  /** How often each rule fires. */
  datatype Firings = Firings(encrypted: nat, age: nat, url: nat, token: nat, keyed: nat)

  function ShapeFirings(t: string): Firings {
    var enc := Values(t);
    var age := Identities(enc);
    Firings(Hits(ENCRYPTED, t), Hits(AGE, enc), Hits(URL, age), Hits(TOKEN, Urls(age)), 0)
  }

  function AllFirings(find: Searcher, t: string): Firings {
    ShapeFirings(t).(keyed := Replaced(find, Shapes(t)))
  }

  function AddAll(counts: Counts, n: Firings): Counts {
    var enc := Add(counts, ByShape(EncryptedValue), n.encrypted);
    var age := Add(enc, ByShape(AgeIdentity), n.age);
    var url := Add(age, ByShape(UrlCredentials), n.url);
    Add(Add(url, ByShape(ReliaburgerToken), n.token), SecretKeyValue, n.keyed)
  }

  function CountOf(counts: Counts, rule: Fired): nat {
    if rule in counts then counts[rule] else 0
  }

  /** Each rule's count grows by its own firings, and a rule has an entry exactly if it ever fired. */
  lemma CountsGrow(counts: Counts, n: Firings)
    ensures var after := AddAll(counts, n);
      && CountOf(after, ByShape(EncryptedValue)) == CountOf(counts, ByShape(EncryptedValue)) + n.encrypted
      && CountOf(after, ByShape(AgeIdentity)) == CountOf(counts, ByShape(AgeIdentity)) + n.age
      && CountOf(after, ByShape(UrlCredentials)) == CountOf(counts, ByShape(UrlCredentials)) + n.url
      && CountOf(after, ByShape(ReliaburgerToken)) == CountOf(counts, ByShape(ReliaburgerToken)) + n.token
      && CountOf(after, SecretKeyValue) == CountOf(counts, SecretKeyValue) + n.keyed
      && forall rule :: rule in after <==> rule in counts || CountOf(after, rule) > 0
  {
    var after := AddAll(counts, n);
    forall rule ensures rule in after <==> rule in counts || CountOf(after, rule) > 0 {
      match rule
      case SecretKeyValue =>
      case ByShape(EncryptedValue) =>
      case ByShape(AgeIdentity) =>
      case ByShape(UrlCredentials) =>
      case ByShape(ReliaburgerToken) =>
    }
  }

  const NONE_FIRED := Firings(0, 0, 0, 0, 0)

  lemma AddsNothingIff(n: Firings)
    ensures (forall counts :: AddAll(counts, n) == counts) <==> n == NONE_FIRED
  {
    if n != NONE_FIRED {
      assert AddAll(map[], n) != map[] by { AddsSomething(n); }
    }
  }

  lemma AddsSomething(n: Firings)
    requires n != NONE_FIRED
    ensures AddAll(map[], n) != map[]
  {
    var all := AddAll(map[], n);
    assert n.keyed > 0 ==> SecretKeyValue in all;
    assert n.token > 0 ==> ByShape(ReliaburgerToken) in all;
    assert n.url > 0 ==> ByShape(UrlCredentials) in all;
    assert n.age > 0 ==> ByShape(AgeIdentity) in all;
    assert n.encrypted > 0 ==> ByShape(EncryptedValue) in all;
  }

  // ------------------------------------------------------------ the rules by shape

  /** Text the rules by shape have passed holds nothing any of them recognises. */
  lemma NoShapeIsLeft(rule: Rule, t: string)
    ensures Stable(rule, Shapes(t))
  {
    var enc := Values(t);
    var age := Identities(enc);
    var url := Urls(age);
    match rule
    case EncryptedValue =>
      Establishes(EncryptedValue, t);
      Preserves(EncryptedValue, AgeIdentity, enc);
      Preserves(EncryptedValue, UrlCredentials, age);
      Preserves(EncryptedValue, ReliaburgerToken, url);
    case AgeIdentity =>
      Establishes(AgeIdentity, enc);
      Preserves(AgeIdentity, UrlCredentials, age);
      Preserves(AgeIdentity, ReliaburgerToken, url);
    case UrlCredentials =>
      Establishes(UrlCredentials, age);
      Preserves(UrlCredentials, ReliaburgerToken, url);
    case ReliaburgerToken =>
      Establishes(ReliaburgerToken, url);
  }

  lemma StableShapes(r: string)
    requires Stable(EncryptedValue, r) && Stable(AgeIdentity, r)
    requires Stable(UrlCredentials, r) && Stable(ReliaburgerToken, r)
    ensures Shapes(r) == r && ShapeFirings(r) == NONE_FIRED
  {
    StableIsUnchanged(ENCRYPTED, MarkerOf(EncryptedValue), r);
    StableIsUnchanged(AGE, MARKER, r);
    StableIsUnchanged(URL, MARKER, r);
    StableIsUnchanged(TOKEN, MARKER, r);
  }

  /** A second pass of the rules by shape changes nothing and fires nothing. */
  lemma ShapesAreIdempotent(t: string)
    ensures Shapes(Shapes(t)) == Shapes(t) && ShapeFirings(Shapes(t)) == NONE_FIRED
  {
    NoShapeIsLeft(EncryptedValue, t);
    NoShapeIsLeft(AgeIdentity, t);
    NoShapeIsLeft(UrlCredentials, t);
    NoShapeIsLeft(ReliaburgerToken, t);
    StableShapes(Shapes(t));
  }

  // ------------------------------------------------------------ all the rules

  /** Redacted text holds nothing that a rule with a fixed prefix recognises. */
  lemma NothingIsLeft(rule: Rule, t: string)
    requires !rule.UrlCredentials?
    ensures Stable(rule, Redacted(t))
  {
    NoShapeIsLeft(rule, t);
    PairsUncoverNothing(rule, Shapes(t));
  }

  /** Wherever a secret with a fixed prefix could start in redacted text, the marker stands in its place. */
  lemma SecretsAreMarked(t: string, i: nat)
    requires i <= |Redacted(t)|
    ensures var r := Redacted(t)[i..];
      && ("ENC[AGE:" <= r ==> "ENC[AGE:[redacted]]" <= r)
      && ("AGE-SECRET-KEY-1" <= r ==> |r| == 16 || !IsAlnum(r[16]))
      && ("rbrg_" <= r ==> "rbrg_[redacted]" <= r)
  {
    NothingIsLeft(EncryptedValue, t);
    NothingIsLeft(AgeIdentity, t);
    NothingIsLeft(ReliaburgerToken, t);
    MarkedAt(Redacted(t), i);
  }

  lemma MarkedAt(u: string, i: nat)
    requires i <= |u| && Stable(EncryptedValue, u) && Stable(AgeIdentity, u) && Stable(ReliaburgerToken, u)
    ensures var r := u[i..];
      && ("ENC[AGE:" <= r ==> "ENC[AGE:[redacted]]" <= r)
      && ("AGE-SECRET-KEY-1" <= r ==> |r| == 16 || !IsAlnum(r[16]))
      && ("rbrg_" <= r ==> "rbrg_[redacted]" <= r)
  {
    assert ENCRYPTED(u[i..]).None? && AGE(u[i..]).None? && TOKEN(u[i..]).None?;
    MarkedHere(u[i..]);
  }

  lemma MarkedHere(r: string)
    requires FindEncrypted(r).None? && FindAge(r).None? && FindToken(r).None?
    ensures "ENC[AGE:" <= r ==> "ENC[AGE:[redacted]]" <= r
    ensures "AGE-SECRET-KEY-1" <= r ==> |r| == 16 || !IsAlnum(r[16])
    ensures "rbrg_" <= r ==> "rbrg_[redacted]" <= r
  {
    EncryptedIs(r);
    if Trigger(AgeIdentity) <= r && |r| > 16 { assert r[16..][0] == r[16]; }
    if Trigger(ReliaburgerToken) <= r {
      AppendPrefix(r, Trigger(ReliaburgerToken), MARKER);
      assert Trigger(ReliaburgerToken) + MARKER == TOKEN_DONE;
    }
  }

  /** A further pass over r changes nothing and counts nothing. */
  ghost predicate Clean(find: Searcher, r: string) {
    RedactedBy(find, r) == r && forall counts :: AddAll(counts, AllFirings(find, r)) == counts
  }

  /** A second pass is clean exactly when the key-value rule brought no URL credentials within reach. */
  lemma SecondPassIsCleanIff(t: string)
    ensures Clean(PAIRS, Redacted(t)) <==> Stable(UrlCredentials, Redacted(t))
  {
    NothingIsLeft(EncryptedValue, t);
    NothingIsLeft(AgeIdentity, t);
    NothingIsLeft(ReliaburgerToken, t);
    PairsSettle();
    SecondPassIsClean(PAIRS, MARKER, Shapes(t));
    CleanIff(PAIRS, Redacted(t));
  }

  lemma CleanIff(find: Searcher, r: string)
    requires Stable(EncryptedValue, r) && Stable(AgeIdentity, r) && Stable(ReliaburgerToken, r)
    requires Pass(find, MARKER, r) == r && Replaced(find, r) == 0
    ensures Clean(find, r) <==> Stable(UrlCredentials, r)
  {
    if Stable(UrlCredentials, r) {
      StableShapes(r);
      Quiet(find, r);
    } else {
      NotClean(find, r);
    }
  }

  lemma Quiet(find: Searcher, r: string)
    requires Shapes(r) == r && ShapeFirings(r) == NONE_FIRED && Pass(find, MARKER, r) == r && Replaced(find, r) == 0
    ensures Clean(find, r)
  {
    AddsNothingIff(NONE_FIRED);
  }

  lemma NotClean(find: Searcher, r: string)
    requires Stable(EncryptedValue, r) && Stable(AgeIdentity, r) && !Stable(UrlCredentials, r)
    ensures !Clean(find, r)
  {
    UrlFires(r);
    NotQuiet(find, r);
  }

  lemma NotQuiet(find: Searcher, r: string)
    requires ShapeFirings(r).url != 0
    ensures !Clean(find, r)
  {
    AddsNothingIff(AllFirings(find, r));
  }

  lemma UrlFires(r: string)
    requires Stable(EncryptedValue, r) && Stable(AgeIdentity, r) && !Stable(UrlCredentials, r)
    ensures ShapeFirings(r).url != 0
  {
    StableIsUnchanged(ENCRYPTED, MarkerOf(EncryptedValue), r);
    StableIsUnchanged(AGE, MARKER, r);
    if Hits(URL, r) == 0 { NoHitsIsStable(URL, r); }
  }

  // ------------------------------------------------------------ the pattern rules as the regex engine applies them

  /** What one turn of the search writes for the front of a text, and where it goes on. */
  type Turner = string -> (string, nat)

  /** One turn rewrites what the finder's rule rewrites. */
  ghost predicate TurnIs(find: Finder, marker: string, t: string, written: string, n: nat, fired: nat) {
    && 0 < n <= |t|
    && Rewrite(find, marker, t) == written + Rewrite(find, marker, t[n..])
    && Hits(find, t) == Hits(find, t[n..]) + fired
  }

  ghost predicate TurnsAt(find: Finder, marker: string, turn: Turner, t: string) {
    t != [] ==> TurnIs(find, marker, t, turn(t).0, turn(t).1, if find(t).Some? then 1 else 0)
  }

  ghost predicate Turns(find: Finder, marker: string, turn: Turner) {
    forall t :: TurnsAt(find, marker, turn, t)
  }

  /** Copy a character where nothing matches, copy a value already replaced, replace a secret. */
  function EncryptedTurn(t: string): (string, nat) {
    match FindEncrypted(t)
    case Some(hit) => (t[..hit.keep] + MARKER + "]", hit.skip)
    case None =>
      if ENC_DONE <= t then (t[..19], 19) else (t[..if t == [] then 0 else 1], 1)
  }

  function AgeTurn(t: string): (string, nat) {
    match FindAge(t)
    case Some(hit) => (t[..hit.keep] + MARKER, hit.skip)
    case None => (t[..if t == [] then 0 else 1], 1)
  }

  /** The pattern's match takes in the @ after the user information, and the replacement writes it back. */
  function UrlTurn(t: string): (string, nat) {
    match FindUrl(t)
    case Some(hit) => (t[..hit.keep] + MARKER + "@", hit.skip + 1)
    case None =>
      if HasScheme(t) && Userinfo(RunOf(AfterScheme(t))).Some? then (UpTo(t, SchemeLen(t) + 14), SchemeLen(t) + 14)
      else (t[..if t == [] then 0 else 1], 1)
  }

  function UpTo(t: string, n: nat): string {
    if n <= |t| then t[..n] else t
  }

  /** A value already replaced is passed over whole: no secret starts inside it. */
  lemma EncryptedDone(t: string)
    requires ENC_DONE <= t
    ensures TurnIs(ENCRYPTED, MarkerOf(EncryptedValue), t, t[..19], 19, 0)
  {
    assert t[..19] == ENC_DONE;
    CleanEncrypted(t, t[19..]);
    CopyThrough(ENCRYPTED, MarkerOf(EncryptedValue), t, 19);
  }

  lemma CleanEncrypted(t: string, z: string)
    requires t == ENC_DONE + z
    ensures MissesUpTo(ENCRYPTED, t, 19)
  {
    forall i | 0 <= i < 19 ensures ENCRYPTED(t[i..]).None? { NoEncryptedAt(z, i); }
  }

  lemma NoEncryptedAt(z: string, i: nat)
    requires i < 19
    ensures FindEncrypted((ENC_DONE + z)[i..]).None?
  {
    assert (ENC_DONE + z)[i..] == ENC_DONE[i..] + z;
    NoEncryptedInDone(z, i);
  }

  lemma NoEncryptedInDone(z: string, i: nat)
    requires i < 19
    ensures FindEncrypted(ENC_DONE[i..] + z).None?
  {
    var x := ENC_DONE[i..] + z;
    EncryptedIs(x);
    if i == 0 {
      assert x[..19] == ENC_DONE;
    } else {
      EncryptedDistinct();
      assert Trigger(EncryptedValue) + MarkerOf(EncryptedValue) == ENC_DONE;
      NotHere(ENC_DONE, Trigger(EncryptedValue), i, z);
    }
  }

  /** So is user information already replaced. */
  lemma UrlDone(t: string, n: nat)
    requires HasScheme(t) && FindUrl(t).None? && Userinfo(RunOf(AfterScheme(t))).Some? && n == SchemeLen(t) + 14
    ensures TurnIs(URL, MARKER, t, UpTo(t, n), n, 0)
  {
    SchemeParts(t);
    var y := AfterScheme(t);
    var rest := MarkedFront(y);
    forall i | 0 <= i < n ensures URL(t[i..]).None? {
      if i < n - 11 { SchemePositions(t, i); } else { InMarkedFront(t, n - 11, i, rest); }
    }
    CopyThrough(URL, MARKER, t, n);
  }

  lemma MarkedFront(y: string) returns (rest: string)
    requires Userinfo(RunOf(y)).Some? && !Exposed(RunOf(y))
    ensures y == MARKER + (['@'] + rest)
  {
    var run := RunOf(y);
    assert run[..10] == MARKER && run[10] == '@';
    assert y[..10] == run[..10] && y[10] == run[10];
    rest := y[11..];
  }

  lemma InMarkedFront(t: string, n: nat, i: nat, rest: string)
    requires n <= i < n + 11 && n <= |t| && t[n..] == MARKER + (['@'] + rest)
    ensures i < |t| && FindUrl(t[i..]).None?
  {
    var y := t[n..];
    assert t[i..] == y[i - n..];
    if i < n + 10 {
      assert y[i - n..] == MARKER[i - n..] + (['@'] + rest);
      NoSchemeInMarker(['@'] + rest, i - n);
    } else {
      assert y[10..] == ['@'] + rest && y[10..][0] == '@';
    }
  }

  lemma Glue(done: string, a: string, z: string, rest: string, whole: string)
    requires rest == a + z && done + rest == whole
    ensures done + a + z == whole
  {}

  /** The @ the URL pattern takes into its match and writes back is copied either way. */
  lemma UrlSecret(t: string, hit: Hit)
    requires FindUrl(t) == Some(hit)
    ensures hit.keep <= |t| && TurnIs(URL, MARKER, t, t[..hit.keep] + MARKER + "@", hit.skip + 1, 1)
  {
    var v := AfterSecret(t, hit);
    UnfoldHit(URL, MARKER, t, hit);
    AtIsCopied(v);
    var u := ['@'] + v;
    assert t[..hit.keep] + (MARKER + Urls(u)) == t[..hit.keep] + MARKER + Urls(u);
    Glue(t[..hit.keep] + MARKER, "@", Urls(v), Urls(u), Urls(t));
  }

  lemma AtIsCopied(v: string)
    ensures Urls(['@'] + v) == ['@'] + Urls(v) && Hits(URL, ['@'] + v) == Hits(URL, v)
  {
    var u := ['@'] + v;
    assert u[0] == '@' && u[1..] == v;
    UnfoldMiss(URL, MARKER, u);
  }

  lemma OtherSecret(find: Finder, marker: string, t: string, hit: Hit)
    requires find(t) == Some(hit)
    ensures hit.keep <= |t| && TurnIs(find, marker, t, t[..hit.keep] + marker, hit.skip, 1)
  {
    UnfoldHit(find, marker, t, hit);
    var z := Rewrite(find, marker, t[hit.skip..]);
    assert t[..hit.keep] + (marker + z) == t[..hit.keep] + marker + z;
  }

  lemma NoMatch(find: Finder, marker: string, t: string)
    requires t != [] && find(t).None?
    ensures TurnIs(find, marker, t, t[..1], 1, 0)
  {
    UnfoldMiss(find, marker, t);
  }

  lemma EncryptedTurns()
    ensures Turns(ENCRYPTED, MarkerOf(EncryptedValue), EncryptedTurn)
  {
    forall t ensures TurnsAt(ENCRYPTED, MarkerOf(EncryptedValue), EncryptedTurn, t) {
      if t != [] { EncryptedTurnsAt(t); }
    }
  }

  lemma EncryptedTurnsAt(t: string)
    requires t != []
    ensures TurnsAt(ENCRYPTED, MarkerOf(EncryptedValue), EncryptedTurn, t)
  {
    var h := FindEncrypted(t);
    if h.Some? {
      OtherSecret(ENCRYPTED, MarkerOf(EncryptedValue), t, h.value);
      assert t[..h.value.keep] + MarkerOf(EncryptedValue) == t[..h.value.keep] + MARKER + "]";
    } else if ENC_DONE <= t {
      EncryptedDone(t);
    } else {
      NoMatch(ENCRYPTED, MarkerOf(EncryptedValue), t);
    }
  }

  lemma AgeTurns()
    ensures Turns(AGE, MARKER, AgeTurn)
  {
    forall t ensures TurnsAt(AGE, MARKER, AgeTurn, t) {
      var h := FindAge(t);
      if h.Some? { OtherSecret(AGE, MARKER, t, h.value); } else if t != [] { NoMatch(AGE, MARKER, t); }
    }
  }

  lemma UrlTurns()
    ensures Turns(URL, MARKER, UrlTurn)
  {
    forall t ensures TurnsAt(URL, MARKER, UrlTurn, t) {
      if t != [] { UrlTurnsAt(t); }
    }
  }

  lemma UrlTurnsAt(t: string)
    requires t != []
    ensures TurnsAt(URL, MARKER, UrlTurn, t)
  {
    var h := FindUrl(t);
    if h.Some? {
      UrlSecretTurn(t, h.value);
    } else if HasScheme(t) && Userinfo(RunOf(AfterScheme(t))).Some? {
      UrlDoneTurn(t, SchemeLen(t) + 14);
    } else {
      NoMatch(URL, MARKER, t);
    }
  }

  lemma UrlSecretTurn(t: string, hit: Hit)
    requires FindUrl(t) == Some(hit)
    ensures TurnsAt(URL, MARKER, UrlTurn, t)
  {
    UrlSecret(t, hit);
    UrlTurnIs(t, hit);
  }

  lemma UrlTurnIs(t: string, hit: Hit)
    requires FindUrl(t) == Some(hit)
    ensures hit.keep <= |t| && UrlTurn(t) == (t[..hit.keep] + MARKER + "@", hit.skip + 1)
  {}

  lemma UrlDoneTurn(t: string, n: nat)
    requires HasScheme(t) && FindUrl(t).None? && Userinfo(RunOf(AfterScheme(t))).Some? && n == SchemeLen(t) + 14
    ensures TurnsAt(URL, MARKER, UrlTurn, t)
  {
    UrlDone(t, n);
  }

  class RedactionCounts {
    var fired: Counts

    constructor ()
      ensures fired == map[]
    {
      fired := map[];
    }

    method Record(rule: Fired)
      modifies this
      ensures fired == Add(old(fired), rule, 1)
    {
      fired := fired[rule := (if rule in fired then fired[rule] else 0) + 1];
    }

    /** The pattern engine: turn after turn, recording each secret replaced. */
    method ReplaceAll(rule: Fired, find: Finder, marker: string, turn: Turner, text: string)
      returns (redacted: string)
      requires Turns(find, marker, turn)
      modifies this
      ensures redacted == Rewrite(find, marker, text)
      ensures fired == Add(old(fired), rule, Hits(find, text))
    {
      redacted := "";
      var rest := text;
      ghost var n := 0;
      while rest != []
        invariant redacted + Rewrite(find, marker, rest) == Rewrite(find, marker, text)
        invariant n + Hits(find, rest) == Hits(find, text)
        invariant fired == Add(old(fired), rule, n)
        decreases |rest|
      {
        assert TurnsAt(find, marker, turn, rest);
        var (written, taken) := turn(rest);
        var next := Rewrite(find, marker, rest[taken..]);
        Glue(redacted, written, next, Rewrite(find, marker, rest), Rewrite(find, marker, text));
        if find(rest).Some? {
          Record(rule);
          AddOne(old(fired), rule, n);
          n := n + 1;
        }
        redacted, rest := redacted + written, rest[taken..];
      }
      assert n == Hits(find, text) && redacted + [] == redacted;
    }

    method RedactEncryptedValues(text: string) returns (redacted: string)
      modifies this
      ensures redacted == Values(text)
      ensures fired == Add(old(fired), ByShape(EncryptedValue), Hits(ENCRYPTED, text))
    {
      EncryptedTurns();
      redacted := ReplaceAll(ByShape(EncryptedValue), ENCRYPTED, MarkerOf(EncryptedValue), EncryptedTurn, text);
    }

    method RedactAgeIdentities(text: string) returns (redacted: string)
      modifies this
      ensures redacted == Identities(text)
      ensures fired == Add(old(fired), ByShape(AgeIdentity), Hits(AGE, text))
    {
      AgeTurns();
      redacted := ReplaceAll(ByShape(AgeIdentity), AGE, MARKER, AgeTurn, text);
    }

    method RedactUrlCredentials(text: string) returns (redacted: string)
      modifies this
      ensures redacted == Urls(text)
      ensures fired == Add(old(fired), ByShape(UrlCredentials), Hits(URL, text))
    {
      UrlTurns();
      redacted := ReplaceAll(ByShape(UrlCredentials), URL, MARKER, UrlTurn, text);
    }

    /** The hand-written token scanner. */
    method RedactTokens(text: string) returns (redacted: string)
      modifies this
      ensures redacted == Tokens(text)
      ensures fired == Add(old(fired), ByShape(ReliaburgerToken), Hits(TOKEN, text))
    {
      var prefix := Trigger(ReliaburgerToken);
      redacted := "";
      var rest := text;
      ghost var n := 0;
      var start: nat := IndexOf(rest, prefix);
      while start < |rest|
        invariant IsIndexOf(rest, prefix, start)
        invariant redacted + Tokens(rest) == Tokens(text)
        invariant n + Hits(TOKEN, rest) == Hits(TOKEN, text)
        invariant fired == Add(old(fired), ByShape(ReliaburgerToken), n)
        decreases |rest|
      {
        TokenTurn(rest, start);
        var after := rest[start + 5..];
        var next := after[Passed(after)..];
        Glue(redacted, rest[..start + 5] + MARKER, Tokens(next), Tokens(rest), Tokens(text));
        redacted := redacted + (rest[..start + 5] + MARKER);
        if !(MARKER <= after) {
          Record(ByShape(ReliaburgerToken));
          AddOne(old(fired), ByShape(ReliaburgerToken), n);
          n := n + 1;
        }
        rest := next;
        start := IndexOf(rest, prefix);
      }
      ScanEnds(rest, start);
      redacted := redacted + rest;
    }

    /** The search for values: copy where nothing matches, copy a match left alone, replace a value. */
    method ReplaceValues(find: Searcher, text: string) returns (redacted: string)
      modifies this
      ensures redacted == Pass(find, MARKER, text)
      ensures fired == Add(old(fired), SecretKeyValue, Replaced(find, text))
    {
      redacted := "";
      var rest := text;
      ghost var n := 0;
      while rest != []
        invariant redacted + Pass(find, MARKER, rest) == Pass(find, MARKER, text)
        invariant n + Replaced(find, rest) == Replaced(find, text)
        invariant fired == Add(old(fired), SecretKeyValue, n)
        decreases |rest|
      {
        var written, taken := Turn(find, rest);
        Glue(redacted, written, Pass(find, MARKER, rest[taken..]), Pass(find, MARKER, rest), Pass(find, MARKER, text));
        if find(rest).Replace? {
          Record(SecretKeyValue);
          AddOne(old(fired), SecretKeyValue, n);
          n := n + 1;
        }
        redacted, rest := redacted + written, rest[taken..];
      }
      assert n == Replaced(find, text) && redacted + [] == redacted;
    }

    method RedactSecretKeyValues(text: string) returns (redacted: string)
      modifies this
      ensures redacted == Pairs(text)
      ensures fired == Add(old(fired), SecretKeyValue, Replaced(PAIRS, text))
    {
      redacted := ReplaceValues(PAIRS, text);
    }

    /** The rules by shape, in order. */
    method RedactShapes(text: string) returns (redacted: string)
      modifies this
      ensures redacted == Shapes(text)
      ensures fired == AddAll(old(fired), ShapeFirings(text))
    {
      redacted := RedactEncryptedValues(text);
      redacted := RedactAgeIdentities(redacted);
      redacted := RedactUrlCredentials(redacted);
      redacted := RedactTokens(redacted);
    }

    /** All the rules, in order. */
    method RedactAll(text: string) returns (redacted: string)
      modifies this
      ensures redacted == Redacted(text)
      ensures fired == AddAll(old(fired), AllFirings(PAIRS, text))
    {
      redacted := RedactShapes(text);
      redacted := RedactSecretKeyValues(redacted);
    }
  }

  /** One turn of the key-value search. */
  method Turn(find: Searcher, t: string) returns (written: string, taken: nat)
    requires t != []
    ensures 0 < taken <= |t| && Pass(find, MARKER, t) == written + Pass(find, MARKER, t[taken..])
    ensures Replaced(find, t) == Replaced(find, t[taken..]) + if find(t).Replace? then 1 else 0
  {
    var f := find(t);
    assert f.Fits(t);
    match f
    case Nothing =>
      written, taken := t[..1], 1;
      UnfoldNothing(find, MARKER, t);
    case Leave(n) =>
      written, taken := t[..n], n;
      UnfoldLeave(find, MARKER, t, n);
    case Replace(keep, skip, end) =>
      written, taken := t[..keep] + (MARKER + t[skip..end]), end;
      UnfoldReplace(find, MARKER, t, f);
      Wrapped(t[..keep], MARKER, t[skip..end], Pass(find, MARKER, t[end..]));
  }

  lemma Wrapped(a: string, m: string, c: string, z: string)
    ensures a + (m + (c + z)) == a + (m + c) + z
  {}

  // ------------------------------------------------------------ the scanner's search

  /** The first place p starts in t, or the end of t. */
  ghost predicate IsIndexOf(t: string, p: string, k: nat) {
    && k <= |t|
    && (k < |t| ==> p <= t[k..])
    && forall i :: 0 <= i < k ==> !(p <= t[i..])
  }

  method IndexOf(t: string, p: string) returns (k: nat)
    ensures IsIndexOf(t, p, k)
  {
    k := 0;
    while k < |t| && !(p <= t[k..])
      invariant k <= |t| && forall i :: 0 <= i < k ==> !(p <= t[i..])
    {
      k := k + 1;
    }
  }

  lemma SkipToPrefix(t: string, k: nat)
    requires IsIndexOf(t, Trigger(ReliaburgerToken), k)
    ensures Tokens(t) == t[..k] + Tokens(t[k..]) && Hits(TOKEN, t) == Hits(TOKEN, t[k..])
  {
    forall i | 0 <= i < k ensures TOKEN(t[i..]).None? {}
    CopyThrough(TOKEN, MARKER, t, k);
  }

  lemma ScanEnds(t: string, k: nat)
    requires IsIndexOf(t, Trigger(ReliaburgerToken), k) && k == |t|
    ensures Tokens(t) == t && Hits(TOKEN, t) == 0
  {
    SkipToPrefix(t, k);
    assert t[k..] == [] && t[..k] == t;
  }

  /** How many characters after the prefix the scanner passes over: a marker already there, or the token's body. */
  function Passed(after: string): (n: nat)
    ensures n <= |after|
  {
    if MARKER <= after then |MARKER| else Span(after, IsTokenChar)
  }

  lemma DoneToken(u: string, after: string)
    requires u == Trigger(ReliaburgerToken) + after && MARKER <= after
    ensures Tokens(u) == Trigger(ReliaburgerToken) + MARKER + Tokens(after[10..])
    ensures Hits(TOKEN, u) == Hits(TOKEN, after[10..])
  {
    CutDone(u, after);
    DoneTokenIsCopied(after[10..]);
  }

  lemma CutDone(u: string, after: string)
    requires u == Trigger(ReliaburgerToken) + after && MARKER <= after
    ensures Trigger(ReliaburgerToken) + MARKER == TOKEN_DONE && u == TOKEN_DONE + after[10..]
  {
    assert after[..10] == MARKER;
  }

  lemma DoneTokenIsCopied(z: string)
    ensures Tokens(TOKEN_DONE + z) == TOKEN_DONE + Tokens(z) && Hits(TOKEN, TOKEN_DONE + z) == Hits(TOKEN, z)
  {
    var u := TOKEN_DONE + z;
    forall i | 0 <= i < 15 ensures TOKEN(u[i..]).None? { CleanToken(z, i); }
    CopyThrough(TOKEN, MARKER, u, 15);
    assert u[15..] == z && u[..15] == TOKEN_DONE;
  }

  lemma CleanToken(z: string, i: nat)
    requires i < 15
    ensures FindToken((TOKEN_DONE + z)[i..]).None?
  {
    assert (TOKEN_DONE + z)[i..] == TOKEN_DONE[i..] + z;
    NoTokenInDone(z, i);
  }

  lemma NoTokenInDone(z: string, i: nat)
    requires i < 15
    ensures FindToken(TOKEN_DONE[i..] + z).None?
  {
    var x := TOKEN_DONE[i..] + z;
    if i == 0 {
      assert x[5..][..10] == MARKER;
    } else {
      TokenDistinct();
      assert Trigger(ReliaburgerToken) + MARKER == TOKEN_DONE;
      NotHere(TOKEN_DONE, Trigger(ReliaburgerToken), i, z);
    }
  }

  lemma SecretToken(u: string, after: string)
    requires u == Trigger(ReliaburgerToken) + after && !(MARKER <= after)
    ensures Tokens(u) == Trigger(ReliaburgerToken) + MARKER + Tokens(after[Passed(after)..])
    ensures Hits(TOKEN, u) == 1 + Hits(TOKEN, after[Passed(after)..])
  {
    assert u[5..] == after && u[..5] == Trigger(ReliaburgerToken);
    var n := Span(after, IsTokenChar);
    UnfoldHit(TOKEN, MARKER, u, Hit(5, 5 + n));
    assert u[5 + n..] == after[n..];
    var z := Tokens(after[n..]);
    assert Trigger(ReliaburgerToken) + (MARKER + z) == Trigger(ReliaburgerToken) + MARKER + z;
  }

  lemma TokenTurn(t: string, k: nat)
    requires k < |t| && IsIndexOf(t, Trigger(ReliaburgerToken), k)
    ensures k + 5 <= |t|
    ensures var after := t[k + 5..];
      && Tokens(t) == t[..k + 5] + MARKER + Tokens(after[Passed(after)..])
      && Hits(TOKEN, t) == Hits(TOKEN, after[Passed(after)..]) + if MARKER <= after then 0 else 1
  {
    SkipToPrefix(t, k);
    var after := t[k + 5..];
    CutPrefix(t, k);
    if MARKER <= after { DoneToken(t[k..], after); } else { SecretToken(t[k..], after); }
    Rejoin(t[..k], Trigger(ReliaburgerToken), MARKER, Tokens(after[Passed(after)..]));
  }

  lemma CutPrefix(t: string, k: nat)
    requires k < |t| && Trigger(ReliaburgerToken) <= t[k..]
    ensures k + 5 <= |t| && t[k..] == Trigger(ReliaburgerToken) + t[k + 5..]
    ensures t[..k + 5] == t[..k] + Trigger(ReliaburgerToken)
  {
    assert t[k..][..5] == Trigger(ReliaburgerToken);
  }

  lemma Rejoin(a: string, p: string, m: string, z: string)
    ensures a + (p + m + z) == a + p + m + z
  {}
}
