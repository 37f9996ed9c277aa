/**
 Why the key-value rule, run again, finds only values it replaced, and why it
 uncovers nothing for the rules that recognise a secret by a fixed prefix.
 */
module RedactPairs {
  import opened Common
  import opened Passing
  import opened Rewriting
  import opened RedactRules
  import opened RedactStability
  import opened RedactKeyValues
  import opened RedactKeys

  /** find is the rule over these keys. */
  ghost predicate Finds(find: Searcher, key: KeyFinder) {
    forall t {:trigger FoundAt(key, t, find(t))} :: FoundAt(key, t, find(t))
  }

  predicate FoundAt(key: KeyFinder, t: string, f: Found) {
    f == FindNamed(key, t)
  }

  lemma SearchingFinds(key: KeyFinder)
    ensures Finds(Searching(key), key)
  {}

  lemma NoKeyNoPair(find: Searcher, key: KeyFinder, t: string)
    requires Finds(find, key) && KeysStay(key) && (t == [] || !IsKeyChar(t[0]))
    ensures find(t).Nothing?
  {
    assert FoundAt(key, t, find(t)) && KeyFits(t, key(t)) && KeyTextAt(t, key(t));
  }

  // ------------------------------------------------------------ values

  function Opening(shape: Shape): (r: string)
    ensures |r| == Value(shape, 0, 0).Open()
  {
    match shape
    case Escaped => "\\\""
    case Double => "\""
    case Single => "'"
    case Bare => ""
  }

  /** A whole value of the shape. */
  predicate Fills(shape: Shape, body: string) {
    match shape
    case Escaped => forall c :: c in body ==> IsEscaped(c)
    case Double => QuotedLen(body) == |body|
    case Single => forall c :: c in body ==> IsSingle(c)
    case Bare => body != [] && IsBareFirst(body[0]) && forall c :: c in body ==> IsBare(c)
  }

  lemma {:induction false} QuotedJoin(body: string, tail: string)
    requires QuotedLen(body) == |body|
    ensures QuotedLen(body + tail) == |body| + QuotedLen(tail)
    decreases |body|
  {
    if body == [] {
      assert body + tail == tail;
    } else {
      var n := if body[0] == '\\' then 2 else 1;
      assert body[0] == '\\' ==> |body| > 1;
      assert (body + tail)[n..] == body[n..] + tail;
      QuotedJoin(body[n..], tail);
    }
  }

  lemma {:induction false} QuotedTaken(s: string)
    ensures QuotedLen(s[..QuotedLen(s)]) == QuotedLen(s) && QuotedLen(s[QuotedLen(s)..]) == 0
    decreases |s|
  {
    var q := QuotedLen(s);
    if q == 0 {
      assert s[0..] == s;
    } else {
      var n := if s[0] == '\\' then 2 else 1;
      QuotedTaken(s[n..]);
      assert s[..q][n..] == s[n..][..q - n] && s[q..] == s[n..][q - n..];
      assert s[..q][0] == s[0] && (n == 2 ==> s[..q][1] == s[1]);
    }
  }

  predicate Plain(c: char) {
    c != '"' && c != '\\' && c != '\n'
  }

  lemma {:induction false} PlainQuoted(s: string)
    requires forall c :: c in s ==> Plain(c)
    ensures QuotedLen(s) == |s|
    decreases |s|
  {
    if s != [] {
      assert s[0] in s && forall c :: c in s[1..] ==> c in s;
      PlainQuoted(s[1..]);
    }
  }

  lemma MarkerFills(shape: Shape)
    ensures Fills(shape, MARKER)
  {
    match shape
    case Escaped => MarkerChars(IsEscaped);
    case Double => MarkerChars(Plain); PlainQuoted(MARKER);
    case Single => MarkerChars(IsSingle);
    case Bare => MarkerChars(IsBare); assert MARKER[0] == '[';
  }

  lemma InnerOf(shape: Shape, body: string, tail: string)
    requires Fills(shape, body) && Inner(shape, tail) == 0
    ensures Inner(shape, body + tail) == |body|
  {
    match shape
    case Escaped => SpanThrough(body, tail, IsEscaped);
    case Double => QuotedJoin(body, tail);
    case Single => SpanThrough(body, tail, IsSingle);
    case Bare => SpanThrough(body, tail, IsBare);
  }

  lemma SpanRest(s: string, p: char -> bool)
    ensures (forall c :: c in s[..Span(s, p)] ==> p(c)) && Span(s[Span(s, p)..], p) == 0
  {
    SpanTaken(s, p);
    SpanIs(s[Span(s, p)..], p, 0);
  }

  lemma InnerTaken(shape: Shape, s: string)
    requires shape.Bare? ==> s != [] && IsBareFirst(s[0])
    ensures Fills(shape, s[..Inner(shape, s)]) && Inner(shape, s[Inner(shape, s)..]) == 0
  {
    match shape
    case Escaped => SpanRest(s, IsEscaped);
    case Double => QuotedTaken(s);
    case Single => SpanRest(s, IsSingle);
    case Bare => SpanRest(s, IsBare);
  }

  lemma ShapeOfOpening(shape: Shape, s: string)
    requires shape.Bare? ==> s != [] && IsBareFirst(s[0])
    ensures ShapeOf(Opening(shape) + s) == Some(shape)
  {
    var v := Opening(shape) + s;
    if shape.Bare? { assert v == s; } else { assert v[0] == Opening(shape)[0]; }
    if shape.Escaped? { assert v[..2] == "\\\""; } else if !shape.Bare? { assert v[..1] == Opening(shape); }
  }

  /** A value of a shape is found as what it is. */
  lemma ValueOf(shape: Shape, body: string, tail: string)
    requires Fills(shape, body) && Inner(shape, tail) == 0
    ensures ValueAt(Opening(shape) + (body + tail)) == Some(Value(shape, |body|, Closing(shape, tail)))
  {
    var s := body + tail;
    var v := Opening(shape) + s;
    ShapeOfOpening(shape, s);
    InnerOf(shape, body, tail);
    CutValue(Opening(shape), body, tail);
  }

  lemma CutValue(open: string, body: string, tail: string)
    ensures var v := open + (body + tail);
      && v[|open|..] == body + tail && v[|open| + |body|..] == tail && v[|open|..|open| + |body|] == body
  {}

  /** Whatever is found as a value is one of its shape. */
  lemma ValueParts(v: string, val: Value) returns (body: string, tail: string)
    requires ValueAt(v) == Some(val)
    ensures v == Opening(val.shape) + (body + tail) && Fills(val.shape, body) && Inner(val.shape, tail) == 0
    ensures val.len == |body| && val.close == Closing(val.shape, tail)
  {
    var open := |Opening(val.shape)|;
    ValueIs(v, val);
    OpeningIs(v, val.shape);
    var s := v[open..];
    InnerTaken(val.shape, s);
    body, tail := s[..val.len], s[val.len..];
    Recut(v, open, val.len);
  }

  lemma Recut(v: string, open: nat, n: nat)
    requires open + n <= |v|
    ensures v == v[..open] + (v[open..][..n] + v[open..][n..]) && v[open + n..] == v[open..][n..]
  {}

  lemma ValueIs(v: string, val: Value)
    requires ValueAt(v) == Some(val)
    ensures var open := |Opening(val.shape)|;
      && ShapeOf(v) == Some(val.shape) && open <= |v| && val.len == Inner(val.shape, v[open..])
      && val.close == Closing(val.shape, v[open + val.len..])
  {}

  lemma OpeningIs(v: string, shape: Shape)
    requires ShapeOf(v) == Some(shape)
    ensures var open := |Opening(shape)|;
      && open <= |v| && v[..open] == Opening(shape)
      && (shape.Bare? ==> v[open..] != [] && IsBareFirst(v[open..][0]))
  {
    if shape.Escaped? { assert v[..2] == "\\\""; } else if !shape.Bare? { assert v[..1] == Opening(shape); }
  }

  // ------------------------------------------------------------ what follows a value

  /** The same first character, and the same second one after a backslash. */
  predicate SameFront(y: string, z: string) {
    && (y == [] <==> z == [])
    && (y != [] ==> z[0] == y[0])
    && (y != [] && y[0] == '\\' ==> (|y| > 1 <==> |z| > 1) && (|y| > 1 ==> z[1] == y[1]))
  }

  lemma FrontPasses(find: Searcher, key: KeyFinder, y: string)
    requires Finds(find, key) && KeysStay(key)
    ensures SameFront(y, Pass(find, MARKER, y))
  {
    FirstStays(find, MARKER, y);
    if y != [] && y[0] == '\\' {
      NoKeyNoPair(find, key, y);
      SecondStays(find, MARKER, y);
    }
  }

  lemma SameEnd(shape: Shape, y: string, z: string)
    requires SameFront(y, z) && Inner(shape, y) == 0
    ensures Inner(shape, z) == 0 && Closing(shape, z) == Closing(shape, y)
  {
    if y != [] {
      match shape
      case Escaped => SpanIs(z, IsEscaped, 0); SamePrefix(y, z);
      case Double => SamePrefix(y, z);
      case Single => SpanIs(z, IsSingle, 0); SamePrefix(y, z);
      case Bare => SpanIs(z, IsBare, 0);
    } else {
      assert z == y;
    }
  }

  lemma SamePrefix(y: string, z: string)
    requires SameFront(y, z) && y != []
    ensures ("\"" <= y <==> "\"" <= z) && ("'" <= y <==> "'" <= z) && ("\\\"" <= y <==> "\\\"" <= z)
  {
    assert y[..1] == [y[0]] && z[..1] == [z[0]];
    assert |y| > 1 ==> y[..2] == [y[0], y[1]];
    assert |z| > 1 ==> z[..2] == [z[0], z[1]];
  }

  // ------------------------------------------------------------ a match after a pass

  /** What is done with a value of a shape after a key of length k. */
  function FoundFor(k: nat, shape: Shape, body: string, close: nat): Found {
    var keep := k + |Opening(shape)|;
    if body == [] || Has(body, MARKER) then Leave(keep + |body| + close)
    else Replace(keep, keep + |body|, keep + |body| + close)
  }

  lemma FoundOf(key: KeyFinder, t: string, k: nat, shape: Shape, body: string, tail: string)
    requires KeysStay(key) && key(t) == Some(k) && k <= |t| && Fills(shape, body) && Inner(shape, tail) == 0
    ensures FindNamed(key, t[..k] + (Opening(shape) + (body + tail))) == FoundFor(k, shape, body, Closing(shape, tail))
  {
    var y := Opening(shape) + (body + tail);
    NotBlankFirst(shape, body, tail);
    KeptKey(key, t, k, y);
    ValueOf(shape, body, tail);
    CutValue(Opening(shape), body, tail);
    FoundAfterKey(key, t[..k] + y, k, y, Value(shape, |body|, Closing(shape, tail)), body);
  }

  lemma KeptKey(key: KeyFinder, t: string, k: nat, y: string)
    requires KeysStay(key) && key(t) == Some(k) && k <= |t| && (y != [] ==> !IsBlank(y[0]))
    ensures key(t[..k] + y) == Some(k) && (t[..k] + y)[k..] == y
  {
    assert KeyFits(t, key(t)) && KeyStaysAt(key, t, y);
  }

  lemma NotBlankFirst(shape: Shape, body: string, tail: string)
    requires Fills(shape, body)
    ensures var y := Opening(shape) + (body + tail); y != [] ==> !IsBlank(y[0])
  {
    var y := Opening(shape) + (body + tail);
    if shape.Bare? { assert y[0] == body[0]; } else { assert y[0] == Opening(shape)[0]; }
  }

  lemma FindIs(key: KeyFinder, t: string, k: nat, val: Value)
    requires key(t) == Some(k) && k <= |t| && ValueAt(t[k..]) == Some(val)
    ensures 0 < k && k + val.End() <= |t| && FindNamed(key, t) == Judge(t, k, val)
  {}

  lemma JudgeIs(t: string, k: nat, y: string, val: Value, body: string)
    requires 0 < k && k + val.End() <= |t| && t[k..] == y && val.len == |body|
    requires var open := |Opening(val.shape)|; open + |body| <= |y| && y[open..open + |body|] == body
    ensures Judge(t, k, val) == FoundFor(k, val.shape, body, val.close)
  {
    SliceOfSlice(t, k, |Opening(val.shape)|, |body|);
  }

  lemma SliceOfSlice(t: string, k: nat, i: nat, n: nat)
    requires k + i + n <= |t|
    ensures t[k..][i..i + n] == t[k + i..k + i + n]
  {}

  lemma FoundAfterKey(key: KeyFinder, t: string, k: nat, y: string, val: Value, body: string)
    requires key(t) == Some(k) && k <= |t| && t[k..] == y && ValueAt(y) == Some(val) && val.len == |body|
    requires var open := |Opening(val.shape)|; open + |body| <= |y| && y[open..open + |body|] == body
    ensures FindNamed(key, t) == FoundFor(k, val.shape, body, val.close)
  {
    FindIs(key, t, k, val);
    JudgeIs(t, k, y, val, body);
  }

  lemma FoundParts(key: KeyFinder, t: string) returns (k: nat, shape: Shape, body: string, tail: string)
    requires !FindNamed(key, t).Nothing?
    ensures key(t) == Some(k) && k <= |t| && t[k..] == Opening(shape) + (body + tail)
    ensures Fills(shape, body) && Inner(shape, tail) == 0
    ensures FindNamed(key, t) == FoundFor(k, shape, body, Closing(shape, tail))
  {
    assert KeyFits(t, key(t));
    k := key(t).value;
    var val := ValueAt(t[k..]).value;
    shape := val.shape;
    body, tail := ValueParts(t[k..], val);
    CutValue(Opening(shape), body, tail);
    FoundAfterKey(key, t, k, t[k..], val, body);
  }

  lemma SameFrontAfter(tail: string, n: nat, z: string)
    requires n <= |tail| && SameFront(tail[n..], z)
    ensures SameFront(tail, tail[..n] + z)
  {
    var r := tail[..n] + z;
    if n == 0 { assert r == z && tail[0..] == tail; } else { assert r[0] == tail[0]; }
    if n == 1 && |tail| > 1 { assert tail[1..][0] == tail[1] && r[1] == z[0]; }
  }

  /** A value that is passed over, or one replaced by a marker, is passed over the next time. */
  lemma MatchSettles(find: Searcher, key: KeyFinder, t: string)
    requires Finds(find, key) && KeysStay(key) && !find(t).Nothing?
    ensures SettledAt(find, MARKER, t)
  {
    var k, shape, body, tail := MatchParts(find, key, t);
    var next := AfterMatch(find, key, t, k, shape, body, tail);
    var kept := if find(t).Leave? then body else MARKER;
    MarkerFills(shape);
    FoundNext(find, key, t, k, shape, kept, next);
    FoundSettles(k, shape, body, Closing(shape, tail));
  }

  lemma MatchParts(find: Searcher, key: KeyFinder, t: string)
    returns (k: nat, shape: Shape, body: string, tail: string)
    requires Finds(find, key) && !find(t).Nothing?
    ensures key(t) == Some(k) && k <= |t| && t[k..] == Opening(shape) + (body + tail)
    ensures Fills(shape, body) && Inner(shape, tail) == 0
    ensures find(t) == FoundFor(k, shape, body, Closing(shape, tail))
  {
    assert FoundAt(key, t, find(t));
    k, shape, body, tail := FoundParts(key, t);
  }

  lemma FoundSettles(k: nat, shape: Shape, body: string, close: nat)
    ensures var f := FoundFor(k, shape, body, close);
      f.Replace? ==> FoundFor(k, shape, MARKER, close) == Leave(f.keep + |MARKER| + (f.end - f.skip))
  {
    MarkerHasMarker();
  }

  /** What follows the value in the text passed, and how it ends the value. */
  lemma AfterMatch(find: Searcher, key: KeyFinder, t: string, k: nat, shape: Shape, body: string, tail: string)
    returns (next: string)
    requires Finds(find, key) && KeysStay(key) && !find(t).Nothing?
    requires k <= |t| && t[k..] == Opening(shape) + (body + tail) && Inner(shape, tail) == 0
    requires find(t) == FoundFor(k, shape, body, Closing(shape, tail))
    ensures Inner(shape, next) == 0 && Closing(shape, next) == Closing(shape, tail)
    ensures Pass(find, MARKER, t) == t[..k] + (Opening(shape) + ((if find(t).Leave? then body else MARKER) + next))
  {
    var close := Closing(shape, tail);
    next := tail[..close] + Pass(find, MARKER, tail[close..]);
    TailSettles(find, key, shape, tail, close, next);
    if find(t).Leave? {
      FollowingLeft(find, MARKER, t, k, Opening(shape), body, tail, close, next);
    } else {
      FollowingReplaced(find, MARKER, t, k, Opening(shape), body, tail, close, next);
    }
  }

  lemma TailSettles(find: Searcher, key: KeyFinder, shape: Shape, tail: string, close: nat, next: string)
    requires Finds(find, key) && KeysStay(key) && Inner(shape, tail) == 0 && close <= |tail|
    requires next == tail[..close] + Pass(find, MARKER, tail[close..])
    ensures Inner(shape, next) == 0 && Closing(shape, next) == Closing(shape, tail)
  {
    FrontPasses(find, key, tail[close..]);
    SameFrontAfter(tail, close, Pass(find, MARKER, tail[close..]));
    SameEnd(shape, tail, next);
  }

  lemma FoundNext(find: Searcher, key: KeyFinder, t: string, k: nat, shape: Shape, body: string, tail: string)
    requires Finds(find, key) && KeysStay(key) && key(t) == Some(k) && k <= |t|
    requires Fills(shape, body) && Inner(shape, tail) == 0
    ensures find(t[..k] + (Opening(shape) + (body + tail))) == FoundFor(k, shape, body, Closing(shape, tail))
  {
    FoundOf(key, t, k, shape, body, tail);
    FoundIs(find, key, t[..k] + (Opening(shape) + (body + tail)));
  }

  lemma FoundIs(find: Searcher, key: KeyFinder, t: string)
    requires Finds(find, key)
    ensures find(t) == FindNamed(key, t)
  {
    assert FoundAt(key, t, find(t));
  }

  lemma MarkerHasMarker()
    ensures Has(MARKER, MARKER)
  {
    assert MARKER[0..] == MARKER;
  }

  lemma CutLeft(t: string, k: nat, open: string, body: string, tail: string, close: nat)
    requires k <= |t| && t[k..] == open + (body + tail) && close <= |tail|
    ensures var n := k + |open| + |body| + close;
      n <= |t| && t[n..] == tail[close..] && t[..n] == t[..k] + (open + (body + tail[..close]))
  {
    assert t == t[..k] + (open + (body + tail));
  }

  lemma CutReplaced(t: string, k: nat, open: string, body: string, tail: string, close: nat)
    requires k <= |t| && t[k..] == open + (body + tail) && close <= |tail|
    ensures var skip := k + |open| + |body|;
      && skip + close <= |t| && t[skip + close..] == tail[close..]
      && t[..k + |open|] == t[..k] + open && t[skip..skip + close] == tail[..close]
  {
    assert t == t[..k] + (open + (body + tail));
  }

  lemma FollowingLeft(
      find: Searcher, marker: string, t: string, k: nat, open: string, body: string, tail: string, close: nat,
      next: string)
    requires k <= |t| && t[k..] == open + (body + tail) && close <= |tail|
    requires find(t) == Leave(k + |open| + |body| + close)
    requires next == tail[..close] + Pass(find, marker, tail[close..])
    ensures Pass(find, marker, t) == t[..k] + (open + (body + next))
  {
    var n := k + |open| + |body| + close;
    CutLeft(t, k, open, body, tail, close);
    UnfoldLeave(find, marker, t, n);
    Group(t[..k], open, body, tail[..close], Pass(find, marker, tail[close..]), t[..n]);
  }

  lemma FollowingReplaced(
      find: Searcher, marker: string, t: string, k: nat, open: string, body: string, tail: string, close: nat,
      next: string)
    requires k <= |t| && t[k..] == open + (body + tail) && close <= |tail|
    requires find(t) == Replace(k + |open|, k + |open| + |body|, k + |open| + |body| + close)
    requires next == tail[..close] + Pass(find, marker, tail[close..])
    ensures Pass(find, marker, t) == t[..k] + (open + (marker + next))
  {
    CutReplaced(t, k, open, body, tail, close);
    ReplacedIs(find, marker, t, find(t), t[..k] + open, tail[..close], tail[close..]);
    Assoc(t[..k], open, marker + next);
  }

  lemma Group(a: string, b: string, c: string, d: string, e: string, front: string)
    requires front == a + (b + (c + d))
    ensures front + e == a + (b + (c + (d + e)))
  {}

  lemma Assoc(a: string, b: string, c: string)
    ensures a + b + c == a + (b + c)
  {}

  // ------------------------------------------------------------ where nothing starts

  lemma ShapeAgrees(x: string, y: string, q: nat, m: nat)
    requires AgreeTo(x, y, q) && m <= q && ShapeOf(x[m..]).None?
    ensures ShapeOf(y[m..]).None?
  {
    AgreeAt(x, y, q, m);
    if m < |x| && x[m] == '\\' && m < q { AgreeAt(x, y, q, m + 1); }
    assert m < |x| ==> x[m..][0] == x[m] && y[m..][0] == y[m];
    if SameFront(x[m..], y[m..]) && m < |x| { SamePrefix(x[m..], y[m..]); }
  }

  lemma NothingInRun(find: Searcher, key: KeyFinder, t: string)
    requires Finds(find, key) && KeysStay(key) && find(t).Nothing?
    ensures NothingUpTo(find, t, Span(t, IsKeyChar))
  {
    forall i | 0 <= i < Span(t, IsKeyChar) ensures find(t[i..]).Nothing? {
      assert t == t[..i] + t[i..];
      NothingFrom(find, key, t[..i], t[i..]);
    }
  }

  lemma NothingFrom(find: Searcher, key: KeyFinder, u: string, x: string)
    requires Finds(find, key) && KeysStay(key) && AllKey(u) && find(u + x).Nothing?
    ensures find(x).Nothing?
  {
    assert KeyEndsAt(key, u, x);
    NothingIff(find, key, u + x);
    NothingIff(find, key, x);
    if key(x).Some? { Past(u, x, key(x).value); }
  }

  lemma NothingOutside(find: Searcher, key: KeyFinder, x: string)
    requires Finds(find, key) && KeysStay(key)
    ensures NothingUpTo(find, x, Span(x, NotKeyChar))
  {
    forall i | 0 <= i < Span(x, NotKeyChar) ensures find(x[i..]).Nothing? { NoKeyNoPair(find, key, x[i..]); }
  }

  lemma PassAgrees(find: Searcher, key: KeyFinder, x: string)
    requires Finds(find, key) && KeysStay(key)
    ensures AgreeTo(x, Pass(find, MARKER, x), Span(x, NotKeyChar))
  {
    var q := Span(x, NotKeyChar);
    NothingOutside(find, key, x);
    CopyNothing(find, MARKER, x, q);
    FirstStays(find, MARKER, x[q..]);
  }

  lemma NothingSettles(find: Searcher, key: KeyFinder, t: string)
    requires Finds(find, key) && KeysStay(key) && find(t).Nothing?
    ensures find(Pass(find, MARKER, t)).Nothing?
  {
    var n := Span(t, IsKeyChar);
    NothingInRun(find, key, t);
    CopyNothing(find, MARKER, t, n);
    PassAgrees(find, key, t[n..]);
    SpanTaken(t, IsKeyChar);
    CutAt(t, n);
    StillNothing(find, key, t[..n], t[n..], Pass(find, MARKER, t[n..]), Span(t[n..], NotKeyChar));
  }

  lemma CutAt(t: string, n: nat)
    requires n <= |t|
    ensures t == t[..n] + t[n..] && (n < |t| ==> t[n..][0] == t[n])
  {}

  lemma NothingIff(find: Searcher, key: KeyFinder, t: string)
    requires Finds(find, key)
    ensures KeyFits(t, key(t))
    ensures find(t).Nothing? <==> key(t).None? || ShapeOf(t[key(t).value..]).None?
  {
    assert FoundAt(key, t, find(t));
  }

  lemma StillNothing(find: Searcher, key: KeyFinder, u: string, x: string, y: string, q: nat)
    requires Finds(find, key) && KeysStay(key) && find(u + x).Nothing?
    requires AllKey(u) && (x != [] ==> !IsKeyChar(x[0])) && AgreeTo(x, y, q)
    ensures find(u + y).Nothing?
  {
    assert KeyAgreesAt(key, u, x, y, q);
    NothingIff(find, key, u + x);
    NothingIff(find, key, u + y);
    if key(u + x).Some? {
      var m := key(u + x).value - |u|;
      Past(u, x, m);
      Past(u, y, m);
      ShapeAgrees(x, y, q, m);
    }
  }

  lemma Past(u: string, x: string, m: nat)
    requires m <= |x|
    ensures (u + x)[|u| + m..] == x[m..]
  {}

  /** A second pass finds what the first one left, and leaves it. */
  lemma PairsSettle()
    ensures Settles(PAIRS, MARKER)
  {
    SecretKeysStay();
    SearchingFinds(KEY);
    SettlesBy(PAIRS, KEY);
  }

  lemma SettlesBy(find: Searcher, key: KeyFinder)
    requires Finds(find, key) && KeysStay(key)
    ensures Settles(find, MARKER)
  {
    forall t ensures SettledAt(find, MARKER, t) {
      if find(t).Nothing? { NothingSettles(find, key, t); } else { MatchSettles(find, key, t); }
    }
  }
}
