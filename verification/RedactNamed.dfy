/**
 What the key-value rule replaces, with its words and characters written out: the
 key and its separator stay, and the value behind them gives way to the marker
 between its quotes.
 */
module RedactNamed {
  import opened Common
  import opened Passing
  import opened Rewriting
  import opened RedactRules
  import opened RedactStability
  import opened RedactKeyValues
  import opened RedactKeys
  import opened RedactPairs
  import opened RedactExtent

  // ------------------------------------------------------------ words

  /** A word that names a secret, in small letters. */
  predicate SecretWord(w: string) {
    || w in {"password", "passwd", "passphrase", "secret", "token"}
    || exists name, dash ::
         name in {"api", "access", "private", "secret"} && dash in {"", "_", "-"} && IsKeyOf(w, name, dash)
  }

  predicate IsKeyOf(w: string, name: string, dash: string) {
    w == name + dash + "key"
  }

  lemma WordsAre(w: string)
    ensures w in SECRET_WORDS <==> SecretWord(w)
  {
    assert IsKeyOf("apikey", "api", "") && IsKeyOf("api_key", "api", "_") && IsKeyOf("api-key", "api", "-");
    assert IsKeyOf("accesskey", "access", "") && IsKeyOf("access_key", "access", "_");
    assert IsKeyOf("access-key", "access", "-") && IsKeyOf("privatekey", "private", "");
    assert IsKeyOf("private_key", "private", "_") && IsKeyOf("private-key", "private", "-");
    assert IsKeyOf("secretkey", "secret", "") && IsKeyOf("secret_key", "secret", "_");
    assert IsKeyOf("secret-key", "secret", "-");
  }

  /** c is the small letter l, or its capital, or one of the two signs outside ASCII that fold into s and k. */
  predicate SameLetter(c: char, l: char) {
    || c == l
    || (0x41 <= c as int <= 0x5A && c as int + 0x20 == l as int)
    || (c as int == 0x17F && l == 's')
    || (c as int == 0x212A && l == 'k')
  }

  predicate SameWord(s: string, w: string) {
    |s| == |w| && forall i :: 0 <= i < |s| ==> SameLetter(s[i], w[i])
  }

  /** Small letters, and what may join two words. */
  predicate Small(w: string) {
    forall c :: c in w ==> 'a' <= c <= 'z' || c == '_' || c == '-'
  }

  lemma FoldsTo(s: string, w: string)
    requires Small(w)
    ensures FoldAll(s) == w <==> SameWord(s, w)
  {
    var f := FoldAll(s);
    assert forall i :: 0 <= i < |w| ==> w[i] in w;
    if SameWord(s, w) {
      forall i | 0 <= i < |w| ensures f[i] == w[i] { assert SameLetter(s[i], w[i]); }
    }
    if f == w {
      forall i | 0 <= i < |s| ensures SameLetter(s[i], w[i]) { assert Fold(s[i]) == f[i]; }
    }
  }

  lemma WordsAreSmall(w: string)
    ensures w in SECRET_WORDS ==> Small(w)
  {}

  /** The key ends in the word, whatever its letters' case. */
  ghost predicate EndsInWord(key: string, w: string) {
    exists n :: 0 <= n <= |key| && SameWord(key[n..], w)
  }

  /** A key names a secret exactly when it ends in one of the words. */
  lemma NamesSecretIff(key: string)
    ensures NamesSecret(key) <==> exists w :: SecretWord(w) && EndsInWord(key, w)
  {
    if NamesSecret(key) {
      var n :| 0 <= n <= |key| && FoldAll(key[n..]) in SECRET_WORDS;
      var w := FoldAll(key[n..]);
      WordsAre(w);
      WordsAreSmall(w);
      FoldsTo(key[n..], w);
      assert SecretWord(w) && EndsInWord(key, w);
    }
    forall w | SecretWord(w) && EndsInWord(key, w) ensures NamesSecret(key) {
      var n :| 0 <= n <= |key| && SameWord(key[n..], w);
      WordsAre(w);
      WordsAreSmall(w);
      FoldsTo(key[n..], w);
    }
  }

  // ------------------------------------------------------------ keys and separators

  /** A letter, a digit, one of _ . - or one of the two signs that fold into a letter. */
  predicate KeyLetter(c: char) {
    Letter(c) || Digit(c) || c == '_' || c == '.' || c == '-' || c as int == 0x17F || c as int == 0x212A
  }

  lemma KeyChars(c: char)
    ensures IsKeyChar(c) <==> KeyLetter(c)
  {}

  predicate KeyText(key: string) {
    forall c :: c in key ==> KeyLetter(c)
  }

  predicate Blanks(s: string) {
    forall c :: c in s ==> c == ' ' || c == '\t'
  }

  /** The text does not go on with a blank. */
  predicate BlanksEnd(y: string) {
    y != [] ==> y[0] != ' ' && y[0] != '\t'
  }

  /** What may stand between a key and its value: a backslash, a quote, blanks, = or :, blanks; all but the mark may be
      missing. */
  datatype Separator = Separator(escape: string, quote: string, before: string, mark: string, after: string)
  {
    predicate Valid() {
      && escape in {"", "\\"} && quote in {"", "\"", "'"} && mark in {"=", ":"} && Blanks(before) && Blanks(after)
    }

    function Text(): string {
      (escape + quote) + (before + (mark + after))
    }
  }

  lemma BlanksSpan(b: string, y: string)
    requires Blanks(b) && BlanksEnd(y)
    ensures Span(b + y, IsBlank) == |b|
  {
    SpanThrough(b, y, IsBlank);
  }

  /** Past the escape and the quote. */
  lemma PastQuote(escape: string, quote: string, rest: string)
    requires escape in {"", "\\"} && quote in {"", "\"", "'"}
    requires rest != [] && rest[0] != '\\' && !IsQuote(rest[0])
    ensures SepAt(escape + quote + rest) == |escape| + |quote| + Span(rest, IsBlank)
  {
    var x := escape + quote + rest;
    var b := |escape| + |quote|;
    assert x[b..] == rest && x[b] == rest[0];
    assert escape != [] ==> x[0] == escape[0];
    assert quote != [] ==> x[|escape|] == quote[0];
  }

  lemma MarkFirst(sep: Separator, y: string)
    requires sep.Valid()
    ensures var rest := sep.before + (sep.mark + y); rest != [] && rest[0] != '\\' && !IsQuote(rest[0])
  {
    var rest := sep.before + (sep.mark + y);
    assert sep.before != [] ==> sep.before[0] in sep.before;
    assert rest[0] == if sep.before != [] then sep.before[0] else sep.mark[0];
  }

  lemma MarkAt(x: string, c: nat, mark: string, after: string, y: string)
    requires c < |x| && mark in {"=", ":"} && x[c] == mark[0] && x[c + 1..] == after + y
    requires Blanks(after) && BlanksEnd(y)
    ensures SepFrom(x, c) == Some(c + 1 + |after|)
  {
    BlanksSpan(after, y);
  }

  lemma CutMark(front: string, before: string, mark: string, rest: string)
    requires |mark| == 1
    ensures var x, c := front + (before + (mark + rest)), |front| + |before|; x[c] == mark[0] && x[c + 1..] == rest
  {}

  lemma SeparatorCut(sep: Separator, y: string)
    ensures sep.Text() + y == (sep.escape + sep.quote) + (sep.before + (sep.mark + (sep.after + y)))
    ensures |sep.Text()| == |sep.escape| + |sep.quote| + |sep.before| + |sep.mark| + |sep.after|
  {}

  lemma SeparatorAt(sep: Separator, rest: string, x: string)
    requires sep.Valid() && x == sep.escape + sep.quote + (sep.before + (sep.mark + rest))
    ensures SepAt(x) == |sep.escape| + |sep.quote| + |sep.before|
  {
    MarkFirst(sep, rest);
    PastQuote(sep.escape, sep.quote, sep.before + (sep.mark + rest));
    NotBlankMark(sep.mark, rest);
    BlanksSpan(sep.before, sep.mark + rest);
  }

  lemma SeparatorFrom(sep: Separator, y: string, x: string, m: nat)
    requires sep.Valid() && BlanksEnd(y) && x == sep.escape + sep.quote + (sep.before + (sep.mark + (sep.after + y)))
    requires m == |sep.escape| + |sep.quote| + |sep.before| + 1 + |sep.after|
    ensures SepLen(x) == Some(m)
  {
    SeparatorAt(sep, sep.after + y, x);
    CutMark(sep.escape + sep.quote, sep.before, sep.mark, sep.after + y);
    MarkAt(x, |sep.escape| + |sep.quote| + |sep.before|, sep.mark, sep.after, y);
  }

  lemma SeparatorEnds(sep: Separator, y: string)
    requires sep.Valid() && BlanksEnd(y)
    ensures SepLen(sep.Text() + y) == Some(|sep.Text()|)
  {
    SeparatorCut(sep, y);
    SeparatorFrom(sep, y, sep.Text() + y, |sep.Text()|);
  }

  lemma NotBlankMark(mark: string, y: string)
    requires mark in {"=", ":"}
    ensures BlanksEnd(mark + y)
  {
    assert (mark + y)[0] == mark[0];
  }

  lemma NotKeyFirst(sep: Separator, y: string)
    requires sep.Valid()
    ensures sep.Text() + y != [] && !IsKeyChar((sep.Text() + y)[0])
  {
    var x := sep.Text() + y;
    assert sep.mark[0] == '=' || sep.mark[0] == ':';
    assert sep.before != [] ==> sep.before[0] in sep.before;
    assert x[0] == if sep.escape != [] then sep.escape[0] else if sep.quote != [] then sep.quote[0]
                   else if sep.before != [] then sep.before[0] else sep.mark[0];
  }

  lemma KeyEnds(key: string, x: string)
    requires KeyText(key) && x != [] && !IsKeyChar(x[0])
    ensures Span(key + x, IsKeyChar) == |key| && (key + x)[..|key|] == key && (key + x)[|key|..] == x
  {
    forall c | c in key ensures IsKeyChar(c) { KeyChars(c); }
    SpanThrough(key, x, IsKeyChar);
  }

  lemma KeyWithSeparator(names: string -> bool, sep: KeyFinder, key: string, x: string, k: nat, t: string)
    requires KeyText(key) && names(key) && x != [] && !IsKeyChar(x[0])
    requires t == key + x && |key| <= k && sep(x) == Some(k - |key|)
    ensures Keyed(names, sep)(t) == Some(k)
  {
    KeyEnds(key, x);
    KeyOf(names, sep, t, |key|, k, x);
  }

  /** The text separates, and y is what it separates from. */
  predicate Separates(text: string, y: string) {
    text + y != [] && !IsKeyChar((text + y)[0]) && SepLen(text + y) == Some(|text|)
  }

  lemma SeparatorSeparates(sep: Separator, y: string)
    requires sep.Valid() && BlanksEnd(y)
    ensures Separates(sep.Text(), y)
  {
    NotKeyFirst(sep, y);
    SeparatorEnds(sep, y);
  }

  // ------------------------------------------------------------ values

  /** A character that ends a bare value. */
  predicate EndsBare(c: char) {
    White(c) || c in {'"', '\'', '`', ',', ';', '&', '<', '>', '(', ')', '{', '}'}
  }

  /** The inside of double quotes: characters other than the quote, backslash and newline, and pairs of a backslash and
      any character but the newline. */
  predicate QuotedText(s: string) {
    || s == []
    || (s[0] != '"' && s[0] != '\\' && s[0] != '\n' && QuotedText(s[1..]))
    || (|s| > 1 && s[0] == '\\' && s[1] != '\n' && QuotedText(s[2..]))
  }

  /** A value of the shape. */
  predicate ValueOfShape(shape: Shape, body: string) {
    match shape
    case Escaped => forall c :: c in body ==> c != '"' && c != '\\' && c != '\n'
    case Double => QuotedText(body)
    case Single => forall c :: c in body ==> c != '\'' && c != '\n'
    case Bare =>
      body != [] && body[0] != ':' && body[0] != '=' && body[0] != '\\' && forall c :: c in body ==> !EndsBare(c)
  }

  /** The text does not go on with the value. */
  predicate EndsShape(shape: Shape, y: string) {
    y != [] ==>
      match shape
      case Escaped => y[0] == '"' || y[0] == '\\' || y[0] == '\n'
      case Double => y[0] == '"' || y[0] == '\n' || (y[0] == '\\' && (|y| == 1 || y[1] == '\n'))
      case Single => y[0] == '\'' || y[0] == '\n'
      case Bare => EndsBare(y[0])
  }

  /** The opening quote is also the closing one. */
  function QuoteOf(shape: Shape): string {
    match shape
    case Escaped => "\\\""
    case Double => "\""
    case Single => "'"
    case Bare => ""
  }

  lemma BareChars(c: char)
    ensures IsBare(c) <==> !EndsBare(c)
  {}

  lemma {:induction false} QuotedIs(s: string)
    ensures QuotedText(s) <==> QuotedLen(s) == |s|
    decreases |s|
  {
    if s != [] {
      if s[0] != '\\' { QuotedIs(s[1..]); } else if |s| > 1 { QuotedIs(s[2..]); }
    }
  }

  lemma ShapeFills(shape: Shape, body: string)
    requires ValueOfShape(shape, body)
    ensures Fills(shape, body)
  {
    match shape
    case Double => QuotedIs(body);
    case Bare =>
      BareChars(body[0]);
      forall c | c in body ensures IsBare(c) { BareChars(c); }
    case _ =>
  }

  lemma ShapeEnds(shape: Shape, y: string)
    requires EndsShape(shape, y)
    ensures Inner(shape, y) == 0
  {
    if y != [] && shape.Bare? { BareChars(y[0]); }
  }

  /** The closing quote behind a value, if it is there. */
  function Close(shape: Shape, y: string): string {
    if QuoteOf(shape) <= y then QuoteOf(shape) else ""
  }

  /** The text behind a value and its closing quote. */
  function PastClose(shape: Shape, y: string): string {
    if QuoteOf(shape) <= y then y[|QuoteOf(shape)|..] else y
  }

  lemma CloseIs(shape: Shape, y: string)
    ensures Opening(shape) == QuoteOf(shape)
    ensures y[..Closing(shape, y)] == Close(shape, y) && y[Closing(shape, y)..] == PastClose(shape, y)
  {}

  // ------------------------------------------------------------ a named value

  /** What becomes of a value: one that is empty or already holds a marker stays. */
  function Written(body: string): string {
    if body == [] || Has(body, "[redacted]") then body else "[redacted]"
  }

  lemma NamedFound(find: Searcher, key: KeyFinder, t: string, k: nat, shape: Shape, body: string, tail: string)
    requires Finds(find, key) && key(t) == Some(k) && k <= |t| && t[k..] == Opening(shape) + (body + tail)
    requires Fills(shape, body) && Inner(shape, tail) == 0
    ensures find(t) == FoundFor(k, shape, body, Closing(shape, tail))
  {
    assert FoundAt(key, t, find(t));
    ValueOf(shape, body, tail);
    CutValue(Opening(shape), body, tail);
    FoundAfterKey(key, t, k, t[k..], Value(shape, |body|, Closing(shape, tail)), body);
  }

  lemma CutNamed(t: string, front: string, open: string, body: string, tail: string, close: nat)
    requires t == front + (open + (body + tail)) && close <= |tail|
    ensures var keep := |front| + |open|;
      && keep + |body| + close <= |t| && t[..keep] == front + open && t[keep..keep + |body|] == body
      && t[keep + |body|..keep + |body| + close] == tail[..close] && t[keep + |body| + close..] == tail[close..]
      && t[|front|..] == open + (body + tail)
      && t[..keep + |body| + close] == front + open + body + tail[..close]
  {}

  lemma LeaveWritten(
      find: Searcher, m: string, t: string, front: string, open: string, body: string, tail: string, close: nat)
    requires t == front + (open + (body + tail)) && close <= |tail|
    requires find(t) == Leave(|front| + |open| + |body| + close)
    ensures Pass(find, m, t) == front + open + body + tail[..close] + Pass(find, m, tail[close..])
    ensures Replaced(find, t) == Replaced(find, tail[close..])
  {
    CutNamed(t, front, open, body, tail, close);
    UnfoldLeave(find, m, t, |front| + |open| + |body| + close);
  }

  lemma ReplaceWritten(
      find: Searcher, m: string, t: string, front: string, open: string, body: string, tail: string, close: nat)
    requires t == front + (open + (body + tail)) && close <= |tail|
    requires var keep := |front| + |open|; find(t) == Replace(keep, keep + |body|, keep + |body| + close)
    ensures Pass(find, m, t) == front + open + m + tail[..close] + Pass(find, m, tail[close..])
    ensures Replaced(find, t) == 1 + Replaced(find, tail[close..])
  {
    CutNamed(t, front, open, body, tail, close);
    var keep := |front| + |open|;
    var f := Replace(keep, keep + |body|, keep + |body| + close);
    WrittenAs(find, m, t, f, front + open, tail[..close], tail[close..]);
  }

  lemma WrittenAs(find: Searcher, m: string, t: string, f: Found, front: string, close: string, rest: string)
    requires find(t) == f && f.Replace? && f.Fits(t)
    requires t[..f.keep] == front && t[f.skip..f.end] == close && t[f.end..] == rest
    ensures Pass(find, m, t) == front + m + close + Pass(find, m, rest) && Replaced(find, t) == 1 + Replaced(find, rest)
  {
    UnfoldReplace(find, m, t, f);
    Group4(front, m, close, Pass(find, m, rest));
  }

  lemma Group4(a: string, b: string, c: string, d: string)
    ensures a + (b + (c + d)) == a + b + c + d
  {}

  /** The value behind `front`, its key and separator, is written anew; the rule goes on behind its closing quote. */
  lemma NamedWritten(
      find: Searcher, key: KeyFinder, t: string, front: string, shape: Shape, body: string, tail: string, close: nat)
    requires Finds(find, key) && t == front + (Opening(shape) + (body + tail)) && key(t) == Some(|front|)
    requires Fills(shape, body) && Inner(shape, tail) == 0 && close == Closing(shape, tail)
    ensures Pass(find, MARKER, t) ==
      front + Opening(shape) + Written(body) + tail[..close] + Pass(find, MARKER, tail[close..])
    ensures Replaced(find, t) == Replaced(find, tail[close..]) + if Written(body) == body then 0 else 1
  {
    var open := Opening(shape);
    BehindFront(t, front, open + (body + tail));
    NamedFound(find, key, t, |front|, shape, body, tail);
    if body == [] || Has(body, MARKER) {
      LeaveWritten(find, MARKER, t, front, open, body, tail, close);
    } else {
      ReplaceWritten(find, MARKER, t, front, open, body, tail, close);
      MarkerHasMarker();
    }
  }

  lemma BehindFront(t: string, front: string, y: string)
    requires t == front + y
    ensures |front| <= |t| && t[|front|..] == y
  {}

  // ------------------------------------------------------------ in front of the key

  /** What may stand between a key and its = or :. */
  predicate Between(c: char) {
    c in {'\\', '"', '\'', ' ', '\t'}
  }

  /** No key that starts in a, with x behind it, reaches a = or :. The text ends in a character that is in no key or
      separator, or in one that is in no key while x starts with a key. */
  predicate Quiet(a: string, x: string) {
    && '=' !in a && ':' !in a
    && (a != [] ==>
          && !KeyLetter(a[|a| - 1])
          && (!Between(a[|a| - 1]) || (x != [] && KeyLetter(x[0]))))
  }

  /** A key runs up to a = or :. */
  ghost predicate RunsToMark(key: KeyFinder) {
    forall x {:trigger RunsAt(x, key(x))} :: RunsAt(x, key(x))
  }

  ghost predicate RunsAt(x: string, r: Option<nat>) {
    r.Some? ==> exists n, c :: MarkIs(x, n, c)
  }

  /** The first n characters are a key's, and those up to the = or : at c stand between. */
  predicate MarkIs(x: string, n: int, c: int) {
    && 0 <= n <= c < |x| && (x[c] == '=' || x[c] == ':')
    && (forall j :: 0 <= j < n ==> KeyLetter(x[j])) && forall j :: n <= j < c ==> Between(x[j])
  }

  lemma MarkOfSeparator(x: string)
    ensures RunsAt(x, SepLen(x))
  {
    if SepLen(x).Some? {
      BetweenTaken(x);
      assert MarkIs(x, 0, SepAt(x));
    }
  }

  lemma MarkOfKey(names: string -> bool, sep: KeyFinder, x: string)
    requires RunsToMark(sep)
    ensures RunsAt(x, Keyed(names, sep)(x))
  {
    if KeyLen(names, sep, x).Some? {
      var n := KeyParts(names, sep, x, KeyLen(names, sep, x).value);
      assert RunsAt(x[n..], sep(x[n..]));
      var m, c :| MarkIs(x[n..], m, c);
      MarkPast(x, n, m, c);
    }
  }

  lemma MarkPast(x: string, n: nat, m: nat, c: nat)
    requires n == Span(x, IsKeyChar) && MarkIs(x[n..], m, c)
    ensures MarkIs(x, n, n + c)
  {
    assert x[n] == x[n..][0];
    KeyChars(x[n]);
    assert m == 0 && x[n + c] == x[n..][c];
    forall j | 0 <= j < n ensures KeyLetter(x[j]) { KeyChars(x[j]); }
    forall j | n <= j < n + c ensures Between(x[j]) { assert x[j] == x[n..][j - n]; }
  }

  lemma KeysRunToMark(names: string -> bool, sep: KeyFinder)
    requires RunsToMark(sep)
    ensures RunsToMark(Keyed(names, sep))
  {
    forall x ensures RunsAt(x, Keyed(names, sep)(x)) { MarkOfKey(names, sep, x); }
  }

  lemma SecretKeysRunToMark()
    ensures RunsToMark(KEY)
  {
    forall x ensures RunsAt(x, SEP(x)) { MarkOfSeparator(x); }
    KeysRunToMark(NamesSecret, SEP);
  }

  lemma QuietAt(a: string, x: string, i: nat, n: nat, c: nat)
    requires i < |a| && MarkIs((a + x)[i..], n, c)
    ensures !Quiet(a, x)
  {
    var y, last := (a + x)[i..], |a| - 1 - i;
    assert y[last] == a[|a| - 1];
    if c <= last {
      assert y[c] == a[i + c];
    } else {
      assert y[last + 1] == x[0];
    }
  }

  lemma QuietBefore(a: string, key: string, x: string)
    requires Quiet(a, key)
    ensures Quiet(a, key + x)
  {}

  lemma NothingInFront(find: Searcher, key: KeyFinder, a: string, x: string)
    requires Finds(find, key) && RunsToMark(key) && Quiet(a, x)
    ensures Pass(find, MARKER, a + x) == a + Pass(find, MARKER, x) && Replaced(find, a + x) == Replaced(find, x)
  {
    var t := a + x;
    forall i | 0 <= i < |a| ensures find(t[i..]).Nothing? {
      assert FoundAt(key, t[i..], find(t[i..])) && RunsAt(t[i..], key(t[i..]));
      if key(t[i..]).Some? {
        var n, c :| MarkIs(t[i..], n, c);
        QuietAt(a, x, i, n, c);
      }
    }
    CopyNothing(find, MARKER, t, |a|);
    BehindFront(t, a, x);
    assert t[..|a|] == a;
  }

  lemma MarkInside(t: string, i: nat, n: nat, c: nat)
    requires i <= |t| && MarkIs(t[i..], n, c)
    ensures '=' in t || ':' in t
  {
    assert t[i..][c] == t[i + c];
  }

  /** A text without = and : stays. */
  lemma NoMarkNoChange(find: Searcher, key: KeyFinder, t: string)
    requires Finds(find, key) && RunsToMark(key) && '=' !in t && ':' !in t
    ensures Pass(find, MARKER, t) == t && Replaced(find, t) == 0
  {
    forall i | 0 <= i < |t| ensures find(t[i..]).Nothing? {
      assert FoundAt(key, t[i..], find(t[i..])) && RunsAt(t[i..], key(t[i..]));
      if key(t[i..]).Some? {
        var n, c :| MarkIs(t[i..], n, c);
        MarkInside(t, i, n, c);
      }
    }
    CopyNothing(find, MARKER, t, |t|);
    assert t[|t|..] == [] && t[..|t|] == t;
  }

  // ------------------------------------------------------------ the rule

  /** The text from a key that names a secret to the end. */
  predicate NamesValue(key: string, sep: Separator, shape: Shape, body: string, tail: string) {
    KeyText(key) && sep.Valid() && ValueOfShape(shape, body) && EndsShape(shape, tail)
  }

  lemma ValueNotBlank(shape: Shape, body: string, tail: string)
    requires Fills(shape, body)
    ensures BlanksEnd(Opening(shape) + (body + tail))
  {
    NotBlankFirst(shape, body, tail);
  }

  lemma ShapeIs(shape: Shape, body: string, tail: string)
    requires ValueOfShape(shape, body) && EndsShape(shape, tail)
    ensures Fills(shape, body) && Inner(shape, tail) == 0 && BlanksEnd(Opening(shape) + (body + tail))
  {
    ShapeFills(shape, body);
    ShapeEnds(shape, tail);
    ValueNotBlank(shape, body, tail);
  }

  lemma KeySeparated(
      names: string -> bool, sep: KeyFinder, key: string, text: string, y: string, k: nat, t: string)
    requires KeyText(key) && names(key) && t == key + text + y && k == |key| + |text|
    requires text + y != [] && !IsKeyChar((text + y)[0]) && sep(text + y) == Some(|text|)
    ensures Keyed(names, sep)(t) == Some(k)
  {
    var x := text + y;
    assert t == key + x;
    KeyWithSeparator(names, sep, key, x, k, t);
  }

  /** The key and its separator are found as what they are. */
  lemma SecretSeparated(key: string, text: string, y: string, k: nat, t: string)
    requires KeyText(key) && NamesSecret(key) && Separates(text, y) && t == key + text + y && k == |key| + |text|
    ensures KEY(t) == Some(k)
  {
    KeySeparated(NamesSecret, SEP, key, text, y, k, t);
  }

  lemma SecretFront(key: string, sep: Separator, y: string, k: nat, t: string)
    requires KeyText(key) && NamesSecret(key) && sep.Valid() && BlanksEnd(y)
    requires k == |key| + |sep.Text()| && t == key + sep.Text() + y
    ensures KEY(t) == Some(k)
  {
    SeparatorSeparates(sep, y);
    SecretSeparated(key, sep.Text(), y, k, t);
  }

  /** The rule writes the value behind `front` anew, and goes on behind its closing quote. */
  ghost predicate WritesAnew(find: Searcher, a: string, front: string, shape: Shape, body: string, tail: string) {
    var t, rest := a + (front + (QuoteOf(shape) + (body + tail))), PastClose(shape, tail);
    && Pass(find, "[redacted]", t) ==
         a + (front + QuoteOf(shape) + Written(body) + Close(shape, tail) + Pass(find, "[redacted]", rest))
    && Replaced(find, t) == Replaced(find, rest) + if body == [] || Has(body, "[redacted]") then 0 else 1
  }

  lemma NamedIsWritten(
      find: Searcher, key: KeyFinder, a: string, front: string, shape: Shape, body: string, tail: string, t: string)
    requires Finds(find, key) && RunsToMark(key) && Quiet(a, t)
    requires t == front + (Opening(shape) + (body + tail)) && key(t) == Some(|front|)
    requires Fills(shape, body) && Inner(shape, tail) == 0
    ensures WritesAnew(find, a, front, shape, body, tail)
  {
    CloseIs(shape, tail);
    NothingInFront(find, key, a, t);
    NamedWritten(find, key, t, front, shape, body, tail, Closing(shape, tail));
    WrittenIs(body);
  }

  lemma WrittenIs(body: string)
    ensures Written(body) == body <==> body == [] || Has(body, "[redacted]")
  {
    MarkerHasMarker();
  }

  /**
   Behind text no key runs through, and a key that ends, in any case, in one of the
   words, and a separator, a value of one of the four shapes is written anew: it
   becomes the marker between its quotes, unless it is empty or holds a marker. The
   rule goes on behind the closing quote.
   */
  lemma NamedValueIsReplaced(
      a: string, key: string, word: string, sep: Separator, shape: Shape, body: string, tail: string)
    requires Quiet(a, key) && NamesValue(key, sep, shape, body, tail) && SecretWord(word) && EndsInWord(key, word)
    ensures WritesAnew(PAIRS, a, key + sep.Text(), shape, body, tail)
  {
    var front := key + sep.Text();
    NamesSecretIff(key);
    var y := Opening(shape) + (body + tail);
    ShapeIs(shape, body, tail);
    SecretFront(key, sep, y, |front|, front + y);
    QuietBefore(a, key, sep.Text());
    QuietBefore(a, front, y);
    SearchingFinds(KEY);
    SecretKeysRunToMark();
    NamedIsWritten(PAIRS, KEY, a, front, shape, body, tail, front + y);
  }

  lemma NoPairNoChange(t: string)
    requires '=' !in t && ':' !in t
    ensures Pairs(t) == t && Replaced(PAIRS, t) == 0
  {
    SearchingFinds(KEY);
    SecretKeysRunToMark();
    NoMarkNoChange(PAIRS, KEY, t);
  }

  // ------------------------------------------------------------ what is no secret

  /** No value of any shape starts here: the text is over, or goes on with : or = or a character that ends a bare value
      and is no quote, or with a backslash and no double quote behind it. */
  predicate NoValue(y: string) {
    || y == [] || y[0] == ':' || y[0] == '='
    || (EndsBare(y[0]) && y[0] != '"' && y[0] != '\'')
    || (y[0] == '\\' && (|y| == 1 || y[1] != '"'))
  }

  lemma NoValueIsFound(y: string)
    requires NoValue(y)
    ensures ValueAt(y).None?
  {
    if y != [] {
      BareChars(y[0]);
      assert |y| > 1 ==> y[..2] == [y[0], y[1]];
      assert y[..1] == [y[0]];
    }
  }

  /** The text separates, but no value is behind it. */
  predicate Valueless(sep: KeyFinder, x: string) {
    sep(x).Some? && sep(x).value <= |x| && ValueAt(x[sep(x).value..]).None?
  }

  /** Nothing is found at a key that names no secret, or that has no value behind its separator. */
  lemma NothingAtKey(find: Searcher, names: string -> bool, sep: KeyFinder, key: string, x: string, t: string)
    requires Finds(find, Keyed(names, sep)) && KeyText(key) && x != [] && !IsKeyChar(x[0]) && t == key + x
    requires names(key) ==> Valueless(sep, x)
    ensures find(t).Nothing?
  {
    KeyEnds(key, x);
    assert FoundAt(Keyed(names, sep), t, find(t));
    if names(key) {
      var k := |key| + sep(x).value;
      KeyWithSeparator(names, sep, key, x, k, t);
      PastBoth(key, x, sep(x).value);
    }
  }

  lemma PastBoth(key: string, x: string, m: nat)
    requires m <= |x|
    ensures (key + x)[|key| + m..] == x[m..]
  {}

  lemma CutBoth(key: string, x: string, i: nat)
    requires i <= |key|
    ensures (key + x)[i..] == key[i..] + x
  {}

  lemma NothingInKey(find: Searcher, names: string -> bool, sep: KeyFinder, key: string, x: string, i: nat)
    requires Finds(find, Keyed(names, sep)) && KeyText(key) && x != [] && !IsKeyChar(x[0]) && i <= |key|
    requires names(key[i..]) ==> Valueless(sep, x)
    ensures find((key + x)[i..]).Nothing?
  {
    CutBoth(key, x, i);
    NothingAtKey(find, names, sep, key[i..], x, key[i..] + x);
  }

  predicate NoKeyText(text: string) {
    forall c :: c in text ==> !IsKeyChar(c)
  }

  lemma SeparatorIsNoKey(sep: Separator)
    requires sep.Valid()
    ensures NoKeyText(sep.Text()) && sep.Text() != []
  {}

  lemma NothingInSeparator(find: Searcher, key: KeyFinder, front: string, text: string, y: string, i: nat)
    requires Finds(find, key) && KeysStay(key) && NoKeyText(text) && |front| <= i < |front| + |text|
    ensures find((front + (text + y))[i..]).Nothing?
  {
    var x := (front + (text + y))[i..];
    assert x[0] == text[i - |front|];
    NoKeyNoPair(find, key, x);
  }

  /** Nothing starts in a key and its separator, so both stay. */
  lemma KeyStaysWhole(
      find: Searcher, names: string -> bool, sep: KeyFinder, key: string, text: string, y: string, t: string)
    requires Finds(find, Keyed(names, sep)) && KeysStay(Keyed(names, sep))
    requires KeyText(key) && text != [] && NoKeyText(text) && t == key + (text + y)
    requires forall i :: 0 <= i <= |key| && names(key[i..]) ==> Valueless(sep, text + y)
    ensures Pass(find, MARKER, t) == key + text + Pass(find, MARKER, y) && Replaced(find, t) == Replaced(find, y)
  {
    assert (text + y)[0] == text[0];
    forall i | 0 <= i < |key| + |text| ensures find(t[i..]).Nothing? {
      if i < |key| {
        NothingInKey(find, names, sep, key, text + y, i);
      } else {
        NothingInSeparator(find, Keyed(names, sep), key, text, y, i);
      }
    }
    FrontIsCopied(find, t, key, text, y);
  }

  lemma FrontIsCopied(find: Searcher, t: string, key: string, text: string, y: string)
    requires t == key + (text + y) && NothingUpTo(find, t, |key| + |text|)
    ensures Pass(find, MARKER, t) == key + text + Pass(find, MARKER, y) && Replaced(find, t) == Replaced(find, y)
  {
    CopyNothing(find, MARKER, t, |key| + |text|);
    assert t[..|key| + |text|] == key + text && t[|key| + |text|..] == y;
  }

  lemma SecretsOrValueless(key: string, sep: Separator, y: string, i: nat)
    requires i <= |key| && NamesSecret(key[i..]) && sep.Valid()
    requires NamesSecret(key) ==> BlanksEnd(y) && NoValue(y)
    ensures Valueless(SEP, sep.Text() + y)
  {
    SecretTail(key, i);
    SeparatorEnds(sep, y);
    PastBoth(sep.Text(), y, 0);
    NoValueIsFound(y);
  }

  /**
   A key that ends in none of the words, and one whose separator has no value
   behind it, as in `Token::new` and `token == other`, stay with their separator;
   the rule goes on behind it.
   */
  lemma OthersStay(a: string, key: string, sep: Separator, y: string)
    requires Quiet(a, key) && KeyText(key) && sep.Valid()
    requires (exists w :: SecretWord(w) && EndsInWord(key, w)) ==> BlanksEnd(y) && NoValue(y)
    ensures Pairs(a + (key + (sep.Text() + y))) == a + (key + sep.Text() + Pairs(y))
    ensures Replaced(PAIRS, a + (key + (sep.Text() + y))) == Replaced(PAIRS, y)
  {
    var t := key + (sep.Text() + y);
    QuietBefore(a, key, sep.Text() + y);
    NamesSecretIff(key);
    SeparatorIsNoKey(sep);
    forall i | 0 <= i <= |key| && NamesSecret(key[i..]) ensures Valueless(SEP, sep.Text() + y) {
      SecretsOrValueless(key, sep, y, i);
    }
    SearchingFinds(KEY);
    SecretKeysStay();
    SecretKeysRunToMark();
    NothingInFront(PAIRS, KEY, a, t);
    KeyStaysWhole(PAIRS, NamesSecret, SEP, key, sep.Text(), y, t);
  }
}
