/**
 The key-value rule: a key that names a secret, a separator, and a value in one of
 four shapes, which becomes the marker unless it already holds one.
 */
module RedactKeyValues {
  import opened Common
  import opened Passing
  import opened Rewriting
  import opened RedactRules

  // ------------------------------------------------------------ characters

  /** Simple case folding, as far as the words below need it: two letters outside ASCII fold into s and k. */
  function Fold(c: char): char {
    if 'A' <= c <= 'Z' then (c as int + 32) as char
    else if c == '\U{17F}' then 's'
    else if c == '\U{212A}' then 'k'
    else c
  }

  predicate IsKeyChar(c: char) {
    IsAlnum(c) || c == '_' || c == '.' || c == '-' || c == '\U{17F}' || c == '\U{212A}'
  }

  predicate NotKeyChar(c: char) {
    !IsKeyChar(c)
  }

  predicate IsBlank(c: char) {
    c == ' ' || c == '\t'
  }

  predicate IsQuote(c: char) {
    c == '"' || c == '\''
  }

  /** What a bare value may hold after its first character. */
  predicate IsBare(c: char) {
    !IsSpace(c) && !IsQuote(c) && c != '`' && c != ',' && c != ';' && c != '&' && c != '<' && c != '>'
    && c != '(' && c != ')' && c != '{' && c != '}'
  }

  predicate IsBareFirst(c: char) {
    IsBare(c) && c != ':' && c != '=' && c != '\\'
  }

  /** What a value between escaped quotes may hold. */
  predicate IsEscaped(c: char) {
    c != '"' && c != '\\' && c != '\n'
  }

  predicate IsSingle(c: char) {
    c != '\'' && c != '\n'
  }

  // ------------------------------------------------------------ keys

  const SECRET_WORDS: set<string> := {
    "password", "passwd", "passphrase", "secret", "token", "apikey", "api_key", "api-key",
    "accesskey", "access_key", "access-key", "privatekey", "private_key", "private-key",
    "secretkey", "secret_key", "secret-key"
  }

  function FoldAll(s: string): (r: string)
    ensures |r| == |s|
  {
    seq(|s|, i requires 0 <= i < |s| => Fold(s[i]))
  }

  /** The key's last letters, whatever their case, name a secret. */
  predicate NamesSecret(key: string) {
    exists n :: 0 <= n <= |key| && FoldAll(key[n..]) in SECRET_WORDS
  }

  predicate IsSep(c: char) {
    c == '=' || c == ':'
  }

  /** Past an optional backslash, an optional quote and any blanks: where the = or : must stand. */
  function SepAt(x: string): (c: nat)
    ensures c <= |x|
  {
    var a := if |x| > 0 && x[0] == '\\' then 1 else 0;
    var b := a + if a < |x| && IsQuote(x[a]) then 1 else 0;
    b + Span(x[b..], IsBlank)
  }

  function SepLen(x: string): (r: Option<nat>)
    ensures r.Some? ==> SepAt(x) < r.value <= |x|
  {
    SepFrom(x, SepAt(x))
  }

  /** The = or : at c, if there is one, and the blanks after it. */
  function SepFrom(x: string, c: nat): (r: Option<nat>)
    requires c <= |x|
    ensures r.Some? ==> c < r.value <= |x|
  {
    if c < |x| && IsSep(x[c]) then Some(c + 1 + Span(x[c + 1..], IsBlank)) else None
  }

  function NoKey(t: string): Option<nat> {
    None
  }

  /** Says where what stands at the front of a text ends: a separator, or a key with its separator. */
  type KeyFinder = f: string -> Option<nat> | forall t :: KeyFits(t, f(t)) witness NoKey

  predicate KeyFits(t: string, r: Option<nat>) {
    r.Some? ==> 0 < r.value <= |t|
  }

  const SEP: KeyFinder := SepLen

  /** Where the value after a key at the front of t starts, given what names a secret and what separates. */
  function KeyLen(names: string -> bool, sep: KeyFinder, t: string): (r: Option<nat>)
    ensures KeyFits(t, r)
  {
    var n := Span(t, IsKeyChar);
    assert KeyFits(t[n..], sep(t[n..]));
    if !names(t[..n]) then None
    else match sep(t[n..]) case None => None case Some(m) => Some(n + m)
  }

  function Keyed(names: string -> bool, sep: KeyFinder): KeyFinder {
    (t: string) => KeyLen(names, sep, t)
  }

  const KEY: KeyFinder := Keyed(NamesSecret, SEP)

  // ------------------------------------------------------------ values

  datatype Shape = Escaped | Double | Single | Bare

  /** The opening quote's length, the value's, and the closing quote's. */
  datatype Value = Value(shape: Shape, len: nat, close: nat)
  {
    function Open(): nat {
      match shape
      case Escaped => 2
      case Double => 1
      case Single => 1
      case Bare => 0
    }

    function End(): nat {
      Open() + len + close
    }
  }

  /** The inside of double quotes: a backslash takes the next character with it, unless that is a newline. */
  function QuotedLen(s: string): (n: nat)
    ensures n <= |s|
  {
    if s == [] || s[0] == '"' || s[0] == '\n' then 0
    else if s[0] != '\\' then 1 + QuotedLen(s[1..])
    else if |s| > 1 && s[1] != '\n' then 2 + QuotedLen(s[2..])
    else 0
  }

  /** The length of the value in s, s being what follows its opening quote. */
  function Inner(shape: Shape, s: string): (n: nat)
    ensures n <= |s|
  {
    match shape
    case Escaped => Span(s, IsEscaped)
    case Double => QuotedLen(s)
    case Single => Span(s, IsSingle)
    case Bare => Span(s, IsBare)
  }

  function Closing(shape: Shape, s: string): (n: nat)
    ensures n <= |s|
  {
    match shape
    case Escaped => if "\\\"" <= s then 2 else 0
    case Double => if "\"" <= s then 1 else 0
    case Single => if "'" <= s then 1 else 0
    case Bare => 0
  }

  function ShapeOf(v: string): (r: Option<Shape>)
    ensures r.Some? ==> |v| > 0 && (r.value == Escaped ==> |v| > 1)
  {
    if "\\\"" <= v then Some(Escaped)
    else if "\"" <= v then Some(Double)
    else if "'" <= v then Some(Single)
    else if |v| > 0 && IsBareFirst(v[0]) then Some(Bare)
    else None
  }

  /** The value at the front of v. */
  function ValueAt(v: string): (r: Option<Value>)
    ensures r.Some? ==> 0 < r.value.End() <= |v|
  {
    match ShapeOf(v)
    case None => None
    case Some(shape) =>
      var open := Value(shape, 0, 0).Open();
      var n := Inner(shape, v[open..]);
      Some(Value(shape, n, Closing(shape, v[open + n..])))
  }

  // ------------------------------------------------------------ the rule

  /** A value that is empty or already holds a marker stays; any other gives way, between its quotes. */
  function Judge(t: string, k: nat, v: Value): (r: Found)
    requires 0 < k && k + v.End() <= |t|
    ensures r.Fits(t)
  {
    var keep := k + v.Open();
    if v.len == 0 || Has(t[keep..keep + v.len], MARKER) then Leave(k + v.End())
    else Replace(keep, keep + v.len, k + v.End())
  }

  /** A key and its value. */
  function FindNamed(key: KeyFinder, t: string): (r: Found)
    ensures r.Fits(t)
  {
    assert KeyFits(t, key(t));
    match key(t)
    case None => Nothing
    case Some(k) => match ValueAt(t[k..]) case None => Nothing case Some(v) => Judge(t, k, v)
  }

  function Searching(key: KeyFinder): Searcher {
    (t: string) => FindNamed(key, t)
  }

  const PAIRS: Searcher := Searching(KEY)

  /** The text with every value after a key that names a secret replaced. */
  function Pairs(t: string): string {
    Pass(PAIRS, MARKER, t)
  }
}
