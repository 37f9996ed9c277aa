/**
 Four redaction rules as rewriting functions on text. A rule's hit says how much
 of the text it keeps and where the secret ends; what lies between becomes a
 marker. Text the rule already redacted is not a hit.
 */
module RedactRules {
  import opened Common
  import opened Rewriting

  const MARKER: string := "[redacted]"

  datatype Rule = EncryptedValue | AgeIdentity | UrlCredentials | ReliaburgerToken

  // ------------------------------------------------------------ characters

  predicate IsAlnum(c: char) {
    'a' <= c <= 'z' || 'A' <= c <= 'Z' || '0' <= c <= '9'
  }

  predicate IsLetter(c: char) {
    'a' <= c <= 'z' || 'A' <= c <= 'Z'
  }

  predicate IsTokenChar(c: char) {
    IsAlnum(c) || c == '_'
  }

  predicate IsSchemeChar(c: char) {
    IsAlnum(c) || c == '+' || c == '.' || c == '-'
  }

  /** Unicode White_Space, which is what \s means in a Rust pattern. */
  predicate IsSpace(c: char) {
    || '\t' <= c <= '\r' || c == ' ' || c == '\U{85}' || c == '\U{A0}' || c == '\U{1680}'
    || '\U{2000}' <= c <= '\U{200A}' || c == '\U{2028}' || c == '\U{2029}' || c == '\U{202F}'
    || c == '\U{205F}' || c == '\U{3000}'
  }

  /** A character that user information may hold. */
  predicate IsUserinfo(c: char) {
    !IsSpace(c) && c != '/' && c != '?' && c != '#'
  }

  predicate IsEncBody(c: char) {
    !IsSpace(c) && c != ']' && c != '"' && c != '\''
  }

  /** How many characters at the front of t satisfy p. */
  function Span(t: string, p: char -> bool): (n: nat)
    ensures n <= |t| && (forall i :: 0 <= i < n ==> p(t[i])) && (n < |t| ==> !p(t[n]))
  {
    if t != [] && p(t[0]) then 1 + Span(t[1..], p) else 0
  }

  // ------------------------------------------------------------ the rules

  /** The fixed text without which the rule changes nothing. */
  function Trigger(rule: Rule): string {
    match rule
    case EncryptedValue => "ENC[AGE:"
    case AgeIdentity => "AGE-SECRET-KEY-1"
    case UrlCredentials => "://"
    case ReliaburgerToken => "rbrg_"
  }

  function MarkerOf(rule: Rule): string {
    if rule.EncryptedValue? then MARKER + "]" else MARKER
  }

  /** The last @ in s. */
  function LastAt(s: string): (k: Option<nat>)
    ensures k.Some? ==> k.value < |s| && s[k.value] == '@' && forall i :: k.value < i < |s| ==> s[i] != '@'
    ensures k.None? ==> forall i :: 0 <= i < |s| ==> s[i] != '@'
  {
    if s == [] then None
    else if s[|s| - 1] == '@' then Some(|s| - 1)
    else LastAt(s[..|s| - 1])
  }

  /** The user information at the front of what follows "://": everything before the last @ of the run, if not empty. */
  function Userinfo(run: string): Option<nat> {
    var k := LastAt(run);
    if k.Some? && k.value > 0 then k else None
  }

  predicate Exposed(run: string) {
    Userinfo(run).Some? && run[..Userinfo(run).value] != MARKER
  }

  function RunOf(y: string): string {
    y[..Span(y, IsUserinfo)]
  }

  function SchemeLen(t: string): nat {
    Span(t, IsSchemeChar)
  }

  /** A scheme and "://" stand at the front of t. */
  predicate HasScheme(t: string) {
    t != [] && IsLetter(t[0]) && "://" <= t[SchemeLen(t)..]
  }

  /** What follows the scheme and "://". */
  function AfterScheme(t: string): string
    requires HasScheme(t)
  {
    t[SchemeLen(t) + 3..]
  }

  function FindEncrypted(t: string): (h: Option<Hit>)
    ensures Fits(t, h)
  {
    var p := Trigger(EncryptedValue);
    if p <= t && !(MarkerOf(EncryptedValue) <= t[|p|..]) then
      var end := |p| + Span(t[|p|..], IsEncBody);
      Some(Hit(|p|, if end < |t| && t[end] == ']' then end + 1 else end))
    else None
  }

  function FindAge(t: string): (h: Option<Hit>)
    ensures Fits(t, h)
  {
    var p := Trigger(AgeIdentity);
    if p <= t && Span(t[|p|..], IsAlnum) > 0 then Some(Hit(|p|, |p| + Span(t[|p|..], IsAlnum))) else None
  }

  function FindUrl(t: string): (h: Option<Hit>)
    ensures Fits(t, h)
  {
    if HasScheme(t) && Exposed(RunOf(AfterScheme(t))) then
      var keep := SchemeLen(t) + 3;
      Some(Hit(keep, keep + Userinfo(RunOf(AfterScheme(t))).value))
    else None
  }

  function FindToken(t: string): (h: Option<Hit>)
    ensures Fits(t, h)
  {
    var p := Trigger(ReliaburgerToken);
    if p <= t && !(MARKER <= t[|p|..]) then Some(Hit(|p|, |p| + Span(t[|p|..], IsTokenChar))) else None
  }

  const ENCRYPTED: Finder := FindEncrypted
  const AGE: Finder := FindAge
  const URL: Finder := FindUrl
  const TOKEN: Finder := FindToken

  /** Finds a secret at the front of a text. */
  function FinderOf(rule: Rule): Finder {
    match rule
    case EncryptedValue => ENCRYPTED
    case AgeIdentity => AGE
    case UrlCredentials => URL
    case ReliaburgerToken => TOKEN
  }

  // The text with every secret of one kind replaced by its marker.

  function Values(t: string): string {
    Rewrite(ENCRYPTED, MarkerOf(EncryptedValue), t)
  }

  function Identities(t: string): string {
    Rewrite(AGE, MARKER, t)
  }

  function Urls(t: string): string {
    Rewrite(URL, MARKER, t)
  }

  function Tokens(t: string): string {
    Rewrite(TOKEN, MARKER, t)
  }

  /** The text with every secret the rule finds replaced by its marker. */
  function Apply(rule: Rule, t: string): string {
    match rule
    case EncryptedValue => Values(t)
    case AgeIdentity => Identities(t)
    case UrlCredentials => Urls(t)
    case ReliaburgerToken => Tokens(t)
  }

  /** The rule finds no secret anywhere in t. */
  ghost predicate Stable(rule: Rule, t: string) {
    StableFor(FinderOf(rule), t)
  }
}
