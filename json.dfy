/**
 * Values as the dashboard's JavaScript code sees them after JSON decoding:
 * string fields that may be absent or null, their truthiness, the
 * `String.prototype.trim` test and the string order used to sort rosters.
 */
module Json {

  datatype Option<+T> = None | Some(value: T)

  /** A loosely typed string field of a decoded JSON object: missing
      (`undefined`), an explicit `null`, or a string. */
  datatype JsStr = Undefined | Null | Str(s: string)

  /** JavaScript truthiness of a string field: only a non-empty string is truthy. */
  predicate Truthy(v: JsStr) {
    v.Str? && v.s != ""
  }

  /** Truthiness of a nullable string held by the server (a local or an SQL value). */
  predicate Present(o: Option<string>) {
    o.Some? && o.value != ""
  }

  /** Truthiness of a boolean field; a missing or null flag is falsy. */
  predicate Flag(b: Option<bool>) {
    b == Some(true)
  }

  /** Binding a JavaScript value as an SQL parameter: `undefined` and `null` both become NULL. */
  function ToSql(v: JsStr): (o: Option<string>)
    ensures o.Some? <==> v.Str?
    ensures v.Str? ==> o.value == v.s
  {
    if v.Str? then Some(v.s) else None
  }

  /** Reading an SQL value back through JSON: NULL becomes `null`. */
  function FromSql(o: Option<string>): (v: JsStr)
    ensures !v.Undefined?
    ensures v.Str? <==> o.Some?
    ensures o.Some? ==> v.s == o.value
  {
    if o.Some? then Str(o.value) else Null
  }

  /** Storing a field and reading it back loses exactly the difference between
      `undefined` and `null`. */
  lemma SqlRoundTrip(v: JsStr)
    ensures FromSql(ToSql(v)) == v <==> !v.Undefined?
  {
  }

  /** The characters `String.prototype.trim` removes (ECMAScript WhiteSpace and
      LineTerminator). */
  predicate IsSpace(c: char) {
    c == '\t' || c == '\n' || c == '\U{000B}' || c == '\U{000C}' || c == '\r' || c == ' '
    || c == '\U{00A0}' || c == '\U{1680}' || ('\U{2000}' <= c <= '\U{200A}')
    || c == '\U{2028}' || c == '\U{2029}' || c == '\U{202F}' || c == '\U{205F}'
    || c == '\U{3000}' || c == '\U{FEFF}'
  }

  /** A string made of white space only (the empty string included). */
  predicate Blank(s: string) {
    forall i :: 0 <= i < |s| ==> IsSpace(s[i])
  }

  /** The number of white-space characters `s` starts with. */
  function LeadingSpaces(s: string): (k: nat)
    ensures k <= |s|
    ensures forall i :: 0 <= i < k ==> IsSpace(s[i])
    ensures k < |s| ==> !IsSpace(s[k])
  {
    if s != [] && IsSpace(s[0]) then 1 + LeadingSpaces(s[1..]) else 0
  }

  /** The number of white-space characters `s` ends with. */
  function TrailingSpaces(s: string): (k: nat)
    ensures k <= |s|
    ensures forall i :: |s| - k <= i < |s| ==> IsSpace(s[i])
    ensures k < |s| ==> !IsSpace(s[|s| - k - 1])
  {
    if s != [] && IsSpace(s[|s| - 1]) then 1 + TrailingSpaces(s[..|s| - 1]) else 0
  }

  function TrimStart(s: string): (r: string)
    ensures |r| <= |s|
    ensures r == s[|s| - |r|..]
    ensures r != [] ==> !IsSpace(r[0])
    ensures Blank(s[..|s| - |r|])
  {
    s[LeadingSpaces(s)..]
  }

  function TrimEnd(s: string): (r: string)
    ensures |r| <= |s|
    ensures r == s[..|r|]
    ensures r != [] ==> !IsSpace(r[|r| - 1])
    ensures Blank(s[|r|..])
  {
    s[..|s| - TrailingSpaces(s)]
  }

  /** `s.trim()` */
  function Trim(s: string): string {
    TrimEnd(TrimStart(s))
  }

  /** `s.trim() !== ""` holds exactly when `s` has a character that is not white space. */
  lemma TrimEmptyIffBlank(s: string)
    ensures Trim(s) == "" <==> Blank(s)
  {
    var k := LeadingSpaces(s);
    var t := TrimStart(s);
    assert t == s[k..];
    if t != [] {
      assert !IsSpace(t[0]);
      assert TrailingSpaces(t) < |t|;
      assert !IsSpace(s[k]);
    } else {
      assert k == |s|;
    }
  }

  /** Lexicographic order on strings by code point (Unicode scalar value),
      standing for `localeCompare`. */
  predicate StrLe(a: string, b: string) {
    a == [] || (b != [] && (a[0] < b[0] || (a[0] == b[0] && StrLe(a[1..], b[1..]))))
  }

  lemma {:induction false} StrLeTotal(a: string, b: string)
    ensures StrLe(a, b) || StrLe(b, a)
  {
    if a != [] && b != [] && a[0] == b[0] {
      StrLeTotal(a[1..], b[1..]);
    }
  }

  lemma {:induction false} StrLeTrans(a: string, b: string, c: string)
    requires StrLe(a, b) && StrLe(b, c)
    ensures StrLe(a, c)
  {
    if a != [] && b != [] && c != [] && a[0] == b[0] == c[0] {
      StrLeTrans(a[1..], b[1..], c[1..]);
    }
  }
}
