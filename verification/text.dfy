/** String helpers with JavaScript's meaning. */
module Text {
  import opened Results

  /** JavaScript's regular-expression class `\s`: the ECMAScript white-space
      and line-terminator characters. */
  predicate IsJsWhitespace(c: char) {
    || c == '\t' || c == '\n' || c == '\U{B}' || c == '\U{C}' || c == '\r' || c == ' '
    || c == '\U{A0}' || c == '\U{1680}' || ('\U{2000}' <= c <= '\U{200A}')
    || c == '\U{2028}' || c == '\U{2029}' || c == '\U{202F}' || c == '\U{205F}'
    || c == '\U{3000}' || c == '\U{FEFF}'
  }

  predicate AllWhitespace(s: string) {
    forall i :: 0 <= i < |s| ==> IsJsWhitespace(s[i])
  }

  /** `Array.prototype.join`. */
  function Join(parts: seq<string>, sep: string): string
  {
    if |parts| == 0 then ""
    else if |parts| == 1 then parts[0]
    else parts[0] + sep + Join(parts[1..], sep)
  }

  /** A lower-case hexadecimal digit. */
  function HexDigit(d: nat): (c: char)
    requires d < 16
    ensures HexValue(c) == Some(d)
  {
    if d < 10 then ('0' as int + d) as char else ('a' as int + d - 10) as char
  }

  /** The value of a hexadecimal digit of either case. */
  function HexValue(c: char): (r: Option<nat>)
    ensures r.Some? ==> r.value < 16
  {
    if '0' <= c <= '9' then Some(c as int - '0' as int)
    else if 'a' <= c <= 'f' then Some(c as int - 'a' as int + 10)
    else if 'A' <= c <= 'F' then Some(c as int - 'A' as int + 10)
    else None
  }

  /** The characters `JSON.stringify` writes as an escape sequence. */
  predicate NeedsEscape(c: char) {
    c == '"' || c == '\\' || c < ' '
  }

  /** How `JSON.stringify` writes one character inside a string literal. */
  function EscapeChar(c: char): (r: string)
    ensures !NeedsEscape(c) <==> r == [c]
    ensures NeedsEscape(c) ==> |r| >= 2 && r[0] == '\\'
  {
    if c == '"' then "\\\""
    else if c == '\\' then "\\\\"
    else if c == '\U{8}' then "\\b"
    else if c == '\t' then "\\t"
    else if c == '\n' then "\\n"
    else if c == '\U{C}' then "\\f"
    else if c == '\r' then "\\r"
    else if c < ' ' then
      var code := c as int;
      "\\u00" + [HexDigit(code / 16), HexDigit(code % 16)]
    else [c]
  }

  function EscapeAll(s: string): (r: string)
    ensures (forall i :: 0 <= i < |s| ==> !NeedsEscape(s[i])) ==> r == s
    ensures |r| >= |s|
  {
    if |s| == 0 then "" else EscapeChar(s[0]) + EscapeAll(s[1..])
  }

  /** `JSON.stringify` applied to a string: the quoted, escaped literal. */
  function Stringify(s: string): (r: string)
    ensures |r| >= |s| + 2 && r[0] == '"' && r[|r| - 1] == '"'
    ensures (forall i :: 0 <= i < |s| ==> !NeedsEscape(s[i])) ==> r == "\"" + s + "\""
  {
    "\"" + EscapeAll(s) + "\""
  }

  /** One decoded escape sequence: the character and how many characters of
      the literal it took. */
  datatype Decoded = Decoded(c: char, width: nat)

  /** The escape sequence at the start of `t`, as JSON defines them: one of
      `\" \\ \/ \b \f \n \r \t`, or `\u` and four hexadecimal digits naming
      a character (a lone surrogate names none). */
  function DecodeEscape(t: string): (r: Option<Decoded>)
    requires |t| > 0 && t[0] == '\\'
    ensures r.Some? ==> 2 <= r.value.width <= |t|
  {
    if |t| < 2 then None
    else if t[1] == '"' then Some(Decoded('"', 2))
    else if t[1] == '\\' then Some(Decoded('\\', 2))
    else if t[1] == '/' then Some(Decoded('/', 2))
    else if t[1] == 'b' then Some(Decoded('\U{8}', 2))
    else if t[1] == 'f' then Some(Decoded('\U{C}', 2))
    else if t[1] == 'n' then Some(Decoded('\n', 2))
    else if t[1] == 'r' then Some(Decoded('\r', 2))
    else if t[1] == 't' then Some(Decoded('\t', 2))
    else if t[1] == 'u' && |t| >= 6
            && HexValue(t[2]).Some? && HexValue(t[3]).Some? && HexValue(t[4]).Some? && HexValue(t[5]).Some? then
      var code := ((HexValue(t[2]).value * 16 + HexValue(t[3]).value) * 16 + HexValue(t[4]).value) * 16
                  + HexValue(t[5]).value;
      if 0xD800 <= code < 0xE000 then None else Some(Decoded(code as char, 6))
    else None
  }

  /** The text a JSON string literal's body stands for, or `None` when it is
      malformed (a bad escape, a bare quote or control character). */
  function Unescape(t: string): (r: Option<string>)
    decreases |t|
  {
    if |t| == 0 then Some("")
    else if t[0] == '\\' then
      match DecodeEscape(t)
      case None => None
      case Some(d) =>
        (match Unescape(t[d.width..])
         case None => None
         case Some(rest) => Some([d.c] + rest))
    else if t[0] == '"' || t[0] < ' ' then None
    else
      match Unescape(t[1..])
      case None => None
      case Some(rest) => Some([t[0]] + rest)
  }

  /** The text a JSON string literal stands for. */
  function Unstringify(lit: string): Option<string> {
    if |lit| >= 2 && lit[0] == '"' && lit[|lit| - 1] == '"' then Unescape(lit[1..|lit| - 1]) else None
  }

  /** Decoding one escaped character followed by more text. */
  lemma UnescapeEscapeChar(c: char, more: string)
    ensures Unescape(EscapeChar(c) + more)
              == (match Unescape(more) case None => None case Some(rest) => Some([c] + rest))
  {
    var e := EscapeChar(c);
    var t := e + more;
    if NeedsEscape(c) {
      assert t[..|e|] == e;
      assert DecodeEscape(t) == Some(Decoded(c, |e|));
      assert t[|e|..] == more;
    } else {
      assert t[1..] == more;
    }
  }

  /** Decoding what `EscapeAll` wrote gives back the text. */
  lemma {:induction false} UnescapeEscapeAll(s: string)
    ensures Unescape(EscapeAll(s)) == Some(s)
  {
    if |s| > 0 {
      UnescapeEscapeAll(s[1..]);
      UnescapeEscapeChar(s[0], EscapeAll(s[1..]));
      assert [s[0]] + s[1..] == s;
    }
  }

  /** `JSON.stringify` of a string is a literal that reads back as that
      string; in particular different strings are written differently. */
  lemma StringifyRoundTrip(s: string)
    ensures Unstringify(Stringify(s)) == Some(s)
  {
    var r := Stringify(s);
    assert r[1..|r| - 1] == EscapeAll(s);
    UnescapeEscapeAll(s);
  }

  predicate IsDigit(c: char) {
    '0' <= c <= '9'
  }

  predicate IsDecimal(s: string) {
    |s| > 0 && forall i :: 0 <= i < |s| ==> IsDigit(s[i])
  }

  /** `Number.prototype.toString()` for a non-negative integer. */
  function NatToDecimal(n: nat): (s: string)
    ensures IsDecimal(s)
    ensures |s| > 1 ==> s[0] != '0'
    decreases n
  {
    if n < 10 then ["0123456789"[n]]
    else NatToDecimal(n / 10) + ["0123456789"[n % 10]]
  }

  /** The number a string of decimal digits denotes. */
  function DecimalValue(s: string): nat
    requires forall i :: 0 <= i < |s| ==> IsDigit(s[i])
  {
    if |s| == 0 then 0
    else
      assert IsDigit(s[|s| - 1]);
      DecimalValue(s[..|s| - 1]) * 10 + (s[|s| - 1] as int - '0' as int)
  }

  /** Decimal digits without a leading zero are the digits `toString()`
      writes for the number they denote: the text is determined by the
      number. */
  lemma {:induction false} DecimalCanonical(s: string, n: nat)
    requires IsDecimal(s) && (s[0] == '0' ==> |s| == 1)
    requires DecimalValue(s) == n
    ensures s == NatToDecimal(n)
    decreases |s|
  {
    var d := s[|s| - 1] as int - '0' as int;
    if |s| == 1 {
      assert s[..0] == [];
      assert s == ["0123456789"[d]];
    } else {
      var p := s[..|s| - 1];
      assert p[0] == s[0];
      DecimalCanonical(p, n / 10);
      assert s == p + ["0123456789"[n % 10]];
    }
  }

  /** Writing a number in decimal and reading it back gives the number. */
  lemma {:induction false} DecimalRoundTrip(n: nat)
    ensures DecimalValue(NatToDecimal(n)) == n
    decreases n
  {
    var s := NatToDecimal(n);
    if n >= 10 {
      DecimalRoundTrip(n / 10);
      assert s[..|s| - 1] == NatToDecimal(n / 10);
    }
  }
}
