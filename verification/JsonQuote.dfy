/** Quoting an identifier with strconv.Quote and reading it back as a JSON string: two
    notations that agree on most characters but not on all. */
module JsonQuote {
  import opened Wrappers

  /** unicode.IsPrint, of which only this is needed: it holds of printable ASCII and of no
      control character. */
  ghost predicate PrintTable(printable: char -> bool) {
    forall c: char :: (c as int < 0x20 || c as int == 0x7F ==> !printable(c)) && (0x20 <= c as int < 0x7F ==> printable(c))
  }

  function HexDigit(d: nat): char
    requires d < 16
  {
    if d < 10 then (48 + d) as char else (87 + d) as char
  }

  /** The lowest `width` hexadecimal digits of `n`. */
  function Hex(n: nat, width: nat): (s: string)
    ensures |s| == width
  {
    if width == 0 then "" else Hex(n / 16, width - 1) + [HexDigit(n % 16)]
  }

  /** strconv.appendEscapedRune with a double quote. */
  function Escape(c: char, printable: char -> bool): string {
    var n := c as int;
    if c == '"' || c == '\\' then ['\\', c]
    else if printable(c) then [c]
    else if n == 7 then ['\\', 'a']
    else if n == 8 then ['\\', 'b']
    else if n == 12 then ['\\', 'f']
    else if n == 10 then ['\\', 'n']
    else if n == 13 then ['\\', 'r']
    else if n == 9 then ['\\', 't']
    else if n == 11 then ['\\', 'v']
    else if n < 0x20 || n == 0x7F then ['\\', 'x'] + Hex(n, 2)
    else if n < 0x10000 then ['\\', 'u'] + Hex(n, 4)
    else ['\\', 'U'] + Hex(n, 8)
  }

  function EscapeAll(s: string, printable: char -> bool): string {
    if s == "" then "" else Escape(s[0], printable) + EscapeAll(s[1..], printable)
  }

  function GoQuote(s: string, printable: char -> bool): string {
    ['"'] + EscapeAll(s, printable) + ['"']
  }

  function HexValue(c: char): Option<nat> {
    var n := c as int;
    if 48 <= n <= 57 then Some(n - 48)
    else if 97 <= n <= 102 then Some(n - 87)
    else if 65 <= n <= 70 then Some(n - 55)
    else None
  }

  function HexNumber(s: string): Option<nat> {
    if s == "" then Some(0)
    else
      var high, low := HexNumber(s[..|s| - 1]), HexValue(s[|s| - 1]);
      if high.Some? && low.Some? then Some(16 * high.value + low.value) else None
  }

  /** The one-character escapes of section 7 of RFC 8259. */
  function ShortEscape(c: char): Option<char> {
    var n := c as int;
    if n == 34 || n == 92 || n == 47 then Some(c)
    else if n == 98 then Some(8 as char)
    else if n == 102 then Some(12 as char)
    else if n == 110 then Some(10 as char)
    else if n == 114 then Some(13 as char)
    else if n == 116 then Some(9 as char)
    else None
  }

  predicate IsScalar(n: nat) {
    n < 0xD800 || 0xE000 <= n < 0x110000
  }

  /** What is left of a JSON string after its opening quote, read up to the closing one,
      which has to be the last character. */
  function ReadString(s: string): Option<string> {
    if s == "" then None
    else if s[0] == '"' then if |s| == 1 then Some("") else None
    else if (s[0] as int) < 0x20 then None
    else if s[0] != '\\' then Prepend(s[0], ReadString(s[1..]))
    else if |s| >= 2 && ShortEscape(s[1]).Some? then Prepend(ShortEscape(s[1]).value, ReadString(s[2..]))
    else if |s| >= 6 && s[1] == 'u' then
      var n := HexNumber(s[2..6]);
      if n.Some? && n.value < 0x10000 && IsScalar(n.value) then Prepend(n.value as char, ReadString(s[6..])) else None
    else None
  }

  function Prepend(c: char, rest: Option<string>): Option<string> {
    if rest.Some? then Some([c] + rest.value) else None
  }

  function ReadJsonString(s: string): Option<string> {
    if s == "" || s[0] != '"' then None else ReadString(s[1..])
  }

  /** The characters strconv.Quote writes in a way JSON reads back. */
  predicate Portable(c: char, printable: char -> bool) {
    var n := c as int;
    printable(c) || (n < 0x10000 && (0x80 <= n || n == 8 || n == 9 || n == 10 || n == 12 || n == 13))
  }

  lemma HexDigitReads(d: nat)
    requires d < 16
    ensures HexValue(HexDigit(d)) == Some(d)
  {
  }

  lemma {:induction false} HexReads(n: nat, width: nat, limit: nat)
    requires limit == Power16(width) && n < limit
    ensures HexNumber(Hex(n, width)) == Some(n)
  {
    if width > 0 {
      HexReads(n / 16, width - 1, Power16(width - 1));
      HexDigitReads(n % 16);
      var s := Hex(n, width);
      assert s[..|s| - 1] == Hex(n / 16, width - 1);
    }
  }

  function Power16(width: nat): nat {
    if width == 0 then 1 else 16 * Power16(width - 1)
  }

  lemma ReadShort(c: char, printable: char -> bool, rest: string)
    requires PrintTable(printable) && (c == '"' || c == '\\' || printable(c) || 7 <= c as int <= 13)
    ensures ReadString(Escape(c, printable) + rest)
         == if Portable(c, printable) then Prepend(c, ReadString(rest)) else None
  {
    hide HexNumber, Hex, HexValue;
    var e := Escape(c, printable);
    var s := e + rest;
    assert s[|e|..] == rest && s[0] == e[0] && (|e| == 2 ==> s[1] == e[1]);
  }

  /** Four hexadecimal digits are read back as the character. */
  lemma ReadFour(c: char, rest: string)
    requires 0x80 <= c as int < 0x10000
    ensures ReadString((['\\', 'u'] + Hex(c as int, 4)) + rest) == Prepend(c, ReadString(rest))
  {
    hide HexNumber, Hex, HexValue;
    var n := c as int;
    var s := (['\\', 'u'] + Hex(n, 4)) + rest;
    assert Power16(4) == 0x10000;
    HexReads(n, 4, 0x10000);
    assert s[2..6] == Hex(n, 4) && s[6..] == rest;
  }

  /** The escapes Go has and JSON has not. */
  lemma ReadNone(kind: char, digits: string, rest: string)
    requires kind == 'x' || kind == 'U'
    ensures ReadString((['\\', kind] + digits) + rest) == None
  {
    var s := (['\\', kind] + digits) + rest;
    assert s[0] == '\\' && s[1] == kind;
  }

  /** One quoted character is read back as itself, or makes the whole text unreadable. */
  lemma ReadEscape(c: char, printable: char -> bool, rest: string)
    requires PrintTable(printable)
    ensures ReadString(Escape(c, printable) + rest)
         == if Portable(c, printable) then Prepend(c, ReadString(rest)) else None
  {
    var n := c as int;
    if c == '"' || c == '\\' || printable(c) || (7 <= n <= 13) {
      ReadShort(c, printable, rest);
    } else if 0x80 <= n < 0x10000 {
      ReadFour(c, rest);
    } else {
      ReadNone(Escape(c, printable)[1], Escape(c, printable)[2..], rest);
      assert Escape(c, printable) == ['\\', Escape(c, printable)[1]] + Escape(c, printable)[2..];
    }
  }

  lemma {:induction false} ReadEscaped(s: string, printable: char -> bool)
    requires PrintTable(printable)
    ensures ReadString(EscapeAll(s, printable) + ['"'])
         == if forall i :: 0 <= i < |s| ==> Portable(s[i], printable) then Some(s) else None
  {
    hide Escape, Portable, ReadString;
    if s == "" {
      assert EscapeAll(s, printable) + ['"'] == ['"'];
      EmptyString();
    } else {
      var rest := EscapeAll(s[1..], printable) + ['"'];
      ReadEscaped(s[1..], printable);
      ReadEscape(s[0], printable, rest);
      assert EscapeAll(s, printable) + ['"'] == Escape(s[0], printable) + rest;
      assert s == [s[0]] + s[1..];
      assert (forall i :: 0 <= i < |s| ==> Portable(s[i], printable))
        <==> Portable(s[0], printable) && forall i :: 0 <= i < |s[1..]| ==> Portable(s[1..][i], printable) by {
        assert forall i :: 0 < i < |s| ==> s[i] == s[1..][i - 1];
      }
    }
  }

  lemma EmptyString()
    ensures ReadString(['"']) == Some("")
  {
  }

  /** Quoting an identifier gives JSON for that identifier exactly when every character
      is printable, one of backspace, tab, newline, form feed and carriage return, or an
      unprintable one between U+0080 and U+FFFF; otherwise it does not give JSON at all. */
  lemma QuoteIsJsonExactlyWhenPortable(id: string, printable: char -> bool)
    requires PrintTable(printable)
    ensures ReadJsonString(GoQuote(id, printable)) == Some(id) <==> forall i :: 0 <= i < |id| ==> Portable(id[i], printable)
    ensures ReadJsonString(GoQuote(id, printable)).Some? ==> ReadJsonString(GoQuote(id, printable)) == Some(id)
  {
    ReadEscaped(id, printable);
    assert GoQuote(id, printable)[1..] == EscapeAll(id, printable) + ['"'];
  }

  /** The bell character, for one, cannot be an identifier that is written back. */
  lemma BellIsNotPortable(printable: char -> bool)
    requires PrintTable(printable)
    ensures ReadJsonString(GoQuote([7 as char], printable)) == None
  {
    var id := [7 as char];
    QuoteIsJsonExactlyWhenPortable(id, printable);
    assert !Portable(id[0], printable);
  }
}
