/** Positions in a project's log: the order they are compared in and the text they travel as. */
module Cursors {
  import opened Decimal
  import opened JsonQuote
  import opened Text
  import opened Wrappers

  /** The timestamp in microseconds and the id of one exchange. An id is a 128-bit number;
      comparing two uuids byte by byte compares these. */
  datatype Key = Key(at: int, id: nat)

  predicate Less(a: Key, b: Key) {
    a.at < b.at || (a.at == b.at && a.id < b.id)
  }

  /** The zero time.Time, in microseconds since 1970. */
  const ZERO_AT := -62_135_596_800_000_000
  const ZERO_CURSOR := Key(ZERO_AT, 0)

  predicate IsZero(c: Key) {
    c.at == ZERO_AT
  }

  function UuidText(id: nat): (s: string)
    ensures |s| == 36
  {
    var h := Hex(id, 32);
    h[..8] + "-" + h[8..12] + "-" + h[12..16] + "-" + h[16..20] + "-" + h[20..]
  }

  /** The canonical form of a uuid, in either case. */
  function ParseUuid(s: string): Option<nat> {
    if |s| == 36 && s[8] == '-' && s[13] == '-' && s[18] == '-' && s[23] == '-' then
      HexNumber(s[..8] + s[9..13] + s[14..18] + s[19..23] + s[24..])
    else None
  }

  function Print(c: Key): string {
    if IsZero(c) then "" else FormatInt(c.at) + "-" + UuidText(c.id)
  }

  function Parse(s: string): Option<Key> {
    if s == "" then Some(ZERO_CURSOR)
    else
      var parts := Cut(s, '-');
      if parts.None? then None
      else
        var at, id := ParseInt(parts.value.0), ParseUuid(parts.value.1);
        if at.Some? && id.Some? then Some(Key(at.value, id.value)) else None
  }

  lemma UuidReads(id: nat)
    requires id < Power16(32)
    ensures ParseUuid(UuidText(id)) == Some(id)
  {
    hide Hex, HexNumber, Power16;
    var h := Hex(id, 32);
    var s := UuidText(id);
    HexReads(id, 32, Power16(32));
    assert s[..8] == h[..8] && s[9..13] == h[8..12] && s[14..18] == h[12..16] && s[19..23] == h[16..20] && s[24..] == h[20..];
    assert h[..8] + h[8..12] + h[12..16] + h[16..20] + h[20..] == h;
  }

  /** A cursor survives the trip through a URL exactly when its time is not before 1970
      (and within 64 bits), or it is the empty cursor. */
  lemma CursorRoundTrip(c: Key)
    requires c.id < Power16(32) && c.at <= MAX_INT64
    ensures Parse(Print(c)) == Some(c) <==> c.at >= 0 || c == ZERO_CURSOR
  {
    hide UuidText, ParseUuid, Hex, HexNumber, Power16;
    if !IsZero(c) {
      var text := FormatInt(c.at);
      UuidReads(c.id);
      if c.at >= 0 {
        ParseFormat(c.at);
        ValueOfFormat(c.at);
        assert '-' !in text;
        CutFirst(text, '-', UuidText(c.id));
        assert Print(c) == text + ['-'] + UuidText(c.id);
      } else {
        var rest := FormatNat(-c.at) + "-" + UuidText(c.id);
        assert Print(c) == "" + ['-'] + rest;
        CutFirst("", '-', rest);
      }
    }
  }
}
