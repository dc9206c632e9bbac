/** The legacy (pre-1.7) Server List Ping over TCP (function_app.py,
    try_legacy_protocol): send `FE 01`, receive a kick packet `FF`, a
    big-endian character count, and that many UTF-16BE code units holding
    NUL-separated fields; field 4 is the player count. */
module LegacyStatus {
  import opened Common

  /** The ping the client sends. */
  const LegacyPing: seq<byte> := [0xFE, 0x01]
  /** First byte of the kick packet the server answers with. */
  const KickMarker: byte := 0xFF

  // ---------------------------------------------------------------------
  // UTF-16BE, as Python's strict 'utf-16be' codec reads and writes it.

  predicate IsHighSurrogate(u: int) { 0xD800 <= u <= 0xDBFF }
  predicate IsLowSurrogate(u: int) { 0xDC00 <= u <= 0xDFFF }

  /** The code unit held by the two bytes at `i`. */
  function UnitAt(b: seq<byte>, i: nat): int
    requires i + 1 < |b|
  {
    b[i] as int * 256 + b[i + 1] as int
  }

  /** `b.decode('utf-16be')`: None on an odd trailing byte ("truncated
      data") and on a surrogate that is not half of a high-low pair. Every
      character takes two or four bytes. */
  function DecodeUtf16Be(b: seq<byte>): (r: Option<string>)
    ensures r.Some? ==> |b| / 4 <= |r.value| <= |b| / 2
    decreases |b|
  {
    if |b| == 0 then Some([])
    else if |b| == 1 then None
    else
      var u := UnitAt(b, 0);
      if !IsHighSurrogate(u) && !IsLowSurrogate(u) then
        match DecodeUtf16Be(b[2..])
        case None => None
        case Some(rest) => Some([u as char] + rest)
      else if IsHighSurrogate(u) && |b| >= 4 && IsLowSurrogate(UnitAt(b, 2)) then
        var c := 0x10000 + (u - 0xD800) * 0x400 + (UnitAt(b, 2) - 0xDC00);
        match DecodeUtf16Be(b[4..])
        case None => None
        case Some(rest) => Some([c as char] + rest)
      else None
  }

  /** The UTF-16BE code units of one character: two bytes below U+10000,
      a surrogate pair above. */
  function EncodeChar(c: char): (b: seq<byte>)
    ensures |b| == 2 || |b| == 4
  {
    var v := c as int;
    if v < 0x10000 then [(v / 256) as byte, (v % 256) as byte]
    else
      var w := v - 0x10000;
      var hi := 0xD800 + w / 0x400;
      var lo := 0xDC00 + w % 0x400;
      [(hi / 256) as byte, (hi % 256) as byte, (lo / 256) as byte, (lo % 256) as byte]
  }

  /** `s.encode('utf-16be')`. */
  function EncodeUtf16Be(s: string): (b: seq<byte>)
    ensures |b| % 2 == 0 && 2 * |s| <= |b| <= 4 * |s|
  {
    if |s| == 0 then [] else EncodeChar(s[0]) + EncodeUtf16Be(s[1..])
  }

  lemma DecodeEncodedChar(c: char, rest: seq<byte>)
    ensures DecodeUtf16Be(EncodeChar(c) + rest) ==
      match DecodeUtf16Be(rest) case None => None case Some(t) => Some([c] + t)
  {
    var b := EncodeChar(c) + rest;
    var v := c as int;
    if v < 0x10000 {
      assert UnitAt(b, 0) == v;
      assert b[2..] == rest;
    } else {
      var w := v - 0x10000;
      var hi := 0xD800 + w / 0x400;
      var lo := 0xDC00 + w % 0x400;
      assert w / 0x400 < 0x400;
      assert UnitAt(b, 0) == hi;
      assert UnitAt(b, 2) == lo;
      assert 0x10000 + (hi - 0xD800) * 0x400 + (lo - 0xDC00) == v;
      assert b[4..] == rest;
    }
  }

  /** Decoding undoes encoding: every string survives the UTF-16BE round trip. */
  lemma {:induction false} Utf16RoundTrip(s: string)
    ensures DecodeUtf16Be(EncodeUtf16Be(s)) == Some(s)
  {
    if |s| > 0 {
      Utf16RoundTrip(s[1..]);
      DecodeEncodedChar(s[0], EncodeUtf16Be(s[1..]));
      assert [s[0]] + s[1..] == s;
    }
  }

  /** The pair a surrogate pair decodes to. */
  function PairValue(hi: int, lo: int): int
  {
    0x10000 + (hi - 0xD800) * 0x400 + (lo - 0xDC00)
  }

  /** A unit that is not a surrogate is the encoding of its own character. */
  lemma EncodeUnit(b: seq<byte>)
    requires |b| >= 2 && !IsHighSurrogate(UnitAt(b, 0)) && !IsLowSurrogate(UnitAt(b, 0))
    ensures EncodeChar(UnitAt(b, 0) as char) == b[..2]
  {
    var u := UnitAt(b, 0);
    assert u / 256 == b[0] as int && u % 256 == b[1] as int;
  }

  /** A high-low surrogate pair is the encoding of the character it decodes to. */
  lemma EncodePair(b: seq<byte>)
    requires |b| >= 4 && IsHighSurrogate(UnitAt(b, 0)) && IsLowSurrogate(UnitAt(b, 2))
    ensures 0x10000 <= PairValue(UnitAt(b, 0), UnitAt(b, 2)) < 0x110000
    ensures EncodeChar(PairValue(UnitAt(b, 0), UnitAt(b, 2)) as char) == b[..4]
  {
    var u, lo := UnitAt(b, 0), UnitAt(b, 2);
    var w := PairValue(u, lo) - 0x10000;
    assert w / 0x400 == u - 0xD800 && w % 0x400 == lo - 0xDC00;
    assert u / 256 == b[0] as int && u % 256 == b[1] as int;
    assert lo / 256 == b[2] as int && lo % 256 == b[3] as int;
  }

  /** Strict decoding accepts only encodings: whatever it decodes is the
      encoding of the text it returns, so a lone or reversed surrogate, which
      no text encodes to, is refused. */
  lemma {:induction false} DecodedIsEncoded(b: seq<byte>)
    requires DecodeUtf16Be(b).Some?
    ensures EncodeUtf16Be(DecodeUtf16Be(b).value) == b
    decreases |b|
  {
    if |b| > 0 {
      var s := DecodeUtf16Be(b).value;
      var u := UnitAt(b, 0);
      if !IsHighSurrogate(u) && !IsLowSurrogate(u) {
        var rest := DecodeUtf16Be(b[2..]).value;
        assert s == [u as char] + rest;
        DecodedIsEncoded(b[2..]);
        EncodeUnit(b);
        assert s[0] == u as char && s[1..] == rest;
        assert EncodeUtf16Be(s) == EncodeChar(s[0]) + EncodeUtf16Be(s[1..]);
        assert b == b[..2] + b[2..];
      } else {
        var rest := DecodeUtf16Be(b[4..]).value;
        var c := PairValue(u, UnitAt(b, 2)) as char;
        assert s == [c] + rest;
        DecodedIsEncoded(b[4..]);
        EncodePair(b);
        assert s[0] == c && s[1..] == rest;
        assert EncodeUtf16Be(s) == EncodeChar(s[0]) + EncodeUtf16Be(s[1..]);
        assert b == b[..4] + b[4..];
      }
    }
  }

  /** A high surrogate followed by a unit that is not a low surrogate, and
      a low surrogate on its own, do not decode. */
  lemma UnpairedSurrogatesFail()
    ensures DecodeUtf16Be([0xD8, 0x00, 0x00, 0x41]) == None
    ensures DecodeUtf16Be([0xDC, 0x00]) == None
  {
  }

  /** A byte string of odd length never decodes. */
  lemma {:induction false} OddLengthFails(b: seq<byte>)
    requires |b| % 2 == 1
    ensures DecodeUtf16Be(b) == None
    decreases |b|
  {
    if |b| > 1 {
      OddLengthFails(b[2..]);
      if |b| >= 4 { OddLengthFails(b[4..]); }
    }
  }

  // ---------------------------------------------------------------------
  // The kick packet.

  /** Python's `b[i:j]` for 0 <= i <= j: clamped to the end of `b`. */
  function Slice(b: seq<byte>, i: nat, j: nat): (r: seq<byte>)
    requires i <= j
    ensures |r| <= j - i
    ensures |b| >= j ==> r == b[i..j]
    ensures i <= |b| < j ==> r == b[i..]
    ensures |b| <= i ==> r == []
  {
    if |b| <= i then [] else if |b| <= j then b[i..] else b[i..j]
  }

  /** The parse of a kick packet (function_app.py:168-197): -1 unless the
      packet is at least 3 bytes and starts with 0xFF; otherwise the
      UTF-16BE text of the announced number of characters (as much of it
      as arrived) is split on NUL, and field 4 is returned when there are
      at least five fields and field 5, when present, is a number too. */
  function LegacyParse(response: seq<byte>): (r: int)
    ensures r != -1 ==>
      && |response| >= 3 && response[0] == KickMarker
      && var data := Slice(response, 3, 3 + (response[1] as int * 256 + response[2] as int) * 2);
         && DecodeUtf16Be(data).Some?
         && var parts := Split(DecodeUtf16Be(data).value, '\0');
            |parts| >= 5 && ParseInt(parts[4]) == Some(r) && (|parts| > 5 ==> ParseInt(parts[5]).Some?)
  {
    if |response| < 3 || response[0] != KickMarker then -1
    else
      var length := response[1] as int * 256 + response[2] as int;
      match DecodeUtf16Be(Slice(response, 3, 3 + length * 2))
      case None => -1
      case Some(info) =>
        var parts := Split(info, '\0');
        if |parts| < 5 then -1
        else
          match ParseInt(parts[4])
          case None => -1
          case Some(current) =>
            if |parts| > 5 && ParseInt(parts[5]).None? then -1 else current
  }

  /** A response under 3 bytes, or one without the 0xFF marker, is rejected,
      and so is a text of fewer than five fields. */
  lemma LegacyRejects(response: seq<byte>)
    ensures |response| < 3 || response[0] != 0xFF ==> LegacyParse(response) == -1
    ensures |response| >= 3 && response[0] == 0xFF ==>
      var length := response[1] as int * 256 + response[2] as int;
      var data := Slice(response, 3, 3 + length * 2);
      (|data| % 2 == 1 ==> LegacyParse(response) == -1) &&
      (DecodeUtf16Be(data).Some? && |Split(DecodeUtf16Be(data).value, '\0')| < 5 ==> LegacyParse(response) == -1)
  {
    if |response| >= 3 && response[0] == 0xFF {
      var length := response[1] as int * 256 + response[2] as int;
      var data := Slice(response, 3, 3 + length * 2);
      if |data| % 2 == 1 { OddLengthFails(data); }
    }
  }

  /** The header of a kick packet: marker, then a character count (UTF-16
      code units) as a big-endian u16. */
  function KickHeader(units: nat): (h: seq<byte>)
    requires units < 65536
    ensures |h| == 3 && h[0] == KickMarker && h[1] as int * 256 + h[2] as int == units
  {
    [KickMarker, (units / 256) as byte, (units % 256) as byte]
  }

  /** The kick packet a server sends for `text`: the header announcing the
      text's length, then the text. */
  function KickPacket(text: string): seq<byte>
    requires |EncodeUtf16Be(text)| / 2 < 65536
  {
    KickHeader(|EncodeUtf16Be(text)| / 2) + EncodeUtf16Be(text)
  }

  /** The parse of a packet carrying NUL-separated fields whose header
      announces at least as many characters as arrived: the slice is
      clamped to the bytes present, and the result is field 4 read as an
      integer when there are five fields or more, field 4 is a number and
      field 5, when present, is one too; otherwise -1. */
  lemma LegacyParseAnnounced(fields: seq<string>, units: nat)
    requires |fields| >= 1
    requires forall i :: 0 <= i < |fields| ==> '\0' !in fields[i]
    requires |EncodeUtf16Be(Join(fields, '\0'))| / 2 <= units < 65536
    ensures LegacyParse(KickHeader(units) + EncodeUtf16Be(Join(fields, '\0'))) ==
      if |fields| >= 5 && ParseInt(fields[4]).Some? && (|fields| > 5 ==> ParseInt(fields[5]).Some?)
      then ParseInt(fields[4]).value else -1
  {
    var text := Join(fields, '\0');
    var e := EncodeUtf16Be(text);
    var p := KickHeader(units) + e;
    assert p[3..] == e;
    assert Slice(p, 3, 3 + units * 2) == e;
    Utf16RoundTrip(text);
    SplitJoin(fields, '\0');
  }

  /** The packet a server sends for NUL-free fields parses to field 4 under
      the same conditions. */
  lemma LegacyParseFields(fields: seq<string>)
    requires |fields| >= 5
    requires forall i :: 0 <= i < |fields| ==> '\0' !in fields[i]
    requires |EncodeUtf16Be(Join(fields, '\0'))| / 2 < 65536
    ensures LegacyParse(KickPacket(Join(fields, '\0'))) ==
      if ParseInt(fields[4]).Some? && (|fields| > 5 ==> ParseInt(fields[5]).Some?) then ParseInt(fields[4]).value else -1
  {
    LegacyParseAnnounced(fields, |EncodeUtf16Be(Join(fields, '\0'))| / 2);
  }

  /** A header announcing 70 characters in front of a 20-character text of
      six fields, with 3 in field 4 and 20 in field 5: the slice stops at
      the end of the bytes received and the parse still returns 3. */
  lemma LegacyOverAnnouncedCount()
    ensures LegacyParse(KickHeader(70) + EncodeUtf16Be(Join(["\U{a7}1", "127", "1.8", "motd", "3", "20"], '\0'))) == 3
  {
    var fields := ["\U{a7}1", "127", "1.8", "motd", "3", "20"];
    assert forall i :: 0 <= i < |fields| ==> '\0' !in fields[i];
    assert ParseInt(fields[4]) == Some(3) by { ParseShowNat(3); assert ShowNat(3) == "3"; }
    assert ParseInt(fields[5]) == Some(20) by { ParseShowNat(20); assert ShowNat(20) == "20"; }
    assert |Join(fields, '\0')| == 20;
    LegacyParseAnnounced(fields, 70);
  }

  /** The parser reads back the player count a server announces: for fields
      `[marker, protocol, version, motd, players]` with an optional sixth
      numeric field (max players), none holding NUL, the result is `players`. */
  lemma LegacyRoundTrip(fields: seq<string>, players: nat)
    requires |fields| >= 5
    requires forall i :: 0 <= i < |fields| ==> '\0' !in fields[i]
    requires fields[4] == ShowNat(players)
    requires |fields| > 5 ==> ParseInt(fields[5]).Some?
    requires |EncodeUtf16Be(Join(fields, '\0'))| / 2 < 65536
    ensures LegacyParse(KickPacket(Join(fields, '\0'))) == players
  {
    LegacyParseFields(fields);
    ParseShowNat(players);
  }

  /** Packet bytes `FF 00 05` followed by the UTF-16BE text "12345": the
      text has no NUL, so there is a single field and the parse fails. */
  lemma LegacySingleFieldRejected()
    ensures LegacyParse([0xFF, 0x00, 0x05, 0x00, 0x31, 0x00, 0x32, 0x00, 0x33, 0x00, 0x34, 0x00, 0x35]) == -1
  {
    var r: seq<byte> := [0xFF, 0x00, 0x05, 0x00, 0x31, 0x00, 0x32, 0x00, 0x33, 0x00, 0x34, 0x00, 0x35];
    assert Slice(r, 3, 13) == EncodeUtf16Be("12345");
    Utf16RoundTrip("12345");
    assert FirstIndex("12345", '\0') == -1;
  }

  /** try_legacy_protocol: send `FE 01` and parse what one `recv(1024)`
      returns. `tcp` gives what the successive reads return, or None when
      connecting or sending fails; an empty list is a receive timeout. */
  function LegacyAttempt(tcp: seq<byte> -> Option<seq<Received>>): (r: int)
    ensures r != -1 ==>
      && tcp(LegacyPing).Some? && |tcp(LegacyPing).value| > 0
      && |tcp(LegacyPing).value[0]| >= 3 && tcp(LegacyPing).value[0][0] == KickMarker
  {
    match tcp(LegacyPing)
    case None => -1
    case Some(chunks) => if |chunks| == 0 then -1 else LegacyParse(chunks[0])
  }

  /** The attempt writes exactly `FE 01`; a failed connect or send, or a
      timeout before any data, gives -1; otherwise the result is the parse
      of what the first read returned. */
  lemma LegacyAttemptSteps(tcp: seq<byte> -> Option<seq<Received>>)
    ensures LegacyPing == [0xFE, 0x01]
    ensures tcp(LegacyPing).None? || tcp(LegacyPing).value == [] ==> LegacyAttempt(tcp) == -1
    ensures tcp(LegacyPing).Some? && tcp(LegacyPing).value != [] ==>
      LegacyAttempt(tcp) == LegacyParse(tcp(LegacyPing).value[0])
  {
  }
}
