/** The GameSpy4-style Query protocol over UDP (function_app.py,
    try_query_protocol): a handshake datagram fetches a challenge token,
    a basic-stat datagram carrying that token fetches NUL-separated fields. */
module QueryStatus {
  import opened Common

  /** Magic `0xFEFD` packed as a big-endian u16. */
  const QueryMagic: seq<byte> := [0xFE, 0xFD]
  /** Packet types. */
  const HandshakeType: byte := 0x09
  const StatType: byte := 0x00
  /** Session id 1 packed as a big-endian u32. */
  const SessionId: seq<byte> := [0x00, 0x00, 0x00, 0x01]
  /** Replies carry one type byte and the 4-byte session id before their payload. */
  const ReplyHeaderLength: nat := 5

  /** The handshake datagram. */
  function HandshakePacket(): seq<byte>
  {
    QueryMagic + [HandshakeType] + SessionId
  }

  /** The basic-stat datagram carrying `token`. */
  function StatRequest(token: seq<byte>): seq<byte>
  {
    QueryMagic + [StatType] + SessionId + token
  }

  /** The handshake datagram is exactly `FE FD 09 00 00 00 01`, and the stat
      datagram is `FE FD 00 00 00 00 01` followed by the token unchanged. */
  lemma QueryPacketLayout(token: seq<byte>)
    ensures HandshakePacket() == [0xFE, 0xFD, 0x09, 0x00, 0x00, 0x00, 0x01]
    ensures |StatRequest(token)| == 7 + |token|
    ensures StatRequest(token)[..7] == [0xFE, 0xFD, 0x00, 0x00, 0x00, 0x00, 0x01]
    ensures StatRequest(token)[7..] == token
  {
  }

  function TrimLeadingNul(s: seq<byte>): (r: seq<byte>)
    ensures |r| <= |s| && r == s[|s| - |r|..]
    ensures r == [] || r[0] != 0
    ensures forall i :: 0 <= i < |s| - |r| ==> s[i] == 0
  {
    if |s| > 0 && s[0] == 0 then TrimLeadingNul(s[1..]) else s
  }

  function TrimTrailingNul(s: seq<byte>): (r: seq<byte>)
    ensures |r| <= |s| && r == s[..|r|]
    ensures r == [] || r[|r| - 1] != 0
    ensures forall i :: |r| <= i < |s| ==> s[i] == 0
  {
    if |s| > 0 && s[|s| - 1] == 0 then TrimTrailingNul(s[..|s| - 1]) else s
  }

  /** `s.strip(b'\x00')`: `s` without its leading and trailing NUL bytes.
      The result is a slice of `s` that neither starts nor ends with NUL,
      and everything cut off is NUL. */
  function StripNul(s: seq<byte>): (r: seq<byte>)
    ensures |r| <= |s|
    ensures r == [] || (r[0] != 0 && r[|r| - 1] != 0)
    ensures exists i, j :: 0 <= i <= j <= |s| && r == s[i..j]
              && (forall k :: 0 <= k < i ==> s[k] == 0) && (forall k :: j <= k < |s| ==> s[k] == 0)
  {
    var t := TrimLeadingNul(s);
    var r := TrimTrailingNul(t);
    var i := |s| - |t|;
    assert r == s[i..i + |r|];
    r
  }

  /** The challenge token in a handshake reply: None for a reply under
      5 bytes, otherwise the payload after the header, NUL-stripped. */
  function ChallengeToken(reply: seq<byte>): (r: Option<seq<byte>>)
    ensures r.None? <==> |reply| < ReplyHeaderLength
    ensures r.Some? ==> |r.value| <= |reply| - ReplyHeaderLength
    ensures r.Some? && r.value != [] ==> r.value[0] != 0 && r.value[|r.value| - 1] != 0
  {
    if |reply| < ReplyHeaderLength then None else Some(StripNul(reply[ReplyHeaderLength..]))
  }

  /** A server's handshake reply — type, session id, the token text and its
      NUL terminator — gives back exactly the token text, which is then sent
      unchanged after the stat header. */
  lemma TokenEchoed(header: seq<byte>, token: seq<byte>)
    requires |header| == 5
    requires token != [] && 0 !in token
    ensures ChallengeToken(header + token + [0]) == Some(token)
    ensures StatRequest(ChallengeToken(header + token + [0]).value)[7..] == token
  {
    var reply := header + token + [0];
    assert reply[5..] == token + [0];
    assert TrimLeadingNul(token + [0]) == token + [0];
    assert (token + [0])[..|token|] == token;
    assert token[|token| - 1] in token;
    assert TrimTrailingNul(token) == token;
  }

  /** The basic-stat parse as written (function_app.py:243-256): -1 unless
      the reply is longer than 5 bytes and its payload splits on NUL into at
      least six fields; then field 4 as a decimal number, provided field 5 is
      a decimal number too. */
  function ParseBasicStat(reply: seq<byte>): (r: int)
    ensures r != -1 ==>
      && |reply| > ReplyHeaderLength
      && var data := Split(reply[ReplyHeaderLength..], 0);
         |data| >= 6 && ParseIntBytes(data[4]) == Some(r) && ParseIntBytes(data[5]).Some?
  {
    if |reply| <= ReplyHeaderLength then -1
    else
      var data := Split(reply[ReplyHeaderLength..], 0);
      if |data| < 6 then -1
      else
        match ParseIntBytes(data[4])
        case None => -1
        case Some(current) => if ParseIntBytes(data[5]).None? then -1 else current
  }

  /** On a payload of NUL-free fields the parser reads fields 4 and 5. */
  lemma ParseJoinedFields(header: seq<byte>, fields: seq<seq<byte>>)
    requires |header| == 5 && |fields| >= 6
    requires forall i :: 0 <= i < |fields| ==> 0 !in fields[i]
    ensures ParseBasicStat(header + Join(fields, 0)) ==
      if ParseIntBytes(fields[4]).Some? && ParseIntBytes(fields[5]).Some? then ParseIntBytes(fields[4]).value else -1
  {
    var reply := header + Join(fields, 0);
    assert reply[5..] == Join(fields, 0);
    SplitJoin(fields, 0);
  }

  /** What the parser reads: after the 5-byte header, the first four
      NUL-terminated fields are skipped, the fifth (index 4) is the result,
      and the sixth must be a number as well; later fields are free. */
  lemma BasicStatReadsFieldFour(header: seq<byte>, fields: seq<seq<byte>>, current: nat)
    requires |header| == 5 && |fields| >= 6
    requires forall i :: 0 <= i < |fields| ==> 0 !in fields[i]
    requires fields[4] == AsciiBytes(ShowNat(current)) && ParseIntBytes(fields[5]).Some?
    ensures ParseBasicStat(header + Join(fields, 0)) == current
  {
    ParseIntBytesShowNat(current);
    ParseJoinedFields(header, fields);
  }

  /** On a reply laid out as the comment at function_app.py:242 describes
      (motd, gametype, map, numplayers, maxplayers, then the host port and
      host address), the payload field at index 4 is maxplayers: the parse
      reports maxplayers or fails, and never reports numplayers unless the
      two are equal. */
  lemma CommentLayoutReadsMaxPlayers(header: seq<byte>, fields: seq<seq<byte>>, numPlayers: nat, maxPlayers: nat)
    requires |header| == 5 && |fields| >= 6
    requires forall i :: 0 <= i < |fields| ==> 0 !in fields[i]
    requires fields[3] == AsciiBytes(ShowNat(numPlayers)) && fields[4] == AsciiBytes(ShowNat(maxPlayers))
    ensures var r := ParseBasicStat(header + Join(fields, 0));
            (r == maxPlayers || r == -1) && (r == numPlayers ==> numPlayers == maxPlayers)
  {
    ParseIntBytesShowNat(maxPlayers);
    ParseJoinedFields(header, fields);
  }

  /** try_query_protocol: `udp` answers a datagram with what
      `recvfrom(1024)` returns (the reply cut to 1024 bytes), or None on a
      socket error or timeout. */
  function QueryAttempt(udp: seq<byte> -> Option<Received>): (r: int)
    ensures r != -1 ==>
      && udp(HandshakePacket()).Some? && |udp(HandshakePacket()).value| >= ReplyHeaderLength
      && exists token :: udp(StatRequest(token)).Some? && ParseBasicStat(udp(StatRequest(token)).value) == r
  {
    match udp(HandshakePacket())
    case None => -1
    case Some(first) =>
      match ChallengeToken(first)
      case None => -1
      case Some(token) =>
        match udp(StatRequest(token))
        case None => -1
        case Some(second) => ParseBasicStat(second)
  }

  /** The exchange fails on a missing or short handshake reply; otherwise the
      stat datagram carries the stripped token and its reply decides. */
  lemma QueryAttemptSteps(udp: seq<byte> -> Option<Received>)
    ensures udp(HandshakePacket()).None? ==> QueryAttempt(udp) == -1
    ensures udp(HandshakePacket()).Some? && |udp(HandshakePacket()).value| < 5 ==> QueryAttempt(udp) == -1
    ensures udp(HandshakePacket()).Some? && |udp(HandshakePacket()).value| >= 5 ==>
      var token := StripNul(udp(HandshakePacket()).value[5..]);
      QueryAttempt(udp) == (if udp(StatRequest(token)).None? then -1 else ParseBasicStat(udp(StatRequest(token)).value))
  {
  }

  /** A server that echoes a fixed token and then answers the stat request
      with `3` in field 4 and `20` in field 5 is read as 3 players. */
  lemma QueryReadsThree(udp: seq<byte> -> Option<Received>, header: seq<byte>, token: seq<byte>,
                        statHeader: seq<byte>, fields: seq<seq<byte>>)
    requires |header| == 5 && token != [] && 0 !in token
    requires udp(HandshakePacket()).Some? && udp(HandshakePacket()).value == header + token + [0]
    requires |statHeader| == 5 && |fields| == 6 && forall i :: 0 <= i < 6 ==> 0 !in fields[i]
    requires fields[4] == AsciiBytes(ShowNat(3)) && fields[5] == AsciiBytes(ShowNat(20))
    requires udp(StatRequest(token)).Some? && udp(StatRequest(token)).value == statHeader + Join(fields, 0)
    ensures QueryAttempt(udp) == 3
  {
    TokenEchoed(header, token);
    ParseIntBytesShowNat(20);
    BasicStatReadsFieldFour(statHeader, fields, 3);
  }
}
