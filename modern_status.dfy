/** The modern Server List Ping over TCP (function_app.py, try_modern_protocol):
    a handshake packet followed by a status request, then a response read in
    chunks until a `{...}` JSON payload can be sliced out of what has arrived. */
module ModernStatus {
  import opened Common

  /** Protocol version 47 (Minecraft 1.8) announced in the handshake. */
  const ProtocolVersion: byte := 47
  /** Handshake packet id; the status request reuses id 0x00. */
  const HandshakeId: byte := 0x00
  /** "Next state" field of the handshake: 1 = status. */
  const NextStateStatus: byte := 1
  /** The status request: length byte 1, packet id 0x00. */
  const StatusRequest: seq<byte> := [0x01, 0x00]

  /** The reading loop stops once the buffer holds this many bytes. */
  const ReadCap: nat := 4096
  /** A parse is attempted only once the buffer is longer than this. */
  const MinParseLength: nat := 10

  const OpenBrace: byte := 0x7B   // '{'
  const CloseBrace: byte := 0x7D  // '}'

  /** The handshake packet for server address `addr` (UTF-8 bytes of the
      host) and `port`. Every field is packed with `struct.pack('B')` or
      `struct.pack('>H')`, which raise for values out of range; such a
      failure aborts the whole method, modelled as None. */
  function EncodeHandshake(addr: seq<byte>, port: int): (r: Option<seq<byte>>)
    ensures r.Some? <==> |addr| <= 249 && 0 <= port <= 65535
    ensures r.Some? ==> |r.value| == |addr| + 7 && r.value[0] as int == |addr| + 6
  {
    // 'B' on the address length (<= 255), '>H' on the port, then 'B' on the
    // packet length |addr| + 6 (<= 255): the last bound implies the first.
    if |addr| + 6 > 255 || !(0 <= port < 65536) then None
    else
      var body := [HandshakeId, ProtocolVersion, |addr| as byte] + addr
                  + [(port / 256) as byte, (port % 256) as byte, NextStateStatus];
      Some([|body| as byte] + body)
  }

  /** Reads a handshake packet back into the address and port it carries:
      the inverse of EncodeHandshake. */
  function DecodeHandshake(h: seq<byte>): Option<(seq<byte>, int)>
  {
    if |h| < 7 || h[0] as int != |h| - 1 || h[1] != HandshakeId || h[2] != ProtocolVersion
       || h[3] as int != |h| - 7 || h[|h| - 1] != NextStateStatus
    then None
    else
      var n := |h| - 7;
      Some((h[4..4 + n], h[4 + n] as int * 256 + h[5 + n] as int))
  }

  /** The handshake can be built exactly when the address fits the one-byte
      packet length and the port fits sixteen bits; its layout is then
      `[|addr|+6, 0x00, 47, |addr|] ++ addr ++ [port/256, port%256, 0x01]`. */
  lemma HandshakeLayout(addr: seq<byte>, port: int)
    ensures EncodeHandshake(addr, port).Some? <==> |addr| <= 249 && 0 <= port <= 65535
    ensures EncodeHandshake(addr, port).Some? ==>
      var h := EncodeHandshake(addr, port).value;
      && |h| == |addr| + 7
      && h[0] as int == |addr| + 6
      && h[1] == 0x00 && h[2] == 47 && h[3] as int == |addr|
      && h[4..4 + |addr|] == addr
      && h[4 + |addr|] as int * 256 + h[5 + |addr|] as int == port
      && h[6 + |addr|] == 0x01
  {
  }

  /** Decoding an encoded handshake gives back the address and port. */
  lemma HandshakeRoundTrip(addr: seq<byte>, port: int)
    requires EncodeHandshake(addr, port).Some?
    ensures DecodeHandshake(EncodeHandshake(addr, port).value) == Some((addr, port))
  {
    var h := EncodeHandshake(addr, port).value;
    assert h[4..4 + |addr|] == addr;
  }

  /** Every packet the decoder accepts is the encoding of what it returns,
      so the encoding is canonical: no two (address, port) pairs share one. */
  lemma HandshakeDecodedIsEncoded(h: seq<byte>)
    requires DecodeHandshake(h).Some?
    ensures EncodeHandshake(DecodeHandshake(h).value.0, DecodeHandshake(h).value.1) == Some(h)
  {
    var n := |h| - 7;
    var (addr, port) := DecodeHandshake(h).value;
    var hi, lo := h[4 + n] as int, h[5 + n] as int;
    assert port == hi * 256 + lo;
    assert port / 256 == hi && port % 256 == lo;
    var e := EncodeHandshake(addr, port).value;
    assert |e| == |h|;
    forall i | 0 <= i < |h| ensures e[i] == h[i] {
      if 4 <= i < 4 + n { assert e[i] == addr[i - 4]; }
    }
    assert e == h;
  }

  // ---------------------------------------------------------------------
  // The response scan.

  /** What `json.loads` followed by `.get('players', {}).get('online', 0)`
      makes of the sliced payload: either it fails (bad JSON, bad UTF-8 or a
      `players` value that is not an object) or it yields the `online`
      field, which may be absent. */
  datatype StatusJson = Unparseable | Status(online: Option<int>)

  /** `n` is what the status JSON of some payload `p` reports. */
  predicate ReportedBy(json: seq<byte> -> StatusJson, p: seq<byte>, n: int)
  {
    json(p).Status? && json(p).online.GetOr(0) == n
  }

  /** One parse attempt on the buffer accumulated so far: only when it is
      longer than 10 bytes, on the slice from the first `{` through the last
      `}`, and only when that `}` lies after the `{`. */
  function AttemptParse(buf: seq<byte>, json: seq<byte> -> StatusJson): (r: Option<int>)
    ensures r.Some? <==>
      && |buf| > MinParseLength
      && 0 <= FirstIndex(buf, OpenBrace) < LastIndex(buf, CloseBrace)
      && json(buf[FirstIndex(buf, OpenBrace)..LastIndex(buf, CloseBrace) + 1]).Status?
    ensures r.Some? ==>
      r.value == json(buf[FirstIndex(buf, OpenBrace)..LastIndex(buf, CloseBrace) + 1]).online.GetOr(0)
  {
    if |buf| <= MinParseLength then None
    else
      var s := FirstIndex(buf, OpenBrace);
      if s < 0 then None
      else
        var e := LastIndex(buf, CloseBrace);
        if e <= s then None
        else
          match json(buf[s..e + 1])
          case Unparseable => None
          case Status(online) => Some(online.GetOr(0))
  }

  /** The outcome of the reading loop, given what it has buffered and the
      chunks still to come (what the successive `recv(1024)` calls return,
      so at most RecvSize bytes each through ModernAttempt; the end of the
      list is a receive timeout). -1 reports that the method failed. */
  function ScanFrom(buf: seq<byte>, chunks: seq<seq<byte>>, json: seq<byte> -> StatusJson): (r: int)
    ensures r != -1 ==> |buf| < ReadCap && |chunks| > 0 && exists p :: ReportedBy(json, p, r)
    decreases |chunks|
  {
    if |buf| >= ReadCap then -1
    else if |chunks| == 0 then -1
    else if |chunks[0]| == 0 then -1
    else
      var next := buf + chunks[0];
      match AttemptParse(next, json)
      case Some(n) =>
        assert ReportedBy(json, next[FirstIndex(next, OpenBrace)..LastIndex(next, CloseBrace) + 1], n);
        n
      case None => ScanFrom(next, chunks[1..], json)
  }

  /** The response scan from an empty buffer. */
  function ModernScan(chunks: seq<seq<byte>>, json: seq<byte> -> StatusJson): int
  {
    ScanFrom([], chunks, json)
  }

  /** The reading loop of try_modern_protocol, step by step. */
  method ReadStatusResponse(chunks: seq<seq<byte>>, json: seq<byte> -> StatusJson) returns (count: int)
    ensures count == ModernScan(chunks, json)
  {
    var responseData: seq<byte> := [];
    var i := 0;
    while |responseData| < ReadCap
      invariant 0 <= i <= |chunks|
      invariant ScanFrom(responseData, chunks[i..], json) == ModernScan(chunks, json)
      decreases |chunks| - i
    {
      if i == |chunks| {
        // socket.timeout: leave the loop
        assert chunks[i..] == [];
        return -1;
      }
      var chunk := chunks[i];
      assert chunks[i..][0] == chunk && chunks[i..][1..] == chunks[i + 1..];
      i := i + 1;
      if |chunk| == 0 {
        break;
      }
      responseData := responseData + chunk;
      if |responseData| > MinParseLength {
        var jsonStart := FirstIndex(responseData, OpenBrace);
        if jsonStart >= 0 {
          var jsonEnd := LastIndex(responseData, CloseBrace);
          if jsonEnd > jsonStart {
            match json(responseData[jsonStart..jsonEnd + 1]) {
              case Unparseable =>
              case Status(online) =>
                return online.GetOr(0);
            }
          }
        }
      }
    }
    return -1;
  }

  /** Concatenation of the chunks. */
  function Flatten(chunks: seq<seq<byte>>): seq<byte>
  {
    if |chunks| == 0 then [] else chunks[0] + Flatten(chunks[1..])
  }

  /** The buffer after the first `n` reads. */
  function BufferAfter(buf: seq<byte>, chunks: seq<seq<byte>>, n: nat): seq<byte>
    requires n <= |chunks|
  {
    buf + Flatten(chunks[..n])
  }

  /** The buffer after `n` reads is the buffer after the first read
      followed by the next `n - 1`. */
  lemma BufferAfterFirstRead(buf: seq<byte>, chunks: seq<seq<byte>>, n: nat)
    requires 1 <= n <= |chunks|
    ensures BufferAfter(buf, chunks, n) == BufferAfter(buf + chunks[0], chunks[1..], n - 1)
  {
    assert chunks[..n][1..] == chunks[1..][..n - 1];
  }

  /** The scan stops with `r` at read `k`: every read up to it returned
      bytes and began with the buffer under the cap, no parse attempt before
      it succeeded, and the attempt on everything received through read `k`
      yields `r`. */
  predicate FirstParseAt(buf: seq<byte>, chunks: seq<seq<byte>>, json: seq<byte> -> StatusJson, k: nat, r: int)
  {
    && k < |chunks|
    && AttemptParse(BufferAfter(buf, chunks, k + 1), json) == Some(r)
    && (forall j :: 0 <= j <= k ==> |chunks[j]| > 0)
    && (forall j :: 0 <= j <= k ==> |BufferAfter(buf, chunks, j)| < ReadCap)
    && (forall j :: 1 <= j <= k ==> AttemptParse(BufferAfter(buf, chunks, j), json).None?)
  }

  /** A count the scan reports is the parse of the bytes received through
      the first read after which a parse attempt succeeds. */
  lemma {:induction false} ScanFindsFirstParse(buf: seq<byte>, chunks: seq<seq<byte>>, json: seq<byte> -> StatusJson)
    ensures ScanFrom(buf, chunks, json) != -1 ==>
      exists k :: FirstParseAt(buf, chunks, json, k, ScanFrom(buf, chunks, json))
    decreases |chunks|
  {
    var r := ScanFrom(buf, chunks, json);
    if r != -1 {
      assert |buf| < ReadCap && |chunks| > 0 && |chunks[0]| > 0;
      var next := buf + chunks[0];
      assert BufferAfter(buf, chunks, 0) == buf by { assert chunks[..0] == []; }
      assert BufferAfter(buf, chunks, 1) == next by {
        assert chunks[..1] == [chunks[0]];
        assert Flatten([chunks[0]]) == chunks[0] + Flatten([]);
      }
      if AttemptParse(next, json).Some? {
        assert r == AttemptParse(next, json).value;
        assert FirstParseAt(buf, chunks, json, 0, r);
      } else {
        assert r == ScanFrom(next, chunks[1..], json);
        ScanFindsFirstParse(next, chunks[1..], json);
        var k: nat :| FirstParseAt(next, chunks[1..], json, k, r);
        FirstParseShift(buf, chunks, json, k, r);
      }
    }
  }

  /** A first parse at read `k` after the first read is a first parse at
      read `k + 1` when the first read returned bytes under the cap and
      did not parse. */
  lemma FirstParseShift(buf: seq<byte>, chunks: seq<seq<byte>>, json: seq<byte> -> StatusJson, k: nat, r: int)
    requires |chunks| > 0 && |chunks[0]| > 0 && |buf| < ReadCap
    requires BufferAfter(buf, chunks, 0) == buf && BufferAfter(buf, chunks, 1) == buf + chunks[0]
    requires AttemptParse(buf + chunks[0], json).None?
    requires FirstParseAt(buf + chunks[0], chunks[1..], json, k, r)
    ensures FirstParseAt(buf, chunks, json, k + 1, r)
  {
    var next := buf + chunks[0];
    BufferAfterFirstRead(buf, chunks, k + 2);
    forall j | 1 <= j <= k + 1
      ensures |chunks[j]| > 0
      ensures BufferAfter(buf, chunks, j) == BufferAfter(next, chunks[1..], j - 1)
    {
      assert chunks[j] == chunks[1..][j - 1];
      BufferAfterFirstRead(buf, chunks, j);
    }
    forall j | 2 <= j <= k + 1
      ensures AttemptParse(BufferAfter(buf, chunks, j), json).None?
    {
      assert AttemptParse(BufferAfter(next, chunks[1..], j - 1), json).None?;
    }
  }

  /** The converse of ScanFindsFirstParse: however the response is split
      into reads, the first parse reached within the cap is what the scan
      reports. */
  lemma {:induction false} FirstParseIsFound(buf: seq<byte>, chunks: seq<seq<byte>>, json: seq<byte> -> StatusJson, k: nat, r: int)
    requires FirstParseAt(buf, chunks, json, k, r)
    ensures ScanFrom(buf, chunks, json) == r
    decreases k
  {
    assert BufferAfter(buf, chunks, 0) == buf by { assert chunks[..0] == []; }
    assert |buf| < ReadCap && |chunks[0]| > 0;
    var next := buf + chunks[0];
    assert BufferAfter(buf, chunks, 1) == next by {
      assert chunks[..1] == [chunks[0]];
      assert Flatten([chunks[0]]) == chunks[0] + Flatten([]);
    }
    if k == 0 {
      assert AttemptParse(next, json) == Some(r);
    } else {
      assert AttemptParse(next, json).None?;
      FirstParseUnshift(buf, chunks, json, k, r);
      FirstParseIsFound(next, chunks[1..], json, k - 1, r);
    }
  }

  /** A first parse at read `k >= 1` is a first parse at read `k - 1` of
      the scan that starts after the first read. */
  lemma FirstParseUnshift(buf: seq<byte>, chunks: seq<seq<byte>>, json: seq<byte> -> StatusJson, k: nat, r: int)
    requires 1 <= k && FirstParseAt(buf, chunks, json, k, r)
    ensures FirstParseAt(buf + chunks[0], chunks[1..], json, k - 1, r)
  {
    var next := buf + chunks[0];
    BufferAfterFirstRead(buf, chunks, k + 1);
    forall j | 0 <= j <= k - 1
      ensures |chunks[1..][j]| > 0
      ensures BufferAfter(next, chunks[1..], j) == BufferAfter(buf, chunks, j + 1)
    {
      assert chunks[1..][j] == chunks[j + 1];
      BufferAfterFirstRead(buf, chunks, j + 1);
    }
  }

  /** Nothing is parsed from a response of ten bytes or fewer, however it is split. */
  lemma {:induction false} ShortResponseFails(buf: seq<byte>, chunks: seq<seq<byte>>, json: seq<byte> -> StatusJson)
    requires |buf| + |Flatten(chunks)| <= MinParseLength
    ensures ScanFrom(buf, chunks, json) == -1
    decreases |chunks|
  {
    if |chunks| > 0 && |chunks[0]| > 0 {
      ShortResponseFails(buf + chunks[0], chunks[1..], json);
    }
  }

  /** An empty chunk (the peer closed the connection) ends the read: what
      would have come after it is never looked at. */
  lemma {:induction false} EmptyChunkEndsRead(buf: seq<byte>, before: seq<seq<byte>>, after1: seq<seq<byte>>,
                                              after2: seq<seq<byte>>, json: seq<byte> -> StatusJson)
    ensures ScanFrom(buf, before + [[]] + after1, json) == ScanFrom(buf, before + [[]] + after2, json)
    decreases |before|
  {
    var c1, c2 := before + [[]] + after1, before + [[]] + after2;
    if |before| > 0 {
      assert c1[0] == before[0] && c2[0] == before[0];
      assert c1[1..] == before[1..] + [[]] + after1;
      assert c2[1..] == before[1..] + [[]] + after2;
      EmptyChunkEndsRead(buf + before[0], before[1..], after1, after2, json);
    }
  }

  /** Once 4096 bytes have been buffered no further chunk is read. */
  lemma {:induction false} ReadStopsAtCap(buf: seq<byte>, before: seq<seq<byte>>, after1: seq<seq<byte>>,
                                          after2: seq<seq<byte>>, json: seq<byte> -> StatusJson)
    requires |buf| + |Flatten(before)| >= ReadCap
    ensures ScanFrom(buf, before + after1, json) == ScanFrom(buf, before + after2, json)
    decreases |before|
  {
    var c1, c2 := before + after1, before + after2;
    if |before| > 0 && |buf| < ReadCap {
      assert c1[0] == before[0] && c2[0] == before[0];
      assert c1[1..] == before[1..] + after1;
      assert c2[1..] == before[1..] + after2;
      ReadStopsAtCap(buf + before[0], before[1..], after1, after2, json);
    }
  }

  /** A well-formed status frame that arrives in one read is read: a
      header without `{` followed by a JSON object whose `players.online`
      is reported, or 0 when the object has no such field. */
  lemma WholeFrameIsRead(header: seq<byte>, payload: seq<byte>, rest: seq<seq<byte>>, json: seq<byte> -> StatusJson)
    requires OpenBrace !in header
    requires |payload| >= 2 && payload[0] == OpenBrace && payload[|payload| - 1] == CloseBrace
    requires MinParseLength < |header| + |payload| <= RecvSize
    requires json(payload).Status?
    ensures ModernScan([header + payload] + rest, json) == json(payload).online.GetOr(0)
  {
    var frame := header + payload;
    assert frame == header + [OpenBrace] + payload[1..];
    FirstIndexAfterSeparatorFree(header, OpenBrace, payload[1..]);
    assert LastIndex(frame, CloseBrace) == |frame| - 1;
    assert frame[|header|..|frame|] == payload;
    assert AttemptParse(frame, json) == Some(json(payload).online.GetOr(0));
    var chunks := [frame] + rest;
    assert chunks[0] == frame && [] + frame == frame;
  }

  /** try_modern_protocol as a whole: build the handshake, send it and the
      status request on the TCP stream, and scan what comes back. `tcp`
      gives what the successive `recv(1024)` calls return in answer to the
      bytes written, or None when connecting or sending fails. */
  function ModernAttempt(addr: seq<byte>, port: int, tcp: seq<byte> -> Option<seq<Received>>,
                         json: seq<byte> -> StatusJson): (r: int)
    ensures r != -1 ==> |addr| <= 249 && 0 <= port <= 65535 && exists p :: ReportedBy(json, p, r)
  {
    match EncodeHandshake(addr, port)
    case None => -1
    case Some(h) =>
      match tcp(h + StatusRequest)
      case None => -1
      case Some(chunks) => ModernScan(chunks, json)
  }

  /** The stream written is the handshake (|addr| + 7 bytes) followed by
      exactly `01 00`; an address over 249 bytes or a port outside sixteen
      bits makes the method fail before anything is sent. */
  lemma ModernAttemptSends(addr: seq<byte>, port: int, tcp: seq<byte> -> Option<seq<Received>>,
                           json: seq<byte> -> StatusJson)
    ensures !(|addr| <= 249 && 0 <= port <= 65535) ==> ModernAttempt(addr, port, tcp, json) == -1
    ensures |addr| <= 249 && 0 <= port <= 65535 ==>
      var stream := EncodeHandshake(addr, port).value + StatusRequest;
      && |stream| == |addr| + 9
      && stream[|addr| + 7..] == [0x01, 0x00]
      && ModernAttempt(addr, port, tcp, json) == (if tcp(stream).None? then -1 else ModernScan(tcp(stream).value, json))
  {
  }
}
