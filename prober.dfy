/** get_minecraft_player_count (function_app.py:33-61): a reachability check,
    then the modern, legacy and query methods in that order; the first count
    that is not negative wins and the methods after it are never run. */
module Prober {
  import opened Common
  import opened ModernStatus
  import opened LegacyStatus
  import opened QueryStatus

  /** The game server as the prober sees it. `portOpen` is the result of
      test_port_connection; `tcp` gives what the successive `recv(1024)`
      calls return in answer to the bytes written on a fresh connection
      (None when connecting fails); `udp` gives what `recvfrom(1024)`
      returns for one datagram sent: the reply cut to its first 1024 bytes
      (None on timeout). */
  datatype GameServer = GameServer(
    portOpen: bool,
    tcp: seq<byte> -> Option<seq<Received>>,
    udp: seq<byte> -> Option<Received>)

  datatype ProbeMethod = Modern | Legacy | Query

  /** The player count (-1 when unknown) and the methods run, in order. */
  datatype ProbeReport = ProbeReport(count: int, tried: seq<ProbeMethod>)

  /** What one method reports on its own; a negative value is a failure. */
  function Outcome(m: ProbeMethod, addr: seq<byte>, port: int, server: GameServer,
                   json: seq<byte> -> StatusJson): int
  {
    match m
    case Modern => ModernAttempt(addr, port, server.tcp, json)
    case Legacy => LegacyAttempt(server.tcp)
    case Query => QueryAttempt(server.udp)
  }

  /** The order in which the methods are tried. */
  const MethodOrder: seq<ProbeMethod> := [Modern, Legacy, Query]

  /** get_minecraft_player_count: a closed port runs no method; otherwise
      the methods run in order, and the count is -1 or a count that one of
      them reported. */
  function Probe(addr: seq<byte>, port: int, server: GameServer, json: seq<byte> -> StatusJson): (r: ProbeReport)
    ensures r.count >= -1
    ensures |r.tried| <= |MethodOrder| && r.tried == MethodOrder[..|r.tried|]
    ensures !server.portOpen ==> r == ProbeReport(-1, [])
    ensures r.count >= 0 ==> |r.tried| > 0 && r.count == Outcome(r.tried[|r.tried| - 1], addr, port, server, json)
  {
    if !server.portOpen then ProbeReport(-1, [])
    else
      var modern := ModernAttempt(addr, port, server.tcp, json);
      if modern >= 0 then ProbeReport(modern, [Modern])
      else
        var legacy := LegacyAttempt(server.tcp);
        if legacy >= 0 then ProbeReport(legacy, [Modern, Legacy])
        else
          var query := QueryAttempt(server.udp);
          if query >= 0 then ProbeReport(query, [Modern, Legacy, Query])
          else ProbeReport(-1, [Modern, Legacy, Query])
  }

  /** An independent statement of the short-circuit: run `methods` in turn
      and stop at the first one whose outcome is not negative. */
  function FirstSuccess(methods: seq<ProbeMethod>, addr: seq<byte>, port: int, server: GameServer,
                        json: seq<byte> -> StatusJson): ProbeReport
  {
    if |methods| == 0 then ProbeReport(-1, [])
    else
      var c := Outcome(methods[0], addr, port, server, json);
      if c >= 0 then ProbeReport(c, [methods[0]])
      else
        var rest := FirstSuccess(methods[1..], addr, port, server, json);
        ProbeReport(rest.count, [methods[0]] + rest.tried)
  }

  /** The general short-circuit: the methods run form a prefix of the list;
      every one but the last failed; the count is the last one's outcome
      when that succeeded and -1 otherwise, and -1 only when every method
      run failed and the whole list was run. */
  lemma {:induction false} FirstSuccessIsShortCircuit(methods: seq<ProbeMethod>, addr: seq<byte>, port: int,
                                                     server: GameServer, json: seq<byte> -> StatusJson)
    ensures var r := FirstSuccess(methods, addr, port, server, json);
      && |r.tried| <= |methods| && r.tried == methods[..|r.tried|]
      && r.count >= -1
      && (forall i :: 0 <= i < |r.tried| - 1 ==> Outcome(r.tried[i], addr, port, server, json) < 0)
      && (r.count >= 0 <==> |r.tried| > 0 && Outcome(r.tried[|r.tried| - 1], addr, port, server, json) >= 0)
      && (r.count >= 0 ==> r.count == Outcome(r.tried[|r.tried| - 1], addr, port, server, json))
      && (r.count < 0 ==> r.tried == methods && forall i :: 0 <= i < |methods| ==> Outcome(methods[i], addr, port, server, json) < 0)
    decreases |methods|
  {
    if |methods| > 0 {
      var c := Outcome(methods[0], addr, port, server, json);
      var r := FirstSuccess(methods, addr, port, server, json);
      if c >= 0 {
        assert r == ProbeReport(c, [methods[0]]);
        assert methods[..1] == [methods[0]];
      } else {
        FirstSuccessIsShortCircuit(methods[1..], addr, port, server, json);
        var rest := FirstSuccess(methods[1..], addr, port, server, json);
        assert r == ProbeReport(rest.count, [methods[0]] + rest.tried);
        assert r.tried[0] == methods[0];
        assert forall i :: 1 <= i < |r.tried| ==> r.tried[i] == rest.tried[i - 1];
        assert r.tried == methods[..|r.tried|] by {
          assert methods[..|r.tried|] == [methods[0]] + methods[1..][..|rest.tried|];
        }
        assert r.tried[|r.tried| - 1] == if |rest.tried| > 0 then rest.tried[|rest.tried| - 1] else methods[0];
        assert rest.count < 0 ==> methods == [methods[0]] + methods[1..];
      }
    }
  }

  /** The prober is that short-circuit over modern, legacy, query, behind
      the reachability check: an unreachable port reports -1 and runs no
      method at all. */
  lemma ProbeIsFirstSuccess(addr: seq<byte>, port: int, server: GameServer, json: seq<byte> -> StatusJson)
    ensures !server.portOpen ==> Probe(addr, port, server, json) == ProbeReport(-1, [])
    ensures server.portOpen ==> Probe(addr, port, server, json) == FirstSuccess(MethodOrder, addr, port, server, json)
  {
    if server.portOpen {
      assert MethodOrder[1..] == [Legacy, Query] && [Legacy, Query][1..] == [Query] && [Query][1..] == [];
      var none := FirstSuccess([], addr, port, server, json);
      var q := FirstSuccess([Query], addr, port, server, json);
      assert q.tried == [Query] && (q.count >= 0 <==> Outcome(Query, addr, port, server, json) >= 0);
      assert q.count < 0 ==> q.count == -1;
      var lq := FirstSuccess([Legacy, Query], addr, port, server, json);
      assert Outcome(Legacy, addr, port, server, json) < 0 ==> lq == ProbeReport(q.count, [Legacy] + q.tried);
    }
  }

  /** Probe ordering, stated on the prober itself: the count is -1 or the
      count of the last method run; modern runs first whenever the port is
      open, legacy only after modern failed, query only after both failed;
      and -1 means the port was closed or all three failed. */
  lemma ProbeOrdering(addr: seq<byte>, port: int, server: GameServer, json: seq<byte> -> StatusJson)
    ensures var r := Probe(addr, port, server, json);
      && r.count >= -1
      && (server.portOpen <==> |r.tried| > 0 && r.tried[0] == Modern)
      && (Legacy in r.tried ==> Outcome(Modern, addr, port, server, json) < 0)
      && (Query in r.tried ==> Outcome(Modern, addr, port, server, json) < 0 && Outcome(Legacy, addr, port, server, json) < 0)
      && (r.count >= 0 ==> r.count == Outcome(r.tried[|r.tried| - 1], addr, port, server, json))
      && (r.count == -1 <==> !server.portOpen || forall m :: Outcome(m, addr, port, server, json) < 0)
  {
    ProbeIsFirstSuccess(addr, port, server, json);
    FirstSuccessIsShortCircuit(MethodOrder, addr, port, server, json);
    var r := Probe(addr, port, server, json);
    if server.portOpen && r.count == -1 {
      forall m ensures Outcome(m, addr, port, server, json) < 0 {
        assert m == MethodOrder[0] || m == MethodOrder[1] || m == MethodOrder[2];
      }
    }
  }
}
