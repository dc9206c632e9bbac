/** The log heuristics of the idle monitor (function_app.py,
    check_recent_player_activity and get_current_players_from_logs): both
    read the tail of the container log as text, split it into lines, and look
    at the most recent ones for player activity and for join/leave events. */
module LogActivity {
  import opened Common

  /** The log fetch: the container API failed (an exception), it returned no
      log object or no content, or it returned the log text. */
  datatype LogFetch = FetchFailed | NoLogs | Logs(content: string)

  /** Activity is looked for in this many of the most recent lines ... */
  const ActivityWindow: nat := 50
  /** ... connection noise in this many ... */
  const ConnectionWindow: nat := 30
  /** ... and more than this many noisy lines count as activity. */
  const ConnectionThreshold: nat := 2
  /** The player estimate replays this many of the most recent lines. */
  const EstimateWindow: nat := 50

  /** Substrings that mark player or server activity, matched case-insensitively. */
  const ActivityPatterns: seq<string> := [
    "joined the game", "left the game", "logged in with entity id", "lost connection",
    "[Not Secure]", "issued server command", "was slain", "drowned", "fell",
    "has made the advancement", "UUID of player", "moving too quickly",
    "tried to swim in lava", "went up in flames", "blew up", "hit the ground too hard",
    "was shot", "was killed", "starved to death", "suffocated",
    "experienced kinetic energy", "fell out of the world", "saving chunks",
    "automatic saving", "ThreadedAnvilChunkStorage"]

  /** Transport-level words (already lower case). */
  const ConnectionPatterns: seq<string> := ["connection", "disconnect", "timeout", "handshake"]

  /** Phrases of the join and leave events (lower case). */
  const JoinPhrases: seq<string> := ["joined the game", "logged in"]
  const LeavePhrases: seq<string> := ["left the game", "lost connection", "disconnected"]

  // ---------------------------------------------------------------------
  // Text helpers.

  function LowerChar(c: char): char
  {
    if 'A' <= c <= 'Z' then ((c as int) + 32) as char else c
  }

  /** `s.lower()` on ASCII letters; other characters are kept. */
  function Lower(s: string): (r: string)
    ensures |r| == |s| && forall i :: 0 <= i < |s| ==> r[i] == LowerChar(s[i])
  {
    seq(|s|, i requires 0 <= i < |s| => LowerChar(s[i]))
  }

  /** `pattern` occurs in `s` starting at position `i`. */
  predicate OccursAt(s: string, pattern: string, i: int)
  {
    0 <= i <= |s| - |pattern| && s[i..i + |pattern|] == pattern
  }

  /** `pattern in s`. */
  predicate Contains(s: string, pattern: string)
  {
    exists i :: 0 <= i <= |s| && OccursAt(s, pattern, i)
  }

  /** Python's `lines[-n:]`: the last `n` lines, or all of them when there
      are fewer; `lines[-0:]` is `lines[0:]`, every line. */
  function LastLines(lines: seq<string>, n: nat): (r: seq<string>)
    ensures |r| == if n == 0 || |lines| <= n then |lines| else n
    ensures r == lines[|lines| - |r|..]
  {
    if n == 0 || |lines| <= n then lines else lines[|lines| - n..]
  }

  /** `content.split('\n')`. */
  function LogLines(content: string): seq<string>
  {
    Split(content, '\n')
  }

  // ---------------------------------------------------------------------
  // check_recent_player_activity

  predicate IsActivityLine(line: string)
  {
    exists k :: 0 <= k < |ActivityPatterns| && Contains(Lower(line), Lower(ActivityPatterns[k]))
  }

  predicate IsConnectionLine(line: string)
  {
    exists k :: 0 <= k < |ConnectionPatterns| && Contains(Lower(line), ConnectionPatterns[k])
  }

  /** The number of connection lines. */
  function ConnectionLineCount(lines: seq<string>): (n: nat)
    ensures n <= |lines|
  {
    if |lines| == 0 then 0
    else ConnectionLineCount(lines[..|lines| - 1]) + if IsConnectionLine(lines[|lines| - 1]) then 1 else 0
  }

  /** A positive count has a connection line behind it. */
  lemma {:induction false} ConnectionLineWitness(lines: seq<string>)
    ensures ConnectionLineCount(lines) > 0 ==> exists line :: line in lines && IsConnectionLine(line)
  {
    if |lines| > 0 && !IsConnectionLine(lines[|lines| - 1]) {
      ConnectionLineWitness(lines[..|lines| - 1]);
      if ConnectionLineCount(lines) > 0 {
        var line :| line in lines[..|lines| - 1] && IsConnectionLine(line);
        assert line in lines;
      }
    }
  }

  /** A line that counts toward the activity verdict. */
  predicate Flagged(line: string)
  {
    IsActivityLine(line) || IsConnectionLine(line)
  }

  /** The lines either window inspects are lines of the log. */
  lemma WindowWitness(lines: seq<string>)
    ensures ((exists i :: 0 <= i < |LastLines(lines, ActivityWindow)| && IsActivityLine(LastLines(lines, ActivityWindow)[i]))
             || ConnectionLineCount(LastLines(lines, ConnectionWindow)) > ConnectionThreshold)
            ==> exists line :: line in lines && Flagged(line)
  {
    var recent := LastLines(lines, ActivityWindow);
    var connections := LastLines(lines, ConnectionWindow);
    ConnectionLineWitness(connections);
    if i :| 0 <= i < |recent| && IsActivityLine(recent[i]) {
      assert recent[i] in lines && Flagged(recent[i]);
    } else if ConnectionLineCount(connections) > ConnectionThreshold {
      var line :| line in connections && IsConnectionLine(line);
      assert line in lines && Flagged(line);
    }
  }

  /** The activity verdict: a failed fetch counts as activity, a missing or
      empty log as none; otherwise some activity line among the last 50, or
      more than 2 connection lines among the last 30. Apart from a failed
      fetch, activity is only ever reported on the strength of a line of the
      log that is an activity or a connection line. */
  function RecentActivity(fetch: LogFetch): (r: bool)
    ensures fetch.NoLogs? || fetch == Logs("") ==> !r
    ensures r && !fetch.FetchFailed? ==> exists line :: line in LogLines(fetch.content) && Flagged(line)
  {
    match fetch
    case FetchFailed => true
    case NoLogs => false
    case Logs(content) =>
      if content == "" then false
      else
        WindowWitness(LogLines(content));
        var recent := LastLines(LogLines(content), ActivityWindow);
        (exists i :: 0 <= i < |recent| && IsActivityLine(recent[i]))
        || ConnectionLineCount(LastLines(LogLines(content), ConnectionWindow)) > ConnectionThreshold
  }

  /** check_recent_player_activity, with its two counting loops. The
      lookback in minutes is accepted and, as in the source, never used. */
  method CheckRecentActivity(fetch: LogFetch, minutesBack: int) returns (active: bool)
    ensures active == RecentActivity(fetch)
  {
    match fetch {
      case FetchFailed =>
        return true;   // the conservative answer to an exception
      case NoLogs =>
        return false;
      case Logs(content) =>
        if content == "" {
          return false;
        }
        var logLines := LogLines(content);
        var recent := LastLines(logLines, ActivityWindow);
        var activityCount := 0;
        for i := 0 to |recent|
          invariant activityCount > 0 <==> exists j :: 0 <= j < i && IsActivityLine(recent[j])
        {
          if IsActivityLine(recent[i]) {
            activityCount := activityCount + 1;
          }
        }
        if activityCount > 0 {
          return true;
        }
        var noisy := LastLines(logLines, ConnectionWindow);
        var connectionCount := 0;
        for i := 0 to |noisy|
          invariant connectionCount == ConnectionLineCount(noisy[..i])
        {
          assert noisy[..i + 1][..i] == noisy[..i];
          if IsConnectionLine(noisy[i]) {
            connectionCount := connectionCount + 1;
          }
        }
        assert noisy[..|noisy|] == noisy;
        return connectionCount > ConnectionThreshold;
    }
  }

  /** Appending a newline and a line to the log appends that line to its
      split. */
  lemma SplitAppendLine(content: string, line: string)
    requires '\n' !in line
    ensures LogLines(content + "\n" + line) == LogLines(content) + [line]
  {
    var parts := LogLines(content);
    JoinAppend(parts, line, '\n');
    assert Join(parts + [line], '\n') == content + "\n" + line;
    SplitJoin(parts + [line], '\n');
  }

  /** A fresh activity line at the end of the log always reads as activity,
      whatever came before it. */
  lemma NewActivityLineIsSeen(content: string, line: string)
    requires '\n' !in line && IsActivityLine(line)
    ensures RecentActivity(Logs(content + "\n" + line))
  {
    SplitAppendLine(content, line);
    var recent := LastLines(LogLines(content + "\n" + line), ActivityWindow);
    assert recent[|recent| - 1] == line;
  }

  /** Two non-empty logs whose last 50 lines agree get the same verdict:
      anything older than the last 50 lines never changes it. */
  lemma OnlyRecentLinesCount(content1: string, content2: string)
    requires content1 != "" && content2 != ""
    requires LastLines(LogLines(content1), ActivityWindow) == LastLines(LogLines(content2), ActivityWindow)
    ensures RecentActivity(Logs(content1)) == RecentActivity(Logs(content2))
  {
    var l1, l2 := LogLines(content1), LogLines(content2);
    var r := LastLines(l1, ActivityWindow);
    assert LastLines(l1, ConnectionWindow) == LastLines(r, ConnectionWindow);
    assert LastLines(l2, ConnectionWindow) == LastLines(r, ConnectionWindow);
  }

  // ---------------------------------------------------------------------
  // get_current_players_from_logs

  /** `\w` on ASCII. */
  predicate IsWordChar(c: char)
  {
    'a' <= c <= 'z' || 'A' <= c <= 'Z' || '0' <= c <= '9' || c == '_'
  }

  /** `\s` on ASCII: the six usual blanks and the separators U+001C to
      U+001F, which Python's `\s` also matches in text patterns. */
  predicate IsSpace(c: char)
  {
    c == ' ' || c == '\t' || c == '\r' || c == '\n' || c == '\U{0B}' || c == '\U{0C}'
    || '\U{1C}' <= c <= '\U{1F}'
  }

  /** Start of the run of blanks that ends at `end`. */
  function SpaceRunStart(s: string, end: nat): (k: nat)
    requires end <= |s|
    ensures k <= end && forall i :: k <= i < end ==> IsSpace(s[i])
    ensures k == 0 || !IsSpace(s[k - 1])
  {
    if end > 0 && IsSpace(s[end - 1]) then SpaceRunStart(s, end - 1) else end
  }

  /** Start of the run of word characters that ends at `end`. */
  function WordRunStart(s: string, end: nat): (k: nat)
    requires end <= |s|
    ensures k <= end && forall i :: k <= i < end ==> IsWordChar(s[i])
    ensures k == 0 || !IsWordChar(s[k - 1])
  {
    if end > 0 && IsWordChar(s[end - 1]) then WordRunStart(s, end - 1) else end
  }

  /** The `(\w+)\s+` in front of position `p`: the whole word before the
      blanks that end at `p`, if there are blanks and a word. */
  function WordBefore(line: string, p: nat): (r: Option<string>)
    requires p <= |line|
    ensures r.Some? ==> |r.value| > 0 && forall i :: 0 <= i < |r.value| ==> IsWordChar(r.value[i])
  {
    var blanks := SpaceRunStart(line, p);
    if blanks == p then None
    else
      var start := WordRunStart(line, blanks);
      if start == blanks then None else Some(line[start..blanks])
  }

  predicate PhraseAt(low: string, phrases: seq<string>, p: nat)
  {
    exists k :: 0 <= k < |phrases| && p + |phrases[k]| <= |low| && low[p..p + |phrases[k]|] == phrases[k]
  }

  /** The name captured by `(\w+)\s+(?:phrase|...)` searched from position
      `p` on, ignoring case: the word before the earliest phrase that has
      blanks and a word in front of it. */
  function NameFrom(line: string, phrases: seq<string>, p: nat): Option<string>
    decreases |line| - p
  {
    if p > |line| then None
    else if PhraseAt(Lower(line), phrases, p) && WordBefore(line, p).Some? then WordBefore(line, p)
    else NameFrom(line, phrases, p + 1)
  }

  /** The search finds a name exactly when some phrase occurrence at or
      after `p` has a word and blanks in front of it, and the name is the
      word in front of the earliest such occurrence. */
  lemma {:induction false} NameFromFindsPhrase(line: string, phrases: seq<string>, p: nat)
    ensures NameFrom(line, phrases, p).Some? ==>
      exists q :: p <= q <= |line| && PhraseAt(Lower(line), phrases, q) && WordBefore(line, q) == NameFrom(line, phrases, p)
               && forall q' :: p <= q' < q && PhraseAt(Lower(line), phrases, q') ==> WordBefore(line, q').None?
    ensures NameFrom(line, phrases, p).None? ==>
      forall q :: p <= q <= |line| && PhraseAt(Lower(line), phrases, q) ==> WordBefore(line, q).None?
    decreases |line| - p
  {
    if p <= |line| && !(PhraseAt(Lower(line), phrases, p) && WordBefore(line, p).Some?) {
      NameFromFindsPhrase(line, phrases, p + 1);
      if NameFrom(line, phrases, p).Some? {
        var q :| p + 1 <= q <= |line| && PhraseAt(Lower(line), phrases, q) && WordBefore(line, q) == NameFrom(line, phrases, p)
                 && forall q' :: p + 1 <= q' < q && PhraseAt(Lower(line), phrases, q') ==> WordBefore(line, q').None?;
        assert forall q' :: p <= q' < q && PhraseAt(Lower(line), phrases, q') ==> WordBefore(line, q').None?;
      }
    }
  }

  /** What a log line says about a player. */
  datatype LineEvent = Joined(name: string) | Left(name: string) | NoEvent

  /** A line with a join phrase is a join (of the captured name, if any);
      otherwise a line with a leave phrase is a leave. */
  function EventOf(line: string): LineEvent
  {
    var low := Lower(line);
    if Contains(low, "joined the game") || Contains(low, "logged in") then
      match NameFrom(line, JoinPhrases, 0)
      case Some(name) => Joined(name)
      case None => NoEvent
    else if Contains(low, "left the game") || Contains(low, "lost connection") || Contains(low, "disconnected") then
      match NameFrom(line, LeavePhrases, 0)
      case Some(name) => Left(name)
      case None => NoEvent
    else NoEvent
  }

  /** A join needs a join phrase in the lowered line, a leave a leave phrase
      and no join phrase; either names the word in front of one of the
      line's own phrases. */
  lemma EventOfPhrases(line: string)
    ensures EventOf(line).Joined? ==>
      && (Contains(Lower(line), "joined the game") || Contains(Lower(line), "logged in"))
      && exists q :: 0 <= q <= |line| && PhraseAt(Lower(line), JoinPhrases, q) && WordBefore(line, q) == Some(EventOf(line).name)
    ensures EventOf(line).Left? ==>
      && !Contains(Lower(line), "joined the game") && !Contains(Lower(line), "logged in")
      && (Contains(Lower(line), "left the game") || Contains(Lower(line), "lost connection")
          || Contains(Lower(line), "disconnected"))
      && exists q :: 0 <= q <= |line| && PhraseAt(Lower(line), LeavePhrases, q) && WordBefore(line, q) == Some(EventOf(line).name)
    ensures !EventOf(line).NoEvent? ==>
      |EventOf(line).name| > 0 && forall i :: 0 <= i < |EventOf(line).name| ==> IsWordChar(EventOf(line).name[i])
  {
    NameFromFindsPhrase(line, JoinPhrases, 0);
    NameFromFindsPhrase(line, LeavePhrases, 0);
  }

  /** One step of the scan: a join adds the name, a leave discards it. */
  function Apply(players: set<string>, line: string): set<string>
  {
    match EventOf(line)
    case Joined(name) => players + {name}
    case Left(name) => players - {name}
    case NoEvent => players
  }

  /** The names left after scanning `lines` newest-first: the newest line
      (the last) is applied first and the oldest (the first) last. */
  function Replay(lines: seq<string>): (r: set<string>)
    ensures forall name :: name in r ==> exists i :: 0 <= i < |lines| && EventOf(lines[i]) == Joined(name)
  {
    if |lines| == 0 then {} else Apply(Replay(lines[1..]), lines[0])
  }

  /** The estimate: 0 on a failed fetch or an empty log, otherwise the
      number of names the scan of the last 50 lines leaves. */
  function PlayerEstimate(fetch: LogFetch): (r: nat)
    ensures r <= EstimateWindow
  {
    match fetch
    case FetchFailed => 0
    case NoLogs => 0
    case Logs(content) =>
      if content == "" then 0
      else
        var recent := LastLines(LogLines(content), EstimateWindow);
        ReplayBoundedByJoins(recent);
        |Replay(recent)|
  }

  /** get_current_players_from_logs, with its newest-first loop over a set
      of names. */
  method EstimatePlayers(fetch: LogFetch) returns (count: int)
    ensures count == PlayerEstimate(fetch)
  {
    match fetch {
      case FetchFailed =>
        return 0;
      case NoLogs =>
        return 0;
      case Logs(content) =>
        if content == "" {
          return 0;
        }
        var recent := LastLines(LogLines(content), EstimateWindow);
        var connectedPlayers: set<string> := {};
        var i := |recent|;
        while i > 0
          invariant 0 <= i <= |recent|
          invariant connectedPlayers == Replay(recent[i..])
        {
          i := i - 1;
          assert recent[i..][1..] == recent[i + 1..];
          match EventOf(recent[i]) {
            case Joined(name) => connectedPlayers := connectedPlayers + {name};
            case Left(name) => connectedPlayers := connectedPlayers - {name};
            case NoEvent =>
          }
        }
        assert recent[0..] == recent;
        return |connectedPlayers|;
    }
  }

  /** Whether a line is a join or a leave of `name`. */
  predicate Mentions(line: string, name: string)
  {
    EventOf(line) == Joined(name) || EventOf(line) == Left(name)
  }

  /** A name is counted after the oldest line of the window that mentions
      it, when that line is a join and no earlier line mentions the name. */
  predicate OldestMentionIsJoin(lines: seq<string>, name: string)
  {
    exists i :: 0 <= i < |lines| && EventOf(lines[i]) == Joined(name)
                && forall j :: 0 <= j < i ==> !Mentions(lines[j], name)
  }

  /** A first line that does not mention the name leaves both sides of the
      characterization as they are for the remaining lines. */
  lemma SkipUnrelatedLine(lines: seq<string>, name: string)
    requires |lines| > 0 && !Mentions(lines[0], name)
    ensures OldestMentionIsJoin(lines, name) <==> OldestMentionIsJoin(lines[1..], name)
  {
    if OldestMentionIsJoin(lines[1..], name) {
      var i :| 0 <= i < |lines[1..]| && EventOf(lines[1..][i]) == Joined(name)
               && forall j :: 0 <= j < i ==> !Mentions(lines[1..][j], name);
      assert EventOf(lines[i + 1]) == Joined(name);
      forall j | 0 <= j < i + 1 ensures !Mentions(lines[j], name) {
        if j > 0 { assert lines[j] == lines[1..][j - 1]; }
      }
    }
    if OldestMentionIsJoin(lines, name) {
      var i :| 0 <= i < |lines| && EventOf(lines[i]) == Joined(name)
               && forall j :: 0 <= j < i ==> !Mentions(lines[j], name);
      assert i > 0;
      assert EventOf(lines[1..][i - 1]) == Joined(name);
      forall j | 0 <= j < i - 1 ensures !Mentions(lines[1..][j], name) {
        assert lines[1..][j] == lines[j + 1];
      }
    }
  }

  /** What the newest-first scan computes: a name is counted exactly when
      the OLDEST line of the window that mentions it is a join. */
  lemma {:induction false} ReplayKeepsOldestEvent(lines: seq<string>, name: string)
    ensures name in Replay(lines) <==> OldestMentionIsJoin(lines, name)
  {
    if |lines| > 0 {
      ReplayKeepsOldestEvent(lines[1..], name);
      var e := EventOf(lines[0]);
      if e == Joined(name) {
        assert name in Replay(lines);
        assert OldestMentionIsJoin(lines, name);
      } else if e == Left(name) {
        assert name !in Replay(lines);
        assert Mentions(lines[0], name);
      } else {
        assert name in Replay(lines) <==> name in Replay(lines[1..]);
        SkipUnrelatedLine(lines, name);
      }
    }
  }

  /** A consequence of the newest-first order: a player who joined and then
      left is still counted, and one who left and then joined again is not. */
  lemma ReplayOrderConsequences(joinLine: string, leaveLine: string, name: string)
    requires EventOf(joinLine) == Joined(name) && EventOf(leaveLine) == Left(name)
    ensures Replay([joinLine, leaveLine]) == {name}
    ensures Replay([leaveLine, joinLine]) == {}
  {
    assert [joinLine, leaveLine][1..] == [leaveLine];
    assert [leaveLine, joinLine][1..] == [joinLine];
    assert [leaveLine][1..] == [] && [joinLine][1..] == [];
    assert Replay([leaveLine]) == {} - {name};
    assert Replay([joinLine]) == {name};
    assert Replay([joinLine, leaveLine]) == ({} - {name}) + {name};
  }

  /** The number of join lines. */
  function JoinLineCount(lines: seq<string>): (n: nat)
    ensures n <= |lines|
  {
    if |lines| == 0 then 0 else JoinLineCount(lines[1..]) + if EventOf(lines[0]).Joined? then 1 else 0
  }

  /** The estimate never exceeds the number of join lines scanned. */
  lemma {:induction false} ReplayBoundedByJoins(lines: seq<string>)
    ensures |Replay(lines)| <= JoinLineCount(lines)
  {
    if |lines| > 0 {
      ReplayBoundedByJoins(lines[1..]);
      var before := Replay(lines[1..]);
      match EventOf(lines[0]) {
        case Joined(name) => assert |before + {name}| <= |before| + 1;
        case Left(name) => assert |before - {name}| <= |before|;
        case NoEvent =>
      }
    }
  }

  /** The estimate is 0 on a failed fetch or an empty log and never exceeds
      the join lines among the last 50. */
  lemma EstimateBounds(fetch: LogFetch)
    ensures fetch.FetchFailed? || fetch.NoLogs? || fetch == Logs("") ==> PlayerEstimate(fetch) == 0
    ensures fetch.Logs? && fetch.content != "" ==>
      PlayerEstimate(fetch) <= JoinLineCount(LastLines(LogLines(fetch.content), EstimateWindow))
  {
    if fetch.Logs? && fetch.content != "" {
      ReplayBoundedByJoins(LastLines(LogLines(fetch.content), EstimateWindow));
    }
  }

  predicate IsLowerCase(s: string)
  {
    forall i :: 0 <= i < |s| ==> !('A' <= s[i] <= 'Z')
  }

  /** Positions inside a leading word never yield a name: the scan for a
      name moves on to the blank after the word. */
  lemma {:induction false} NameFromSkipsWord(line: string, name: string, phrases: seq<string>, q: nat)
    requires |name| < |line| && line[..|name|] == name
    requires forall i :: 0 <= i < |name| ==> IsWordChar(name[i])
    requires q <= |name| + 1
    ensures NameFrom(line, phrases, q) == NameFrom(line, phrases, |name| + 1)
    decreases |name| + 1 - q
  {
    if q <= |name| {
      if q > 0 {
        assert line[q - 1] == name[q - 1];
      }
      assert WordBefore(line, q).None?;
      NameFromSkipsWord(line, name, phrases, q + 1);
    }
  }

  /** A line made of a word, a blank and one of the phrases names that word. */
  lemma NamedPhraseLine(name: string, rest: string, phrases: seq<string>, k: nat)
    requires |name| > 0 && forall i :: 0 <= i < |name| ==> IsWordChar(name[i])
    requires k < |phrases| && IsLowerCase(phrases[k])
    ensures Contains(Lower(name + " " + phrases[k] + rest), phrases[k])
    ensures NameFrom(name + " " + phrases[k] + rest, phrases, 0) == Some(name)
  {
    var phrase := phrases[k];
    var line := name + " " + phrase + rest;
    var p := |name| + 1;
    assert line[..|name|] == name;
    assert line[p..p + |phrase|] == phrase;
    assert Lower(line)[p..p + |phrase|] == phrase;
    assert PhraseAt(Lower(line), phrases, p);
    assert OccursAt(Lower(line), phrase, p);
    assert line[|name|] == ' ';
    assert line[|name| - 1] == name[|name| - 1];
    var blanks := SpaceRunStart(line, p);
    assert forall i :: 0 <= i < |name| ==> line[i] == name[i];
    assert blanks == |name|;
    var start := WordRunStart(line, |name|);
    assert start == 0;
    assert line[start..blanks] == name;
    NameFromSkipsWord(line, name, phrases, 0);
  }

  /** A server line `<name> joined the game...` is a join of `name`; a line
      `<name> left the game...` that mentions no join phrase anywhere is a
      leave of `name`. */
  lemma NamedEventLines(name: string, rest: string)
    requires |name| > 0 && forall i :: 0 <= i < |name| ==> IsWordChar(name[i])
    ensures EventOf(name + " joined the game" + rest) == Joined(name)
    ensures var line := name + " left the game" + rest;
      !Contains(Lower(line), "joined the game") && !Contains(Lower(line), "logged in") ==> EventOf(line) == Left(name)
  {
    assert IsLowerCase(JoinPhrases[0]) && IsLowerCase(LeavePhrases[0]);
    assert name + " joined the game" + rest == name + " " + JoinPhrases[0] + rest;
    assert name + " left the game" + rest == name + " " + LeavePhrases[0] + rest;
    NamedPhraseLine(name, rest, JoinPhrases, 0);
    NamedPhraseLine(name, rest, LeavePhrases, 0);
  }
}
