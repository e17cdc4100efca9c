/** The watchdog of `src/lib/palworld/watchdog/index.ts`: the reconnect counter, the failure
    path of command execution, the join/leave broadcasts, and the poll cycle that diffs the
    roster against the one it retained.

    The module-level variables `retryCount` and `playerList`, and the exit the logger triggers,
    are the fields of class `Monitor`. Each of its methods is tied to a function on the value
    `State`, and the properties are lemmas about those functions. The RCON transport is not
    part of this model: what `connect` and `sendCommand` do is given as parameters (`Attempt`). */
module Watchdog {
  import opened Wrappers
  import opened Seqs
  import opened JsText
  import opened Roster
  import Api

  // ---------------------------------------------------------------- configuration

  /** The environment settings the watchdog reads once, at load time. */
  datatype Config = Config(maxRetry: int, joinBroadcast: bool, leaveBroadcast: bool)

  /** `Number(MAX_RECON_RETRY_COUNT) || 5` and the `=== "true"` tests of the two broadcast
      switches. `maxRetry` is `None` when the number is NaN (unset or not numeric). */
  function ConfigOf(maxRetry: Option<int>, joinBroadcast: Option<string>, leaveBroadcast: Option<string>): (c: Config)
    ensures c.maxRetry != 0
    ensures maxRetry.Some? && maxRetry.value != 0 ==> c.maxRetry == maxRetry.value
    ensures maxRetry.None? || maxRetry == Some(0) ==> c.maxRetry == 5
    ensures c.joinBroadcast <==> joinBroadcast == Some("true")
    ensures c.leaveBroadcast <==> leaveBroadcast == Some("true")
  {
    Config(if maxRetry.None? || maxRetry.value == 0 then 5 else maxRetry.value,
           joinBroadcast == Some("true"), leaveBroadcast == Some("true"))
  }

  // ---------------------------------------------------------------- state

  /** The watchdog's mutable state: the reconnect counter, the retained roster, and whether
      an exit has been requested (`logger.on("finish", () => process.exit(1))`). */
  datatype State = State(retryCount: nat, playerList: seq<Record>, exitRequested: bool)

  /** What one `sendCommand` does: it answers with raw text, or it rejects, and then the
      reconnect that `rconExec` makes either connects or fails. */
  datatype Attempt = Sent(raw: string) | SendFailed(reconnects: bool)

  /** How a poll cycle ends: it schedules the next cycle, it returns early without scheduling
      one, or it throws (its promise rejects) before scheduling one. */
  datatype Outcome = Rescheduled | Skipped | Crashed

  /** The state after a run of broadcasts, the commands sent, and whether one of them threw. */
  datatype Run = Run(state: State, commands: seq<string>, crashed: bool)

  /** The state after a cycle, the broadcast commands it sent, and how it ended. */
  datatype CycleResult = CycleResult(state: State, commands: seq<string>, outcome: Outcome)

  // ---------------------------------------------------------------- rconReconnect

  /** `rconReconnect`: a connect resets the counter; a failure counts one more attempt and
      requests an exit once the count reaches the maximum. The roster is not touched. */
  function Reconnected(s: State, c: Config, connected: bool): (t: State)
    ensures t.playerList == s.playerList
    ensures connected ==> t.retryCount == 0 && t.exitRequested == s.exitRequested
    ensures !connected ==> t.retryCount == s.retryCount + 1
    ensures !connected ==> (t.exitRequested <==> s.exitRequested || t.retryCount >= c.maxRetry)
  {
    if connected then s.(retryCount := 0)
    else s.(retryCount := s.retryCount + 1, exitRequested := s.exitRequested || s.retryCount + 1 >= c.maxRetry)
  }

  /** `n` failed connects in a row. */
  function Failures(s: State, c: Config, n: nat): State {
    if n == 0 then s else Reconnected(Failures(s, c, n - 1), c, false)
  }

  /** After `n` failed connects in a row the counter has grown by `n`, and an exit has been
      requested exactly when one already was, or some attempt brought the count to the
      maximum: with the default maximum of 5 and a current counter, from the fifth failure on. */
  lemma {:induction false} FailuresExit(s: State, c: Config, n: nat)
    ensures Failures(s, c, n).retryCount == s.retryCount + n
    ensures Failures(s, c, n).playerList == s.playerList
    ensures Failures(s, c, n).exitRequested <==> s.exitRequested || (n > 0 && s.retryCount + n >= c.maxRetry)
  {
    if n > 0 {
      FailuresExit(s, c, n - 1);
    }
  }

  /** A connect after any run of failures clears the counter; an exit once requested stays
      requested. */
  lemma FailuresThenConnect(s: State, c: Config, n: nat)
    ensures Reconnected(Failures(s, c, n), c, true).retryCount == 0
    ensures Reconnected(Failures(s, c, n), c, true).exitRequested <==> Failures(s, c, n).exitRequested
    ensures s.exitRequested ==> Failures(s, c, n).exitRequested
  {
    FailuresExit(s, c, n);
  }

  // ---------------------------------------------------------------- rconExec

  /** What `rconExec` returns: the NUL-stripped response that `send` gives back, or `null`
      when sending failed. */
  function ExecResponse(a: Attempt): (r: Option<string>)
    ensures r.Some? <==> a.Sent?
    ensures r.Some? ==> NUL !in r.value && IsSubsequence(r.value, a.raw)
    ensures a.Sent? ==> r == Some(Api.Send(a.raw))
  {
    match a
    case Sent(raw) => Some(Api.Send(raw))
    case SendFailed(_) => None
  }

  /** The state after `rconExec`: unchanged when the command went through; otherwise
      exactly one reconnect attempt. */
  function AfterExec(s: State, c: Config, a: Attempt): (t: State)
    ensures a.Sent? ==> t == s
    ensures a.SendFailed? ==> t == Reconnected(s, c, a.reconnects)
  {
    match a
    case Sent(_) => s
    case SendFailed(connected) => Reconnected(s, c, connected)
  }

  // ---------------------------------------------------------------- broadcastJoin / broadcastLeave

  const JoinSuffix: string := "_joined_the_world."
  const LeaveSuffix: string := "_left_the_world."
  const BroadcastPrefix: string := "Broadcast "

  /** `player.name`: `undefined` when the record has no such column. */
  function Name(p: Record): Option<string> {
    if "name" in p then p["name"] else None
  }

  /** `player.steamid`, `undefined` likewise. */
  function SteamId(p: Record): Option<string> {
    if "steamid" in p then p["steamid"] else None
  }

  /** The command `broadcastJoin`/`broadcastLeave` sends, or `None` when the record has no
      name: `.replace` on `undefined` throws before anything is sent. */
  function BroadcastCommand(p: Record, suffix: string): (r: Option<string>)
    ensures r.Some? <==> Name(p).Some?
  {
    match Name(p)
    case None => None
    case Some(name) => Some(BroadcastPrefix + ReplaceFirst(name, ' ', '_') + suffix)
  }

  /** A broadcast is the prefix, then the name with its FIRST space turned into `_` and every
      other character kept, then the suffix. */
  lemma BroadcastShape(p: Record, suffix: string)
    requires Name(p).Some?
    ensures var cmd := BroadcastCommand(p, suffix).value;
      var name := Name(p).value;
      var n := |BroadcastPrefix|;
      && |cmd| == n + |name| + |suffix|
      && cmd[..n] == BroadcastPrefix
      && cmd[n + |name|..] == suffix
      && (' ' in name ==> cmd[n + FirstIndex(name, ' ')] == '_')
      && (forall i :: 0 <= i < |name| && (' ' !in name || i != FirstIndex(name, ' ')) ==> cmd[n + i] == name[i])
  {
    var name := Name(p).value;
    var middle := ReplaceFirst(name, ' ', '_');
    var cmd := BroadcastPrefix + middle + suffix;
    assert cmd[..|BroadcastPrefix|] == BroadcastPrefix;
    assert cmd[|BroadcastPrefix| + |name|..] == suffix;
    assert forall i :: 0 <= i < |name| ==> cmd[|BroadcastPrefix| + i] == middle[i];
  }

  /** `s` ends in `suffix`. */
  predicate EndsWith(s: string, suffix: string) {
    |s| >= |suffix| && s[|s| - |suffix|..] == suffix
  }

  /** A broadcast ends in its suffix. */
  lemma BroadcastSuffix(p: Record, suffix: string)
    requires Name(p).Some?
    ensures EndsWith(BroadcastCommand(p, suffix).value, suffix)
  {
    var cmd := BroadcastCommand(p, suffix).value;
    assert cmd == (BroadcastPrefix + ReplaceFirst(Name(p).value, ' ', '_')) + suffix;
  }

  /** Only the first space of a name is replaced: `Jane Q Doe` is announced as
      `Jane_Q Doe`. */
  lemma FirstSpaceOnly()
    ensures BroadcastCommand(map["name" := Some("Jane Q Doe")], JoinSuffix)
         == Some(BroadcastPrefix + "Jane_Q Doe" + JoinSuffix)
  {
    var name := "Jane Q Doe";
    assert Name(map["name" := Some(name)]) == Some(name);
    assert ReplaceFirst(name, ' ', '_') == "Jane_Q Doe" by {
      assert name[4] == ' ' && ' ' !in name[..4];
      assert FirstIndex(name, ' ') == 4;
      assert name[..4] == "Jane" && name[5..] == "Q Doe";
      assert "Jane" + ['_'] + "Q Doe" == "Jane_Q Doe";
    }
  }

  /** One broadcast per player of `players`, in order, the `k`-th command of the cycle
      meeting `sends(k)`. `Promise.all(players.map(...))` starts every broadcast before any
      rejection is seen, so a nameless player does not stop the others; it makes the run
      reject (`crashed`). */
  function Announced(s: State, c: Config, players: seq<Record>, suffix: string, sends: nat -> Attempt, k: nat): Run
    decreases |players|
  {
    if players == [] then Run(s, [], false)
    else match BroadcastCommand(players[0], suffix)
      case None =>
        var rest := Announced(s, c, players[1..], suffix, sends, k);
        Run(rest.state, rest.commands, true)
      case Some(cmd) =>
        var rest := Announced(AfterExec(s, c, sends(k)), c, players[1..], suffix, sends, k + 1);
        Run(rest.state, [cmd] + rest.commands, rest.crashed)
  }

  /** One step of a run of broadcasts, from player `i` on. */
  lemma AnnouncedStep(s: State, c: Config, players: seq<Record>, i: nat, suffix: string, sends: nat -> Attempt, k: nat)
    requires i < |players|
    ensures Announced(s, c, players[i..], suffix, sends, k)
         == match BroadcastCommand(players[i], suffix)
            case None =>
              var rest := Announced(s, c, players[i + 1..], suffix, sends, k);
              Run(rest.state, rest.commands, true)
            case Some(cmd) =>
              var rest := Announced(AfterExec(s, c, sends(k)), c, players[i + 1..], suffix, sends, k + 1);
              Run(rest.state, [cmd] + rest.commands, rest.crashed)
  {
    assert players[i..][0] == players[i];
    assert players[i..][1..] == players[i + 1..];
  }

  /** The loop of `Monitor.Announce` keeps its invariant past a nameless player: what
      remains of the run, prefixed by what the players before produced, is the whole run. */
  lemma AnnounceSkipsNameless(s0: State, c: Config, players: seq<Record>, suffix: string, sends: nat -> Attempt, k: nat,
                              i: nat, s: State, commands: seq<string>, crashed: bool)
    requires i < |players| && Name(players[i]).None?
    requires var rest := Announced(s, c, players[i..], suffix, sends, k + |commands|);
      Announced(s0, c, players, suffix, sends, k) == Run(rest.state, commands + rest.commands, crashed || rest.crashed)
    ensures var rest := Announced(s, c, players[i + 1..], suffix, sends, k + |commands|);
      Announced(s0, c, players, suffix, sends, k) == Run(rest.state, commands + rest.commands, true)
  {
    AnnouncedStep(s, c, players, i, suffix, sends, k + |commands|);
  }

  /** The same past a named player, whose command is sent and whose send outcome applies. */
  lemma AnnounceSendsNamed(s0: State, c: Config, players: seq<Record>, suffix: string, sends: nat -> Attempt, k: nat,
                           i: nat, s: State, commands: seq<string>, crashed: bool)
    requires i < |players| && Name(players[i]).Some?
    requires var rest := Announced(s, c, players[i..], suffix, sends, k + |commands|);
      Announced(s0, c, players, suffix, sends, k) == Run(rest.state, commands + rest.commands, crashed || rest.crashed)
    ensures var next := commands + [BroadcastCommand(players[i], suffix).value];
      var rest := Announced(AfterExec(s, c, sends(k + |commands|)), c, players[i + 1..], suffix, sends, k + |next|);
      Announced(s0, c, players, suffix, sends, k) == Run(rest.state, next + rest.commands, crashed || rest.crashed)
  {
    AnnouncedStep(s, c, players, i, suffix, sends, k + |commands|);
    var cmd := BroadcastCommand(players[i], suffix).value;
    var rest := Announced(AfterExec(s, c, sends(k + |commands|)), c, players[i + 1..], suffix, sends, k + |commands| + 1);
    assert commands + ([cmd] + rest.commands) == (commands + [cmd]) + rest.commands;
  }

  /** A run of broadcasts rejects exactly when some player has no name, every command it
      sends ends in the suffix, and it leaves the roster alone and a requested exit
      requested. */
  lemma {:induction false} AnnouncedCommands(s: State, c: Config, players: seq<Record>, suffix: string, sends: nat -> Attempt, k: nat)
    ensures var r := Announced(s, c, players, suffix, sends, k);
      && r.state.playerList == s.playerList
      && (s.exitRequested ==> r.state.exitRequested)
      && (r.crashed <==> exists i :: 0 <= i < |players| && Name(players[i]).None?)
      && (forall i :: 0 <= i < |r.commands| ==> EndsWith(r.commands[i], suffix))
    decreases |players|
  {
    if players != [] {
      var named := Name(players[0]).Some?;
      var t := if named then AfterExec(s, c, sends(k)) else s;
      AnnouncedCommands(t, c, players[1..], suffix, sends, if named then k + 1 else k);
      assert forall i :: 1 <= i < |players| ==> players[i] == players[1..][i - 1];
      if named {
        BroadcastSuffix(players[0], suffix);
      }
    }
  }

  /** The commands of the named players of `players`, in order: what a run of broadcasts
      sends, whether or not some player is nameless. */
  function NamedCommands(players: seq<Record>, suffix: string): (r: seq<string>)
    ensures |r| <= |players|
    ensures (forall i :: 0 <= i < |players| ==> Name(players[i]).Some?) ==> |r| == |players|
    ensures forall i :: 0 <= i < |r| ==> EndsWith(r[i], suffix)
  {
    if players == [] then []
    else
      var rest := NamedCommands(players[1..], suffix);
      assert forall i :: 1 <= i < |players| ==> players[i] == players[1..][i - 1];
      match BroadcastCommand(players[0], suffix)
      case None => rest
      case Some(cmd) =>
        BroadcastSuffix(players[0], suffix);
        [cmd] + rest
  }

  /** A run of broadcasts sends exactly the commands of its named players, in order: a
      nameless player makes the run reject but stops no other broadcast. */
  lemma {:induction false} AnnouncedSends(s: State, c: Config, players: seq<Record>, suffix: string, sends: nat -> Attempt, k: nat)
    ensures Announced(s, c, players, suffix, sends, k).commands == NamedCommands(players, suffix)
    decreases |players|
  {
    if players != [] {
      if Name(players[0]).Some? {
        AnnouncedSends(AfterExec(s, c, sends(k)), c, players[1..], suffix, sends, k + 1);
      } else {
        AnnouncedSends(s, c, players[1..], suffix, sends, k);
      }
    }
  }

  /** Every command of a run of broadcasts ends in the run's suffix. */
  lemma AnnouncedSuffix(s: State, c: Config, players: seq<Record>, suffix: string, sends: nat -> Attempt, k: nat)
    ensures forall i :: 0 <= i < |Announced(s, c, players, suffix, sends, k).commands| ==>
      EndsWith(Announced(s, c, players, suffix, sends, k).commands[i], suffix)
  {
    AnnouncedCommands(s, c, players, suffix, sends, k);
  }

  /** When every player has a name, broadcast `i` is player `i`'s command. */
  lemma {:induction false} AnnouncedAllNamed(s: State, c: Config, players: seq<Record>, suffix: string, sends: nat -> Attempt, k: nat)
    requires forall i :: 0 <= i < |players| ==> Name(players[i]).Some?
    ensures var r := Announced(s, c, players, suffix, sends, k);
      && !r.crashed
      && |r.commands| == |players|
      && forall i :: 0 <= i < |players| ==> Some(r.commands[i]) == BroadcastCommand(players[i], suffix)
    decreases |players|
  {
    if players != [] {
      AnnouncedAllNamed(AfterExec(s, c, sends(k)), c, players[1..], suffix, sends, k + 1);
    }
  }

  // ---------------------------------------------------------------- the roster diff

  /** `list.some(player => player.steamid === id)`. Two records without a steamid compare
      equal, as `undefined === undefined` does. */
  predicate Present(list: seq<Record>, id: Option<string>) {
    exists j :: 0 <= j < |list| && SteamId(list[j]) == id
  }

  /** `playersJoined`: the new records whose steamid the retained roster lacks. */
  function Joined(retained: seq<Record>, current: seq<Record>): seq<Record> {
    Filter(current, p => !Present(retained, SteamId(p)))
  }

  /** `playersLeft`: the retained records whose steamid the new roster lacks. */
  function Left(retained: seq<Record>, current: seq<Record>): seq<Record> {
    Filter(retained, p => !Present(current, SteamId(p)))
  }

  /** A record is joined exactly when it is in the new roster and its steamid is not in the
      retained one; it has left exactly when it is in the retained roster and its steamid is
      not in the new one. Both keep their roster's order. */
  lemma DiffMembers(retained: seq<Record>, current: seq<Record>, p: Record)
    ensures IsSubsequence(Joined(retained, current), current) && IsSubsequence(Left(retained, current), retained)
    ensures p in Joined(retained, current) <==> p in current && !Present(retained, SteamId(p))
    ensures p in Left(retained, current) <==> p in retained && !Present(current, SteamId(p))
  {
    var joined, left := Joined(retained, current), Left(retained, current);
    if p in joined {
      var i :| 0 <= i < |joined| && joined[i] == p;
      SubsequenceMember(joined, current, i);
    }
    if p in left {
      var i :| 0 <= i < |left| && left[i] == p;
      SubsequenceMember(left, retained, i);
    }
  }

  /** No steamid is both joined and left. */
  lemma DiffDisjoint(retained: seq<Record>, current: seq<Record>, p: Record, q: Record)
    requires p in Joined(retained, current) && q in Left(retained, current)
    ensures SteamId(p) != SteamId(q)
  {
    DiffMembers(retained, current, p);
    DiffMembers(retained, current, q);
    var j :| 0 <= j < |current| && current[j] == p;
  }

  /** A roster diffed against itself has no joins and no leaves. */
  lemma DiffSelf(list: seq<Record>)
    ensures Joined(list, list) == [] && Left(list, list) == []
  {
    assert forall i :: 0 <= i < |list| ==> Present(list, SteamId(list[i]));
    FilterNone(list, p => !Present(list, SteamId(p)));
  }

  // ---------------------------------------------------------------- initWatchdog

  /** The join broadcasts of a cycle, when they are switched on. */
  function JoinRun(s: State, c: Config, current: seq<Record>, sends: nat -> Attempt): Run {
    if c.joinBroadcast then Announced(s, c, Joined(s.playerList, current), JoinSuffix, sends, 0)
    else Run(s, [], false)
  }

  /** The leave broadcasts of a cycle, after `k` join broadcasts, when they are switched on. */
  function LeaveRun(s: State, c: Config, retained: seq<Record>, current: seq<Record>, sends: nat -> Attempt, k: nat): Run {
    if c.leaveBroadcast then Announced(s, c, Left(retained, current), LeaveSuffix, sends, k)
    else Run(s, [], false)
  }

  /** The diff-and-announce part of a cycle that got a non-empty answer while a roster was retained:
      diff the rosters, announce the joins, then the leaves, and adopt the new roster. A
      nameless player makes its `Promise.all` reject, which ends the cycle there. */
  function Diffed(s: State, c: Config, current: seq<Record>, sends: nat -> Attempt): CycleResult {
    var joins := JoinRun(s, c, current, sends);
    if joins.crashed then CycleResult(joins.state, joins.commands, Crashed)
    else
      var leaves := LeaveRun(joins.state, c, s.playerList, current, sends, |joins.commands|);
      if leaves.crashed then CycleResult(leaves.state, joins.commands + leaves.commands, Crashed)
      else CycleResult(leaves.state.(playerList := current), joins.commands + leaves.commands, Rescheduled)
  }

  /** A cycle once `rconExec` has answered `response` and the parser has made `parsed` of it:
      a thrown parse ends it; with an empty retained roster it just adopts the new one; with
      an empty answer it returns early; otherwise it diffs and announces. */
  function Proceed(s: State, c: Config, response: Option<string>, parsed: Result<seq<Record>, ParseError>, sends: nat -> Attempt): CycleResult {
    match parsed
    case Err(_) => CycleResult(s, [], Crashed)
    case Ok(current) =>
      if s.playerList == [] then CycleResult(s.(playerList := current), [], Rescheduled)
      else if response == Some("") then CycleResult(s, [], Skipped)
      else Diffed(s, c, current, sends)
  }

  /** `initWatchdog`, one poll cycle: send `ShowPlayers`, parse the answer (a failed send gives
      `null`, on which the parser throws), and go on as `Proceed` says. Only a cycle that
      gets to the end schedules the next. */
  function CycleOf(s: State, c: Config, poll: Attempt, sends: nat -> Attempt): CycleResult {
    var response := ExecResponse(poll);
    Proceed(AfterExec(s, c, poll), c, response, ParsePlayerInfo(response), sends)
  }

  /** After the diff the roster is the new one exactly when the next cycle is scheduled, the
      cycle never counts as skipped, and a requested exit stays requested. */
  lemma DiffedRoster(s: State, c: Config, current: seq<Record>, sends: nat -> Attempt)
    ensures var r := Diffed(s, c, current, sends);
      && r.outcome != Skipped
      && (r.outcome == Rescheduled ==> r.state.playerList == current)
      && (r.outcome != Rescheduled ==> r.state.playerList == s.playerList)
      && (s.exitRequested ==> r.state.exitRequested)
  {
    var joins := JoinRun(s, c, current, sends);
    if c.joinBroadcast {
      AnnouncedCommands(s, c, Joined(s.playerList, current), JoinSuffix, sends, 0);
    }
    if c.leaveBroadcast {
      AnnouncedCommands(joins.state, c, Left(s.playerList, current), LeaveSuffix, sends, |joins.commands|);
    }
  }

  /** With both switches off the diff sends nothing and schedules the next cycle. */
  lemma DiffedSilent(s: State, c: Config, current: seq<Record>, sends: nat -> Attempt)
    requires !c.joinBroadcast && !c.leaveBroadcast
    ensures Diffed(s, c, current, sends) == CycleResult(s.(playerList := current), [], Rescheduled)
  {
  }

  /** The join broadcasts come first, each ending in the join suffix, then the leave
      broadcasts, each ending in the leave suffix; a part is empty when its switch is off. */
  lemma DiffedOrder(s: State, c: Config, current: seq<Record>, sends: nat -> Attempt) returns (m: nat)
    ensures var r := Diffed(s, c, current, sends);
      && m <= |r.commands|
      && (forall i :: 0 <= i < m ==> EndsWith(r.commands[i], JoinSuffix))
      && (forall i :: m <= i < |r.commands| ==> EndsWith(r.commands[i], LeaveSuffix))
      && (!c.joinBroadcast ==> m == 0)
      && (!c.leaveBroadcast ==> m == |r.commands|)
  {
    var joins := JoinRun(s, c, current, sends);
    m := |joins.commands|;
    assert forall i :: 0 <= i < m ==> EndsWith(joins.commands[i], JoinSuffix) by {
      if c.joinBroadcast {
        AnnouncedSuffix(s, c, Joined(s.playerList, current), JoinSuffix, sends, 0);
      }
    }
    if !joins.crashed {
      var leaves := LeaveRun(joins.state, c, s.playerList, current, sends, m);
      assert forall i :: 0 <= i < |leaves.commands| ==> EndsWith(leaves.commands[i], LeaveSuffix) by {
        if c.leaveBroadcast {
          AnnouncedSuffix(joins.state, c, Left(s.playerList, current), LeaveSuffix, sends, m);
        }
      }
      var all := joins.commands + leaves.commands;
      assert Diffed(s, c, current, sends).commands == all;
      forall i | m <= i < |all| ensures EndsWith(all[i], LeaveSuffix) {
        assert all[i] == leaves.commands[i - m];
      }
    }
  }

  /** When every joined player has a name (joins switched on) and every left player has a
      name (leaves switched on), the diff sends one broadcast per joined player, then one
      per left player, each that player's command, and schedules the next cycle. */
  lemma DiffedBroadcasts(s: State, c: Config, current: seq<Record>, sends: nat -> Attempt)
    requires c.joinBroadcast ==>
      forall i :: 0 <= i < |Joined(s.playerList, current)| ==> Name(Joined(s.playerList, current)[i]).Some?
    requires c.leaveBroadcast ==>
      forall i :: 0 <= i < |Left(s.playerList, current)| ==> Name(Left(s.playerList, current)[i]).Some?
    ensures var joined, left := Joined(s.playerList, current), Left(s.playerList, current);
      var nj := if c.joinBroadcast then |joined| else 0;
      var nl := if c.leaveBroadcast then |left| else 0;
      var r := Diffed(s, c, current, sends);
      && r.outcome == Rescheduled
      && r.state.playerList == current
      && |r.commands| == nj + nl
      && (forall i :: 0 <= i < nj ==> Some(r.commands[i]) == BroadcastCommand(joined[i], JoinSuffix))
      && (forall i :: 0 <= i < nl ==> Some(r.commands[nj + i]) == BroadcastCommand(left[i], LeaveSuffix))
  {
    var joins := JoinRun(s, c, current, sends);
    if c.joinBroadcast {
      AnnouncedAllNamed(s, c, Joined(s.playerList, current), JoinSuffix, sends, 0);
    }
    if c.leaveBroadcast {
      AnnouncedAllNamed(joins.state, c, Left(s.playerList, current), LeaveSuffix, sends, |joins.commands|);
    }
  }

  /** For any rosters, the diff sends the commands of the named joined players (joins
      switched on), then, unless a nameless joined player made the joins reject, the
      commands of the named left players (leaves switched on). */
  lemma DiffedCommands(s: State, c: Config, current: seq<Record>, sends: nat -> Attempt)
    ensures var joined, left := Joined(s.playerList, current), Left(s.playerList, current);
      var joinsReject := c.joinBroadcast && exists i :: 0 <= i < |joined| && Name(joined[i]).None?;
      Diffed(s, c, current, sends).commands
        == (if c.joinBroadcast then NamedCommands(joined, JoinSuffix) else [])
         + (if !joinsReject && c.leaveBroadcast then NamedCommands(left, LeaveSuffix) else [])
  {
    var joins := JoinRun(s, c, current, sends);
    if c.joinBroadcast {
      AnnouncedSends(s, c, Joined(s.playerList, current), JoinSuffix, sends, 0);
      AnnouncedCommands(s, c, Joined(s.playerList, current), JoinSuffix, sends, 0);
    }
    if joins.crashed {
      assert joins.commands + [] == joins.commands;
    } else if c.leaveBroadcast {
      AnnouncedSends(joins.state, c, Left(s.playerList, current), LeaveSuffix, sends, |joins.commands|);
    } else {
      assert joins.commands + [] == joins.commands;
    }
  }

  /** A failed poll throws in the parser: no broadcast, the roster kept, and the only state
      change is the one reconnect attempt. */
  lemma CycleFailedPoll(s: State, c: Config, reconnects: bool, sends: nat -> Attempt)
    ensures var r := CycleOf(s, c, SendFailed(reconnects), sends);
      r.outcome == Crashed && r.commands == [] && r.state == Reconnected(s, c, reconnects)
  {
  }

  /** With nothing retained, a cycle whose poll went through announces nothing, adopts the
      parsed roster and schedules the next cycle. */
  lemma CycleBaseline(s: State, c: Config, raw: string, sends: nat -> Attempt)
    requires s.playerList == []
    ensures var r := CycleOf(s, c, Sent(raw), sends);
      && r.outcome == Rescheduled && r.commands == []
      && r.state == s.(playerList := ParsePlayerInfo(Some(Api.Send(raw))).value)
  {
  }

  /** A cycle returns early exactly when a roster is retained and the answer, once its NULs
      are gone, is empty; it then announces nothing and changes nothing, and no next cycle
      is scheduled. */
  lemma CycleSkip(s: State, c: Config, poll: Attempt, sends: nat -> Attempt)
    ensures var r := CycleOf(s, c, poll, sends);
      r.outcome == Skipped <==> s.playerList != [] && poll.Sent? && Api.Send(poll.raw) == ""
    ensures var r := CycleOf(s, c, poll, sends);
      r.outcome == Skipped ==> r.commands == [] && r.state == s
  {
    var response := ExecResponse(poll);
    var parsed := ParsePlayerInfo(response);
    if parsed.Ok? && s.playerList != [] && response != Some("") {
      DiffedRoster(s, c, parsed.value, sends);
    }
  }

  /** The roster is replaced exactly when the next cycle is scheduled; every other outcome
      keeps it. The reconnect counter and the exit flag change only through reconnects, so a
      requested exit stays requested. */
  lemma CycleRoster(s: State, c: Config, poll: Attempt, sends: nat -> Attempt)
    ensures var r := CycleOf(s, c, poll, sends);
      r.outcome == Rescheduled ==> poll.Sent? && r.state.playerList == ParsePlayerInfo(ExecResponse(poll)).value
    ensures var r := CycleOf(s, c, poll, sends);
      r.outcome != Rescheduled ==> r.state.playerList == s.playerList
    ensures s.exitRequested ==> CycleOf(s, c, poll, sends).state.exitRequested
  {
    var s1 := AfterExec(s, c, poll);
    var response := ExecResponse(poll);
    var parsed := ParsePlayerInfo(response);
    if parsed.Ok? && s1.playerList != [] && response != Some("") {
      DiffedRoster(s1, c, parsed.value, sends);
    }
  }

  /** With both switches off a cycle sends no broadcast at all, and only a failed poll keeps
      it from scheduling the next one or returning early. */
  lemma CycleSilent(s: State, c: Config, poll: Attempt, sends: nat -> Attempt)
    requires !c.joinBroadcast && !c.leaveBroadcast
    ensures var r := CycleOf(s, c, poll, sends);
      r.commands == [] && (r.outcome == Crashed <==> poll.SendFailed?)
  {
    var s1 := AfterExec(s, c, poll);
    var response := ExecResponse(poll);
    var parsed := ParsePlayerInfo(response);
    if parsed.Ok? && s1.playerList != [] && response != Some("") {
      DiffedSilent(s1, c, parsed.value, sends);
    }
  }

  /** Every join broadcast of a cycle comes before every leave broadcast. */
  lemma CycleOrder(s: State, c: Config, poll: Attempt, sends: nat -> Attempt) returns (m: nat)
    ensures var r := CycleOf(s, c, poll, sends);
      && m <= |r.commands|
      && (forall i :: 0 <= i < m ==> EndsWith(r.commands[i], JoinSuffix))
      && (forall i :: m <= i < |r.commands| ==> EndsWith(r.commands[i], LeaveSuffix))
      && (!c.joinBroadcast ==> m == 0)
      && (!c.leaveBroadcast ==> m == |r.commands|)
  {
    m := 0;
    var s1 := AfterExec(s, c, poll);
    var response := ExecResponse(poll);
    var parsed := ParsePlayerInfo(response);
    if parsed.Ok? && s1.playerList != [] && response != Some("") {
      m := DiffedOrder(s1, c, parsed.value, sends);
      assert CycleOf(s, c, poll, sends) == Diffed(s1, c, parsed.value, sends);
    }
  }

  /** When a roster is retained and the answer is not empty, a cycle is the diff against
      the parsed roster (whose broadcasts `DiffedBroadcasts` describes). */
  lemma CycleDiffs(s: State, c: Config, raw: string, sends: nat -> Attempt)
    requires s.playerList != [] && Api.Send(raw) != ""
    ensures CycleOf(s, c, Sent(raw), sends) == Diffed(s, c, ParsePlayerInfo(Some(Api.Send(raw))).value, sends)
  {
  }

  /** Once the roster has dropped to empty, the next cycle announces nobody, however many
      players its poll finds: the empty roster counts as "no baseline yet". */
  lemma JoinsAfterEmptyUnannounced(s: State, c: Config, poll: Attempt, sends: nat -> Attempt)
    requires s.playerList == []
    ensures CycleOf(s, c, poll, sends).commands == []
  {
  }

  // ---------------------------------------------------------------- the stateful watchdog

  /** The module-level state of the watchdog, with the settings it read at load time. */
  class Monitor {
    const config: Config
    var retryCount: nat
    var playerList: seq<Record>
    var exitRequested: bool

    /** The state as a value. */
    function Snapshot(): State
      reads this
    {
      State(retryCount, playerList, exitRequested)
    }

    /** Load time: no failed attempt yet, no roster, no exit. */
    constructor (config: Config)
      ensures this.config == config
      ensures Snapshot() == State(0, [], false)
    {
      this.config := config;
      retryCount := 0;
      playerList := [];
      exitRequested := false;
    }

    /** `rconReconnect`, with the outcome of `connect` as the parameter. */
    method Reconnect(connected: bool) returns (ok: bool)
      modifies this
      ensures ok == connected
      ensures Snapshot() == Reconnected(old(Snapshot()), config, connected)
    {
      if connected {
        retryCount := 0;
        ok := true;
      } else {
        retryCount := retryCount + 1;
        if retryCount >= config.maxRetry {
          exitRequested := true;
        }
        ok := false;
      }
    }

    /** `rconExec`: the command's fate is the parameter; it yields the stripped response or,
        after one reconnect attempt, `null`. */
    method Exec(attempt: Attempt) returns (response: Option<string>)
      modifies this
      ensures response == ExecResponse(attempt)
      ensures Snapshot() == AfterExec(old(Snapshot()), config, attempt)
    {
      match attempt
      case Sent(raw) =>
        response := Some(Api.Send(raw));
      case SendFailed(reconnects) =>
        var _ := Reconnect(reconnects);
        response := None;
    }

    /** `Promise.all(players.map(broadcast))`: the broadcasts of `players` in order, the
        `k`-th command of the cycle meeting `sends(k)`. */
    method Announce(players: seq<Record>, suffix: string, sends: nat -> Attempt, k: nat) returns (commands: seq<string>, crashed: bool)
      modifies this
      ensures Run(Snapshot(), commands, crashed) == Announced(old(Snapshot()), config, players, suffix, sends, k)
    {
      commands, crashed := [], false;
      var i := 0;
      while i < |players|
        invariant 0 <= i <= |players|
        invariant var rest := Announced(Snapshot(), config, players[i..], suffix, sends, k + |commands|);
          Announced(old(Snapshot()), config, players, suffix, sends, k)
            == Run(rest.state, commands + rest.commands, crashed || rest.crashed)
      {
        match BroadcastCommand(players[i], suffix) {
          case None =>
            AnnounceSkipsNameless(old(Snapshot()), config, players, suffix, sends, k, i, Snapshot(), commands, crashed);
            crashed := true;
          case Some(cmd) =>
            AnnounceSendsNamed(old(Snapshot()), config, players, suffix, sends, k, i, Snapshot(), commands, crashed);
            var _ := Exec(sends(k + |commands|));
            commands := commands + [cmd];
        }
        i := i + 1;
      }
    }

    /** The diff-and-announce part of `initWatchdog`: diff, announce, adopt. */
    method Diff(current: seq<Record>, sends: nat -> Attempt) returns (commands: seq<string>, outcome: Outcome)
      modifies this
      ensures CycleResult(Snapshot(), commands, outcome) == Diffed(old(Snapshot()), config, current, sends)
    {
      var retained := playerList;
      commands := [];
      if config.joinBroadcast {
        var crashed;
        commands, crashed := Announce(Joined(retained, current), JoinSuffix, sends, 0);
        if crashed {
          return commands, Crashed;
        }
      }
      if config.leaveBroadcast {
        var left, crashed := Announce(Left(retained, current), LeaveSuffix, sends, |commands|);
        commands := commands + left;
        if crashed {
          return commands, Crashed;
        }
      }
      playerList := current;
      outcome := Rescheduled;
    }

    /** `initWatchdog` from line `if (playerList.length)` on: what a cycle does with the
        response it got and what the parser made of it. */
    method HandlePoll(response: Option<string>, parsed: Result<seq<Record>, ParseError>, sends: nat -> Attempt)
      returns (commands: seq<string>, outcome: Outcome)
      modifies this
      ensures CycleResult(Snapshot(), commands, outcome) == Proceed(old(Snapshot()), config, response, parsed, sends)
    {
      if parsed.Err? {
        return [], Crashed;
      }
      if playerList == [] {
        playerList := parsed.value;
        return [], Rescheduled;
      }
      if response == Some("") {
        return [], Skipped;
      }
      commands, outcome := Diff(parsed.value, sends);
    }

    /** `initWatchdog`: one poll cycle. It returns the broadcast commands it sent and how it
        ended. */
    method Cycle(poll: Attempt, sends: nat -> Attempt) returns (commands: seq<string>, outcome: Outcome)
      modifies this
      ensures CycleResult(Snapshot(), commands, outcome) == CycleOf(old(Snapshot()), config, poll, sends)
    {
      var response := Exec(poll);
      var parsed := ParsePlayerInfo(response);
      commands, outcome := HandlePoll(response, parsed, sends);
    }
  }
}
