# Palworld dedicated-server watchdog, modelled in Dafny

This project models the core of the Palworld dedicated-server tool, which has three parts.

- **The roster parser** (`src/lib/palworld/utils.ts`, module `Roster`).
  - `parseCSV` turns the text that `ShowPlayers` answers into records. The text is a header line, then data lines. Each line is split at every comma and each field is trimmed. Each data line is zipped against the header names.
  - `parsePlayerInfo` deletes every NUL first, then keeps the records whose `playeruid` is truthy. It throws on a `null` response.
- **The RCON wrapper's string logic** (`src/lib/palworld/api.ts`, module `Api`).
  - `send` strips NULs from every response.
  - `serverInfo` cuts the version and the server name out of the `Info` answer, then parses the roster.
- **The watchdog** (`src/lib/palworld/watchdog/index.ts`, module `Watchdog`).
  - `rconReconnect` keeps the reconnect counter and requests an exit once the counter reaches `MAX_RECON_RETRY_COUNT` (default 5).
  - `rconExec` answers `null` after a failed send and one reconnect attempt.
  - `broadcastJoin` and `broadcastLeave` format `Broadcast <name>_joined_the_world.` and `Broadcast <name>_left_the_world.`, with the first space of the name turned into `_`.
  - `initWatchdog` runs one poll cycle: poll `ShowPlayers`, parse, diff against the retained roster by `steamid`, announce joins and then leaves, adopt the new roster and schedule the next cycle.

The JavaScript built-ins the code relies on are modelled in module `JsText`: `trim` with the ECMAScript whitespace set, `split` on one character, `replace` of the first occurrence, global deletion of a character, and the end-anchored `replace(/[\n\u0000]+$/, "")`. `Array.prototype.map` and `filter` are in `Seqs`.

The watchdog's module-level variables are the fields of class `Watchdog.Monitor`:

- `retryCount`;
- `playerList`;
- `exitRequested`, which stands for `logger.on("finish", () => process.exit(1))`.

Each method of `Monitor` is proved to move its state as a function on the value `Watchdog.State` says. The properties are lemmas about those functions.

The RCON transport is a parameter:

- a poll, or the `k`-th broadcast of a cycle, is an `Attempt`: either the raw response or a rejected send;
- a rejected send carries whether the reconnect that follows connects;
- a cycle returns the broadcast commands it sent and how it ended, as an `Outcome`: `Rescheduled` (it reached `setTimeout`), `Skipped` (it returned early) or `Crashed` (its promise rejected).

The model follows the code where a plain reading of the program's intent says otherwise:

- **A failed poll does not skip the cycle.** `rconExec` answers `null`, and `parsePlayerInfo(null)` throws before the skip test is reached. The cycle ends `Crashed`, and no next cycle is scheduled.
- **The early return does not reschedule.** It is taken only when a roster is retained and the NUL-stripped answer is the empty string; it does not call `setTimeout`.
- **A nameless joined or left record makes its `Promise.all` reject, when that broadcast switch is on.** The other broadcasts of that run are still sent, but the cycle ends before the new roster is adopted. If it happens among the joins, the leaves are never announced. With the switch off no `Promise.all` runs and nothing rejects.
- **An empty retained roster means "no baseline yet".** The cycle after the last player leaves announces nobody, however many players join.
- **Records without a `steamid` compare equal in the diff**, as `undefined === undefined` does.

## Model

| member | source | states |
|---|---|---|
| Seqs.Filter | src/lib/palworld/utils.ts:21-22 | `Array.prototype.filter`: the result is an order-preserving subsequence, every kept element passes the test, and every element that passes is kept |
| Seqs.Map | src/lib/palworld/utils.ts:8-10 | `Array.prototype.map`: one result per element, in order, each `f` of that element |
| JsText.Trim | src/lib/palworld/utils.ts:4 | `trim` yields a string no longer than its input that neither starts nor ends with ECMAScript whitespace |
| JsText.StripEnd | src/lib/palworld/api.ts:42 | removing `/[\n\u0000]+$/` leaves a prefix whose removed tail is all line feeds and NULs and whose last character is neither |
| JsText.TrimPadded | src/lib/palworld/utils.ts:4 | whitespace, blank lines included, around a text makes no difference to `trim` |
| JsText.TrimUnpadded | src/lib/palworld/utils.ts:10 | `trim` leaves an unpadded string alone |
| JsText.Split | src/lib/palworld/utils.ts:4 | `split` on one character yields at least one piece, no piece holds the separator, and joining the pieces with it gives the input back |
| JsText.SplitJoin | src/lib/palworld/utils.ts:7 | `split` undoes `join` on separator-free pieces |
| JsText.SplitCount | src/lib/palworld/utils.ts:4 | `split` yields exactly one piece more than there are separators |
| JsText.Remove | src/lib/palworld/utils.ts:20 | `replace(/\u0000/g, "")` leaves no NUL, keeps every other character in order and as often as it occurred |
| JsText.RemoveAppend | src/lib/palworld/utils.ts:20 | deleting NULs works piecewise, and a NUL-free string is left as it is |
| JsText.ReplaceFirst | src/lib/palworld/watchdog/index.ts:60 | `replace(" ", "_")` changes only the first space and keeps the length and every other character |
| Roster.Fields | src/lib/palworld/utils.ts:10 | `line.split(",").map(v => v.trim())`; its shape is stated by `Roster.FieldsShape` and `Roster.FieldsJoin` |
| Roster.Headers | src/lib/palworld/utils.ts:5-8 | `lines.shift().split(",").map(h => h.trim())`: the fields of the first line |
| Roster.FieldsShape | src/lib/palworld/utils.ts:10 | a line has one field more than it has commas, and every field is comma-free and trimmed |
| Roster.FieldsJoin | src/lib/palworld/utils.ts:5-8 | the fields of comma-joined, comma-free, unpadded cells are those cells |
| Roster.At | src/lib/palworld/utils.ts:12 | `values[index]` is defined exactly when the line has that many fields, and then is that field |
| Roster.ToRecord | src/lib/palworld/utils.ts:11-14 | the `reduce` that zips a line's fields against the header names, left to right; stated by `Roster.ToRecordKeys` and `Roster.ToRecordLookup` |
| Roster.ToRecordKeys | src/lib/palworld/utils.ts:11-14 | a record's keys are exactly the header names |
| Roster.ToRecordLookup | src/lib/palworld/utils.ts:11-14 | each header name holds the field of its last column, `undefined` past the end of the line |
| Roster.ToRecordDistinct | src/lib/palworld/utils.ts:11-14 | with distinct header names, header `i` holds field `i` |
| Roster.Lines | src/lib/palworld/utils.ts:4 | the trimmed text has one line more than it has line feeds |
| Roster.Records | src/lib/palworld/utils.ts:9-16 | one record per data line |
| Roster.RecordsAt | src/lib/palworld/utils.ts:9-16 | record `i` zips data line `i` against the header names |
| Roster.ParseCSV | src/lib/palworld/utils.ts:3-17 | `parseCSV` yields as many records as the trimmed text has line feeds, so none for a header-only or blank text |
| Roster.ParseCSVAt | src/lib/palworld/utils.ts:5-15 | record `i` zips line `i + 1` against the fields of the first line |
| Roster.ParsePadded | src/lib/palworld/utils.ts:4 | whitespace and blank lines around the text never change the records |
| Roster.ParseRender | src/lib/palworld/utils.ts:3-17 | `parseCSV` reads back a table rendered as comma- and newline-joined lines: one record per row, in order, zipping the row against the headers |
| Roster.ParseCSVAvoids | src/lib/palworld/utils.ts:3-17 | a character absent from the text is absent from every key and field of every record |
| Roster.HasPlayerUid | src/lib/palworld/utils.ts:21 | the truthiness of `x.playeruid`: the key is present, its value defined and non-empty |
| Roster.KeepPlayers | src/lib/palworld/utils.ts:21-22 | `.filter(x => x.playeruid)` keeps, in order, exactly the records whose `playeruid` is present and non-empty |
| Roster.ParsePlayerInfo | src/lib/palworld/utils.ts:19-23 | it throws exactly on a `null` response; otherwise it yields an order-preserving selection of the parse of the NUL-free text, each with a `playeruid` |
| Roster.PlayerInfoNulFree | src/lib/palworld/utils.ts:19-23 | no key or field of `parsePlayerInfo`'s result contains a NUL |
| Roster.PlayerInfoExactly | src/lib/palworld/utils.ts:20-22 | each record with a `playeruid` occurs in the result as often as in the parse, and any other record not at all |
| Api.Send | src/lib/palworld/api.ts:30-33 | `send` returns the response with no NUL, its other characters in order and as often as they occurred |
| Api.SendPiecewise | src/lib/palworld/api.ts:32 | NUL stripping distributes over concatenation, keeps a clean response and is idempotent |
| Api.VersionAndName | src/lib/palworld/api.ts:37-43 | extraction fails with a missing-`[` error exactly when the text has no `[` |
| Api.VersionAndNameOf | src/lib/palworld/api.ts:38-43 | in `pre[version]name...` the version is the text between the first `[` and the next `]`; the name is what follows, with its trailing run of line feeds and NULs removed and then trimmed |
| Api.NoCloseBracketOf | src/lib/palworld/api.ts:38-40 | with a `[`, extraction fails with a missing-`]` error exactly when no `]` comes before the next `[` |
| Api.ServerInfoOf | src/lib/palworld/api.ts:35-55 | `serverInfo` succeeds exactly when both sends went through and the version and name could be extracted; its players are `parsePlayerInfo`'s result and its version and name are the extracted ones |
| Watchdog.ConfigOf | src/lib/palworld/watchdog/index.ts:9-11 | the retry ceiling is the configured number, or 5 when it is 0 or not a number, so it is never 0; each broadcast switch is on exactly when its variable is the string `true` |
| Watchdog.Reconnected | src/lib/palworld/watchdog/index.ts:16-39 | a connect zeroes the counter; a failure adds one and requests an exit once the counter reaches the ceiling; the roster is untouched |
| Watchdog.FailuresExit | src/lib/palworld/watchdog/index.ts:26-36 | after `n` failures in a row the counter grew by `n`, and an exit is requested exactly when one already was or the count reached the ceiling |
| Watchdog.FailuresThenConnect | src/lib/palworld/watchdog/index.ts:16-39 | a connect after any run of failures clears the counter, and a requested exit stays requested |
| Watchdog.ExecResponse | src/lib/palworld/watchdog/index.ts:41-55 | `rconExec` yields a response exactly when the send went through, and that response is `send`'s result: the raw answer without its NULs |
| Watchdog.AfterExec | src/lib/palworld/watchdog/index.ts:41-55 | a successful send changes no state; a failed one makes exactly one reconnect attempt |
| Watchdog.Name | src/lib/palworld/watchdog/index.ts:60 | `player.name`, `undefined` when the record has no `name` column |
| Watchdog.SteamId | src/lib/palworld/watchdog/index.ts:83 | `player.steamid`, `undefined` when the record has no `steamid` column |
| Watchdog.BroadcastCommand | src/lib/palworld/watchdog/index.ts:57-67 | a broadcast command exists exactly when the record has a name |
| Watchdog.BroadcastShape | src/lib/palworld/watchdog/index.ts:57-67 | a broadcast is `Broadcast `, then the name with only its first space turned into `_` and every other character kept, then the suffix |
| Watchdog.BroadcastSuffix | src/lib/palworld/watchdog/index.ts:60 | a broadcast ends in its suffix |
| Watchdog.FirstSpaceOnly | src/lib/palworld/watchdog/index.ts:60 | the name `Jane Q Doe` is announced as `Jane_Q Doe` |
| Watchdog.Announced | src/lib/palworld/watchdog/index.ts:91-97 | `Promise.all(players.map(broadcast))` as a run: every named player's command is sent in order, each send's outcome applied to the state, and a nameless player makes the run reject without stopping the others |
| Watchdog.NamedCommands | src/lib/palworld/watchdog/index.ts:92 | the commands of the named players, in order; at most one per player, one per player when all are named, each ending in the suffix |
| Watchdog.AnnouncedSends | src/lib/palworld/watchdog/index.ts:91-97 | for any players, a run sends exactly the commands of its named players, in order, whether or not it rejects |
| Watchdog.AnnouncedCommands | src/lib/palworld/watchdog/index.ts:91-97 | a run of broadcasts rejects exactly when some player has no name; every command ends in the suffix; the roster is untouched and a requested exit stays requested |
| Watchdog.AnnouncedAllNamed | src/lib/palworld/watchdog/index.ts:91-97 | when every player has a name, broadcast `i` is player `i`'s command and the run does not reject |
| Watchdog.Present | src/lib/palworld/watchdog/index.ts:83 | `list.some(p => p.steamid === id)`, with `undefined === undefined` |
| Watchdog.Joined | src/lib/palworld/watchdog/index.ts:81-84 | `playersJoined`: the new records whose `steamid` the retained roster lacks |
| Watchdog.Left | src/lib/palworld/watchdog/index.ts:86-89 | `playersLeft`: the retained records whose `steamid` the new roster lacks |
| Watchdog.DiffMembers | src/lib/palworld/watchdog/index.ts:81-89 | a record has joined exactly when it is new and its `steamid` was not retained, and has left exactly when it was retained and its `steamid` is not new; both keep their roster's order |
| Watchdog.DiffDisjoint | src/lib/palworld/watchdog/index.ts:81-89 | no `steamid` is both joined and left |
| Watchdog.DiffSelf | src/lib/palworld/watchdog/index.ts:81-89 | an unchanged roster has no joins and no leaves |
| Watchdog.JoinRun | src/lib/palworld/watchdog/index.ts:91-93 | `if (ENABLE_JOIN_BROADCAST) await Promise.all(playersJoined.map(broadcastJoin))`: the join run when the switch is on, nothing otherwise |
| Watchdog.LeaveRun | src/lib/palworld/watchdog/index.ts:95-97 | `if (ENABLE_LEAVE_BROADCAST) await Promise.all(playersLeft.map(broadcastLeave))`: the leave run when the switch is on, nothing otherwise |
| Watchdog.Diffed | src/lib/palworld/watchdog/index.ts:81-101 | the diff, the join run (switch on), the leave run (switch on, joins did not reject), then adoption of the new roster and rescheduling |
| Watchdog.Proceed | src/lib/palworld/watchdog/index.ts:73-101 | after the poll: a thrown parse crashes; an empty retained roster adopts the parse; an empty answer returns early; otherwise `Diffed` |
| Watchdog.CycleOf | src/lib/palworld/watchdog/index.ts:71-102 | one `initWatchdog` cycle: `rconExec("ShowPlayers")`, `parsePlayerInfo`, then `Proceed` |
| Watchdog.DiffedRoster | src/lib/palworld/watchdog/index.ts:81-101 | after the diff the new roster is adopted exactly when the next cycle is scheduled; otherwise the old one is kept; a requested exit stays requested |
| Watchdog.DiffedSilent | src/lib/palworld/watchdog/index.ts:91-101 | with both switches off the diff sends nothing, adopts the new roster and reschedules |
| Watchdog.DiffedOrder | src/lib/palworld/watchdog/index.ts:91-97 | every join broadcast precedes every leave broadcast, and a part is empty when its switch is off |
| Watchdog.DiffedBroadcasts | src/lib/palworld/watchdog/index.ts:81-101 | when every joined record has a name (joins on) and every left record has a name (leaves on), the diff sends one command per joined record, then one per left record, each that record's command, then adopts the roster and reschedules |
| Watchdog.DiffedCommands | src/lib/palworld/watchdog/index.ts:91-97 | for any rosters, the diff sends the named joined players' commands (joins on), then, unless a nameless joined player made the joins reject, the named left players' commands (leaves on) |
| Watchdog.CycleFailedPoll | src/lib/palworld/watchdog/index.ts:72-73 | a failed poll throws in the parser: nothing is sent, the roster is kept, and the only state change is one reconnect attempt |
| Watchdog.CycleBaseline | src/lib/palworld/watchdog/index.ts:71-102 | with no retained roster a successful poll announces nothing, adopts the parsed roster and reschedules |
| Watchdog.CycleSkip | src/lib/palworld/watchdog/index.ts:75-79 | a cycle returns early exactly when a roster is retained and the NUL-stripped answer is empty; it then sends nothing and changes nothing |
| Watchdog.CycleRoster | src/lib/palworld/watchdog/index.ts:71-102 | the roster is replaced by the parsed one exactly when the next cycle is scheduled, and a requested exit stays requested |
| Watchdog.CycleSilent | src/lib/palworld/watchdog/index.ts:71-102 | with both switches off a cycle sends nothing and crashes exactly when the poll failed |
| Watchdog.CycleOrder | src/lib/palworld/watchdog/index.ts:91-97 | in every cycle the join broadcasts come before the leave broadcasts |
| Watchdog.CycleDiffs | src/lib/palworld/watchdog/index.ts:75-101 | with a retained roster and a non-empty answer, a cycle is the diff against the parsed roster |
| Watchdog.JoinsAfterEmptyUnannounced | src/lib/palworld/watchdog/index.ts:75-100 | from an empty roster (a cycle adopted one with no players) a cycle announces nobody, whatever its poll finds |
| Watchdog.Monitor.constructor | src/lib/palworld/watchdog/index.ts:15 | the watchdog starts with no failed attempt, no roster and no exit |
| Watchdog.Monitor.Reconnect | src/lib/palworld/watchdog/index.ts:16-39 | `rconReconnect` returns whether it connected and moves the state as `Reconnected` says |
| Watchdog.Monitor.Exec | src/lib/palworld/watchdog/index.ts:41-55 | `rconExec` returns `ExecResponse` and moves the state as `AfterExec` says |
| Watchdog.Monitor.Announce | src/lib/palworld/watchdog/index.ts:91-97 | `Promise.all(players.map(broadcast))` sends, in order, the commands of the named players and rejects exactly when `Announced` says |
| Watchdog.Monitor.Diff | src/lib/palworld/watchdog/index.ts:81-101 | the diff-and-announce part of a cycle moves the state and sends the commands as `Diffed` says |
| Watchdog.Monitor.HandlePoll | src/lib/palworld/watchdog/index.ts:73-101 | the rest of a cycle once the poll has been answered and parsed moves the state, sends the commands and ends as `Proceed` says |
| Watchdog.Monitor.Cycle | src/lib/palworld/watchdog/index.ts:71-102 | one `initWatchdog` cycle moves the state, sends the commands and ends as `CycleOf` says |

## Left out

- Logging (`src/lib/logger/index.ts`) is not part of this model. The one effect that matters, the exit after the retry ceiling is reached, is the `exitRequested` flag. The process ending with status 1 is not modelled.
- The RCON client (`src/lib/palworld/rcon/client`) and `connect` are not part of this model. What `connect` and `sendCommand` do is given as an `Attempt`. The host, ports and password are not modelled.
- The entry point `src/index.ts` is not part of this model: the startup connect loop with its delay, and the HTTP side.
- Timing is not modelled: `setTimeout` with `WATCHDOG_INTERVAL`. A cycle says only whether it scheduled the next one.
- `Promise.all` starts every broadcast of a run before any of them settles. The model sends them one after another in array order; the `k`-th send of a cycle meets `sends(k)`. Interleavings between peer broadcasts are not modelled.
- An unhandled rejection of a crashed cycle is not modelled beyond the `Crashed` outcome.
- `Number(process.env.MAX_RECON_RETRY_COUNT)` is not modelled as a coercion. `Watchdog.ConfigOf` takes its result as an integer, or `None` for NaN. Fractional and infinite values are not modelled.
- A response is text. Decoding the client's bytes through `toString()` is not modelled.
- Records are maps from header name to field. JavaScript's special keys, such as a header named `__proto__` hitting the prototype setter, are not modelled.
- `Watchdog.BroadcastCommand`: its own contract states only when a command exists. The command's text is stated by `Watchdog.BroadcastShape` and `Watchdog.BroadcastSuffix`.
- `Api.VersionAndName`: its own contract covers only the missing-`[` error. The version, the name and the missing-`]` error are stated for well-formed and bracket-free input by `Api.VersionAndNameOf` and `Api.NoCloseBracketOf`.
