# Seek relay: hub registry and client command interpreter

The system is a small relay.

The hub (`server.py`):
- accepts WebSocket connections from "seeker" and "switcher" clients;
- admits each one after a `token:role` handshake and keeps them in two per-role buckets, plus a record per session;
- relays operator commands from a chat bot to a random strict majority of the seekers (`/seek`) or to every switcher (`/switch`).

A seeker (`client.py`) turns each `/seek <timecode>` frame into a VLC `seek` command and answers with `seeked <s> of <d>`. A switcher only recognises `/switch`.

This project models both cores in Dafny:

- `wrappers.dfy`: `Option`.
- `text.dfy`: the Python string operations the core relies on. These are `str.isdigit`, `int()` on digit strings, `str(n)`, `isspace`/`strip`, `lower` (ASCII letters and the Kelvin sign), `split(c, 1)`, `split(c)` and `startswith`. The splits come with their round-trip lemmas against `join`, `str(n)` with `int(str(n)) == n`, and `lower` with the exact set of spellings that lower to a given word.
- `binary64.dfy`: exact IEEE 754 binary64 round-to-nearest-even, as far as `int(p * 0.01 * d)` needs it.
- `client.dfy`: `parse_timecode`, the duration read from VLC's `get_length` answer, the decision taken on each received frame, and the authentication frame.
- `registry.dfy`: the hub's state as a value.
  - `HubState` holds `clients`, `client_info`, the frames sent and the operator notices.
  - Its invariant says every session sits in exactly one bucket, at most once, and the buckets and the records agree.
  - It defines the state after a handshake, a message, a broadcast and a cleanup, with the lemmas about each.
- `server.dfy`: the handshake parse, identity resolution, the majority count, and the class `Hub`. The class holds the four pieces of state as fields. Its methods (admission, message receipt, disconnect cleanup, both broadcasts with their send and removal loops, the `/seek` and `/switch` commands and `/status`) are proved against the functions of `registry.dfy`. The constructor establishes `Valid()`, and admission, message receipt, cleanup, `Dispatch`, both broadcasts and both commands keep it. The two loops `SendAll` and `RemoveAll` are steps inside `Dispatch`: they neither assume nor promise `Valid()`, and `Dispatch` restores it.
- `wire.dfy`: client and hub facing each other.
  - The client's auth frame is admitted exactly when the token has no colon and the configured type lowers to a role name.
  - The hub's own chatter never makes a client act.
  - A `/seek` command reaches the seeker's parser unchanged.

These are parameters of the model:
- The network's verdict on each send: `delivers: Session -> bool`. A `false` is a `ConnectionClosed`.
- VLC's duration answers.
- The draw of `random.randint`: a number `pick`, used as `pick % (duration + 1)`.
- The choice of `random.sample`: any sequence of the right number of distinct bucket members.
- The clock.
- The peer address and the `X-Forwarded-For` header: both `Option<string>`.

## Model

| member | source | states |
|---|---|---|
| Client.DurationOf | client.py:74-82 | an all-digit answer is read as its decimal value; a missing answer, an empty one, or one with a non-digit gives 0 |
| Client.DurationOfRendered | client.py:78-79 | a duration VLC prints in decimal is read back exactly |
| Client.DurationOfNonNumeric | client.py:78-82 | no answer, the empty answer and any answer holding a non-digit all give 0 |
| Client.Body | client.py:88 | what an `$`-anchored pattern must match: the timecode itself, or the timecode without its one final newline |
| Client.ParseTimecode | client.py:85-117 | `-1` always parses, to a position within the duration; a timecode that is rejected is neither `-1`, nor digits, nor digits followed by `%` (the full characterisation is `Client.AcceptedShapes`) |
| Client.AcceptedShapes | client.py:85-117 | a timecode is accepted exactly when it is `-1` or, up to one final newline, it is three colon-joined digit groups, two, one digit string, or digits followed by `%`; every other timecode gives `None` |
| Client.AcceptedHasShape | client.py:87-99 | what the two colon patterns accept is three, respectively two, digit groups joined by colons |
| Client.ShapeAccepted | client.py:87-99 | three or two colon-joined digit groups are accepted |
| Client.HoursMinutesSeconds | client.py:88-92 | three digit groups joined by colons give `h*3600 + m*60 + s`, whatever VLC reports |
| Client.MinutesSeconds | client.py:95-99 | two digit groups give `m*60 + s`, with no limit on the minutes or seconds |
| Client.Seconds | client.py:102-103 | a digit string gives its value |
| Client.SecondsRoundTrip | client.py:102-103 | the decimal rendering of any number of seconds parses back to that number |
| Client.RandomWithinDuration | client.py:113-115 | `-1` is not taken for digits; it gives the draw reduced into `[0, duration]`, and 0 when the duration is 0 |
| Client.RandomCoversDuration | client.py:113-115 | every position from 0 to the duration is a possible result of `-1` |
| Client.PercentWithinDuration | client.py:106-110 | for a duration below 2^53 seconds, `p%` with `p <= 100` gives `int(p * 0.01 * d)` computed in binary64, and that is at most the duration |
| Client.AcceptanceIgnoresOracles | client.py:85-117 | whether a timecode is accepted does not depend on VLC's answers or on the random draw |
| Client.HoursExample | client.py:88-92 | `01:02:03` is 3723 seconds |
| Client.MinutesExample | client.py:95-99 | `02:03` is 123 seconds |
| Client.UncheckedSecondsExample | client.py:95-99 | `01:75` is 135 seconds: the seconds are not range-checked |
| Client.SecondsExamples | client.py:102-103 | `45`, and `45` followed by a newline, are both 45 seconds |
| Client.PercentHalfExample | client.py:106-110 | `50%` of 200 seconds is 100 |
| Client.PercentBelowExample | client.py:106-110 | `29%` of 100 seconds is 28, because binary64 `29 * 0.01` lies just below 0.29 |
| Client.WordRejected | client.py:117 | `abc` is rejected |
| Client.EmptyRejected | client.py:117 | the empty timecode is rejected |
| Client.PaddedRandomRejected | client.py:113 | `-1 ` with a trailing blank is rejected, since only the exact text `-1` means random |
| Client.FourGroupsRejected | client.py:88-117 | four colon-separated digit groups match no pattern and are rejected |
| Client.AuthFrame | client.py:125 | the first frame splits at its first colon back into the token and the client type whenever the token has no colon |
| Client.SeekedReply | client.py:146 | the answer to a seek splits at blanks into `seeked`, the seconds, `of` and the duration |
| Client.FrameAction | client.py:134-154 | a seeker acts on exactly the frames starting with `/seek `; a switcher switches on exactly `/switch`; a seek uses the parse of the stripped timecode, tells VLC `seek <s>` and answers with the seek reply; a bad timecode is dropped silently |
| Client.RolesAreSeparate | client.py:135-152 | only a seeker seeks and only a switcher switches |
| Client.ReplyIffParsed | client.py:137-149 | a seeker answers a seek frame exactly when its stripped timecode parses |
| Client.BadTimecodeDropped | client.py:137-152 | a seek frame is dropped without an answer exactly when its stripped timecode is not `-1` and fits none of the four patterns |
| Client.SeekFrameSeeks | client.py:135-146 | a seek frame whose stripped timecode parses to `v` makes a seeker tell VLC `seek v` and answer `seeked v of d` |
| Client.SeekFrameExample | client.py:137 | `/seek  01:02:03 ` seeks to 3723, the surrounding blanks being stripped |
| Binary64.PercentAtMost | client.py:110 | for `p <= 100` and a duration below 2^53, binary64 `int(p * 0.01 * d)` is at most `d` |
| Binary64.PercentHalf | client.py:110 | binary64 `int(50 * 0.01 * 200)` is 100 |
| Binary64.PercentBelowExact | client.py:110 | binary64 `int(29 * 0.01 * 100)` is 28 |
| Binary64.HundredthsAtMostOne | client.py:110 | the rounded product `p * 0.01` is at most 1 for `p <= 100` |
| Binary64.RoundAtMost | client.py:110 | rounding to nearest never passes an integer bound below 2^53 that the exact value respects |
| Text.SplitOnce | server.py:119 | `split(c, 1)`: nothing when `c` is absent, otherwise the text before the first `c` and everything after it |
| Text.Split | server.py:140 | `split(c)`: the pieces between occurrences of `c`, none of them holding `c` |
| Text.JoinSplit | server.py:140 | joining the pieces of `split(c)` with `c` gives back the text |
| Text.SplitJoin | server.py:140 | splitting a `c`-join of pieces free of `c` gives back the pieces |
| Text.Strip | server.py:140 | `strip()` leaves no blank at either end (what it removes is fixed by `Text.StripPadded`) |
| Text.StripPadded | client.py:137 | stripping blanks around an unpadded text gives that text |
| Text.NatToString | client.py:146 | `str(n)`: a non-empty digit string whose value is `n`, with no leading zero unless it is `0` |
| Text.ValueLeadingZero | client.py:90 | `int()` of a digit string ignores a leading zero, so `01` and `1` are the same number |
| Text.Lower | server.py:126 | `lower()` keeps the length and small letters, and leaves no ASCII capital and no Kelvin sign |
| Text.LowerMatches | server.py:126 | a text lowers to a word of small ASCII letters exactly when each of its characters is that word's letter, its capital, or for `k` the Kelvin sign |
| Text.StartsWithIff | client.py:135 | `startswith(p)` holds exactly when the text is `p` followed by something |
| Server.RoleOf | server.py:126-127 | exactly `seeker` and `switcher` name a role |
| Server.ParseAuth | server.py:118-130 | the handshake's verdict on a first frame; a type it reports as invalid never names a role (the full characterisation is `Server.AcceptedIff` and `Server.UnauthorizedIff`) |
| Server.AcceptedIff | server.py:119-127 | a frame is accepted with a role exactly when it is the token, a colon, and a text that lowers to that role's name |
| Server.UnauthorizedIff | server.py:119-124 | a frame is unauthorized exactly when it does not start with the colon-free token and a colon |
| Server.ResolveIdentity | server.py:133-140 | a non-empty `X-Forwarded-For` gives its first comma-separated entry, stripped; otherwise the peer address, or `unknown` |
| Server.FirstForwardedWins | server.py:137-140 | the first forwarded address, whatever blanks surround it, wins over later entries and over the peer |
| Server.MajorityCount | server.py:76-77 | `max(1, n//2 + 1)` is at least 1 and is a strict majority of `n`, and one fewer would not be; it never exceeds a non-zero `n` |
| Server.MajorityIsLeast | server.py:76-77 | every strict majority of `n` is at least the count |
| Server.MajorityExamples | server.py:76-77 | 1 of 1, 2 of 2, 3 of 4, 3 of 5 |
| Server.SampleSize | server.py:79 | `min(k, n)` never exceeds `n`, and equals the majority count for any non-empty bucket |
| Server.PrefixIsSample | server.py:79 | a sample of the required size always exists |
| Server.SeekFrame | server.py:216-222 | the command frame is `/seek ` followed by the first argument, or by `0` without one |
| Server.HandshakeOutcome | server.py:116-161 | a rejected connection changes neither bucket nor `client_info` nor the notices, and gets, after the frames sent before, a diagnostic text frame to it (the `Authentication failed` text or the invalid-type text naming the type) then a close with code 1008 and the matching reason; an accepted one sits in its role's bucket only, has a fresh record with a zero counter, and is welcomed |
| Server.Hub.constructor | server.py:33-40 | both buckets empty, no records |
| Server.Hub.Status | server.py:247-255 | the two bucket sizes, and a total that equals the number of session records |
| Server.Hub.Admit | server.py:113-161 | the outcome is the parse of the first frame; the new state is the handshake's result for the resolved identity; the invariant is kept |
| Server.Hub.RecordMessage | server.py:164-168 | a message on a recorded session increments its counter and is echoed; on an unrecorded one (the `KeyError` path) nothing changes and the handler gives up |
| Server.Hub.Cleanup | server.py:174-188 | the `finally` clause: the state becomes the cleaned-up state, and the invariant is kept |
| Server.Hub.SendAll | server.py:49-54 | one send attempt per recipient, in order; the failed set is exactly the sessions whose send failed |
| Server.Hub.RemoveAll | server.py:56-60 | each failed session leaves bucket `role` and loses its record; the other bucket, the sent frames and the notices are unchanged |
| Server.RemoveSessions | server.py:56-60 | the clean-up loop, whatever order it takes the failed set in, ends with the original bucket minus the failed sessions in their old order, and the record table minus exactly the failed sessions |
| Server.RemovalStep | server.py:57-60 | one removal step of the loop agrees with removing the grown failed set from the original bucket |
| Server.Hub.Dispatch | server.py:43-66 | a best-effort broadcast to members of one bucket reaches the dispatched state |
| Server.Hub.BroadcastToRole | server.py:43-66 | `broadcast_to_clients_by_type`: an empty bucket changes nothing; otherwise every member is tried once, the failures are removed, and a notice follows |
| Server.Hub.BroadcastToRandomSeekers | server.py:69-100 | the recipients are a sample of the seekers of the majority size (none when there are no seekers), and the state is their dispatch |
| Server.Hub.SeekCommand | server.py:206-225 | no seekers: the reply says so and nothing changes; otherwise the reply's count is the majority count, is exactly the number of recipients, and the frame is the seek frame |
| Server.Hub.SwitchCommand | server.py:228-239 | no switchers: the reply says so and nothing changes; otherwise every switcher is sent `/switch` |
| Registry.InitialWellFormed | server.py:33-40 | the initial registry satisfies the invariant |
| Registry.Name | server.py:29-31 | the two role names |
| Registry.Without | server.py:57-60 | removing a set from a bucket keeps exactly the members outside the set |
| Registry.WithoutNoDup | server.py:57-60 | removal keeps a bucket free of duplicates |
| Registry.WithoutLength | server.py:62-64 | removing `m` distinct present sessions from a duplicate-free bucket leaves `|bucket| - m` |
| Registry.WithoutKeepsOrder | server.py:57-60 | two survivors keep their relative order, in both directions |
| Registry.RemoveFirst | server.py:59 | `list.remove` of a present session shortens the bucket by one (which element goes is `Registry.RemoveFirstTakesFirst`) |
| Registry.RemoveFirstTakesFirst | server.py:59 | `list.remove`: the bucket loses exactly the first occurrence of the session, everything before and after it kept |
| Registry.RemoveFirstIsWithout | server.py:58-59 | on a duplicate-free bucket `list.remove` of a member is removal of that one session |
| Registry.AttemptsOnce | server.py:50-54 | with distinct recipients each is tried exactly once and no one else is tried |
| Registry.DispatchNothing | server.py:45-47 | broadcasting to no recipient changes nothing |
| Registry.DispatchEffect | server.py:56-60 | after a broadcast the failed sessions are in neither bucket and have no record; the others keep their place, order and record; the other bucket is untouched |
| Registry.DispatchKeepsWellFormed | server.py:43-66 | a broadcast keeps the registry invariant |
| Registry.DispatchReport | server.py:50-66 | each recipient gets one more attempt and nobody else does; a notice follows exactly when some send failed, and it reports the failures and the remaining count |
| Registry.AdmittedPlacesOnce | server.py:143-156 | an admitted session is in exactly one bucket, at its end, once, with a fresh record, and the notice reports the new count |
| Registry.CleanupAbsent | server.py:176-188 | cleaning up a session that has no record changes nothing |
| Registry.CleanupIdempotent | server.py:174-188 | cleaning up twice is cleaning up once |
| Registry.CleanupRemoves | server.py:174-188 | after cleanup the session is in no bucket and has no record, everything else is kept, and the invariant holds |
| Registry.CleanupUndoesAdmission | server.py:143-188 | admitting a session and cleaning it up restores the buckets and the records |
| Registry.MessageCounts | server.py:164-168 | a message increments exactly its own session's counter and changes no bucket |
| Registry.DistinctCount | server.py:247-254 | a duplicate-free bucket's size is the number of its distinct sessions |
| Registry.BucketsCountRecords | server.py:247-254 | in a well-formed registry the two bucket sizes add up to the number of records |
| Wire.RoleNamesAgree | client.py:135-152 | the client's role names and `/switch` frame are the hub's |
| Wire.AuthRoundTrip | server.py:119-127 | the client's first frame is accepted with a role exactly when the token has no colon and the configured type lowers to that role's name |
| Wire.ConfiguredRoleAdmitted | server.py:119-127 | a client configured as `seeker` or `switcher`, with a colon-free token, is admitted with that role |
| Wire.AnyCaseAdmitted | server.py:119-127 | with a colon-free token, any spelling of a role name in any letter case, the Kelvin sign standing for `k`, is admitted with that role |
| Wire.IgnoredFrame | client.py:134-154 | a frame not starting with `/`, the empty frame included, makes no client act |
| Wire.HubChatterIgnored | server.py:159-168 | the welcome, both diagnostics and the echo the hub sends make no client act |
| Wire.SeekCommandReachesSeeker | server.py:216-222 | a seeker receiving the hub's seek frame for an unpadded argument seeks exactly when that argument parses, to its value; with no argument it seeks to 0 |
| Wire.CommandsReachTheirRole | server.py:222-239 | a seek frame never moves a switcher, `/switch` never moves a seeker, and `/switch` always switches a switcher |

## Left out

- Networking, the Telegram bot and the aiohttp health endpoint are not modelled. Neither are process start-up, argument parsing and environment configuration. They are I/O and plumbing. Sends are an oracle, and operator notices are recorded as structured `Notice` values, without their text or emoji.
- `check_authorized`: the chat-id gate in front of each command is left out. The commands are modelled for an authorized chat.
- `send_notification`: delivery to the chat, and its swallowed exceptions, are left out. Only the notice itself is recorded.
- Concurrency: each handler step and each broadcast is modelled as atomic. Interleavings across `await` points are left out. So is iterating a bucket while another coroutine removes from it.
- Exceptions other than `ConnectionClosed`, whether in a broadcast's send or in the handshake, are left out, and so are their `print`s.
- The missing-header lookup: `headers['X-Forwarded-For']` is modelled as an optional string. An absent header falls back to the peer address. Whatever the library does instead when the header is missing is not modelled.
- VLC: starting it, the telnet-style exchange in `send_command_to_vlc`, its responses and its exceptions are left out. They are I/O. The stripped response of `get_length` is a parameter of `DurationOf`, `None` standing for a failed exchange.
- The client's reconnect loop, sleeps and logging are left out.
- The start-up seek to `randint(0, int(duration * 0.8))` (client.py:229-235) is left out. It is start-up I/O outside the per-frame decision.
- Client.ParseTimecode: `\d` and `int()` are modelled on ASCII digits only (`Text.IsDigit`). Python also accepts other Unicode decimal digits. `int()`'s limit on the number of digits is not modelled.
- Client.DurationOf: `isdigit()` and `int()` on VLC's answer are modelled on ASCII digits only (`Text.IsDigit`). An answer in other Unicode decimal digits, such as `٣`, gives 0 here where Python reads it as 3.
- Text.Lower: covers ASCII letters and the Kelvin sign (the only non-ASCII character that lowers to an ASCII letter). Other characters are kept as they are. That is exact for deciding whether a role name matches, not for the diagnostic text.
- Client.PercentWithinDuration: requires a duration below 2^53 seconds, as Binary64.PercentAtMost does. Beyond that, `float(d)` rounds and the bound is not stated.
- Binary64.PercentAtMost: states the bound only for `p <= 100` and durations below 2^53 seconds. Larger percentages seek past the end, as the source does. The binary64 model has an unbounded exponent, so overflow to infinity for absurdly long digit strings is not modelled.
- Server.Hub.BroadcastToRandomSeekers: the uniform distribution of `random.sample` is not modelled. Any sequence of the right number of distinct seekers is allowed, and their order counts only as the order of sending.
- Frames sent as bytes and the client's receive-loop error handling are left out.
