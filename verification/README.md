# Dafny model of asterisk-rs

asterisk-rs is a telephony server. This project models the parts of it that keep state over
long runs, and proves what they promise for every input, every run and every interleaving:

- **AMI connections** (`Framing`, `Utf8Lossy`, `Connection`, `LongLines`, `Admission`, `AmiProtocol`,
  `Wire`): many connections share one counter of unauthenticated sessions; each reads its bytes
  line by line under byte caps, decodes them as lossy UTF-8, cuts the text at blank lines, and
  parses actions.
- **AMI sessions** (`RateLimit`, `Session`, `Logins`, `Calendar`): the per-source login limiter, the
  dispatcher with its authority table, login by secret or by MD5 challenge, and the calendar
  conversion of the listing handlers.
- **Conferences** (`Conference`, `ConferenceEffects`, `ConferenceRuns`, `ConferenceCases`, `Sfu`): one
  ConfBridge conference with its redundant state, all interleavings of the tasks that share it, and the
  payload type allocator of selective-forwarding re-INVITEs.
- **The mixer** (`G711`, `Softmix`, `Mixer`, `MixerRuns`): the G.711 codecs, the mix-minus core,
  the per-leg queues with their 20 ms tick, and what becomes of every sample over a run.
- **Dial** (`DialWait`, `DialOptions`): the loop that polls parallel legs until one answers, and the
  scanner of the option string.

Code that updates state in place is modelled by classes and methods with loops; each is proved
against a function of the old state, and the properties are proved of those functions, over
sequences of steps for the results about runs. Time, the network, the peer, other tasks, the
MD5 digest and the order in which hash maps are walked are parameters or free choices, so every
result holds whatever they do.

## Results that are not what one would expect

Some promised properties do not hold of the code. Each has an exact condition and a case that
breaks it.

- `leave_conference` sweeps out the remaining users under a second lock. A marked user who joins
  between the two locks is swept out without being counted down, and the conference goes on with
  a count that is too high (`SweepLosesCount`). The count is right exactly as long as no sweep has
  met a marked user (`RedundantStateAgrees`); it is if no marked non-admin is inserted while a
  sweep is due (`CountIsExact`), and a sweep right after its first section never meets one
  (`SweepAtOnceIsClean`).
- Joins check the member limit and insert under separate locks. The limit holds in every
  interleaving exactly when at most one joiner is between the two (`LimitHoldsExactly`).
- Kicking the last marked user does not make the others wait again
  (`KickKeepsWaitingExactly`, `KickAllKeepsWaitingExactly`, `KicksEndWaiting`).
- The last joiner on record goes stale when it is kicked or swept out with all non-admins, and is
  wrong when a joiner overtakes one with a later join time (`LastKeptExactly`, `KickAllLeavesStale`).
- The payload type allocator is sound exactly when the streams that need a dynamic type and the
  participant's own dynamic types fit the 29 types from 99 to 127 (`SoundExactly`); otherwise its
  8-bit counter leaves the range of RTP payload types.
- After authentication a line over 8192 bytes is read in pieces that are decoded alone, so a
  character across a cut is lost (`CharacterIsCut`). The text is right exactly when no cut falls
  inside a character (`DecodedExactly`); messages, their number and their ASCII bytes always are
  (`CutsKeepMessages`).
- An action id survives printing and parsing, in every header order, exactly when all spellings
  of the ActionID header agree with it (`IdSurvivesExactly`).
- The date is exact exactly while the day count fits 32 bits (`FormatEpochDate`).
- Mu-law has two codes for zero, so one byte in 256 changes when it is decoded and encoded again
  (`MulawRoundTrip`).

## Model

| member | source | states |
|---|---|---|
| Framing.ReadMessageIsFirst | crates/asterisk-ami/src/protocol.rs:378-386 | `read_message` finds the terminator that starts earliest, and finds one whenever there is one |
| Framing.TerminatorEndsBuffer | crates/asterisk-ami/src/server.rs:455-504 | fed with chunks that have a line feed only at their end, a buffer's first terminator ends exactly at the buffer's end, so clearing the whole buffer loses nothing |
| Framing.FramesPartition | crates/asterisk-ami/src/protocol.rs:378-386 | reading message after message splits a stream into its messages and an open rest without losing or adding anything |
| Framing.FramesOfMessages | crates/asterisk-ami/src/protocol.rs:378-386 | messages sent back to back are framed as exactly those messages |
| Utf8Lossy.LossyGrowth | crates/asterisk-ami/src/server.rs:441-452 | lossy decoding grows its input at most threefold |
| Utf8Lossy.LossyCut | crates/asterisk-ami/src/server.rs:441-452 | decoding line by line is decoding the whole: it can be cut after any ASCII byte |
| Utf8Lossy.LossyReadMessage | crates/asterisk-ami/src/server.rs:441-504 | decoding neither creates, destroys nor moves the first blank line of any byte string |
| Utf8Lossy.LossyFrames | crates/asterisk-ami/src/server.rs:441-504 | framing and decoding commute, for every byte string |
| Connection.Serve | crates/asterisk-ami/src/server.rs:383-511 | the read loop hands on a prefix of the one-shot framing of the decoded stream, all of it if the peer closes; while unauthenticated its buffer never exceeds 65536 + 3 * 8192 bytes; the caps fire only on a line or message that is too long, and only before authentication, and there they do fire: no message over the cap is handed on and no stream with too long a line is read to its end; the deadline and a failed read end it at once |
| Connection.BufferStep | crates/asterisk-ami/src/server.rs:441-504 | one line more either leaves the buffer open or completes exactly the first frame of what is still to come |
| Connection.ShortPiecesExactly | crates/asterisk-ami/src/server.rs:396-440 | no read stops at the cap if and only if the stream has no 8192 bytes without a line feed |
| LongLines.CutExactly | crates/asterisk-ami/src/server.rs:441-452 | decoding a stream in two pieces is decoding the whole if the cut is between two steps of the decoder, and gives a longer text if it is inside one |
| LongLines.DecodedExactly | crates/asterisk-ami/src/server.rs:396-452 | what the loop sees is the decoded stream if and only if no piece it reads ends inside a character; it never does when the lines fit the cap |
| LongLines.FramesExactly | crates/asterisk-ami/src/server.rs:396-504 | the messages are the decoded messages of the raw stream if and only if the same |
| LongLines.CharacterIsCut | crates/asterisk-ami/src/server.rs:396-452 | any line with a two-byte character across the 8192-byte cap loses it |
| LongLines.CutsKeepMessages | crates/asterisk-ami/src/server.rs:396-504 | for every stream and whatever is cut, the loop finds as many messages as were sent, with the same ASCII bytes in the same places, and those of ASCII only unchanged |
| LongLines.AsciiStreamIsKept | crates/asterisk-ami/src/server.rs:396-452 | a stream of ASCII is seen as it is, however long its lines |
| Admission.RunKeepsInv | crates/asterisk-ami/src/server.rs:278-296 | every interleaving of reserve, roll back, authenticate and release, step by step, keeps the wrapping counter equal to the slots held |
| Admission.AdmissionHolds | crates/asterisk-ami/src/server.rs:278-519 | in every run the counter is the number of held slots, nobody releases more than they reserved, whoever is past the gate without having authenticated holds a slot, at most the limit of those past the gate hold one, and the counter is zero when all are done |
| Admission.ReleasedExactlyOnce | crates/asterisk-ami/src/server.rs:513-519 | every finished connection reserved once and released once |
| Admission.RefusedExactly | crates/asterisk-ami/src/server.rs:278-296 | in every run a connection is refused if and only if there is a limit and that many others held a slot at the moment it reserved; otherwise it is greeted |
| AmiProtocol.Serialize | crates/asterisk-ami/src/protocol.rs:96-105 | the output is the printed action for some order of its header map |
| AmiProtocol.Parse | crates/asterisk-ami/src/protocol.rs:62-93 | the parsing loop is the line-by-line fold that the round trips are about |
| AmiProtocol.ParsesExactly | crates/asterisk-ami/src/protocol.rs:62-93 | a text parses if and only if one of its header lines names an action, and the last that does gives the name |
| AmiProtocol.PaddedLine | crates/asterisk-ami/src/protocol.rs:62-93 | white space around keys and values does not matter, and a line without a colon says nothing |
| AmiProtocol.RoundTrip | crates/asterisk-ami/src/protocol.rs:62-105 | for every sendable action and every header order, parsing what was printed gives back name, action id and headers, plus the Action entry |
| AmiProtocol.IdSurvivesExactly | crates/asterisk-ami/src/protocol.rs:62-105 | the action id survives every header order if and only if every spelling of ActionID carries it |
| AmiProtocol.BuildIsSendable | crates/asterisk-ami/src/protocol.rs:36-43 | whatever is built with `set_header` from clean fields can be sent |
| AmiProtocol.BuiltRoundTrip | crates/asterisk-ami/src/protocol.rs:36-105 | built, printed and parsed actions come back |
| AmiProtocol.PrintIsOneMessage | crates/asterisk-ami/src/protocol.rs:96-105 | a printed action is exactly one message to `read_message` |
| AmiProtocol.StreamRoundTrip | crates/asterisk-ami/src/protocol.rs:62-105 | any list of actions printed back to back is framed and parsed into that list, with nothing left over |
| Wire.LossyKeepsUtf8 | crates/asterisk-ami/src/server.rs:441-452 | lossy decoding keeps every well-formed UTF-8 text as it is |
| Wire.WellFormedExactly | crates/asterisk-ami/src/server.rs:441-452 | a step of the decoder is well formed if and only if the UTF-8 encoding of some character comes next |
| Wire.IllFormedIsMaximal | crates/asterisk-ami/src/server.rs:441-452 | an ill-formed step takes the longest piece that could still have become a character |
| Wire.Utf8ReadMessage | crates/asterisk-ami/src/protocol.rs:378-386 | the first blank line of the bytes is the encoded first blank line of the text |
| Wire.ActionsArrive | crates/asterisk-ami/src/server.rs:383-504 | any sendable actions, printed in any header order and encoded, are framed by the server into as many messages with nothing left over; all arrive as sent if and only if no character is cut at the line cap, and those of ASCII always do |
| Wire.MessageParses | crates/asterisk-ami/src/protocol.rs:62-105 | whatever text has the bytes of a sent message parses to the action sent |
| Wire.ServeActions | crates/asterisk-ami/src/server.rs:383-511 | the read loop fed with such a stream hands on the actions in order, all of them if the client closes, as sent unless a character is cut; lines and messages that fit the caps never end the connection |
| RateLimit.LoginRateLimiter.Check | crates/asterisk-ami/src/rate_limit.rs:82-99 | a blocked source is told how long to wait; once its block has elapsed its entry stays, with no block and no failures |
| RateLimit.LoginRateLimiter.RecordFailure | crates/asterisk-ami/src/rate_limit.rs:102-130 | one more failure in the window, or a new window, and a block at the threshold; other sources untouched |
| RateLimit.LoginRateLimiter.RecordSuccess | crates/asterisk-ami/src/rate_limit.rs:133-135 | the source is forgotten |
| RateLimit.RunIsBatched | crates/asterisk-ami/src/rate_limit.rs:82-130 | in every run the recorded failures of a source fall into windows that are apart and hold at most the threshold |
| RateLimit.ThrottledExactly | crates/asterisk-ami/src/rate_limit.rs:82-130 | in every failing run a source is throttled, and told for how long, if and only if its last failures fill one window, by a law of windows that does not refer to the entry, and the block after them is not over |
| RateLimit.OldFailuresDoNotBlock | crates/asterisk-ami/src/rate_limit.rs:113-130 | a throttled source has as many failures as the threshold no further apart than the window |
| RateLimit.FirstFailuresBlock | crates/asterisk-ami/src/rate_limit.rs:102-130 | the first failures, as many as the threshold within one window, do throttle until the block is over |
| RateLimit.FreshStart | crates/asterisk-ami/src/rate_limit.rs:133-135 | once a source is forgotten, later logins are judged as if nothing had been before |
| RateLimit.FailuresBounded | crates/asterisk-ami/src/rate_limit.rs:82-135 | any span of length T holds at most m * (2 + T / min(window, block)) recorded failures of a source, any shorter than the minimum at most 2m - 1 |
| RateLimit.BlockedStaysBlocked | crates/asterisk-ami/src/rate_limit.rs:82-99 | while a source is blocked nothing anyone sends records a failure for it or moves its block |
| Session.AmiSession.HandleLogin | crates/asterisk-ami/src/actions.rs:342-418 | the outcome, the new session state and what the limiter saw, for throttled, plain, MD5, unknown-user and keyless logins |
| Session.AmiSession.Dispatch | crates/asterisk-ami/src/actions.rs:146-211 | the reply and the new state for every action, and that only Login touches the limiter |
| Session.SessionIsItsHistory | crates/asterisk-ami/src/session.rs:67-93 | a session is authenticated exactly while a verified Login has had no Logoff after it, and then has that account's permissions |
| Session.WriteNeedsLogin | crates/asterisk-ami/src/actions.rs:62-211 | a handler classified as writing runs if and only if it is registered and the Login in force may write one of its categories; it leaves the session as it was |
| Session.FailClosed | crates/asterisk-ami/src/actions.rs:146-211 | no handler runs without a Login in force, and none that the table does not classify |
| Session.EventsNeedLogin | crates/asterisk-ami/src/session.rs:96-103 | events reach a session only under a Login whose account may read them |
| Session.ChallengeIsPending | crates/asterisk-ami/src/actions.rs:440-455 | the stored challenge is the last one issued and not yet checked |
| Session.ChallengesAreSingleUse | crates/asterisk-ami/src/actions.rs:342-455 | two MD5 checks never use the same issued challenge |
| Session.ChecksAtMostChallenges | crates/asterisk-ami/src/actions.rs:342-455 | checks and the pending challenge together are at most the challenges issued |
| Session.AcceptedIsVerified | crates/asterisk-ami/src/auth.rs:136-162 | every accepted Login was not throttled and gave the account's secret or the digest of the pending challenge |
| Logins.AcceptedExactly | crates/asterisk-ami/src/actions.rs:342-418 | in every history a registered, unthrottled Login of a known user is accepted, for that account, if and only if it carries the secret and no key, or as key the digest of the outstanding challenge |
| Logins.JudgedExactly | crates/asterisk-ami/src/actions.rs:342-418 | the limiter is told of a success exactly if a Login is accepted and of nothing exactly if it is throttled or incomplete; everything else is a failure |
| Logins.ChallengeUsedExactly | crates/asterisk-ami/src/actions.rs:371-408 | a Login uses the challenge up exactly if it is an MD5 response of a known user, right or wrong |
| Logins.AuthorityTable | crates/asterisk-ami/src/actions.rs:62-97 | which actions need no login, which write category, and which only a login |
| Logins.ReadOnlyRunsExactly | crates/asterisk-ami/src/actions.rs:146-211 | a read-only action runs if and only if it is registered and a Login is in force; Logoff ends that Login |
| Logins.ChallengeIssuedExactly | crates/asterisk-ami/src/actions.rs:440-455 | a challenge is issued, and outstanding, if and only if it is asked for with MD5 or no type |
| Logins.EventsReceivedExactly | crates/asterisk-ami/src/session.rs:96-103 | an event reaches a session if and only if a Login is in force that may read it and the mask set last lets it through |
| Calendar.FormatEpochDate | crates/asterisk-ami/src/actions.rs:2519-2544 | a valid Gregorian date whose day number is the day count cut to 32 bits, exact if and only if it fits |
| Calendar.DayNumberIsMonotone | crates/asterisk-ami/src/actions.rs:2519-2557 | day numbers order dates and tell them apart, so the conversion is the inverse of counting days |
| Conference.ConferenceObject.EnterConference | crates/asterisk-apps/src/confbridge.rs:1356-1400 | the whole new state after an insertion: waiting, muting, marking and activation |
| Conference.ConferenceObject.LeaveSection | crates/asterisk-apps/src/confbridge.rs:1552-1621 | the whole new state after the first section of a leave, and whether a sweep is due |
| Conference.ConferenceObject.SweepSection | crates/asterisk-apps/src/confbridge.rs:1624-1639 | the end-marked sweep removes exactly the non-admins |
| Conference.ConferenceObject.LeaveConference | crates/asterisk-apps/src/confbridge.rs:1541-1669 | both sections of a leave, one after the other |
| Conference.ConferenceObject.KickUser | crates/asterisk-apps/src/confbridge.rs:1792-1820 | removal by a kick, with the marked count and the last joiner |
| Conference.ConferenceObject.KickAllParticipants | crates/asterisk-apps/src/confbridge.rs:1823-1856 | all non-admins go and the marked count drops by the marked ones among them |
| Conference.ConferenceObject.RefreshLast | crates/asterisk-apps/src/confbridge.rs:1878-1885 | its third section puts a latest joiner on record and changes nothing else |
| Conference.ConferenceObject.KickLastJoined | crates/asterisk-apps/src/confbridge.rs:1862-1891 | with nothing in between its three sections, the user on record as last goes, if still there, and a latest joiner is on record |
| Conference.ConferenceObject.MuteUser | crates/asterisk-apps/src/confbridge.rs:1698-1716 | one user's mute flag and nothing else |
| Conference.ConferenceObject.ToggleMuteParticipants | crates/asterisk-apps/src/confbridge.rs:1894-1912 | all non-admins take the toggled flag |
| ConferenceEffects.JoinAllowedExactly | crates/asterisk-apps/src/confbridge.rs:1328-1349 | a join passes its check if and only if the conference is unlocked or the user is admin, and there is room |
| ConferenceEffects.MembersAfter | crates/asterisk-apps/src/confbridge.rs:1356-1856 | who is a member after each step |
| ConferenceEffects.EntersAs | crates/asterisk-apps/src/confbridge.rs:1356-1382 | how a user comes in: waiting and muted if waiting is required, muted if all non-admins are |
| ConferenceEffects.FlagsAfter | crates/asterisk-apps/src/confbridge.rs:1356-1912 | what each step does to each member who stays: role kept, and exactly when they wait, are muted and are deaf |
| ConferenceEffects.SwitchesAfter | crates/asterisk-apps/src/confbridge.rs:1356-1948 | exactly when the conference is locked, all-muted and active |
| ConferenceEffects.SweepDueExactly | crates/asterisk-apps/src/confbridge.rs:1580-1639 | a sweep is called for exactly when the last counted marked user leaves a conference that ends then |
| ConferenceEffects.ActiveExactly | crates/asterisk-apps/src/confbridge.rs:1383-1602 | in every run where no kick hits a marked user, a conference that waits for marked users is active exactly while one is counted |
| ConferenceRuns.StepIsBasic | crates/asterisk-apps/src/confbridge.rs:1319-1948 | every step of every task keeps the bridge equal to the members, the marked count at least the marked members, and waiting users only without a counted marked user; only a sweep makes the count run ahead, by the marked members it removes |
| ConferenceRuns.RedundantStateAgrees | crates/asterisk-apps/src/confbridge.rs:1356-1856 | in every interleaving bridge and members agree, no decrement of the marked count saturates, and the count is the number of marked members if and only if no sweep so far met one |
| ConferenceRuns.SweepAtOnceIsClean | crates/asterisk-apps/src/confbridge.rs:1580-1639 | a sweep right after the section that asked for it removes no marked user |
| ConferenceRuns.CountIsExact | crates/asterisk-apps/src/confbridge.rs:1356-1639 | in every run where no marked non-admin is inserted while a sweep is due, no sweep meets a marked user and the marked count is exact throughout |
| ConferenceCases.SweepLosesCount | crates/asterisk-apps/src/confbridge.rs:1541-1639 | a run that ends with an awake, unmarked host alone in a conference that counts one marked user |
| ConferenceRuns.KickKeepsWaitingExactly | crates/asterisk-apps/src/confbridge.rs:1792-1820 | a kick keeps everyone waiting if and only if it does not remove the last counted marked user while others remain |
| ConferenceRuns.KickAllKeepsWaitingExactly | crates/asterisk-apps/src/confbridge.rs:1823-1856 | the same for kicking all non-admins while admins remain |
| ConferenceCases.KicksEndWaiting | crates/asterisk-apps/src/confbridge.rs:1792-1856 | a reachable conference where either kick leaves the host awake with no marked user counted |
| ConferenceRuns.RunKeepsWaiting | crates/asterisk-apps/src/confbridge.rs:1368-1602 | in every run where no kick hits a marked user, all members wait whenever waiting is required and no marked user is counted |
| ConferenceRuns.CapacityBound | crates/asterisk-apps/src/confbridge.rs:1328-1382 | with at most P joiners between check and insert, members never exceed the limit plus P - 1 |
| ConferenceRuns.LimitHoldsExactly | crates/asterisk-apps/src/confbridge.rs:1328-1382 | whatever the limit, it holds in all interleavings if and only if joins come one at a time |
| ConferenceRuns.RunIsTracked | crates/asterisk-apps/src/confbridge.rs:1024-1028 | in every run, members and the last joiner on record are channels that have been inserted and not yet left |
| ConferenceRuns.DeniedJoinLeavesNoTrace | crates/asterisk-apps/src/confbridge.rs:1024-1349 | at every moment of every run, the `leave_conference` that follows a denied join changes nothing and asks for no sweep |
| ConferenceRuns.LastKeptExactly | crates/asterisk-apps/src/confbridge.rs:1356-1891 | a step keeps the last joiner on record current if and only if it inserts nobody with an earlier join time than a member and does not sweep or kick the user on record away with all non-admins |
| ConferenceRuns.RunKeepsLast | crates/asterisk-apps/src/confbridge.rs:1356-1891 | in every run of such steps it is current at every moment |
| ConferenceCases.KickAllLeavesStale | crates/asterisk-apps/src/confbridge.rs:1823-1891 | a reachable conference, not empty, where kicking all leaves a stale record and `kick_last` has nothing to do |
| ConferenceRuns.KickLastEmpties | crates/asterisk-apps/src/confbridge.rs:1862-1891 | repeated calls remove latest joiners first, in non-increasing join time, and empty the conference after exactly as many calls as members |
| Sfu.BuildSfuSdp | crates/asterisk-apps/src/confbridge.rs:1178-1237 | own media lines are kept in front; each other stream gets one video line with the allocated type as its only format, the stream's codec and rate in its rtpmap, port 4050 and sendrecv, or port 0 and inactive exactly if it has departed |
| Sfu.PassUsed | crates/asterisk-apps/src/confbridge.rs:1185-1210 | the search for the next unused dynamic type, with its 8-bit counter |
| Sfu.SkipFindsFree | crates/asterisk-apps/src/confbridge.rs:1185-1210 | it finds an unused type in range if one is free above the counter, and otherwise leaves the range or reuses a type |
| Sfu.SoundExactly | crates/asterisk-apps/src/confbridge.rs:1178-1237 | all given types are distinct, new and at most 127 if and only if the streams that need one and the own dynamic types are at most 29, and then the counter has not wrapped |
| Sfu.TypesKeptExactly | crates/asterisk-apps/src/confbridge.rs:1185-1210 | while the pool lasts, a stream keeps its type exactly if that is static and unused, and otherwise gets a dynamic one |
| Sfu.OwnTypesAreFormats | crates/asterisk-apps/src/confbridge.rs:1179-1183 | the types to avoid are the formats of the own media lines |
| G711.MulawTableIsLaw | crates/asterisk-codecs/src/ulaw_table.rs:8-41 | every entry of the decoding table is the value of its sign, exponent and mantissa |
| G711.MulawEncodersAgree | crates/asterisk-codecs/src/ulaw_table.rs:43-133 | the encoder that looks the exponent up and the one that compares agree on all 65536 samples |
| G711.MulawRoundTrip | crates/asterisk-codecs/src/ulaw_table.rs:92-133 | decoding and encoding gives every byte back, except the second code for zero |
| G711.MulawError | crates/asterisk-codecs/src/ulaw_table.rs:100-133 | for every unclipped sample the error is at most a thirty-second of the biased magnitude |
| G711.AlawTableIsLaw | crates/asterisk-codecs/src/alaw_table.rs:8-41 | every entry of the decoding table is the level of its row and place |
| G711.LinearToAlawFast | crates/asterisk-codecs/src/alaw_table.rs:55-77 | the searching loop, with its early exit, finds the first nearest code of the sample's sign |
| G711.AlawIsNearest | crates/asterisk-codecs/src/alaw_table.rs:55-77 | no code of the sample's sign is nearer than the one found |
| G711.AlawRoundTrip | crates/asterisk-codecs/src/alaw_table.rs:55-83 | decoding and encoding gives every byte back |
| Softmix.SoftmixData.Mix | crates/asterisk-core/src/bridge/softmix.rs:112-162 | every channel gets the clamped sum of all the others, and all contributions are cleared; without channels nothing changes |
| Softmix.SumSplit | crates/asterisk-core/src/bridge/softmix.rs:120-133 | the order in which channels are summed does not matter |
| Softmix.TotalMinusOwn | crates/asterisk-core/src/bridge/softmix.rs:135-154 | subtracting a channel from the total, even a wrapped one, is the sum of the others |
| Softmix.NoWrap | crates/asterisk-core/src/bridge/softmix.rs:120-133 | up to 65536 channels no 32-bit sum wraps, whichever of them it covers |
| Softmix.ClampIsNearest | crates/asterisk-core/src/bridge/softmix.rs:149-151 | clamping gives the nearest 16-bit sample |
| Softmix.WrapHappens | crates/asterisk-core/src/bridge/softmix.rs:120-133 | with 65537 channels it can |
| Mixer.ConferenceMixer.Ingest | crates/asterisk-apps/src/confbridge_mix.rs:350-380 | the queue is the last 1600 samples of the old queue and the decoded payload; the codec is taken from the first G.711 frame; anything else changes nothing |
| Mixer.ConferenceMixer.MixTick | crates/asterisk-apps/src/confbridge_mix.rs:387-465 | the snapshot drops absent legs and refreshes flags before anything is drained; muted queues are emptied, full frames taken; every leg with a codec, and no other, gets the encoded sum of the others, or silence if deaf |
| Mixer.ConferenceMixer.AddParticipant | crates/asterisk-apps/src/confbridge_mix.rs:257-309 | a leg starts empty and unmuted with its negotiated codec, also when it joins again |
| Mixer.ConferenceMixer.Remove | crates/asterisk-apps/src/confbridge_mix.rs:173-182 | a leg goes with its buffers; the others stay as they are |
| Mixer.ConferenceMixer.Shutdown | crates/asterisk-apps/src/confbridge_mix.rs:334-345 | nothing is left and the mixer is stopped |
| MixerRuns.OwnVoiceUnheard | crates/asterisk-apps/src/confbridge_mix.rs:416-465 | no change of a leg's own queue or mute flag changes its own frame |
| MixerRuns.QuietUnheard | crates/asterisk-apps/src/confbridge_mix.rs:418-438 | a muted leg, or one with less than a frame queued, sounds to the others as if it were not there |
| MixerRuns.DeafHearsSilence | crates/asterisk-apps/src/confbridge_mix.rs:443-464 | a deaf leg gets 0xFF in mu-law or 0xD5 in A-law in every byte, whatever is said |
| MixerRuns.DeafnessIsPrivate | crates/asterisk-apps/src/confbridge_mix.rs:443-464 | whether a leg is deaf changes no other leg's frame |
| MixerRuns.SnapshotDecides | crates/asterisk-apps/src/confbridge_mix.rs:392-414 | a leg stays, with queue and codec, exactly if some member has its name, and takes that member's flags |
| MixerRuns.DeafMemberHearsSilence | crates/asterisk-apps/src/confbridge.rs:675-685 | a member who is deaf in the snapshot gets silence |
| MixerRuns.MutedMemberUnheard | crates/asterisk-apps/src/confbridge.rs:675-685 | a member who is muted or waiting in the snapshot is heard by nobody, one who is neither exactly if a frame is queued |
| MixerRuns.CodecsOfPayloadTypes | crates/asterisk-apps/src/confbridge_mix.rs:98-140 | payload types 0 and 8, and no others, are mu-law and A-law |
| MixerRuns.CodecIsLatched | crates/asterisk-apps/src/confbridge_mix.rs:350-380 | over any run a known codec stays for as long as the leg does, and an unknown one is that of the next frame that can be mixed |
| MixerRuns.HeardExactly | crates/asterisk-apps/src/confbridge_mix.rs:440-465 | a leg hears the exact sum of the others if and only if it is a 16-bit sample, and with up to 65537 legs always that sum clamped |
| MixerRuns.TwoPartyIsTransparent | crates/asterisk-apps/src/confbridge_mix.rs:350-465 | between two legs of one codec a frame goes through byte for byte, but for mu-law's second zero |
| MixerRuns.RunBalances | crates/asterisk-apps/src/confbridge_mix.rs:173-438 | in every run, for every name and through leaving, being dropped and joining again: each sample ever queued has one fate, mixed, overflowed, thrown away muted or gone with its leg, or is still queued; the queue holds the newest at most 1600, and the mixed ones are whole frames in order |
| MixerRuns.SamplesAreConserved | crates/asterisk-apps/src/confbridge_mix.rs:173-438 | samples queued = 160 * frames mixed + overflowed + thrown away muted + gone with a leg + still queued |
| MixerRuns.BooksGrow | crates/asterisk-apps/src/confbridge_mix.rs:173-438 | fates are final: later events only add to what was said and settled |
| MixerRuns.ContributesInOrder | crates/asterisk-apps/src/confbridge_mix.rs:418-438 | what a leg contributes to a tick is the next whole 160-sample frame of what it said, after all earlier ones |
| MixerRuns.SampleLeavesInTenTicks | crates/asterisk-apps/src/confbridge_mix.rs:59-65 | whatever happens meanwhile, also leaving and joining again, no sample outlasts ten ticks that take anything from its leg |
| MixerRuns.SilenceWhileWaiting | crates/asterisk-apps/src/confbridge.rs:675-685 | in every run where marked users go only through `leave_conference`, a tick whose snapshot counts no marked user while waiting is required writes only silence and leaves no sample queued |
| DialWait.WaitForAnswer | crates/asterisk-apps/src/dial.rs:1529-1698 | for every environment whose clock advances, the result is the one the observations explain, and every leg is where its observations put it |
| DialWait.Dial | crates/asterisk-apps/src/dial.rs:1315-1483 | the status matches the result, and afterwards the winner alone is not hung up, or nobody |
| DialWait.HangUpAll | crates/asterisk-apps/src/dial.rs:2087-2106 | every leg ends hung up |
| DialWait.ResultIsDetermined | crates/asterisk-apps/src/dial.rs:1529-1698 | the observations explain one result at one poll only |
| DialWait.ResultFromObservations | crates/asterisk-apps/src/dial.rs:1529-1698 | the result from what was seen alone: all busy, all congested or any other settled mix, by each leg's first decisive observation, and the first leg seen up |
| DialWait.LegFromObservations | crates/asterisk-apps/src/dial.rs:1566-1650 | where a leg stands after any number of sweeps, from its first decisive observation |
| DialWait.RingsExactly | crates/asterisk-apps/src/dial.rs:1566-1650 | a leg rings exactly if it was seen ringing and nothing decisive was |
| DialWait.FirstDecisiveDecides | crates/asterisk-apps/src/dial.rs:1566-1650 | a leg's state is settled by its first decisive observation |
| DialWait.LegsMoveForward | crates/asterisk-apps/src/dial.rs:844-859 | leg states only move forward |
| DialWait.WinnerWasUp | crates/asterisk-apps/src/dial.rs:1529-1698 | the winner was seen up in the deciding poll and undecided in all before |
| DialWait.EndsByTimeout | crates/asterisk-apps/src/dial.rs:1529-1560 | the number of polls is bounded by the timeout |
| DialOptions.TakeArg | crates/asterisk-apps/src/dial.rs:435-458 | the depth-counting loop takes a nested argument |
| DialOptions.Parse | crates/asterisk-apps/src/dial.rs:431-663 | the parser is the left fold of the per-letter updates over the scanned list |
| DialOptions.KindTable | crates/asterisk-apps/src/dial.rs:460-663 | what kind of option each letter is |
| DialOptions.OptionMeans | crates/asterisk-apps/src/dial.rs:460-663 | when each kind switches its letter on and what it assigns, with no, an empty or any other argument |
| DialOptions.SwitchIsOnExactly | crates/asterisk-apps/src/dial.rs:460-663 | a switch is on if and only if some option switches it on, wherever it stands |
| DialOptions.LastAssignmentHolds | crates/asterisk-apps/src/dial.rs:460-663 | a field holds what the last option that assigns to it assigned |
| DialOptions.UnassignedIsEmpty | crates/asterisk-apps/src/dial.rs:460-663 | a field nothing assigns to is empty |
| DialOptions.LettersAreIndependent | crates/asterisk-apps/src/dial.rs:431-663 | option lists that agree letter by letter mean the same, however the letters are interleaved |
| DialOptions.StringsCommute | crates/asterisk-apps/src/dial.rs:431-663 | option strings without a common letter can be swapped |
| DialOptions.RoundTripExactly | crates/asterisk-apps/src/dial.rs:431-458 | scanning a printed option list gives it back if and only if every argument is balanced and no option can be taken for an argument |
| DialOptions.ShowScan | crates/asterisk-apps/src/dial.rs:431-458 | printing what was scanned gives the string back, with the parenthesis a last open argument lacks |
| DialOptions.ScanConcat | crates/asterisk-apps/src/dial.rs:431-458 | scanning distributes over concatenation of complete strings |
| DialOptions.ParseConcat | crates/asterisk-apps/src/dial.rs:431-663 | parsing a complete option string followed by another continues from its result |

## Left out

- Sockets, tokio tasks, timers, the event bus, SIP and channel drivers: only the steps they take matter here, and these are parameters.
- The login limiter with the check and the record of one login interleaved with other logins of the same source: each login is one step.
- DialOptions.Parse: keeps the text of dialplan locations, call limits, durations, DTMF and announcements as it is, because their own parsers would only add easy members; which call limits and durations are readable is a parameter.
- Call forwarding in Dial, hangup causes, caller id and the bridging after an answer: they do not influence which leg wins.
- Destination and dialplan location strings of Dial: short parsers without branching worth a proof.
- The order of the frames a tick returns: they are a map from leg to frame, as the order of the original's list is that of a hash map.
- The counters and warnings of the mixer that are only logged, and the reader tasks: no effect on audio.
- A panic on 32-bit overflow in builds that check arithmetic: sums wrap as in release builds, and up to 65536 legs neither happens.
- Duplicate header lookup ignoring case in received actions: which duplicate is found depends on the order of a hash map.
- The MD5 digest, constant-time comparison and random challenges: the digest is an arbitrary function, challenges are arbitrary strings.
- The dash-separated text of a date: the model ends with year, month and day.
- Listing and status handlers, event building, Originate, configuration and the other applications: they would only add easy members.
- The registry of conferences and mixers, which forgets a conference when it is empty.
- Menus, announcements, recording and video of conferences beyond the forwarding offer.
- Channel names in a snapshot are taken as they are: two members of one name share a leg in the mixer, as in the original.
