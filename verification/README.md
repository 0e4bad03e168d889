# Squelch: verified model of the server core

Squelch is a radio-scanner server: it ingests recorded calls, streams them to listeners as one endless MP3, pushes
events over WebSockets, and manages sessions, searches and configuration backups. This project models the parts of its
Go backend whose correctness depends on more than one function, and proves what they promise over every input and every
run.

`dafny verify dfyconfig.toml` checks the whole project (Dafny 4.11).

| files | component |
|---|---|
| `Mp3` | MPEG Layer III header parser and frame splitter |
| `Stream`, `Timeline`, `Manager` | a listener's queue; whole runs of it; start-up, fan-out and the write loop of one connection |
| `Tokens`, `TokenHistory` | access-token tracker; its refinement of a record that never forgets |
| `Refresh`, `RefreshHistory`, `RefreshCap`, `RefreshAnswers` | rotating refresh families, the replay cache and the handlers; invariants over every run; the family cap; what clients are answered, how long a token lasts and what ends it |
| `Regex`, `Mask`, `MaskRoundTrip`, `MaskMeaning` | leftmost-first matching; the directory-mask language; its two round trips; what each token captures and stands for |
| `KeyedTable`, `Import`, `ImportMeaning` | tables with a unique key; configuration import; what a restored backup means |
| `Hub`, `HubRuns`, `HubRefines` | WebSocket hub and clients as objects; the hub as a protocol; each operation of the objects is a step of the protocol |
| `Limiter`, `LimiterRuns`, `LimiterEviction` | per-key upload limiter with eviction; its bound over request sequences; when its eviction can be noticed |
| `Duplicate` | duplicate-call detection |
| `Text`, `CsvFilter` | split, join and decimal text; the id filters of call search |
| `Rings` | the two ring buffers and the log query |
| `DsdPlus` | DSD+ file names |
| `Prelude` | shared vocabulary |

Code that changes state is modelled by classes and methods with loops. Each such method is proved equal to a
specification function on the abstract state, and the theorems about runs are lemmas about those functions. What the
functions themselves mean, their constants and tables included, is stated by further lemmas in plain terms. The hub's
runs are those of a protocol with more history, which `HubRefines` shows the objects to follow.

## What the proofs found

- **The family cap is not unconditional.** The count uses `expires_at > now` while refresh rejects only
  `now > expires_at`, and reads the clock again for the new token. So a refresh that is accepted, but whose token has
  expired by the count's rule when its successor is created, brings back a family that was no longer counted: with one
  reading, in the very second of expiry. `CapBreaksExactly` shows that this is the only way, `CapCanBeExceeded` gives
  the run with 21 families.
- **Masks re-expand exactly when** every `#[A-Z]+` run is a token's name or is started by none, and no two tokens share
  a field (`ReexpandsExactly`). `#TG` and `#TGID` share one, as does any token with a repetition of itself.
- **The upload limit over a sliding minute is 2L**, and is reached for every L when a new limiter is created an instant
  before it is asked: the two read the clock separately. When the readings agree it is 2L - 1, also reached
  (`AdmissionBound`, `BoundIsReached`).
- **Evicting stale limiters can be noticed.** A window re-created at one reading of the clock and asked at a later one
  ends earlier than the one it replaces would have. `InvisibleExactly` shows that this is the only way,
  `EvictionCanShow` gives a run; when the readings agree eviction is invisible.
- **The hourly sweep can cut the replay grace short.** It deletes revoked rows created in an earlier second, so a benign
  duplicate refresh within the 30 seconds can be refused; `ReplayWithinGrace` says exactly when, `SweepCutsGrace` gives
  a run.
- **Only the text between two captures matters to parsing an expansion**, and a lazy capture's separator may occur in
  the other values (`ExpandThenParse`). On masks whose tokens share no field, tokens that touch always lose some values
  (`TouchingTokensLose`).
- **`closeOnce` is never needed** while clients register once before unregistering: `closeSend` is called at most once
  per client (`ClosedAtMostOnce`).
- **A log query with limit 0 returns one entry** although its comment speaks of the most recent `limit` ones. The code
  is followed.
- **DSD+ names survive the split exactly when they are ASCII**: `string(ch)` on a byte from 128 on yields two bytes
  (`JoinRestores`).
- The comment of the replay cache cites section 4.13 of a draft; the published text is section 4.14 of RFC 9700.

## Model

| member | source | states |
|---|---|---|
| Mp3.ParseFrameHeader | backend/internal/stream/mp3.go:56-110 | an accepted header starts with the sync byte, announces 24 to 1441 bytes, 576 or 1152 samples, and one of the nine sample rates |
| Mp3.HeaderRoundTrip | backend/internal/stream/mp3.go:36-110 | every well-formed header of ISO/IEC 11172-3 (and its LSF variants) is accepted, whatever follows; the length is the whole number of slots that its samples take at its bitrate, plus padding |
| Mp3.KbpsIs | backend/internal/stream/mp3.go:34-38 | the bitrate tables by their rules: in version 1 four equal steps to each doubling from 32 kbit/s on; in the others steps of 8 up to 64, then of 16 |
| Mp3.SampleRateIs | backend/internal/stream/mp3.go:39-43 | 44100, 48000 and 32000 Hz in version 1, half of that in version 2 and a quarter in version 2.5 |
| Mp3.StreamFrames | backend/internal/stream/mp3.go:56-110 | the frames this server encodes (MPEG-2, 22050 Hz, 32 kbit/s, mono) are 104 bytes long, 105 with padding |
| Mp3.AcceptedIsWellFormed | backend/internal/stream/mp3.go:56-110 | nothing but an encoded well-formed header is accepted |
| Mp3.HeaderIsLocal | backend/internal/stream/mp3.go:56-76 | the parser depends on the first four bytes alone |
| Mp3.SplitFrames | backend/internal/stream/mp3.go:116-139 | the scanning loop returns the carving of its input, and each returned frame is exactly as long as its own header says |
| Mp3.ScanIsCarving | backend/internal/stream/mp3.go:116-139 | on arbitrary bytes the frames are in order, disjoint, in bounds, cut where their headers say, with nothing parsable in any gap and nothing complete after the last |
| Mp3.CarvingUnique | backend/internal/stream/mp3.go:116-139 | that description has one answer only, so it determines the splitter |
| Mp3.CarvedFramesAreWhole | backend/internal/stream/mp3.go:116-139 | each frame of a scan from any position re-parses to its own length |
| Mp3.SplitConcat | backend/internal/stream/mp3.go:112-139 | splitting undoes concatenation of self-delimiting frames |
| Mp3.SplitConcatCut | backend/internal/stream/mp3.go:112-139 | a trailing partial frame is dropped and nothing else is affected |
| Mp3.SplitTagged | backend/internal/stream/mp3.go:116-139 | a leading ID3v2 tag, whatever its contents, is skipped by its syncsafe size |
| Mp3.SplitBehindTag | backend/internal/stream/mp3.go:116-124 | whatever the version, flags and body of an ID3v2 tag, the frames behind it are found: its size is read as four digits of base 128 |
| Mp3.CarveIdempotent | backend/internal/stream/mp3.go:116-139 | concatenating the frames found in any input and splitting again finds the same frames |
| Stream.Listener.Next | backend/internal/stream/manager.go:164-177 | takes the queue's head with its id, or else the next filler frame with id 0; the position counts the pops |
| Stream.Listener.Enqueue | backend/internal/stream/manager.go:181-199 | appends the call with the id on its first frame only and keeps a suffix within the limit |
| Stream.PushKeepsLast | backend/internal/stream/manager.go:181-199 | of the waiting and the arriving frames exactly the last maxFrames stay, or all when they are no more or there is no limit |
| Stream.MaxFramesIs | backend/internal/stream/manager.go:258-263 | the limit is the number of whole frames in 120 seconds, and none while the period is unknown |
| Stream.PeriodIs | backend/internal/stream/manager.go:96-104 | the period is the frame's duration in nanoseconds, rounded down |
| Timeline.RunIsConsistent | backend/internal/stream/manager.go:164-199 | in every run each offered frame is still queued, was popped exactly once and in order, or was trimmed; the queue is the untouched suffix; positions count pops; the filler frames alone cycle without restarting |
| Timeline.OfferedIsArrived | backend/internal/stream/manager.go:181-192 | in every run the offered frames are those of the arrivals, in order |
| Timeline.ArriveKeepsConsistent | backend/internal/stream/manager.go:181-199 | one arrival keeps conservation, the matching of popped and offered frames, the positions and the filler cycle |
| Timeline.PopKeepsMatching | backend/internal/stream/manager.go:164-177 | one pop keeps the one-to-one, order-preserving matching of popped and offered frames |
| Timeline.PopKeepsCounts | backend/internal/stream/manager.go:164-177 | one pop keeps the counters and the filler cycle |
| Timeline.BacklogBounded | backend/internal/stream/manager.go:193-195 | with a positive limit the queue never exceeds it |
| Timeline.IdMarksCallStart | backend/internal/stream/manager.go:184-192 | an offered frame carries a non-zero id exactly when it is the first frame of a call of that id |
| Timeline.CueIff | backend/internal/stream/manager.go:303-315 | a cue is announced exactly for a frame popped after priming that carries the cue's non-zero id |
| Timeline.CuesIncrease | backend/internal/stream/manager.go:303-315 | cue positions strictly increase |
| Timeline.CuesExact | backend/internal/stream/manager.go:164-199 | in every run a cue (call, at) fires iff, after priming, the at-th popped frame is the first frame of that call |
| Timeline.TrimmedCallNeverCued | backend/internal/stream/manager.go:193-198 | a call whose head was trimmed is never cued |
| Timeline.OffsetLag | backend/internal/stream/manager.go:96-315 | in every run in one audio format the offset announced for position `at` is never ahead of what the first `at` frames written play, and lags it by less than `at` nanoseconds |
| Timeline.WrittenAreWhole | backend/internal/stream/manager.go:287-306 | only complete frames are chosen for writing |
| Timeline.StreamSplitsBack | backend/internal/stream/manager.go:164-306 | whatever the interleaving, the bytes written split back into exactly the chosen frames in order |
| StreamManager.Manager.Start | backend/internal/stream/manager.go:91-111 | succeeds iff the encoder's output holds a frame; then the filler is its frames and the period the first frame's; a failure leaves both unchanged |
| StreamManager.Manager.Notify | backend/internal/stream/manager.go:212-256 | exactly the wanted listeners get the call's frames, under the limit of maxFramesLocked, and only when the stream is ready, the call resolves and the encoder succeeds |
| StreamManager.Manager.Serve | backend/internal/stream/manager.go:268-318 | for any schedule of arrivals and ticks the client received exactly the popped frames and the cues, up to a strict prefix of the frame whose write failed; the listener is removed at the end |
| StreamManager.Prime | backend/internal/stream/manager.go:287-293 | the burst writes its frames and announces nothing |
| StreamManager.PrimeFramesIs | backend/internal/stream/manager.go:287-287 | the burst is the number of whole frames in 2 seconds |
| StreamManager.Pace | backend/internal/stream/manager.go:299-317 | one frame a tick, a cue exactly after a completed write of a call's first frame |
| StreamManager.ServedBytesSplitBack | backend/internal/stream/manager.go:268-318 | what the client received, cut short or not, splits into exactly the completely sent frames |
| Tokens.TokenTracker.Track | backend/internal/auth/auth.go:292-306 | after cleanup the token is appended, and at the cap the oldest goes to the deny list with its own expiry |
| Tokens.TokenTracker.IsRevoked | backend/internal/auth/auth.go:309-325 | answers from the deny list and forgets an outdated denial |
| Tokens.TokenTracker.Revoke | backend/internal/auth/auth.go:328-332 | denies the JTI for one access-token lifetime |
| Tokens.TokenTracker.RevokeAllForUser | backend/internal/auth/auth.go:335-343 | denies each of the user's tokens until its own expiry and drops the user |
| Tokens.TokenTracker.CleanupLocked | backend/internal/auth/auth.go:347-370 | in any iteration order: keeps exactly the unexpired entries and denials |
| Tokens.CleanupEntries | backend/internal/auth/auth.go:347-361 | an entry stays iff it has not expired, and no user stays without one |
| Tokens.CleanupDenials | backend/internal/auth/auth.go:347-370 | a denial stays, as it is, iff it has not expired and no expired entry is held for its JTI |
| Tokens.LiveConcat | backend/internal/auth/auth.go:349-360 | the entries that stay keep their order |
| TokenHistory.CleanupAgrees | backend/internal/auth/auth.go:347-370 | cleanup forgets nothing that can still matter |
| TokenHistory.TrackAgrees | backend/internal/auth/auth.go:292-306 | tracking keeps the tracker in agreement with the ledger that never forgets |
| TokenHistory.RetireOldest | backend/internal/auth/auth.go:299-305 | evicting the oldest live token removes exactly the head of the user's live list |
| TokenHistory.RevokeAgrees | backend/internal/auth/auth.go:328-332 | a denial of one token lifetime outlives every token it can concern |
| TokenHistory.UserRevokedAgrees | backend/internal/auth/auth.go:335-343 | revoking a user agrees with the ledger, for that user and all others |
| TokenHistory.TrackerRefinesLedger | backend/internal/auth/auth.go:292-370 | after every admissible history (fresh JTIs, clock not running backwards) the tracker agrees with the ledger |
| TokenHistory.VerdictExact | backend/internal/auth/auth.go:292-370 | before its own expiry a token is reported revoked iff it was evicted, revoked, or revoked with its user; no user holds more than MaxTokens entries |
| TokenHistory.RecordIs | backend/internal/auth/auth.go:292-343 | what the ledger records: issuing a token revokes the user's oldest unexpired one iff there are MaxTokens already, logging out the one token, revoking a user all of the user's, and asking none |
| TokenHistory.NoFalseRevocation | backend/internal/auth/auth.go:309-325 | a JTI never revoked is never reported so |
| Refresh.ReplayCache.Put | backend/internal/handler/auth/replay_cache.go:56-62 | stores the entry with its expiry and drops the expired ones |
| Refresh.ReplayCache.Get | backend/internal/handler/auth/replay_cache.go:66-78 | returns an unexpired entry, and removes an expired one |
| Refresh.Handler.PostLogin | backend/internal/handler/auth/auth.go:155-184 | at the cap revokes one family holding an oldest active row, then inserts the new family's token |
| Refresh.Handler.GetOldestActiveRefreshTokenFamily | backend/internal/db/refresh_tokens.sql.go:66-68 | finds an active row of least creation time among the user's |
| Refresh.Handler.PostRefresh | backend/internal/handler/auth/auth.go:279-415 | with the clock read to judge the token and again to create its successor: unknown, revoked and cached, revoked and not cached, expired, abandoned and rotated tokens each get their answer and their effect on table and cache |
| Refresh.Handler.PostLogout | backend/internal/handler/auth/auth.go:249-255 | revokes the presented token's family, as RefreshAnswers.LogoutEnds spells out |
| Refresh.Handler.PutPassword | backend/internal/handler/auth/auth.go:488-490 | revokes every row of the user |
| Refresh.Handler.DeleteExpiredRefreshTokens | backend/internal/db/refresh_tokens.sql.go:52-54 | the hourly sweep deletes expired rows and revoked rows created earlier |
| RefreshHistory.StepKeepsInv | backend/internal/handler/auth/auth.go:301-385 | every step keeps the invariant on rows, families, creation times and cache |
| RefreshHistory.ReachableInv | backend/internal/handler/auth/auth.go:155-385 | in every reachable state each family has at most one unrevoked token |
| RefreshHistory.DeadForever | backend/internal/handler/auth/auth.go:301-385 | a family without a live token never gains one again |
| RefreshHistory.RotationRemembered | backend/internal/handler/auth/auth.go:394-405 | a rotation leaves in the cache, under the old token, the pair just issued, in the same family |
| RefreshHistory.ReplayWithinGrace | backend/internal/handler/auth/auth.go:301-316 | whatever happened since, re-presenting a rotated token within the grace period returns the identical pair and changes nothing, unless a sweep in between fell in a later second than the token's creation or its expiry; then it is refused and changes nothing |
| RefreshHistory.RowSurvives | backend/internal/db/refresh_tokens.sql.go:52-54 | a revoked row stays as it is until such a sweep, and its token never comes back afterwards |
| RefreshHistory.SweepCutsGrace | backend/internal/db/refresh_tokens.sql.go:52-54 | there is a run in which a replay within the grace period is refused because the sweep deleted the row |
| RefreshHistory.ReplayAfterGrace | backend/internal/handler/auth/auth.go:317-324 | after the grace period, while its row exists, it is refused and its family is left without a live token |
| RefreshCap.LoginEvictsLeastRecentlyRotated | backend/internal/handler/auth/auth.go:158-172 | login at the cap kills the family whose live token was issued longest ago, and only that one |
| RefreshCap.LoginBelowCap | backend/internal/handler/auth/auth.go:158-184 | with fewer than twenty active families a login revokes nothing |
| RefreshCap.RotateCounts | backend/internal/handler/auth/auth.go:327-385 | a rotation keeps the number of active families, except that it adds one when the token has expired, by the count's rule, when its successor is created |
| RefreshCap.CapBreaksExactly | backend/internal/handler/auth/auth.go:158-385 | a step breaks the cap iff it is a refresh by a user at the cap whose token is accepted but has expired, by the count's rule, when its successor is created |
| RefreshCap.CapHolds | backend/internal/handler/auth/auth.go:158-184 | in every run without such a refresh no user has more than twenty active families |
| RefreshCap.CapCanBeExceeded | backend/internal/handler/auth/auth.go:328-333 | there is a run, ending in a refresh in the exact second of expiry, after which a user exceeds MaxRefreshFamilies |
| RefreshAnswers.AnswerExactly | backend/internal/handler/auth/auth.go:279-415 | a known token is granted the new pair iff it is unrevoked, unexpired and a pair was made, the cached pair iff it is revoked and still cached, and is refused otherwise |
| RefreshAnswers.UnknownRefused | backend/internal/handler/auth/auth.go:279-300 | an unknown token is refused and changes nothing |
| RefreshAnswers.RotatesExactly | backend/internal/handler/auth/auth.go:301-335 | which refreshes rotate a token: those with an unrevoked, unexpired row for which a pair was made |
| RefreshAnswers.RotationGranted | backend/internal/handler/auth/auth.go:407-414 | an accepted refresh answers with the pair just made, for the token's user |
| RefreshAnswers.RotationIssues | backend/internal/handler/auth/auth.go:335-385 | the successor gets an unrevoked row of the same user and family that expires after thirty days |
| RefreshAnswers.LoginIssues | backend/internal/handler/auth/auth.go:155-184 | a login gets an unrevoked row of the new family that expires after thirty days |
| RefreshAnswers.IssuedIsGranted | backend/internal/handler/auth/auth.go:279-415 | while its row stands, an issued token is granted until its thirty days are over |
| RefreshAnswers.LogoutEnds | backend/internal/handler/auth/auth.go:249-255 | a logout leaves the token's family without a live token, and other families and the cache as they were |
| RefreshAnswers.UnknownLogoutChangesNothing | backend/internal/handler/auth/auth.go:249-255 | a logout with an unknown token changes nothing |
| RefreshAnswers.PasswordEnds | backend/internal/handler/auth/auth.go:488-490 | a password change leaves every family of the user without a live token, and other users' rows as they were |
| RefreshAnswers.RefusalEnds | backend/internal/handler/auth/auth.go:301-335 | a refused presentation of a known token leaves its family without a live token |
| RefreshAnswers.SweepDeletes | backend/internal/db/refresh_tokens.sql.go:52-54 | the sweep deletes a row iff it expired, or is revoked and was created, in an earlier second; the others stay as they are |
| RefreshAnswers.EndedIsNotRotated | backend/internal/handler/auth/auth.go:301-385 | in every run no token of an ended family is rotated again |
| RefreshAnswers.LogoutIsFinal | backend/internal/handler/auth/auth.go:249-255 | in every run no token of a family is rotated after a logout with one of its tokens |
| RefreshAnswers.PasswordIsFinal | backend/internal/handler/auth/auth.go:488-490 | in every run no token of a family the user had is rotated after the password change |
| Regex.MatchIsFirst | backend/internal/dirmonitor/mask.go:159-167 | the matcher returns the first decomposition in leftmost-first lazy/greedy preference order, and one whenever there is one |
| Regex.MatchRecovers | backend/internal/dirmonitor/mask.go:89-114 | values are read back when the text between a capture and the next shows where the first ends: its first character occurs in no value, or, for a lazy capture, the text is not met inside the capture's own value, or, for a greedy one, its first character is not in the class |
| Regex.ForeignStartIsFirstAtEnd | backend/internal/dirmonitor/mask.go:92-94 | for a lazy capture it is enough that the separator's first character is not in that capture's value |
| Regex.TouchingCapturesLose | backend/internal/dirmonitor/mask.go:92-94 | in a pattern with two captures that touch, some values are not read back as they were |
| Mask.LongerFirst | backend/internal/dirmonitor/mask.go:37-56 | no token that starts another stands before it in the replacer's order |
| Mask.RunExpands | backend/internal/dirmonitor/mask.go:36-58 | the replacer treats a maximal run of capitals behind `#` on its own |
| Mask.ExpandByRuns | backend/internal/dirmonitor/mask.go:36-58 | expansion is text and expanded runs in turn, with the runs that ParseMask finds |
| Mask.CleanExpandsToPattern | backend/internal/dirmonitor/mask.go:36-157 | on a mask of clean runs, expansion spells out the pattern that ParseMask compiles |
| MaskRoundTrip.ParseMask | backend/internal/dirmonitor/mask.go:127-176 | the loops compile the mask, match the filename and collect the captures, the last capture of a token winning; None without a run or a match |
| MaskRoundTrip.CompileMask | backend/internal/dirmonitor/mask.go:133-157 | the compiled pattern and names are those of the mask |
| MaskRoundTrip.CollectValues | backend/internal/dirmonitor/mask.go:169-174 | the result map holds each name's last capture |
| MaskRoundTrip.ParseThenExpand | backend/internal/dirmonitor/mask.go:36-176 | on clean masks with distinct fields, re-expanding the captured values reproduces the filename |
| MaskRoundTrip.ReexpandsExactly | backend/internal/dirmonitor/mask.go:36-176 | re-expansion reproduces every filename the mask accepts iff its runs are clean and its fields distinct |
| MaskRoundTrip.UncleanMaskFails | backend/internal/dirmonitor/mask.go:36-176 | an unclean run breaks it on a given filename |
| MaskRoundTrip.SharedFieldFails | backend/internal/dirmonitor/mask.go:36-176 | two tokens filled from one field break it on a given filename |
| MaskRoundTrip.ExpandThenParse | backend/internal/dirmonitor/mask.go:36-176 | parsing an expansion recovers exactly the mask's values when they fit their captures and the text between two captures shows where the first ends; text before the first and after the last is free |
| MaskRoundTrip.TouchingTokensLose | backend/internal/dirmonitor/mask.go:36-176 | for a clean mask whose tokens share no field, where two tokens touch there are replacement values that fit their captures and are not recovered: a separator is necessary |
| MaskMeaning.TokenAlone | backend/internal/dirmonitor/mask.go:86-176 | a mask of one token matches a name iff the token takes it, and captures all of it: labels any non-empty line, dates and times non-empty text without blanks, ids and frequencies digits, frequencies in MHz digits and points |
| MaskMeaning.TokenPair | backend/internal/dirmonitor/mask.go:86-176 | two tokens and a separator: a name is refused iff nowhere do both sides of the separator fit, and otherwise cut at the last such place if the first token is an id or a frequency, at the first if not |
| MaskMeaning.UnknownRunIsLiteral | backend/internal/dirmonitor/mask.go:133-157 | a run that is no token's name matches itself and captures nothing |
| MaskMeaning.NoTokenNoMatch | backend/internal/dirmonitor/mask.go:127-131 | a mask without a run matches no name |
| MaskMeaning.TokenExpands | backend/internal/dirmonitor/mask.go:36-58 | a mask of one token expands to the token's value, longer names first |
| MaskMeaning.EachTokenExpands | backend/internal/dirmonitor/mask.go:36-58 | which value each of the eighteen names stands for |
| KeyedTable.EnsureAllMaps | backend/internal/admin/imports.go:111-170 | each exported id is mapped to a row with its unique key |
| KeyedTable.EnsureAllMapsTo | backend/internal/admin/imports.go:111-170 | that row is the one that was there, unchanged, or else a new one: the first exported with the key |
| KeyedTable.EnsureAllFrame | backend/internal/admin/imports.go:111-170 | no other rows appear |
| KeyedTable.EnsureAllIdempotent | backend/internal/admin/imports.go:111-170 | creating the same rows again changes nothing and finds the same ids |
| KeyedTable.UpsertAllFrame | backend/internal/db/talkgroups.sql.go:244-255 | upserts keep keys unique and leave rows of other keys as they were |
| KeyedTable.UpsertAllMaps | backend/internal/admin/imports.go:200-221 | each upserted row is there at the end, under the id read back |
| Import.Database.ImportConfig | backend/internal/admin/imports.go:92-333 | all or nothing: statements write the tables in place, and it commits the complete import, or a failing statement leaves the database as it was |
| Import.EnsureRows | backend/internal/admin/imports.go:111-170 | the create-or-look-up loop, with its remap |
| Import.UpsertTalkgroups | backend/internal/admin/imports.go:172-222 | the talkgroup loop: skips unknown systems, drops unknown groups and tags, upserts and reads back ids |
| Import.CreateDirMonitors | backend/internal/admin/imports.go:256-294 | appends every directory monitor with its keys translated |
| ImportMeaning.TranslationMeans | backend/internal/admin/imports.go:176-212 | the row written shows what the exported row showed: radio system, talkgroup, attributes, group label, tag label |
| ImportMeaning.SystemsRestored | backend/internal/admin/imports.go:146-170 | each exported system is afterwards the existing row of its radio system id with every column as it was, or a new row with every column of the first exported one of that id |
| ImportMeaning.TalkgroupsRestored | backend/internal/admin/imports.go:172-222 | after an import every exported talkgroup of an exported system is there, showing the same |
| ImportMeaning.UnrelatedUntouched | backend/internal/admin/imports.go:172-222 | a talkgroup the backup does not name keeps its id, its columns and what it shows |
| ImportMeaning.NothingElseAppears | backend/internal/admin/imports.go:172-222 | every talkgroup afterwards was there unchanged or shows an exported one |
| ImportMeaning.DirMonitorsRestored | backend/internal/admin/imports.go:256-294 | each restored directory monitor points at the system and talkgroup that match those of the backup, and at none exactly where the backup names none or one it does not restore |
| ImportMeaning.DirMonitorsKept | backend/internal/admin/imports.go:256-294 | directory monitors that were there keep id and columns, and only the backup's are added |
| ImportMeaning.ImportedKeysResolve | backend/internal/admin/imports.go:172-222 | where every talkgroup's system, group and tag existed before, every talkgroup's exist after |
| ImportMeaning.SecondImportChangesNothing | backend/internal/admin/imports.go:111-222 | importing again changes nothing in groups, tags, systems and talkgroups |
| ImportMeaning.ImportedIsSound | backend/internal/admin/imports.go:111-294 | an imported database still satisfies its unique keys |
| Hub.Client.TrySend | backend/internal/ws/client.go:93-113 | without blocking: queued while fewer than 256 frames wait, dropped and counted when there are as many, lost on a closed channel |
| Hub.Client.CloseSend | backend/internal/ws/client.go:85-87 | an open channel is closed, and that close counted; a closed one is left alone |
| Hub.GuardClosesOnce | backend/internal/ws/client.go:78-87 | over any mixture of sends and calls the channel is closed once, by the first call |
| Hub.Hub.HandleBroadcast | backend/internal/ws/hub.go:116-129 | exactly the clients that the filter lets through, or all without one, are offered a frame: the v1 encoding if they speak v1 and there is one, else the legacy one |
| Hub.Hub.HandleUnregister | backend/internal/ws/hub.go:105-112 | removes and closes a registered client, and ignores any other |
| Hub.Hub.BroadcastBoth | backend/internal/ws/hub.go:136-153 | queued, or dropped when 256 broadcasts wait |
| Hub.Hub.DisconnectByUser | backend/internal/ws/hub.go:331-346 | exactly the user's sessions are offered the expiry frame in their encoding and, if the loop still runs, closed and removed |
| Hub.Hub.CloseAll | backend/internal/ws/hub.go:402-409 | closes every client's channel and empties the hub |
| Hub.Hub.RegisterLate | backend/internal/ws/hub.go:300-305 | a client that registers after shutdown is closed |
| HubRuns.LifecycleStep | backend/internal/ws/hub.go:97-132 | every enabled step keeps that lifecycle: a client waits, is a member, or is gone, and only the last has its channel closed |
| HubRuns.LifecycleAlways | backend/internal/ws/hub.go:91-132 | in every run: members are the registered clients with open channels; departed ones were closed by exactly one call |
| HubRuns.ClosedAtMostOnce | backend/internal/ws/hub.go:300-346 | under any interleaving a registered client's channel is open, a departed one's closed, and the closing call is made at most once |
| HubRuns.ShutdownClosesAll | backend/internal/ws/hub.go:402-415 | once shutdown is over and no registration is pending, every channel is closed |
| HubRuns.FanOutHitsOpenChannels | backend/internal/ws/hub.go:116-129 | fan-out never reaches the recovery from a closed channel |
| HubRuns.DeliveryStep | backend/internal/ws/hub.go:116-129 | one step keeps a client's record in agreement with what it was due |
| HubRuns.DeliveryAlways | backend/internal/ws/hub.go:91-153 | in every run: accepted broadcasts are an in-order subsequence of the matching ones handled while registered, in the client's encoding; accepted plus dropped equals due; the writer takes what was accepted, in order; broadcasts are handled in queue order |
| HubRuns.BroadcastReaches | backend/internal/ws/hub.go:116-129 | one broadcast: a member that the filter lets through gets the frame in its encoding if fewer than 256 wait and misses it if not; everyone else is left alone |
| HubRuns.ReceivedInOrder | backend/internal/ws/hub.go:116-129 | in every run a client got, in the order of handling and each in its encoding, some of the broadcasts handled while it was a member and no filter kept it out, and missed as many as are left |
| HubRefines.NewHub | backend/internal/ws/hub.go:72-88 | a new hub is in the protocol's initial state |
| HubRefines.Connecting | backend/internal/ws/hub.go:300-306 | a client about to register is a peer waiting to join |
| HubRefines.Posting | backend/internal/ws/hub.go:136-153 | enqueuing a broadcast is the protocol's step |
| HubRefines.Registering | backend/internal/ws/hub.go:97-104 | the loop's handling of a registration is the protocol's step |
| HubRefines.Unregistering | backend/internal/ws/hub.go:105-115 | the loop's handling of an unregistration is the protocol's step |
| HubRefines.Broadcasting | backend/internal/ws/hub.go:116-129 | the loop's fan-out is the protocol's step |
| HubRefines.Closing | backend/internal/ws/hub.go:402-415 | the end of the loop and closing all clients are the protocol's two steps |
| HubRefines.RegisteringLate | backend/internal/ws/hub.go:300-306 | registering after shutdown is the protocol's step |
| HubRefines.Disconnecting | backend/internal/ws/hub.go:341-345 | disconnecting a session is the protocol's send followed, while the loop runs, by its unregistration |
| HubRefines.Sending | backend/internal/ws/client.go:93-113 | any other send is the protocol's step |
| HubRefines.Taking | backend/internal/ws/client.go:765-770 | the writer's receive is the protocol's step |
| Limiter.ApiKeyLimiter.Allow | backend/internal/handler/calls/calls.go:34-47 | reopens an expired window, then admits while the count is below the limit |
| Limiter.DecideIs | backend/internal/handler/calls/calls.go:34-47 | a window is renewed 60 seconds after it opened; a request is admitted and counted iff fewer than the limit were |
| Limiter.Handler.EvictStale | backend/internal/handler/calls/calls.go:79-89 | in any iteration order removes exactly the entries two windows old, from a table of more than 100 |
| Limiter.EvictIs | backend/internal/handler/calls/calls.go:79-89 | from a table of more than 100 exactly the entries opened 120 seconds ago or earlier are removed |
| Limiter.Handler.GetLimiter | backend/internal/handler/calls/calls.go:73-104 | evicts at one reading of the clock and finds the key's limiter or creates it at another, updates its limit, and leaves the other keys' limiters, windows and limits as eviction left them |
| Limiter.Handler.Admit | backend/internal/handler/calls/upload.go:89-89 | eviction, lookup and admission together, each at its own reading of the clock: one request of the specification's table |
| LimiterRuns.EvictionTells | backend/internal/handler/calls/calls.go:79-89 | eviction takes a key away only when nothing of it was admitted for the length of a window |
| LimiterRuns.WindowAlways | backend/internal/handler/calls/calls.go:34-104 | with or without eviction, and whatever the readings of the clock: after every sequence a key's window counts what was admitted since it opened, nothing was admitted after it ran out, and any shorter stretch before it holds at most the limit (less than it when the readings agree) |
| LimiterRuns.AdmissionBound | backend/internal/handler/calls/calls.go:34-104 | over any half-open interval of one window a key is admitted at most twice its limit, with eviction and without; one less when the key's readings agree |
| LimiterRuns.BoundIsReached | backend/internal/handler/calls/calls.go:34-104 | for every key and limit L there are runs that admit 2L, and with agreeing readings 2L - 1, within one window's length |
| LimiterEviction.EvictionInvisible | backend/internal/handler/calls/calls.go:77-99 | when every request is asked at the reading at which it is looked up, the evicting table answers every sequence as one that never evicts |
| LimiterEviction.NextAnswerDiffers | backend/internal/handler/calls/calls.go:34-47 | after a late re-creation the next answer differs iff it falls between the ends of the two windows with the count at the limit |
| LimiterEviction.LateRecreationShows | backend/internal/handler/calls/calls.go:77-99 | after the first late re-creation at most two further requests tell the two tables apart |
| LimiterEviction.InvisibleExactly | backend/internal/handler/calls/calls.go:77-99 | eviction cannot be noticed at any point of a run, however it goes on with agreeing readings, iff no evicted window is re-created by a request that asks later than it looks up and within the new window |
| LimiterEviction.EvictionCanShow | backend/internal/handler/calls/calls.go:77-99 | there is a run of 101 keys after which the two tables answer differently |
| Duplicate.TimestampCheckRedundant | backend/internal/audio/duplicate.go:26-38 | the exact-timestamp query never changes the answer: a call is a duplicate iff a stored one of its stream is within the window |
| Duplicate.DuplicateExactly | backend/internal/audio/duplicate.go:18-61 | never with detection off; else iff a stored call of the same system and talkgroup started within windowMs milliseconds or one second of the new one |
| Duplicate.StoredIsSpaced | backend/internal/audio/duplicate.go:18-61 | after any arrivals, two stored calls of one system and talkgroup are more than w = max(1, windowMs / 1000) seconds apart |
| Duplicate.StoredApart | backend/internal/audio/duplicate.go:18-61 | after any arrivals no two stored calls of one system and talkgroup started within windowMs milliseconds or one second of each other |
| Duplicate.DetectionOff | backend/internal/audio/duplicate.go:20-22 | with detection off every arrival is stored |
| Duplicate.EveryArrivalCovered | backend/internal/handler/calls/upload.go:390-407 | every arrival is stored or within the window of a stored call of its stream |
| Duplicate.CountBound | backend/internal/audio/duplicate.go:40-54 | each stored call after the first needs w + 1 seconds of the interval to itself |
| Duplicate.IngestRate | backend/internal/audio/duplicate.go:18-61 | a closed interval of L seconds holds at most L / (w + 1) + 1 stored calls of a stream |
| Text.SplitJoin | backend/internal/handler/calls/search.go:49-49 | splitting undoes joining when no part holds the separator |
| Text.ParseFormatInt | backend/internal/handler/calls/search.go:57-103 | every int64 survives FormatInt and ParseInt |
| Text.ParseIntExactly | backend/internal/handler/calls/search.go:57-60 | a number is read from an optional sign and digits and nothing else, as the sum of its digits times their powers of ten, if it is an int64 |
| Text.FormatIntIs | backend/internal/handler/calls/search.go:97-106 | a number is written as its decimal numeral without leading zeros, behind a minus if negative |
| CsvFilter.ParseCsvInt64 | backend/internal/handler/calls/search.go:45-71 | the loop with its seen set returns the distinct ids in order of first appearance, or an error |
| CsvFilter.CollectMeaning | backend/internal/handler/calls/search.go:45-71 | an error iff some non-blank field is not an int64; otherwise exactly the fields' ids, none twice |
| CsvFilter.CollectInOrder | backend/internal/handler/calls/search.go:45-71 | ids stand in the order of first appearance: further fields only add ids at the end |
| CsvFilter.TrimSpaceIs | backend/internal/handler/calls/search.go:53-53 | trimming takes off the white space before and after, and no more |
| CsvFilter.SpacesAre | backend/internal/handler/calls/search.go:53-53 | white space are the 25 characters with Unicode's White_Space property |
| CsvFilter.ToCsvFilter | backend/internal/handler/calls/search.go:97-106 | the ids joined by commas, NULL for none |
| CsvFilter.ParseWrites | backend/internal/handler/calls/search.go:45-106 | parsing a written filter returns the list without its repetitions; the list itself when there are none |
| CsvFilter.DedupInOrder | backend/internal/handler/calls/search.go:51-64 | repetitions are dropped where they occur again, so that the first ones keep their order |
| CsvFilter.SubstringIsMembership | backend/internal/db/calls.sql.go:30-33 | for every int64 list and id, `,id,` occurs in `,csv,` iff the id is in the list |
| CsvFilter.FilterMeans | backend/internal/db/calls.sql.go:30-33 | with SQL's NULLs: no list keeps every row, a list keeps the rows whose id is present and listed |
| CsvFilter.ParameterMeans | backend/internal/handler/calls/search.go:45-106 | from query parameter to SQL: one filter is true exactly for the listed ids |
| CsvFilter.GetCalls | backend/internal/handler/calls/search.go:108-168 | a malformed id list is refused; otherwise the rows admitted are exactly those whose system and talkgroup were listed and whose group and tag were named, blank fields naming nothing and unresolvable labels no row |
| Rings.Ring.Push | backend/internal/trmqtt/ringbuf.go:26-34 | keeps the ring equal to the last `cap` pushes |
| Rings.Ring.Snapshot | backend/internal/trmqtt/ringbuf.go:37-49 | returns the last `cap` pushes, oldest first |
| Rings.UnrollPush | backend/internal/logging/logging.go:44-54 | overwriting one slot of a wrapped array drops the oldest entry and appends the new one |
| Rings.RingBuffer.Push | backend/internal/logging/logging.go:44-54 | keeps the buffer equal to the last `cap` entries |
| Rings.RingBuffer.Snapshot | backend/internal/logging/logging.go:57-74 | returns the last `cap` entries in chronological order |
| Rings.ScanNewestFirst | backend/internal/logging/logging.go:184-211 | the backward scan finds the most recent matches, newest first |
| Rings.MatchingAt | backend/internal/logging/logging.go:184-205 | the matches are the entries within the times, of the level and with the text, where the query gives them, each once and in order |
| Rings.ReverseInPlace | backend/internal/logging/logging.go:213-216 | the two-index swap loop reverses |
| Rings.QueryEntries | backend/internal/logging/logging.go:178-217 | the last `limit` (at least one) matching entries among those retained, oldest first |
| DsdPlus.SplitDSDPlusMeta | backend/internal/dirmonitor/parsers.go:719-739 | the loop computes the segments of the name |
| DsdPlus.JoinSegments | backend/internal/dirmonitor/parsers.go:719-739 | joined by underscores the segments give every byte of the name back, as `string(ch)` encodes it |
| DsdPlus.RecodeDecodes | backend/internal/dirmonitor/parsers.go:719-739 | that encoding is UTF-8 whose code points are the bytes of the name |
| DsdPlus.JoinRestores | backend/internal/dirmonitor/parsers.go:719-739 | they give the name itself back iff it is ASCII |
| DsdPlus.SplitExact | backend/internal/dirmonitor/parsers.go:716-739 | for an ASCII name the split is the one and only way to cut it at the underscores outside brackets |
| DsdPlus.InsideIs | backend/internal/dirmonitor/parsers.go:725-731 | inside a bracket means that a `[` has not been followed by a `]` |
| DsdPlus.WholeIs | backend/internal/dirmonitor/parsers.go:731-735 | a segment holds underscores only inside brackets |
| DsdPlus.ExtractBracketContents | backend/internal/dirmonitor/parsers.go:793-811 | the loop computes the bracket contents |
| DsdPlus.ContentsRecovered | backend/internal/dirmonitor/parsers.go:791-811 | from text and brackets in turn the non-empty bracket contents are recovered in order; an unclosed bracket yields nothing |
| DsdPlus.EveryNameRenders | backend/internal/dirmonitor/parsers.go:793-811 | every string is text and brackets in turn, so that describes the extraction completely |
| DsdPlus.NameRecovered | backend/internal/dirmonitor/parsers.go:719-811 | an ASCII name joined from well-formed segments splits into them, and each one's bracket contents are recovered |

## Left out

- FFmpeg: an encoder's output is arbitrary bytes, or a failure.
- Sockets, tickers, flushing and HTTP responses: a connection accepts a number of bytes and then fails; ticks and arrivals come in any order, one at a time. The byte stream is modelled for one listener, and cues in the order in which they are triggered, not delivered.
- Timeline.OffsetLag: assumes that all frames have the filler's sample count and rate, as the encoder is told; one period is used for all. Offsets of cues are proved on integers of nanoseconds; their conversion to `float64` seconds is not modelled.
- Wrap-around of counters such as `framesWritten`, `silenceIdx` and `dropCount`.
- TokenHistory.TrackerRefinesLedger: assumes fresh JTIs, a clock that does not run backwards and an expiry of at most one token lifetime from now, as the handlers provide.
- Password hashes, JWTs and digests: JTIs, secrets and families are opaque and fresh, digests collision-free. Failed logins, disabled accounts and failed writes before the first table change have no effect and are not modelled as events.
- Refresh.Handler.PostRefresh: what can go wrong after the old token was revoked (account gone, expired or disabled, generation or storage failure) is one outcome. It reads the clock when it judges the token (for the cache too) and when it creates the successor; the cache entry's time is taken from the latter, and the replay grace counted from it. The other handlers read it once. The access-token tracker, the WebSocket disconnects and deletion of users are not part of these steps.
- Interleaving of statements inside one handler: the code takes no transaction there, so runs are of whole handlers.
- Mask strings that are not valid UTF-8, filling a call from the captured values (date arithmetic included), and building the values from a call.
- MaskRoundTrip.ExpandThenParse: its condition is sufficient, not necessary: values may also be recovered because the rest of a name does not fit any earlier cut. Exactly which values are recovered is Regex.MatchIsFirst: those that are the first decomposition of their name.
- Import.Database.ImportConfig: settings, units, API keys, downstreams and webhooks, the remapping of system ids inside grants, and the reloads after commit.
- Hub.Hub.HandleBroadcast: filters are given as the set of clients they accept; the scan of grants behind them, message encoding, listener-count broadcasts and the log line for every hundredth drop are not modelled.
- Disconnecting by token id: it is one client's part of disconnecting by user (HubRefines.Disconnecting).
- HubRuns.ClosedAtMostOnce: assumes that a client registers once, and before it unregisters, as the connection handlers do.
- LimiterRuns.AdmissionBound: assumes a constant limit for the key, and requests one after the other; limits may change freely in LimiterEviction.
- Duplicate.IngestRate: assumes detection on, one window, and that checking and storing a call is one step; deletion of old calls only makes the stored ones fewer.
- Search conditions on dates, bookmarks and transcripts, paging and totals.
- Rings.QueryEntries: an entry's lower-cased message and attributes are one given text, so the changing order of map iteration is not modelled, and level and query arrive trimmed and lower-cased.
- The other recorders' file names, parsing of the DSD+ fields themselves, command line, migrations, administration and the web client.
