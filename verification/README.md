# asc: a verified model of the daemon's stateful core

`asc` installs and runs self-hosted applications on a Linux node. This project
models the parts of it whose correctness does not show in any one function
body, and proves what they guarantee over every run and every input, and of the
concurrent ones over every interleaving. `dafny verify dfyconfig.toml` checks all of it.

| file | what it models |
|---|---|
| `TokenStore.dfy` | the API token store: rotating primary with a grace window, capped map of short-lived access tokens |
| `TokenTraces.dfy` | every sequence of its lock sections, against an ideal store that forgets a token at the instant it expires |
| `TokenThreads.dfy` | its callers as threads that interleave between lock sections and between the system calls of `write_token`, with the clock and restarts |
| `TokenDisk.dfy` | the token file against the primary in memory while rotations do not overlap |
| `TokenFile.dfy` | the same for every overlap: which token the file holds, in memory's view and across crashes |
| `TokenRequests.dfy` | minting, revoking, rotating and confirming: authenticated at one moment, acted on at a later one |
| `ConsoleTokens.dfy` | one-time console tokens and the constant-time comparison |
| `Keys.dfy` | the arrow-key picker: escape decoding over split reads, the wrapping cursor |
| `Installer.dfy` | update and rollback of the daemon binary over a file system that may die at any point |
| `Streaming.dfy`, `Lines.dfy` | the streamed compose command and the CR/LF splitter under it |
| `Ports.dfy`, `Sorting.dfy` | published ports, their read-back and the drift check |
| `Prune.dfy` | `docker prune` with its protected set |
| `InstanceIds.dfy`, `Decimal.dfy` | the default instance id |
| `Completion.dfy` | the word walk of shell completion |

Code that changes state in place is a class or a method with loops, tied to a
function of the old state by its `ensures`; the theorems are lemmas about that
function.

## Assumptions

- Time is one non-decreasing clock in nanoseconds for both `Instant` and
  `SystemTime`. Every reading of it is a parameter of the method that takes it,
  so readings inside one call may differ. The console sweep compares all entries
  with one reading taken under its lock.
- `random_hex` never returns a value drawn before (`TokenThreads.Unseen`,
  `ConsoleTokens.Fresh`). In `TokenThreads` a rotation draws its token together
  with the revocation; since draws only have to differ, drawing it later changes
  nothing.
- SHA-256 is injective: a digest is a constructor around its preimage.
- `write_token` is three steps on one shared temporary name: open with truncate,
  write through the descriptor, rename of whatever file the name then leads to.
  Every drawn token has 64 characters, so a write replaces what an earlier one
  left; a write takes all of them or fails and leaves the file as it was. A
  failure at any call before the rename ends the rotation. An empty file reads
  as the empty token.
- A lock section is atomic. A thread that fails to take a poisoned lock is not
  modelled.
- `String::from_utf8_lossy` makes no line vanish and no newline appear
  (`Lines.KeepsLines`). SemVer precedence is an arbitrary map into `real`.
- One install, update or rollback runs at a time. The updater takes no lock and
  `.asc.tmp` is one shared name (src/updater/installer.rs:201), so two at once
  could disturb each other as two rotations can; that is not modelled.
- The engine keeps the port bindings it is given and names each image and
  volume once; a removal it does not refuse removes exactly that item.

## Where the code and its comments part

The model follows the code. Each point below is a lemma.

- A token minted under the old primary "must not outlive it"
  (src/daemon/api/tokens.rs:280-284). It can: one drawn before a rotation and
  inserted between its revocation and its swap resolves afterwards
  (`TokenThreads.MintCanOutliveRotation`), and so does one drawn after the swap by
  a request that was authenticated before it and then waited for its body
  (`TokenRequests.ReplacedMints`). `TokenThreads.OutlivesIffLingers` says exactly
  when no token of a mint authorised so far is accepted any more: iff no live
  entry is in the map, no mint that lasts is waiting to insert one and no allowed
  request is waiting to draw one. In every case nothing in the map at the
  revocation ever resolves again (`TokenThreads.RotationIsFinal`).
- `require_primary` guards the act, but judges what authentication found
  (src/daemon/api/rest.rs:2061-2133). A replaced token, refused by then, can
  complete a rotation of its own (`TokenRequests.ReplacedRotates`) or confirm its
  own replacement, which "must be confirmed with the new token"
  (src/daemon/api/tokens.rs:123-124; `TokenRequests.ReplacedConfirms`). When the
  token is still good at the act is said exactly by `TokenRequests.StillGoodIff`
  and, for a confirmation, `TokenRequests.ConfirmedByNewIff`.
- Eviction is meant never to drop a live token "while a staler one stays"
  (src/daemon/api/tokens.rs:238-239). That holds among the tokens already there;
  the new one may expire sooner than the one evicted for it
  (`TokenStore.EvictionOrder` exactly, `TokenStore.EvictionOrderExample`).
- `write_token` is meant never to leave an empty file (src/daemon/api/mod.rs:3092-3098)
  and `rotate` never to know a token the file does not (src/daemon/api/tokens.rs:276-279).
  One rotation at a time that is so (`TokenDisk.SerialRotationsAgree`). Nothing
  keeps two apart, and they share the temporary name: the file can be empty while
  a rotation has returned (`TokenFile.EmptyFileRun`; it is empty exactly as
  `TokenFile.LockedOutIff` says) or hold a token whose own rotation failed
  (`TokenFile.ForeignTokenRun`); even separate writes can be swapped in the other
  order (`TokenFile.OverlapCanDisagree`). The exact condition for the file to hold
  a given rotation's token is `TokenFile.Undisturbed`.
- `rotation_pending` stays true once the window has run out, until a commit or
  the next rotation; the ideal store needs a flag of its own for it
  (`TokenTraces.LazyIsIdeal`).
- `incomplete_escape` looks only at the last ESC. A buffer that ends inside a
  CSI sequence with another ESC in it is let go (`Keys.TestFooledIff`,
  `Keys.TestFooledExample`), and it waits when the last ESC lies inside a finished
  key, which changes no key (`Keys.WaitsIdlyIff`, `Keys.WaitsIdlyExample`).
- A sequence that is all there is cut nevertheless when it straddles the end of
  the 32-byte buffer: an arrow pasted behind 31 other keys cancels the picker
  (`Keys.FullBufferCutsExample`). `Keys.KeysSurviveIff` says exactly when the
  buffers keep the keys of the stream.
- A cancelled caller is noticed between lines or after 250 ms, except while only
  blank lines arrive: `continue` skips the check (`Streaming.CancelMissedIff`,
  `Streaming.CancelMissedExample`).
- `fs::copy` saves the old binary in place. A crash inside it leaves
  `asc.previous` torn, and a later rollback installs it
  (`Installer.RollbackDuringBackup`, `Installer.TornBackupExample`). A rollback
  saves the binary it replaced in the same way, so it can not always "itself be
  rolled back" (`Installer.RollbackDuringSave`, `Installer.TornSaveExample`).
  The two-rollback swap also fails when `asc` itself is missing
  (`Installer.TwoRollbacksIff`, `Installer.MissingBinaryExample`).
- Two published ports that share a container port and transport but not the
  host port drift forever, recreating the container each time
  (`Ports.NoDriftIffConsistent`, `Ports.ConflictDriftsExample`).
- Behind `--` the completion still offers subcommands that would be taken as
  positionals (`Completion.OfferedSubcommandIff`,
  `Completion.OfferedBehindDashesExample`).

## Model

| member | source | states |
|---|---|---|
| TokenStore.Store.constructor | src/daemon/api/tokens.rs:182-190 | a fresh store holds the primary alone: no grace window, no access tokens |
| TokenStore.Store.Resolve | src/daemon/api/tokens.rs:200-224 | a primary or grace match answers without touching the access map; otherwise the map is swept and answers |
| TokenStore.Store.MakeRoom | src/daemon/api/tokens.rs:240-249 | the eviction loop ends and removes as few as bring the map under the cap, none of which outlives an entry it leaves |
| TokenStore.Store.IssueAccess | src/daemon/api/tokens.rs:228-259 | the entry lasts 600 s unless asked, what was asked between 1 s and 3600 s, else the nearer bound; sweep, eviction, then exactly the new entry is added |
| TokenStore.Store.RevokeAllAccess | src/daemon/api/tokens.rs:264-270 | empties the map and counts what a sweep would have left |
| TokenStore.Store.Rotate | src/daemon/api/tokens.rs:285-307 | a failed write leaves current and previous as they were, access tokens revoked all the same; a successful one puts the token in place and keeps the old one min(requested, 3600 s) from the swap's own clock reading, or not at all for a window of zero |
| TokenStore.Store.CommitRotation | src/daemon/api/tokens.rs:310-312 | ends the window and nothing else |
| TokenStore.Store.GetStatus | src/daemon/api/tokens.rs:315-340 | live count after a sweep, the whole second of the window's end or of now once it has passed, pending as long as a previous token is kept, and a digest that tells whether a held token is the current one |
| TokenStore.Guards | src/daemon/api/tokens.rs:107-132 | a primary passes, a local peer iff it is root, an access token and an unrecognised caller never; a grace match may not confirm |
| TokenStore.CommitOpenToCurrentOnly | src/daemon/api/tokens.rs:107-132 | at authentication, through `resolve` and both guards, exactly one bearer string may confirm a rotation: the current primary |
| TokenStore.ManagementOpenToPrimaries | src/daemon/api/tokens.rs:107-121 | at authentication, rotating, minting and revoking are open to exactly the current primary and, before its deadline, the previous one |
| TokenStore.CountIsWhatResolves | src/daemon/api/tokens.rs:264-270 | the revocation count is the number of distinct strings that would resolve as access tokens at that moment |
| TokenStore.MintKeepsCap | src/daemon/api/tokens.rs:236-258 | after any mint at most 64 entries are left, and at most one is evicted if the cap held before |
| TokenStore.EvictionOrder | src/daemon/api/tokens.rs:238-249 | everything in the map after a mint, the new entry included, outlives what was evicted iff enough of the old entries expire no later than the new one |
| TokenStore.EvictionOrderExample | src/daemon/api/tokens.rs:238-249 | a full map in which a token minted for one second displaces one that had two |
| TokenTraces.SectionSimulated | src/daemon/api/tokens.rs:357-360 | each lock section is enabled, answers and moves on alike in the lazily swept store and in its abstraction |
| TokenTraces.LazyIsIdeal | src/daemon/api/tokens.rs:200-340 | on a non-decreasing clock the store accepts exactly the runs, answers, counts and evictions of one that drops each token at its expiry instant |
| TokenTraces.GraceIffInWindow | src/daemon/api/tokens.rs:206-215 | over every run a replaced primary still resolves iff the last rotation or commit is the rotation that replaced it, less than min(requested, 3600 s) ago |
| TokenTraces.ConfirmedByLastInstalled | src/daemon/api/tokens.rs:125-132 | after every run the guards, judging at that instant, pass exactly the token the last rotation installed |
| TokenTraces.NeverAboveCap | src/daemon/api/tokens.rs:240-249 | the access map holds at most 64 entries after every run |
| TokenThreads.StepsAreSections | src/daemon/api/tokens.rs:200-312 | every thread step short of a restart is one lock section of the trace model, or leaves the store alone |
| TokenThreads.RunsKeepInv | src/daemon/api/tokens.rs:228-307 | in every interleaving: access and primary tokens stay apart, a drawn token is inserted at most once, the map is exactly what the history of insertions, evictions and revocations explains, and the cap holds |
| TokenThreads.Linearizable | src/daemon/api/tokens.rs:200-224 | whatever runs between its two locks, `resolve` answers as an atomic one would at its primary read or at its map lookup |
| TokenThreads.StandingMeans | src/daemon/api/tokens.rs:250-269 | the recursive verdict of the history equals: the last insertion has no revocation, restart, re-insertion or eviction of the token after it |
| TokenThreads.AccessIffRests | src/daemon/api/tokens.rs:217-258 | in every interleaving a string resolves as an access token iff it was inserted, has not expired, and no revocation, restart or eviction of it followed |
| TokenThreads.MintedOnce | src/daemon/api/tokens.rs:228-259 | whatever runs between a mint's steps, its token only ever stands with one entry, whose life counts from the draw and is the requested one within 1 s and 3600 s, 600 s by default |
| TokenThreads.AcceptedWhileItLasts | src/daemon/api/tokens.rs:217-259 | in every interleaving a minted token resolves as an access token iff less than that life has passed since its draw and its insertion still stands |
| TokenThreads.MintedSince | src/daemon/api/tokens.rs:285-290 | every entry in the map after a rotation's revocation was inserted by a mint after it |
| TokenThreads.PendingIsNew | src/daemon/api/tokens.rs:232-258 | a token a mint is still about to insert was never in the map before |
| TokenThreads.RotationIsFinal | src/daemon/api/tokens.rs:280-290 | no access token in the map at the revocation resolves again in any continuation; whatever does resolve as one later was inserted since |
| TokenThreads.RevokedCountsResolving | src/daemon/api/tokens.rs:264-290 | the count a rotation reports is that of the strings that would have resolved as access tokens at its revocation, in every interleaving |
| TokenThreads.MintCanOutliveRotation | src/daemon/api/tokens.rs:280-298 | a run in which a token drawn before the rotation resolves after its swap |
| TokenThreads.OutlivesIffLingers | src/daemon/api/tokens.rs:280-298 | after any run, a swap just made included: some token whose mint was authorised so far is accepted in some continuation iff a live entry is in the map, a mint that lasts is waiting to insert, or an allowed request is waiting to draw |
| TokenThreads.AllowedMints | src/daemon/api/rest.rs:2061-2077 | an allowed mint request can always draw, insert and be accepted, whatever became of its bearer |
| TokenThreads.RunsAllExpired | src/daemon/api/tokens.rs:228-258 | once all that is left of a set of drawn tokens has run out, that stays so in every continuation |
| TokenThreads.VictimsExist | src/daemon/api/tokens.rs:240-249 | whatever the map, the eviction finds as many soonest-expiring entries as it needs |
| TokenDisk.SerialRotationsAgree | src/daemon/api/tokens.rs:276-298 | with no two rotations overlapping, file and memory hold the same primary whenever none is in progress |
| TokenDisk.RunsRotationsApart | src/daemon/api/tokens.rs:292-298 | in every interleaving rotations in progress install distinct tokens, none in place already, none in a file before its own write |
| TokenFile.HeldSinceWrite | src/daemon/api/mod.rs:3110-3122 | after its write a token is in exactly the file it was written to, for as long as no open or write touches that file |
| TokenFile.NamedIff | src/daemon/api/mod.rs:3123-3124 | a file that had the temporary name is the token file after a later rename iff that was the first rename since and the last one so far |
| TokenFile.RotationBehind | src/daemon/api/tokens.rs:293-297 | every rotation about to swap has opened, written and renamed with its own token |
| TokenFile.StoredIffUndisturbed | src/daemon/api/mod.rs:3099-3133 | the file holds a written token iff no other rename succeeded since its open, no open came between its write and its rename, and nobody wrote into its file afterwards |
| TokenFile.RestartKeepsReturned | src/daemon/api/mod.rs:3099-3133 | a crash and restart at any point of any run accepts a written token as the primary iff the interleaving left it undisturbed |
| TokenFile.AgreeIffUndisturbed | src/daemon/api/tokens.rs:292-298 | with any overlap, while a swapped-in token is the primary, file and memory agree iff its own rotation was left undisturbed |
| TokenFile.StartAgreesIff | src/daemon/api/tokens.rs:182-190 | while the primary is the one a start read, they agree iff no rename succeeded since, or it read the empty token and the last rename left the file empty again |
| TokenFile.EmptyIff | src/daemon/api/mod.rs:3109-3124 | after its last rename the file is empty iff that published a file some open had emptied and into which nobody wrote since |
| TokenFile.LockedOutIff | src/daemon/api/mod.rs:3092-3124 | at any point of any run a restart reads the empty token iff the last rename left the file so, or there was none and it began so |
| TokenFile.SeparateWritesSurviveIff | src/daemon/api/mod.rs:3099-3133 | when no two writes of the file overlap in time, a written token survives iff no other write completed since |
| TokenFile.EmptyFileRun | src/daemon/api/mod.rs:3109-3123 | a run in which a rotation returns while the file is empty, so that a restart reads the empty token |
| TokenFile.ForeignTokenRun | src/daemon/api/mod.rs:3109-3123 | its continuation: the file holds the token of a rotation that failed, the memory the other one |
| TokenFile.OverlapCanDisagree | src/daemon/api/tokens.rs:285-307 | separate writes and swaps in the other order leave different tokens in file and memory |
| TokenRequests.AuthorizedIff | src/daemon/api/tokens.rs:107-132 | at authentication the current primary may do everything, the replaced one inside its window all but confirm, nobody else anything |
| TokenRequests.AfterLastSwap | src/daemon/api/tokens.rs:296-312 | behind the last swap of a run the one other string still accepted as primary is the replaced one, until its window ends or a commit |
| TokenRequests.ConfirmedByNewIff | src/daemon/api/rest.rs:2121-2133 | a commit is made with the token that is then the primary iff no rotation swapped since the request was authenticated |
| TokenRequests.StillGoodIff | src/daemon/api/rest.rs:2061-2119 | the token a mint, revocation or rotation was authorised with would still be good for it at the act iff no rotation swapped since or exactly one did and its window is open; if it came inside a window, iff that window is still open |
| TokenRequests.ReplacedMints | src/daemon/api/rest.rs:2061-2077 | a run in which the replaced token, refused by then, mints an accepted access token |
| TokenRequests.ReplacedRotates | src/daemon/api/rest.rs:2096-2119 | a run in which the replaced token, refused by then, replaces its replacement |
| TokenRequests.ReplacedConfirms | src/daemon/api/rest.rs:2121-2133 | a run in which the replaced token confirms its own replacement |
| ConsoleTokens.FoldDifferences | src/daemon/api/console.rs:104-107 | the or-of-xors over paired bytes is zero iff it started at zero and the strings are equal |
| ConsoleTokens.ConstantTimeEq | src/daemon/api/console.rs:100-108 | true iff the two byte strings are equal, for all lengths |
| ConsoleTokens.Store.constructor | src/daemon/api/console.rs:42-45 | starts empty |
| ConsoleTokens.Store.Issue | src/daemon/api/console.rs:50-77 | expired entries go, the grant is kept for 30 s, and the reported expiry is the whole second it falls in |
| ConsoleTokens.Store.Consume | src/daemon/api/console.rs:81-86 | hands out the live grant and removes it |
| ConsoleTokens.RedeemedIffOutstanding | src/daemon/api/console.rs:50-86 | over every run a token redeems to a grant iff it was issued for that grant, not redeemed since, less than 30 s ago |
| ConsoleTokens.AtMostOnce | src/daemon/api/console.rs:79-86 | after one successful redemption no later one of the token succeeds |
| Keys.Decode | src/cli/select.rs:31-52 | consumes at least one and at most all of a non-empty buffer |
| Keys.DecodeMeans | src/cli/select.rs:31-52 | which byte strings begin with which key, and that an ignored sequence is taken whole, through its first final byte |
| Keys.SplitHarmlessIff | src/cli/select.rs:31-52 | ending a read after p leaves the decoded keys alone, whatever follows, iff p does not end inside an escape sequence |
| Keys.TestExactAtKeyStart | src/cli/select.rs:227-236 | if the last ESC starts a key, the reader waits iff the buffer really ends inside a sequence |
| Keys.TestFooledIff | src/cli/select.rs:227-236 | a buffer that ends inside a sequence is let go iff that sequence holds a further ESC before its last byte |
| Keys.TestFooledExample | src/cli/select.rs:227-236 | such a buffer, decoded as one key whole and as two when split |
| Keys.WaitsIdlyIff | src/cli/select.rs:227-236 | the test asks for more with no sequence open iff the last ESC lies inside a finished key, and such a wait changes no key |
| Keys.WaitsIdlyExample | src/cli/select.rs:227-236 | a three-byte buffer it waits on for nothing |
| Keys.ReadKeys | src/cli/select.rs:211-224 | the loop gathers what the recursive reading does: first bytes, then more while the test asks, the 32-byte buffer has room and more comes |
| Keys.GatherKeeps | src/cli/select.rs:211-224 | no byte is lost or reordered, the buffer never holds more than 32 bytes, and reading stops only on a finished tail, a full buffer, silence or the end of input |
| Keys.WaitsWhenAsked | src/cli/select.rs:211-224 | a finished buffer is handed on at once, an unfinished one is completed by what comes next, and silence ends the wait |
| Keys.Cursor.constructor | src/cli/select.rs:71-76 | the preselected row is the default one inside the list, else the last, and row 0 of an empty list |
| Keys.Cursor.Apply | src/cli/select.rs:78-92 | the row stays in range, moves by case and is picked or cancelled; an empty list only cancels |
| Keys.TurnedIsModular | src/cli/select.rs:80-87 | stepping with wrap-around is addition modulo the list's length |
| Keys.PlayBuffer | src/cli/select.rs:118-130 | the inner loop's decision, or the row it hands on, is that of the whole remaining key sequence |
| Keys.Select | src/cli/select.rs:110-130 | reading, decoding and cursor together: the first deciding key of all buffers gathered, or of the stream when they are cut at key starts, picks (clamped default + downs - ups) mod len or nothing |
| Keys.OutcomePicks | src/cli/select.rs:71-130 | for every default row and key sequence the outcome is that row, none without an Enter or behind a Cancel |
| Keys.PlayReads | src/cli/select.rs:110-130 | the key loop over the buffers decides as the keys of all of them in one sequence |
| Keys.OutcomeClosedForm | src/cli/select.rs:78-130 | first Enter picks (start + downs - ups) mod len, a Cancel before it nothing |
| Keys.OutcomeUndecided | src/cli/select.rs:110-130 | without Enter or Cancel nothing is picked |
| Keys.ReadsJoin | src/cli/select.rs:112-122 | reads that each end between keys decode to the keys of the joined bytes |
| Keys.CutsDoNotMatter | src/cli/select.rs:112-130 | two ways of cutting the same input into reads the reader lets go at key starts pick the same row |
| Keys.OneCut | src/cli/select.rs:117-122 | in a stream whose every ESC starts a key, a cut at a key start changes nothing and any other cut gives more keys |
| Keys.CutsHarmlessIff | src/cli/select.rs:112-122 | any number of cuts leave the keys of such a stream alone iff each is at a key start |
| Keys.KeysSurviveIff | src/cli/select.rs:110-130 | however such a stream is delivered, silence and full buffers included, the gathered buffers decode to its keys iff every buffer but the last ends at a key start |
| Keys.UnhurriedCutsAtKeyStarts | src/cli/select.rs:206-224 | no silence inside a sequence and no full buffer that looks unfinished are enough for that |
| Keys.PickedFromStream | src/cli/select.rs:110-130 | end to end: then the picked row is the outcome of the keys of the whole stream |
| Keys.FullBufferCutsExample | src/cli/select.rs:110-122 | 31 `j`, an arrow and Enter: the stream picks a row, the buffers cancel |
| Lines.ReadProgressLines | src/daemon/progress.rs:440-474 | however the input is cut into reads, the callback gets the segments of all that arrived before end or error, and the text is their newline-join |
| Lines.Reader.Push | src/daemon/progress.rs:463-469 | each byte keeps the segments still to be reported: flushed ones, pending bytes and the rest |
| Lines.SegmentsAreRuns | src/daemon/progress.rs:436-439 | segment k is the maximal run free of bytes 0x0d and 0x0a at its own place, each place ends before the next begins, and every maximal run has one |
| Lines.ArrivedUpToEnd | src/daemon/progress.rs:459-462 | all chunks up to the first failure or empty read arrive, whole and in order, and nothing behind it |
| Lines.SegmentsKeepBytes | src/daemon/progress.rs:463-472 | the segments in order are the input without its CR and LF bytes |
| Lines.CapturedSplitsBack | src/daemon/progress.rs:448-458 | the captured text splits at newlines into exactly the reported lines |
| Streaming.EveryLineTakenInOrder | src/daemon/compose.rs:149-167 | for every interleaving of the two readers and the loop, by the disconnect each pipe's lines were received once each in order |
| Streaming.Pump | src/daemon/compose.rs:169-197 | non-blank lines reported once in order, one kill iff the caller was found gone at a turn that asked, tail the last 15 non-blank stderr lines |
| Streaming.PumpTurn | src/daemon/compose.rs:176-196 | one turn of the loop keeps report, tail and kill those of the turns so far |
| Streaming.RunStreaming | src/daemon/compose.rs:130-212 | nothing runs for a caller already gone; otherwise Done iff awaited, successful and not killed, Cancelled iff killed and awaited, and a failing exit carries the last 15 stderr lines joined by newlines, white space off both ends |
| Streaming.HearsWholePipes | src/daemon/compose.rs:149-189 | from bytes to report: any reads, any interleaving, any waits, exactly each pipe's non-blank lines in order |
| Streaming.FailureIsStderrTail | src/daemon/compose.rs:149-210 | from bytes to error: however the pipes are read and interleaved, the failure text is the last 15 non-blank segments of the bytes of stderr |
| Streaming.FailureExample | src/daemon/compose.rs:207-210 | a failing exit after one stderr line fails with that line |
| Streaming.ReportGrows | src/daemon/compose.rs:176-182 | each turn adds its line to the report unless it is white space throughout, and nothing else |
| Streaming.NonBlankLinesKeep | src/daemon/compose.rs:177-179 | the non-blank lines are each line not white space throughout, in order |
| Streaming.CancelMissedIff | src/daemon/compose.rs:176-196 | an awaited run ends other than Cancelled iff every turn from the caller's leaving on brings a line of white space |
| Streaming.CancelMissedExample | src/daemon/compose.rs:176-196 | a run that ends Done although the caller left before its end |
| Streaming.BlankIffAllSpace | src/daemon/compose.rs:177-179 | a line trims to nothing iff every character is white space |
| Streaming.TrimStrips | src/daemon/compose.rs:207-210 | the failure text is the tail with all white space off both ends and nothing else |
| InstanceIds.InstanceDefault | src/cli/main.rs:1715-1735 | the base if free; else base-2 if free and of at most 64 bytes, and in general base-n with the least free n from 2 on whenever a free candidate fits; else the base; no more candidates are looked at than there are names taken |
| InstanceIds.CandidateExample | src/cli/main.rs:1726-1726 | `gitea-2`, `gitea-11` |
| InstanceIds.LengthGrows | src/cli/main.rs:1725-1729 | once a candidate is over 64 bytes so is every later one: the break skips nothing usable |
| InstanceIds.TakenCandidates | src/cli/main.rs:1725-1733 | a scan that found n-2 candidates taken needs as many taken names |
| Ports.CreateBindings | src/daemon/docker.rs:1821-1838 | the port loop exposes every entry in order and binds each engine key to the last host port given for it |
| Ports.BoundPerProtocol | src/daemon/docker.rs:63-69 | a tcp port is bound and wanted as container/tcp, a udp one as container/udp, one over both as each, every time to its host port and in list order |
| Ports.FilledKeepsLast | src/daemon/docker.rs:1825-1834 | of the bindings of one container port and transport the last inserted is kept |
| Ports.AppliedPorts | src/daemon/docker.rs:342-350 | reading back visits each binding once, in some map order, and sorts the keys |
| Sorting.AtMostIff | src/daemon/docker.rs:350-350 | the keys are sorted by first difference, a prefix first |
| Ports.AppliedIsJoined | src/daemon/docker.rs:393-401 | reading back a binding of the daemon's own gives its host:container/transport key |
| Ports.AppliedElse | src/daemon/docker.rs:393-401 | a key without a transport reads as tcp, a binding without a host port as `auto`, any other as its host port |
| Ports.BindingKeyInjective | src/daemon/docker.rs:101-118 | the normalised key determines host port, container port and transport |
| Ports.BindingKeyExample | src/daemon/docker.rs:101-118 | `8080:3000/tcp` |
| Ports.UnassignedAlwaysDrifts | src/daemon/docker.rs:389-401 | a binding without a host port matches no desired key, so its container always drifts |
| Ports.NoDriftIffConsistent | src/daemon/pkg/refresh.rs:216-225 | a container just created shows no port drift, in any map order, iff ports that meet on container port and transport agree on the host port |
| Ports.ConflictDriftsExample | src/daemon/docker.rs:1821-1838 | two host ports for one container port drift in every map order |
| Ports.DriftIffSameBindings | src/daemon/pkg/refresh.rs:216-225 | changed settings show no drift iff they ask for the same host-to-container bindings: a re-picked host port is always seen |
| Prune.DockerProtection | src/cli/main.rs:3636-3662 | a name is protected iff a visible app's footprint has it, with the reason of the first such app |
| Prune.ClaimedIff | src/cli/main.rs:3646-3660 | a claim exists iff some footprint has the name, and is that of the first such app |
| Prune.PruneItem | src/cli/main.rs:3973-3994 | protected, planned, removed or refused: the one report each item gets and what it does to the engine |
| Prune.PruneImages | src/cli/main.rs:3956-4000 | the report and the engine's contents after the image loop, dangling-only or not |
| Prune.PruneVolumes | src/cli/main.rs:4001-4030 | the same for volumes |
| Prune.InProcessPruneImages | src/cli/main.rs:3946-4000 | from the footprints to the engine: a listed image leaves iff the run is real, looks at it, no visible app has one of its tags or its id and the engine agrees; one in use is skipped with the app of its first tag in use, else of its id, a refused one with the refusal; the bytes are those of the images removed |
| Prune.InProcessPruneVolumes | src/cli/main.rs:4001-4030 | the same for volumes by name |
| Prune.ImageLeavesIff | src/cli/main.rs:3956-3994 | an image leaves iff the run is real, looks at it, no app has a tag or the id of it and the engine agrees |
| Prune.VolumeLeavesIff | src/cli/main.rs:4003-4024 | a volume leaves iff the run is real, no app has it and the engine agrees |
| Prune.ReasonForImage | src/cli/main.rs:3973-3981 | the reason is the app of the first tag in use, else the app of the id |
| Prune.ImageSkippedFor | src/cli/main.rs:3973-3981 | an image in use is reported under its label with that app |
| Prune.VolumeSkippedFor | src/cli/main.rs:4006-4010 | a volume in use is reported with the first app that has it |
| Prune.RefusedIsSkipped | src/cli/main.rs:3987-3993 | what nobody has and the engine refuses is reported with the refusal |
| Prune.ImageShown | src/cli/main.rs:3964-3972 | an image is shown by its first tag, an untagged one by twelve characters of its id behind `sha256:` |
| Prune.ReclaimedIsFreed | src/cli/main.rs:3982-3992 | the bytes reported are the sizes of the images looked at that neither an app nor the engine keeps |
| Prune.ReclaimedIsFreedVolumes | src/cli/main.rs:4011-4022 | the same for volumes, one of unknown size counting for nothing |
| Prune.PruneExample | src/cli/main.rs:3946-4000 | a run in full: one image in use by its tag stays, one that nobody has goes |
| Prune.ItemLeavesIff | src/cli/main.rs:3973-3994 | in a real run an item leaves iff nothing protects any of its names and the engine agrees |
| Prune.FootprintStays | src/cli/main.rs:3636-4030 | no image or volume that a visible app's footprint names by tag, id or name ever leaves the engine |
| Prune.UnlistedStays | src/cli/main.rs:3954-4030 | nothing that was not looked at leaves |
| Prune.ReportedOnce | src/cli/main.rs:3957-4030 | removed and skipped together report each considered item exactly once |
| Prune.DryRunFaithfulIff | src/cli/main.rs:3982-3994 | a dry run reports what the real run does iff the engine refuses no unprotected item |
| Installer.FetchDaemonBinary | src/updater/installer.rs:129-193 | bytes come back iff the checksum is that of the archive and its first `asc` can be read with nothing broken before it, and they are those; a missing archive, a missing checksum and a mismatch are each told apart |
| Installer.VerifiedIsGenuine | src/updater/installer.rs:129-193 | a release yields bytes iff some are the `asc` of an archive its checksum is of, and then those |
| Installer.ExtractFindsFirst | src/updater/installer.rs:179-193 | the first archive entry of the name, provided nothing before it is broken |
| Installer.Disk.Write | src/updater/installer.rs:202-202 | every state a write passes through differs only in that file, which holds a first part of the data; opening empties it |
| Installer.WriteBinary | src/updater/installer.rs:197-210 | until the rename only the temporary file changes, after it the target is complete and executable |
| Installer.UpdateInner | src/updater/installer.rs:243-306 | replaces iff a strictly newer release verifies and nothing fails, and then by the `asc` of an archive the checksum is of; without such an archive nothing is written; at every crash point `asc` is untouched, or complete and verified with the old one whole in `asc.previous` |
| Installer.WithoutVDropsOne | src/updater/installer.rs:112-115 | one leading `v` is dropped, and nothing else |
| Installer.NewerExample | src/updater/installer.rs:119-121 | a later version is newer, the same and an older one are not, with a `v` on either side |
| Installer.Replace | src/updater/installer.rs:277-289 | backup and replacement: every crash point is safe, and one of them is the emptied backup |
| Installer.Rollback | src/updater/installer.rs:309-326 | swaps the two binaries; at every crash point `asc` is one of the two, complete, and one of the points has the save emptied |
| Installer.RollbackUndoesUpdate | src/updater/installer.rs:243-326 | one rollback after a completed update restores exactly the old bytes and keeps the new ones |
| Installer.TwoRollbacksIff | src/updater/installer.rs:309-326 | two rollbacks are the identity on the pair iff there is a current binary |
| Installer.RollbackAfterCrash | src/updater/installer.rs:243-326 | from any crash point of an update past the rename a rollback restores the old bytes |
| Installer.RollbackDuringBackup | src/updater/installer.rs:277-282 | from a crash inside the backup copy a rollback restores the old bytes iff the copy was complete |
| Installer.RollbackDuringSave | src/updater/installer.rs:318-320 | from a crash inside a rollback's save a second rollback gives back the replaced bytes iff the save was complete |
| Installer.TornSaveExample | src/updater/installer.rs:318-320 | a crash just after that save was opened, after which the replaced binary is in neither file |
| Installer.TornBackupExample | src/updater/installer.rs:277-282 | a crash just after the backup was opened, after which a rollback installs an empty binary |
| Installer.MissingBinaryExample | src/updater/installer.rs:309-326 | with no current binary the second rollback finds nothing |
| Completion.Complete | src/cli/complete.rs:155-262 | the whole line: the walk over the typed words followed by one choice of reply |
| Completion.WalkWords | src/cli/complete.rs:170-217 | the loop over the typed words is the walk, one word after another |
| Completion.WordMeans | src/cli/complete.rs:170-217 | what one word does: `--` ends the descent, a dashed word leaves the place and waits exactly for the argument that takes the next word, a subcommand's name or alias descends, any other word fills one positional |
| Completion.PendingIff | src/cli/complete.rs:187-207 | an option waits for a value iff it takes one and the word is its long name without `=`, or a short cluster that ends in it |
| Completion.Answer | src/cli/complete.rs:219-262 | the branches choose the reply of the place the walk reached |
| Completion.CandidatesContinue | src/cli/complete.rs:218-271 | every candidate offered starts with the word under the cursor |
| Completion.OfferedIff | src/cli/complete.rs:237-260 | with nothing pending: exactly the visible options behind a dash, else the visible subcommands and the next positional's values, that continue the word, and the paths of that positional |
| Completion.OfferedPendingIff | src/cli/complete.rs:233-235 | a word an option waits for is offered exactly the option's values that continue it, and its paths |
| Completion.OfferedInlineIff | src/cli/complete.rs:219-231 | `--name=typed` is offered, whatever was pending, exactly `--name=` with each of the option's values that continue `typed`, and its paths |
| Completion.InlineIff | src/cli/complete.rs:219-224 | that branch is taken iff the word is `--`, a name without `=` that an option here has, `=` and anything |
| Completion.PositionalsInOrder | src/cli/complete.rs:255-255 | the positionals are the arguments with neither a long name nor a short flag, in order |
| Completion.KeepingKeeps | src/cli/complete.rs:265-270 | the filter keeps exactly the candidates with the prefix |
| Completion.SplitEqualsJoins | src/cli/complete.rs:221-224 | cutting at the first = loses nothing, leaves none before the cut, and happens iff there is one |
| Completion.OptionValueLeavesNoTrace | src/cli/complete.rs:175-207 | an option and its value never move the command path or fill a positional: the line completes as without both |
| Completion.FlagLeavesNoTrace | src/cli/complete.rs:187-207 | neither does a flag, nor an option written with `=` |
| Completion.DashesEndDescent | src/cli/complete.rs:179-186 | words after `--` never descend, each fills a positional |
| Completion.OfferedSubcommandIff | src/cli/complete.rs:209-260 | an offered subcommand, accepted, walks into exactly it with no positional filled iff no `--` came before |
| Completion.OfferedBehindDashesExample | src/cli/complete.rs:209-260 | behind `--` a subcommand is offered that then only fills a positional |

## Left out

- REST and gRPC handlers, the firewall, fail2ban, WireGuard, backups, the scheduler and the package manager: thin copying, or logic in modules this model does not enter.
- TokenStore.Store.GetStatus: the digest is not cut to its first 16 hex characters. The messages of the guards are left out.
- The finite size of clocks, byte totals and indices: times, sizes and the cursor are unbounded integers, so overflow of a `u64` sum or of `usize` is not modelled. The `u32` counter of the id scan is not either; it would need four billion taken names.
- Keys.ReadKeys: the 30 ms are not measured; silence is an input.
- The numbered picker for dumb terminals, drawing, and reads that fail with an error.
- Streaming.RunStreaming: the 250 ms wait is a turn without a message; that a killed child closes its pipes is the operating system's part.
- Installer.WriteBinary: creating the directory is one step that may fail; the order in which unsynced data reaches the disk at a power loss is not modelled, only the order of the calls.
- Installer.FetchDaemonBinary: the target triple, asset names, gzip and the text format of the checksum file; a release has an archive and a checksum or lacks them.
- The token file: a write cut short part-way, and the order in which unsynced data reaches the disk at a power loss; a crash keeps the effects of the calls made.
- TokenRequests.AuthorizedIff: of the callers on the socket only root, which needs no token, is modelled beside bearers.
- Installing the service, completions and the update timer, and restarting the daemon.
- InstanceIds.InstanceDefault: case folding of the base and the branch without a daemon, which asks the local store.
- Ports.AppliedPorts: environment, binds, quotas, GPUs and command of `container_applied`; their comparison is field by field.
- Prune.PruneImages: the engine's own pruning of untagged parent layers when an image goes; the build-cache target, which is a single engine call.
- Completion.Complete: help texts; `values_for` and the clap tree are parameters. `cmd.build` has already added the implicit arguments.
- `static_bar`, the terminal percentage bar: one expression.
