# Freetalk boards, verified

A Freetalk board is replicated state: bans, members (an invite forest rooted at the owner), member info, secrets and
messages. Peers exchange deltas. A step applies a delta part by part and then cleans up: inactive members are pruned,
and bans whose banner was banned are dropped. This project models that step and the clients that produce deltas, and
proves what every step, every run and every merge keeps.

Check it with `dafny verify dfyconfig.toml` (Dafny 4.11).

## How it is built

- `Lists`, `Records`, `Encoding`: canonical lists, the signed records, base58 text.
- `Forest`: one relation, `Above`, says who lies on the way up from a member to the owner. The walks of the program
  (signature chain, ban check upward, ban authorisation, cleanup worklist) and the two of the clients (ban pre-check,
  invite tree) are specified by it. `Descent` does the same for the ban cascade downward, on lists of any shape, and
  shows that on a list without repeated identifiers the two relations are one.
- `Members` and `MemberList`, `Bans`, `MemberInfos`, `Secrets`, `Messages` with `Actions`: the parts. Each is a class
  updated in place whose methods are proved equal to a function of the old state; the properties are proved of that
  function.
- `Board`, `Runs`, `BoardState`: cleanup, the whole step, runs of updates, and the class that performs them.
- `Readings`, `RecordReadings`, `StepReadings`: a second reading of every part, of cleanup, of the whole step, of
  merging and of verification, said of the records themselves: walks as sequences of identifiers, chains as sequences
  of signed records, lists by their elements and their order. Each is proved to be exactly what the functions compute,
  so what is accepted, refused and kept can be read off these predicates alone.
- `StepVerification`: what steps and runs do to the verification of a whole board, public or private.
- `Convergence`, `MergeOrder`, `MergeRepeats`, `InfoMerges`, `PublicRuns`: merging public boards.
- `Cli`, `Rotation`, `InviteTree`, `ReplyTree`: the client code that meets the board.
- `Delegate`, `Armour`: the delegate's key-value store, and the armoured identity text.

## What is assumed

- An identifier stands for a key and for its hash; hashes do not collide, so `member_vk == owner` and `id == owner` are
  the same test. A signature is the set of keys under which it verifies. Times are integers. Titles are
  given by their UTF-8 bytes, since the limits count bytes.
- The identifier of a ban or a message is a hash too: where boards are merged, the same identifier means the same
  record, on one board, within a delta and across boards. The record may well be there more than once.
- A step is the parts in field order, each seeing the parts before it already updated, then `post_apply_cleanup`; the
  macro that generates this is not part of this model. `merge(other)` applies `other.delta(self.summarize())`.
- The configuration and the admin ids are a parameter of each step, so a run may change them between steps.
- The code does not reject an entry for the owner, and with one the removal of banned subtrees may not end. What is
  proved about steps and runs holds whatever deltas carry; the methods ask of their caller only that the removal ends
  (`Members.RemovalEnds`), on boards of any shape. `Descent.WalkEndsExactly`, `Members.StepOnForest` and
  `Members.RemovalEndsExactly` say exactly when it does.
- CBOR, base58, encryption and the clock are parameters or lossless maps. Rust's `sort_by_key` is a stable sort.
- `VERSIONS` is 2^32: secret versions wrap where the client adds one to a 32-bit number.

## What the proofs found

- `identify_excess_bans` marks the newest bans, although its comment says the oldest, while `apply_delta` drops the
  oldest. No ban is both exactly up to twice the limit (`Bans.MarkedIsNotTrimmed`); they are the same bans only when
  there are none or the limit is zero (`Bans.MarkedIsTrimmed`). The model follows the code.
- The downward walk has no visited set: it ends exactly when it meets nobody who descends from themselves
  (`Descent.WalkEndsExactly`); an entry for the owner can make it endless (`MemberList.OwnerEntryTrap`).
- `validate_invite_chain` never reports `NotInInviteChain` on a list without an owner entry: a walk that misses the
  banner stops with `InviterNotFound` at the top.
- The owner's ban of someone who left is refused while a ban of theirs still stands on a listed member
  (`Bans.OwnerBanRefusedExactly`).
- A ban by someone who joins in the same delta is accepted unsigned, and the board then does not verify
  (`StepVerification.UnsignedBanAccepted`); the bans verify after a step exactly when the banners it lists have signed
  theirs (`StepVerification.StepBansVerifyExactly`).
- Cleanup may leave a verified list unverified when the list repeats an identifier (`Board.CleanupUnverifiesHere`);
  `Board.CleanupKeepsMembersVerify` says exactly when.
- A delta is compared with the board but not with itself, so it may repeat a message or an owner-signed ban
  (`MergeRepeats.RepeatedMessageAccepted`, `MergeRepeats.RepeatedBanAccepted`). A merge keeps a record as often as the
  first board that holds it, so merging commutes up to how often a record occurs (`MergeRepeats.RepeatsDoNotCommute`)
  and entirely exactly when what both boards hold occurs equally often on both (`MergeRepeats.CommutesExactly`). The
  grouping never shows (`MergeRepeats.GroupingIrrelevant`).
- Member info depends on the order of merges when two boards hold different records of one version, and on the grouping
  when an early merge prunes a member whose newer record it held (`InfoMerges.TiesDoNotCommute`,
  `InfoMerges.PruningLosesVersion`); `InfoMerges.InfosCommuteExactly` and `InfoMerges.InfosAssociateExactly` say exactly
  when neither happens.
- Rejoining sends the nickname "Member", so it fails on a board whose limit is below six characters
  (`Cli.RejoinWorks`, `Cli.RejoinRefusedHere`).
- Secret rotation is refused at the last 32-bit version, where the number wraps to zero, and where the board already has
  a trace of the next version (`Rotation.RotationCompletes`, `Rotation.RotationRefusedAtLast`,
  `Rotation.RotationRefusedOnTrace`).
- Building a reply tree from a message that is below itself does not end; from the top level it always does
  (`ReplyTree.ReplyTreeExists`, `ReplyTree.SelfReplyHasNoTree`).
- The delegate key `::key_index` is the index itself. `Delegate.ReservedKeyExactly` says exactly which requests leave
  the promised maps in place and `Delegate.RunHoldsExactly` exactly which runs do; a value stored there may be lost at
  once although the list stays right (`Delegate.ReservedValueLost`), and a Get after a delete is never right
  (`Delegate.ReservedDeleteNeverRight`).
- The step keeps every allowed message, however many (`Messages.KeptIsCanonical`), and does not check their signatures,
  although comments beside `recent_messages` and in `apply_delta` say it does both. An unsigned message is accepted
  (`Runs.UnsignedMessageAccepted`); the log verifies after a step exactly when the messages it added are signed
  (`Runs.StepMessagesVerifyExactly`).
- A secrets delta that records a version above the one it makes current is accepted but leaves a state that does not
  verify (`Secrets.VerifyKeptExactly`, `Secrets.VersionAheadAccepted`); a rejected one is not undone
  (`Secrets.RejectionIsNotAtomic`), except exactly as `Secrets.RejectedLeavesExactly` says; nor is a rejected
  member-info delta, except exactly as `MemberInfos.RejectedLeavesExactly` says.
- Importing an identity checks a signature only when the inviter is in the export; with a chain that leads to the owner
  that is exactly what rejoining needs (`Armour.ImportedCanRejoin`).

## Model

| member | source | states |
|---|---|---|
| Runs.RunInvariant | freetalk-contract/src/lib.rs:43-91 | every state of every accepted run from an empty board, whatever the configurations and the deltas, has verified members, none banned or below a banned user, each an author or above one; message authors listed or the owner; verified member info; every list in order; the action state rebuilt |
| Runs.NoOwnerRunEnds | freetalk-contract/src/lib.rs:43-91 | a run none of whose updates lists the owner ends at every step |
| Runs.StepInvariant | common/src/board_state.rs:80-153 | one accepted step keeps that invariant |
| Runs.StepEstablishes | common/src/board_state.rs:80-153 | one accepted step brings any board whose members and member info verify and repeat no identifier to that invariant, whatever the order of its lists and whoever is idle or banned on it |
| Runs.SettledIsFixedPoint | common/src/board_state.rs:80-153 | on a board with the invariant the empty step changes nothing if and only if every message fits the limit and every ban keeps its banner or its reason |
| Runs.StepIsFixedPoint | common/src/board_state.rs:80-153 | whatever state a step produces, from any board at all, the empty step leaves it as it is, action state included |
| Runs.StepMessagesVerifyExactly | common/src/board_state/message.rs:45-73 | after an accepted step the log passes `MessagesV1::verify` if and only if every new message of the delta that the step keeps is signed by its author |
| Runs.UnsignedMessageAccepted | common/src/board_state/message.rs:102-199 | an unsigned message on an empty board is accepted and the log then does not verify |
| BoardState.ChatBoardStateV1.RequiredIds | common/src/board_state.rs:91-120 | the worklist ends on any member list, cyclic or not, with exactly the listed authors and everyone above them below the owner |
| BoardState.ChatBoardStateV1.PostApplyCleanup | common/src/board_state.rs:80-153 | the in-place cleanup yields the board's cleaned form: exactly the members heard of, records of them and the owner, and the bans whose banner is the owner, still listed or not banned |
| BoardState.ChatBoardStateV1.ApplyParts | common/src/board_state.rs:28-66 | from any board on which the removal ends, the five parts in field order give the specified board, or fail exactly when one of them must |
| BoardState.ChatBoardStateV1.ApplyDelta | common/src/board_state.rs:28-66 | from any board on which the removal ends, the whole step, parts and cleanup, accepted exactly when specified |
| BoardState.ChatBoardStateV1.ApplyUpdate | freetalk-contract/src/lib.rs:54-84 | one update of any board: a whole state is merged, a delta applied, anything else skipped, and the invariant kept where it held |
| BoardState.ChatBoardStateV1.UpdateState | freetalk-contract/src/lib.rs:43-91 | from any board the loop over updates is the run function, stops at the first rejected update, and keeps the invariant where it held, on every run whose steps end |
| Board.PrunedElements | common/src/board_state.rs:91-127 | pruning any list keeps exactly the records whose identifier is that of an author or of someone above one, sorted, and their entries in the table |
| Board.CleanupKeepsMembersVerify | common/src/board_state.rs:91-127 | a list that passes `MembersV1::verify` still does after cleanup if and only if the inviter of each record kept is the owner or kept; where no identifier is repeated it always does |
| Board.CleanupUnverifiesHere | common/src/board_state.rs:91-127 | a list that holds two records of one member verifies, and what cleanup leaves of it does not |
| Board.CleanupKeepsBansVerify | common/src/board_state.rs:129-144 | on any list cleanup keeps `BansV1::verify`: no kept ban loses its banner while its target stays |
| Board.CleanupIdempotent | common/src/board_state.rs:80-153 | on any board cleaning up twice is cleaning up once |
| StepReadings.CleanupReads | common/src/board_state.rs:80-153 | on any board cleanup leaves exactly the members who are listed authors or have a line of invitations down to one, records of them and the owner, and the bans whose banner is the owner, still listed or named by no ban, in order; nothing else changes |
| StepReadings.BansStayExactly | common/src/board_state.rs:129-144 | after any accepted step a ban is there if and only if it was there before cleanup and its banner is the owner, or listed afterwards, or named by no ban |
| StepReadings.SilentBannersBanStays | common/src/board_state.rs:129-144 | a member pruned for silence, whom nobody banned, leaves their ban standing |
| StepReadings.StepReads | common/src/board_state.rs:28-153 | any step from any board either is accepted, and leaves what each part and then cleanup are said to leave, or one of its parts refuses, by rules written out over the records |
| StepReadings.UpdateReads | freetalk-contract/src/lib.rs:54-84 | a whole state is merged by applying exactly what it has and the board lacks, by identifier, version, number or pair; a delta is applied; an empty delta and related state change nothing |
| StepReadings.VerificationReads | freetalk-contract/src/lib.rs:19-41 | a board verifies if and only if its bans are within the limit, grounded and signed, its members have signed lines up to the owner, its member info, secrets and messages are signed by whom they must be, and its current secret version is the newest |
| Convergence.MergeIsClosure | common/src/board_state.rs:28-66 | merging into a public board one whose further bans fit ends, is accepted and holds exactly the union minus banned subtrees, minus their messages, pruned to the active and those above them, sorted; the result can be merged again |
| Convergence.MergeCommutes | common/src/board_state.rs:28-66 | where the bans fit either way, both merges are accepted and give the same bans and messages, if perhaps not each equally often, and the same member list and action state |
| Convergence.MergeAssociates | common/src/board_state.rs:28-66 | where the bans of all three fit, (s+t)+u and s+(t+u) are accepted and give the same in that sense; that they are one and the same board is `MergeRepeats.AssociatesExactly` |
| MergeOrder.PlanCloses | common/src/board_state.rs:28-66 | any order and grouping of merges of mergeable, agreeing boards is accepted merge by merge and ends with the closure of their union, when the limit has room for every ban as often as the board that holds it most |
| MergeOrder.MergeOrderIrrelevant | common/src/board_state.rs:28-66 | any two orders and groupings over the same such boards, repetitions included, end with the same bans and messages, if perhaps not each equally often, and the same member list and action state |
| MergeRepeats.MergedCounts | common/src/board_state.rs:28-66 | a merge holds each ban, and each message it keeps, as often as the first of the two boards that holds it |
| MergeRepeats.CommutesExactly | common/src/board_state.rs:28-66 | merging either way gives one and the same board, member info apart, if and only if every ban both hold, and every message both hold and the merge keeps, occurs equally often on both |
| MergeRepeats.GroupingIrrelevant | common/src/board_state.rs:28-66 | merges of the same boards in the same order give one and the same board, member info apart, however they are grouped |
| MergeRepeats.AssociatesExactly | common/src/board_state.rs:28-66 | in particular (s+t)+u and s+(t+u) are one and the same board, member info apart |
| MergeRepeats.MergeOrderExactly | common/src/board_state.rs:28-66 | two orders and groupings over the same boards give one and the same board, member info apart, if and only if the first holder of each ban, and of each message kept, holds it equally often in both orders |
| MergeRepeats.RepeatedMessageAccepted | common/src/board_state/message.rs:163-193 | a delta that repeats a message of the owner is accepted on the empty board and the log holds it twice |
| MergeRepeats.RepeatedBanAccepted | common/src/board_state/ban.rs:351-405 | a delta that repeats an owner-signed ban is accepted and the list holds it twice |
| MergeRepeats.RepeatsDoNotCommute | common/src/board_state/message.rs:163-193 | a board with a message twice and one with it once can be merged, and each keeps its own count |
| InfoMerges.MergedInfos | common/src/board_state/member_info.rs:60-148 | a merge holds, for the owner and every member left and nobody else, the newer of the two records, the local one on a tie |
| InfoMerges.InfosCommuteExactly | common/src/board_state/member_info.rs:60-148 | merging either way gives the same member info if and only if nobody left has two different records of one version |
| InfoMerges.TiesDoNotCommute | common/src/board_state/member_info.rs:60-148 | two mergeable boards with different records of one version for the owner: each keeps its own |
| InfoMerges.InfosAssociateExactly | common/src/board_state/member_info.rs:60-148 | both groupings of three boards give the same member info if and only if the newest record of everyone left is kept by s+t or held by u, and kept by t+u or held by s |
| InfoMerges.PruningLosesVersion | common/src/board_state.rs:91-127 | three boards on which an early merge prunes a member and the newer record, so the groupings differ |
| Convergence.MergeIdempotent | common/src/board_state.rs:28-66 | merging a board with itself changes nothing, info and secrets included |
| PublicRuns.StepKeepsMergeable | common/src/board_state.rs:80-153 | an accepted step without secrets, with owner-signed bans and unambiguous identifiers, leads from a mergeable board to a mergeable board; its delta may repeat records |
| PublicRuns.PublicRunIsMergeable | freetalk-contract/src/lib.rs:43-91 | under one public configuration every state of every accepted run of such deltas and boards is a board the merge laws apply to, with its bans within the limit |
| PublicRuns.PublicRunVerifies | freetalk-contract/src/lib.rs:19-41 | what such a run leaves passes verification of bans, members, member info, secrets and messages if and only if its messages are signed, and its bans pass in any case; for other runs see `StepVerification.RunVerifiesExactly` |
| StepVerification.StepBansVerifyExactly | common/src/board_state/ban.rs:257-305 | after any accepted step from a board whose bans verify, and whose members and member info verify and repeat no identifier, the bans verify if and only if each ban left whose banner the step listed is signed by that banner |
| StepVerification.StepVerifiesExactly | freetalk-contract/src/lib.rs:19-41 | after any accepted step, private boards and members' bans included, a board that verified, without repeated identifiers in members and member info, verifies if and only if newly listed banners signed, no secret version lies above the current one, and the added messages are signed |
| StepVerification.RunVerifiesExactly | freetalk-contract/src/lib.rs:19-91 | from any board that verifies and repeats no identifier among members and member info, every state of an accepted run under one configuration verifies if and only if every update is clean in that sense |
| StepVerification.UnsignedBanAccepted | common/src/board_state/ban.rs:351-405 | an unsigned ban by someone who joins in the same delta is accepted and the bans then do not verify |
| StepVerification.RemovedOnlyByAuthority | common/src/board_state/ban.rs:113-166 | whenever the removal of an accepted step ends, a member leaves by a ban only to one of the same delta that names them or someone above them, signed where that can be checked, by the owner, an admin, someone at or above its target or someone not listed, or naming the owner |
| Forest.RootedHasNoCycle | common/src/board_state/member.rs:268-332 | a walk that reaches the owner meets nobody twice |
| Forest.RootedStable | common/src/board_state/member.rs:88-117 | adding records leaves the walk up from a member who reaches the owner as it was |
| Readings.WalkReads | common/src/board_state/member.rs:268-332 | someone is above a member if and only if a sequence of identifiers goes up to them, each listed, not the owner, and invited by the next |
| Readings.DescentReads | common/src/board_state/member.rs:208-220 | the downward walk reaches exactly those to whom records of the list lead down |
| Readings.TableReads | common/src/board_state/member.rs:187-189 | the lookup table gives each identifier its last record |
| Members.VerifyOfRoster | common/src/board_state/member.rs:31-60 | a list verifies if and only if each record is someone other than the owner, vouched for up to the owner within the list |
| Readings.MembersVerifyReads | common/src/board_state/member.rs:31-60 | on any list verification holds if and only if each record is someone other than the owner who does not invite themselves and has a line of records up to the owner, each signed by its inviter, on which they are not met again |
| Readings.VerifiedIsSigned | common/src/board_state/member.rs:303-323 | every record of a verified list carries its inviter's signature |
| Readings.MembersRead | common/src/board_state/member.rs:88-133 | on any list a delta is accepted if and only if each record is signed by the owner who invited it or has such a line among list and newcomers; what is left is the list and the newcomers, but for those a ban names or records lead down to from one, in order |
| Readings.AddedAreSigned | common/src/board_state/member.rs:303-323 | every record of an accepted delta carries its inviter's signature, and one that does not makes the delta rejected |
| Readings.UnsignedRefusedHere | common/src/board_state/member.rs:303-323 | a record nobody signed, naming a listed member as inviter, is refused; signed by that member it is accepted |
| Members.AddNewVerifies | common/src/board_state/member.rs:88-125 | a verified list with accepted additions verifies, an entry for the owner apart |
| Members.UnbannedVerifies | common/src/board_state/member.rs:197-205 | what is left after bans took their subtrees still verifies |
| Members.RemovalVerifies | common/src/board_state/member.rs:197-205 | the same when the list holds an entry for the owner, that entry apart; and nobody left is banned or below a banned user |
| Members.StepOnForest | common/src/board_state/member.rs:88-133 | on a list without repeated identifiers an accepted step leaves exactly those neither banned nor below a banned user in the forest, and its removal ends if and only if no banned user is above themselves |
| Members.RemovalEndsExactly | common/src/board_state/member.rs:88-133 | on a verified list the removal after an accepted delta ends if and only if no banned user is above an entry for the owner |
| Members.NobodyLeftCondemned | common/src/board_state/member.rs:197-205 | after the removal nobody left is banned or below a banned user |
| MemberList.MembersV1.GetInviteChainWithLookup | common/src/board_state/member.rs:268-332 | ends on any table; succeeds exactly when there is a line of records up to the owner, each carrying its inviter's signature, on which the member is not met again; returns that line, nearest first |
| MemberList.MembersV1.GetInviteChain | common/src/board_state/member.rs:257-264 | the same on the list's own table |
| MemberList.MembersV1.Verify | common/src/board_state/member.rs:31-60 | accepts exactly the lists in which every record passes |
| MemberList.MembersV1.VerifyMemberInviteWithLookup | common/src/board_state/member.rs:141-157 | accepts exactly the admissible records |
| MemberList.MembersV1.GetDownstreamMembers | common/src/board_state/member.rs:208-220 | on any list on which the walk ends, without a visited set, returns exactly those to whom a line of one or more records leads down from its start |
| MemberList.MembersV1.RemoveBannedMembers | common/src/board_state/member.rs:197-205 | on any list on which its walks end, removes exactly the banned members and everyone below one |
| MemberList.MembersV1.InviteChainIds | common/src/board_state/member.rs:336-357 | on any record and table, ends with the record itself and exactly those but the owner to whom a line leads up from its inviter that passes no record of its own identifier |
| MemberList.MembersV1.CheckBannedMembers | common/src/board_state/member.rs:225-252 | on any list, returns exactly the members with a banned user on their chain, or nothing when there are none |
| MemberList.MembersV1.HasBannedMembers | common/src/board_state/member.rs:192-194 | true exactly when some member is flagged, on any list |
| MemberList.MembersV1.ApplyDelta | common/src/board_state/member.rs:88-133 | the members step on any list, repeated identifiers and entries for the owner included, whenever its removal ends; a rejected delta leaves the list alone |
| Descent.WalkEndsExactly | common/src/board_state/member.rs:208-220 | on any list the worklist empties after some number of rounds if and only if the walk meets nobody who descends from themselves |
| Descent.WalkEndsOnForest | common/src/board_state/member.rs:208-220 | on a list without repeated identifiers that is if and only if the start is not above itself |
| Descent.DescendsIsAbove | common/src/board_state/member.rs:197-252 | on such a list walking down and walking up are one relation |
| MemberList.FlaggedListed | common/src/board_state/member.rs:225-252 | on a list without repeated identifiers or an owner entry the flagged members are those below a banned user other than the owner |
| MemberList.FlaggedIsCondemned | common/src/board_state/member.rs:197-252 | the upward walk flags exactly the members the downward walk removes if and only if no ban names the owner or everyone is flagged anyway |
| MemberList.NobodyLeftFlagged | common/src/board_state/member.rs:192-205 | after the removal `has_banned_members` is false |
| MemberList.OwnerEntryTrap | common/src/board_state/member.rs:141-157 | an entry for the owner passes the check of added members, and then the downward walk from its inviter never ends |
| Bans.BansV1.ValidateInviteChain | common/src/board_state/ban.rs:169-211 | ends on any table; succeeds exactly when the banner is the banned member or above it and not the owner; what each error means |
| Bans.BansV1.ValidateSingleBan | common/src/board_state/ban.rs:113-166 | accepts exactly the bans whose target is gone, which the owner or an admin made, listed or not, whose listed banner is above the target or is the target, or whose absent banner is not banned |
| Bans.BansV1.IdentifyExcessBans | common/src/board_state/ban.rs:216-242 | marks exactly the bans beyond the limit, the newest first |
| Bans.BansV1.GetInvalidBans | common/src/board_state/ban.rs:79-110 | marks exactly the unauthorised and the excess bans |
| Bans.BansV1.Verify | common/src/board_state/ban.rs:257-305 | accepts exactly the lists within the limit whose bans are authorised and signed |
| Bans.BansV1.ApplyDelta | common/src/board_state/ban.rs:351-405 | the bans step; a rejected delta leaves the list alone |
| Bans.AppliedIsNewest | common/src/board_state/ban.rs:370-405 | an accepted delta leaves, whatever the list, the newest bans of list and delta together: of the sorted whole the last ones, as many as the limit allows |
| Bans.NewestAbsorbs | common/src/board_state/ban.rs:370-386 | trimming early loses nothing that trimming late would keep |
| Bans.BanOrderIrrelevant | common/src/board_state/ban.rs:351-405 | two accepted deltas without common identifiers leave the newest of all bans, whichever came first |
| Bans.OwnerBansAccepted | common/src/board_state/ban.rs:351-405 | owner-signed bans are always accepted and leave the newest of all |
| Bans.OwnerBanRefusedExactly | common/src/board_state/ban.rs:113-166 | when an owner's ban on a board whose bans verify is refused |
| Bans.OwnerBanRefusedHere | common/src/board_state/ban.rs:113-166 | a concrete board on which it is refused |
| Readings.BansRead | common/src/board_state/ban.rs:351-405 | a delta is accepted if and only if it reuses no identifier of the list and every ban kept of both is grounded and signed where that can be checked; what is left is the latest of both by time and identifier, as many as the limit allows |
| Readings.BanAcceptedExactly | common/src/board_state/ban.rs:113-166 | when one ban, whoever made it, is accepted by a board whose bans verify |
| Readings.AdminBanRefusedExactly | common/src/board_state/ban.rs:137-139 | an admin's signed ban, listed or not and whoever is banned, is refused only where the owner's would be |
| Readings.AdminBansHere | common/src/board_state/ban.rs:137-139 | an admin may ban a member they did not invite, someone else may not |
| Bans.AbsentBannerUnchecked | common/src/board_state/ban.rs:293-301 | a ban by someone who is neither the owner nor listed is accepted on an empty list whatever its signature |
| Bans.MarkedIsNotTrimmed | common/src/board_state/ban.rs:216-242 | no ban is both marked as excess and dropped by the trim if and only if the list is at most twice the limit |
| Bans.MarkedIsTrimmed | common/src/board_state/ban.rs:216-242 | the marked bans are the dropped ones if and only if the list is within the limit or the limit is zero |
| MemberInfos.MemberInfoV1.ApplyDelta | common/src/board_state/member_info.rs:85-148 | the member-info step; a rejected delta leaves applied exactly the records before the first refused one |
| MemberInfos.RejectedLeavesExactly | common/src/board_state/member_info.rs:85-148 | a rejected delta leaves any list as it was if and only if every record of a kept member before the first refused one was known in that version or a newer one |
| MemberInfos.MemberInfoV1.Verify | common/src/board_state/member_info.rs:22-47 | accepts exactly the lists in which each record is the owner's or a listed member's and signed by its subject |
| MemberInfos.StepKeepsInfosVerify | common/src/board_state/member_info.rs:85-148 | the member-info step keeps that verification |
| MemberInfos.InfosAppliedLatest | common/src/board_state/member_info.rs:85-148 | one record for each member that had one in the list or the delta: the newest, the local one on a tie, sorted; nobody unlisted |
| RecordReadings.InfosRead | common/src/board_state/member_info.rs:60-148 | a delta is accepted if and only if no nickname is over the limit and what is said of the owner or a listed member is signed by them; what is left of a list without repeats is, for each of these, its own record or the first to come of the newest, by member |
| Secrets.BoardSecretsV1.Verify | common/src/board_state/secret.rs:26-58 | accepts exactly the states the owner signed whose current version is the newest recorded |
| Secrets.BoardSecretsV1.ApplyDelta | common/src/board_state/secret.rs:123-228 | the secrets step, with what a rejected delta leaves pushed |
| Secrets.VerifyKeptExactly | common/src/board_state/secret.rs:123-228 | an accepted delta keeps verification if and only if it records no version above the one it makes current |
| Secrets.VersionAheadAccepted | common/src/board_state/secret.rs:123-228 | a delta that records version 1 on an empty board without making it current is accepted and leaves a state that does not verify |
| RecordReadings.SecretsRead | common/src/board_state/secret.rs:123-228 | a delta is accepted if and only if its versions are signed and new, its copies signed and, for the owner or a listed member, of a recorded version and the only ones of it, and its current version newer and recorded; what is left is both in order, copies only for these |
| Secrets.MergeWellFormed | common/src/board_state/secret.rs:81-228 | merging a well-formed peer never fails, stays well-formed, unites the versions, and the current one is the newer |
| Secrets.MergedPeersAgree | common/src/board_state/secret.rs:81-228 | two peers that merge each other agree on the versions and the current one |
| StepReadings.MergedCopies | common/src/board_state/secret.rs:81-228 | a merge has a copy of a version for the owner or a listed member if and only if one of the two peers has |
| Secrets.RejectionIsNotAtomic | common/src/board_state/secret.rs:123-228 | a delta with a good version and an unsigned copy is rejected but leaves the version recorded |
| Secrets.RejectedLeavesExactly | common/src/board_state/secret.rs:123-228 | a rejected delta leaves any state as it was if and only if its first version is refused or, without versions, no copy for a holder precedes the first refused one |
| Messages.MessagesV1.CheckMessage | common/src/board_state/message.rs:113-161 | accepts exactly the messages without a title over the limit or with a line break, not public on a private board, not private there under another than the current version, and not private while a listed member lacks a copy of a current version above 0 |
| Messages.MessagesV1.Verify | common/src/board_state/message.rs:45-73 | accepts exactly the logs whose authors are the owner or listed and signed their messages |
| Messages.MessagesV1.ApplyDelta | common/src/board_state/message.rs:102-199 | the messages step and the rebuilt action state; a rejected delta changes nothing |
| Messages.MessagesV1.RebuildActionsStateWithPermissions | common/src/board_state/message.rs:223-381 | the in-place rebuild says exactly what the log and the decrypted content say: deletions, texts, categories, reactions and the order of reactors |
| Messages.KeptIsCanonical | common/src/board_state/message.rs:163-193 | the kept log is the sorted list of exactly the allowed messages |
| RecordReadings.MessagesRead | common/src/board_state/message.rs:102-199 | a delta is rejected if and only if one of its messages breaks such a rule; what is left is, by time and identifier, what the log and the messages it does not have yet hold within the size limit by the owner or someone listed |
| StepReadings.PrivateBoardStaysPrivate | common/src/board_state/message.rs:113-161 | on a private board an accepted step adds only private messages of the current version |
| RecordReadings.PublicRefusedHere | common/src/board_state/message.rs:153-159 | the owner's own public message is refused on a private board and accepted on a public one |
| Messages.MessagesJoin | common/src/board_state/message.rs:102-199 | two deltas, repeating no identifier within themselves, give the same log in either order, as one delta, or with one sent again: the allowed messages of all, strictly sorted |
| Actions.RebuiltMeaning | common/src/board_state/message.rs:223-381 | what the scan rebuilds, read off the log, the decrypted content, the owner and the admins: deleted by its author; the last author edit of what is not deleted and no category; the last permitted category edit; exactly the reactions made before a deletion and not taken back, in the order in which they have stood; no empty or repeating reactor list |
| Actions.AuthorsOfDistinct | common/src/board_state/message.rs:238-243 | on a log without repeated identifiers the author table holds exactly the messages that are no actions, with their authors |
| Actions.AuthorsMeaning | common/src/board_state/message.rs:238-243 | on any log an identifier's author is that of the last message, no action, that carries it |
| Actions.DeletedMeaning | common/src/board_state/message.rs:308-318 | deleted after n messages means that a public or decrypted deletion by its author is among them, whatever the permissions |
| Actions.EditedMeaning | common/src/board_state/message.rs:289-307 | the edited text is that of the last public or decrypted edit by the author of an undeleted message that is no category |
| Actions.CategoryEditedMeaning | common/src/board_state/message.rs:355-376 | the edited category is the last public or decrypted edit of it by the owner, an admin or its author, unless deleted |
| Actions.ReactionsMeaning | common/src/board_state/message.rs:319-354 | a member is a reactor exactly when a reaction made before deletion has no later removal by that member; reactors come in the order in which their reactions have stood |
| Actions.PrivateEditHere | common/src/board_state/message.rs:264-277 | a private edit takes effect through the decrypted content |
| Cli.AuthoriseBan | cli/src/api.rs:1882-1934 | the pre-check ends on any table and lets through exactly bans of someone other than oneself and the owner, by the owner or by someone from whom a line of invitations leads down to a listed target |
| Cli.AuthorisedBanAccepted | cli/src/api.rs:1882-1946 | a ban of a listed member that passes the pre-check is accepted by a board whose bans verify |
| Cli.BuildRejoinDelta | cli/src/api.rs:843-915 | nothing for the owner, a listed member or one without a stored identity; else the record first, then exactly those of the chain not listed, and an info record of six characters under the version known, or 0 |
| Cli.RejoinWorks | cli/src/api.rs:843-915 | the rejoin delta with one good message is accepted if and only if the board allows the nickname it sends; then member, chain and message are on the board after cleanup |
| Cli.RejoinRefusedHere | cli/src/api.rs:843-915 | a board that allows five characters refuses an otherwise good rejoin |
| InviteTree.InviteTreeOrder | ui/src/components/members.rs:130-163 | the explicit-stack loops give the recursive preorder, then everyone not visited, on any list |
| InviteTree.TreeOrderMeaning | ui/src/components/members.rs:130-163 | for distinct identifiers the order lists owner and members once each, first those who reach the owner, each subtree in one stretch, then the rest in list order |
| InviteTree.InviterComesFirst | ui/src/components/members.rs:130-163 | every member who reaches the owner comes after the inviter |
| InviteTree.SiblingsInListOrder | ui/src/components/members.rs:130-163 | of two members with one inviter who reach the owner the one listed first comes first |
| ReplyTree.ReplyTreeExists | ui/src/components/conversation.rs:181-206 | from the top level the tree always exists, from a message if and only if it is not below itself; it groups direct replies by time and holds exactly the messages below the parent, each once where the log repeats no identifier |
| ReplyTree.SelfReplyHasNoTree | ui/src/components/conversation.rs:181-206 | a message that replies to itself has no tree, while the top level has one |
| ReplyTree.TreeHoldsAll | ui/src/components/conversation.rs:181-206 | the flattened tree holds exactly the messages below the parent, each once where the log repeats no identifier |
| ReplyTree.DirectRepliesMeaning | ui/src/components/conversation.rs:186-195 | one level holds exactly the direct replies, by time |
| Rotation.BoardData.RotateSecret | ui/src/board_data.rs:364-468 | for whom and when a rotation delta is made, and what is remembered locally |
| Rotation.BoardData.GenerateMissingMemberSecrets | ui/src/board_data.rs:472-562 | a delta exactly when someone lacks the local version, with one copy for each, signed by whoever makes it |
| Rotation.RotationReads | ui/src/board_data.rs:364-468 | a rotation sends the next version, 0 after 4294967295, made current and signed by the owner, and one copy for exactly the listed members who are not banned |
| Rotation.MissingReads | ui/src/board_data.rs:472-562 | the missing copies are for exactly the listed members without one of that version |
| Rotation.RotationCompletes | ui/src/board_data.rs:364-468 | whatever the board's secrets, the rotation delta is accepted if and only if the version does not wrap and the board has no trace of it; it grows by one, and distribution is complete if and only if every listed banned member already held a copy |
| Rotation.RotationRefusedAtLast | ui/src/board_data.rs:364-468 | at version 2^32 - 1 a board whose secrets verify refuses the rotation |
| Rotation.RotationRefusedOnTrace | ui/src/board_data.rs:364-468 | a board that recorded version 1 without making it current refuses the first rotation |
| Rotation.RotationOnBoard | ui/src/board_data.rs:364-468 | on a board of a run, whatever its secrets, through the whole step: accepted on the same condition, and every member left holds a copy of the new version |
| Rotation.MissingSecretsComplete | ui/src/board_data.rs:472-562 | when local and board version agree, the delta is accepted if and only if nobody needs serving, or the owner signs and the version is recorded; it keeps the version and completes the distribution |
| Rotation.MissingSecretsOnBoard | ui/src/board_data.rs:472-562 | the same on a board of a run, through the whole step |
| Rotation.NobodyUnserved | common/src/board_state/secret.rs:330-348 | nobody is left to serve exactly when the distribution is complete |
| Delegate.DelegateCtx.HandleStore | freetalk-delegate/src/handlers.rs:153-198 | stores the value and lists the key, as the origin's own map does, the reserved key apart; the store keeps holding the promised maps |
| Delegate.DelegateCtx.HandleGet | freetalk-delegate/src/handlers.rs:201-220 | answers from the origin's own map, the reserved key apart |
| Delegate.DelegateCtx.HandleDelete | freetalk-delegate/src/handlers.rs:223-252 | removes the key and its value, as the origin's own map does, the reserved key apart; the store keeps holding the promised maps |
| Delegate.DelegateCtx.HandleList | freetalk-delegate/src/handlers.rs:255-274 | answers with the keys of the origin's own map in order |
| Delegate.DelegateCtx.HandleStoreSigningKey | freetalk-delegate/src/handlers.rs:311-339 | sets the signing key of that origin and board only; the store keeps holding the promised maps |
| Delegate.DelegateCtx.HandleGetPublicKey | freetalk-delegate/src/handlers.rs:342-372 | answers with the key last set for that origin and board |
| Delegate.DelegateCtx.HandleSign | freetalk-delegate/src/handlers.rs:375-416 | signs with the key last set for that origin and board, if any |
| Delegate.DelegateCtx.HandleApplicationMessage | freetalk-delegate/src/handlers.rs:7-146 | each request, through its handler, is answered from the promised maps and keeps the store holding them |
| Delegate.KeysApart | freetalk-delegate/src/utils.rs:4-23 | store keys of different origins or keys differ; one meets an index only by the reserved suffix |
| Delegate.SigningKeysApart | freetalk-delegate/src/handlers.rs:304-308 | signing keys are apart from all other keys and from each other |
| Delegate.RunRefines | freetalk-delegate/src/handlers.rs:7-146 | over every run of requests not naming the reserved key each origin behaves as its own map, and signing keys are undisturbed |
| Delegate.RunMeaning | freetalk-delegate/src/handlers.rs:153-274 | Get returns the last undeleted store; List the live keys, once each, in the order they became live |
| Delegate.AnswersMeaning | freetalk-delegate/src/handlers.rs:7-146 | after every run of requests not naming the reserved key the answer to each further one, signing included, is the one its history calls for |
| Delegate.KeysSpelled | freetalk-delegate/src/utils.rs:4-23 | how origin, index and signing keys are spelled |
| Delegate.ReservedKeyExactly | freetalk-delegate/src/handlers.rs:153-252 | whatever the request, a store that holds the promised maps still does afterwards if and only if the request is harmless: a store under the reserved key must spell the origin's list, up to that key, and a delete of it must find nothing else there; only a Get of it can be answered wrongly |
| Delegate.ReservedValueExactly | freetalk-delegate/src/handlers.rs:153-199 | a value stored under the reserved key can be got back, and the list is right, if and only if it spells the list with that key in it |
| Delegate.ReservedValueLost | freetalk-delegate/src/handlers.rs:153-221 | an ordinary value stored there by a fresh origin is harmless and gone: Get hands back the index |
| Delegate.ReservedDeleteNeverRight | freetalk-delegate/src/handlers.rs:223-252 | after a delete of the reserved key the list is empty and a Get of that key is wrong, whatever the store held |
| Delegate.ReservedGetExactly | freetalk-delegate/src/handlers.rs:201-221 | after any run at all a Get of the reserved key is right if and only if no index stands there |
| Delegate.RunHoldsExactly | freetalk-delegate/src/handlers.rs:7-252 | over all runs the store holds the promised maps after every request if and only if every request is harmless |
| Delegate.HarmlessRunAnswers | freetalk-delegate/src/handlers.rs:7-252 | in such a run each answer is the promised one if and only if it does not hand back the index |
| Armour.ToArmouredString | common/src/board_state/identity.rs:39-53 | the chunk loop builds the armoured text |
| Armour.ArmourRoundTrip | common/src/board_state/identity.rs:39-66 | stripping undoes the armour, whose text is that of its layout |
| Armour.ArmourLines | common/src/board_state/identity.rs:39-53 | between the two markers stand lines of 64 characters, of which only the last may be shorter |
| Armour.AnyLayoutParses | common/src/board_state/identity.rs:56-66 | whatever the markers, blank lines, indentation, line ends and wrapping, stripping yields the payload |
| Armour.ValidateInviteChain | common/src/board_state/identity.rs:90-120 | accepts exactly the exports in which the member and each record of the chain carry the signature of their inviter, if that is the owner or in the chain; and which error otherwise |
| Armour.FromArmouredString | common/src/board_state/identity.rs:56-85 | import with its errors: an empty payload, one that does not decode, a key that is not the member's, in this order |
| Armour.ExportRoundTrip | common/src/board_state/identity.rs:39-85 | an export comes back from its text, in any layout, if and only if its key is the member's and its checkable signatures are good |
| Armour.ImportedCanRejoin | common/src/board_state/identity.rs:90-120 | for a chain that leads to the owner, the import check is exactly the signed chain that rejoining needs |

## Left out

- Convergence with member-issued bans, evicted bans, changing configurations or private boards: the code does not
  promise it. The merge laws are about public boards under one configuration whose bans are owner-signed and fit
  together, and whose identifiers are unambiguous.
- The configuration, admin and upgrade parts of the board: only the limits, the admin ids and the privacy mode that
  other parts read are modelled, as parameters.
- Bans.BansV1.ApplyDelta: a fresh list stands for the cloned vector on which the code works; aliasing with the old
  vector is not modelled.
- BoardState.ChatBoardStateV1.ApplyDelta: after a rejected delta the board's contents are not specified, because the
  contract discards it; the parts that are atomic on rejection say so.
- BoardState.ChatBoardStateV1.UpdateState: the parent state handed along is the board itself, not a clone; messages
  that do not decode are not modelled.
- ReplyTree.ReplyTreeExists: `build_reply_tree` is modelled with the depth reached below its starting point as a ghost
  parameter, which exists exactly where the recursion ends.
- Cli.RejoinWorks: signing, storage and the network around the two client functions are left out; the target of
  `Cli.AuthorisedBanAccepted` is listed, as the record under which the command finds it requires.
- Delegate.ReservedGetExactly: an index the delegate wrote counts as different from a client's value even where their
  bytes coincide, because the encoding of an index is not modelled.
- Delegate.RunRefines: failing host writes and keys that are not UTF-8 are left out.
- Ed25519, hashing, encryption, CBOR and base58 themselves, the web and terminal interfaces, and all network code.
