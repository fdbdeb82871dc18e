# Verified models of the image pipeline's core algorithms

This project models the algorithms of the repository's CI scripts whose correctness does not
show from reading one function: stream redaction, verdicts, canonical forms, protocols and
append-only records. Each module follows one script. Loops and objects are methods and classes
proved against specification functions; the lemmas beside them say what those functions mean
over every input, every fragmentation, every interleaving or every run.

`dafny verify dfyconfig.toml` checks the whole project.

## What is modelled

- **Redaction pipeline.** `Bytes` defines leftmost non-overlapping replacement and what cutting
  its input does. `RedactVmLogs` is the chunked redactor, `UnlockVm` the serial relay with its
  newline and forced cuts, `GuestTimings` the bounded line splitter and the budgeted capture of
  compressed members. Redactor, splitter and capture equal batch functions of the whole input,
  however it is read; the relay hides its key always, and equals batch redaction for the keys
  characterised below.
- **Verdict engine.** `PolicyRules`, `SecurityPolicy` and `VerdictProperties` model the policy
  validators and `evaluate` in its four modes. What the validators accept makes the ambiguity
  error unreachable, the self-check fails for one characterised kind of policy only, and the
  verdict is monotone in the evidence. `PolicyMeaning` and `VerdictMeaning` say in terms of the
  fields alone which policies are accepted, which matches block in which mode, and what every
  observation says.
- **Printer and parser.** `Text` models `splitlines` and `split` with a limit; `CheckVmDesktop`
  parses `ps` and `ss` output and `DesktopQualification` prints it back and parses it again.
- **Canonical form.** `Sorting`, `JsonText` and `CanonicalForm` prove that the sort-normalised
  JSON text is a complete invariant of a value up to the order of its lists.
- **Database overlap.** `DatabaseOverlap` interleaves the worker, the main thread, the updater
  and signals, one source line or lock operation a step, a signal between any two;
  `OverlapHistory` relates the states to the events before.
- **Runs.** `TransferProgress` (download watchdog and its driver), `GithubMetadata` (complete
  paged listings), `IsoRetention` (collecting, planning and pruning), `DecisionLedger`
  (revocations and decisions), `DocumentCache` (immutable documents) and `ReviewApproval`
  (bounded collections and the review fold); `ApprovalMeaning` says in terms of the listed
  records and the team which review is returned.
- **Binary decoding.** `ApplicabilityEvidence` decodes unsigned LEB128 lengths (section 7.6 of
  DWARF 5) and maps an ELF section to its load segment (System V gABI, chapter 5).

## Where the code falls short of the plain statement

Each of these is stated as it is, with a witness and the exact condition.

- The relay's output equals batch redaction on all legal reads if and only if no proper prefix
  of the key is also its suffix (`UnlockVm.BatchExactlyWhenBorderFree`). The key itself is
  hidden in every case.
- A policy that names the reviewed blocking basis in `fixable-severity` mode is accepted,
  since only the risk modes restrict the basis. Its evaluation fails its own self-check as soon
  as a match is blocked (`VerdictProperties.IdleBasisFailsSelfCheck`). Exactly: such a policy,
  and no other, fails the check on a scan if some match is blocked
  (`VerdictProperties.SelfCheckFailsExactly`), and on some scan at all if it can block anything
  (`VerdictProperties.SelfCheckCanFailExactly`). If one of its risks names the image's digest,
  it fails earlier, reading the profile of a baseline there is none of (`NoBaseline`).
- A signal between installing a signal handler and recording it (lines 107-108 of
  `security-scan.py`) leaves the handler installed after a normal `close`
  (`DatabaseOverlap.InterruptedConstructionLeavesHandler`); after a normal `close` all handlers
  are restored if and only if no signal arrived there
  (`DatabaseOverlap.HandlersRestoredExactly`).
- A signal between starting the database updater and storing it (lines 110-111) leaves the
  updater running after a normal `close`, which does not know it
  (`DatabaseOverlap.InterruptedConstructionLeavesUpdater`). After a normal `close` the updater
  never was or its group is stopped, if and only if no signal arrived there and no earlier
  `close` failed to stop the group for good (`DatabaseOverlap.CloseStopsUpdater`).
- A command that has ended leaves its child's group unstopped if and only if stopping failed,
  or the first signal arrived between starting the child and entering `try` (lines 159-161), or
  between entering `finally` and marking the cleanup (lines 174-175)
  (`DatabaseOverlap.CommandStopsChild`). A command that returns normally has stopped it.
- A document seeded from a local file can be read where an uncached read fails, and this is
  the only difference the cache makes (`DocumentCache.Reconcile`).
- Whether an approval succeeds, and with which review, does not depend on the order of the
  reviews; which error a failure gives does, exactly when the effective reviews hold both an
  unauthenticated author and an eligible request for changes
  (`ReviewApproval.OrderShowsInTheError`, `ReviewApproval.OutcomeForgetsOrderExactly`).
- A merged revocation is the unique leaf exactly when no earlier record names its hash
  (`DecisionLedger.RevocationIsLeafExactly`); content hashes exclude that
  (`DecisionLedger.RevocationIsLeaf`). Any new record is the unique leaf of a profile it covers
  exactly when it supersedes all current leaves and nothing names it
  (`DecisionLedger.RecordIsLeafExactly`); two decisions prepared from one ledger and both merged
  are the case that fails (`DecisionLedger.StaleDecisionsConflict`).
- The refusal of ambiguous deletions in `plan_iso_retention` (line 356) cannot happen when an
  identity denotes one artifact (`IsoRetention.NeverAmbiguous`).
- The last `raise` of `inline_string`, for an unterminated length, cannot be reached
  (`ApplicabilityEvidence.NeverUnterminated`).

## Assumptions

- Hashes are parameters. Where a result needs it, the lemma says that the hash does not confuse
  the inputs concerned; no hash is assumed injective on all inputs.
- Compression has an inverse (`Lossless`): decompressing complete members concatenates what
  was compressed (section 2.2 of RFC 1952), and the start of a member gives at most a start of
  its content.
- An identity denotes one artifact in all listings (`OneArtifact`), which listings of
  artifacts as they were uploaded imply.
- `rank` in `DecisionLedger` is any order in which no record comes before one it names, as
  records that name the hashes of others have.
- The prompt detector, the Unicode word table, Base64 and JSON decoding are parameters.

## Model

| member | source | states |
|---|---|---|
| Bytes.Find | scripts/bluebuild/redact-vm-logs.py:21 | the first occurrence at or after a position, and none means there is none |
| Bytes.RFind | scripts/bluebuild/unlock-vm.py:53 | the last occurrence that ends by a bound |
| Bytes.ReplaceFirst | scripts/bluebuild/redact-vm-logs.py:30 | batch replacement is leftmost and resumes after the match |
| Bytes.ReplaceCut | scripts/bluebuild/unlock-vm.py:47-58 | replacing distributes over a cut that no occurrence straddles |
| Bytes.ReplaceRemoves | scripts/bluebuild/redact-vm-logs.py:30 | a marker sharing no byte with the secret leaves no occurrence of it, not even across replacements |
| Bytes.CopiedPrefix | scripts/bluebuild/unlock-vm.py:34 | a marker-free prefix of the output is a prefix of the input |
| Bytes.CopiedSuffix | scripts/bluebuild/unlock-vm.py:34 | a marker-free suffix of the output is a suffix of the input |
| RedactVmLogs.RedactRead | scripts/bluebuild/redact-vm-logs.py:15-29 | after one read fewer bytes than the secret are retained, and the yields followed by redacting the rest with any future input are the redaction of everything |
| RedactVmLogs.RedactedChunks | scripts/bluebuild/redact-vm-logs.py:9-30 | for every split into nonempty reads the yields concatenate to batch replacement; the last yield is shorter than the secret; an error exactly for an empty secret |
| RedactVmLogs.RedactedPrefixHidesSecret | scripts/bluebuild/redact-vm-logs.py:9-30 | no prefix of the redacted stream contains a secret that shares no byte with the marker |
| UnlockVm.RetainedIsBounded | scripts/bluebuild/unlock-vm.py:47-58 | after every iteration the buffer is newline-free and at most 16384 bytes |
| UnlockVm.ForcedCut | scripts/bluebuild/unlock-vm.py:50-55 | a forced cut keeps fewer than 128 bytes, so it always makes progress |
| UnlockVm.CutIsSafe | scripts/bluebuild/unlock-vm.py:47-55 | a cut lies inside no occurrence of the key in buffer and future input, or else at the start of one |
| UnlockVm.BoundaryExactly | scripts/bluebuild/unlock-vm.py:49-55 | the buffer is cut after its last newline; without one nowhere up to 16384 bytes, and else a key's length before its end, or at the last key across that place if none starts there |
| UnlockVm.EmitsMarkerFirst | scripts/bluebuild/unlock-vm.py:33-59 | what starts with the key is emitted starting with the marker, whatever follows |
| UnlockVm.EmittedPrefix | scripts/bluebuild/unlock-vm.py:33-59 | marker-free emitted bytes are copied from the input, across all cuts |
| UnlockVm.NoKeyAcrossCut | scripts/bluebuild/unlock-vm.py:47-58 | no key straddles what one iteration emits and everything emitted later |
| UnlockVm.EmittedHidesKey | scripts/bluebuild/unlock-vm.py:33-59 | the concatenated output never contains the key, for any fragmentation and any overlap |
| UnlockVm.EmittedIsBatch | scripts/bluebuild/unlock-vm.py:33-59 | for a key without border the output is the batch redaction of the input |
| UnlockVm.BorderBreaksBatch | scripts/bluebuild/unlock-vm.py:50-55 | for every key with a border, legal reads on which the output differs from batch redaction |
| UnlockVm.BatchExactlyWhenBorderFree | scripts/bluebuild/unlock-vm.py:33-59 | output and batch redaction agree on all legal reads if and only if the key has no border |
| UnlockVm.WatchStep | scripts/bluebuild/unlock-vm.py:42-46 | the sliding window is the last 8192 bytes of all input, and the prompt is remembered |
| UnlockVm.Relay | scripts/bluebuild/unlock-vm.py:27-61 | the loop emits exactly the specified output, without the key; the key and a carriage return are sent once if some window showed the prompt, and otherwise nothing is sent and it is an error |
| GuestTimings.SplitAppend | scripts/bluebuild/guest-timings.py:57-65 | splitting more input extends the last part and appends the rest |
| GuestTimings.SplitRejoined | scripts/bluebuild/guest-timings.py:57 | the parts hold no newline, and joined by newlines they are the input |
| GuestTimings.AddChunk | scripts/bluebuild/guest-timings.py:57-65 | one chunk takes the line state of the input so far to that of the input with the chunk; overflow holds exactly while the partial line is over the limit |
| GuestTimings.CompressedCapture.constructor | scripts/bluebuild/guest-timings.py:25-28 | a new capture is empty and valid |
| GuestTimings.CompressedCapture.Write | scripts/bluebuild/guest-timings.py:30-40 | sticky error, budget kept, one member appended or the exact error recorded; complete members decode to a prefix of the input, all of it without an error |
| GuestTimings.Codec.DecodeAppend | scripts/bluebuild/guest-timings.py:34-38 | one more member adds its chunk to what can be read back |
| GuestTimings.BoundedLines | scripts/bluebuild/guest-timings.py:43-68 | the lines are those of the batch-redacted stream, each oversized one a single placeholder and an unterminated last line kept, and the capture's input is that stream, for every chunking |
| GuestTimings.CaptureHidesSecret | scripts/bluebuild/guest-timings.py:23-56 | what can be read back from a capture of the redacted stream, or of any start of it, lacks the secret: complete members, a torn but complete last one, or what is recovered from the start of one |
| GuestTimings.LinesHideSecret | scripts/bluebuild/guest-timings.py:43-68 | no console line contains the secret |
| PolicyRules.CheckSerious | scripts/bluebuild/security-policy.py:64-94 | accepts exactly well-formed groups, not reviewed in the future, with distinct ids and no shared advisory, and indexes them by advisory |
| PolicyRules.CheckDispositions | scripts/bluebuild/security-policy.py:64-112 | accepts exactly bounded, scoped, expiring dispositions whose ids differ from each other and from those of the serious rules |
| PolicyRules.ClaimScopes | scripts/bluebuild/security-policy.py:115-119 | claims each advisory of a disposition once, and refuses a claimed scope or a routine waiver of a serious advisory |
| PolicyRules.CheckScopes | scripts/bluebuild/security-policy.py:113-119 | accepts exactly if no two dispositions share a scope and none waives a serious advisory as routine |
| PolicyRules.ReviewedRules | scripts/bluebuild/security-policy.py:54-120 | accepts exactly the rule lists described without the loops |
| SecurityPolicy.CheckBlockers | scripts/bluebuild/security-policy.py:123-165 | accepts exactly bounded lists of well-formed blockers with distinct ids, and critical ones with advisories |
| SecurityPolicy.CheckRisks | scripts/bluebuild/security-policy.py:169-205 | accepts exactly bounded lists of well-formed risks with distinct ids and canonical distinct locations |
| SecurityPolicy.ValidatePolicy | scripts/bluebuild/security-policy.py:233-276 | accepts exactly the policies that meet the conditions of their mode, and in fixable-severity mode any blocking basis |
| SecurityPolicy.CollectLocations | scripts/bluebuild/security-policy.py:284-308 | the sorted set of canonical shipped paths, complete exactly if every record gives only such paths |
| SecurityPolicy.EvaluateScan | scripts/bluebuild/security-policy.py:534-712 | the loop files every finding where the specification puts it, or stops at its first error |
| VerdictProperties.AtMostOneDisposition | scripts/bluebuild/security-policy.py:113-119 | accepted rules leave at most one qualifying disposition for any match, image and time |
| VerdictProperties.SeriousIsNeverRoutine | scripts/bluebuild/security-policy.py:117-118 | a disposition that qualifies for a finding with a serious alias is not routine |
| VerdictProperties.NoMatchIsAmbiguous | scripts/bluebuild/security-policy.py:648-655 | under an accepted policy no match raises the ambiguity error |
| VerdictProperties.BlockedFindingIsBound | scripts/bluebuild/security-policy.py:673-679 | a finding blocked under a named basis passes the independent binding check exactly in desktop mode |
| VerdictProperties.BlockedFindingsAreBound | scripts/bluebuild/security-policy.py:209-230 | all of them pass, with the identical recomputed list of holds, exactly in desktop mode or when nothing is blocked |
| VerdictProperties.EngineErrorsUnreachable | scripts/bluebuild/security-policy.py:709-710 | `evaluate` never fails with the ambiguity error, nor with its own self-check unless the basis is named in fixable-severity mode |
| VerdictProperties.SelfCheckFailsExactly | scripts/bluebuild/security-policy.py:709-710 | the self-check fails on a scan exactly if everything before it succeeds, the basis is named in fixable-severity mode and some match is blocked |
| VerdictProperties.SelfCheckCanFailExactly | scripts/bluebuild/security-policy.py:259-261 | a policy that passes all earlier checks fails the self-check on some scan exactly if its basis is named in that mode and it blocks known exploits or some severity |
| VerdictProperties.IdleBasisFailsSelfCheck | scripts/bluebuild/security-policy.py:236-276 | an accepted policy and a scan on which it fails |
| VerdictProperties.ObservationsPartition | scripts/bluebuild/security-policy.py:581-704 | one observation for each match and ignored match; outside maintainer mode the three lists partition them |
| VerdictProperties.StatusMeans | scripts/bluebuild/security-policy.py:697 | the status is blocked exactly if something holds the release or some match is blocked |
| VerdictProperties.EvaluateOk | scripts/bluebuild/security-policy.py:534-712 | evaluation succeeds exactly if the checks before the loop do, every match classifies and the self-check does not fail as above |
| VerdictProperties.StatusForgetsOrder | scripts/bluebuild/security-policy.py:581-704 | success and status depend only on the multiset of matches and ignored matches together |
| VerdictProperties.IgnoringChangesNothing | scripts/bluebuild/security-policy.py:586-587 | moving matches to the ignored ones changes neither success nor status |
| VerdictProperties.ReviewedBasisIgnoresScan | scripts/bluebuild/security-policy.py:543-548 | under a reviewed basis the reviewed holds alone decide the status |
| VerdictProperties.VerdictIsMonotone | scripts/bluebuild/security-policy.py:581-704 | more matches, aliases, serious rules, holds or exploitation flags, or fewer dispositions or exceptions, never turn blocked into pass |
| VerdictMeaning.StatusExactly | scripts/bluebuild/security-policy.py:581-704 | the status in raw fields: which matches block in each mode (exploitation flags of the match or anything related, fixes and severities, exceptions, serious aliases, dispositions, critical ratings, confirmed risks), and which reviewed concerns hold the release |
| VerdictMeaning.EvaluatesExactly | scripts/bluebuild/security-policy.py:534-712 | evaluation succeeds exactly for a prepared policy and readable matches, unless the named basis meets a match that blocks in fixable-severity mode |
| VerdictMeaning.ObservationsExactly | scripts/bluebuild/security-policy.py:590-704 | one observation a match, in order, with its component, names, shipped paths and flags, related entries included, filed as blocked, excepted or advisory exactly when its match is, with the first reason that applies |
| VerdictMeaning.OutcomeExactly | scripts/bluebuild/security-policy.py:603-672 | a match blocks, or only an exception lets it through, exactly under the raw conditions of its mode |
| VerdictMeaning.ClassifiesExactly | scripts/bluebuild/security-policy.py:588-606 | a match is classified exactly if it is well typed, names a finding and a component, and lists no fixed versions without a state |
| VerdictMeaning.ObservationReports | scripts/bluebuild/security-policy.py:603-640 | the flags, names and paths of an observation are exactly those of its match and of what is related to it |
| VerdictMeaning.LocationsMean | scripts/bluebuild/security-policy.py:284-308 | the locations are exactly the canonical shipped paths some record gives |
| PolicyMeaning.AcceptedRulesExactly | scripts/bluebuild/security-policy.py:54-120 | the rule lists `reviewed_rules` accepts, in raw fields: bounds, times, distinct ids, unshared advisories, disjoint scopes, no routine waiver of a serious advisory |
| PolicyMeaning.AcceptedBlockersExactly | scripts/bluebuild/security-policy.py:123-165 | at most 128 blockers with distinct ids, each well formed, of distinct profiles and not reviewed in the future; in desktop mode with at most 64 distinct advisories, and some for a critical one |
| PolicyMeaning.AcceptedRisksExactly | scripts/bluebuild/security-policy.py:169-205 | at most 128 risks with distinct nonempty ids, each well formed, not reviewed in the future, with 1 to 64 distinct advisories and 1 to 64 distinct canonical locations |
| PolicyMeaning.AcceptedPolicyExactly | scripts/bluebuild/security-policy.py:233-276 | what each mode demands of a policy, and nothing else |
| PolicyMeaning.PreparedExactly | scripts/bluebuild/security-policy.py:537-581 | the checks before the loop succeed exactly for an accepted policy, a healthy scan, exceptions of bounded life, and confirmed risks that are accepted and, in fixable-severity mode, of other images |
| PolicyMeaning.BindsExactly | scripts/bluebuild/security-policy.py:209-230 | a blocked finding passes the independent check exactly if it is a complete confirmed one with proper selectors that names, in order, the reviewed risks of its component that share an advisory and a path with it |
| PolicyMeaning.CanonicalExactly | scripts/bluebuild/security-policy.py:279-281 | a location is canonical exactly if it is absolute, not the root, does not end in a blank, and has no part that is empty, one dot or two dots after the slash or two slashes at its start |
| PolicyMeaning.NonemptyExactly | scripts/bluebuild/security-policy.py:50-51 | a text is accepted exactly if it is not empty and neither starts nor ends with a blank |
| Text.FieldsShape | scripts/bluebuild/check-vm-desktop.py:47 | a limited split gives that many words and a rest, none starting with a blank |
| Text.SplitJoined | scripts/bluebuild/check-vm-desktop.py:46 | `splitlines` undoes joining lines |
| Text.SplitLinesExactly | scripts/bluebuild/check-vm-desktop.py:46 | any line break ends a line, and a carriage return takes a newline after it along |
| Text.TablesExactly | scripts/bluebuild/check-vm-desktop.py:46 | which characters break lines, and which are blank |
| Text.ParseShown | scripts/bluebuild/check-vm-desktop.py:51 | reading a printed number gives it back |
| StringSets.SortedSetTwice | scripts/bluebuild/check-vm-desktop.py:41 | sorting a set of texts again changes nothing |
| StringSets.SortedSetMembers | scripts/bluebuild/check-vm-desktop.py:41 | the sorted list has exactly the members of the set |
| CheckVmDesktop.CollectRows | scripts/bluebuild/check-vm-desktop.py:44-69 | the process loop gives the specified rows, or the first offending line |
| CheckVmDesktop.CollectSockets | scripts/bluebuild/check-vm-desktop.py:74-80 | the listener loop gives the specified sockets, or its first error |
| CheckVmDesktop.AcceptedIsConfined | scripts/bluebuild/check-vm-desktop.py:36-98 | an accepted observation shows a live sshd in its own enforcing domain, a live init, labels on every process but exited single-thread zombies, at most 8192 processes and 4096 listeners, and with threads no repeated pid |
| CheckVmDesktop.PermissiveTypesExactly | scripts/bluebuild/check-vm-desktop.py:41 | a name is found exactly if it stands in the text between non-word characters or the ends and is an ASCII word of at least three characters that ends in `_t` |
| CheckVmDesktop.AcceptedListsNoSshd | scripts/bluebuild/check-vm-desktop.py:41-43 | the permissive text of an accepted observation has no such occurrence of `sshd_t` |
| CheckVmDesktop.LabelledExactly | scripts/bluebuild/check-vm-desktop.py:52 | a context is a label exactly if it is user, role, type and level between colons, of the allowed characters |
| CheckVmDesktop.DomainExactly | scripts/bluebuild/check-vm-desktop.py:70-73 | a context is in the domain of sshd exactly if its third part is `sshd_t` |
| CheckVmDesktop.StateRowExactly | scripts/bluebuild/check-vm-desktop.py:46-69 | a line with thread counts gives a row exactly if its five fields meet these bounds, and the row holds those fields |
| CheckVmDesktop.LegacyRowExactly | scripts/bluebuild/check-vm-desktop.py:46-69 | a line of the older format gives a row exactly if its three fields are a label, digits and a command |
| CheckVmDesktop.SocketExactly | scripts/bluebuild/check-vm-desktop.py:74-80 | a listener line parses exactly if it has six columns of these protocols and states, with the owners after them if there are any |
| CheckVmDesktop.ObservesExactly | scripts/bluebuild/check-vm-desktop.py:36-98 | a guest is accepted exactly under these conditions on its texts and parsed tables, `sshd_t` standing nowhere in the permissive text, and the observation is what they say |
| CheckVmDesktop.LiveRowsAreLabelled | scripts/bluebuild/check-vm-desktop.py:70-73 | indexing the domain of a live row never fails |
| DesktopQualification.RowRoundTrip | scripts/bluebuild/desktop-qualification.py:33 | a parsed row, printed and parsed, is itself: blanks inside and after commands, and zombies |
| DesktopQualification.RowsRoundTrip | scripts/bluebuild/desktop-qualification.py:33 | so is the whole table, with its check for repeated pids |
| DesktopQualification.SocketRoundTrip | scripts/bluebuild/desktop-qualification.py:34 | a parsed listener is itself again, and a missing owner stays `unknown` |
| DesktopQualification.SocketsRoundTrip | scripts/bluebuild/desktop-qualification.py:34 | so is the listener table |
| DesktopQualification.TypesRoundTrip | scripts/bluebuild/desktop-qualification.py:36 | the sorted permissive types, joined by newlines, are found again |
| DesktopQualification.ObservationsRoundTrip | scripts/bluebuild/desktop-qualification.py:33-37 | for every value the guest check returns, in either format, printing and observing again gives the same value |
| DesktopQualification.ValidatesExactlyTheProducible | scripts/bluebuild/desktop-qualification.py:26-39 | validation accepts a value exactly if the guest check can produce it, for its own profile |
| Sorting.SortPermutes | scripts/ci/benchmark-security-reuse.py:263 | sorting keeps the elements, counted |
| Sorting.SortSorts | scripts/ci/benchmark-security-reuse.py:263 | sorting orders by key |
| Sorting.SortKeepsSorted | scripts/ci/benchmark-security-reuse.py:263 | sorting leaves an ordered list as it is |
| Sorting.SortForgetsOrder | scripts/ci/benchmark-security-reuse.py:263 | with telling keys the result depends on the multiset only |
| Sorting.RearrangementExists | scripts/ci/benchmark-security-reuse.py:259 | lists with equal multisets are rearrangements of each other |
| JsonText.EscapedPrefix | scripts/ci/benchmark-security-reuse.py:263 | escaped strings with their closing quote form a prefix code |
| JsonText.JoinedPrefix | scripts/ci/benchmark-security-reuse.py:263 | joined element texts determine the elements |
| JsonText.PrintApart | scripts/ci/benchmark-security-reuse.py:263 | no printed value is a proper prefix of another before a delimiter |
| JsonText.StringReadsBack | scripts/ci/benchmark-security-reuse.py:263 | a printed string, followed by anything, is read back by the grammar of section 7 of RFC 8259 |
| JsonText.FormExactly | scripts/ci/benchmark-security-reuse.py:263 | the texts of the constants, and the characters that open and close strings, lists and objects |
| CanonicalForm.DumpsIsFaithful | scripts/ci/benchmark-security-reuse.py:263 | key-sorted texts agree exactly for values equal up to member order |
| CanonicalForm.EqualTextsSame | scripts/ci/benchmark-security-reuse.py:258-264 | equal texts come from equal values, up to the orders that are sorted away |
| CanonicalForm.SameEqualTexts | scripts/ci/benchmark-security-reuse.py:258-264 | and conversely |
| CanonicalForm.CanonicalValid | scripts/ci/benchmark-security-reuse.py:258-264 | the canonical form of a JSON value is one |
| CanonicalForm.CanonicalText | scripts/ci/benchmark-security-reuse.py:258-264 | printing the canonical form is printing with every list's texts in order |
| CanonicalForm.CanonicalIsComplete | scripts/ci/benchmark-security-reuse.py:258-264 | canonical forms have equal texts exactly if the values agree up to reordering lists at every depth |
| CanonicalForm.CanonicalIdempotent | scripts/ci/benchmark-security-reuse.py:258-264 | the canonical form of a canonical form is itself |
| CanonicalForm.FiniteCanonical | scripts/ci/benchmark-security-reuse.py:271-272 | canonicalising neither adds nor removes nonfinite numbers |
| CanonicalForm.FiniteExactly | scripts/ci/benchmark-security-reuse.py:271-272 | a value is refused exactly for a NaN, Infinity or -Infinity somewhere inside it |
| CanonicalForm.PolicyEquivalence | scripts/ci/benchmark-security-reuse.py:267-272 | fails exactly on a nonfinite number outside the two dropped fields |
| CanonicalForm.PolicyEquivalenceIsExact | scripts/ci/benchmark-security-reuse.py:267-272 | equal digests exactly for results equal up to list order outside the two dropped fields, for a digest that does not confuse their two texts |
| DatabaseOverlap.StepKeepsInv | scripts/bluebuild/security-scan.py:82-213 | every step of every thread, and every signal, keeps the protocol's invariant |
| DatabaseOverlap.ReachableInv | scripts/bluebuild/security-scan.py:82-213 | so it holds after every run |
| DatabaseOverlap.StopNeverRestarts | scripts/bluebuild/security-scan.py:140-146 | terminating the updater's group never starts again once it has completed |
| DatabaseOverlap.OneStopAtATime | scripts/bluebuild/security-scan.py:143-146 | worker and main thread are never both terminating it |
| DatabaseOverlap.GrypeStartsAfterUpdate | scripts/bluebuild/security-scan.py:153-159 | a foreground `grype` starts only after the updater exited zero and its group was stopped |
| DatabaseOverlap.InterruptedCommandsRaise | scripts/bluebuild/security-scan.py:153-180 | a command during which a signal arrived never returns normally |
| DatabaseOverlap.FailedCommandSpawnsNothing | scripts/bluebuild/security-scan.py:148-159 | a command that starts after the update failed, or after a signal, starts no child |
| DatabaseOverlap.BrokenCommandRaises | scripts/bluebuild/security-scan.py:161-180 | a command never returns normally if one of its loop checks fell after a failed update or a signal, its loop was left by an exception, or stopping its child failed |
| DatabaseOverlap.CommandEndsExactly | scripts/bluebuild/security-scan.py:174-180 | at its last check a command goes on to return exactly if none of this happened and no signal has arrived |
| OverlapHistory.ReturnedConstructionIsWhole | scripts/bluebuild/security-scan.py:106-115 | the constructor returns only if the updater was started and stored, the worker submitted, and no signal has arrived |
| OverlapHistory.CallersHaveReturnedObjects | scripts/bluebuild/security-scan.py:106-115 | the caller has the object exactly after the constructor returned, and a failed constructor hands out none |
| OverlapHistory.GrypeFollowsUpdate | scripts/bluebuild/security-scan.py:129-159 | a foreground `grype` starts only after the updater itself exited with zero |
| OverlapHistory.CloseEndsExactly | scripts/bluebuild/security-scan.py:191-213 | a close that has restored its handlers raises exactly if stopping the updater or reporting failed |
| DatabaseOverlap.CloseJoinsAndRestores | scripts/bluebuild/security-scan.py:191-213 | after a normal `close` the worker is joined and every recorded handler restored |
| DatabaseOverlap.HandlersRestoredExactly | scripts/bluebuild/security-scan.py:106-115 | after a normal `close` no handler is left installed, if and only if no signal arrived between installing one and recording it |
| DatabaseOverlap.CloseStopsUpdater | scripts/bluebuild/security-scan.py:110-115 | after a normal `close` the updater never was or its group is stopped, if and only if no signal arrived between starting and storing it, and no earlier `close` failed to stop it for good |
| DatabaseOverlap.CommandStopsChild | scripts/bluebuild/security-scan.py:159-180 | a command that has ended leaves its child's group unstopped if and only if stopping failed or the first signal arrived right after the start or right before the cleanup |
| DatabaseOverlap.ReturnedCommandStoppedChild | scripts/bluebuild/security-scan.py:159-180 | a command that returns normally has stopped its child's group |
| DatabaseOverlap.InterruptedConstructionLeavesHandler | scripts/bluebuild/security-scan.py:106-115 | the run in which an unrecorded handler stays installed |
| DatabaseOverlap.InterruptedConstructionLeavesUpdater | scripts/bluebuild/security-scan.py:110-115 | the run in which `close` returns normally and the updater runs on |
| TransferProgress.ISOTransferProgress.constructor | scripts/bluebuild/release-evidence.py:123-128 | the watchdog starts with the start sample |
| TransferProgress.ISOTransferProgress.Observe | scripts/bluebuild/release-evidence.py:130-162 | the new state and verdict of each observation; an inconsistent byte count changes nothing |
| TransferProgress.WindowIsRecent | scripts/bluebuild/release-evidence.py:137-139 | after every observation the window starts at the newest sample at least 60 seconds old, or at the start |
| TransferProgress.SlowSinceIsStreak | scripts/bluebuild/release-evidence.py:154-159 | `slow_since` is the time of the first of the unbroken slow observations |
| TransferProgress.UnproductiveMeansSlowWindow | scripts/bluebuild/release-evidence.py:156-161 | for a waiting driver the verdict is `unproductive-rate` exactly if this observation and all since one at least 60 seconds earlier are slow |
| TransferProgress.UnproductiveIsLate | scripts/bluebuild/release-evidence.py:144-161 | that verdict takes 180 seconds, and every observation of the last 60 was slow |
| TransferProgress.OnScheduleIsNotSlow | scripts/bluebuild/release-evidence.py:154-155 | an average rate that meets the deadline is never slow |
| TransferProgress.OnScheduleKeepsRunning | scripts/bluebuild/release-evidence.py:130-162 | an observation on schedule is never judged unproductive |
| TransferProgress.Download | scripts/bluebuild/release-evidence.py:165-187 | the driver ends with the first round that does not go on: its deadline, the exit of the child, an inconsistent size or a verdict |
| TransferProgress.AcceptedAreObservations | scripts/bluebuild/release-evidence.py:132-136 | the sizes the watchdog accepts never shrink nor pass the expected one |
| TransferProgress.GivenUpJustly | scripts/bluebuild/release-evidence.py:165-187 | a transfer is given up as unproductive only after 180 seconds, and only if every observation of the last 60 was slow |
| TransferProgress.VerdictExactly | scripts/bluebuild/release-evidence.py:130-162 | the deadline verdict exactly from the timeout on; the no-progress verdict exactly for an incomplete transfer, between 120 seconds and the deadline, none of whose observations in the last 90 seconds grew |
| TransferProgress.SlowExactly | scripts/bluebuild/release-evidence.py:154-155 | an observation is slow exactly if, in that time and without stalling, twice the average rate overall and twice the one since a sample at least 60 seconds old both miss the deadline, whatever bytes arrived |
| TransferProgress.LastProgressExactly | scripts/bluebuild/release-evidence.py:140-143 | the last progress is the time of the last observation that grew, or the start |
| GithubMetadata.Pages | scripts/ci/github_api.py:152-185 | reading succeeds exactly for a whole listing, and gives all its items |
| GithubMetadata.WholeExactly | scripts/ci/github_api.py:152-185 | a listing is whole exactly if, within 20 pages, full pages of one declared total lead to a page that reaches it, all items having positive identities of their own |
| GithubMetadata.AddPage | scripts/ci/github_api.py:173-177 | a page is added exactly if its items have positive identities not seen before |
| IsoRetention.PlanProfile | scripts/bluebuild/reuse-qualification.py:351-354 | the deletions of one profile are exactly the candidates with two strictly newer ones |
| IsoRetention.CollectRun | scripts/bluebuild/reuse-qualification.py:322-349 | accepts exactly a run whose ISOs name it, are of no future attempt, authenticate and do not repeat a name, and finds the unexpired ones of its last attempt |
| IsoRetention.Collect | scripts/bluebuild/reuse-qualification.py:305-349 | succeeds exactly if all runs and artifacts can be read whole and every run is accepted, and finds the candidates of every profile |
| IsoRetention.PlanIsoRetention | scripts/bluebuild/reuse-qualification.py:281-357 | the deletions of all profiles, or a refusal of all of them: exactly for an unknown or repeated profile, a listing that cannot be read whole, a run that is not accepted, or an ambiguous identity |
| IsoRetention.PlanExactly | scripts/bluebuild/reuse-qualification.py:322-356 | an item of a listing is in the plan exactly if it is an unexpired ISO of a selected profile from its run's last attempt, and two other such items of the profile were created strictly later |
| IsoRetention.PlanNamesItems | scripts/bluebuild/reuse-qualification.py:345-353 | every planned deletion is an item of the listings, field by field |
| IsoRetention.AcceptedExactly | scripts/bluebuild/reuse-qualification.py:322-344 | accepted exactly if every run is valid and each ISO of it names it, is of no future attempt and, if selected, is bound and does not repeat a name; no name is malformed |
| IsoRetention.CandidatesDistinct | scripts/bluebuild/reuse-qualification.py:322-349 | no artifact is a candidate twice, within a run, across runs or attempts |
| IsoRetention.NeverAmbiguous | scripts/bluebuild/reuse-qualification.py:355-356 | the plan never names an artifact twice, across profiles either |
| IsoRetention.DeletedHasTwoNewer | scripts/bluebuild/reuse-qualification.py:353 | every deleted ISO has two distinct strictly newer ones that survive |
| IsoRetention.TwoSurvive | scripts/bluebuild/reuse-qualification.py:352-354 | at least two survive, or all when there are fewer |
| IsoRetention.PlanPartitions | scripts/bluebuild/reuse-qualification.py:352-354 | every candidate is either deleted or kept |
| IsoRetention.DeletionIsDownwardClosed | scripts/bluebuild/reuse-qualification.py:353 | what is as old as a deleted ISO, ties included, is deleted |
| IsoRetention.ReplanDeletesNothing | scripts/bluebuild/reuse-qualification.py:360-367 | planning again after applying deletes nothing |
| IsoRetention.PlannedIsSuperseded | scripts/bluebuild/reuse-qualification.py:281-357 | what any plan names, from whatever part of the uploads it read, has two strictly newer uploads of its profile |
| IsoRetention.RunsAreSafe | scripts/bluebuild/reuse-qualification.py:360-370 | over any run of uploads and prunes, by old or partly applied plans from partial listings, whatever was deleted has two strictly newer existing ISOs of its profile |
| IsoRetention.TwoAlwaysRemain | scripts/bluebuild/reuse-qualification.py:360-370 | at least two ISOs of a profile exist, or all ever uploaded |
| DecisionLedger.Records | scripts/ci/decision_revocation.py:11-28 | the ledger holds exactly the proposals of the directory under their hashes; refused exactly if some file is not regular, not of 1 byte to 8 MiB, not a well-formed proposal or not named by its hash, or there are more than 10000 |
| DecisionLedger.DecisionIds | scripts/ci/decision_controller.py:360-378 | the hash of every record in order, under the same conditions |
| DecisionLedger.IdsAreTheLedger | scripts/ci/decision_controller.py:360-378 | those hashes are exactly the ledger's, each once |
| DecisionLedger.Validate | scripts/ci/decision_revocation.py:31-52 | accepts exactly a revocation of an accepted decision that is the unique active leaf of each covered profile, the proposal itself left aside, and whose profiles, findings and packet each equal the target's |
| DecisionLedger.RevokesExactly | scripts/ci/decision_revocation.py:31-52 | a revocation is accepted exactly if it keeps the profiles, the findings and the packet of its one accepted target, each, and nothing else is active for any of them |
| DecisionLedger.WellFormedExactly | scripts/ci/security_admission.py:59-86 | a proposal is well formed exactly if its profiles are known, some and distinct, its findings theirs, its disposition fits its kind, its parents are distinct hashes, some for a revocation, and its rationale is neither blank nor over 20000 characters |
| DecisionLedger.Create | scripts/ci/decision_revocation.py:61-73 | succeeds exactly for an accepted unique leaf and a proper rationale; its result validates and has the target's profiles, findings and packet |
| DecisionLedger.ActiveAfterMerge | scripts/ci/decision_revocation.py:48-52 | what one more record does to the leaves of each profile |
| DecisionLedger.VerdictSurvivesMerge | scripts/ci/decision_revocation.py:45-52 | the verdict on a revocation is the same before and after its own merge |
| DecisionLedger.RevocationIsLeafExactly | scripts/ci/decision_revocation.py:48-52 | after the merge it is the unique active leaf if and only if no other record for the profile names it |
| DecisionLedger.RevocationIsLeaf | scripts/ci/decision_revocation.py:48-52 | with content hashes it always is |
| DecisionLedger.RevokedForGood | scripts/ci/decision_revocation.py:48-52 | a revoked decision is active in no later ledger |
| DecisionLedger.SecondRevocationRejected | scripts/ci/decision_revocation.py:48-52 | no other revocation of the same decision is accepted, in any later ledger |
| DecisionLedger.RecordIsLeafExactly | scripts/ci/decision_revocation.py:48-52 | any new record becomes the unique leaf of a profile it covers if and only if it supersedes all its leaves and neither an earlier record nor itself names it |
| DecisionLedger.DecisionRestoresLeaf | scripts/ci/decision-controller.py:60-70 | a decision that supersedes all records becomes the unique leaf of its profiles, if and only if nothing names it, and changes no other profile |
| DecisionLedger.GroundedDecisionRestoresLeaf | scripts/ci/decision-controller.py:60-70 | with content hashes it always does |
| DecisionLedger.StaleDecisionsConflict | scripts/ci/decision-controller.py:60-70 | two decisions prepared from one ledger leave two leaves, and no revocation is accepted then |
| DecisionLedger.SupersedeAllIsWritten | scripts/ci/decision-controller.py:60-70 | a decision that supersedes all records is among the records of such runs |
| DecisionLedger.LatestIsTheLeaf | scripts/ci/decision_revocation.py:31-73 | in every run of validated revocations and of records that supersede the current leaves, the active leaf of a profile is its latest record, alone |
| DocumentCache.FetchedIsAuthentic | scripts/ci/decision-authority.py:154-182 | an uncached read returns bytes of the announced size and hash that decode |
| DocumentCache.FetchesExactly | scripts/ci/decision-authority.py:154-182 | an uncached read succeeds exactly if the contents, inline or through the blob they name, give Base64 of 1 byte to 8 MiB of the announced size and hash that decode |
| DocumentCache.ReadsExactly | scripts/ci/decision-authority.py:154-182 | and returns what those bytes decode to, exactly for a full revision hash |
| DocumentCache.TotalAdd | scripts/ci/decision-authority.py:109-110 | storing a new document adds its length to the total |
| DocumentCache.Documents.constructor | scripts/ci/decision-authority.py:34-36 | each reconciliation starts with an empty cache |
| DocumentCache.Documents.Remember | scripts/ci/decision-authority.py:97-111 | stores, finds, conflicts or declines under the exact conditions; the byte count is the sum of lengths, with at most 64 entries and 16 MiB |
| DocumentCache.Documents.Seed | scripts/ci/decision-authority.py:114-139 | stores only bytes of the tree entry's size and hash; a full cache only declines; all stored documents stay those of uncached reads |
| DocumentCache.StoredReads | scripts/ci/decision-authority.py:151-153 | a stored document is what the uncached read returns, where that succeeds |
| DocumentCache.Documents.DocumentAt | scripts/ci/decision-authority.py:142-184 | differs from the uncached read if and only if the document is stored and the uncached read fails, and then returns the stored one |
| DocumentCache.Reconcile | scripts/ci/decision-authority.py:33-183 | over any sequence of seeds and reads a read differs from the uncached one if and only if that fails and an earlier operation seeded the binding |
| ReviewApproval.Collection | scripts/ci/decision-authority.py:78-87 | the pages up to the first short one, or a failure |
| ReviewApproval.StableCollection | scripts/ci/decision-authority.py:78-87 | a stable list is returned in full exactly if it has at most 999 items, and fails otherwise |
| ReviewApproval.FoldReviews | scripts/ci/decision-authority.py:272-303 | the first loop keeps the latest counted review of each author, or refuses an unreadable record |
| ReviewApproval.AcceptReviews | scripts/ci/decision-authority.py:304-311 | the second loop gives the accepted reviews, or the first obstacle |
| ReviewApproval.Approval | scripts/ci/decision-authority.py:269-319 | the loops and the recheck compute the specified decision |
| ReviewApproval.LatestIsEffective | scripts/ci/decision-authority.py:272-303 | the fold keeps exactly each author's counted review of the highest id, one an author |
| ReviewApproval.ApprovesExactly | scripts/ci/decision-authority.py:269-319 | a review is returned exactly if every record is readable, no effective review is an obstacle, and it is the newest effective approval of exactly this head by a member still eligible afterwards |
| ReviewApproval.ApprovalForgetsOrder | scripts/ci/decision-authority.py:269-319 | success, the returned review and failure are the same for every order of the reviews |
| ReviewApproval.OutcomeForgetsOrderExactly | scripts/ci/decision-authority.py:304-313 | the error is too, if and only if the effective reviews do not hold both kinds of obstacle |
| ReviewApproval.OrderShowsInTheError | scripts/ci/decision-authority.py:304-313 | two reviews whose order decides the error |
| ApprovalMeaning.ReadsExactly | scripts/ci/decision-authority.py:272-303 | which records count and as what, state by state, command by command and user kind by user kind, and which cannot be read |
| ApprovalMeaning.EligibleExactly | scripts/ci/decision-authority.py:244-266 | who is authorised, and of whom too little is known |
| ApprovalMeaning.DecidesExactly | scripts/ci/decision-authority.py:269-319 | a review is returned exactly if it is the newest approval of this head that is its authorised author's last word, nothing stands against it, and its author is still authorised afterwards |
| ApprovalMeaning.OtherWordsNeverApprove | scripts/ci/decision-authority.py:304-319 | a last word that withdraws, dismisses, requests changes or approves another head never gives its author's approval |
| ApprovalMeaning.WithdrawalNeverApproves | scripts/ci/decision-authority.py:283-289 | a comment of `/decider withdraw` and this head as the last word never does |
| ApprovalMeaning.ApprovingCommentApproves | scripts/ci/decision-authority.py:283-319 | a comment of `/decider approve` and exactly this head by an authorised author suffices when nothing stands against it |
| ApprovalMeaning.FailsExactly | scripts/ci/decision-authority.py:304-319 | a readable listing ends in the error of its unknowable authors, or of its eligible requests for changes or missing approval, unless it has both kinds |
| ApplicabilityEvidence.InlineString | scripts/ci/applicability-evidence.py:73-87 | the decoding loop computes the specified string, position or error |
| ApplicabilityEvidence.LengthExactly | scripts/ci/applicability-evidence.py:74-82 | accepted length bytes are exactly the encodings in at most ten groups of numbers in bounds, padded ones included |
| ApplicabilityEvidence.LengthsAre64Bit | scripts/ci/applicability-evidence.py:75-82 | decoded lengths are below 2^64, and every encoding of such a length is decoded |
| ApplicabilityEvidence.NeverUnterminated | scripts/ci/applicability-evidence.py:79-87 | the loop never runs out of groups |
| ApplicabilityEvidence.InlineExactly | scripts/ci/applicability-evidence.py:73-87 | exactly the encoded strings of at most 1 MiB are read, with their next position |
| ApplicabilityEvidence.InlineRoundTrip | scripts/ci/applicability-evidence.py:73-87 | a string encoded after any prefix and before any suffix is read back |
| ApplicabilityEvidence.MappedSection | scripts/ci/applicability-evidence.py:126-138 | accepts exactly if all load segments are valid, the mapped offsets are the section's alone, and its bytes can be read |
| ApplicabilityEvidence.MappedExactly | scripts/ci/applicability-evidence.py:132-137 | which is so exactly if one segment maps the section, at its own file offset |
| ApplicabilityEvidence.SegmentExactly | scripts/ci/applicability-evidence.py:126-136 | a load segment maps a nonempty section exactly if the file holds the byte of each of its addresses; it is valid exactly if its file part fits the file and its memory, and its memory 64 bits |
| ApplicabilityEvidence.RegionExactly | scripts/ci/applicability-evidence.py:63-70 | a region can be read exactly if it has 1 byte to 1 MiB within both the stated size and the file, and then it is those bytes |
| ApplicabilityEvidence.AcceptedSectionIsLoaded | scripts/ci/applicability-evidence.py:126-138 | the accepted bytes lie inside that segment's part of the file and are the ones loaded at the section's address |
| ApplicabilityEvidence.BuildStrings | scripts/ci/applicability-evidence.py:139-146 | two strings are returned exactly if the section holds one aligned header, its flags and both strings |
| ApplicabilityEvidence.BuildStringsRoundTrip | scripts/ci/applicability-evidence.py:139-146 | strings written after the only aligned header are read back |

## Left out

- Effects: processes, the network, registries, files, clocks and `gh` are inputs of the models or absent.
- Error texts: errors are told apart by kind, not by message.
- Schema, name, digest, URL and wording checks are one verdict each (`wellFormed`, `wellTyped`, `healthy`, `bound`, `valid`).
- RedactVmLogs.RedactedChunks: collects what the generator yields; the interleaving of yields and reads is not captured.
- UnlockVm.Relay: one output stands for the log and the console, which receive the same bytes; the prompt detector is a parameter.
- GuestTimings.BoundedLines: console lines stay bytes; their UTF-8 decoding with replacement characters is not modelled.
- GuestTimings.CompressedCapture.Write: the capture file is its complete members and a torn last one.
- `BoundedConsole` and `collect` of guest-timings.py: console budgets and duplicate checks on timing rows, which would add only easy members.
- CheckVmDesktop.AcceptedIsConfined: fields of the observation that never vary are one value; the limit of 4300 digits of Python's `int` is not modelled.
- JsonText.PrintApart: strings are UTF-16 code units, so members are ordered by units, which differs from Python's order by code points only for names with astral characters; number texts are inputs.
- `transport_metadata` and `extraction_projection`: long lists of checks around simple loops.
- SecurityPolicy.EvaluateScan: finding fields that decide nothing (review rules, risk classes, critical aliases, maintainer severity, CVSS scores, tracked concerns) are not carried.
- DatabaseOverlap.StepKeepsInv: descendants of a process group beyond its stop, deadlines in seconds and liveness are not modelled.
- GithubMetadata.Pages: a page that cannot be read, a read budget or deadline is a missing page; query checks are left out.
- IsoRetention.CollectRun: names are decoded, not matched as text; the checks of a run and of an artifact's binding are one verdict each.
- IsoRetention.RunsAreSafe: expiry of artifacts by age is not a step of the runs.
- DecisionLedger.Validate: the ledger verdict; the provenance of the parent's merge is not modelled, nor are the normalisation of findings and the packet schema.
- DecisionLedger.LatestIsTheLeaf: the third writer, `propose` in decision-controller.py, takes a file with any `supersedes`; its records are in the runs when they name records only and all current leaves, and otherwise `DecisionLedger.RecordIsLeafExactly` says what they do.
- DecisionLedger.Create: as `DecisionLedger.Validate`, without the provenance of the parent's merge.
- DocumentCache.Documents.DocumentAt: one thread at a time, as the lock provides; without a cache the uncached read is all there is.
- ReviewApproval.Approval: two readings of the team stand for the API before and after the fold; errors of the review listing itself are in `ReviewApproval.Collection`.
- ApplicabilityEvidence.BuildStrings: the section-name lookup, the fixed header fields and the Go module records are checks on the decoded fields and are not modelled.
