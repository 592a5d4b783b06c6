# A verified model of the skills bootstrap and its continuation supervisor

The project models three parts of the repository and proves what they are for.

**The bootstrap bin** (`bootstrap/package/bin/csm-skills-bootstrap.js`). JavaScript
strings are sequences of UTF-16 code units, JSON objects keep their insertion
order, and what a value means forgets that order. Around the canonical JSON
printer stand a reader that undoes it, the UTF-8 encoding the digests and
signatures are computed over, safe paths and how they join to a root, octal mode
text, the payload-index validator with its file check, and the envelope
validator as an ordered list of rules with the trust report built on it. The
loops and early exits of the bin are methods with loops and early exits, each
proved equal to a specification whose properties are then proved.

**The install protocol** (`bootstrap/protocol.md`, implemented by
`tests/protocol/engine.mjs` and `trust-policy.mjs`, which the model follows branch
by branch). A file tree is a map from paths to directories, files and symbolic
links. `TrustPolicy` checks the envelope and the index a run is offered.
`Install`, `Managed` and `InstallRun` give the rest of the protocol as functions
of the input, the tree found and a schedule of faults: whether the staging area
can be made, which staging copies and re-reads throw; for each file, the step of
the walk that throws, a copy that throws (with a protocol code or without) or
writes other bytes, a temporary file that cannot be removed, a re-read that
throws; the removals and directories of the undo that fail; the step at which a
backup, a removal or a restore is interrupted and how far it had come; whether
clearing the staging area or writing the marker throws. The class
`Engine.Installer` changes a tree, a staging area and a trace step by step as the
engine does, and every method is proved to do what its function says. The
theorems then speak of all inputs, all trees and all schedules.

**The continuation supervisor** (`scripts/opencode-plugin/csm-continue.js` and
`csm-continue-core.mjs`). The decision core works on parsed records, including
the values on which `String(value)` throws. The plugin is a state machine whose
steps are the indivisible stretches of the event loop: an idle handler decides
and issues its prompt, and some time later the prompt settles, well or badly,
in any order. `Supervisor.ContinuePlugin` is the mutable object;
`SupervisorRuns` proves what every interleaving of every number of handlers keeps.

A specification and the method proved equal to it share small definitions: a list of
words, a window of time, a path that is looked at, an exit code. What these mean is
stated a second time without them, on fields, literal words and trees:
`JsonText.QuoteIsLeast` and `CanonicalJson.InOrderPrintsInPlace` fix the text that is
hashed, `Acceptance` the requirements of both envelope validators with their codes,
`InstalledFiles` what a placed run leaves entry by entry, `EarlyRefusals` and
`LateRefusals` when a run refuses with which code, `Verdicts` what the supervisor
decides from its settings and a record's words, `LiveRecords` which file discovery picks.

## What the proofs show about the documented claims

Several documented promises hold only under a condition. In each case the code
is modelled as it is, the exact condition is proved, and where useful a concrete
input that fails is given.

- `bootstrap/protocol.md:94` says that every refusal leaves the destination
  unchanged. Take a run about to write to an unmanaged destination, with a
  temporary name that no indexed path holds. Call a file blocked when a link stands
  above it or the temporary name beside it is taken. As long as the clean-ups whose
  failure the engine ignores succeed, the refusals leave the tree exactly as it was
  under all other faults if and only if there is nothing to place, or an indexed
  path cannot be removed (and then no fault ends in a refusal), or all of these
  hold: the destination exists, every indexed path that is taken is a readable file
  at or after some blocked one, no directory on the way to a file the run would
  write is empty, and the marker's temporary name is free or some file is blocked
  (`Transaction.RefusalsLeaveTreeExactly`). Otherwise the undo leaves the
  destination directories it made, prunes directories that were empty before the
  run, leaves wrong bytes in an identical file that was already there or removes a
  file that cannot be read, or a planted temporary name is met only after all files
  are in place. Under all faults, a temporary file that cannot be removed included,
  the refusals leave the tree as it was only if moreover the first file is already
  blocked (`Transaction.AllRefusalsLeaveTreeExactly`). A file that cannot be read
  is removed even where nothing is ever written
  (`RefusalTable.UnreadableFileIsRemoved`).
- `bootstrap/protocol.md:155` says that a managed replacement is restored. A
  refusal without `restore-failed` still changes the tree in exactly three cases:
  the removal before placing was interrupted with something already gone, which
  can happen inside the first skill; placement failed, and the skills held a
  symbolic link, which the backup does not copy, or a temporary file was left
  beside them; or everything was placed, with a result that differs from what stood
  there, and then the marker's temporary name was found taken
  (`InstallSafety.RefusedManagedRunExactly`,
  `InstallSafety.RefusedAfterReplacingExactly`). A managed destination that lacks one
  of the indexed skills is refused unchanged (`InstallSafety.MissingSkillRefuses`).
- `bootstrap/protocol.md:66` says that a report is always emitted. Run by run, none
  is exactly when the check of the offer throws (the keyring or index cannot be
  read, or an entry's digest or mode has no text); or preparing the staging area,
  clearing it, or re-reading a staged file throws; or, once finalising, a copy
  throws with another of the protocol's codes, the undo of an unmanaged destination
  throws, or writing the marker does (`NoReport.RunWithoutReportExactly`,
  `NoReport.ManagedRunWithoutReportExactly`). On an unmanaged destination this needs
  no such throw of its own, only the tree, exactly when an indexed path cannot be
  removed because a directory stands there or a file above it, or there is nothing
  to place and no destination, or everything can be placed, the marker's temporary
  name is free and the marker's own name is a directory
  (`Transaction.SomeRunCrashesExactly`); on a managed one the tree alone never does it.
- The comment at `bootstrap/package/bin/csm-skills-bootstrap.js:157-159` says that
  the bin's envelope checks and the engine's cannot drift apart. They accept the
  same envelopes except that only the engine bounds the envelope's size and only
  the bin wants a bare https origin (`TrustPolicy.ValidatorsAgreeExactly`).
- The refusal table at `bootstrap/protocol.md:96-110` lacks one pair: a confirmed
  destination that is relative or runs into a file gives `E_NO_DESTINATION` at
  `CONFIRM_IF_NEEDED` (`RefusalTable.TableHoldsExactly`).
- The signed steps digest is over UTF-8, which cannot tell a lone surrogate from
  U+FFFD; the signed bytes determine an envelope exactly when its steps hold
  neither (`SignedEnvelope.SignedBytesDetermineExactly`).
- A key whose validity dates do not parse is never outside its validity, since
  every comparison with NaN is false; the model keeps this.
- An index mode of three digits passes validation and matches no file
  (`PayloadIndex.ThreeDigitModeNeverMatches`).
- `docs/completion-supervisor.md:103-107` makes a count above `CSM_CONTINUE_MAX`,
  or a second entry on an unchanged digest, a runaway loop. With overlapping
  handlers the count can reach m + k - 1; both stops hold exactly when the maximum
  is 0 or handlers never overlap (`SupervisorRuns.BudgetHoldsExactly`,
  `SupervisorRuns.NoProgressStopHoldsExactly`).
- `docs/completion-supervisor.md:75-76` sends a non-numeric `CSM_CONTINUE_MAX` to
  the default. The setting is read as documented exactly when it is not a
  non-negative number, other than the default, with other text behind it
  (`Continuation.DocumentedMaxExactly`); `12 apples` gives 12.
- The comment at `scripts/opencode-plugin/csm-continue.js:60-61` says that the
  explicit record must be non-terminal; the code does not look, and keeps the
  promise exactly when the file found is an unfinished build state
  (`Discovery.ExplicitRecordAsFound`).

## Model

| member | source | states |
|---|---|---|
| JsonText.ReadQuoted | bootstrap/package/bin/csm-skills-bootstrap.js:43 | Reading a quoted string gives back the string and whatever follows, for control characters, surrogate pairs and lone surrogates alike |
| JsonText.ReadPrintedInteger | bootstrap/package/bin/csm-skills-bootstrap.js:43 | Reading a printed integer gives it back, whatever follows that is not a digit |
| JsonText.PlainTextPrintsAsItself | bootstrap/package/bin/csm-skills-bootstrap.js:43 | Text of units from the space on, with no quote, backslash or lone surrogate, prints as itself between quotes; a URL keeps its slashes |
| JsonText.QuoteIsLeast | bootstrap/package/bin/csm-skills-bootstrap.js:43 | Of all well-formed texts that read back as a string, the printed one is the shortest, and of those as short the only one whose escapes have lower-case digits |
| JsonText.IntegerIsLeast | bootstrap/package/bin/csm-skills-bootstrap.js:43 | The printed integer is the shortest text that reads as it, and the only one as short |
| CanonicalJson.ReadUndoesPrint | bootstrap/package/bin/csm-skills-bootstrap.js:42-49 | For every value and every admissible rest, reading the canonical text followed by the rest gives the value's meaning and the rest |
| CanonicalJson.InOrderPrintsInPlace | bootstrap/package/bin/csm-skills-bootstrap.js:42-49 | A value whose keys are in code-unit order at every depth prints its fields as they stand, exactly as JSON.stringify does, with nothing between the tokens |
| CanonicalJson.FieldExactly | bootstrap/package/bin/csm-skills-bootstrap.js:167 | A field read is the member of that name; an object without it, or what is no object, gives nothing |
| CanonicalJson.SameMeaningSameText | bootstrap/package/bin/csm-skills-bootstrap.js:45-48 | Values that differ only in the order of fields, at any depth, print to the same text |
| CanonicalJson.TextDeterminesMeaning | bootstrap/package/bin/csm-skills-bootstrap.js:42-49 | Two values print alike if and only if they mean the same |
| CanonicalJson.TextIsWellFormed | bootstrap/package/bin/csm-skills-bootstrap.js:42-49 | Canonical text never holds a lone surrogate, so encoding it loses nothing |
| CanonicalJson.BytesDetermineMeaning | bootstrap/package/bin/csm-skills-bootstrap.js:252 | The encoded canonical bytes are equal if and only if the values mean the same |
| Texts.SortedListingIsUnique | bootstrap/package/bin/csm-skills-bootstrap.js:45-46 | A multiset of keys has one sorted listing under code-unit order |
| Texts.LeqByFirstDifference | bootstrap/package/bin/csm-skills-bootstrap.js:45-46 | Two keys are ordered by the first unit in which they differ |
| Texts.LeqOfPrefix | bootstrap/package/bin/csm-skills-bootstrap.js:45-46 | A key that is the start of another comes first |
| Utf8.BytesDetermineCodePoints | bootstrap/package/bin/csm-skills-bootstrap.js:26 | Two strings hash the same bytes if and only if their code points agree, lone surrogates read as U+FFFD |
| Utf8.EncodedAsStandard | bootstrap/package/bin/csm-skills-bootstrap.js:26 | The bytes of a code point are those of section 3 of RFC 3629: their number by ranges, the leading and continuation bytes, and the bits they carry |
| Utf8.CodePointsOfUtf16 | bootstrap/package/bin/csm-skills-bootstrap.js:26 | A string made of code points in UTF-16 (section 2.1 of RFC 2781) is read as exactly these |
| Utf8.BytesDetermineExactlyFaithful | bootstrap/package/bin/csm-skills-bootstrap.js:219 | A string is the only one with its bytes exactly when it holds no lone surrogate and no U+FFFD |
| Utf8.LoneSurrogateSharesBytes | bootstrap/package/bin/csm-skills-bootstrap.js:219 | Two different strings that are hashed alike |
| SafePath.SafeExactlyWhenPlacedBelowRoot | bootstrap/package/bin/csm-skills-bootstrap.js:19-24 | A path is accepted exactly when it has no backslash and joining it to any root leads to the root's location followed by the path's own parts |
| SafePath.SafePathsNeverAlias | bootstrap/package/bin/csm-skills-bootstrap.js:110-117 | Two accepted paths that join to the same location are the same text, so comparing texts finds every duplicate |
| SafePath.OtherPartsLead | bootstrap/package/bin/csm-skills-bootstrap.js:283 | In a joined path empty parts and single dots stay where they are, two dots go back over the part before, and at the root stay |
| SafePath.JoinSplit | bootstrap/package/bin/csm-skills-bootstrap.js:24 | Splitting at slashes loses nothing |
| Octal.OctalRoundTrip | bootstrap/package/bin/csm-skills-bootstrap.js:296-297 | Parsing base-8 text padded to any width gives back the number |
| Octal.ModeTextMatches | bootstrap/package/bin/csm-skills-bootstrap.js:296-298 | The mode comparison succeeds exactly for index modes of four digits with the file's permission value |
| PayloadIndex.ValidatePayloadIndex | bootstrap/package/bin/csm-skills-bootstrap.js:88-119 | The pushing loops compute the specified entries and failures, or the schema error, for every JSON value |
| PayloadIndex.CollectClasses | bootstrap/package/bin/csm-skills-bootstrap.js:97-107 | The class loop keeps well-formed items in order and one failure per other item, and stops at the first malformed class |
| PayloadIndex.FlagDuplicates | bootstrap/package/bin/csm-skills-bootstrap.js:110-117 | One DUPLICATE_ENTRY per entry whose path came before |
| PayloadIndex.ValidationConservesItems | bootstrap/package/bin/csm-skills-bootstrap.js:95-118 | Entries plus INVALID_ENTRY failures equal the declared items; DUPLICATE_ENTRY failures equal entries minus distinct paths; entries are the ordered filter of the items |
| PayloadIndex.CheckFiles | bootstrap/package/bin/csm-skills-bootstrap.js:270-307 | Each entry adds its one fault or none, and the repeated guard never fires on validated entries |
| PayloadIndex.VerifyPayload | bootstrap/package/bin/csm-skills-bootstrap.js:262-309 | The command computes the specified report, including the schema errors |
| PayloadIndex.NoFaultExactlyWhenMatching | bootstrap/package/bin/csm-skills-bootstrap.js:282-306 | A file adds no failure exactly when a regular file with that mode, length and digest stands at the joined location |
| PayloadIndex.NoDuplicatesExactly | bootstrap/package/bin/csm-skills-bootstrap.js:110-117 | No duplicate is reported exactly when all paths are pairwise distinct |
| PayloadIndex.OkExactlyWhenIntact | bootstrap/package/bin/csm-skills-bootstrap.js:262-364 | The command reports ok exactly when the index has its shape, every item is well formed, no two share a path and every file is in place |
| PayloadIndex.ThreeDigitModeNeverMatches | bootstrap/package/bin/csm-skills-bootstrap.js:85-298 | An entry with a three-digit mode is valid and always adds a failure |
| PayloadIndex.WellFormedItemExactly | bootstrap/package/bin/csm-skills-bootstrap.js:73-86 | An item is well formed exactly when its path is relative without backslash, empty and dot parts, its digest 64 lower-case hex digits, its length not negative and its mode three octal digits or four after a zero; these four are its entry |
| PayloadIndex.MalformedItemNamesPath | bootstrap/package/bin/csm-skills-bootstrap.js:102 | The failure of any other item names its path, or null when that is missing, null, false, zero or empty |
| PayloadIndex.IndexShapeExactly | bootstrap/package/bin/csm-skills-bootstrap.js:88-108 | An index is looked into exactly when it is an object with the schema and four arrays under their names; its items are those of the four in order, then the fixed bin |
| PayloadIndex.FaultKindExactly | bootstrap/package/bin/csm-skills-bootstrap.js:281-306 | Which failure a file adds: missing when it cannot be read or looked at, else a wrong kind or mode, else a wrong length, else a wrong digest |
| ShellPolicy.ShellLikeDependsOnAscii | bootstrap/package/bin/csm-skills-bootstrap.js:32-67 | The advisory check gives the same answer on texts that agree except where both are outside ASCII |
| ShellPolicy.ShellLikeExactly | bootstrap/package/bin/csm-skills-bootstrap.js:32-67 | The check stops exactly the texts with a backtick, three tildes in a row, or one of the 24 words, in any case, with no letter, digit or underscore around it |
| Envelope.ValidateEnvelope | bootstrap/package/bin/csm-skills-bootstrap.js:126-260 | The early-exit validator returns the code of the first failing rule, or trusts with the key found |
| Envelope.CheckShape | bootstrap/package/bin/csm-skills-bootstrap.js:127-200 | The checks on the envelope alone, in order, with required and allowed fields looped over |
| Envelope.CheckKey | bootstrap/package/bin/csm-skills-bootstrap.js:201-214 | The checks against clock and keyring, in order, with first-match lookup |
| Envelope.CheckContent | bootstrap/package/bin/csm-skills-bootstrap.js:215-225 | The checks on steps, package policy and index binding, in order |
| Envelope.CheckSignature | bootstrap/package/bin/csm-skills-bootstrap.js:226-258 | The checks on a signature of any shape, in order |
| Envelope.FirstFailureAt | bootstrap/package/bin/csm-skills-bootstrap.js:126-260 | When the first n rules hold and the next one fails, its code is the one returned |
| Envelope.AcceptsExactly | bootstrap/package/bin/csm-skills-bootstrap.js:126-260 | The validator trusts exactly when every rule holds |
| Acceptance.VerdictExactly | bootstrap/package/bin/csm-skills-bootstrap.js:126-260 | Of 26 requirements written on the fields of the envelope and key, the first that is not met decides the code; when all are met the first key of the id named is trusted |
| Acceptance.TrustedExactly | bootstrap/package/bin/csm-skills-bootstrap.js:126-260 | An envelope is trusted exactly when it meets all 26 requirements |
| Acceptance.TrustedExactlyInWindow | bootstrap/package/bin/csm-skills-bootstrap.js:201-213 | An envelope trusted at one time is trusted at another exactly when its expiry lies later and each bound of the key that is a date holds |
| Acceptance.CheckedSignatureExactly | bootstrap/package/bin/csm-skills-bootstrap.js:226-258 | A signature counts as checked exactly when it is present, made with Ed25519 and verified with the key named over the canonical text of the seven fields |
| EnvelopeTrust.AcceptedExactlyInWindow | bootstrap/package/bin/csm-skills-bootstrap.js:201-213 | An envelope accepted at one time is accepted at another exactly when that time lies before its expiry and inside its key's validity |
| EnvelopeTrust.AcceptingTimesAreConvex | bootstrap/package/bin/csm-skills-bootstrap.js:201-213 | The times at which an envelope is accepted have no gaps |
| EnvelopeTrust.RevocationOnlyRejects | bootstrap/package/bin/csm-skills-bootstrap.js:203-205 | Revoking entries never accepts what was rejected, and rejects an accepted envelope exactly when it revokes the first entry with its key id |
| EnvelopeTrust.AcceptedSignature | bootstrap/package/bin/csm-skills-bootstrap.js:226-258 | In an accepted envelope a signature field of any shape is one that was verified; strict mode accepts nothing else |
| EnvelopeTrust.VerifyEnvelope | bootstrap/package/bin/csm-skills-bootstrap.js:311-354 | The report is signed exactly when verification ran and succeeded, production trust means signed under a production keyring, and failures carry the first failing code |
| SignedEnvelope.SignedBytesBindFields | bootstrap/package/bin/csm-skills-bootstrap.js:50-60 | Equal signed bytes if and only if all seven signed fields mean the same |
| SignedEnvelope.SignedBytesDetermineEnvelope | bootstrap/package/bin/csm-skills-bootstrap.js:130-257 | Two accepted envelopes with equal signed bytes agree in every field but the signature, the steps up to their code points |
| SignedEnvelope.SignedBytesDetermineExactly | bootstrap/package/bin/csm-skills-bootstrap.js:215-257 | The signed bytes determine an accepted envelope, its signature aside, exactly when its steps hold neither a lone surrogate nor U+FFFD |
| TrustPolicy.CheckPolicyShape | tests/protocol/trust-policy.mjs:91-147 | The engine's checks on the envelope alone, in order |
| TrustPolicy.ValidatePolicy | tests/protocol/trust-policy.mjs:129-228 | The engine's early-exit validator returns the code of the first failing check, or none |
| TrustPolicy.PolicyAcceptsExactly | tests/protocol/trust-policy.mjs:129-228 | The engine's validator accepts exactly when each of its checks holds |
| Acceptance.EngineVerdictExactly | tests/protocol/trust-policy.mjs:91-228 | The engine's verdict by its own 27 requirements in its own order, the size of the envelope among them |
| TrustPolicy.ValidatorsAgreeExactly | bootstrap/package/bin/csm-skills-bootstrap.js:157-193 | The bin accepts an envelope that fits its own size limit if and only if the engine accepts it and its origin is bare |
| TrustPolicy.CheckIndex | tests/protocol/engine.mjs:296-313 | The loops over classes and entries, with digest and mode taken as texts, accept, refuse or throw as specified |
| TrustPolicy.IndexShapedExactly | tests/protocol/engine.mjs:79-88 | An index is accepted exactly when it has the schema and every entry of its four classes, and its fixed bin, has the shape |
| TrustPolicy.EntryThrowsExactly | tests/protocol/engine.mjs:79-88 | The shape check of an entry throws exactly when its digest has no text or, with digest and length in order, its mode has none |
| TrustPolicy.EachListIsItsClass | tests/protocol/engine.mjs:297-313 | Each list of the index holds the paths and digests of the items of the class of its name, position by position |
| TrustPolicy.SameMeaningSameIndex | tests/protocol/engine.mjs:280-303 | Indexes that mean the same list the same entries, whatever their field order |
| TrustPolicy.CheckOffer | tests/protocol/engine.mjs:279-313 | The first fault of an offer: a file that cannot be read, executable steps, another refused check, a malformed index, or a check that throws |
| Acceptance.OfferFaultExactly | tests/protocol/engine.mjs:277-313 | What an offer is refused for, by the first requirement not met under the digest of the index file or of the canonical text of an index given as an object |
| TrustPolicy.OneEnvelopeOneIndex | bootstrap/protocol.md:4 | Under one accepted index digest two indexes given as objects list the same entries, and two index files hold the same bytes |
| FileTree.PruneOrderExactly | tests/protocol/engine.mjs:103-112 | The directories visited are the proper ancestors of the paths, each once |
| FileTree.PruneOrderIsInnermostFirst | tests/protocol/engine.mjs:110-112 | Sorting by written length visits a directory only after everything inside it |
| FileTree.PruneRemovesExactlyHollow | tests/protocol/engine.mjs:113-119 | Pruning removes exactly the listed directories that hold nothing but listed directories |
| Install.PlaceFromGrows | tests/protocol/engine.mjs:457-482 | Placement that leaves no temporary file stops at the first error, what came before is in place, and nothing but the ways and the written targets has changed |
| AllOrNothing.LeftoverIsAll | tests/protocol/engine.mjs:209-219 | A temporary file that cannot be removed is the only difference from the same placement with every one removed |
| Install.UndoWithExactly | tests/protocol/engine.mjs:113-119 | The undo ends well exactly when no removal throws, and is the undo when no empty directory refuses to go |
| Install.RemoveFilesExactly | tests/protocol/engine.mjs:497 | Removing the created files throws exactly when one of them is a directory or lies below a file, and otherwise removes exactly them |
| Install.UndoExactly | tests/protocol/engine.mjs:493-499 | The tree after the undo, node by node |
| AllOrNothing.UndoRestoresExactly | bootstrap/protocol.md:58 | The undo restores the initial tree exactly when no directory was made for the destination, nothing stood at a created path, no directory on the way was empty and no file already there has changed |
| AllOrNothing.BlockedStops | tests/protocol/engine.mjs:156-207 | Placement never gets past a file with a link above it or a taken temporary name beside it, and leaves that file and those after it alone |
| AllOrNothing.StopsAt | tests/protocol/engine.mjs:457-482 | While the files are clear, placement stops exactly at the first copy that throws or writes other bytes |
| AllOrNothing.GoodCopiesSucceed | tests/protocol/engine.mjs:457-482 | When every file is clear, copies with the right digests place everything |
| AllOrNothing.SafeFailureRestores | bootstrap/protocol.md:155 | Where failing is safe, a failed finalisation whose clean-ups succeed and whose undo does not throw restores the tree, whatever stands in the way |
| AllOrNothing.AllOrNothingExactly | bootstrap/protocol.md:94-155 | For every tree: all failing schedules whose clean-ups succeed and that end in a report leave the tree as it was if and only if some indexed path cannot be removed, so that none ends in a report, or failing is safe |
| AllOrNothing.NothingLeftExactly | tests/protocol/engine.mjs:209-219 | For every tree, over all schedules: the same holds if and only if some indexed path cannot be removed, or failing is safe and the first file is blocked |
| AllOrNothing.NoReportExactly | tests/protocol/engine.mjs:493-499 | Finalisation with its undo throws past the report exactly when a directory stands at an indexed path or a file above one, or placement fails and a removal of the undo throws by itself |
| Managed.PlacementStaysUnderSkills | bootstrap/protocol.md:154 | Placing on a managed destination changes nothing outside the skill directories |
| Managed.FailedReplacementExactly | tests/protocol/engine.mjs:483-492 | A failed replacement whose removal and restore went through leaves the initial tree without the links inside the skills, unless a temporary file was left beside them |
| Managed.InterruptedRemovalExactly | tests/protocol/engine.mjs:446-450 | A removal before placing that is interrupted leaves the tree as it was exactly when it failed in the first skill before anything was gone |
| Managed.TornExactly | tests/protocol/engine.mjs:446-447 | What an interrupted removal of a skill leaves is a file tree, and any part of the skill that holds all below it can be what has gone |
| Managed.ManagedRestoresExactly | bootstrap/protocol.md:155 | A failed replacement without restore-failed leaves the tree as it was exactly when nothing was removed yet, or the removal was complete, the skills held no link and no temporary file is left beside them |
| InstallTheorems.EveryReportKeepsContract | bootstrap/protocol.md:14-65 | In every reported run the states are a prefix of the chain, only the last entry refuses, a placed run passes all seven, and the exit code is the code's number |
| InstallTheorems.MaterializesOnlyWhenApproved | bootstrap/protocol.md:44-114 | The tree changes or files are placed only with capabilities, trust verdict and approval given and a destination that passed the path walk |
| InstallTheorems.ChangesOnlyUnderAcceptedEnvelope | bootstrap/protocol.md:29 | A run changes the tree only when every check on its envelope holds, its index is well shaped, and the envelope's digest is that of this index |
| InstallTheorems.OneEnvelopeInstallsOneIndex | bootstrap/protocol.md:4 | All runs that change anything under one envelope, with the index given as an object, install the same entries |
| InstallTheorems.PlacedBelowDestination | bootstrap/protocol.md:51 | A placed entry lies strictly below the destination, at its own parts |
| InstallTheorems.StagedItemsArePrefixFree | tests/protocol/engine.mjs:411-423 | Once staging succeeded no placed file lies inside another |
| InstallTheorems.PlacingIsOverlay | tests/protocol/engine.mjs:452-482 | Error-free placing gives exactly the tree before, overlaid by the indexed files with their digests and the directories on the way |
| InstallSafety.PlacedRunIsOverlay | bootstrap/protocol.md:51-58 | A placed run ends with the initial tree (of a managed destination without its skills), the indexed files, the marker, and nothing else |
| InstalledFiles.PlacedRunInstallsTheLists | tests/protocol/engine.mjs:377-512 | After a placed run every entry of the skills and of the supporting files stands below the destination, at the parts of its path after payload/skills/, with its digest, and both lists are what is counted; every other new or changed file is the marker, every new directory leads to an entry, and what is gone stood in the skill directory of an entry of a marked destination |
| InstallSafety.RefusedRunLeavesTree | bootstrap/protocol.md:94 | On an unmanaged destination where failing is safe and the marker's name free, a refused run whose clean-ups succeed leaves the tree exactly as it was, whatever stands in the way and whatever the other faults |
| InstallSafety.RefusedManagedRunExactly | bootstrap/protocol.md:58-155 | A refused managed run without restore-failed changes the tree in exactly three cases: an interrupted removal with something gone, a failed placement over skills with a link or beside a temporary file left behind, or a complete placement whose marker name was taken |
| InstallSafety.RefusedAfterReplacingExactly | tests/protocol/engine.mjs:505-512 | After a complete placement a managed run refuses exactly when the marker's temporary name is taken, and leaves exactly the overlay |
| InstallSafety.MissingSkillRefuses | tests/protocol/engine.mjs:440-450 | A run on a managed destination that lacks an indexed skill is refused with E_INTERRUPTED at MATERIALIZE, the tree unchanged |
| NoReport.RunWithoutReportExactly | bootstrap/protocol.md:66 | A run ends without a report exactly when the check of its offer throws, or staging does, or finalising its destination throws past the report: every such throw is listed |
| NoReport.ManagedRunWithoutReportExactly | bootstrap/protocol.md:66 | A managed run ends without a report exactly when staging, clearing the staging area, a copy with another protocol code, or the marker throws |
| NoReport.UnmanagedThrowsExactly | tests/protocol/engine.mjs:483-512 | Finalising an unmanaged destination throws past the report exactly for a removal of the undo, such a copy, clearing the staging area, or the marker |
| RefusalTable.TableHoldsExactly | bootstrap/protocol.md:96-110 | A refusal is in the documented table exactly when it is not that of a badly confirmed destination |
| EarlyRefusals.RowExitsAndStates | bootstrap/protocol.md:98-110 | Row i of the table exits with i + 1 and has the states documented |
| EarlyRefusals.RefusedRunExitsByRow | bootstrap/protocol.md:94-110 | Every refused run exits with the place of its code in the table, at one of that row's states or one of the two beyond it |
| EarlyRefusals.CapabilitiesAndTrustExactly | tests/protocol/engine.mjs:272-313 | Before a destination is planned: the code and state for each lack of the host and each fault of the offer, and no report when a check throws |
| EarlyRefusals.WalkProblemExactly | tests/protocol/engine.mjs:122-143 | The plan-time walk ends at the first component that is there and no directory, a link and a file giving different codes |
| EarlyRefusals.PlanningExactly | tests/protocol/engine.mjs:316-335 | A destination must be stated as absolute and walkable, or be asked for when it is not known and there are candidates |
| EarlyRefusals.ConfirmationExactly | tests/protocol/engine.mjs:337-358 | An unapproved trust root is refused first, then a missing answer, then one that is relative or meets an obstacle |
| EarlyRefusals.ChosenExactly | tests/protocol/engine.mjs:272-358 | Which destination a run works on, and exactly when it gets there |
| EarlyRefusals.ObjectionsExactly | tests/protocol/engine.mjs:361-385 | No staging area, then the first entry of all five lists with an unsound or repeated path, then an installed entry outside payload/skills/ |
| EarlyRefusals.ModifiedRefusedExactly | tests/protocol/engine.mjs:390-409 | A destination without a recognised marker is refused exactly when a readable file at an installed entry's place has other bytes |
| EarlyRefusals.StagingExactly | tests/protocol/engine.mjs:418-424 | Staging succeeds exactly when no copy throws and no file is to stand inside another |
| EarlyRefusals.StagingRefusalsExactly | tests/protocol/engine.mjs:411-436 | A run that may copy ends, tree unchanged, interrupted when staging fails, without a report at the first staged file not readable, with a mismatch at VERIFY at the first with other bytes, and finalises otherwise |
| LateRefusals.ObstacleEndsPlacement | tests/protocol/engine.mjs:156-182 | A link or a file in the way of a target ends its placement before anything is made |
| LateRefusals.ClearPlacement | tests/protocol/engine.mjs:192-220 | Where nothing is in the way, which error a placement ends with, in the order of its steps |
| LateRefusals.RemovalThrowsExactly | tests/protocol/engine.mjs:497 | Removing a path throws exactly where a directory stands, or a file above it |
| LateRefusals.SkillDirsExactly | tests/protocol/engine.mjs:386-388 | The skill directories are the first parts of the installed files, each once, in order |
| LateRefusals.FailedPlacementRefuses | tests/protocol/engine.mjs:483-504 | The refusal that stands for each error of placement on an unmanaged destination undone without a throw |
| LateRefusals.FailedReplacementRefuses | tests/protocol/engine.mjs:483-504 | The same on a managed destination, with restore-failed exactly when a step of the restore throws |
| RefusalTable.FailureLeavesDestination | tests/protocol/engine.mjs:493-499 | On the empty tree a failed first copy leaves the destination directory behind |
| RefusalTable.UnreadableFileIsLost | tests/protocol/engine.mjs:392-409 | Every failed run whose clean-ups succeed and undo does not throw removes a file at an indexed path that cannot be read |
| RefusalTable.UnreadableFileIsRemoved | tests/protocol/engine.mjs:392-498 | With a link above the first file and an unreadable second one, the run writes nothing, refuses, and the second file is gone |
| RefusalTable.RelativeConfirmationIsUndocumented | tests/protocol/engine.mjs:343-355 | A relative confirmed destination is refused with a pair outside the table |
| Transaction.UnsafeRefusalChangesTree | tests/protocol/engine.mjs:483-504 | Where failing is not safe and every indexed path can be removed, some faults whose clean-ups succeed end in a refusal and a changed tree |
| Transaction.LeftoverRefused | tests/protocol/engine.mjs:209-219 | Where the first file is not blocked, a temporary file that cannot be removed is left behind by a refusal |
| Transaction.PlantedNameRefusesAfterPlacing | tests/protocol/engine.mjs:222-512 | A planted temporary name is met only at the marker: refused with everything placed |
| Transaction.RefusalsLeaveTreeExactly | bootstrap/protocol.md:94 | For every tree: all refusals of a run about to write, clean-ups succeeding, leave the tree as it was if and only if there is nothing to place, or an indexed path cannot be removed, or failing is safe and the marker's name is free or never reached |
| Transaction.AllRefusalsLeaveTreeExactly | bootstrap/protocol.md:94 | For every tree, over all faults: the same if and only if there is nothing to place, or an indexed path cannot be removed, or failing is safe and the first file is blocked |
| Transaction.SomeRunCrashesExactly | bootstrap/protocol.md:66 | For every tree: a run whose other steps succeed can end without a report, under some walks, copies and re-reads, if and only if an indexed path cannot be removed, or nothing is to be placed and the destination is missing, or everything can be placed and the marker's name is a directory |
| Engine.Installer.EnsureWriteChain | tests/protocol/engine.mjs:156-182 | Walks the chain component by component, making what is missing, and stops as specified |
| Engine.Installer.WriteInValidatedDir | tests/protocol/engine.mjs:192-220 | Reserves the temporary name, copies and renames, with the specified error, and removes or leaves the temporary file |
| Engine.Installer.PlaceFile | tests/protocol/engine.mjs:458-475 | Walk, write and re-read end in the specified tree and error |
| Engine.Installer.PlaceAll | tests/protocol/engine.mjs:457-482 | The placing loop ends in the specified tree, error and count |
| Engine.Installer.PruneEmptyDirs | tests/protocol/engine.mjs:103-120 | Collects the directories, sorts them and removes the empty ones as specified |
| Engine.Installer.UndoUnmanaged | tests/protocol/engine.mjs:497-498 | Removes the created files, then prunes, as specified |
| Engine.Installer.BackUp | tests/protocol/engine.mjs:438-445 | Copies the skills one by one into the specified backup, or stops at the faulty step |
| Engine.Installer.RestoreBackup | tests/protocol/engine.mjs:484-492 | Removes the skills and copies them back, or marks the restore as failed |
| Engine.Installer.CheckExisting | tests/protocol/engine.mjs:392-409 | Finds a differing file exactly when there is one, and otherwise the set of files already there |
| Engine.Installer.StageAll | tests/protocol/engine.mjs:418-424 | Stages every file, or stops at the copy that throws |
| Engine.Installer.CheckStaged | tests/protocol/engine.mjs:430-436 | Re-reads the staged files up to the first that throws or differs |
| Engine.Installer.StageVerifyFinalize | tests/protocol/engine.mjs:411-512 | Preparing, staging, checking and finalising end in the specified tree, staging area and outcome, the throws past every handler included |
| Engine.Installer.CheckPaths | tests/protocol/engine.mjs:369-376 | Finds the first unsafe or repeated path |
| Engine.Installer.WalkPlan | tests/protocol/engine.mjs:122-143 | The plan-time walk, ending at the first missing component |
| Engine.Installer.FinishUnmanaged | tests/protocol/engine.mjs:457-504 | Placement with its undo ends in the specified tree |
| Engine.Installer.FinishManaged | tests/protocol/engine.mjs:438-492 | Backup, removal, placement and restore end in the specified tree |
| Engine.Installer.WriteManagedMarker | tests/protocol/engine.mjs:222-232 | The marker's write and rename end in the specified tree and outcome |
| Engine.Installer.FinalizeAll | tests/protocol/engine.mjs:438-512 | Replacement or placement, then clearing and the marker, or undo, clearing and refusal, as specified |
| Engine.Installer.Refuse | tests/protocol/engine.mjs:563-580 | Marks the refusal on the trace: on its own entry, on MATERIALIZE after dropping VERIFY, or as a new one |
| Engine.Installer.Conclude | tests/protocol/engine.mjs:429-580 | The entries after MATERIALIZE end in the specified trace, for every outcome that is reported |
| Engine.Installer.RunProtocol | tests/protocol/engine.mjs:251-602 | The imperative run ends in the tree, staging area, outcome and trace of the specification |
| Engine.Installer.RunOffer | tests/protocol/engine.mjs:277-313 | The run on an offer is the run with the verdict of the envelope and index checks and the index's entries |
| Coercion.TextExactly | scripts/opencode-plugin/csm-continue-core.mjs:25 | String(value) of a parsed value yields a text exactly when no object with an own toString field is met, at any depth of arrays |
| Coercion.ScalarTexts | scripts/opencode-plugin/csm-continue-core.mjs:25 | The text of each kind of value that is no array |
| Coercion.SingleItemText | scripts/opencode-plugin/csm-continue-core.mjs:25 | The text of an empty list is empty, that of one item the item's own, null leaving an empty place |
| Coercion.ArrayTextJoins | scripts/opencode-plugin/csm-continue-core.mjs:25 | The text of two lists in a row is their texts with a comma between |
| Continuation.DigestDeterminesRecord | scripts/opencode-plugin/csm-continue-core.mjs:35-51 | Two records have the same digest if and only if they mean the same, under a collision-free hash |
| Continuation.ReadinessExactly | scripts/opencode-plugin/csm-continue-core.mjs:95-107 | The guard is 2 exactly when a task is unfinished, an active task is listed or the lifecycle is outstanding, and 0 otherwise |
| Continuation.ContinuesExactly | scripts/opencode-plugin/csm-continue-core.mjs:120-138 | A verdict is to continue exactly when nothing kills or pauses the run, work is left, the budget is not spent and the digest is new; an unrecognised guard never arises |
| Verdicts.VerdictsExactly | scripts/opencode-plugin/csm-continue-core.mjs:53-138 | Every verdict by the words themselves: the kill switch first, then no work, a pause at one of four places, a spent budget, an unchanged digest, and otherwise the resume command with its paths or placeholders |
| Verdicts.KillSwitchExactly | scripts/opencode-plugin/csm-continue-core.mjs:27-121 | For a setting read as a word with white space around it, the verdict is the kill switch exactly when the word is none of the seven off words in any case, or the mode is off in any case |
| Verdicts.RemainingExactly | scripts/opencode-plugin/csm-continue-core.mjs:95-107 | What is left, listed: open tasks of the record and then of the plan, active tasks and the lifecycle word, each behind its label |
| Verdicts.OpenTasksConcat | scripts/opencode-plugin/csm-continue-core.mjs:97-100 | The open tasks of two lists in a row are those of the first, then those of the second |
| Verdicts.OpenTaskAlone | scripts/opencode-plugin/csm-continue-core.mjs:97-100 | One task is open exactly when its status is none of the eight final words, and the listing throws exactly when that status has no text |
| Verdicts.TaskIdExactly | scripts/opencode-plugin/csm-continue-core.mjs:92 | An open task is named by its taskId, else its id, else a question mark |
| Continuation.VerdictThrowsExactly | scripts/opencode-plugin/csm-continue-core.mjs:25-138 | A handler throws exactly when a status, open task's id, active task or lifecycle value has no text, or, with work left and no kill switch, a value does before one that pauses, or the resume command has none |
| Continuation.ContinuesWithCommand | scripts/opencode-plugin/csm-continue-core.mjs:112-137 | The command of a continuation is the resume command for the record's own paths |
| Verdicts.PromptExactly | scripts/opencode-plugin/csm-continue.js:159-203 | A handler prompts exactly when it is to continue and can reach the session, with the command behind the fixed text, and keeps the digest of the record |
| Continuation.SameRecordSameVerdict | scripts/opencode-plugin/csm-continue-core.mjs:3-8 | The same record and tasks, read with fields in any order, give the same verdict, reason and command |
| Continuation.NumeralIsUnique | scripts/opencode-plugin/csm-continue.js:35 | A text is read as spaces, sign, digits and the rest in one way |
| Continuation.DocumentedMaxExactly | docs/completion-supervisor.md:75-76 | The maximum is the documented one (a whole non-negative number, else the default) for exactly the settings that are not such a number, other than the default, followed by other text |
| Continuation.MissingMaxIsDefault | docs/completion-supervisor.md:75-76 | A missing setting gives the default |
| Continuation.TrailingTextIsTaken | scripts/opencode-plugin/csm-continue.js:34-37 | The setting 12 apples gives 12, not the documented default |
| Supervisor.ContinuePlugin.constructor | scripts/opencode-plugin/csm-continue.js:180-186 | A fresh budget with the maximum of the environment |
| Supervisor.ContinuePlugin.Decide | scripts/opencode-plugin/csm-continue.js:192-199 | The verdict on a record under a copy of the budget, and the record's digest |
| Supervisor.ContinuePlugin.HandleIdle | scripts/opencode-plugin/csm-continue.js:192-201 | Deciding and issuing take the machine's idle step and leave the budget alone |
| Supervisor.ContinuePlugin.PromptSettled | scripts/opencode-plugin/csm-continue.js:201-204 | A settled prompt takes the machine's settle step: charged when delivered, forgotten otherwise |
| SupervisorRuns.PromptsAreConserved | scripts/opencode-plugin/csm-continue.js:188-205 | In every run each issued prompt succeeds once, fails once or is still pending |
| SupervisorRuns.BudgetIsLedger | scripts/opencode-plugin/csm-continue.js:201-204 | After every run the counter is the number of successes and the last digest is that of the last success; failures leave no trace |
| SupervisorRuns.BudgetBound | docs/completion-supervisor.md:73-77 | With at most k prompts unsettled at once, continuations plus pending prompts never exceed m + k - 1 |
| SupervisorRuns.BudgetBoundIsReached | scripts/opencode-plugin/csm-continue.js:192-204 | For every m and k at least 1 some run reaches m + k - 1 continuations |
| SupervisorRuns.BudgetHoldsExactly | docs/completion-supervisor.md:103-107 | The count stays within the maximum in all runs if and only if the maximum is 0 or handlers never overlap |
| SupervisorRuns.SpentBudgetIsQuiet | docs/completion-supervisor.md:73-77 | Once the budget is spent no prompt is issued, and at most the pending ones still succeed |
| SupervisorRuns.ZeroBudgetNeverPrompts | docs/completion-supervisor.md:73-77 | With a maximum of 0 no run ever issues a prompt |
| SupervisorRuns.KillSwitchIsQuiet | docs/completion-supervisor.md:53-66 | From the moment the kill switch stays on, no prompt is issued and only prompts already pending can still succeed |
| Verdicts.SwitchedOffIsQuiet | docs/completion-supervisor.md:53-66 | The same for every run in which CSM_CONTINUE_KILL stays set to anything but an off word, or the mode to off |
| SupervisorRuns.NoRecordRepeatsBeyondOverlap | docs/completion-supervisor.md:78-83 | With at most k prompts unsettled, no k + 1 consecutive continuations carry one digest |
| SupervisorRuns.RepeatBoundIsReached | scripts/opencode-plugin/csm-continue.js:192-204 | For every m at least 1 and every k some run with at most k prompts unsettled continues one record k times in a row |
| SupervisorRuns.SequentialRunsProgress | docs/completion-supervisor.md:78-83 | Without overlap, consecutive continuations are made on records that differ in meaning |
| SupervisorRuns.OverlapRepeatsRecord | scripts/opencode-plugin/csm-continue.js:192-204 | Two overlapping handlers continue the same record twice |
| SupervisorRuns.NoProgressStopHoldsExactly | docs/completion-supervisor.md:103-107 | No record is continued twice in a row, in all runs, if and only if the maximum is 0 or handlers never overlap |
| Discovery.FirstOfNewest | scripts/opencode-plugin/csm-continue.js:103-104 | The stable sort puts first the earliest candidate of greatest time |
| Discovery.CollectCandidates | scripts/opencode-plugin/csm-continue.js:87-101 | The loop collects exactly the live records in listing order, and throws exactly when some listed status has no text |
| LiveRecords.LiveExactly | scripts/opencode-plugin/csm-continue.js:52-101 | A listed file is live exactly when it is a json file other than the pointer, holds an open build state of a known schema whose status does not end the run, and was written at a positive time no longer ago than allowed; a status without text is what throws |
| LiveRecords.FreshnessExactly | scripts/opencode-plugin/csm-continue.js:85-86 | The allowed age is the number the setting starts with when above zero, and six hours otherwise |
| Discovery.DiscoverNewest | scripts/opencode-plugin/csm-continue.js:87-105 | Returns the newest live record, first listed on ties; nothing exactly when none is live |
| Discovery.DiscoverBuildState | scripts/opencode-plugin/csm-continue.js:75-106 | The file that CSM_CONTINUE_RECORD points at, or active.json when it is unset or empty, wins as it is whenever it holds an object, whatever else is on the disk; only otherwise the newest live record of the directory, or nothing |
| Discovery.ExplicitRecordAsFound | scripts/opencode-plugin/csm-continue.js:60-70 | What is found is exactly the object in the file the settings point at, and the comment's promise is kept exactly when that is an unfinished build state or there is none |
| Discovery.ExplicitRecordMayBeFinished | scripts/opencode-plugin/csm-continue.js:60-70 | Whatever the settings, a finished build state is returned when they point at it |
| Discovery.ResolvePlanPath | scripts/opencode-plugin/csm-continue.js:110-128 | The record's own plan path, else the first listed plan of the same run, else none |
| LiveRecords.PairedExactly | scripts/opencode-plugin/csm-continue.js:119-125 | A plan is paired with a run when its name ends in -csm.json and it carries the run's id |
| Discovery.WithFieldMeans | scripts/opencode-plugin/csm-continue.js:137-141 | Spreading a record and setting a field changes its meaning there and nowhere else |
| Discovery.LocatedDigestExactly | scripts/opencode-plugin/csm-continue.js:136-193 | Located records share a digest exactly when content and both paths agree; the same content at another path counts as progress |

## Left out

- SHA-256, Ed25519, base64, `new URL`, `Date.parse` and DER keys are functions of the host; where a theorem needs it, that the hash has no collisions is a stated hypothesis, and a key that cannot be loaded gives its own failure code.
- Numbers in JSON are integers printed in decimal: fractions, exponents (from 1e21 on) and `-0` are not modelled.
- Continuation.DocumentedMaxExactly: numbers are unbounded, so the rounding of `parseInt` above 2^53 and its overflow to Infinity (which gives the default) are not modelled.
- Continuation.Lower: only units whose lower case is ASCII are lowered, which is all that the comparisons with ASCII words can see; the text of a lifecycle limitation may differ in other letters.
- The bin's argument dispatch, standard output and exit codes, and the decoding of index text that is not valid UTF-8.
- TrustPolicy.ValidatePolicy: the origin argument, which the engine never passes, is not modelled; the envelope, keyring and index of an offer are given as parsed.
- What a symbolic link leads to: nothing is found below a link, and reading through one finds nothing.
- Other writers to the destination, and transports that write anything but their target, are excluded; staging and backup lie outside the destination.
- Managed.ManagedRestoresExactly: copying one skill directory is one step; this shows only in trees of runs that report restore-failed.
- Managed.FailedReplacementExactly: directories have no mode; the restore makes every directory with mode 0700, so a directory that had another mode does not get it back.
- Nodes that are neither directory, file nor link, and directories that cannot be listed or searched (a failing check of a component is a fault of the schedule, a file that cannot be read a file of the tree).
- A transport's error may carry a code of the protocol but no state of it; what a run leaves when it ends without a report is modelled but no theorem speaks of it.
- Transaction.RefusalsLeaveTreeExactly: the temporary name is taken to differ from every name in an indexed path, as a fresh random one does.
- File modes of placed files: the engine sets but never compares them, although `bootstrap/protocol.md:128` says that they must equal the index.
- The report's capability, availability, reload and backup-path fields, and of its limitations all but `restore-failed`.
- Destinations are given as normalised absolute component paths; Windows path rules are left out.
- The records an idle handler reads before it decides are arbitrary values, so that nothing is assumed of files that change between its reads; a prompt call that throws at once counts as issued and failed.
- The tasks a handler takes from its plan file (`scripts/opencode-plugin/csm-continue.js:149-157`) are an arbitrary list.
- Listings, modification times and the clock of discovery are given as functions of the path; path joining there is one too.
- The installer of the plugin, the command-line driver, orchestration, egress, scheduling, plan and build libraries, and the skills' prose are not part of this model.
