# Rawframe repository tools: verified model

This project models the parts of Rawframe's three repository tools (`rf_evidence`, `rf_archcheck`
and `rf_verify`) that have to be right for reasons a reader cannot see in one function, and proves
what the tools promise about them. Each source component has its own module:

- **The blob store** (`BlobNames`, `BlobProtocol`, `BlobSafety`, `BlobProgress`, `BlobRefusals`, `ExclusiveFiles`):
  content-addressed files, written by any number of processes at once. A file system of names, inodes
  and bytes, and one step per system call of one run; runs interleave freely, stop for good between
  any two calls, and read sources that change at any moment. SHA-256 is an unknown function of which
  only the shape of the result is used.
- **Canonical JSON** (`Utf`, `JcsOrder`, `JcsFallback`, `CanonicalValue`, `CanonicalWriter`, `CanonicalReader`,
  `CanonicalGate`, `CanonicalRecord`, `CanonicalShortest`, `CanonicalGrammar`): the integer-only subset of RFC 8785, its UTF-16 member order
  computed over UTF-8 bytes, its serializer, and the gate that admits only canonical bytes.
- **Metrics, evaluation and the evidence ledger** (`Rescale`, `ScaledComparison`, `Policy`,
  `Evaluator`, `AttemptPlan`, `EvidenceSet`).
- **Coverage** (`McdcCoverage`, `BranchRegions`).
- **Graphs** (`ModuleGraph`, `BuildLane`).
- **Printers and scanners** (`ArgumentQuoting`, `JsonReports`, `BundleScan`, `BundleDefects`, `Base64`,
  `UnifiedDiff`, `DiffExactness`, `DiffRefusals`, `RuleSeal`, `SealBits`).

`Options`, `Lexicographic`, `Permutations`, `Decimals` and `Sorting` hold what several of them share.

Loops of the source are methods with loops here, and objects it mutates are classes. Such a method is
proved equal to a specification function, and the lemmas beside it say what that function means.
Bytes of strings are characters below 256. A result that the source gives as an error with a message
is a rejection kind without the message.

## Where the code does not do what it says or what one expects

- `get` calls a blob corrupt when its second read falls short, and does not ask why: a read that fails
  on a perfectly good blob is reported as corruption. `BlobSafety` splits the reports exactly: while
  verifying, corruption is reported exactly of blobs that were wrong from the start
  (`VerifyingBlamesExactlyOldCorruption`); from the second read, exactly when that read fell short, and
  then the blob is good (`ReadingBlamesExactlyAShortRead`). `BlobProgress.GoodBlobCalledCorrupt`: it can
  happen to a good blob exactly when the blob is not empty.
- `jcsKeyLess` says that its raw-byte fallback keeps the ordering total. With a malformed key beside
  well-formed ones the comparison can be cyclic (`JcsOrder.FallbackIsCyclic`).
  `JcsFallback.OrderSurvivesMalformedKeys` says beside which sets of malformed keys it is a strict
  total order: those with no key whose bytes, from the first undecodable one on, lie strictly between
  EE 80 80 and F4 8F BF BF. Keys that reach a value are checked UTF-8.
- `sealRules` says that no rule text may contain its two separators, so that the payload cannot be
  forged. `parseRuleCorpus` does not forbid them in a title, and two adjacent rules can be written as
  one (`RuleSeal.FusedRulesKeepTheSeal`). `RuleSeal.PayloadIsSharedExactly`: an accepted rule set shares
  its payload with another exactly when it has two rules or more, or its single title hides a later
  rule. In a rule set read from a file a string has at most 8192 bytes, so two rules with long titles
  cannot be fused there (`RuleSeal.FusedFitsAFile`, `RuleSeal.FilePayloadIsSharedExactly`).
- `mergeRegion` says that it adds saturating rather than wrapping. Its comparison itself overflows when
  the count added is negative, which the export reader admits; `BranchRegions.SaturatingAdd` has the
  exact condition, and `BranchRegions.RegionList.ReadBranches` the one for a whole list: a negative
  count in a record that is not the first of its span. What a signed overflow leaves is not defined,
  and the model stops there. Folding the list of a file's expansions, merged before, into its own list
  can overflow where neither list does, and loses what was cut off the second list exactly where the
  first sums below zero (`BranchRegions.FoldedTallyExactly`).
- A policy that cannot be bound is refused with the reason of its first failing entry, so the refusal,
  unlike the receipt, depends on the order of the entries (`Policy.RefusalDependsOnOrder`,
  `Policy.RefusalsOverAllOrders`).
- `quoteWindowsArgument` returns an empty argument unquoted, so it vanishes from the command line;
  `ArgumentQuoting.CommandLineSplitsBack` gives the exact condition under which a command line
  survives.
- The diff reader takes an added line that begins `++ ` for a file header and a removed line that
  begins `-- ` for the end of a hunk; `UnifiedDiff.HunkReadsExactly` gives the exact condition for one
  hunk and `DiffExactness.DiffReadsExactly` for a whole diff, where lines misread into other files never
  make up for those that are lost.
- `stripDiffPrefix` says that a diff printed without prefixes is handled. It takes a leading `a/` or
  `b/` off whether or not a prefix was printed, so a file `a/x.cpp` printed without one is recorded as
  `x.cpp`. `UnifiedDiff.NameIsKeptExactly` says which printed names are read as the files they stand
  for, and `DiffExactness.DiffReadsExactly` includes the condition.
- The two JSON printers differ on bytes 0x08 and 0x0C and on nothing else
  (`JsonReports.ReportsAreInMaintainedForm`).
- A bound moved up, or an observation moved down, by a directed rounding can pass a breach;
  `ScaledComparison.VerdictIsTrueComparison` says exactly when a verdict is the true comparison.
- Don't-care conditions break the usual n + 1 lower bound of MC/DC from three conditions on, and only
  from there (`McdcCoverage.RowBoundHoldsUpToTwo`); `McdcCoverage.FewestRows` has the bound that is
  attained.

## Model

| member | source | states |
|---|---|---|
| BlobNames.ValidateBlobDigest | tools/rf_evidence/src/blob_store.cpp:105-123 | A digest text is accepted exactly when it is the prefix and sixty-four lowercase hexadecimal digits |
| BlobNames.PathFor | tools/rf_evidence/src/blob_store.cpp:134-143 | Exactly for `sha256:` and sixty-four lowercase hexadecimal digits, the path `root/sha256/`, two digits, `/`, the others; any other text is an invalid digest |
| BlobNames.DestinationsAreInjective | tools/rf_evidence/src/blob_store.cpp:134-143 | Different digests have different paths |
| BlobNames.StagedNamesAreNeverDestinations | tools/rf_evidence/src/blob_store.cpp:38-48 | No staged name of any process, ordinal or attempt is the path of any digest |
| BlobSafety.StepsAreConfined | tools/rf_evidence/src/blob_store.cpp:213-357 | Every system call of every run creates only staged-shaped names, appends only to its own staged file, links only its staged file to its own digest's path, and unlinks only its staged name |
| BlobSafety.EffectsKeepBlobs | tools/rf_evidence/src/file_security.cpp:135-277 | No call of any run alters, replaces or removes what is at a digest's path |
| BlobSafety.EffectsKeepOthers | tools/rf_evidence/src/blob_store.cpp:213-357 | What another run has established about its staged file, and what it has confirmed, survives every call of this one |
| BlobSafety.StepKeepsOwnRun | tools/rf_evidence/src/blob_store.cpp:213-442 | A run knows at each new point of put or get what that point stands for, and at a refusal what in the file system or the staged copy bears it out |
| BlobSafety.NewBlobsAreGood | tools/rf_evidence/src/blob_store.cpp:297-334 | The one call that adds a digest's path makes it lead to bytes that hash to that digest |
| BlobSafety.StepKeepsInvariant | tools/rf_evidence/src/blob_store.cpp:213-442 | Starting a run, one call of one run, and the interruption of a run all keep the whole system's invariant |
| BlobSafety.HistoryKeepsInvariant | tools/rf_evidence/src/blob_store.cpp:213-442 | The invariant holds after any history, from any file system earlier runs left |
| BlobSafety.BlobsAreImmutable | tools/rf_evidence/src/blob_store.cpp:297-357 | In every history, a file at a digest's path is the same file with the same bytes ever after |
| BlobSafety.StoreStaysSound | tools/rf_evidence/src/blob_store.cpp:297-357 | From a store whose blobs all hash to their names, every history keeps it so |
| BlobSafety.OnlyGoodBlobsAppear | tools/rf_evidence/src/blob_store.cpp:297-357 | A blob that was not there before hashes to its name, whatever damage the store began with |
| BlobSafety.PublishedBlobsStay | tools/rf_evidence/src/blob_store.cpp:359-365 | Once a put has reported success, a file of the length and digest it measured is at its path for good |
| BlobSafety.FetchedBytesAreTheBlob | tools/rf_evidence/src/blob_store.cpp:403-445 | The bytes a get returns hash to the digest asked for and are the bytes at its path from then on |
| BlobSafety.GetBlamesOnlyOldCorruption | tools/rf_evidence/src/blob_store.cpp:367-401 | While verifying, a get reports corruption only of a blob that was already wrong before the history began |
| BlobSafety.VerifyingBlamesExactlyOldCorruption | tools/rf_evidence/src/blob_store.cpp:367-401 | When verification has read a whole blob, its verdict is corruption if and only if the blob disagreed with its name from the start |
| BlobSafety.ReadingBlamesExactlyAShortRead | tools/rf_evidence/src/blob_store.cpp:423-445 | The verdict of the second read is corruption if and only if that read fell short of the verified length, and the blob is good either way |
| BlobProgress.GoodBlobCalledCorrupt | tools/rf_evidence/src/blob_store.cpp:403-445 | From any store, some history has a get report a given good blob within the size limit as corrupt if and only if that blob is not empty |
| BlobProgress.GetCanSucceed | tools/rf_evidence/src/blob_store.cpp:403-445 | An undisturbed get of a good blob returns its bytes |
| BlobSafety.PutBlamesOldCorruptionOrACollision | tools/rf_evidence/src/blob_store.cpp:343-357 | A put reports a corrupt stored blob only for old corruption or a hash collision |
| BlobProgress.PutIsIdempotent | tools/rf_evidence/src/blob_store.cpp:297-365 | From any store that already holds the content, some second put of the same bytes ends in success with every name, every destination and the bytes of every file as they were |
| BlobSafety.TakenPathAddsNoDestination | tools/rf_evidence/src/blob_store.cpp:297-365 | In every history, a put whose path was taken at any earlier moment neither adds nor removes a destination |
| BlobProgress.PutCanSucceed | tools/rf_evidence/src/blob_store.cpp:213-365 | From any store without the blob, an undisturbed put of any source within the limit publishes exactly its bytes and leaves no staged name |
| BlobRefusals.GetRefusalsExactly | tools/rf_evidence/src/blob_store.cpp:367-445 | For each reason, some get of a digest can end with it, whatever runs beside it, if and only if the store bore it out at the start: invalid exactly for a malformed digest, missing exactly where its path is absent, over the limit exactly where its blob is too long, corrupt, where the path is taken, exactly of a blob that is wrong or not empty |
| BlobRefusals.MissingWasAbsent | tools/rf_evidence/src/blob_store.cpp:380-383 | In every history, a get is told that its blob is missing only after it looked for a well-formed digest whose path was absent then and at every moment before |
| BlobRefusals.InvalidDigestExactly | tools/rf_evidence/src/blob_store.cpp:367-371 | In every history, a get that ended was refused as invalid if and only if its digest is malformed |
| BlobRefusals.FailedVerificationHadOtherBytes | tools/rf_evidence/src/blob_store.cpp:297-308 | In every history, a put refused for failed verification had given up a staged copy whose bytes differ in length or digest from what pass one measured |
| BlobRefusals.ChangedSourceIsRefused | tools/rf_evidence/src/blob_store.cpp:297-308 | From any store, for any source that changes between the two passes, some put is refused for failed verification with every name as it was |
| BlobRefusals.GivingUpExactly | tools/rf_evidence/src/blob_store.cpp:297-341 | For each reason, some put of a content can give up its staged copy with it if and only if it is a failure of the system, a copy too long or not what was measured, or a destination that was no ordinary file from the start |
| BlobRefusals.ConfirmingEndsExactly | tools/rf_evidence/src/blob_store.cpp:343-357 | For each reason, reading the blob already there can end a put with it if and only if it is a failure of the system, or that blob was too long or differed from the start |
| BlobRefusals.PutRefusalsExactly | tools/rf_evidence/src/blob_store.cpp:213-365 | A put can end with each reason that the source, the system or a changed copy gives and with no other, and where its path is taken by a file with corruption if and only if that file disagreed from the start |
| BlobRefusals.CollisionMeansFiveTakenNames | tools/rf_evidence/src/blob_store.cpp:243-262 | In every history, a put refused for a staging collision found five staged names taken, one attempt after another |
| BlobRefusals.FiveTakenNamesCollide | tools/rf_evidence/src/blob_store.cpp:243-262 | From any store in which five such names are taken, some put of the content is refused for it |
| ExclusiveFiles.WrittenInFull | tools/rf_evidence/src/file_security.cpp:172-210 | Whatever short writes and signals occur, a write succeeds exactly when it took every byte |
| ExclusiveFiles.ExclusiveFile.Create | tools/rf_evidence/src/file_security.cpp:135-170 | An existing name is a collision and nothing changes; success is one new empty file at a new name |
| ExclusiveFiles.ExclusiveFile.Write | tools/rf_evidence/src/file_security.cpp:172-210 | The file grows by a prefix of the bytes, by all of them exactly on success, and nothing else changes |
| ExclusiveFiles.ExclusiveFile.Close | tools/rf_evidence/src/file_security.cpp:225-243 | The handle is released whether or not the close reports an error |
| ExclusiveFiles.PublishWithoutReplacement | tools/rf_evidence/src/file_security.cpp:245-277 | A destination that exists is never touched; success moves the staged name to it, and a collision is reported exactly where both names exist; no contents change |
| Utf.DecodeCodePoint | tools/rf_evidence/src/canonical_json.cpp:20-63 | Decodes exactly the well-formed sequences of RFC 3629: shortest form, no surrogates, nothing past U+10FFFF |
| Utf.DecodeEncode | tools/rf_evidence/src/canonical_json.cpp:20-63 | Every scalar's encoding decodes to it, whatever follows |
| Utf.EncodeDecode | tools/rf_evidence/src/canonical_json.cpp:20-63 | What decodes is the encoding of what it decodes to, so no scalar has two encodings |
| Utf.CheckUtf8 | tools/rf_evidence/src/canonical_json.cpp:215-224 | The scan over a string accepts exactly the texts made of well-formed sequences |
| Utf.Utf16IsInjective | tools/rf_evidence/src/canonical_json.cpp:69-87 | Valid texts with the same UTF-16 units are equal |
| JcsOrder.NextCodeUnit | tools/rf_evidence/src/canonical_json.cpp:69-87 | Each call takes the next UTF-16 unit, the second of a surrogate pair from the pending one |
| JcsOrder.JcsKeyLess | tools/rf_evidence/src/canonical_json.cpp:440-463 | On valid keys it is the comparison of the two UTF-16 encodings; on others it is the streaming comparison with its fallback |
| JcsOrder.RawLess | tools/rf_evidence/src/canonical_json.cpp:440-463 | The fallback compares the raw bytes |
| JcsOrder.ComparisonIsKeyLess | tools/rf_evidence/src/canonical_json.cpp:440-463 | On valid keys the streaming comparison equals comparing the full UTF-16 encodings (RFC 8785 section 3.2.3) |
| JcsOrder.KeyLessIsStrictTotalOrder | tools/rf_evidence/src/canonical_json.cpp:440-463 | That order is irreflexive, transitive and total on valid keys |
| JcsOrder.FallbackIsCyclic | tools/rf_evidence/src/canonical_json.cpp:437-463 | Three keys, one of them malformed, each less than the next in a circle |
| JcsFallback.ComparesByScalars | tools/rf_evidence/src/canonical_json.cpp:437-463 | For any two texts, valid or not, the loop over units decides by the first two scalars that differ, and where one side does not decode by the bytes from there on |
| JcsFallback.CodesCompare | tools/rf_evidence/src/canonical_json.cpp:437-463 | Any two keys with no undecodable rest in that gap, valid or not, compare as their codes do, which are number strings in lexicographic order |
| JcsFallback.OrderSurvivesMalformedKeys | tools/rf_evidence/src/canonical_json.cpp:437-463 | The valid keys and any set of malformed keys, be it infinite, are strictly totally ordered if and only if no malformed one's bytes from its first undecodable one on are strictly between EE 80 80 and F4 8F BF BF |
| JcsFallback.GapEnds | tools/rf_evidence/src/canonical_json.cpp:437-463 | Those two ends; a lone byte FF is outside the gap and F0 inside it |
| CanonicalValue.SortedAscends | tools/rf_evidence/src/canonical_json.cpp:416-424 | An object's members ascend strictly and are the members given |
| CanonicalValue.MakeObjectIgnoresOrder | tools/rf_evidence/src/canonical_json.cpp:416-424 | Every order of the same distinct members makes the same object |
| CanonicalValue.SortingAscendingChangesNothing | tools/rf_evidence/src/canonical_json.cpp:416-424 | Members already in order are left as they are |
| CanonicalValue.Find | tools/rf_evidence/src/canonical_json.cpp:426-438 | Binary search in a sorted object agrees with a linear search, present or absent |
| CanonicalWriter.Output.AppendEscapedString | tools/rf_evidence/src/canonical_json.cpp:91-128 | Appends the quoted text |
| CanonicalWriter.Output.AppendCanonical | tools/rf_evidence/src/canonical_json.cpp:334-380 | Appends the canonical text of any value and changes nothing before it |
| CanonicalWriter.SerializeCanonical | tools/rf_evidence/src/canonical_json.cpp:505-509 | The canonical text of a value, built by appending |
| CanonicalShortest.EscapeIsCanonical | tools/rf_evidence/src/canonical_json.cpp:91-128 | A byte from 20 on but the quote and the backslash is written as itself, so is no other; the seven bytes of the standard's table are written by their escape of two characters, and every other one by a `\u` escape with lowercase digits |
| CanonicalShortest.ShortEscapesRead | tools/rf_evidence/src/canonical_json.cpp:205-226 | The escapes of two characters the reader takes are those seven and that of the slash |
| CanonicalShortest.EscapesAreShortest | tools/rf_evidence/src/canonical_json.cpp:91-128 | No way to write a text between quotes that the reader takes, whatever escapes it uses, is shorter than the canonical one |
| CanonicalShortest.EscapeIsUnique | tools/rf_evidence/src/canonical_json.cpp:91-128 | Of the ways to write one byte, the canonical one is the only one of its length with lowercase digits |
| CanonicalShortest.CanonicalIsShortest | tools/rf_evidence/src/canonical_json.cpp:511-522 | No text that reads as a record is shorter than that record's canonical bytes |
| CanonicalReader.CheckIntegerToken | tools/rf_evidence/src/canonical_json.cpp:134-169 | Accepts exactly an optional minus and digits with no leading zero, no negative zero |
| CanonicalReader.IntegerTokensAreCanonical | tools/rf_evidence/src/canonical_json.cpp:134-204 | An accepted token is the one text of its value |
| CanonicalReader.IntegerTextIsToken | tools/rf_evidence/src/canonical_json.cpp:134-204 | Every safe integer's text is an accepted token of that value |
| CanonicalGate.CanonicalReads | tools/rf_evidence/src/canonical_json.cpp:181-380 | A value within the limits, serialized anywhere before a delimiter, reads back as itself and counts its own nodes |
| CanonicalRecord.ParsedRecordIsAdmissible | tools/rf_evidence/src/canonical_json.cpp:465-503 | Whatever the reader accepts has distinct valid keys, safe integers, and depth, node, member and string counts within the limits |
| CanonicalRecord.RecordRoundTrip | tools/rf_evidence/src/canonical_json.cpp:334-503 | Parsing the serialization of an admissible value within the byte limit gives that value back |
| CanonicalRecord.SerializationIsInjective | tools/rf_evidence/src/canonical_json.cpp:334-380 | Admissible values with one serialization are equal |
| CanonicalRecord.IngestCanonicalBytes | tools/rf_evidence/src/canonical_json.cpp:511-522 | Accepts a byte string exactly when it is the serialization of an admissible value, and returns that value |
| CanonicalRecord.NeverNoncanonical | tools/rf_evidence/src/canonical_json.cpp:511-522 | The reader itself never gives the refusal that the comparison with the serialization gives |
| CanonicalGrammar.RecordsAreReadExactly | tools/rf_evidence/src/canonical_json.cpp:181-332 | A byte string reads as a value if and only if it is the text of an object of the grammar of RFC 8259 with bare 64-bit integers, UTF-8 strings and distinct names, whatever its blanks and escapes, which means that value, and text and value are within every limit; over a limit such a text is refused for the limit |
| CanonicalGrammar.EscapesSpellUtf16 | tools/rf_evidence/src/canonical_json.cpp:205-226 | A `\u` escape, or a pair of them, stands for the one text whose UTF-16 is the code units it spells |
| Rescale.DivideStep | tools/rf_evidence/src/metric_registry.cpp:307-327 | One truncated division by ten with its correction continues the exact rounded division by every lower power |
| Rescale.OutsideStaysOutside | tools/rf_evidence/src/metric_registry.cpp:328-338 | A value that left the safe range is outside it at every later scale, so the early refusal is the right one |
| Rescale.IndivisibleStays | tools/rf_evidence/src/metric_registry.cpp:307-327 | A division that is inexact at one power is inexact at every higher one |
| Rescale.RescaleExact | tools/rf_evidence/src/metric_registry.cpp:293-339 | The digit-by-digit loop is one exact move by the power of ten: the floor, the ceiling or the exact value, refused exactly on inexactness under reject or a result out of range, with no 64-bit overflow on the way |
| ScaledComparison.MovedExactly | tools/rf_evidence/src/metric_registry.cpp:293-339 | That exact move gives the product at a finer scale and the declared bracket of the quotient at a coarser one; it is refused as invalid exactly when it must be exact and is not, and for the limit exactly out of range |
| ScaledComparison.OneSideStands | tools/rf_evidence/src/evaluator.cpp:110-130 | The side that stands is compared as it is, at its own scale, and the other is the exact move to that scale |
| ScaledComparison.VerdictIsTrueComparison | tools/rf_evidence/src/evaluator.cpp:110-130 | The verdict is the comparison of the two exact quantities if and only if the rounding is on the stricter side or does not carry the moved side, over less than one unit, onto a side it does not equal; in the remaining case a breach passes |
| ScaledComparison.ConservativeRulesNeverErr | tools/rf_evidence/src/evaluator.cpp:110-130 | Under reject, or rounding toward the stricter side, every verdict is the true one |
| ScaledComparison.RoundingUpABoundPassesABreach | tools/rf_evidence/src/evaluator.cpp:110-130 | A breach that passes under the other directed rounding |
| Policy.FindMetric | tools/rf_evidence/src/metric_registry.cpp:233-238 | The first metric declared under an identity and generation, or none |
| Policy.BindPolicyToRegistry | tools/rf_evidence/src/evaluation_policy.cpp:205-246 | Binds every entry in order, or refuses with the reason of the first entry that does not bind |
| Policy.KeysAreUnique | tools/rf_evidence/src/evaluation_policy.cpp:190-201 | Accepts exactly the policies in which no key occurs twice |
| Policy.BindingKeepsEntries | tools/rf_evidence/src/evaluation_policy.cpp:205-246 | A bound policy has the policy's own entries in order, each with the first metric of its identity and generation, stable and of a hard class, and with its own bound where observations move or the bound moved to the metric's scale where bounds do |
| Policy.EntryBindsExactly | tools/rf_evidence/src/evaluation_policy.cpp:205-246 | One entry is refused as invalid for want of such a metric, or with the reason its bound cannot be moved for, and with no other |
| Policy.BindingRefusedExactly | tools/rf_evidence/src/evaluation_policy.cpp:205-246 | A policy is refused for another registry generation, or for that reason of its first entry that does not bind |
| Policy.BindingKeepsPermutation | tools/rf_evidence/src/evaluation_policy.cpp:205-246 | Orders of the same entries bind to orders of the same bound entries |
| Policy.RefusalsOverAllOrders | tools/rf_evidence/src/evaluation_policy.cpp:205-246 | The reasons for which some order of the entries is refused are exactly the reasons of the entries that do not bind |
| Policy.RefusalDependsOnOrder | tools/rf_evidence/src/evaluation_policy.cpp:205-246 | A policy that is refused for one reason in one order and for another in the other |
| Evaluator.EvaluateCheck | tools/rf_evidence/src/evaluator.cpp:464-504 | One check against all runs equals its specification: the first impossible comparison, or the outcome and the observations in run order |
| Evaluator.RunPhase | tools/rf_evidence/src/evaluator.cpp:455-510 | One pass decides exactly the checks of one phase and touches no other |
| Evaluator.EvaluatePhases | tools/rf_evidence/src/evaluator.cpp:436-535 | The phase loop equals the specification: sorted checks, phases up to and including the first that fails |
| Evaluator.MarkSkipped | tools/rf_evidence/src/evaluator.cpp:512-516 | Exactly the checks of phases after the blocking one are marked as not run |
| Evaluator.CountChecks | tools/rf_evidence/src/evaluator.cpp:518-526 | The failed and not-run counts are the numbers of such checks |
| Evaluator.PassedIffEveryBoundMet | tools/rf_evidence/src/evaluator.cpp:436-535 | The verdict is passed exactly when every bound entry is met by every eligible run, with at least one run if there is any entry |
| Evaluator.ReceiptShape | tools/rf_evidence/src/evaluator.cpp:73-81 | The blocking phase is the least that fails; a check is not run exactly when its phase is later; every check that ran says failed exactly when its bound is unmet |
| Evaluator.ReasonsSayWhy | tools/rf_evidence/src/evaluator.cpp:464-504 | A failed check says that an observation is missing if and only if there is no run or some run does not report its metric, and otherwise that the bound is violated; a passed check gives no reason |
| Evaluator.ChecksListTheReports | tools/rf_evidence/src/evaluator.cpp:464-485 | A check that ran lists, in run order, one observation for each run that reports its metric, with that run's identity and the reported quantity itself when the bound moves or that quantity at the bound's scale when the observation moves; a skipped check lists none |
| Evaluator.ClassesDecideThePhase | tools/rf_evidence/src/evaluator.cpp:73-81 | Completeness checks are the first phase, hard ceilings among the others the last, and the rest the one between |
| Evaluator.ChecksStandInPhaseOrder | tools/rf_evidence/src/evaluator.cpp:437-450 | The checks stand by phase and within a phase by the bytes of their keys |
| Evaluator.EvaluationRefusedExactly | tools/rf_evidence/src/evaluator.cpp:455-485 | An evaluation is refused if and only if every phase before some check is met and that check is the first of its phase with a run that cannot be compared, and with the reason of its first such run |
| Evaluator.PassedIffTrulyMet | tools/rf_evidence/src/evaluator.cpp:436-535 | Where every metric rounds toward the stricter side, the verdict is passed if and only if every run reports, for every entry, a quantity that satisfies the bound as written |
| Evaluator.CountsAddUp | tools/rf_evidence/src/evaluator.cpp:519-535 | Passed, failed and not-run add up to the checks, and a passed verdict has neither of the last two |
| Evaluator.EvaluationIgnoresPolicyOrder | tools/rf_evidence/src/evaluator.cpp:436-535 | The whole receipt, or the refused comparison, is the same for every order of bound entries with distinct keys |
| Evaluator.PolicyOrderDoesNotMatter | tools/rf_evidence/src/evaluator.cpp:376-535 | Two orders of one policy with unique keys both bind or neither does, and when they bind the evaluations are equal |
| AttemptPlan.CoverIsContiguous | tools/rf_evidence/src/evidence_set.cpp:118-162 | N distinct ordinals cover 1 to N exactly when, sorted, they count from one |
| AttemptPlan.CheckScheduleAccounting | tools/rf_evidence/src/evidence_set.cpp:118-162 | Accepts exactly the plans with distinct identities, ordinals in bijection with 1 to N, no repetition above R, and every repetition from 1 to R attempted |
| AttemptPlan.WalkChain | tools/rf_evidence/src/evidence_set.cpp:164-192 | One walk is accepted exactly when it stays in the plan and ends within 64 links, and refused for the limit exactly when more than 64 links can be followed without meeting an attempt twice |
| AttemptPlan.CheckSupersedesChains | tools/rf_evidence/src/evidence_set.cpp:164-192 | Accepts exactly when every attempt's walk does, and otherwise refuses as the first listed attempt whose walk does not |
| AttemptPlan.CheckPlan | tools/rf_evidence/src/evidence_set.cpp:118-192 | Both checks together accept exactly the accounted plans whose chains end; one that is not accounted for is invalid, whatever its chains |
| AttemptPlan.RepeatedWalkNeverEnds | tools/rf_evidence/src/evidence_set.cpp:164-192 | A walk that meets an attempt twice has no end at all, so refusing it loses nothing |
| AttemptPlan.AcceptedPlansAreAcyclic | tools/rf_evidence/src/evidence_set.cpp:164-192 | In an accepted plan no attempt replaces itself, directly or through others |
| EvidenceSet.FirstDisagreement | tools/rf_evidence/src/evidence_set.cpp:80-112 | Empty exactly when all ten facts agree |
| EvidenceSet.ReadAttempts | tools/rf_evidence/src/evidence_set.cpp:366-429 | The first pass, attempt by attempt in ordinal order, up to the first refusal |
| EvidenceSet.EligibleIdentities | tools/rf_evidence/src/evidence_set.cpp:431-441 | The second pass lists the completed attempts that nothing supersedes, in order |
| EvidenceSet.Assemble | tools/rf_evidence/src/evidence_set.cpp:347-464 | Assembly equals its specification on every plan and every set of stored receipts |
| EvidenceSet.AssemblyIgnoresListingOrder | tools/rf_evidence/src/evidence_set.cpp:347-464 | Every listing of an accepted plan's attempts gives the same ledger or the same refusal |
| EvidenceSet.LedgerIsComplete | tools/rf_evidence/src/evidence_set.cpp:366-429 | Ordinal k stands in place k of the ledger, from 1 to N |
| EvidenceSet.LedgerRecordsTheAttempts | tools/rf_evidence/src/evidence_set.cpp:366-429 | Place k of the ledger has the identity, ordinal k + 1, repetition, receipt and replaced identity of a planned attempt, with the status its receipt states, or `no_receipt` if it has none |
| EvidenceSet.ReceiptsAgree | tools/rf_evidence/src/evidence_set.cpp:366-429 | Success means every receipt was read and all of them state the same ten facts |
| EvidenceSet.AgreementAssembles | tools/rf_evidence/src/evidence_set.cpp:347-464 | Readable receipts that agree, at least one of them, always assemble |
| EvidenceSet.AssemblyRefusedExactly | tools/rf_evidence/src/evidence_set.cpp:366-429 | Assembly is refused as invalid if no attempt has a receipt, and otherwise if and only if some receipt cannot be read or contradicts an earlier one, for the reason of the first such attempt by ordinal |
| EvidenceSet.EligibleExactly | tools/rf_evidence/src/evidence_set.cpp:431-441 | The eligible identities are exactly those recorded as completed that no planned attempt supersedes |
| EvidenceSet.EligibleByReceipts | tools/rf_evidence/src/evidence_set.cpp:347-441 | An identity is eligible if and only if some planned attempt of that identity has a receipt, it can be read, it states `completed`, and no planned attempt supersedes that identity |
| EvidenceSet.EligibleInOrdinalOrder | tools/rf_evidence/src/evidence_set.cpp:431-441 | The eligible identities stand in ordinal order, each once |
| EvidenceSet.EligibleIsAntichain | tools/rf_evidence/src/evidence_set.cpp:431-441 | No eligible attempt is superseded by any other however many links away |
| EvidenceSet.ReadEligibleAttempts | tools/rf_evidence/src/evaluator.cpp:219-267 | Resolves the named identities in attempt order or refuses as the source does |
| EvidenceSet.ResolvedExactly | tools/rf_evidence/src/evaluator.cpp:219-267 | The runs read back are exactly the named identities, each once |
| EvidenceSet.ResolvedFromListings | tools/rf_evidence/src/evaluator.cpp:240-267 | Each identity read back carries the receipt of its first listing, and they stand in the order of those listings |
| EvidenceSet.ResolvesExactly | tools/rf_evidence/src/evaluator.cpp:240-267 | Reading back succeeds if and only if every named identity is listed and its first listing carries a receipt, and is otherwise refused as invalid |
| McdcCoverage.HasPair | tools/rf_verify/src/coverage_export.cpp:339-378 | The search finds a pair exactly when two vectors anywhere in the list show the condition's independence |
| McdcCoverage.DecisionIsIndependentlyCovered | tools/rf_verify/src/coverage_export.cpp:339-378 | True exactly when there is a condition and each one has an independence pair |
| McdcCoverage.CoverageIsMonotone | tools/rf_verify/src/coverage_export.cpp:339-378 | More vectors never uncover a decision |
| McdcCoverage.CoverageIgnoresOrder | tools/rf_verify/src/coverage_export.cpp:339-378 | The order of the vectors does not matter |
| McdcCoverage.CoveredNeedsRows | tools/rf_verify/src/coverage_export.cpp:339-378 | Without don't-cares a covered decision of n conditions has at least n + 1 distinct executed condition vectors |
| McdcCoverage.CoveredNeedsBothOutcomes | tools/rf_verify/src/coverage_export.cpp:339-378 | With any don't-cares, n is at most the product of the distinct executed vectors of the two outcomes |
| McdcCoverage.RingDefeatsTheRowBound | tools/rf_verify/src/coverage_export.cpp:339-378 | For every n from three on, n conditions covered by n distinct executed rows |
| McdcCoverage.RowBoundHoldsUpToTwo | tools/rf_verify/src/coverage_export.cpp:339-378 | With don't-cares allowed, every covered decision of n conditions has at least n + 1 distinct executed rows if and only if n is at most two |
| McdcCoverage.FewestRows | tools/rf_verify/src/coverage_export.cpp:339-378 | With don't-cares, m distinct executed rows can cover n conditions if and only if n is at most m(m - 1)/2, with a decision that does it for every such n and m |
| McdcCoverage.FewestOfBothOutcomes | tools/rf_verify/src/coverage_export.cpp:339-378 | t distinct executed passing vectors and f failing ones can cover n conditions if and only if n is at most tf, with a decision that does it |
| McdcCoverage.DontCaresDefeatTheRowBound | tools/rf_verify/src/coverage_export.cpp:339-378 | Four conditions covered by four vectors, none listed under both outcomes |
| BranchRegions.SaturatingAdd | tools/rf_verify/src/coverage_export.cpp:144-147 | For all 64-bit counts the comparison overflows if and only if the right one is negative, and otherwise the result is the exact sum or the greatest count, whatever the left one |
| BranchRegions.RegionList.MergeRegion | tools/rf_verify/src/coverage_export.cpp:131-150 | Adds to the first region at the same span, or appends; overflows exactly when it would add a negative count |
| BranchRegions.RegionList.ReadBranches | tools/rf_verify/src/coverage_export.cpp:152-172 | For all records: overflows exactly when a record that is not the first of its span has a negative count, and otherwise leaves one region for each recorded span, in the order of their first records, with the sum of its records or the greatest count |
| BranchRegions.MergingTallies | tools/rf_verify/src/coverage_export.cpp:131-150 | One merge keeps the list the tally of the records so far |
| BranchRegions.MergeIgnoresOrder | tools/rf_verify/src/coverage_export.cpp:131-150 | Whatever order the records come in, if they add up they come out as the same regions |
| BranchRegions.MergeNeverUncovers | tools/rf_verify/src/coverage_export.cpp:139-150 | A merged outcome reads as taken exactly when some record at its span took it, if and only if the first record's count is not negative enough to outweigh what is added to it |
| BranchRegions.TalliesNeverUncover | tools/rf_verify/src/coverage_export.cpp:139-150 | Without negative counts a merged outcome reads as taken exactly when some record at its span took it |
| BranchRegions.EveryOrderIsSummable | tools/rf_verify/src/coverage_export.cpp:131-150 | The records add up in every order if and only if none with a negative count shares its span with another |
| BranchRegions.MinusOneOverflowsSecond | tools/rf_verify/src/coverage_export.cpp:144-147 | A count of -1 overflows as the second record of its span and not as the first |
| BranchRegions.RegionList.FoldExpansions | tools/rf_verify/src/coverage_export.cpp:458-461 | Folding one merged list into another overflows exactly when a region of the second is negative and its span is listed in the first, and otherwise leaves the tally of both |
| BranchRegions.FoldedTallyExactly | tools/rf_verify/src/coverage_export.cpp:458-461 | That result is the tally of all the records of both if and only if at no span the first list's records sum below zero and the second's beyond the greatest count |
| BranchRegions.LoneExpansionOverflows | tools/rf_verify/src/coverage_export.cpp:458-461 | A lone expansion record of -1 at a listed span overflows there, though each list adds up alone |
| ModuleGraph.BuildGraph | tools/rf_archcheck/src/checks_edges.cpp:98-109 | The graph has an edge exactly where some manifest of that identity declares one outside the test and tool categories |
| ModuleGraph.CycleSearch.Visit | tools/rf_archcheck/src/checks_edges.cpp:112-128 | Terminates; true with a module on a cycle, or false with the module finished and the search state as before |
| ModuleGraph.NotOnCycle | tools/rf_archcheck/src/checks_edges.cpp:112-128 | A module whose successors are all finished is on no cycle |
| ModuleGraph.CyclesRunThroughManifests | tools/rf_archcheck/src/checks_edges.cpp:129-132 | Every module on a cycle is one the search starts from |
| ModuleGraph.HasCycle | tools/rf_archcheck/src/checks_edges.cpp:98-132 | True exactly when the production graph has a directed cycle, and then the module named lies on one |
| BuildLane.Follower.FollowBuildLane | tools/rf_archcheck/src/repository_model.cpp:62-120 | Terminates for every reference relation, also one that spells paths without end; extends the lane without duplicates by files the path reaches, all of them followed if the cap is not met |
| BuildLane.RootLane | tools/rf_archcheck/src/repository_model.cpp:62-120 | The lane starts with the root and goes depth first: every next file is the first reference not yet listed of the latest file that has one; below the cap it is exactly what the root reaches |
| BuildLane.LaneIsCutAtTheCap | tools/rf_archcheck/src/repository_model.cpp:62-120 | The lane holds as many files as the root reaches, up to the cap, and all of them if and only if the root does not reach more, be it infinitely many |
| BuildLane.LaneIsDetermined | tools/rf_archcheck/src/repository_model.cpp:62-120 | That order, the cap and what the root reaches determine the lane |
| ArgumentQuoting.QuoteWindowsArgument | tools/rf_evidence/src/process_runner.cpp:129-151 | The loop's result is the escaped form, for every argument |
| ArgumentQuoting.QuotedOnlyWhenNeeded | tools/rf_evidence/src/process_runner.cpp:129-132 | An argument is left as it is if and only if it holds no blank, tab, newline, vertical tab or quote |
| ArgumentQuoting.BuildCommandLine | tools/rf_evidence/src/process_runner.cpp:188-193 | The quoted program and arguments, blanks between, terminated |
| ArgumentQuoting.LineByArguments | tools/rf_evidence/src/process_runner.cpp:188-193 | A line is the quoted program and a terminator, and one argument more is one blank and its quoted form before the terminator |
| ArgumentQuoting.EscapedScansBack | tools/rf_evidence/src/process_runner.cpp:133-150 | What stands between the quotes scans back to the argument whatever its backslashes and quotes |
| ArgumentQuoting.SplitOfCommandLine | tools/rf_evidence/src/process_runner.cpp:188-193 | Without terminators inside, the line splits into the program and the nonempty arguments |
| ArgumentQuoting.CommandLineSplitsBack | tools/rf_evidence/src/process_runner.cpp:129-193 | The line splits into exactly the given list if and only if no argument is empty, nothing holds a terminator, and the program has no quote and no final backslash that quoting doubles |
| JsonReports.MaintainedOutput.SerializeInto | tools/rf_archcheck/src/json_reader.cpp:212-259 | Appends the indented text of any tree |
| JsonReports.ArrayLayout | tools/rf_archcheck/src/json_reader.cpp:212-259 | The text of a list of an empty list and an empty object |
| JsonReports.MemberLayout | tools/rf_archcheck/src/json_reader.cpp:212-259 | The text of an object whose one member is a list: two blanks a level, a colon and a blank after the key |
| JsonReports.JsonWriter.Separate | tools/rf_verify/src/report_writer.cpp:58-69 | What stands between the last thing written and the next, from the depth and the two flags alone |
| JsonReports.JsonWriter.Begin | tools/rf_verify/src/report_writer.cpp:77-99 | Opens an object or a list |
| JsonReports.JsonWriter.End | tools/rf_verify/src/report_writer.cpp:84-109 | Closes one, on a line of its own exactly when it was not empty; closing more than was opened wraps the depth round |
| JsonReports.JsonWriter.WriteKey | tools/rf_verify/src/report_writer.cpp:111-117 | A member name, after which a value is due on the same line |
| JsonReports.JsonWriter.WriteText | tools/rf_verify/src/report_writer.cpp:119-123 | A quoted string |
| JsonReports.JsonWriter.WriteScalar | tools/rf_verify/src/report_writer.cpp:125-135 | An integer or a boolean |
| JsonReports.ToldIsPrinted | tools/rf_verify/src/report_writer.cpp:58-135 | From any state where a value is due, a tree's calls write exactly what the recursive printer prints at that depth |
| JsonReports.PrintingGrows | tools/rf_archcheck/src/json_reader.cpp:171-210 | The two escape styles print the same text exactly for strings free of bytes 0x08 and 0x0C, and otherwise the report is longer |
| JsonReports.ReportsAreInMaintainedForm | tools/rf_verify/src/report_writer.cpp:21-135 | A fresh writer's output is the maintained form of the tree if and only if no string in it holds byte 0x08 or 0x0C |
| BundleScan.ScanValue | tools/rf_evidence/src/attestation.cpp:171-210 | The end of a value, or nothing when a string or a bracket stays open |
| BundleScan.ExtractTopLevelValue | tools/rf_evidence/src/attestation.cpp:125-225 | The scan by offsets terminates and equals the specification on every byte string |
| BundleScan.PassesJson | tools/rf_evidence/src/attestation.cpp:171-210 | Any well-formed value is passed over whole, at any depth, whatever follows |
| BundleScan.ExtractIsFirstMember | tools/rf_evidence/src/attestation.cpp:125-225 | On every well-formed object, with any whitespace, nesting and escapes, the first member of that raw name, or the missing-member refusal |
| BundleDefects.FirstDefectDecides | tools/rf_evidence/src/attestation.cpp:125-225 | In a document broken in one of its members, by a missing quote or colon, an unclosed name or value, or no value, the member asked for is found if it stands before the defect, and otherwise the bundle is malformed |
| BundleScan.RequireTopLevelString | tools/rf_evidence/src/attestation.cpp:231-243 | On every well-formed object it accepts exactly when the first member of that name is that string |
| BundleScan.RequiredStringIsAString | tools/rf_evidence/src/attestation.cpp:231-243 | The comparison with the quoted text never takes an object, a list, a number or a literal for the string |
| Base64.ReadQuantum | tools/rf_evidence/src/attestation.cpp:47-71 | Accepts exactly four alphabet characters, or in the last quantum two or three and padding |
| Base64.DecodeBase64 | tools/rf_evidence/src/attestation.cpp:27-84 | The loop equals the quantum-by-quantum specification, refusals included |
| Base64.SymbolsAreTheAlphabet | tools/rf_evidence/src/attestation.cpp:27-46 | The alphabet is that of RFC 4648 section 4 |
| Base64.PublishedVectors | tools/rf_evidence/src/attestation.cpp:27-84 | Three of the vectors of RFC 4648 section 10, the two signs, and the refusal of the empty text |
| Base64.DecodeAfterEncode | tools/rf_evidence/src/attestation.cpp:27-84 | Decoding an encoding gives the bytes back if and only if they are not empty and the encoding fits the ceiling |
| Base64.PayloadIsItsEncoding | tools/rf_evidence/src/attestation.cpp:72-83 | An accepted payload is the encoding of what it decodes to if and only if the unused bits of its last quantum are zero |
| UnifiedDiff.ParseUnifiedDiff | tools/rf_verify/src/diff_reader.cpp:81-147 | The loop over the bytes equals the line-by-line state machine |
| UnifiedDiff.HunkStartIsRead | tools/rf_verify/src/diff_reader.cpp:52-77 | A printed hunk header gives its new start, with or without counts and a heading |
| DiffRefusals.HunkStartExactly | tools/rf_verify/src/diff_reader.cpp:52-77 | A line gives a hunk start if and only if it is `@@ -`, text without a blank and a plus, ` +`, digits below 2^32, perhaps a comma and more, a blank and the rest |
| UnifiedDiff.HunkReadsExactly | tools/rf_verify/src/diff_reader.cpp:98-144 | A hunk's added lines are read at their positions if and only if none begins `++ ` and no removed line that begins `-- ` comes before an added one |
| UnifiedDiff.NameIsKeptExactly | tools/rf_verify/src/diff_reader.cpp:24-34 | A printed name is read as the file it stands for if and only if its prefix is `a/` or `b/`, or it has none and the path begins with neither and is not /dev/null |
| UnifiedDiff.UnprefixedDirectoryIsLost | tools/rf_verify/src/diff_reader.cpp:24-34 | Printed without a prefix, every file in a directory a or b is read as one outside it |
| UnifiedDiff.UnprefixedExample | tools/rf_verify/src/diff_reader.cpp:24-34 | `a/x.cpp` is read as `x.cpp` |
| UnifiedDiff.PrintedDiffReadsBack | tools/rf_verify/src/diff_reader.cpp:81-147 | Any printed edit script, of many files, hunks, deletions and no-newline marks, under any names, with either line ending, reads as recording its added lines in order under the limits, in the files its names are read as, which are those they stand for wherever names are kept |
| UnifiedDiff.AcceptedDiffIsItsAddedLines | tools/rf_verify/src/diff_reader.cpp:81-147 | When accepted, each file's changed lines are exactly the new-file positions of the lines added under names read as it, and of its own added lines wherever names are kept |
| UnifiedDiff.DiffFits | tools/rf_verify/src/diff_reader.cpp:121-128 | No more files and no more added lines in any of them than the limits means no refusal |
| DiffRefusals.DiffRefusedExactly | tools/rf_verify/src/diff_reader.cpp:81-147 | A diff is malformed if and only if the reader meets a line that begins `@@` and gives no hunk start, and over a limit if and only if it is too long or the reader meets, in a hunk of a file, an added line there is no more room for |
| DiffRefusals.AcceptedKeepsLimits | tools/rf_verify/src/diff_reader.cpp:114-135 | Whatever is accepted has at most 20000 files, each with a changed line and at most 500000 |
| DiffExactness.DiffIsRead | tools/rf_verify/src/diff_reader.cpp:98-144 | What the reader ends with on every printed diff, misread names and lines included: which positions it records and in which file it takes itself to be |
| DiffExactness.MisreadDiffLosesALine | tools/rf_verify/src/diff_reader.cpp:98-144 | In a diff with a misread name or line, of the files that lose the least position one with the longest path never gets it back, whatever other files' lines are taken for its own |
| DiffExactness.DiffReadsExactly | tools/rf_verify/src/diff_reader.cpp:81-147 | Within the limits, a whole diff of ordered hunks, printed with one of the two prefixes or with none, is read as it is meant if and only if no added line begins `++ `, within a hunk no removed line that begins `-- ` comes before an added one, and no file that lines are added to is printed bare under a path that begins with either prefix or is /dev/null |
| DiffExactness.OddPrefixesCancel | tools/rf_verify/src/diff_reader.cpp:24-34 | With other prefixes, one for each file, two misread names can be taken for each other and make up for it |
| RuleSeal.SealRules | tools/rf_archcheck/src/rule_corpus.cpp:120-153 | The loops compute the seal of the payload, which `SealBits.SealIsFnv1a` spells out |
| SealBits.SealIsFnv1a | tools/rf_archcheck/src/rule_corpus.cpp:120-153 | The seal is `fnv1a64:` and sixteen digits, the k-th the four bits from bit 60 - 4k on of the state in which FNV-1a leaves the payload: from its published basis, for each byte the bitwise exclusive or and then the product by the prime modulo 2^64 |
| SealBits.AbsorbingIsAStep | tools/rf_archcheck/src/rule_corpus.cpp:126-131 | Absorbing one byte is exactly such a step, for every state and byte |
| SealBits.StatesExist | tools/rf_archcheck/src/rule_corpus.cpp:125-131 | Every text has its states |
| SealBits.PublishedValues | tools/rf_archcheck/src/rule_corpus.cpp:125-131 | The function's published values of the empty text and of the letter a |
| RuleSeal.RulePayloadIs | tools/rf_archcheck/src/rule_corpus.cpp:132-145 | A rule's part of the payload: its six members in order, a unit separator after each and a record separator at the end |
| RuleSeal.MixingKeepsStatesApart | tools/rf_archcheck/src/rule_corpus.cpp:126-131 | Each hash step is a bijection of the 64-bit state |
| RuleSeal.MixingKeepsBytesApart | tools/rf_archcheck/src/rule_corpus.cpp:126-131 | From one state different bytes lead to different states |
| RuleSeal.HexIsInjective | tools/rf_archcheck/src/rule_corpus.cpp:147-152 | The digits determine the hash |
| RuleSeal.OneByteChangesTheSeal | tools/rf_archcheck/src/rule_corpus.cpp:120-153 | Changing any one byte of any one member of any rule changes the seal |
| RuleSeal.PayloadIsInjective | tools/rf_archcheck/src/rule_corpus.cpp:120-145 | Without the unit separator inside members, different rule sets have different payloads |
| RuleSeal.FusedRulesKeepTheSeal | tools/rf_archcheck/src/rule_corpus.cpp:120-145 | Any two adjacent rules of an accepted list, wherever they stand, can be written as one, giving another accepted list with the same payload and seal |
| RuleSeal.RuleIsDetermined | tools/rf_archcheck/src/rule_corpus.cpp:120-145 | One accepted rule is determined by its payload, whatever its title holds |
| RuleSeal.PayloadIsSharedExactly | tools/rf_archcheck/src/rule_corpus.cpp:120-153 | An accepted list shares its payload with another accepted one if and only if it has two rules or more, or its single title holds, between two usable titles, the end of one rule and the beginning of a later one |
| RuleSeal.FusedFitsAFile | tools/rf_archcheck/src/json_reader.cpp:139-150 | In a file, two rules can be written as one if and only if both titles and what stands between them fit one string |
| RuleSeal.FilePayloadIsSharedExactly | tools/rf_archcheck/src/rule_corpus.cpp:120-153 | Rules read from a file, their titles free of the record separator, share their payload with another list a file can hold if and only if two adjacent ones fit one string |
| RuleSeal.ReadRules | tools/rf_archcheck/src/rule_corpus.cpp:196-256 | Accepts exactly the lists of well-formed rules whose identities ascend throughout, though only neighbours are compared |
| RuleSeal.IdentitiesDiffer | tools/rf_archcheck/src/rule_corpus.cpp:251-254 | No two rules of an accepted corpus share an identity |

## Left out

- simdjson: the canonical reader is a reader of RFC 8259 text with the repository's own gates; when a text has several faults, which one is reported first may differ.
- Put and get as sequential methods: they run concurrently, so each is a machine whose steps are its system calls; the single operations they are made of are methods of `ExclusiveFiles`.
- SHA-256, OpenSSL and Cosign: the hash is an unknown function and signatures are not modelled.
- Directory chains above a blob, their permission and reparse checks, and the Windows form of publication (`MoveFileExW`): a run may be refused for them at any point where the source may.
- BlobRefusals.GetRefusalsExactly: corruption of a blob that another run of the history publishes, which is left to `BlobSafety.RereadBlamesOnlyAGoodBlob`: that blob is good and not empty.
- BlobRefusals.PutRefusalsExactly: a staging collision, which is left to `BlobRefusals.CollisionMeansFiveTakenNames`, and corruption at a path not taken yet, left to `BlobSafety.PutBlamesOldCorruptionOrACollision`.
- Library sorting, searching, and integer parsing are used as their specifications.
- Receipts, plans and policies as parsed JSON: evaluation and assembly take typed records, and what a stored receipt yields is a parameter.
- Schema validation, `readObservations`, report builders, diagnostics, exit codes and `main` files: gates and formatting.
- Process launching, timeouts and capture files: only the command line is modelled.
- Text of a build file: which files it refers to is a parameter of the build lane.
- `collectExpansionBranches`: the same merge for each named file; which file a record names is not modelled.
- Git's quoting of unusual path names in a diff header: a name is taken as it is printed, as the reader takes it.
- Policy history, requirements, tiers, floors, licence and path audits: single-branch checks that would add only easy members.
- ExclusiveFiles.ExclusiveFile.Write: what the kernel answers is a list given from outside; an endless run of signals is a list that runs out.
- BranchRegions.RegionList.MergeRegion: what the list holds after a signed overflow, which the language leaves undefined.
- JsonReports.ToldIsPrinted: trees nest less deeply than a 64-bit counter reaches, beyond which the writer's depth wraps round.
- DiffExactness.DiffReadsExactly: hunks of a file ascend, each file is listed once and a deleted file adds no lines, as in every diff a program prints; prefixes other than the two are left to `DiffExactness.DiffIsRead`, since with them two misread names can cancel (`DiffExactness.OddPrefixesCancel`).
- RuleSeal.FilePayloadIsSharedExactly: titles that hold a record separator, where another list can cut the same text at any number of other places at once.
- UnifiedDiff.PrintedDiffReadsBack: line numbers stay below 2^32, beyond which the reader's counter wraps round.
