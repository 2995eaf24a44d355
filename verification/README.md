# SnmpB in Dafny

A Dafny model of the algorithms inside SnmpB, an SNMP browser that carries part of libsmi, with proofs of
what they do. `dafny verify dfyconfig.toml` checks everything.

| files | part of the program |
|---|---|
| `SmiValues`, `Ranges`, `RangeMeaning`, `RangeLists` | the check of range lists: sort by relinking, limit exchange, overlap test by neighbours, in-place merge, default values |
| `NamedNumbers` | enumerations and BITS: the redefinition scan and the in-place sort |
| `IndexLength` | the longest instance identifier of a table row |
| `Oids`, `Walk`, `WalkRuns`, `WalkErrors` | the GETBULK walk as a step machine, run against an agent that answers by section 4.2.3 of RFC 3416 |
| `AutoLoad` | loading MIB modules on demand while a walk is shown |
| `VarbindMoves` | moving the selected rows of the varbind list |
| `YangKeys`, `RangeText`, `ImportLists` | the YANG converter: key and leaf names, range expressions, sorted import list with prefixes |
| `ByteWords`, `Addresses` | the address scan: bytes and words, 128-bit increment, counting a range |
| `StripPass`, `RfcExtract` | extraction of MIB modules from RFC text |
| `MibTrees` | pruning and populating the MIB tree |
| `Seqs`, `Texts`, `Decimal` | shared facts about sequences, split texts and numerals |

Code that relinks cells or updates fields is modelled by classes and loops. Each such method is proved
equal to a function of the old state, and what the program promises is proved about that function:
`Ranges` and `RangeMeaning` say what the lists of `RangeLists` mean, `WalkRuns` and `WalkErrors` what the
callbacks of `Walk` amount to over whole runs.

## Where the code does not meet its promise

Each is modelled as the code has it, with an input and with the exact condition under which the promise
holds.

- **A range declared between two others cuts the list.** `libsmi/lib/smi-check.c:1195` clears the link it
  has just made, so that range and all behind it are dropped (`Ranges.CutLosesCover`). Nothing is lost iff
  no range starts between two earlier ones (`Ranges.SortKeepsAll`); for ranges that share no value the
  covered numbers survive iff that holds (`RangeMeaning.CutAlwaysLoses`). When the limits compare rightly,
  as they do for every defined type, overlap reports are always right, but only ranges not cut off before
  are looked at (`Ranges.OverlapReportedExactly`, `Ranges.CutHidesOverlap`).
- **Comparing a signed with an unsigned value.** The header comment of `compareValues` promises the sign of
  the distance. Lines 109 and 118 return it only under the conditions of `SmiValues.UnsignedSignedExact`
  and `SmiValues.SignedUnsignedExact`; otherwise the sign is the opposite one (`SmiValues.CompareExactly`).
  Ranges of a defined base type never get there (`Ranges.PreparedComparable`). Mixed limits of a type
  referenced before its definition do (`libsmi/lib/parser-smi.y:4052-4065`). All results about ranges hold
  for them too when every comparison among their limits is right (`Ranges.AgreeingExactly`), for example
  when no signed limit is -1 or -0 (`Ranges.BelowMinusOneAgrees`). When not:
  - -1..10 becomes 10..-1, -0..10 becomes 10..-0, and 2147483647..-1 stays reversed without a message
    (`Ranges.MixedRangesExchanged`; for every range exactly when in `Ranges.ForwardReferenceExchange`);
  - 0..10 followed by -1..-1 stays so without an order message, -1..-1 followed by 2147483647..2147483647 is
    turned round and reported as not ascending, and 0..10 followed by -2..-1 is reported as an overlap
    (`Ranges.MixedRangesMisplaced`; for every pair exactly when in `Ranges.ForwardReferenceOrder` and
    `Ranges.ForwardReferenceOverlap`).
- **Sorting repeated named numbers can run off the list.** With repeated numbers the re-insertion may pass
  the cells not yet processed, and the walk at lines 688 and 718 then follows the null link, as for 2, 2, 1
  (`NamedNumbers.RepeatedNumberCrash`). `NamedNumbers.EnumType.SortNumbers` crashes iff the declared order
  is `NamedNumbers.Stuck`; distinct numbers never are. The redefinition scan does not prevent it: it runs
  after parsing (`libsmi/lib/parser-smi.y:1026`), the sort during it (line 3852).
- **Index length.** The length is one too long for strings of fixed size 65535, which the code takes for
  "no lower bound found" (`IndexLength.FullSizeTooLong`), and for an IMPLIED object identifier, because the
  flag tested at line 875 is the column's and not the row's (`IndexLength.ImpliedNameTooLong`). It is one too
  short for an object identifier that has an IMPLIED index clause of its own, which sets that flag
  (`libsmi/lib/parser-smi.y:2994`, 3001), and stands as a plain element (`IndexLength.FlaggedColumnTooShort`).
  The length bounds all instances iff the first kind is at least as frequent as the second
  (`IndexLength.IndexBound`). The message is never wrong for that (`IndexLength.TooLargeExactly`).
- **Error responses during a walk.** An error on the requested name, when no node is known for it, does not
  end the walk: the same name is asked for again and the count falls back to 1. The identifiers shown stay
  right, but their numbers do not: they are 1, 2, 3, ... iff no object is shown after such an error, unless
  exactly one was shown before it (`WalkErrors.RunSafe`, `WalkErrors.FirstErrorMisnumbers`). Repeated errors
  keep the walk running without bound (`WalkErrors.ErrorsKeepRunning`).
- **IPv6 ranges.** A range that crosses a 64-bit boundary misses its last address
  (`Addresses.CarryMissesLast`); a full range of 2^64 addresses under one upper word counts 0 and probes
  nothing (`Addresses.FullRangeMissesAll`). All others are probed in full (`Addresses.Ipv6RangeVisited`).
- **Module choice.** `LoadBestModule` compares identifiers as text. For 1.3.6.1.25 it takes a module with
  root 1.3.6.1.2 before one with root 1.3.6.1 (`AutoLoad.CousinChosen`). The chosen root is an ancestor iff
  the identifier ends there or goes on with a dot (`AutoLoad.ChosenAncestor`); it always is when no unloaded
  module has a root that is a text prefix ending inside a sub-identifier (`AutoLoad.NoCousinAncestor`).
- **Modules that do not load.** The restart loop chooses such a module again and again
  (`AutoLoad.FailingLoadRepeats`). When each known file either always loads or never changes what is loaded,
  it ends iff every module it comes to choose is of the first kind (`AutoLoad.LoopEndsExactly`).
- **Names.** Module names that differ only in case share a prefix (`ImportLists.CaseClash`); prefixes are
  distinct iff every module had a free candidate when it was first asked for
  (`ImportLists.PrefixesDistinctExactly`). The scanner only warns of an underscore in a descriptor
  (`libsmi/lib/scanner-smi.l:717`, 729): key parts and leafs are distinct iff none is named like a numbered
  occurrence of an index element (`YangKeys.KeyAgreement`, `YangKeys.UnderscoreClash`,
  `YangKeys.UnderscoreLeafClash`).
- **Strip pass.** Applied twice it changes the text again iff there are non-blank lines and all of them are
  indented by more than 99 spaces (`StripPass.PassIdempotent`, `StripPass.DeepLine`).

## Model

| member | source | states |
|---|---|---|
| SmiValues.CompareValues | libsmi/lib/smi-check.c:60-121 | for two values of one 32-bit base the result classifies the distance as the header comment promises: 0, exactly 1 or -1, or at least 2 either way |
| SmiValues.UnsignedSignedExact | libsmi/lib/smi-check.c:102-110 | exactly when comparing an unsigned with a signed value gives the right sign |
| SmiValues.SignedUnsignedExact | libsmi/lib/smi-check.c:111-119 | exactly when comparing a signed with an unsigned value gives the right sign; the difference is taken the wrong way round |
| SmiValues.CompareExactly | libsmi/lib/smi-check.c:60-121 | for any two 32-bit values: zero iff equal, else the sign of the distance, or the opposite one exactly when the condition of the two rows above fails; and the whole classification of the header comment iff it holds |
| Ranges.AgreeingExactly | libsmi/lib/smi-check.c:60-121 | all comparisons among a set of 32-bit limits are right iff each pair meets that condition |
| Ranges.BelowMinusOneAgrees | libsmi/lib/smi-check.c:102-119 | they are right when no signed limit is above -2 |
| Ranges.PreparedComparable | libsmi/lib/smi-check.c:1094-1164 | for a defined base type all prepared limits carry one 32-bit base and are in order, so the mixed comparisons are not reached; for a type not yet defined whose limits compare rightly all ranges end in order |
| Ranges.PreparedMeaning | libsmi/lib/smi-check.c:1094-1164 | with no out-of-basetype report a prepared range covers the numbers between the declared limits, and the exchange is reported iff the first limit was the larger |
| Ranges.LimitReportedExactly | libsmi/lib/smi-check.c:1094-1150 | a limit is reported iff its number is not one of the base type |
| Ranges.PrepareReportsExactly | libsmi/lib/smi-check.c:1094-1164 | the messages for the limits of one range, one by one and in order |
| Ranges.ForwardReferenceExchange | libsmi/lib/smi-check.c:1157-1164 | for limits of any two bases: exactly when the exchange of the limits is right |
| Ranges.MixedRangesExchanged | libsmi/lib/smi-check.c:1157-1164 | -1..10 and -0..10 are exchanged, 2147483647..-1 is not |
| Ranges.ForwardReferenceOrder | libsmi/lib/smi-check.c:1169-1196 | for two ranges with limits of any bases: where the second goes, and that place and order message are right iff the lower limits compare rightly |
| Ranges.ForwardReferenceOverlap | libsmi/lib/smi-check.c:1171-1190 | for two ranges with limits of any bases: when an overlap is reported, and exactly when the message tells the truth |
| Ranges.MixedRangesMisplaced | libsmi/lib/smi-check.c:1169-1196 | a pair left out of order without a message, an ascending pair turned round, and an overlap reported for a pair that shares no value |
| Ranges.FindAfter | libsmi/lib/smi-check.c:1179-1183 | the place found is the first whose successor does not start below the new range |
| Ranges.InsertShape | libsmi/lib/smi-check.c:1166-1201 | the new range goes first, or last, or the list ends where it would have gone, at the position its lower bound demands |
| Ranges.InsertKeepsAll | libsmi/lib/smi-check.c:1166-1201 | an insertion loses nothing iff the new range starts at or below all others or above all |
| Ranges.SortSorted | libsmi/lib/smi-check.c:1166-1201 | the list is sorted by lower bound after every insertion |
| Ranges.SortElements | libsmi/lib/smi-check.c:1166-1201 | the sort never duplicates or invents a range |
| Ranges.SortKeepsAll | libsmi/lib/smi-check.c:1166-1201 | the sort keeps every range iff none is declared between two others |
| Ranges.InsertOverlapSound | libsmi/lib/smi-check.c:1171-1190 | an overlap reported at an insertion is with a range of the list |
| Ranges.InsertOverlapComplete | libsmi/lib/smi-check.c:1171-1190 | looking at the neighbours is enough: without a report the new range meets no range of a separate list |
| Ranges.InsertReportsExactly | libsmi/lib/smi-check.c:1166-1201 | the messages of one insertion into a sorted list: an overlap iff the new range shares a value with one of its two neighbours, then the order message iff it does not go last |
| Ranges.OverlapSound | libsmi/lib/smi-check.c:1166-1201 | an overlap is only reported when two declared ranges share a value, cuts or not |
| Ranges.OverlapExact | libsmi/lib/smi-check.c:1166-1201 | with none inserted between two others, an overlap is reported iff two declared ranges share a value |
| Ranges.OverlapReportedExactly | libsmi/lib/smi-check.c:1166-1201 | cuts or not, an overlap is reported iff some range shares a value with one not cut off before it |
| Ranges.AscendingExact | libsmi/lib/smi-check.c:1166-1201 | the order report is raised iff the lower bounds do not strictly ascend |
| Ranges.CutDropsPoint | libsmi/lib/smi-check.c:1191-1196 | declaring 1, 10, 5 leaves only 1 |
| Ranges.CutLosesCover | libsmi/lib/smi-check.c:1193-1196 | the declared value 10 of 1, 10, 5 is not covered afterwards |
| Ranges.CutHidesOverlap | libsmi/lib/smi-check.c:1193-1196 | declaring 1, 10, 5, 10 raises no overlap report |
| RangeMeaning.MergeCovers | libsmi/lib/smi-check.c:1204-1222 | merging keeps the covered numbers |
| RangeMeaning.MergeCanonical | libsmi/lib/smi-check.c:1204-1222 | merging separate ranges leaves an uncovered value between any two neighbours |
| RangeMeaning.CanonicalUnique | libsmi/lib/smi-check.c:1204-1222 | two such lists that cover the same numbers are the same list |
| RangeMeaning.CoverageKept | libsmi/lib/smi-check.c:1083-1224 | with no out-of-basetype report and no middle insertion the whole check keeps the declared numbers |
| RangeMeaning.CheckedCanonical | libsmi/lib/smi-check.c:1083-1224 | with no overlap report the list left behind is canonical, in whatever order the ranges were declared |
| RangeMeaning.SameNumbersSameList | libsmi/lib/smi-check.c:1083-1224 | two clean declarations of the same numbers end as identical lists (for a type not yet defined, with one spelling of each limit) |
| RangeMeaning.RunReportsMeaning | libsmi/lib/smi-check.c:1166-1201 | the order and overlap messages of a whole run, said of the declared ranges, whenever their limits compare rightly |
| RangeMeaning.RunReportsExactly | libsmi/lib/smi-check.c:1088-1202 | every message of a run in its place: range by range, one for each limit outside the base type, one for an exchange iff the first limit reads larger, one for an overlap with a neighbour in the list, one iff the range does not go last |
| RangeMeaning.CutAlwaysLoses | libsmi/lib/smi-check.c:1193-1196 | among ranges that share no value the covered numbers survive the sort iff none is inserted between two others |
| RangeMeaning.CheckedTwice | libsmi/lib/smi-check.c:1083-1224 | after a run without base or overlap report, checking again prints nothing and changes nothing |
| RangeMeaning.DefaultCheckedAgainstDeclared | libsmi/lib/smi-check.c:1290-1348 | the messages for a 32-bit default, in order: outside the base type iff its number is, then out of range iff it lies in none of a non-empty list of ranges as declared |
| RangeLists.RangeType.UnifyCell | libsmi/lib/smi-check.c:1094-1155 | one cell gets the type's base type, with the reports of both limits |
| RangeLists.RangeType.PrepareCell | libsmi/lib/smi-check.c:1094-1164 | base type and limit order of one cell |
| RangeLists.RangeType.FindPlace | libsmi/lib/smi-check.c:1179-1183 | the walk stops at the cell after which the range goes |
| RangeLists.RangeType.PutFirst | libsmi/lib/smi-check.c:1176-1177 | linking in front keeps an acyclic list of the cells |
| RangeLists.RangeType.PutAfter | libsmi/lib/smi-check.c:1191-1196 | linking behind a cell, with the cut; the list stays acyclic |
| RangeLists.RangeType.PutRangeAfter | libsmi/lib/smi-check.c:1191-1196 | the same in terms of the ranges held |
| RangeLists.RangeType.InsertLater | libsmi/lib/smi-check.c:1178-1199 | insertion behind the first cell is the insertion on sequences, with its reports |
| RangeLists.RangeType.InsertCell | libsmi/lib/smi-check.c:1168-1201 | relinking one cell is the insertion on sequences, with its reports |
| RangeLists.RangeType.TakeCell | libsmi/lib/smi-check.c:1088-1167 | detaching and preparing a cell leaves the cells still to come chained and unchanged |
| RangeLists.RangeType.SortStep | libsmi/lib/smi-check.c:1088-1202 | one turn of the loop over the list that is being relinked |
| RangeLists.RangeType.SortRanges | libsmi/lib/smi-check.c:1088-1202 | the loop ends with an acyclic list of some of the same cells, sorted as on sequences, with exactly the reports of a run |
| RangeLists.RangeType.Unlink | libsmi/lib/smi-check.c:1210-1218 | the merged cell leaves the list, its lower limit goes to the next |
| RangeLists.RangeType.JoinNext | libsmi/lib/smi-check.c:1207-1218 | two touching ranges become one |
| RangeLists.RangeType.MergeStep | libsmi/lib/smi-check.c:1205-1222 | one turn of the normalization keeps what is still to be merged |
| RangeLists.RangeType.MergeRanges | libsmi/lib/smi-check.c:1204-1222 | the in-place normalization is the merge on sequences |
| RangeLists.RangeType.CheckTypeRanges | libsmi/lib/smi-check.c:1083-1224 | the list becomes the checked form of the declared ranges, acyclic and made of some of their cells, and the messages are those of the run in order |
| RangeLists.RangeType.CheckValueType | libsmi/lib/smi-check.c:1290-1348 | the messages and the cast for a 32-bit value against the list as it stands; none for another base type |
| NamedNumbers.ScanRedefinitions | libsmi/lib/smi-check.c:480-517 | one message for each pair of cells with one name and for each with one number, in the order of the pairs; so a number or name is reported iff two cells carry it |
| NamedNumbers.ScanPlaces | libsmi/lib/smi-check.c:480-517 | the messages are exactly the repetitions among the pairs of cells, each once, in the order of the pairs and of a pair the name first |
| NamedNumbers.PlaceAfter | libsmi/lib/smi-check.c:678-685 | the place is the first whose successor is not below the number (for BITS: is above it) |
| NamedNumbers.PlaceIsEarly | libsmi/lib/smi-check.c:671-691 | the re-insertion passes the next unprocessed cell exactly when the declared order is stuck here |
| NamedNumbers.DistinctNotStuck | libsmi/lib/smi-check.c:653-724 | distinct numbers are never stuck |
| NamedNumbers.SortedDistinct | libsmi/lib/smi-check.c:653-724 | distinct numbers end strictly ascending |
| NamedNumbers.CleanScanCleanSort | libsmi/lib/smi-check.c:653-724 | when the scan reports no repeated number the sort does not crash and ends strictly ascending |
| NamedNumbers.EnumType.Unlink | libsmi/lib/smi-check.c:671-672 | taking a cell out keeps an acyclic list |
| NamedNumbers.EnumType.PutFirst | libsmi/lib/smi-check.c:674-676 | putting it in front keeps an acyclic list |
| NamedNumbers.EnumType.PutAfter | libsmi/lib/smi-check.c:681-682 | putting it behind another keeps an acyclic list |
| NamedNumbers.EnumType.FindPlace | libsmi/lib/smi-check.c:678-685 | the walk stops at the place of the number |
| NamedNumbers.EnumType.Reinsert | libsmi/lib/smi-check.c:671-686 | the cells afterwards are the old ones with one moved to its place |
| NamedNumbers.EnumType.WalkTo | libsmi/lib/smi-check.c:687-689 | the walk finds the cell in front of the next one, and falls off iff that lies before the start |
| NamedNumbers.EnumType.Resort | libsmi/lib/smi-check.c:662-691 | a turn for a number that is too small sorts it in, and crashes iff the declared order is stuck here |
| NamedNumbers.EnumType.Turn | libsmi/lib/smi-check.c:654-724 | one turn: sorted part longer by one, rest untouched, or a crash exactly where the order is stuck |
| NamedNumbers.EnumType.CheckBitZero | libsmi/lib/smi-check.c:641-651 | BITS without a bit 0 are reported, nothing else |
| NamedNumbers.EnumType.SortNumbers | libsmi/lib/smi-check.c:653-724 | crashes iff the declared order is stuck; otherwise the same cells, ascending, acyclic; the message comes once iff the input did not strictly ascend |
| NamedNumbers.EnumType.CheckOrder | libsmi/lib/smi-check.c:628-725 | the whole function, with the early return and the bit-0 message |
| NamedNumbers.RepeatedNumberCrash | libsmi/lib/smi-check.c:678-689 | an enumeration declared as 2, 2, 1 crashes the sort |
| IndexLength.FindNearest | libsmi/lib/smi-check.c:816-818 | the ranges of the nearest restricted type in the chain of parents |
| IndexLength.NearestInherits | libsmi/lib/smi-check.c:816-818 | the ranges found are those of the first restricted type from the column's own up its parents, and none iff none is restricted |
| IndexLength.InheritedSizeCounts | libsmi/lib/smi-check.c:816-859 | a string whose type has no size of its own but derives from one with SIZE (0..16) counts 17 |
| IndexLength.FindBounds | libsmi/lib/smi-check.c:819-853 | the size bounds the loop finds, with both replacements |
| IndexLength.BoundsFound | libsmi/lib/smi-check.c:819-853 | the bounds for ranges of any limits: least lower and largest upper one, or 0 and 65535 when all lie from 65535 up or below 0 |
| IndexLength.CheckIndex | libsmi/lib/smi-check.c:762-935 | the summed length, and the too-large test |
| IndexLength.UncountedElements | libsmi/lib/smi-check.c:882-896 | BITS and the types the function rejects add nothing |
| IndexLength.BoundsAreSizes | libsmi/lib/smi-check.c:819-859 | the upper bound is the largest allowed size, and equal bounds mean a fixed size, but for the one size 65535 |
| IndexLength.LongestInstance | libsmi/lib/smi-check.c:762-935 | the length of the longest instance encoded by section 7.7 of RFC 2578: the computed one less the excess of the elements |
| IndexLength.IndexBound | libsmi/lib/smi-check.c:762-935 | the computed length bounds every instance iff the excess is not negative, and is reached or passed by some iff it is not positive |
| IndexLength.UnreportedFits | libsmi/lib/smi-check.c:931-935 | no instance of an unreported row has more than 128 sub-identifiers |
| IndexLength.IndexBoundAttained | libsmi/lib/smi-check.c:854-878 | without flagged columns the length bounds every instance, and is reached iff no string is fixed at 65535 (unless IMPLIED) and no object identifier is IMPLIED |
| IndexLength.TooLargeExactly | libsmi/lib/smi-check.c:931-935 | a row is reported iff some instance has more than 128 sub-identifiers |
| IndexLength.FullSizeTooLong | libsmi/lib/smi-check.c:847-859 | a string of size 65535 gives the length 65536, while all instances have 65535 |
| IndexLength.ImpliedNameTooLong | libsmi/lib/smi-check.c:874-877 | an IMPLIED object identifier gives the length 129, while instances have at most 128 |
| IndexLength.FlaggedColumnTooShort | libsmi/lib/smi-check.c:874-877 | a plain object identifier column with the flag gives the length 128, while an instance has 129 |
| Oids.ScopeTest | snmp++/include/snmp_pp/oid.h:414-454 | comparing as many sub-identifiers as the root has says whether a name is in its subtree |
| Oids.LessExactly | app/agent.cpp:887-891 | the order of the view is decided at the first sub-identifier that differs, a proper beginning first |
| Oids.SubtreeContiguous | app/agent.cpp:887-891 | what lies between a root and one of its descendants is a descendant |
| Oids.DescendantsAreSlice | app/agent.cpp:887-891 | the descendants are one slice of the ordered view, from the root's successor on |
| Oids.NextReached | app/agent.cpp:976-990 | the successor of where the walk stands is the next descendant, and after the last one it is out of scope |
| Walk.Agent.WalkFrom | app/agent.cpp:1207-1250 | the starting state, also when the request cannot be sent |
| Walk.Agent.Stop | app/agent.cpp:1448-1451 | only the stop flag changes |
| Walk.Agent.ShowBinding | app/agent.cpp:893-1015 | counting, showing and buffering one binding |
| Walk.Agent.ReadBindings | app/agent.cpp:871-1016 | the loop over the bindings is the recursive scan, with its early ends |
| Walk.Agent.DoEnd | app/agent.cpp:1042-1051 | the closing lines, then the clean-up |
| Walk.Agent.DoCleanup | app/agent.cpp:1050-1056 | the pending text is appended and the walk is over |
| Walk.Agent.AsyncCallback | app/agent.cpp:819-1056 | every path of the callback as a function of the state: timeout, failure, error responses, empty response, next request or end |
| WalkRuns.FlushKeeps | app/agent.cpp:1006-1015 | appending at every tenth object loses no line and leaves `objects` mod 10 pending |
| WalkRuns.ScanKeeps | app/agent.cpp:871-1016 | reading an answer counts one descendant per binding in order and ends the walk only when all were counted |
| WalkRuns.ScanTranscript | app/agent.cpp:871-1016 | reading the bindings of any response, text by text: modules loaded, number and identifier or error, break; up to the first beyond the subtree, up to and with the first exception or error with a known node, or all |
| WalkRuns.AnswerEffect | app/agent.cpp:871-1056 | one answer without error: progress and a correct seed; or the end with all that was read in the window and the closing lines, because all descendants were read or the walk was stopped; or, when the next request cannot be sent, the message alone and the descendants up to the last full ten |
| WalkRuns.NoSuchNameEnds | app/agent.cpp:850-851 | the noSuchName that ends a walk in SNMPv1 leaves everything read in the window, with the closing lines |
| WalkRuns.RunBuffered | app/agent.cpp:819-1056 | over every run of answers without error, stops, timeouts, failures and refused sends the window shows a prefix of the ordered subtree, numbered from 1; while running no line is lost and exactly `objects` mod 10 are pending |
| WalkRuns.LostAnswerCutsAtTens | app/agent.cpp:830-842 | a run that breaks off with a timeout or a missing response leaves in the window exactly the descendants up to the last full ten, and that message alone as the last text |
| WalkRuns.RunComplete | app/agent.cpp:819-1056 | against an agent that answers without error every unstopped walk ends, with at most one answer more than there are descendants, having shown every strict descendant once in order, and `objects` is their number |
| WalkRuns.ErrorAnswerEnds | app/agent.cpp:846-984 | an error on a known binding of the subtree is shown as the error, behind what was pending, and ends the walk there with the closing lines |
| WalkRuns.AnswerExists | app/agent.cpp:1030-1032 | such an answer always exists while the walk runs, so the runs above are not empty |
| WalkErrors.AnswerShows | app/agent.cpp:863-1056 | one answer without error shows the next descendants or ends the walk; an empty one breaks it off with its message |
| WalkErrors.ErrorShows | app/agent.cpp:846-984 | an error response lets the walk go on iff it is on the binding, no node is known, and the request goes out; then the same name is asked for, one error line is pending and the count is 1; else noSuchName, or an error on the binding, ends it with everything shown, and an error without binding, or a refused send, breaks it off |
| WalkErrors.RunSafe | app/agent.cpp:819-1056 | over every run, error responses of section 4.2.3 of RFC 3416 included, the identifiers shown are a prefix of the ordered subtree; their numbers are 1..k iff no object is shown after a survived error, unless exactly one was shown before it |
| WalkErrors.FirstErrorMisnumbers | app/agent.cpp:854-857 | after an error on the first request the first descendant is number 2 |
| WalkErrors.RunEndsDespiteErrors | app/agent.cpp:819-1056 | with such errors in between, a walk ends after at most one good answer more than there are descendants, and has shown them all |
| WalkErrors.ErrorsKeepRunning | app/agent.cpp:1018-1040 | an agent that only answers with such errors keeps the walk running for ever, with nothing shown |
| AutoLoad.BestIsGood | app/mibmodule.cpp:310-330 | the choice is an unloaded module with a root that is a text prefix, no shorter than the first matching root of any unloaded module |
| AutoLoad.ChosenModule | app/mibmodule.cpp:310-330 | the same against the loaded set, and nothing is chosen iff no unloaded module has a matching root |
| AutoLoad.BestExactly | app/mibmodule.cpp:309-330 | which module and which of its roots is chosen: the first of the longest in turn, ties included |
| AutoLoad.LoadShrinks | app/mibmodule.cpp:365-373 | when a module chosen by the loop really loads there, the set of unloaded ones gets smaller |
| AutoLoad.LoopEndsExactly | app/agent.cpp:896-945 | when each known file either loads whenever wanted or never changes what is loaded, the unprompted restart loop ends iff every file it chooses is one that loads |
| AutoLoad.FailingLoadRepeats | app/agent.cpp:899-909 | a module that does not load and has a root for an unknown name keeps the loop from ending |
| AutoLoad.AncestorExactly | app/mibmodule.cpp:317-318 | a root is an ancestor, sub-identifier by sub-identifier, iff it is a text prefix that ends where a sub-identifier of the name ends |
| AutoLoad.ChosenAncestor | app/mibmodule.cpp:310-330 | the chosen root is an ancestor of the name iff the name ends there or goes on with a dot |
| AutoLoad.NoCousinAncestor | app/mibmodule.cpp:310-330 | the chosen root is an ancestor whenever no unloaded module has a root that is a text prefix ending inside a sub-identifier |
| AutoLoad.CousinChosen | app/mibmodule.cpp:310-330 | for 1.3.6.1.25 the root 1.3.6.1.2 wins over its ancestor 1.3.6.1 |
| AutoLoad.NotLoadedMembers | app/mibmodule.cpp:407-431 | the unloaded list holds exactly the known files that are not loaded |
| AutoLoad.NotLoadedInOrder | app/mibmodule.cpp:407-431 | in the order of the known modules |
| AutoLoad.MibModule.FindBest | app/mibmodule.cpp:307-331 | the nested loops find the recursive choice |
| AutoLoad.MibModule.RebuildUnloadedList | app/mibmodule.cpp:407-431 | the list is rebuilt from the total and the loaded ones |
| AutoLoad.MibModule.Refresh | app/mibmodule.cpp:487-510 | both lists agree with the wanted modules again |
| AutoLoad.MibModule.LoadBestModule | app/mibmodule.cpp:300-374 | what is returned, wanted, loaded and remembered as policy, for every preference, policy and answer |
| AutoLoad.NoToAllStops | app/mibmodule.cpp:351-355 | after "no to all" no later call of any sequence returns a file or wants another module |
| AutoLoad.YesToAllLoads | app/mibmodule.cpp:356-358 | after "yes to all" that call and every later one that finds a match loads it, whatever the answer |
| AutoLoad.SingleAnswer | app/mibmodule.cpp:354-361 | "yes" and "no" decide that call alone; the next match is asked about again |
| AutoLoad.UnaskedCall | app/mibmodule.cpp:303-337 | where nobody is asked a match is loaded whatever the answer, and none when loading is off |
| AutoLoad.MibModule.Restart | app/agent.cpp:896-945 | one turn of the loop, whatever the preference, policy and answers: what is loaded, if anything, for the name or else for the value |
| AutoLoad.AskedTurn | app/agent.cpp:896-945 | a turn with questions: the module for the name is asked about first; unless it is loaded, or all loading refused, the one for the value is; what is loaded and remembered follows the answers |
| AutoLoad.UnaskedTurns | app/agent.cpp:896-945 | without questions the turns load what each comes to next, whatever the answers |
| AutoLoad.StopsExactly | app/agent.cpp:896-945 | the loop stops iff the name is resolved to the end or has no match among the unloaded modules, and the same holds of a value that is an identifier; else it goes on, for the name first |
| AutoLoad.MibModule.ResolveBinding | app/agent.cpp:896-945 | when each file the loop comes to choose really loads there, it ends after at most as many loads as there are unloaded modules; it makes exactly the turns up to the first that loads nothing |
| VarbindMoves.VarbindList.Shift | app/agent.cpp:1780-1792 | one row moves next to another, the rest keeps its order |
| VarbindMoves.VarbindList.UpStep | app/agent.cpp:1775-1795 | one turn of the upward loop |
| VarbindMoves.VarbindList.MoveUp | app/agent.cpp:1767-1796 | nothing when the first row is selected, else the whole move; the selection stays |
| VarbindMoves.VarbindList.DownStep | app/agent.cpp:1806-1825 | one turn of the downward loop |
| VarbindMoves.VarbindList.MoveDown | app/agent.cpp:1798-1827 | nothing when the last row is selected, else the whole move; the selection stays |
| VarbindMoves.UpMoves | app/agent.cpp:1775-1795 | each selected row goes up exactly one place; selected and unselected rows keep their orders |
| VarbindMoves.DownMoves | app/agent.cpp:1806-1825 | the same downwards |
| VarbindMoves.UpPermutes | app/agent.cpp:1767-1827 | both moves permute the rows |
| VarbindMoves.DownUndoesUp | app/agent.cpp:1767-1827 | moving down undoes moving up unless the first row is selected |
| VarbindMoves.UpUndoesDown | app/agent.cpp:1767-1827 | moving up undoes moving down unless the last row is selected |
| YangKeys.CountEarlier | libsmi/lib/smi2yang.c:971-978 | the inner loop counts the earlier elements of the same name |
| YangKeys.Key | libsmi/lib/smi2yang.c:956-1000 | the accumulated key text |
| YangKeys.ForeignLeafs | libsmi/lib/smi2yang.c:1203-1229 | the leafref names of elements whose column lies elsewhere |
| YangKeys.CopiesOf | libsmi/lib/smi2yang.c:1064-1091 | the leafs of one column, one for each occurrence in the index |
| YangKeys.ColumnarLeafs | libsmi/lib/smi2yang.c:1039-1093 | the leafs of all columns |
| YangKeys.ListLeafs | libsmi/lib/smi2yang.c:1203-1231 | the leafs of the list |
| YangKeys.LeafOrder | libsmi/lib/smi2yang.c:1203-1231 | their order: the leafrefs follow the index; then come the columns in their order, repeated ones with ascending numbers |
| YangKeys.LeafCollision | libsmi/lib/smi2yang.c:980-987 | two invented names are equal iff they are of one occurrence, or one is a plain name that reads like the numbered other |
| YangKeys.KeyTextSplits | libsmi/lib/smi2yang.c:980-987 | the key text split at spaces is the list of tokens |
| YangKeys.KeyPartsDistinct | libsmi/lib/smi2yang.c:968-990 | for every index the key parts are distinct iff no element is named like a numbered occurrence of one |
| YangKeys.LeafNamesDistinct | libsmi/lib/smi2yang.c:1064-1091 | the leaf names are distinct iff moreover no accessible column is named so |
| YangKeys.KeyAgreement | libsmi/lib/smi2yang.c:1203-1231 | section 7.8.2 of RFC 6020: the key reads back as tokens that each name a leaf; tokens, and leafs, are distinct iff no name reads like a numbered occurrence of an index element |
| YangKeys.CleanNamesDistinct | libsmi/lib/smi2yang.c:1203-1231 | without underscores in descriptors all tokens and all leafs are distinct |
| YangKeys.LeafIsToken | libsmi/lib/smi2yang.c:1064-1091 | each leaf is named by the key or is an accessible column outside the index |
| YangKeys.UnderscoreClash | libsmi/lib/smi2yang.c:981-983 | an index a, a, a_2 has two equal key parts |
| YangKeys.UnderscoreLeafClash | libsmi/lib/smi2yang.c:1083-1091 | an index a, a is fine, but an accessible column a_2 gets the leaf name of the second a |
| RangeText.RangeExpression | libsmi/lib/smi2yang.c:714-737 | the text accumulated over the ranges |
| RangeText.ExpressionRoundTrip | libsmi/lib/smi2yang.c:714-737 | reading the text by section 9.2.4 of RFC 6020 gives the ranges back, negative bounds and single values included |
| RangeText.SingleValueAlone | libsmi/lib/smi2yang.c:719-733 | a range of one value is written as that value, any other with two limits |
| RangeText.ExpressionText | libsmi/lib/smi2yang.c:714-737 | the text for 1 to 2 and 8: two dots between the limits, a bar between the ranges |
| RangeText.CheckedExpressionLegal | libsmi/lib/smi2yang.c:714-748 | written for a list checked without overlap report, the parts are disjoint and ascending as that section demands |
| Decimal.ReadIntDecInt | libsmi/lib/smi2yang.c:719-730 | a written number reads back |
| Decimal.NoLeadingZero | libsmi/lib/smi2yang.c:719-730 | without leading zeros |
| Decimal.DigitAppended | libsmi/lib/smi2yang.c:719-730 | in base ten: a digit behind a numeral makes ten times its number and the digit |
| ImportLists.ImportList.IsPrefixUnique | libsmi/lib/smi2yang.c:179-191 | true iff no entry has the prefix |
| ImportLists.ImportList.LowerInPlace | libsmi/lib/smi2yang.c:215-218 | the buffer is lower-cased in place |
| ImportLists.LowerIs | libsmi/lib/smi2yang.c:215-218 | no upper-case letter is left, and each became its own small one |
| ImportLists.ImportList.CutBuffer | libsmi/lib/smi2yang.c:220-233 | cutting and restoring in the buffer finds the first free cut |
| ImportLists.ImportList.GuessNicePrefix | libsmi/lib/smi2yang.c:194-234 | the guessed prefix as a function of name and used prefixes |
| ImportLists.ImportList.FindLink | libsmi/lib/smi2yang.c:264-268 | the link where the walk stops is the place of the module |
| ImportLists.ImportList.LinkIn | libsmi/lib/smi2yang.c:274-275 | insertion through the link keeps an acyclic list |
| ImportLists.ImportList.AddImport | libsmi/lib/smi2yang.c:255-278 | the entry of the module is returned, and added in its place iff it was missing |
| ImportLists.GuessTaken | libsmi/lib/smi2yang.c:207-233 | the guess is a prefix in use iff every candidate for the module is |
| ImportLists.GuessExactly | libsmi/lib/smi2yang.c:194-234 | which prefix is guessed: a well-known module's own while it is free, else the name in lower case up to the first of its second and later hyphens that leaves a free one, else the whole name |
| ImportLists.AddedDistinct | libsmi/lib/smi2yang.c:264-275 | adding a module keeps the prefixes distinct iff a candidate is free |
| ImportLists.ListIsSet | libsmi/lib/smi2yang.c:255-278 | after any calls the list is strictly ascending and holds exactly the modules asked for |
| ImportLists.LessExactly | libsmi/lib/smi2yang.c:264-268 | the order of the list is decided at the first character that differs, a proper beginning first |
| ImportLists.EntriesStay | libsmi/lib/smi2yang.c:255-278 | no later call changes an assigned prefix |
| ImportLists.PrefixesDistinct | libsmi/lib/smi2yang.c:194-278 | without a clash of names the prefixes are pairwise distinct in every order of calls |
| ImportLists.PrefixesDistinctExactly | libsmi/lib/smi2yang.c:194-278 | the prefixes are pairwise distinct iff every module had a free candidate when first asked for |
| ImportLists.CaseClash | libsmi/lib/smi2yang.c:215-233 | names that differ in case get one prefix |
| ByteWords.OrShifted | app/discovery.cpp:34-47 | or-ing a shifted byte past a word adds it |
| ByteWords.BytesEncode | app/discovery.cpp:49-62 | bytes written by shifting and masking encode the number |
| ByteWords.EncodingUnique | app/discovery.cpp:34-62 | equal-length bytes that encode one number are the same bytes, so the conversions undo each other |
| ByteWords.BytesRoundTrip | app/discovery.cpp:34-62 | word to bytes to word and bytes to word to bytes are the identity |
| Addresses.Ipv4FromUchar | app/discovery.cpp:34-38 | the word read is the big-endian number of the bytes |
| Addresses.Ipv6FromUchar | app/discovery.cpp:40-47 | both words read are the big-endian numbers of their bytes |
| Addresses.Ipv4ToUchar | app/discovery.cpp:49-53 | the bytes written encode the word |
| Addresses.Ipv6ToUchar | app/discovery.cpp:55-62 | the bytes written encode both words |
| Addresses.NextIpv4 | app/discovery.cpp:369-370 | the address becomes the next 32-bit number |
| Addresses.NextIpv6 | app/discovery.cpp:374-377 | the address becomes the next 128-bit number, carry included |
| Addresses.Carry | app/discovery.cpp:374-376 | the two-word increment is the increment of the 128-bit number |
| Addresses.ProbeIpv4 | app/discovery.cpp:297-382 | the j-th probed address is start + j as a 32-bit number, for as many as asked unless aborted |
| Addresses.ProbeIpv6 | app/discovery.cpp:297-382 | the j-th probed address is start + j as a 128-bit number |
| Addresses.CountIpv4 | app/discovery.cpp:648-712 | the verdict and the count in 32-bit arithmetic |
| Addresses.CountIpv6 | app/discovery.cpp:648-743 | the verdict and the count in 64-bit arithmetic |
| Addresses.Ipv4RangeVisited | app/discovery.cpp:648-712 | an accepted IPv4 range is probed as exactly its addresses, ascending, once each |
| Addresses.Ipv6RangeAccepted | app/discovery.cpp:731-743 | an IPv6 range is accepted iff it ascends and its ends are fewer than 2^64 apart |
| Addresses.Ipv6RangeVisited | app/discovery.cpp:731-734 | an accepted IPv6 range is probed in full iff the upper words agree and it does not fill the lower word; else its last address, or all of it, is missed |
| Addresses.AllAddressesAre | app/discovery.cpp:648-743 | the addresses of a range are exactly the byte strings between its ends, ascending, once each |
| Addresses.ScanIpv4 | app/discovery.cpp:648-712 | an accepted range is probed byte string by byte string from one end to the other, as far as the scan gets |
| Addresses.ScanIpv6 | app/discovery.cpp:648-743 | the same for IPv6, without the last address when the upper words differ and without any when the lower word is filled |
| Addresses.CarryMissesLast | app/discovery.cpp:733-734 | a range of two addresses across a 64-bit boundary, of which the second is not probed |
| Addresses.FullRangeMissesAll | app/discovery.cpp:731-732 | a range of 2^64 addresses of which none is probed |
| StripPass.FindWidth | app/mibeditor.cpp:655-673 | the width the first loop finds |
| StripPass.WritePass | app/mibeditor.cpp:655-699 | the lines both loops write |
| StripPass.PassMeaning | app/mibeditor.cpp:655-699 | the non-blank lines in order, each shorter by one common count of leading spaces; one empty line per blank run before a line; nothing else |
| StripPass.TabLines | app/mibeditor.cpp:655-699 | lines of tabs are blank lines, but a tab is no indentation |
| StripPass.PassIdempotent | app/mibeditor.cpp:655-699 | a second pass changes nothing iff some non-blank line is indented by at most 99, or there is none |
| StripPass.DeepLine | app/mibeditor.cpp:655-699 | a line indented by 100 spaces is cut again by a second pass |
| RfcExtract.Extractor.Skip | app/mibeditor.cpp:610-634 | the skip counter |
| RfcExtract.Extractor.Finish | app/mibeditor.cpp:643-715 | macros and the end of a module |
| RfcExtract.Extractor.ProcessLine | app/mibeditor.cpp:529-716 | one line, with the header, start, page, macro and end branches |
| RfcExtract.Extractor.Extract | app/mibeditor.cpp:529-716 | the loop over the text |
| RfcExtract.DraftsIgnored | app/mibeditor.cpp:534-535 | draft headers are as if they were not there |
| RfcExtract.LimitNeverGrows | app/mibeditor.cpp:610-634 | inside a module the limit is between 4 and 9 and does not grow |
| RfcExtract.LimitIsLeast | app/mibeditor.cpp:541-631 | said of the lines alone, the limit is 9 and then the length of the shortest page break that the module has had |
| RfcExtract.LimitChange | app/mibeditor.cpp:610-634 | what one line does to the limit |
| RfcExtract.DroppedExactly | app/mibeditor.cpp:605-641 | a line of a module is dropped iff it lies in the window of a page line: no other page line or module start since, a count below 9 and below every earlier page break of the module, and blank from the third line after the footer on |
| RfcExtract.NonBlankDropped | app/mibeditor.cpp:605-641 | a non-blank line is dropped iff it is a page line or one of the two lines after one |
| RfcExtract.PageLineCost | app/mibeditor.cpp:616-634 | a page line costs at most `skip` - 1 lines, so at most eight |
| RfcExtract.CapturedIsKept | app/mibeditor.cpp:636-641 | the captured text is exactly the lines not dropped, in order |
| RfcExtract.OpenUntilClosed | app/mibeditor.cpp:643-714 | a module stays open, under its name and without writing, up to the first END that closes no macro |
| RfcExtract.ModuleWritten | app/mibeditor.cpp:529-716 | a module runs to the first END that closes no macro; then one file is added, unless an existing one is kept: the pass over its lines that were not dropped |
| RfcExtract.StrayEnd | app/mibeditor.cpp:647-710 | an END outside of all modules adds an empty file without a name, unless the file of the last module was kept |
| MibTrees.MibViewLoader.Load | app/mibview.cpp:654-691 | the names of the files that load, in order |
| MibTrees.LoadedInOrder | app/mibview.cpp:671-686 | the names follow the order of the files, one for each file that loads |
| MibTrees.MibViewLoader.IsPartOfLoadedModules | app/mibview.cpp:698-711 | the scan tells whether the node's module is loaded |
| MibTrees.MibViewLoader.PruneSubTree | app/mibview.cpp:725-806 | the recursive test with its early returns |
| MibTrees.MibViewLoader.PopulateSubTree | app/mibview.cpp:839-860 | the tree of items built for a node |
| MibTrees.PruneExactly | app/mibview.cpp:763-805 | a subtree is pruned iff none of its nodes belongs to a loaded module |
| MibTrees.ShownExactly | app/mibview.cpp:839-860 | the shown tree keeps exactly the edges that lead to a node of a loaded module, in order |
| MibTrees.ShownLeafIsLoaded | app/mibview.cpp:839-860 | one node that is shown without children is in a loaded module |
| MibTrees.ShownItems | app/mibview.cpp:839-860 | the items below the root are, in order, those of the nodes that are or lead to nodes of loaded modules |
| MibTrees.ShownLeafsAreLoaded | app/mibview.cpp:839-860 | every leaf of the whole shown tree below the root stands for a node of a loaded module |

## Left out

- Range cells: a list cell and the range it points to are one object, since the parser makes them together; freeing a merged cell is its leaving the list.
- 64-bit and floating-point values in `compareValues` and `smiCheckValueType`, where the code compares nothing or reads another union member.
- `smiCheckValueType` for enumerations, BITS and identifier values (libsmi/lib/smi-check.c:1350 on).
- IndexLength.CheckIndex: only the length and the too-large message; the messages about ranges, signs, sizes, columns and defaults are single tests, and the code gives no length for BITS and 64-bit elements, so the bound is stated without them.
- Ranges.OverlapSound: runs in which two limits of a type not yet defined compare wrongly are described by the single range and by pairs only.
- RangeMeaning.RunReportsMeaning: the same.
- RangeMeaning.RunReportsExactly: the same.
- `smiCheckFormat`, `smiCheckNamedNumberSubtyping` and the other checks of libsmi.
- SNMP messages, sockets and SNMPv3; the agent of the walk is the responder of section 4.2.3 of RFC 3416 for one requested name, with its error responses, over a view that does not change.
- Get, GetNext, Set and table callbacks; only the walk shares state across callbacks.
- Walk.Agent.AsyncCallback: texts are pieces without their HTML and rendered values, and the modules loaded for a binding are given with it; `AutoLoad` models that loop on its own.
- The remaining YANG statements, `smi2yangImplied`, `getModulePrefix` and the construction of the import list from a module.
- RangeText.RangeExpression: comparing two SMI values byte by byte is taken as equality of the values, since padding is not modelled.
- ImportLists.ImportList.GuessNicePrefix: lower case is that of ASCII.
- Building and sending probe messages and waiting for answers; a send failure or an abort only shortens the scan.
- RfcExtract.Extractor.ProcessLine: the regular expressions are verdicts given with each line, except for blank lines and leading spaces; dialogs and files that cannot be created are not modelled; each module start begins an empty capture.
- MibTrees.MibViewLoader.PruneSubTree: both ignore flags are 0, as the constructor sets them and nothing changes them.
- MibTrees.MibViewLoader.PopulateSubTree: items are values with their children, without parent links, kinds and icons.
- AutoLoad.MibModule.Refresh: which files are loaded is a function of the wanted modules; saving and reading back the preferences is the identity on them, and the list of known modules does not change meanwhile.
- VarbindMoves.VarbindList.MoveUp: rows are identified by numbers; the widget's own signals are not modelled.
- Editors, graphs, profiles, logging, traps and all of the user interface.
