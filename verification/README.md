# Vectors, message fields and agent results

A Dafny model of the algorithms that Zabbix keeps in its public C headers, with proofs of what they promise.

* **The generated vector** (`include/zbxalgo.h`): a growable array with in-place insertion, removal, `uniq` and
  `setdiff`, binary and resumable linear search, and growth by one half. `Vector.dfy` has the class, with the
  array, the two counters and the loops of the C functions. Its methods are tied to functions on sequences, and
  the theorems are about those: `VectorModel.dfy` (runs of operations, cost of growth), `SetDiff.dfy`,
  `Unique.dfy`, `Lookup.dfy`, `SortedSet.dfy`. `Comparators.dfy` says what a comparator may be: any function, a
  total preorder, or a total order. `KeyOrder.dfy` is about comparators chained from the macro for one key.
* **The field codec** (`include/zbxserialize.h`): `Bytes.dfy` and `Codec.dfy` describe the bytes of fields and of
  messages (lists of typed fields) and prove round trip, framing and lengths; `Serialize.dfy` has the macros as
  methods on a byte buffer; `Messages.dfy` combines them the way callers do.
* **The agent result** (`include/module.h`): `AgentResult.dfy` has the object, the macros and a heap in which only
  allocated blocks can be freed; `ResultModel.dfy` proves who owns which memory over whole runs.
* **Two orders**: `Timespec.dfy` (`include/zbxtime.h`) and `Version.dfy` (`include/zbxversion.h`).

Main results: `Vectors.Vector.SetDiff` with `SetDiff.MergeDiffPerClass` and `SetDiff.MergeDiffUnique`;
`Unique.CanonicalDifference` with `Vectors.Subtract`; `Unique.UniqIdempotentExactly`; `Lookup.LSearchRunCorrect`;
`Vectors.Execute` with `VectorModel.RunRefinesSequence` and `VectorModel.AmortizedGrowth`;
`Codec.MessageRoundTrip` and `Codec.PrepareExact` with `Messages.Exchange`; `ResultModel.RunOwnership`,
`ResultModel.FlaggedExactly` and `ResultModel.LastSetterShows` with `AgentResults.Execute`; `Timespec.OrdersExactly`; `Version.DecimalOrdersExactly`.

Conventions. `memmove` is a simultaneous copy. A C pointer into an array is an array and an offset. Comparators
are functions to `int`. The counts of comparisons, moved elements and reallocated elements are ghost values that
the C code does not have. `SUCCEED` is true, `FAIL` is an integer that is no index (the header that defines it is
not part of this model). Reads and writes outside an object, use of NULL memory functions and signed overflow
have no behaviour in C, and are preconditions.

What turned out not to hold everywhere, with the exact condition:

* A second `uniq` can remove more, for comparators whose zero is not transitive, such as those with a tolerance
  (`Unique.UniqIdempotentExactly`).
* `append_array` does not grow by one half, so repeated calls are quadratic (`VectorModel.SingletonArraysCost`).
* `reserve` provides the size only up to the largest int (`VectorModel.ReserveProvides`).
* A string or vector whose length does not fit 32 bits is not read back as written (`Codec.FieldRoundTrip`), and
  a message is longer than prepared from 2^32 bytes on (`Codec.PrepareExact`).
* The timestamp comparator orders timestamps only while the seconds are at most the largest int apart
  (`Timespec.OrdersExactly`).
* The decimal form of versions keeps the order only where no field carries (`Version.DecimalOrdersExactly`).
* A value set twice without unsetting is lost (`ResultModel.RunOwnership`).

## Model

| member | source | states |
|---|---|---|
| Vectors.Vector.SetDiff | include/zbxalgo.h:599-632 | for any comparator, the deferred block moves leave exactly the merge difference; right is untouched; comparisons are at most survivors plus right elements, and exactly as many elements are moved as survive behind the first dropped one |
| SetDiff.MergeDiffPerClass | include/zbxalgo.h:599-632 | on sorted inputs under a total preorder, of each class of equal elements exactly the first min(left, right) left members go, the others stay in order |
| SetDiff.MergeDiffUnique | include/zbxalgo.h:599-632 | any sorted sequence that obeys the per-class rule is the result |
| SetDiff.MergeDiffMultiset | include/zbxalgo.h:599-632 | under a total order the result is the multiset difference |
| SetDiff.MergeDiffSorted | include/zbxalgo.h:599-632 | sorted (strictly sorted) left stays so, for any right |
| SetDiff.MergeDiffIsSubsequence | include/zbxalgo.h:604-631 | for any comparator only left elements stay, in their order |
| SetDiff.MergeDiffSelf | include/zbxalgo.h:599-632 | subtracting equal contents leaves nothing, sorted or not, for any comparator that is zero on identical elements |
| SetDiff.FirstDroppedExact | include/zbxalgo.h:617-631 | the block moves begin behind the longest prefix of left from which nothing is dropped |
| SetDiff.InProgressDrop | include/zbxalgo.h:617-623 | moving the pending block when an element is dropped keeps the loop invariant: kept elements in place, everything from the block start on untouched |
| SetDiff.InProgressEnd | include/zbxalgo.h:626-631 | the final block move completes the merge difference |
| SetDiff.UntouchedAhead | include/zbxalgo.h:604-606 | the left element about to be compared is still the original one |
| Vectors.Compact | include/zbxalgo.h:509-518 | for any comparator, the in-place loop compares original neighbours although it overwrites earlier slots |
| Vectors.Vector.Uniq | include/zbxalgo.h:505-519 | the same for the object; capacity and storage stay |
| Unique.UniqPicks | include/zbxalgo.h:505-519 | exactly element 0 and the elements whose original neighbours compare unequal stay, in order |
| Unique.UniqIdempotentExactly | include/zbxalgo.h:505-519 | a second pass changes nothing on every sequence if and only if the comparator's zero carries difference |
| Unique.UniqPerClass | include/zbxalgo.h:505-519 | on sorted input the first element of each class stays, and no other |
| Unique.UniqStrict | include/zbxalgo.h:505-519 | sorted input becomes strictly ascending |
| Unique.CanonicalDifference | include/zbxalgo.h:499-632 | sort, uniq, setdiff gives the set difference, strictly ascending, and another uniq changes nothing |
| Unique.CanonicalDifferenceIndependent | include/zbxalgo.h:499-632 | that result depends on the two element sets only |
| Unique.RightRepeatsIrrelevant | include/zbxalgo.h:505-632 | with a left side free of repeats, repeats on the right change nothing |
| Vectors.Subtract | include/zbxalgo.h:499-632 | the pipeline run on two vector objects |
| Vectors.Vector.Sort | include/zbxalgo.h:499-503 | the contract of qsort: some sorted permutation, nothing else changed |
| Comparators.AscendingDetermined | include/zbxalgo.h:54-54 | a sorted sequence is determined by its classes of equal elements |
| KeyOrder.ByKeysOrders | include/zbxalgo.h:89-94 | comparators chained from the one-key macro are total preorders that put the element with the smaller first differing key first, and total orders exactly when the keys tell elements apart |
| KeyOrder.KeysLexicographic | include/zbxalgo.h:89-94 | -1 exactly when the first differing key is smaller on the left, +1 exactly when it is greater |
| Vectors.Vector.NearestIndex | include/zbxalgo.h:521-545 | for any comparator a match or a place between a smaller and a greater neighbour, in logarithmically many comparisons, without overflow of lo + hi up to 2^30 elements |
| Lookup.NearestIsGlobal | include/zbxalgo.h:521-545 | on sorted input: a match if there is one, otherwise the split between all smaller and all greater elements |
| Lookup.HalvingsLogarithmic | include/zbxalgo.h:526-542 | the bound on comparisons is the binary logarithm rounded down, plus one |
| Vectors.Vector.BSearch | include/zbxalgo.h:547-559 | the contract of bsearch: some match of the key, or FAIL if there is none |
| Vectors.Vector.LSearch | include/zbxalgo.h:561-582 | found, new cursor and comparisons of one call, for any comparator and cursor |
| Lookup.LSearchStops | include/zbxalgo.h:561-582 | the cursor stops at the first element from where it was that is not smaller |
| Lookup.LSearchFindsExactly | include/zbxalgo.h:561-582 | on sorted input a call succeeds exactly when a match is left at or after its cursor, and stops at the first |
| Lookup.LSearchRunCorrect | include/zbxalgo.h:561-582 | a run with one cursor and non-decreasing queries answers every query correctly in at most elements plus calls comparisons |
| Lookup.LSearchRunLinear | include/zbxalgo.h:561-582 | the bound on comparisons holds for any comparator and queries |
| Vectors.Vector.Search | include/zbxalgo.h:584-596 | the first match, or FAIL exactly when there is none |
| Lookup.LookupsAgree | include/zbxalgo.h:521-596 | on sorted input the four lookups agree on membership, search and lsearch on the index |
| SortedSet.NearestIsRank | include/zbxalgo.h:521-545 | in a strictly sorted vector the answer of nearestindex is unique |
| SortedSet.RunIsSet | include/zbxalgo.h:444-545 | any run of sorted insertions and removals keeps the vector strictly sorted and equal to the set |
| SortedSet.RunsConfluent | include/zbxalgo.h:444-545 | runs that describe the same set leave the same vector |
| Vectors.Include | include/zbxalgo.h:444-545 | insertion at the nearest index when absent, on the object |
| Vectors.Exclude | include/zbxalgo.h:486-545 | removal at the found index, on the object |
| Vectors.MaintainSet | include/zbxalgo.h:444-545 | a whole run of both on one object is the set run |
| Vectors.MaintainOne | include/zbxalgo.h:444-545 | one insertion adds the value to the set of elements, one removal takes it out, sorted either way |
| Vectors.Vector.constructor | include/zbxalgo.h:401-421 | a new vector has no storage and no elements |
| Vectors.Vector.Create | include/zbxalgo.h:409-421 | the same for a destroyed one |
| Vectors.Vector.Destroy | include/zbxalgo.h:423-436 | no storage, no elements, no memory functions |
| Vectors.Vector.EnsureFreeSpace | include/zbxalgo.h:383-399 | room for one more, elements kept: capacity 32 at first, one and a half times the old one (2 after 1) when full, otherwise unchanged |
| Vectors.Vector.Append | include/zbxalgo.h:438-442 | the old elements, then the value |
| Vectors.Vector.AppendPtr | include/zbxalgo.h:458-462 | the old elements, then the value behind a pointer that growth does not invalidate |
| Vectors.Vector.Insert | include/zbxalgo.h:444-456 | the element comes before the index, the others keep their order |
| Vectors.Vector.AppendArray | include/zbxalgo.h:464-473 | the old elements, then the given ones in order; capacity grows to exactly what is needed; nothing happens for none |
| Vectors.Vector.RemoveNoOrder | include/zbxalgo.h:475-484 | the last element is at the index, the others stay where they were |
| Vectors.Vector.Remove | include/zbxalgo.h:486-497 | elements behind the index move down by one, the others stay |
| Vectors.Vector.Reserve | include/zbxalgo.h:634-642 | elements kept; for sizes up to the largest int the capacity is the greater of the old one and the size, beyond that the size is converted first |
| Vectors.Vector.Clear | include/zbxalgo.h:644-647 | no elements, same capacity |
| Vectors.Vector.ClearExt | include/zbxalgo.h:653-667 | every element is given to the free function once, in order |
| Vectors.Execute | include/zbxalgo.h:381-647 | any allowed run on the object passes through the states of the model |
| VectorModel.RunRefinesSequence | include/zbxalgo.h:381-647 | any allowed run leaves the elements of a plain sequence and never more than the capacity |
| VectorModel.AppendsAccumulate | include/zbxalgo.h:438-473 | appending values one by one leaves what append_array leaves: the old elements, then the values in order |
| VectorModel.RemoveNoOrderMultiset | include/zbxalgo.h:475-484 | unordered removal leaves a permutation of what ordered removal leaves |
| VectorModel.RemoveMultiset | include/zbxalgo.h:486-497 | one copy of the removed element is gone |
| VectorModel.InsertThenRemove | include/zbxalgo.h:444-497 | insertion and removal at one index cancel |
| VectorModel.AmortizedGrowth | include/zbxalgo.h:379-399 | reallocation moves at most 4 elements for each one added, removals and clears interleaved |
| VectorModel.CapacityBound | include/zbxalgo.h:379-399 | capacity is at most 32 or 3/2 of the most elements ever held |
| VectorModel.FreshAppendsCapacity | include/zbxalgo.h:379-399 | n appends to a fresh vector leave the first of the capacities 32, 48, 72, 108, ... that is at least n |
| VectorModel.NoOverflow | include/zbxalgo.h:394-395 | no signed overflow in a run that never holds more than 715827882 elements, which is the exact bound for the product |
| VectorModel.SingletonArraysCost | include/zbxalgo.h:464-473 | n calls of append_array with one element move n * (n - 1) / 2 elements |
| VectorModel.ReserveProvides | include/zbxalgo.h:634-642 | the capacity reaches the size if and only if the size is at most the largest int |
| VectorModel.ReservedRunNeverCopies | include/zbxalgo.h:634-642 | after reserving for its peak a run never reallocates |
| Bytes.LeRoundTrip | include/zbxserialize.h:46-53 | an integer that fits its width is read back |
| Bytes.LeByteAt | include/zbxserialize.h:46-53 | byte k of an integer has the weight 256 to the k |
| Bytes.LeBytesOfValue | include/zbxserialize.h:83-96 | bytes read as an integer and written are the same bytes |
| Bytes.WordsRoundTrip | include/zbxserialize.h:69-118 | an array of 64-bit words survives the byte copy |
| Codec.FieldRoundTrip | include/zbxserialize.h:46-121 | each field is read back, whatever follows, exactly when its length fits its prefix; reader and writer advance alike |
| Codec.StrRoundTrip | include/zbxserialize.h:59-107 | the same for nullable strings, with the wrapped length |
| Codec.VectorRoundTrip | include/zbxserialize.h:69-118 | the same for vectors |
| Codec.FixedLayout | include/zbxserialize.h:46-55 | the bytes of fields of fixed size, negative numbers in two's complement |
| Codec.StrLayout | include/zbxserialize.h:20-67 | a string that fits is written as its length with the terminator, its bytes, the terminator |
| Codec.VectorLayout | include/zbxserialize.h:36-77 | a vector that fits is written as eight times its size, then its words |
| Codec.NullIsNotEmpty | include/zbxserialize.h:57-67 | NULL and the empty string have different bytes |
| Codec.MessageRoundTrip | include/zbxserialize.h:46-121 | every list of fields, with any trailing bytes: the reader stops where the writer did, and the list comes back exactly when every length fits |
| Codec.Unambiguous | include/zbxserialize.h:46-121 | messages of one schema are prefix-free |
| Codec.PrepareExact | include/zbxserialize.h:20-77 | the prepared length is the true need, and the number of bytes written, exactly below 2^32 |
| Codec.PrepareIsLength | include/zbxserialize.h:20-77 | in any case the prepared length is the written length modulo 2^32 |
| Codec.BlockDecodesAlone | include/zbxserialize.h:124-130 | a block cut out with its prefix decodes as it did in place |
| Serialize.PrepareStr | include/zbxserialize.h:20-34 | length of the string and new total in 32-bit arithmetic |
| Serialize.PrepareVector | include/zbxserialize.h:36-42 | the same for a vector object |
| Serialize.PrepareValue | include/zbxserialize.h:44-44 | the same for any field of fixed size |
| Serialize.OverlayIs | include/zbxserialize.h:46-79 | a write changes the bytes from the offset on, as many as it writes, and no other |
| Serialize.SerializeUInt64 | include/zbxserialize.h:46-47 | writes the encoding at the offset and nothing else |
| Serialize.SerializeInt | include/zbxserialize.h:49-49 | the same |
| Serialize.SerializeShort | include/zbxserialize.h:51-51 | the same |
| Serialize.SerializeDouble | include/zbxserialize.h:53-53 | the same |
| Serialize.SerializeChar | include/zbxserialize.h:55-55 | the same |
| Serialize.SerializeValue | include/zbxserialize.h:79-79 | the same |
| Serialize.SerializeNull | include/zbxserialize.h:57-57 | four zero bytes |
| Serialize.SerializeStr | include/zbxserialize.h:59-67 | prefix and that many bytes of the terminated string, or four zero bytes, and nothing else |
| Serialize.SerializeVector | include/zbxserialize.h:69-77 | the same for the elements of a vector object |
| Serialize.DeserializeUInt64 | include/zbxserialize.h:83-84 | value and offset as decoding says |
| Serialize.DeserializeInt | include/zbxserialize.h:86-87 | the same |
| Serialize.DeserializeShort | include/zbxserialize.h:89-90 | the same |
| Serialize.DeserializeDouble | include/zbxserialize.h:95-96 | the same |
| Serialize.DeserializeChar | include/zbxserialize.h:92-93 | the same |
| Serialize.DeserializeValue | include/zbxserialize.h:120-121 | the same |
| Serialize.DeserializeStr | include/zbxserialize.h:98-107 | the length is the prefix; NULL for 0, otherwise a new block of the bytes behind the prefix and a terminator; it means the decoded string |
| Serialize.ReadWrittenStr | include/zbxserialize.h:59-107 | a written string that fits is read with its length plus one, in a block that holds it and two terminators |
| Serialize.DeserializeVector | include/zbxserialize.h:109-118 | the length is the prefix; the words in the block are appended to the vector object, length / 8 of them |
| Serialize.DeserializeBin | include/zbxserialize.h:124-130 | the block with its prefix |
| Messages.SerializeAll | include/zbxserialize.h:46-79 | writing field after field fills exactly the encoding's place in the buffer |
| Messages.Send | include/zbxserialize.h:20-79 | a buffer of the prepared length takes the whole message and is filled by it |
| Messages.DeserializeAll | include/zbxserialize.h:83-121 | reading kind after kind is decoding |
| Messages.Exchange | include/zbxserialize.h:20-121 | what is sent is received |
| Messages.DeserializeVectors | include/zbxserialize.h:109-118 | several vector messages read into one vector are appended in order |
| AgentResults.AgentResult.constructor | include/module.h:268-268 | no flags, no memory |
| AgentResults.AgentResult.SetUi64 | include/module.h:118-122 | adds the flag, stores the value, changes nothing else |
| AgentResults.AgentResult.SetDbl | include/module.h:124-128 | the same |
| AgentResults.AgentResult.SetStr | include/module.h:131-135 | adds the flag and stores the pointer; a pointer that was there is not freed |
| AgentResults.AgentResult.SetText | include/module.h:138-142 | the same |
| AgentResults.AgentResult.SetLog | include/module.h:145-149 | the same for a record with its strings |
| AgentResults.AgentResult.SetMsg | include/module.h:152-156 | the same |
| AgentResults.AgentResult.UnsetUi64 | include/module.h:173-180 | flag cleared, value zero |
| AgentResults.AgentResult.UnsetDbl | include/module.h:182-189 | flag cleared, value zero |
| AgentResults.AgentResult.UnsetStr | include/module.h:191-201 | frees the live block if the flag is set; afterwards the flag is clear and the pointer NULL |
| AgentResults.AgentResult.UnsetText | include/module.h:203-213 | the same |
| AgentResults.AgentResult.UnsetLog | include/module.h:215-227 | frees the record's strings and the record, each live and once |
| AgentResults.AgentResult.UnsetMsg | include/module.h:229-239 | as for strings |
| AgentResults.AgentResult.UnsetBin | include/module.h:241-251 | as for strings |
| AgentResults.AgentResult.UnsetExcluding | include/module.h:254-266 | the unsets one after the other, for the kinds that are not excluded |
| AgentResults.AgentResult.Free | include/module.h:270-279 | the same for all kinds |
| AgentResults.Execute | include/module.h:118-279 | any run on the object passes through the states of the model |
| ResultModel.BitsIndependent | include/module.h:77-84 | the flags are independent bits |
| ResultModel.FlaggedExactly | include/module.h:118-279 | after any run a flag is set exactly when an operation set it that none has cleared since |
| ResultModel.LastSetterShows | include/module.h:118-279 | after any run the result shows the value of each setter that no later operation replaced or unset |
| ResultModel.UnflaggedIsZero | include/module.h:173-189 | numbers are zero while they are not flagged |
| ResultModel.ExcludingKeeps | include/module.h:254-266 | exactly the excluded kinds and the meta information stay, other memory is given back |
| ResultModel.ExcludingTwice | include/module.h:254-266 | excluding twice is excluding what both exclude |
| ResultModel.RunOwnership | include/module.h:118-279 | after any run pointers are set and live exactly while flagged, live memory is what is owned and what was overwritten, and nothing is lost exactly when no setter met its own flag |
| ResultModel.FreeReleasesAll | include/module.h:270-279 | freeing leaves the meta flag at most and no owned memory |
| Timespec.OrdersExactly | include/zbxtime.h:36-37 | the comparator is the lexicographic order on a range of seconds exactly when the range fits an int; then its result is the exact difference |
| Timespec.ValidTotalOrder | include/zbxtime.h:36-37 | on valid timestamps it is a total order |
| Timespec.TimestampDifference | include/zbxtime.h:36-37 | the vector pipeline on timestamps |
| Version.BitsAreArithmetic | include/zbxversion.h:20-24 | the shifts and masks compute the arithmetic of the model |
| Version.PackExtract | include/zbxversion.h:20-23 | extraction undoes packing |
| Version.ExtractPack | include/zbxversion.h:20-23 | packing undoes extraction exactly on versions |
| Version.PackedOrder | include/zbxversion.h:20-23 | packed order is lexicographic |
| Version.WithoutPatchParts | include/zbxversion.h:24-24 | the patch is zero, the rest kept; idempotent |
| Version.WithoutPatchSame | include/zbxversion.h:24-24 | equal exactly for the same major and minor |
| Version.WithoutPatchMonotone | include/zbxversion.h:24-24 | keeps the order of versions |
| Version.DecimalDigits | include/zbxversion.h:25-26 | the decimal form of every version is 10000 major + 100 minor + patch, and can be read back for two-digit minor and patch |
| Version.DecimalOrdersExactly | include/zbxversion.h:25-26 | the decimal form keeps the packed order on a box of versions exactly when no field can carry |

## Left out

- Vectors.Vector.SetDiff: requires that right is another vector with its own storage; the C function does not forbid the same one.
- Vectors.Vector.Remove: a bad index, on which the C function logs and exits, is a precondition; so it is for Vectors.Vector.RemoveNoOrder.
- Vectors.Vector.Sort: which order qsort gives to elements that compare equal is not modelled; the proofs hold for each.
- The containers of `include/zbxalgo.h` whose bodies are not in the header: hash sets and maps, heap, pointer queue, list, and the 128-bit arithmetic.
- The comparators whose bodies are not in the header, among them the one for doubles; the theorems for any comparator cover them.
- The compact 31-bit integers of `include/zbxserialize.h`, whose bodies are not in the header.
- Allocation failure, alignment of the words read from a buffer, and byte orders other than little-endian.
- Doubles in the codec are their 64 bits; in the agent result they are real numbers.
- Readers demand that a length-prefixed block is in the buffer as a whole; for a vector whose length is no multiple of 8 the C reader touches up to 7 bytes less.
- A setter of the agent result is given memory that is newly allocated, as the header's notes ask; a NULL value is not modelled.
- The meta information and the binary value have no setter macro; storing them is modelled as one step each.
- Timestamp, severity and event id of a log record, which no macro reads.
- All other headers, which have types, constants and prototypes only, and the web pages under `ui`.
