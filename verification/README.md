# Hiya: a verified model of its codec, transport, authenticator and daemon tables

Hiya is a fingerprint daemon with a built-in CTAP2 authenticator. This project models the parts of it
whose correctness is hard to see from the code, and proves what they promise for every input, every run
and every interleaving. `dafny verify dfyconfig.toml` checks all of it.

| module | models |
|---|---|
| `Bytes`, `CborHead`, `CborValue` | numbers in bytes, CBOR heads, and a reference grammar of CBOR items with its inverse |
| `CborDecoder` | the cursor decoder and its depth-bounded skip |
| `CborSize` | the independent size calculator, and its agreement with the decoder |
| `CborLog`, `CborEncoder` | the buffer-writing encoder with its stack of open containers, and what its buffer means |
| `CborRoundTrip` | emitting a value tree and reading it back |
| `CborMapSort` | the in-place canonical map sort and the map lookups |
| `CtapHid` | CTAPHID framing: fragments, channels, reassembly, eviction, time-outs |
| `Pin` | PIN, retries and blocking, over subcommands, resets, lost saves and restarts |
| `Credentials`, `Assertions`, `Counters`, `Authenticator` | the resident credential slots as one state machine, what its runs guarantee, and the commands that implement it |
| `CredFile` | the credential file, byte for byte |
| `BioTemplates` | the fingerprint templates of bio enrollment |
| `Der` | raw signature to DER |
| `RateLimit`, `RateTable` | the failure rate limiters of the fingerprint device and, in a table with eviction, of the daemon's users |
| `Sessions`, `Enrollment` | the daemon's session table and its enrollment list |
| `Groups` | ancestor search in the vault's groups |
| `GroupText`, `GroupListing`, `GroupForest` | the listing of the groups for any parent relation, and exactly when its text is well-formed |
| `Fprintd` | the fprintd-compatible devices with their asynchronous tasks |

## How to read it

State that the source updates in place is a class whose methods follow the source step by step. Where
runs matter, a datatype `Event` lists the steps, `Next` (or `Step`) is one step, `After` (or `Run`) is a
run, the method of each command is proved to take exactly that step, and the lemmas about runs follow. Clocks, random
numbers, cryptography, user verification and the outcome of every save or allocation are inputs, so the
theorems hold for all of them.

Integers are unbounded and every width that matters is written out: the 64-bit arguments of CBOR, the
32-bit signature counters that wrap, the unsigned clock differences, the 32-bit seconds of ExtendSession.
`size_t` has 64 bits and no object is larger than `PTRDIFF_MAX`.

Where the code and a natural claim about it differ, the code is modelled as it is and the exact condition
is proved:

- The map sort orders keys by length and then bytewise, the order of section 4.2.3 of RFC 8949.
- Thresholds above 33 never lock anybody out, although the configuration accepts up to 100 (`RingDecides`).
- Looking up an unknown user in a full table of rate limiters evicts the first of the least active users and
  lifts that user's lockout (`LockoutLiftedIff`), even a running one (`EvictionLiftsLockout`), but that only
  where all 128 users are locked out (`RunningLockoutEvicted`).
- A replacement whose save fails leaves the credential count one too high and can leave a dead slot in a
  running enumeration (`CountMatchesSlots`, `StepKeepsPending`; `LostReplacement`, `LostListed`).
- Signature counters keep increasing across restarts exactly as long as restarts take back no more raises
  than went unanswered (`CountersIncrease`). The global counter is not saved by a non-discoverable credential,
  so it can repeat (`GlobalIncreasesIff`); a credential whose assertions are saved never does
  (`ResidentNeverRepeats`).
- More than 8 wrong PINs are compared since the last correct one or reset exactly when restarts have handed
  back more retries than are left or withheld (`MoreThanEightIff`, from the balance `RetriesBalance`): never
  where failures are saved (`AtMostEightWrong`), any number where they are not (`UnsavedFailuresAreUnbounded`).
- A group listing has stray commas exactly when a group started at the top is not its parent's only child
  (`WellFormedIffOnlyChildren`); two groups are enough (`StrayComma`).
- Stop or Release silences a device only while its tasks do not overlap (`SilentAfterEnding`).
- The worker behind the fprintd devices appends a second template for a finger instead of replacing the
  first (`StoreKeepsDistinct`, `WorkerDuplicates`).
- Extending a session can shorten it when the sum of seconds overflows (`ExtendKeepsAge`, `ExtendCanShorten`).

## Model

| member | source | states |
|---|---|---|
| Bytes.BigEndianRoundTrip | src/cbor/bio_cbor_encoder.c:63-103 | a number written big-endian in n bytes is read back from them |
| Bytes.BigEndianInverse | src/cbor/bio_cbor_decoder.c:69-108 | the bytes read are exactly those the number would be written as |
| CborHead.HeadRoundTrip | src/cbor/bio_cbor_encoder.c:114-143 | a written head is read back with the same major type, argument and size |
| CborHead.EncodeHeadLiteral | src/cbor/bio_cbor_encoder.c:114-143 | a head byte by byte: major type times 32, then the value or 24 to 27 and its 1, 2, 4 or 8 bytes, most significant first |
| CborHead.HeadIsRead | src/cbor/bio_cbor_decoder.c:123-184 | a head is read, in the shortest form or not, exactly where its bytes are there and its additional information is below 28, and with which argument |
| CborHead.HeadIsShortest | src/cbor/bio_cbor_encoder.c:114-143 | every head that reads as the same argument is at least as long as the written one |
| CborValue.ParseEncoded | src/cbor/bio_cbor_decoder.c:210-381 | the reference parser inverts the encoding of every encodable tree, at any place in any buffer |
| CborValue.EncodingLiteral | src/cbor/bio_cbor_encoder.c:195-437 | the first byte of every kind of item has its major type 0 to 7, followed by the argument and the payload as written out |
| CborValue.NestingIs | src/cbor/bio_cbor_decoder.c:390-437 | an item nests within a limit if and only if its items, or the content of a tag, nest within one less |
| CborValue.EncodingIsPrefixFree | src/cbor/bio_cbor_encoder.c:195-345 | two trees whose encodings start the same bytes are the same tree |
| CborValue.ParseItemLocal | src/cbor/bio_cbor_decoder.c:210-381 | an item depends on its own bytes only: it parses the same wherever those bytes stand |
| CborDecoder.Decoder.Read | src/cbor/bio_cbor_decoder.c:25-44 | reads exactly n bytes or sets the sticky error; never past the end |
| CborDecoder.Decoder.ReadHead | src/cbor/bio_cbor_decoder.c:123-184 | succeeds exactly on a well-formed head and returns its fields |
| CborDecoder.Decoder.DecodeNext | src/cbor/bio_cbor_decoder.c:210-381 | succeeds exactly where the next item is well-formed, and then returns it, of the kind that the top three bits of its first byte say, a negative integer with its raw argument and the value -1 - argument or INT64_MIN, and moves behind it; failures are sticky |
| CborDecoder.StepOfItem | src/cbor/bio_cbor_decoder.c:390-437 | one decoding step relates to the reference grammar: leaf, container or tag, within a nesting limit |
| CborDecoder.Decoder.SkipDepth | src/cbor/bio_cbor_decoder.c:390-437 | skips exactly one item of the reference grammar, if and only if it nests no deeper than what is left of 16 levels |
| CborDecoder.Decoder.Skip | src/cbor/bio_cbor_decoder.c:439-443 | succeeds if and only if there is an item nested at most 16 deep, and stops behind it; terminates for every declared count |
| CborSize.DecodeHeadRaw | src/cbor/bio_cbor_ctap2.c:75-118 | the second head parser accepts and reads exactly what the first does |
| CborSize.ItemSizeDepth | src/cbor/bio_cbor_ctap2.c:120-208 | the size is that of the reference item, if and only if it nests within the limit |
| CborSize.ItemSize | src/cbor/bio_cbor_ctap2.c:210-213 | the same with the limit of 32 levels, for every byte string |
| CborSize.CompareParsers | src/cbor/bio_cbor_ctap2.c:120-213 | on every byte string, skip succeeds if and only if the size calculator does and nesting is at most 16, and then both advance by the same positive number of bytes |
| CborLog.DeliverBytes | src/cbor/bio_cbor_encoder.c:149-170 | completing containers, however many at once, changes no byte of what the log stands for |
| CborLog.AddItemBytes | src/cbor/bio_cbor_encoder.c:149-170 | one more item appends exactly its encoding |
| CborLog.OpenContainerBytes | src/cbor/bio_cbor_encoder.c:283-345 | opening a container appends exactly its head, and an empty one completes at once |
| CborLog.AddTagBytes | src/cbor/bio_cbor_encoder.c:349-356 | a tag appends its head and waits for its content |
| CborLog.CompleteIffSkippable | src/cbor/bio_cbor_decoder.c:390-437 | a log's bytes are skipped to their end if and only if no container or tag is open and no item nests too deep |
| CborEncoder.Encoder.Length | src/cbor/bio_cbor_encoder.c:183-186 | after an error 0, otherwise the bytes it covers are exactly those of all items, open containers and tags written |
| CborEncoder.Encoder.Perform | src/cbor/bio_cbor_encoder.c:195-437 | any call without an error adds to the log exactly what it stands for, a reserved value nothing; an error, once set, stays |
| CborEncoder.Encoder.PerformAll | src/cbor/bio_cbor_encoder.c:149-170 | after any sequence of calls: 0 bytes once an error was set; otherwise exactly what the calls stand for one after the other, and for tag-free calls skippable to the end if and only if no container is open |
| CborEncoder.Encoder.Write | src/cbor/bio_cbor_encoder.c:34-53 | appends all bytes or none, never past the buffer; an overflow is sticky |
| CborEncoder.Encoder.WriteHead | src/cbor/bio_cbor_encoder.c:114-143 | appends exactly the shortest head |
| CborEncoder.Encoder.TrackItem | src/cbor/bio_cbor_encoder.c:149-170 | the popping loop completes exactly the containers the item fills; each open one keeps fewer children than its count |
| CborEncoder.Encoder.EncodeUInt | src/cbor/bio_cbor_encoder.c:195-203 | succeeds exactly when there is room and no earlier error; the buffer then holds the old items plus this one |
| CborEncoder.Encoder.EncodeNegInt | src/cbor/bio_cbor_encoder.c:205-214 | the same for a negative integer given by its argument |
| CborEncoder.Encoder.EncodeInt | src/cbor/bio_cbor_encoder.c:216-235 | the same for every signed 64-bit integer, INT64_MIN included: the head written at the old offset has major type 0 and argument value, or major type 1 and argument -1 - value, and decodes to exactly that value |
| CborEncoder.Encoder.EncodeByteString | src/cbor/bio_cbor_encoder.c:237-255 | the same for byte strings |
| CborEncoder.Encoder.EncodeTextString | src/cbor/bio_cbor_encoder.c:257-273 | the same for text strings |
| CborEncoder.Encoder.EncodeSimple | src/cbor/bio_cbor_encoder.c:358-406 | the same for simple values, refusing the reserved ones; bool, null and undefined are cases of it |
| CborEncoder.Encoder.EncodeFloat | src/cbor/bio_cbor_encoder.c:408-437 | the same for the bits of single and double floats |
| CborEncoder.Encoder.EncodeContainer | src/cbor/bio_cbor_encoder.c:283-345 | opens an array or map, refusing a seventeenth level; the buffer stays the image of the log |
| CborEncoder.Encoder.EncodeTag | src/cbor/bio_cbor_encoder.c:349-356 | writes a tag head for the next item |
| CborEncoder.Encoder.DepthZeroIffSkippable | src/cbor/bio_cbor_encoder.c:149-170 | after any tag-free calls, depth is 0 if and only if repeated skipping consumes the buffer to its end |
| CborRoundTrip.WriteTree | src/cbor/bio_cbor_encoder.c:195-345 | emitting any tree succeeds if and only if it fits the buffer and opens at most 16 containers; it appends exactly its encoding |
| CborRoundTrip.ReadTree | src/cbor/bio_cbor_decoder.c:210-381 | item-by-item decoding rebuilds exactly the tree of the reference grammar, and fails exactly where there is none |
| CborRoundTrip.WriteThenRead | src/cbor/bio_cbor_encoder.c:195-345 | writing any encodable tree and reading it back gives the same tree, whenever it fits the buffer and opens at most 16 containers |
| CborMapSort.KeyOrderLaws | src/cbor/bio_cbor_ctap2.c:233-242 | the key comparison is a total order in which only equal keys tie |
| CborMapSort.SortedIsShorterThenBytewise | src/cbor/bio_cbor_ctap2.c:233-242 | pairs are sorted if and only if of any two keys the first is shorter, or as long and smaller at the first byte that differs, or equal |
| CborMapSort.SortedUnique | src/cbor/bio_cbor_ctap2.c:244-317 | a map without repeated keys has exactly one sorted form |
| CborMapSort.EqualKeysAreAmbiguous | src/cbor/bio_cbor_ctap2.c:244-317 | with a repeated key and different values it has two |
| CborMapSort.ReadPairs | src/cbor/bio_cbor_ctap2.c:244-300 | cuts the map into whole key/value pairs, or fails exactly when some item is malformed |
| CborMapSort.SortMap | src/cbor/bio_cbor_ctap2.c:244-317 | on success the head and the trailing bytes are unchanged and the pairs are a permutation in which shorter keys come first and keys of one length are in byte order; on failure nothing changes |
| CborMapSort.SortedIsMap | src/cbor/bio_cbor_ctap2.c:244-317 | the sorted buffer is again a map with exactly those pairs and the same end |
| CborMapSort.SortIsIdempotent | src/cbor/bio_cbor_ctap2.c:244-317 | sorting a sorted map of distinct keys changes no byte |
| CborMapSort.MapFind | src/cbor/bio_cbor_decoder.c:632-688 | a lookup finds the first matching key, a miss restores the cursor, a malformed entry is an error |
| CborMapSort.FindInEntries | src/cbor/bio_cbor_decoder.c:632-688 | a lookup in well-formed entries finds an entry with that key, and misses only when there is none |
| CborMapSort.LookupSurvivesSort | src/cbor/bio_cbor_ctap2.c:244-317 | for keys distinct as decoded values, a lookup returns the same value bytes before and after the sort |
| CtapHid.StepKeepsInv | src/fido2/bio_fido2_uhid.c:562-696 | every report and every sweep keeps ids distinct and unreserved and every unfinished message at 57 + 59 * next_seq bytes, below its length of at most 7609 |
| CtapHid.ReachableInv | src/fido2/bio_fido2_uhid.c:562-696 | so it holds in every reachable state |
| CtapHid.SendResponse | src/fido2/bio_fido2_uhid.c:293-335 | the fragmenter's reports, for every payload below 65536 bytes: exactly the specified fragments |
| CtapHid.FragmentBytes | src/fido2/bio_fido2_uhid.c:293-335 | each report byte by byte: 64 bytes, the channel id, the command with its top bit and the length or the number of the report, 57 or 59 bytes of data, zeros |
| CtapHid.CountIsLeast | src/fido2/bio_fido2_uhid.c:293-335 | as many reports as the data needs and no more |
| CtapHid.Continuation | src/fido2/bio_fido2_uhid.c:649-696 | a continuation on an idle channel does nothing, out of sequence it drops the message, in sequence it adds 59 bytes or hands the message over |
| CtapHid.Initialization | src/fido2/bio_fido2_uhid.c:562-648 | a command on a channel in use is handed over at once up to 57 bytes, and up to 7609 begins a message |
| CtapHid.Ignored | src/fido2/bio_fido2_uhid.c:562-696 | short reports, unknown channels and lengths above 7609 change nothing |
| CtapHid.StepElsewhere | src/fido2/bio_fido2_uhid.c:562-696 | traffic on other channels that neither evicts nor times out this one changes nothing on it and dispatches nothing for it |
| CtapHid.FirstStep | src/fido2/bio_fido2_uhid.c:562-648 | the first fragment starts the message, or dispatches it when it is complete |
| CtapHid.NextStep | src/fido2/bio_fido2_uhid.c:649-696 | a continuation appends its bytes, and the last one dispatches |
| CtapHid.ReassemblyIsExact | src/fido2/bio_fido2_uhid.c:562-696 | any message up to 7609 bytes, fragmented and interleaved arbitrarily, other channels' evictions included, is dispatched exactly once with the same command and bytes |
| CtapHid.Transport.FindChannel | src/fido2/bio_fido2_uhid.c:205-213 | finds the channel in use with the id, or none |
| CtapHid.Transport.AllocChannel | src/fido2/bio_fido2_uhid.c:215-286 | takes the first free slot, else the first of the least recently active ones, with an unreserved id drawn in at most 64 tries; no other slot changes |
| CtapHid.Transport.ProcessReport | src/fido2/bio_fido2_uhid.c:562-696 | handles a report as the state machine says and keeps the invariant |
| CtapHid.Transport.SweepStale | src/fido2/bio_fido2_uhid.c:722-742 | drops exactly the unfinished messages that were idle for more than 500 ms |
| Groups.FindGroup | src/daemon/bio_daemon.c:1237-1255 | the first group with the id; none for an id nobody has, nor for the empty one |
| Groups.Pigeonhole | src/daemon/bio_daemon.c:1284-1338 | more chain steps than groups repeat a group |
| Groups.ShorterChain | src/daemon/bio_daemon.c:1284-1338 | an ancestor reached after any number of steps is reached in fewer than group_count |
| Groups.InScope | src/daemon/bio_daemon.c:1284-1338 | the walk that stops after group_count + 1 steps answers as unbounded ancestor reachability does, cycles included |
| GroupListing.Lister.EmitNode | src/daemon/bio_daemon.c:1423-1487 | writes exactly the specified attempts for any groups; the depth guard never cuts anything off |
| GroupListing.Lister.ListGroups | src/daemon/bio_daemon.c:1521-1565 | the two passes write exactly the specified listing, for any ids and any parent relation |
| GroupListing.EveryGroupOnce | src/daemon/bio_daemon.c:1521-1565 | every group is emitted exactly once, cycles, self-parents and repeated ids included |
| GroupText.WellFormedIffOrderly | src/daemon/bio_daemon.c:1465-1483 | the text is that of a forest if and only if no group already out is met beside another attempt |
| GroupListing.ListingWellFormedIff | src/daemon/bio_daemon.c:1423-1565 | the same for the listing of any groups, repeated ids included |
| GroupForest.ListingMatches | src/daemon/bio_daemon.c:1423-1565 | with distinct ids, which groups stand at the top, and below every node its children in order with a hole for each of those |
| GroupForest.TopsAreExact | src/daemon/bio_daemon.c:1521-1565 | with distinct ids, exactly which groups stand at the top, and in which order: in list order those without a parent but themselves, then one for each cycle left |
| GroupForest.ChildrenAre | src/daemon/bio_daemon.c:1465-1483 | the children of a group are exactly those that name its id, in list order |
| GroupForest.WellFormedIffOnlyChildren | src/daemon/bio_daemon.c:1423-1565 | with distinct ids and any cycles, the listing is well-formed if and only if every group at the top that has a parent is that parent's only child |
| GroupForest.ListingNests | src/daemon/bio_daemon.c:1423-1565 | a well-formed listing is a forest in which all but the groups at the top hang under their parents |
| GroupForest.AcyclicListing | src/daemon/bio_daemon.c:1423-1565 | without cycles it is well-formed, and everything hangs under its parent |
| GroupForest.SelfParents | src/daemon/bio_daemon.c:1539-1542 | where self-parents are the only cycles, it is well-formed if and only if no self-parent has another child |
| GroupForest.StrayComma | src/daemon/bio_daemon.c:1473-1480 | two groups whose listing is not well-formed |
| RateLimit.NewestDecide | src/daemon/bio_daemon.c:4643-4664 | the newest 32 failures decide every threshold up to 33 as the whole log does |
| RateLimit.RingDecides | src/daemon/bio_daemon.c:4643-4664 | the ring reaches a threshold if and only if the log does and it is at most 33 |
| RateLimit.LargerThresholdsDiffer | src/daemon/bio_daemon.c:4643-4664 | for every larger threshold a burst that the log would punish goes unnoticed |
| RateLimit.FailureRing.CountRecent | src/fingerprint/bio_fingerprint.c:702-708 | counts exactly the failures of the newest 32 that lie in the window |
| RateLimit.FailureRing.Push | src/fingerprint/bio_fingerprint.c:710-714 | the ring holds the newest 32 failures, in rotation |
| RateTable.Limiters.FindStalest | src/daemon/bio_daemon.c:4550-4570 | the first entry of least activity: the latest raw failure time or the end of the lockout |
| RateTable.Limiters.FindLimiter | src/daemon/bio_daemon.c:4530-4575 | the user's entry, a new one, or in a full table the stalest one made blank |
| RateTable.Limiters.CheckUser | src/daemon/bio_daemon.c:4592-4624 | allowed exactly when no lockout of the user runs; an expired lockout clears the failures but keeps the raw times and the lockouts; the table moves as specified |
| RateTable.Limiters.RecordFailure | src/daemon/bio_daemon.c:4636-4684 | locks the user out exactly when the unbounded log would and the threshold is at most 33, for the base time times 1, 2, 4, 8, 16, 32 after 0 to 5 lockouts in a row and times 64 after more, at most 3600 seconds; the table moves as specified |
| RateTable.Limiters.Reset | src/daemon/bio_daemon.c:4689-4702 | a success forgets failures, lockout and backoff |
| RateLimit.FailureTimely | src/daemon/bio_daemon.c:4636-4684 | a failure never brings the end of a lockout forward |
| RateLimit.OwnEventLifts | src/daemon/bio_daemon.c:4592-4702 | a user's own event brings the end of a lockout forward if and only if it is a success or a check that finds it expired |
| RateTable.ReachableOk | src/daemon/bio_daemon.c:4530-4702 | in every reachable table each user has at most one entry, whose ring holds the newest failures |
| RateTable.OtherEvent | src/daemon/bio_daemon.c:4530-4575 | another user's event leaves a user's limiter alone, unless the table is full, that other user is unknown and this one is the first of the least active |
| RateTable.TableIsIdeal | src/daemon/bio_daemon.c:4530-4702 | over every run a user's limiter is the unbounded one after its own events since its last eviction |
| RateTable.LockoutLiftedIff | src/daemon/bio_daemon.c:4530-4702 | over every run, an event brings the end of a user's lockout forward if and only if it is that user's success, a check after expiry, or an eviction |
| RateTable.RunningLockoutEvicted | src/daemon/bio_daemon.c:4550-4575 | a running lockout is evicted only from a table whose 128 users are all locked out, none for less time |
| RateTable.EvictionLiftsLockout | src/daemon/bio_daemon.c:4550-4575 | a run that lifts a running lockout |
| RateLimit.DeviceLimiter.Check | src/fingerprint/bio_fingerprint.c:670-694 | the device's limiter allows exactly when no lockout runs |
| RateLimit.DeviceLimiter.RecordFailure | src/fingerprint/bio_fingerprint.c:696-722 | and locks out, for a constant time, exactly when the unbounded log would |
| RateLimit.DeviceLimiter.Reset | src/fingerprint/bio_fingerprint.c:724-731 | a reset forgets failures and lockout |
| Pin.ReachableInv | src/fido2/bio_fido2_pin.c:378-746 | in memory and in every snapshot: 0 to 8 retries, blocked if and only if 0, and without a PIN all 8 and unblocked, whatever saves fail |
| Pin.ReachableDurable | src/fido2/bio_fido2_pin.c:457-463 | a PIN in memory is always also the PIN on disk |
| Pin.RestartKeepsPin | src/fido2/bio_fido2_pin.c:1511-1531 | a restart that can read the file keeps an existing PIN |
| Pin.RetriesBalance | src/fido2/bio_fido2_pin.c:517-541 | over every run, whatever is saved or readable: wrong PINs since the last correct one or reset, retries left and retries withheld make up 8 and what restarts handed back |
| Pin.MoreThanEightIff | src/fido2/bio_fido2_pin.c:517-541 | at most 8 wrong PINs if and only if restarts handed back no more than is left or withheld |
| Pin.WrongWithinBudget | src/fido2/bio_fido2_pin.c:517-541 | so wrong PINs and retries left stay within 8 and what restarts handed back |
| Pin.NothingRegained | src/fido2/bio_fido2_pin.c:525-530 | restarts hand back nothing where every failed comparison is saved and the file can be read |
| Pin.AtMostEightWrong | src/fido2/bio_fido2_pin.c:517-541 | so over those runs at most 8 wrong PINs are compared since the last correct one or reset |
| Pin.RetriesAreExact | src/fido2/bio_fido2_pin.c:517-541 | n wrong PINs in a row use exactly n retries, and the last blocks |
| Pin.RetriesAreWhatIsLeft | src/fido2/bio_fido2_pin.c:517-545 | over every run without restarts or a right PIN whose change fails, wrong PINs since the last right one or reset and the retries left make up exactly 8 |
| Pin.BlockedUntilReset | src/fido2/bio_fido2_pin.c:478-481 | once blocked in memory and on disk, no run without a reset compares a PIN again |
| Pin.UnsavedFailuresAreUnbounded | src/fido2/bio_fido2_pin.c:525-530 | without saved failures there are runs with any number of wrong PINs, and restarts hand back exactly as many retries |
| Pin.PinLength | src/fido2/bio_fido2_pin.c:430-433 | the length without exactly the trailing zero bytes |
| Pin.Authenticator.SetPin | src/fido2/bio_fido2_pin.c:378-474 | takes the machine's step exactly for well-formed requests with an acceptable PIN: a PIN that is saved has the new digest, 8 retries and is not blocked; a failed save rolls back |
| Pin.Authenticator.GetPinToken | src/fido2/bio_fido2_pin.c:476-591 | a right PIN gives back all 8 retries and changes nothing else, a wrong one takes a retry and blocks at the last; every outcome for missing and blocked PINs; the same steps with permissions at lines 912-1030 |
| Pin.Authenticator.FailedPin | src/fido2/bio_fido2_pin.c:517-541 | one retry less, blocked at the last, saved |
| Pin.Authenticator.ChangePin | src/fido2/bio_fido2_pin.c:593-746 | a right old PIN with an acceptable new one that is saved leaves the new digest and 8 retries, otherwise everything as it was; a wrong old PIN takes a retry |
| Pin.Authenticator.ResetAll | src/fido2/bio_fido2_pin.c:1039-1105 | succeeds exactly within ten seconds of the start with the user present, and then forgets everything |
| Credentials.MatchingExact | src/fido2/bio_fido2_credential.c:1417-1444 | a walk over the slots lists exactly the matching ones, in slot order, each once |
| Credentials.FirstIsLeast | src/fido2/bio_fido2_credential.c:792-819 | the search returns the first matching slot |
| Credentials.RpsExact | src/fido2/bio_fido2_bio_cred.c:907-931 | the relying parties listed are exactly those of the credentials in use, each once |
| Credentials.CollectRps | src/fido2/bio_fido2_bio_cred.c:905-931 | the nested loop computes that list; its capacity test never fires |
| Credentials.Collect | src/fido2/bio_fido2_credential.c:1417-1444 | the loop collects exactly the matching slots; its capacity test never fires |
| Credentials.CountIsExact | src/fido2/bio_fido2_credential.c:789-861 | over every run the count is the slots in use plus the replacements whose save failed since the last reset or restart |
| Credentials.CountMatchesSlots | src/fido2/bio_fido2_credential.c:789-861 | the count equals the slots in use if and only if no replacement has lost its save |
| Credentials.LostReplacement | src/fido2/bio_fido2_credential.c:852-859 | a credential replaced with a lost save leaves the count one too high |
| Credentials.RestartKeepsCredentials | src/fido2/bio_fido2_pin.c:1533-1644 | a restart right after a save brings back all credentials in order and the counter, and a right count |
| Credentials.BeginListsAll | src/fido2/bio_fido2_bio_cred.c:983-997 | enumeration begins with exactly the slots in use whose rpHash is that of the relying party |
| Credentials.StepKeepsPending | src/fido2/bio_fido2_bio_cred.c:872-1083 | any command keeps the listed slots live if and only if it is not a replacement of a listed credential whose save fails |
| Credentials.LostListed | src/fido2/bio_fido2_credential.c:852-859 | and a listing begun before it names a dead slot |
| Credentials.PendingOverRuns | src/fido2/bio_fido2_bio_cred.c:872-1083 | over every run whose credentials are saved, each listed slot holds a credential of the enumerated relying party |
| Assertions.EnumerationIsExact | src/fido2/bio_fido2_credential.c:1417-1512 | within thirty seconds the i-th command addresses the i-th admissible slot in slot order, each once, then none; admissible is a slot in use with that rpHash and credProtect at most 1, or 2 with a verified user |
| Assertions.OtherCommandsEndIt | src/fido2/bio_fido2.c:638-645 | any other command ends the enumeration: nothing answers until the next GetAssertion, at any clock reading |
| Assertions.MatchesAreLive | src/fido2/bio_fido2_credential.c:1472-1512 | in every reachable state GetNextAssertion finds its credential in use |
| Counters.StepRaises | src/fido2/bio_fido2_credential.c:1128-1147 | a raise is by one, for the credential with an id wherever it stands, or globally |
| Counters.StepKeepsCounter | src/fido2/bio_fido2_credential.c:1128-1147 | no command but a raise, a restart, a reset or making the credential changes its counter |
| Counters.StepAnswers | src/fido2/bio_fido2_credential.c:1128-1147 | a response carries the old counter plus one |
| Counters.RestoredHolder | src/fido2/bio_fido2_pin.c:1533-1644 | loading keeps the counter of a credential although it moves it to another slot |
| Counters.Ledger | src/fido2/bio_fido2_credential.c:1128-1147 | over every run between resets a counter is the last reported one plus the unanswered raises less what restarts took |
| Counters.CountersIncrease | src/fido2/bio_fido2_credential.c:1128-1147 | over every run between resets, restarts and lost saves included, reported counters strictly increase if and only if at each response restarts have taken no more than went unanswered |
| Counters.FileLags | src/fido2/bio_fido2_pin.c:1153-1243 | over every run with readable files a counter is ahead of the one in the file by exactly the raises since the last successful save |
| Counters.RestartTakesRaises | src/fido2/bio_fido2_pin.c:1428-1428 | so a restart takes exactly those raises from the margin |
| Counters.SavedAnswersIncrease | src/fido2/bio_fido2_credential.c:1459-1465 | they do where every restart finds the owner's responses saved |
| Counters.ResidentNeverRepeats | src/fido2/bio_fido2_credential.c:1503-1509 | a credential whose assertions are saved never repeats a counter, over any restarts, deletions and other lost saves |
| Counters.GlobalIncreasesIff | src/fido2/bio_fido2_credential.c:717-730 | where every raise is answered, the global counters strictly increase if and only if no response follows a restart before which another was unsaved |
| Assertions.AnswersAreDurable | src/fido2/bio_fido2_credential.c:1459-1465 | a successful, saved assertion leaves its counter on disk |
| Counters.RestartRepeatsCounter | src/fido2/bio_fido2_credential.c:717-730 | any unsaved response, a restart and another response repeat the global counter or go back |
| Authenticator.Device.MakeCredential | src/fido2/bio_fido2_credential.c:717-861 | replaces the credential of the same user and relying party, else takes the first free slot; every effect of a failed signature, save or encoding, field by field |
| Authenticator.Device.SaveOnly | src/fido2/bio_fido2.c:473-479 | a shutdown, or a clientPin command, brings the file up to date |
| Authenticator.Device.DeleteCredential | src/fido2/bio_fido2_bio_cred.c:1063-1083 | removes the first credential with the id; NoCredentials exactly when there is none |
| Authenticator.Device.UpdateUser | src/fido2/bio_fido2_bio_cred.c:1086-1127 | renames, never changing the user id |
| Authenticator.Device.BeginCredentials | src/fido2/bio_fido2_bio_cred.c:983-1032 | lists the relying party's credentials and returns the first |
| Authenticator.Device.NextCredential | src/fido2/bio_fido2_bio_cred.c:1035-1060 | returns the next listed slot, a live credential of the relying party |
| Authenticator.Device.BeginRelyingParties | src/fido2/bio_fido2_bio_cred.c:905-957 | lists the relying parties and returns the first |
| Authenticator.Device.NextRelyingParty | src/fido2/bio_fido2_bio_cred.c:960-980 | returns the next one |
| Authenticator.Device.BuildAssertion | src/fido2/bio_fido2_credential.c:1117-1247 | raises the counter, keeps it raised when signing fails, takes it back when encoding fails |
| Authenticator.Device.GetAssertion | src/fido2/bio_fido2_credential.c:1417-1468 | answers with the first admissible credential and its counter; NoCredentials exactly when no slot has that rpHash and credProtect at most 1, or 2 with a verified user |
| Authenticator.Device.GetNextAssertion | src/fido2/bio_fido2_credential.c:1472-1512 | answers with the next one; NotAllowed exactly after thirty seconds |
| Authenticator.Device.AssertWithWrapped | src/fido2/bio_fido2_credential.c:1334-1413 | answers under the global counter, with the same treatment of failures, and leaves no matches but the time |
| Authenticator.Device.GetMetadata | src/fido2/bio_fido2_bio_cred.c:884-902 | reports the count and what it leaves of the 64 slots; it ends any enumeration |
| Authenticator.Device.Start | src/fido2/bio_fido2.c:390-468 | a restart keeps nothing but what the file gives back: all of it, the counter of its header, or nothing |
| Authenticator.Device.Reset | src/fido2/bio_fido2_pin.c:1063-1101 | empties slots, counters and enumerations |
| CredFile.ProtectRoundTrip | src/fido2/bio_fido2_pin.c:1238-1242 | the biased credProtect byte reads back if and only if it is at most 0xEF; bytes of the older format read as 1 and 3 |
| CredFile.FieldsRoundTrip | src/fido2/bio_fido2_pin.c:1191-1243 | the fields of an entry give back every stored field of the credential |
| CredFile.CutEntry | src/fido2/bio_fido2_pin.c:1559-1642 | wherever an entry stands, cutting at the offsets recovers its fields |
| CredFile.EntryStrings | src/fido2/bio_fido2_pin.c:1191-1243 | the offset of every string of an entry, and its flag |
| CredFile.EntryNumbers | src/fido2/bio_fido2_pin.c:1191-1243 | the offset and bytes of every number of an entry |
| CredFile.PinRoundTrip | src/fido2/bio_fido2_pin.c:1176-1189 | the stored PIN image gives back the persistent PIN fields |
| CredFile.PinLayout | src/fido2/bio_fido2_pin.c:1176-1189 | the offset of every field of the PIN image, and zeros elsewhere |
| CredFile.WritePlain | src/fido2/bio_fido2_pin.c:1166-1243 | the writes stay within max_plain for every table and produce exactly the plaintext |
| CredFile.ReadFields | src/fido2/bio_fido2_pin.c:1557-1640 | reads all sixteen fields, or stops exactly when the entry is truncated |
| CredFile.Context.Load | src/fido2/bio_fido2_pin.c:1511-1644 | the loading loop computes its specification for every file, malformed and truncated ones included |
| CredFile.GarbageIsSkipped | src/fido2/bio_fido2_pin.c:1533-1560 | a byte that is no entry flag takes up one of the counted entries, and an entry cut short ends the reading |
| CredFile.SaveThenLoad | src/fido2/bio_fido2_pin.c:1153-1644 | save then load restores PIN, global counter and the credentials in slot order, as many as the header counts |
| BioTemplates.ReachableTemplates | src/fido2/bio_fido2_bio_cred.c:332-525 | in every reachable state at most one template is incomplete, it is the active one, and the count equals the slots in use |
| BioTemplates.FourSamplesComplete | src/fido2/bio_fido2_bio_cred.c:395-434 | after an enrollment begins, it is complete exactly when four captures with its id have arrived |
| BioTemplates.Registry.BeginEnrollment | src/fido2/bio_fido2_bio_cred.c:332-393 | drops an abandoned enrollment and begins one in the first free slot |
| BioTemplates.Registry.CaptureNext | src/fido2/bio_fido2_bio_cred.c:395-434 | takes one sample of the active template with this id, and at the last ends the enrollment |
| BioTemplates.Registry.CancelEnrollment | src/fido2/bio_fido2_bio_cred.c:436-449 | removes exactly an incomplete active template |
| BioTemplates.Registry.Enumerate | src/fido2/bio_fido2_bio_cred.c:451-483 | lists exactly the completed templates in slot order |
| BioTemplates.Registry.SetFriendlyName | src/fido2/bio_fido2_bio_cred.c:485-503 | renames the first template with the id |
| BioTemplates.Registry.RemoveEnrollment | src/fido2/bio_fido2_bio_cred.c:505-525 | removes it and ends its enrollment |
| Der.TrimKeepsNumber | src/fido2/bio_fido2_credential.c:40-47 | dropping leading zeros keeps the number |
| Der.IntegerRoundTrip | src/fido2/bio_fido2_credential.c:88-101 | each INTEGER is minimal, non-negative and parses to the same number |
| Der.SignatureRoundTrip | src/fido2/bio_fido2_credential.c:34-104 | for every r and s the encoding has at most 72 bytes, a SEQUENCE of two INTEGERs with short lengths, and parses to the same two integers |
| Der.SignatureToDer | src/fido2/bio_fido2_credential.c:34-104 | writes exactly the encoding and no byte behind it, or nothing and 0 when it does not fit; never fails with capacity 72 |
| Fprintd.IdleIffUnclaimed | src/daemon/bio_fprintd_compat.c:405-433 | under every interleaving a device is idle if and only if nobody claims it |
| Fprintd.ClaimerStays | src/daemon/bio_fprintd_compat.c:506-782 | the claimer stays until it releases the device or vanishes |
| Fprintd.OneSignalPerTask | src/daemon/bio_fprintd_compat.c:338-403 | each started task gets exactly one signal when its completion arrives uncancelled, and none otherwise |
| Fprintd.SilentAfterEnding | src/daemon/bio_fprintd_compat.c:405-433 | Stop, Release or disappearance silences all earlier tasks in every continuation if and only if the only running task is the one the device can cancel |
| Fprintd.ReachableTidy | src/daemon/bio_fprintd_compat.c:338-782 | without overlapping tasks, a device is busy exactly while its latest task runs |
| Fprintd.EndingIsSilent | src/daemon/bio_fprintd_compat.c:686-782 | so Stop and Release then silence everything started before |
| Fprintd.OnlyEndingCancels | src/daemon/bio_fprintd_compat.c:405-433 | nothing else cancels a task |
| Fprintd.OverlapSpeaksAfterRelease | src/daemon/bio_fprintd_compat.c:351-364 | with an overlap, a signal comes after Release |
| Fprintd.Shim.ClaimDevice | src/daemon/bio_fprintd_compat.c:506-583 | claims exactly an idle device |
| Fprintd.Shim.ReleaseBy | src/daemon/bio_fprintd_compat.c:585-611 | only the claimer releases |
| Fprintd.Shim.StartTask | src/daemon/bio_fprintd_compat.c:613-684 | only the claimer of a device that is not busy starts a task; enrolling at lines 708-760 |
| Fprintd.Shim.StopTask | src/daemon/bio_fprintd_compat.c:686-706 | only the claimer stops, and only a task of that kind |
| Fprintd.Shim.TaskReady | src/daemon/bio_fprintd_compat.c:338-403 | unless cancelled one signal with the task's own kind and outcome, and the device is no longer busy |
| Fprintd.Shim.ClaimerVanished | src/daemon/bio_fprintd_compat.c:441-479 | releases every device of the vanished client and changes no other |
| Sessions.ExtendKeepsAge | src/daemon/bio_daemon.c:4939-4951 | created lands in [now - max, now]; an extension does not shorten if and only if remaining + seconds fits 32 bits, and is then exact |
| Sessions.ExtendCanShorten | src/daemon/bio_daemon.c:4939-4951 | an extension that shortens a session |
| Sessions.Table.Lookup | src/daemon/bio_daemon.c:2348-2446 | the first live wanted session, dropping exactly the expired ones before it; the count stays right |
| Sessions.Table.FindSession | src/daemon/bio_daemon.c:2348-2380 | finds a session exactly when a live one has the token |
| Sessions.Table.SecondsRemaining | src/daemon/bio_daemon.c:2382-2446 | exactly when a live verified session of the user exists that is bound to no bus name or to the caller's, the remaining seconds of the first such session |
| Sessions.Table.Authenticate | src/daemon/bio_daemon.c:4767-4779 | a successful authentication makes a session that is live and verified |
| Sessions.Table.SetVerified | src/daemon/bio_daemon.c:6217-6240 | marks one session and changes nothing else |
| Sessions.Table.Revoke | src/daemon/bio_daemon.c:2448-2482 | drops exactly the user's sessions bound to no bus name or to the caller's, and counts them |
| Sessions.Table.Create | src/daemon/bio_daemon.c:2484-2562 | a live session gives way only when all slots are live, and then it is one with the least creation time; when creating fails |
| Sessions.Table.Oldest | src/daemon/bio_daemon.c:2512-2522 | the eviction loop finds a session of least creation time before now |
| Sessions.Table.Extend | src/daemon/bio_daemon.c:4903-4968 | extends exactly the caller's live verified sessions |
| Sessions.Table.Sweep | src/daemon/bio_daemon.c:9271-9303 | drops exactly the expired sessions |
| Sessions.Table.Reload | src/daemon/bio_daemon.c:9028-9047 | keeps the sessions below the new capacity and no others; slot 0 always stays |
| Enrollment.NeverOverLimit | src/daemon/bio_daemon.c:5829-5858 | in every interleaving no user exceeds the limit, or its starting number where that was larger |
| Enrollment.OthersUnchanged | src/daemon/bio_daemon.c:2624-2654 | no step changes another user's enrollments, in contents or order |
| Enrollment.OthersUnchangedOverRuns | src/daemon/bio_daemon.c:2624-2654 | nor does any run |
| Enrollment.StoreKeepsDistinct | src/daemon/bio_daemon.c:9869-9943 | storing keeps one enrollment per finger if and only if it is not the worker storing a finger already enrolled |
| Enrollment.Daemon.CountFor | src/daemon/bio_daemon.c:5691-5700 | the number of the user's enrollments |
| Enrollment.Daemon.CheckRoom | src/daemon/bio_daemon.c:5691-5709 | the first check takes exactly its step and finds room exactly below the limit |
| Enrollment.Daemon.StoreTask | src/daemon/bio_daemon.c:5829-5848 | the recheck and store of either path take exactly their step, as allocation and seal allow; the worker's at lines 9869-9943 |
| Enrollment.WorkerDuplicates | src/daemon/bio_daemon.c:9902-9937 | the worker enrolling one finger twice leaves two entries |
| Enrollment.Daemon.AddEnrollment | src/daemon/bio_daemon.c:2624-2654 | replaces the finger's entry or appends, growing the array |
| Enrollment.Daemon.StoreFromBus | src/daemon/bio_daemon.c:5829-5848 | stores exactly when the recheck finds room |
| Enrollment.Daemon.StoreFromWorker | src/daemon/bio_daemon.c:9869-9943 | the same, appending; a failed seal stores nothing |
| Enrollment.Daemon.Remove | src/daemon/bio_daemon.c:5882-5902 | removes the first entry of the finger and keeps the order of the rest |
| Enrollment.Daemon.RemoveAll | src/daemon/bio_daemon.c:9966-9986 | the in-place compaction keeps exactly the other users' entries, in order |

## Left out

- Cryptography, TPM, fingerprint driver, D-Bus plumbing, sockets, files, logging, wiping and locking of memory: they enter as inputs, if at all.
- NULL arguments and failed allocations, except where an operation rolls back because of them.
- `bio_cbor_encode_head_raw`: the same head again, written into a bare buffer.
- The typed wrappers around `bio_cbor_decode_next` and the conversion of half floats: easy branching over what the decoder returns; floats are their bits.
- CborMapSort.QSort: the C library's qsort is known by its contract only, so a map with a repeated key and different values has no unique result; the model sorts by insertion.
- CborMapSort.SortIsIdempotent: asks for distinct keys, since `EqualKeysAreAmbiguous` shows that equal keys leave the C sort free.
- CtapHid.Transport.ProcessReport: returns the messages to dispatch; what a handler does with them, apart from INIT's effect on the table, and the error replies are left out. The message buffer is the prefix filled so far, and the clock does not run backwards.
- GroupListing.Lister.ListGroups: the JSON text is a sequence of tokens without the fields of a node.
- RateTable.Limiters.RecordFailure: a fixed configuration and a monotone clock.
- RateLimit.DeviceLimiter.RecordFailure: the source reads the wall clock; the contract assumes that it does not go back.
- Pin.Authenticator.GetPinToken: the token, its permissions and the fresh key agreement are one outcome, `finish`.
- Pin.AtMostEightWrong: assumes that failures are saved and that a restart can read the file; `Pin.MoreThanEightIff` covers the other runs.
- getUvToken, setMinPINLength, getInfo and selection, which do not touch the state modelled here.
- Authenticator.Device.GetAssertion: the empty allowList; an allowList is answered through the wrapped credential (`AssertWithWrapped`) and its global counter.
- Counters.CountersIncrease: between resets, below 2^32, and with no credential id given out twice.
- CredFile.SaveThenLoad: the header's magic and version bytes, the sealing of the plaintext and the older version 1 format.
- Slots not in use hold nothing in the model, so the stale bytes the source leaves there are not captured.
- Fprintd.Shim.Handle: listing and deleting enrolled fingers, and shutdown.
- Sessions.Table.Create: the token is an input, and failures of the two random draws and of memory locking are one.
- Enrollment.NeverOverLimit: the limit is fixed; a reload that lowers it does not remove enrollments.
- Config files, the PAM module, the console-user lookup, the vault store and its file formats: input and output around the modelled core.
