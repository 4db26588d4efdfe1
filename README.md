# RAID simulator and math-game model

This Dafny project models two parts of one Go repository.

The first is the storage core of a RAID simulator. It has an in-memory `Disk`, five controllers and a shared erasure-coding helper:

- `RAID0Controller` stripes chunks round-robin.
- `RAID1Controller` mirrors the whole write on every disk.
- `RAID10Controller` stripes over mirror pairs, with read-modify-write inside a chunk.
- `RAID5Controller` keeps one parity shard per stripe, rotating over the disks.
- `RAID6Controller` keeps two parity shards per stripe, on the last two disks.
- `rsutil` encodes stripe shards and rebuilds lost ones.

The second is the model layer of a math game: operators and questions (`question.go`) and players (`player.go`).

Each controller is a `class` whose field is the list of disks (or mirror pairs). Its `Write`, `Read` and `ClearDisk` methods have the loops of the Go code, with their invariants. Each method is proved equal to a specification function on values (`WriteResult`, `ReadResult`, `ClearDiskData`, ...). The properties the simulator promises are lemmas about those functions:

- read after write;
- which failures a read survives;
- which failures make it fail, and with which error;
- that each write keeps every parity shard equal to the code applied to its data shards.

Modules, one per file: `Wrappers`, `Bytes`, `GoInt` (Go's truncating `/` and `%`, and `%d`), `Arith`, `Base` (`base.go`), `RsUtil` (`rsutil.go`), `Raid0`, `Raid1`, `Raid10` and `Raid5`, `Raid6`. RAID5 and RAID6 share the code in `Stripes`, `StripeProps` and `Parity`, which is split into specification, read/write lemmas and parity/failure lemmas. Then `Questions` and `Players`.

Reed-Solomon coding is modelled as a value `Code` with two byte functions: a parity byte of the data, and a rebuilt byte of a lost shard. The library's promise is the hypothesis `RsUtil.Recovers(code, k, p)`: any `p` lost shards of a codeword are rebuilt exactly. The failure lemmas take it as a requirement.

- RAID5 uses `RsUtil.XorCode`: with one parity shard the parity is the byte-wise XOR of the data shards, which is what the RAID5 tests expect on the disks (`raid5_test.go:84-99`, `raid5_test.go:128-137`). `RsUtil.XorRecovers` proves that XOR meets the hypothesis.
- RAID6's controller takes its `Code` as a constructor argument. Its failure lemmas assume `Recovers(code, k, 2)`.

Where the code and its documentation disagree, the model follows the code:

- Read after write holds for RAID5 and RAID6 writes at stripe-aligned offsets only (`m * bytesPerFullStripe`). That is what `raid5.go:83` and `raid6.go:79` compute: the partial stripe's handling assumes the full stripes start at an aligned offset. A round trip at any offset is not claimed.
- RAID0's `Read` returns the first `length` bytes of stripes 0, 1, ... with the first `start mod stripeSz` bytes dropped. It does not return bytes `[start, start+length)`. See Findings.
- RAID0's `Write` takes only the data (`raid0.go:26`), while its tests call `Write(data, 0, 0)`. The model has the one-argument `Write`.
- A read of RAID5 data after two disk failures fails with the wrapped "too many missing shards" error (`raid5.go:292-295`). The test expects a different text there.
- `NewQuestion` fails on the draw `"/"` with `b == 0`, as `question.go:51-54` does. `model_test.go:46-62` expects no error.
- The read-modify-write of a partial stripe first appends zero chunks to every disk until it holds the target stripe (`raid5.go:136-140`). The model reproduces that. On a disk that was cleared, that refill puts a zero chunk into every earlier stripe too (`Stripes.RefillHidesLoss`). Read then takes those zeros as present shards and no longer rebuilds the lost bytes. For example: RAID5 on 3 disks with stripe size 1, write "ABCDEF" at 0, clear disk 1, write "G" at 6. A read of the first 6 bytes now shows zeros where disk 1's data shards were.

## Model

| member | source | states |
|---|---|---|
| Base.FreshDisks | raid-simulator/internal/raid/raid5.go:31-34 | n disks; disk i has ID i and no chunks |
| Base.ClearDiskData | raid-simulator/internal/raid/raid5.go:336-344 | the cleared disk keeps its ID and loses every chunk; every other disk is unchanged |
| Base.ClearEach | raid-simulator/internal/raid/raid6.go:368-376 | after clearing the disks in `order` one by one, a disk has no chunks exactly when it is named in `order`; the others are unchanged |
| Base.ClearTwice | raid-simulator/internal/raid/raid6.go:368-376 | clearing [a, b] in turn is clearing a, then b |
| Base.ClearThrice | raid-simulator/internal/raid/raid6.go:368-376 | clearing [a, b, c] in turn is clearing a, then b, then c |
| Base.Extend | raid-simulator/internal/raid/raid5.go:97-99 | a disk keeps its ID and its old chunks, and gains exactly the requested number of chunks, each `size` zero bytes |
| Base.ClearKeepsChunksSized | raid-simulator/internal/raid/raid5.go:336-344 | clearing a disk keeps every remaining chunk stripeSz bytes long |
| GoInt.Quo | raid-simulator/internal/raid/raid5.go:83 | Go's `/`: the magnitude is the quotient of the magnitudes, and a nonzero result has the sign of the operands' product |
| GoInt.Rem | raid-simulator/internal/raid/raid5.go:179 | Go's `%`: a == q*b + r, with abs(r) < abs(b) and r zero or of the sign of a |
| GoInt.FormatRoundTrip | math-game/internal/model/question.go:43 | parsing what `%d` prints gives the number back |
| RsUtil.EncodeStripeShards | raid-simulator/internal/rsutil/rsutil.go:9-34 | k + p shards of stripeSize bytes; the data shards are the input split into zero-padded stripeSize pieces; the whole is the systematic codeword of those data shards |
| RsUtil.EncodeIgnoresTail | raid-simulator/internal/rsutil/rsutil.go:13-23 | input bytes beyond k * stripeSize do not change the shards |
| RsUtil.EncodeEmptyData | raid-simulator/internal/rsutil/rsutil.go:13-23 | an empty input gives all-zero data shards |
| RsUtil.EncodeEmptyXor | raid-simulator/internal/rsutil/rsutil.go:13-29 | with XOR parity an empty input gives all-zero shards, parity included |
| RsUtil.MissingCount | raid-simulator/internal/rsutil/rsutil.go:37-42 | the nil shards counted; zero exactly when every shard is present |
| RsUtil.Reconstruct | raid-simulator/internal/rsutil/rsutil.go:36-57 | fails exactly when more shards are missing than there are parity shards, with that count; otherwise present shards are kept, and a complete array comes back unchanged |
| RsUtil.ReconstructStripeShards | raid-simulator/internal/rsutil/rsutil.go:36-57 | on the caller's array: on an error the array is unchanged; otherwise it holds every shard, with the present ones kept |
| RsUtil.ReconstructSized | raid-simulator/internal/rsutil/rsutil.go:52 | rebuilt shards have the size of the surviving ones |
| RsUtil.ReconstructCodeword | raid-simulator/internal/rsutil/rsutil.go:48-56 | under the library's erasure-code promise, a codeword with at most p shards lost is rebuilt exactly |
| RsUtil.ReconstructAfterEncode | raid-simulator/internal/rsutil/rsutil.go:9-57 | encode, lose at most p shards, reconstruct: the encoding comes back |
| RsUtil.XorCodewordColumn | raid-simulator/internal/raid/raid5.go:36-40 | data plus XOR parity XORs to zero in every byte column |
| RsUtil.XorRecovers | raid-simulator/internal/raid/raid5.go:36-40 | the single-parity (XOR) code rebuilds any one lost shard |
| Raid0.WriteChunks | raid-simulator/internal/raid/raid0.go:26-41 | Write's pieces: the data split into ceil(len/stripeSz) zero-padded stripeSz chunks, none for empty data |
| Raid0.WriteChunksCover | raid-simulator/internal/raid/raid0.go:29-39 | the chunks cover the data with less than one chunk of padding, and laid end to end are the data plus zeros |
| Raid0.CutChunk | raid-simulator/internal/raid/raid0.go:30-35 | the piece cut at i * stripeSz, zero-padded, is chunk i; the next piece starts one chunk later |
| Raid0.DealShape | raid-simulator/internal/raid/raid0.go:36-38 | dealing chunks round-robin gives disk d as many chunks as there are indices c with c mod n == d |
| Raid0.DealPosition | raid-simulator/internal/raid/raid0.go:36-38 | chunk c lands on disk c mod n, after that disk's old chunks, at position c / n |
| Raid0.CollectStripesSpec | raid-simulator/internal/raid/raid0.go:48-63 | collecting stripes succeeds exactly when each is on its disk, and then yields them in order |
| Raid0.ReadResult | raid-simulator/internal/raid/raid0.go:43-66 | Read's result is never longer than the requested length |
| Raid0.RAID0Controller.constructor | raid-simulator/internal/raid/raid0.go:12-24 | diskCount empty disks numbered 0 .. n-1, and the stripe size |
| Raid0.RAID0Controller.Write | raid-simulator/internal/raid/raid0.go:26-41 | never fails; the disks become the old disks with the chunks of data dealt round-robin |
| Raid0.RAID0Controller.AssemblePrefix | raid-simulator/internal/raid/raid0.go:44-64 | Read's loop: the first `length` bytes of the visited stripes, or the first missing stripe |
| Raid0.RAID0Controller.Read | raid-simulator/internal/raid/raid0.go:43-66 | the result is ReadResult of the disks |
| Raid0.RAID0Controller.ClearDisk | raid-simulator/internal/raid/raid0.go:68-74 | an index out of range gives "invalid disk index" and changes nothing; otherwise that disk loses its chunks |
| Raid0.ReadStep | raid-simulator/internal/raid/raid0.go:54-63 | one turn of Read's loop appends the chunk on disk c mod n at index c / n |
| Raid0.ReadStopsAt | raid-simulator/internal/raid/raid0.go:51-53 | the first missing stripe makes Read fail naming its disk and chunk |
| Raid0.CollectStopsAtError | raid-simulator/internal/raid/raid0.go:48-53 | once a stripe is missing, visiting more stripes reports the same one |
| Raid0.ReadAfterWrite | raid-simulator/internal/raid/raid0.go:43-66 | after Write(d) on fresh disks, Read(start, length) gives d[start mod stripeSz .. length] |
| Raid0.PrefixAfterWrite | raid-simulator/internal/raid/raid0.go:44-64 | after Write(d), Read's loop assembles exactly the first `length` bytes of d |
| Raid0.WriteThenRead | raid-simulator/internal/raid/raid0_test.go:10-19 | Write(d) then Read(0, len(d)) gives d back |
| Raid0.ReadFailsIffStripeMissing | raid-simulator/internal/raid/raid0.go:48-53 | Read fails exactly when one of the stripes it visits is not on its disk |
| Raid0.ClearThenReadFails | raid-simulator/internal/raid/raid0_test.go:21-33 | clearing any disk that received a chunk makes reading the data back fail |
| Raid0.ReadInsideStripeExample | raid-simulator/internal/raid/raid0_test.go:55-64 | on 3 disks of 4-byte stripes, Read(2, 4) of "ABCDEFGH" gives "CD", not bytes 2..5 |
| Raid0.ReadPartialStripeExample | raid-simulator/internal/raid/raid0_test.go:44-53 | Read(0, 3) of "ABCDEF" gives "ABC" |
| Raid0.ReadIntended | raid-simulator/internal/raid/raid0_test.go:61 | the corrected read: the visited stripes' bytes from start for length bytes; never longer than length |
| Raid0.ReadIntendedAfterWrite | raid-simulator/internal/raid/raid0.go:43-66 | after Write(d), the corrected read of any range inside d gives exactly d[start .. start+length] |
| Raid1.MirrorAll | raid-simulator/internal/raid/raid1.go:20-26 | every disk keeps its ID and holds the single chunk data |
| Raid1.FirstWithData | raid-simulator/internal/raid/raid1.go:29-33 | the first disk with a chunk, if any; none exactly when every disk is empty |
| Raid1.ReadResult | raid-simulator/internal/raid/raid1.go:28-40 | a result has exactly the requested length; with every disk empty, "no available disk with data" |
| Raid1.RAID1Controller.constructor | raid-simulator/internal/raid/raid1.go:9-18 | diskCount empty disks numbered 0 .. n-1 |
| Raid1.RAID1Controller.Write | raid-simulator/internal/raid/raid1.go:20-26 | never fails; every disk holds exactly the written data |
| Raid1.RAID1Controller.Read | raid-simulator/internal/raid/raid1.go:28-40 | the result is ReadResult of the disks |
| Raid1.RAID1Controller.ClearDisk | raid-simulator/internal/raid/raid1.go:42-48 | an index out of range gives "invalid disk index" and changes nothing; otherwise that disk loses its data |
| Raid1.ReadFromAnyCopy | raid-simulator/internal/raid/raid1.go:28-40 | on mirrored disks, Read gives what any one surviving copy gives |
| Raid1.WriteMirrors | raid-simulator/internal/raid/raid1.go:20-26 | after Write every disk holds the same data, and disk IDs are kept |
| Raid1.ClearKeepsMirrored | raid-simulator/internal/raid/raid1.go:42-48 | clearing a disk keeps the surviving copies identical |
| Raid1.WriteThenRead | raid-simulator/internal/raid/raid1.go:20-40 | Write(data) then Read(start, length) inside data gives data[start .. start+length] |
| Raid1.ReadBeyondDataFails | raid-simulator/internal/raid/raid1.go:34-36 | a range past the end of the data gives "read range exceeds data length" |
| Raid1.ReadSurvivesFailures | raid-simulator/internal/raid/raid1_test.go:21-33 | any sequence of failures that leaves one disk leaves every read of the data as before |
| Raid1.ReadAllFailed | raid-simulator/internal/raid/raid1_test.go:35-50 | with every disk cleared, Read gives "no available disk with data" |
| Raid10.Locate | raid-simulator/internal/raid/raid10.go:59-61 | a logical byte's pair (stripe mod P), chunk (stripe / P) and position (offset mod stripeSz), all in range |
| Raid10.LocateLogical | raid-simulator/internal/raid/raid10.go:59-73 | Locate inverts Logical |
| Raid10.LogicalLocate | raid-simulator/internal/raid/raid10.go:59-73 | Logical inverts Locate: the address translation is a bijection |
| Raid10.FreshMirrors | raid-simulator/internal/raid/raid10.go:25-31 | pair j is the empty disks 2j and 2j+1 |
| Raid10.CheckNew | raid-simulator/internal/raid/raid10.go:18-23 | accepted exactly for an even disk count of at least 4 and a positive stripe size; otherwise the first failing check's error |
| Raid10.WriteResult | raid-simulator/internal/raid/raid10.go:41-95 | a write keeps the number of pairs, every disk ID and every chunk's size |
| Raid10.GrowPair | raid-simulator/internal/raid/raid10.go:67-70 | both disks of the pair grown by zero chunks until the primary holds the chunk |
| Raid10.PlacePiece | raid-simulator/internal/raid/raid10.go:63-89 | one turn of Write's loop: the pair grown, then the piece copied into the chunk on both disks |
| Raid10.RAID10Controller.constructor | raid-simulator/internal/raid/raid10.go:17-37 | on accepted arguments, totalDisks / 2 empty pairs and the stripe size |
| Raid10.RAID10Controller.New | raid-simulator/internal/raid/raid10.go:17-37 | the error is CheckNew's, with no controller; otherwise a fresh controller of empty pairs |
| Raid10.RAID10Controller.Write | raid-simulator/internal/raid/raid10.go:41-95 | empty data changes nothing; a negative offset is refused and changes nothing; otherwise the pairs become WriteResult |
| Raid10.ReadFrom | raid-simulator/internal/raid/raid10.go:158-201 | a successful read loop gives exactly end - cur bytes |
| Raid10.ReadFromStep | raid-simulator/internal/raid/raid10.go:160-199 | one turn: the piece of the current chunk from the first healthy disk, then the rest of the range |
| Raid10.ReadResult | raid-simulator/internal/raid/raid10.go:98-202 | a result is never longer than the requested length |
| Raid10.StoredBytes | raid-simulator/internal/raid/raid10.go:114-139 | the end of the highest stripe on any pair, counting the longer disk of each pair |
| Raid10.ReadRange | raid-simulator/internal/raid/raid10.go:158-201 | Read's loop over [start, end) is ReadFrom |
| Raid10.RAID10Controller.Read | raid-simulator/internal/raid/raid10.go:98-202 | the result is ReadResult of the pairs |
| Raid10.FindFrom | raid-simulator/internal/raid/raid10.go:205-219 | ClearDisk's scan: none exactly when no disk has the ID; otherwise the first match, primary before backup |
| Raid10.ClearSlot | raid-simulator/internal/raid/raid10.go:210 | the found disk loses its chunks and keeps its ID; everything else is unchanged |
| Raid10.RAID10Controller.ClearDisk | raid-simulator/internal/raid/raid10.go:205-224 | an unknown ID gives "disk not found" and changes nothing; otherwise the found disk is cleared |
| Raid10.FindNumbered | raid-simulator/internal/raid/raid10.go:205-222 | with pairs numbered 2j, 2j+1, the IDs found are exactly 0 .. 2P-1, in pair ID / 2, primary when even |
| Raid10.Source | raid-simulator/internal/raid/raid10.go:170-176 | a chunk found for a pair is that chunk of its primary or of its backup |
| Raid10.ReadFromOk | raid-simulator/internal/raid/raid10.go:170-180 | the read loop succeeds exactly when every byte of the range has a healthy source |
| Raid10.ReadFromBytes | raid-simulator/internal/raid/raid10.go:182-199 | byte i of a successful read is the stored byte at cur + i |
| Raid10.ReadFromMissing | raid-simulator/internal/raid/raid10.go:178-180 | a failed read names the first offset without a source, with its pair, chunk and stripe |
| Raid10.ReadNeverWritten | raid-simulator/internal/raid/raid10.go:136-146 | on a never-written array every read is refused: a negative range as such, any other as beyond the stored -1 |
| Raid10.ReadInside | raid-simulator/internal/raid/raid10.go:148-160 | a read that ends inside the stored data is the loop over exactly that range |
| Raid10.StoredCovers | raid-simulator/internal/raid/raid10.go:114-139 | after a write, the stored data reaches at least its end |
| Raid10.WrittenAt | raid-simulator/internal/raid/raid10.go:55-93 | after a write, each written byte is found at its logical offset |
| Raid10.ReadWritten | raid-simulator/internal/raid/raid10.go:158-201 | the read loop over a range inside the last write gives the written bytes |
| Raid10.WriteThenRead | raid-simulator/internal/raid/raid10.go:41-202 | Write(data, offset) then Read of any range inside it gives that range of data, on any array |
| Raid10.WriteKeepsInSync | raid-simulator/internal/raid/raid10.go:88-89 | a write keeps the two disks of every pair identical |
| Raid10.FreshInSync | raid-simulator/internal/raid/raid10.go:25-31 | a new array is numbered, sized and in sync |
| Raid10.ReadFromAlike | raid-simulator/internal/raid/raid10.go:158-201 | pairs with the same source for every chunk give the same read loop |
| Raid10.ReadResultAlike | raid-simulator/internal/raid/raid10.go:98-202 | arrays with the same stored total and the same sources answer every read alike |
| Raid10.ClearAlike | raid-simulator/internal/raid/raid10.go:119-124 | clearing one disk of an in-sync pair changes neither the pair's chunk count nor any source |
| Raid10.ClearKeepsRead | raid-simulator/internal/raid/raid10_test.go:39-52 | on an in-sync array, clearing any one disk leaves every read unchanged |
| Raid10.ClearKeepsValid | raid-simulator/internal/raid/raid10.go:205-224 | clearing keeps the numbering and the chunk sizes |
| Stripes.CheckNew | raid-simulator/internal/raid/raid5.go:24-29 | accepted exactly for at least MinDisks disks and a positive stripe size; otherwise the first failing check's error |
| Stripes.StripeBytes | raid-simulator/internal/raid/raid5.go:74 | a stripe holds stripeSz bytes per data shard, at least two shards' worth |
| Stripes.ShardDiskInverse | raid-simulator/internal/raid/raid5.go:93-106 | the disk-to-shard and shard-to-disk maps are inverse bijections |
| Stripes.RotatingPlacement | raid-simulator/internal/raid/raid5.go:93-106 | RAID5: stripe s has its parity on disk s mod n, and the other disks hold the data shards in order |
| Stripes.FixedPlacement | raid-simulator/internal/raid/raid6.go:92-106 | RAID6: disks 0 .. n-3 hold data shards 0 .. n-3, disk n-2 holds P and disk n-1 holds Q |
| Stripes.Shards | raid-simulator/internal/raid/raid5.go:265-290 | the shard array Read hands to the codec has one entry per disk |
| Stripes.StripeData | raid-simulator/internal/raid/raid5.go:292-303 | a rebuilt stripe holds exactly bytesPerFullStripe bytes |
| Stripes.MaxChunks | raid-simulator/internal/raid/raid5.go:226-231 | no disk holds more chunks, and one holds exactly that many |
| Stripes.StripeListItem | raid-simulator/internal/raid/raid5.go:263 | entry s of the stripe list is stripe s as Read rebuilds it |
| Stripes.ReadResult | raid-simulator/internal/raid/raid5.go:204-333 | a result is never longer than the requested length |
| Stripes.ReadStored | raid-simulator/internal/raid/raid5.go:263-326 | a successful read of the stored stripes gives exactly end - start bytes |
| Stripes.PutChunk | raid-simulator/internal/raid/raid5.go:97-104 | a disk keeps its ID and grows by exactly the chunks needed to hold chunk s; chunk s becomes the new chunk, the old chunks stay, and the added ones are zeros |
| Stripes.Encode | raid-simulator/internal/raid/raid5.go:87 | a stripe's encoding has one stripeSz shard per disk |
| Stripes.StripeSlice | raid-simulator/internal/raid/raid5.go:85 | full stripe i of the data is bytesPerFullStripe long |
| Stripes.FullStripes | raid-simulator/internal/raid/raid5.go:82-113 | Write's loop keeps the disk count, the IDs and the chunk sizes |
| Stripes.PlaceStripeChunks | raid-simulator/internal/raid/raid5.go:95-107 | after storing stripe s, each disk's chunk s is its shard; other chunks are old or zero |
| Stripes.PlaceStripeShape | raid-simulator/internal/raid/raid5.go:95-107 | storing stripeSz shards keeps every chunk stripeSz bytes and every ID |
| Stripes.PartialWrite | raid-simulator/internal/raid/raid5.go:128-200 | the read-modify-write keeps the disk count, the IDs and the chunk sizes |
| Stripes.WriteResult | raid-simulator/internal/raid/raid5.go:61-125 | Write keeps the disk count, the IDs and the chunk sizes |
| Stripes.FirstStripe | raid-simulator/internal/raid/raid5.go:83 | the full stripes start at offset / bytesPerFullStripe, never negative when there are any |
| Stripes.TailStart | raid-simulator/internal/raid/raid5.go:76-79 | the partial stripe starts after the full ones, and it and the remainder make up the data |
| Stripes.TailPos | raid-simulator/internal/raid/raid5.go:179-181 | the remaining bytes fit in the tail stripe from their position on |
| Stripes.WriteTailIs | raid-simulator/internal/raid/raid5.go:115-122 | with a remainder, Write's tail is the read-modify-write of the remaining bytes at the computed stripe and position |
| Stripes.RefillPresent | raid-simulator/internal/raid/raid5.go:136-150 | after the refill every disk holds the target chunk and no shard is missing |
| Stripes.StripeBuffer | raid-simulator/internal/raid/raid5.go:174-177 | the read-modify-write buffer is bytesPerFullStripe long |
| Stripes.GrowDisk | raid-simulator/internal/raid/raid5.go:97-99 | the disk grown by exactly the zero chunks needed to hold chunk s |
| Stripes.PhysicalShards | raid-simulator/internal/raid/raid5.go:265-277 | each disk's chunk for the stripe, nil where the disk lacks it |
| Stripes.GatherRotating | raid-simulator/internal/raid/raid5.go:279-290 | RAID5's shard order is Shards |
| Stripes.GatherFixed | raid-simulator/internal/raid/raid6.go:279-284 | RAID6's shard order is Shards |
| Stripes.StoreRotating | raid-simulator/internal/raid/raid5.go:93-107 | RAID5's write-out is PlaceStripe |
| Stripes.StoreFixed | raid-simulator/internal/raid/raid6.go:92-106 | RAID6's write-out is PlaceStripe |
| Stripes.RefillDisks | raid-simulator/internal/raid/raid5.go:136-140 | handlePartialWrite's first loop is Refill |
| Stripes.JoinDataShards | raid-simulator/internal/raid/raid5.go:297-303 | the first k shards laid end to end |
| Stripes.ReadStripe | raid-simulator/internal/raid/raid5.go:265-303 | Read's body for one stripe is StripeData |
| Stripes.MaxWrittenStripe | raid-simulator/internal/raid/raid5.go:226-231 | maxWrittenLogicalStripeIdx is the longest chunk list less one |
| Stripes.StripeStep | raid-simulator/internal/raid/raid5.go:305-326 | one turn of Read's loop appends the stripe's piece and moves to the next stripe boundary |
| Stripes.CopyRange | raid-simulator/internal/raid/raid5.go:305-326 | the piece of a stripe between the first and last offsets |
| Stripes.ReadStripes | raid-simulator/internal/raid/raid5.go:263-326 | Read's stripe loop is ReadFrom over the stripe list |
| Stripes.ReadModifyWrite | raid-simulator/internal/raid/raid5.go:128-200 | handlePartialWrite is PartialWrite |
| Stripes.WriteStripe | raid-simulator/internal/raid/raid5.go:85-107 | one turn: the encoding of the stripe's bytes stored as stripe s |
| Stripes.WriteNextStripe | raid-simulator/internal/raid/raid5.go:82-113 | after turn i the disks hold i + 1 full stripes |
| Stripes.WriteFullStripes | raid-simulator/internal/raid/raid5.go:82-113 | Write's loop is FullStripes from offset / bytesPerFullStripe |
| Stripes.WriteRemainder | raid-simulator/internal/raid/raid5.go:115-122 | the remaining bytes go through read-modify-write, if there are any |
| Stripes.WriteArray | raid-simulator/internal/raid/raid5.go:61-125 | Write is WriteResult |
| Stripes.StoredTotal | raid-simulator/internal/raid/raid5.go:226-237 | the highest stripe index and the total bytes Read reckons with |
| Stripes.ReadStoredRange | raid-simulator/internal/raid/raid5.go:253-333 | Read's loop over a range inside the stored total is ReadStored |
| Stripes.ReadArray | raid-simulator/internal/raid/raid5.go:204-333 | Read is ReadResult |
| StripeProps.PlacedShards | raid-simulator/internal/raid/raid5.go:95-107 | Write puts codeword position i where Read looks for it, and every disk then holds the stripe |
| StripeProps.PlaceKeeps | raid-simulator/internal/raid/raid5.go:95-107 | storing stripe s leaves every other chunk as it was |
| StripeProps.CompleteStripe | raid-simulator/internal/raid/raid5.go:292-303 | a stripe with no shard missing reads as its data shards end to end |
| StripeProps.EncodedShards | raid-simulator/internal/raid/raid5.go:292-303 | a stripe holding the encoding of some bytes reads as those bytes |
| StripeProps.EncodedStripe | raid-simulator/internal/raid/raid5.go:85-107 | encoding bytes and storing them as stripe s: stripe s reads back as those bytes |
| StripeProps.StripeShards | raid-simulator/internal/raid/raid5.go:82-113 | after Write's loop, stripe base + i holds the encoding of full stripe i |
| StripeProps.ChunkKept | raid-simulator/internal/raid/raid5.go:82-113 | Write's loop leaves chunks outside the stripes it stores as they were |
| StripeProps.FullStripesContent | raid-simulator/internal/raid/raid5.go:82-113 | after Write's loop, stripe base + i reads as full stripe i of the data |
| StripeProps.PartialWriteKeeps | raid-simulator/internal/raid/raid5.go:128-200 | the read-modify-write leaves every other stripe that all disks held as it was |
| StripeProps.PartialWriteStripe | raid-simulator/internal/raid/raid5.go:174-196 | the target stripe then reads as the old buffer with the new bytes laid over it |
| StripeProps.RefilledBufferPresent | raid-simulator/internal/raid/raid5.go:144-177 | when all disks held the target chunk, the buffer is the stripe's current data |
| StripeProps.ReadFromOk | raid-simulator/internal/raid/raid5.go:292-295 | the read loop succeeds exactly when every stripe it touches was rebuilt |
| StripeProps.ReadFromBytes | raid-simulator/internal/raid/raid5.go:305-326 | byte i of a successful read is the stripe byte at cur + i |
| StripeProps.ReadFromError | raid-simulator/internal/raid/raid5.go:292-295 | a failed read reports the error of the first stripe that cannot be rebuilt |
| StripeProps.ReadStoredBytes | raid-simulator/internal/raid/raid5.go:253-326 | a read inside the stored total succeeds exactly when each byte can be rebuilt, and gives those bytes |
| StripeProps.ReadInRange | raid-simulator/internal/raid/raid5.go:240-326 | a read starting inside the stored total is truncated to it, succeeds exactly when each byte can be rebuilt, and gives those bytes |
| StripeProps.ReadNonEmpty | raid-simulator/internal/raid/raid5.go:233-250 | Read gives back bytes only for a non-empty range starting inside the stored total |
| StripeProps.ReadIsLoop | raid-simulator/internal/raid/raid5.go:240-326 | such a read is its stripe loop up to the end of the range or of the stored total |
| StripeProps.ReadPart | raid-simulator/internal/raid/raid5.go:253-333 | part of what Read(start, length) gives is what Read gives for that part of the range |
| StripeProps.TailBytes | raid-simulator/internal/raid/raid5.go:174-181 | each remaining byte laid over the tail buffer reads back at its own offset |
| StripeProps.WrittenTailByte | raid-simulator/internal/raid/raid5.go:115-122 | after Write, each remaining byte reads back at its own logical offset |
| StripeProps.WrittenFull | raid-simulator/internal/raid/raid5.go:82-122 | after Write, stripe FirstStripe + i reads as full stripe i, unless the partial stripe went there |
| StripeProps.AlignedOffset | raid-simulator/internal/raid/raid5.go:83-119 | at offset m * bytesPerFullStripe Write is defined, and the full stripes start at m with the tail right after, at position 0 |
| StripeProps.WrittenBytes | raid-simulator/internal/raid/raid5.go:61-125 | after an aligned write, every byte of the data reads back at its own offset |
| StripeProps.WrittenStored | raid-simulator/internal/raid/raid5.go:237 | after an aligned write, the stored total reaches the end of the data |
| StripeProps.ReadBack | raid-simulator/internal/raid/raid5.go:204-333 | reading a range inside the stored total whose every byte reads as data gives data |
| StripeProps.WriteThenRead | raid-simulator/internal/raid/raid5.go:61-333 | Write(data, m * bytesPerFullStripe) then Read(offset, len(data)) gives data, on any array and either layout |
| StripeProps.WriteThenReadRange | raid-simulator/internal/raid/raid5.go:61-333 | and any sub-range of that write reads back as that range of data |
| Parity.XorZeroParity | raid-simulator/internal/rsutil/rsutil.go:25-29 | the XOR parity of zero shards is zero |
| Parity.StoredShards | raid-simulator/internal/raid/raid5.go:265-290 | Read finds the stored codeword of a stripe every disk holds, nothing missing |
| Parity.ZeroStripe | raid-simulator/internal/raid/raid5.go:97-99 | the zero chunks Write appends form an encoded stripe when parity of zeros is zero |
| Parity.PlacedCodeword | raid-simulator/internal/raid/raid5.go:93-107 | storing a codeword as stripe s makes stripe s encoded |
| Parity.PlaceKeepsEncoded | raid-simulator/internal/raid/raid5.go:93-107 | storing stripe s keeps every other encoded stripe encoded |
| Parity.PlaceConsistent | raid-simulator/internal/raid/raid5.go:93-107 | storing a codeword keeps a consistent array consistent and sets how many stripes it holds |
| Parity.RefillConsistent | raid-simulator/internal/raid/raid5.go:136-140 | the refill of a consistent array keeps it consistent |
| Parity.FreshConsistent | raid-simulator/internal/raid/raid5.go:31-34 | a new array is consistent |
| Parity.FullStripesConsistent | raid-simulator/internal/raid/raid5.go:82-113 | Write's loop keeps a consistent array consistent |
| Parity.NextStripeConsistent | raid-simulator/internal/raid/raid5.go:85-107 | one turn of that loop keeps it consistent |
| Parity.EncodedConsistent | raid-simulator/internal/raid/raid5.go:87-107 | storing the encoding of any bytes keeps the array consistent |
| Parity.PartialWriteConsistent | raid-simulator/internal/raid/raid5.go:128-200 | the partial-stripe read-modify-write keeps it consistent |
| Parity.WriteTailConsistent | raid-simulator/internal/raid/raid5.go:115-122 | Write's partial last stripe keeps it consistent |
| Parity.FullPart | raid-simulator/internal/raid/raid5.go:82-113 | the full stripes of a write leave a consistent array, on which the tail is then written |
| Parity.WriteConsistent | raid-simulator/internal/raid/raid5.go:61-125 | every Write keeps every parity shard equal to the code applied to its data shards |
| Parity.MissingCountSet | raid-simulator/internal/rsutil/rsutil.go:37-42 | the missing count is the number of missing positions |
| Parity.PositionsCount | raid-simulator/internal/raid/raid5.go:279-290 | lost disks hold as many distinct codeword positions as there are of them |
| Parity.ClearedShards | raid-simulator/internal/raid/raid5.go:265-290 | after clearing disks, a stripe's shards are an erasure of its codeword missing one shard per distinct cleared disk |
| Parity.SameRebuild | raid-simulator/internal/raid/raid5.go:292-303 | arrays whose shards of s rebuild alike read the same stripe s |
| Parity.DegradedStripe | raid-simulator/internal/raid/raid5.go:287-303 | with at most p disks lost, an encoded stripe reads as before |
| Parity.FailedStripe | raid-simulator/internal/raid/raid5.go:292-295 | with more than p disks lost, a stripe every disk held fails with "too many missing shards" |
| Parity.SameList | raid-simulator/internal/raid/raid5.go:263 | arrays whose stripes read alike build the same stripe list |
| Parity.SameReads | raid-simulator/internal/raid/raid5.go:204-333 | Read depends only on how many stripes the disks hold and what each reads as |
| Parity.ClearedLength | raid-simulator/internal/raid/raid5.go:226-231 | clearing some but not all disks of a consistent array keeps the stored stripe count |
| Parity.ClearedShape | raid-simulator/internal/raid/raid5.go:336-344 | clearing keeps every remaining chunk stripeSz bytes |
| Parity.DegradedStripes | raid-simulator/internal/raid/raid5.go:263-303 | with at most p disks lost, every stripe of a consistent array reads as before |
| Parity.DegradedRead | raid-simulator/internal/raid/raid5.go:204-333 | with at most p disks lost, every Read of a consistent array gives what it gave before |
| Parity.FailedRead | raid-simulator/internal/raid/raid5.go:292-295 | with more than p (but not all) disks lost, a read from stripe 0 fails at stripe 0 with "too many missing shards" |
| Parity.FreshWrite | raid-simulator/internal/raid/raid5.go:349-360 | the simulation's write at offset 0 to new disks keeps their shape |
| Parity.FlowSurvives | raid-simulator/internal/raid/raid5.go:349-386 | written data reads back, and still reads back after at most p disks are cleared |
| Parity.FlowFails | raid-simulator/internal/raid/raid6.go:345-385 | after more than p disks are cleared, the second read fails at stripe 0 |
| Raid5.RAID5Controller.constructor | raid-simulator/internal/raid/raid5.go:23-57 | on accepted arguments, diskCount empty disks numbered 0 .. n-1 |
| Raid5.RAID5Controller.New | raid-simulator/internal/raid/raid5.go:23-57 | the error is the first failing check's, with no controller; otherwise a fresh controller |
| Raid5.RAID5Controller.Write | raid-simulator/internal/raid/raid5.go:61-125 | never fails; the disks become WriteResult with XOR parity, and an array whose parity was the XOR of its data stays so |
| Raid5.RAID5Controller.Read | raid-simulator/internal/raid/raid5.go:204-333 | the result is ReadResult with rotating parity |
| Raid5.RAID5Controller.ClearDisk | raid-simulator/internal/raid/raid5.go:336-344 | an index out of range is refused with that index and changes nothing; otherwise that disk loses its chunks |
| Raid5.ClearedDiskReads | raid-simulator/internal/raid/raid5_test.go:287-330 | on a consistent array, clearing any one disk leaves every read unchanged |
| Raid5.SurvivesOneFailure | raid-simulator/internal/raid/raid5.go:349-386 | the simulation flow: data reads back before and after any one disk is cleared |
| Raid5.TwoFailuresFail | raid-simulator/internal/raid/raid5_test.go:332-352 | with two different disks cleared, reading the data fails at stripe 0: 2 shards missing, 1 parity shard |
| Raid6.RAID6Controller.constructor | raid-simulator/internal/raid/raid6.go:23-54 | on accepted arguments, diskCount empty disks and the given code |
| Raid6.RAID6Controller.New | raid-simulator/internal/raid/raid6.go:23-54 | the error is the first failing check's, with no controller; otherwise a fresh controller |
| Raid6.RAID6Controller.Write | raid-simulator/internal/raid/raid6.go:58-121 | never fails; the disks become WriteResult with fixed P and Q, and consistency is kept when the code has zero parity of zeros |
| Raid6.RAID6Controller.Read | raid-simulator/internal/raid/raid6.go:206-329 | the result is ReadResult with fixed parity |
| Raid6.RAID6Controller.ClearDisk | raid-simulator/internal/raid/raid6.go:332-340 | an index out of range is refused and changes nothing; otherwise that disk loses its chunks |
| Raid6.ClearedDisksRead | raid-simulator/internal/raid/raid6_test.go:178-228 | on a consistent array, clearing any two disks leaves every read unchanged |
| Raid6.SurvivesTwoFailures | raid-simulator/internal/raid/raid6.go:345-385 | the simulation flow: data reads back before and after any two disks are cleared |
| Raid6.ThreeFailuresFail | raid-simulator/internal/raid/raid6_test.go:230-251 | with three different disks cleared, reading the data fails at stripe 0: 3 shards missing, 2 parity shards |
| Questions.Apply | math-game/internal/model/question.go:14-30 | a value exactly for the four known operators, except "/" with b == 0; otherwise "divide by zero" for that case and "unknown operator" for the rest |
| Questions.Render | math-game/internal/model/question.go:42-44 | the text `Q<id>: <a> <op> <b> = ?`, each number as `%d` prints it |
| Questions.ApplyOk | math-game/internal/model/question.go:14-30 | Apply succeeds exactly for the four operators except "/" by zero; the two errors otherwise |
| Questions.ApplyArithmetic | math-game/internal/model/question.go:16-21 | "+", "-" and "*" give the sum, the difference and the product |
| Questions.ApplyDivides | math-game/internal/model/question.go:22-26 | "/" gives q exactly when a - q*b is smaller than b in magnitude and is zero or of the sign of a (truncation toward zero) |
| Questions.MulAtLeast | math-game/internal/model/question.go:26 | a nonzero multiple of b is at least b in magnitude, which makes the quotient unique |
| Questions.ApplyExamples | math-game/internal/model/question_test.go:27-65 | 5+3, 9-4, 7*6 and 20/5 give 8, 5, 42 and 4; division by zero and "%" fail |
| Questions.RenderExample | math-game/internal/model/question.go:42-44 | question 1, 5 + 3 is shown as "Q1: 5 + 3 = ?" |
| Questions.RenderRoundTrip | math-game/internal/model/question.go:42-44 | the text of a question gives back its id, operands and operator |
| Questions.NewQuestion | math-game/internal/model/question.go:46-64 | a question exactly when Apply succeeds on the drawn operands and operator, with those fields and Apply's answer; otherwise Apply's error |
| Questions.NewQuestionOutcome | math-game/internal/model/question.go:46-54 | the only failing draw is "/" with b == 0, and every answer lies in -100 .. 10000 |
| Questions.NewQuestionRenders | math-game/internal/model/question.go:42-64 | every question NewQuestion makes reads back from its text |
| Players.RoleString | math-game/internal/model/player.go:17-26 | the text of a role is "teacher", "student" or "unknown" |
| Players.RoleStringCases | math-game/internal/model/player.go:17-26 | "teacher" exactly for RoleTeacher, "student" exactly for RoleStudent, "unknown" for every other value |
| Players.NewTeacher | math-game/internal/model/player.go:57-64 | a teacher with that name, RoleTeacher and no waiting time |
| Players.NewStudent | math-game/internal/model/player.go:45-55 | a student with that name and ID and RoleStudent, waiting a whole number of seconds from 1 to 3 |
| Players.StudentWaits | math-game/internal/model/player.go:50 | the waiting times a student can get are exactly 1 s, 2 s and 3 s |
| Players.StudentWaitsDistinct | math-game/internal/model/player.go:50 | different draws give different waiting times |

## Findings

| source | as written | input that shows it | evidently intended | confidence | as-written member | corrected member |
|---|---|---|---|---|---|---|
| raid-simulator/internal/raid/raid0.go:43-66 | Read assembles the first `length` bytes from stripe 0 on and returns them from `start % stripeSz` on | 3 disks, stripe size 4, Write("ABCDEFGH"), Read(2, 4) gives "CD" | bytes [start, start+length): "CDEF", as the test's comment at raid0_test.go:61 says | medium, not executed | Raid0.ReadInsideStripeExample | Raid0.ReadIntendedAfterWrite |

The controller's `Read` keeps the behaviour as written, because that is what the test asserts. `Raid0.ReadIntended` is the corrected read. `Raid0.ReadIntendedAfterWrite` proves that it returns exactly the requested range of what was written.

## Left out

- Logging (logrus) and the simulation flows' printing are left out. The flows are modelled as lemmas over the specification functions (write, read, clear, read).
- The Reed-Solomon library's internals are left out. It is a `Code` value, and its erasure-code promise is the hypothesis `RsUtil.Recovers`. Its limit on shard counts and the errors of `reedsolomon.New` and of the `Extensions` cast are left out: with at most 256 shards they do not occur. `Encode` and `Reconstruct` never fail in the model beyond the missing-shard check.
- Raid6.RAID6Controller.Write: consistency is kept only under the hypothesis that the injected code gives zero parity for zero data. The failure lemmas also need `Recovers(code, k, 2)`. Both hold for the library's Reed-Solomon code but are not proved here.
- The re-validation branches at the top of Write and Read (too few disks, stripe size not positive, zero bytes per stripe) are left out. So are the "malformed chunk" checks after reconstruction and the read clamps of start/end offsets. The class invariant makes them unreachable.
- Go panics are preconditions:
  - RAID0's Read with a zero stripe size, a negative `length` (a slice capacity), no disks, or a first-stripe offset outside the assembled bytes (`Raid0.ReadDefined`);
  - RAID0's Write of data to zero disks, or with a stripe size that is not positive: with 0 the chunking loop never advances (`raid0.go:29-38`), and a negative size panics in `make` (`raid0.go:34`);
  - RAID0's and RAID1's constructors with a negative disk count, which panics in `make` (`raid0.go:13`, `raid1.go:10`);
  - RAID1's Read of a negative range that passes the range check (`Raid1.ReadDefined`);
  - RAID10's write to a pair whose backup is shorter than its primary (`Raid10.WriteDefined`);
  - RAID5/6 writes whose full stripes would start at a negative stripe index, or whose partial stripe would start at a negative offset or overrun its stripe (`Stripes.WriteDefined`).
- Go's `int` is unbounded in the model. 64-bit overflow in offsets and in `Apply`'s `+ - *`, and the wrap of `MinInt64 / -1` in its `/`, are not modelled; `NewQuestion`'s answers are proved far inside it.
- Randomness is passed in as parameters: `NewQuestion`'s operands and operator index, and `NewStudent`'s `rand.Intn(3)`. `time.Now()` and `Question.Created` are left out.
- `Student.AnswerCh` (a channel) and `AnswerEvent` are left out. So are `game.go`, the service layer, the command-line programs and the `RAIDController` interface, which are not part of this model.
- Disks are values inside the controller's `seq`. Go shares `*Disk` pointers, but no two controllers share a disk, so the model has no aliasing.
