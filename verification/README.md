# FALX V2 in Dafny

FALX V2 is an intrusion prevention system: an XDP program drops packets in the kernel, a control
plane in Go decides what to drop, and an inference process talks to it over a framed socket. This
project models seven of its parts and proves what each is for.

| part | modules |
|---|---|
| QR symbols with Reed-Solomon codewords | `Gf256`, `ReedSolomon`, `QrBits`, `QrCodewords`, `QrMatrix`, `QrSymbol`, `QrFunction`, `QrStream`, `QrFormat` |
| GeoIP country lookup over MaxMind databases | `Mmdb`, `GeoIp` |
| Lock-free single-producer single-consumer ring | `Spsc` |
| XDP packet pipeline | `Xdp`, `XdpProgram`, `XdpBans`, `XdpSyn`, `XdpTokens`, `XdpWindow`, `XdpCounters`, `XdpSweep`, `XdpExpiry`, `XdpBudget`, `XdpDetector`, `XdpConfig` |
| AF_XDP rings and UMEM frames | `XdpRing`, `FrameOwnership`, `AfXdp` |
| Failsafe circuit breaker | `Failsafe`, `FailsafeRuns` |
| FLX2 framing, hardened blocklist writer | `Crc32`, `CrcDivision`, `Flx2`, `WriteWindow`, `HardenedWriter`, `BatchLimits`, `Fingerprints`, `Commits` |

`Bits` and `Basics` hold arithmetic and values that several modules share.

Each part has a specification made of functions over values, theorems about it, and, where the
program works by changing things, classes and loops proved against it. A run is a sequence of
events folded over a state, and a theorem about runs holds for every sequence. What the program
asks of its surroundings is part of the event: clock readings, whether a map write is admitted,
whether a packet parses, what the detector says, what the kernel does with a frame. Machine
integers are written out where they wrap or saturate: the rings' 32 and 64-bit indices, the XDP
counters, the checksums.

Hypotheses that several theorems share:

- The theorems about one source's bans, SYN count or tokens assume that nothing outside the pipeline
  touches that source's map entries (no eviction, no other writer); entries of other sources may
  change in any way between packets. The control plane's sweep is such another writer; what it does to
  a ban is `XdpSweep.BanSurvivesSweepExactly`.
- The Bloom filter reports every address the pipeline inserted and possibly others.
- Clock readings do not run backwards where a theorem names an order.
- The frame theorems take each ring or pool call as one step, and a kernel that returns only frames
  it was given.

Properties that the code does not have, with the exact condition under which it does:

- A text survives the QR encoder only if it is two bytes (version 10: three bytes) shorter than the
  version's data bytes, because the version is selected by text length alone
  (`QrCodewords.EncodeRoundTrip`, `QrCodewords.SixteenBytesLost`).
- Frames are lost exactly when the UMEM has more frames than the fill ring has slots
  (`FrameOwnership.LossExactly`).
- The writer's entry counter can fall below its cache size after a failed batch: exactly for batches
  in which a decision that can fail follows one that rewrites an address after an entry that can
  expire (`BatchLimits.CountExactlyByBatch`, `HardenedWriter.CountDrifts`).
- A failed batch is invisible to the control plane at every clock reading but those from 1 to
  10^9 - 2 (`HardenedWriter.ClockExactly`).
- The kernel writes bans with expiries in uptime seconds into the map that the control plane reads
  with the wall clock, so a rollback can delete a live ban; exactly which batches can is
  `BatchLimits.KernelViewExactly`.
- An entry that the control plane writes to the blocklist is read only for sources that the Bloom filter
  reports, and only the kernel's own bans insert into the filter: exactly when an entry decides a packet
  is `XdpExpiry.DropExactly`, and that it has no effect otherwise is `XdpExpiry.BlockUnseen`.
- The writer's fingerprint tells entries apart exactly when their actions are below 26; the actions in use
  are 1 to 4 (`Fingerprints.FingerprintExactly`, `Fingerprints.Clash`).
- From version 7 on the symbol leaves 76 cells that the standard takes for version information and two
  alignment patterns to data placement (`QrFunction.RoomForSymbol`).
- Because of the two clocks the control plane's sweep deletes bans that the kernel still holds
  (`XdpSweep.BanSurvivesSweepExactly`, `XdpSweep.CoolingBanSwept`).
- A restart forgets the trip count. The period it falls into can close as early as one probe window
  after the later of its opening and the kernel map's opening time plus the base cooldown, no earlier
  (`Failsafe.OpenPeriodRestarted`, `Failsafe.RestartShortens`). A period opened by a failed probe can
  be cut to the probe window alone (`Failsafe.ReopenedPeriodCut`).
- While the detector stays quiet and no operator acts, a circuit that the kernel opened by itself
  closes only through a restart that reads the kernel map (`Failsafe.KernelOpeningExactly`).
- The two-thresholds-a-second bound of the kernel detector holds exactly for thresholds below
  2^64 - 1 (`XdpWindow.WindowExactly`).

## Model

| member | source | states |
|---|---|---|
| `Gf256.XtAdd` | control-plane/pkg/auth/totp_qr.go:31-34 | multiplication by x modulo 0x11d, as the table loop does it, is linear over exclusive or |
| `Gf256.ExpCycle` | control-plane/pkg/auth/totp_qr.go:28-35 | 255 doublings from 1 lead back to 1, so the table loop closes |
| `Gf256.ExpPrimitive` | control-plane/pkg/auth/totp_qr.go:28-35 | no exponent between 1 and 254 gives 1: x generates all of the field's units |
| `Gf256.ExpInjective` | control-plane/pkg/auth/totp_qr.go:28-35 | distinct exponents below 255 give distinct powers, so no log entry is overwritten |
| `Gf256.LogExists` | control-plane/pkg/auth/totp_qr.go:28-35 | every non-zero byte is a power of x, so every log entry is written |
| `Gf256.ExpAdd` | control-plane/pkg/auth/totp_qr.go:41-46 | the product of two powers is the power of the summed exponents |
| `Gf256.MulDistrib` | control-plane/pkg/auth/totp_qr.go:41-46 | multiplication distributes over exclusive or |
| `Gf256.MulComm` | control-plane/pkg/auth/totp_qr.go:41-46 | multiplication is commutative |
| `Gf256.MulAssoc` | control-plane/pkg/auth/totp_qr.go:41-46 | multiplication is associative |
| `Gf256.NoZeroDivisors` | control-plane/pkg/auth/totp_qr.go:41-46 | a product is zero only if a factor is |
| `Gf256.Tables.constructor` | control-plane/pkg/auth/totp_qr.go:26-39 | the loops of init fill exp with the 512 powers and log with their inverse |
| `Gf256.Tables.QrMul` | control-plane/pkg/auth/totp_qr.go:41-46 | the table lookup is shift-and-add multiplication modulo 0x11d, for all pairs of bytes |
| `ReedSolomon.GeneratorRoots` | control-plane/pkg/auth/totp_qr.go:50-60 | the generator polynomial vanishes at the first n powers of x |
| `ReedSolomon.EvalReduce` | control-plane/pkg/auth/totp_qr.go:63-69 | the division loop leaves the value at every root of the generator unchanged |
| `ReedSolomon.SyndromesVanish` | control-plane/pkg/auth/totp_qr.go:49-70 | for every data and n, data followed by its error correction evaluates to zero at every root |
| `ReedSolomon.MinimumWeight` | control-plane/pkg/auth/totp_qr.go:49-70 | a non-zero word of at most 255 bytes with n zero syndromes has more than n non-zero bytes |
| `ReedSolomon.CodeDistance` | control-plane/pkg/auth/totp_qr.go:49-70 | two blocks of at most 255 bytes with different data differ in at least n + 1 positions |
| `ReedSolomon.CorruptionDetected` | control-plane/pkg/auth/totp_qr.go:49-70 | changing between 1 and n bytes of a block leaves a non-zero syndrome |
| `ReedSolomon.QrRS` | control-plane/pkg/auth/totp_qr.go:49-70 | the loops compute the remainder of data times x^n by the generator |
| `ReedSolomon.BuildGenerator` | control-plane/pkg/auth/totp_qr.go:50-60 | the product loop builds the generator polynomial, leading coefficient first |
| `QrBits.NumOfBits` | control-plane/pkg/auth/totp_qr.go:138-142 | reading pushed bits back gives the number pushed, if it has no more bits than that |
| `QrBits.Push` | control-plane/pkg/auth/totp_qr.go:138-142 | the loop appends the low n bits of a value, most significant first |
| `QrBits.PackUnpack` | control-plane/pkg/auth/totp_qr.go:168-175 | packing eight bits to a byte undoes unpacking, with anything after it |
| `QrCodewords.BuildStream` | control-plane/pkg/auth/totp_qr.go:136-166 | mode, count, text, terminator, alignment and alternating pad bytes up to the capacity |
| `QrCodewords.ParsePadded` | control-plane/pkg/auth/totp_qr.go:136-166 | parsing the first capacity bits gives the text exactly when mode, count and text fit in them |
| `QrCodewords.PackBytes` | control-plane/pkg/auth/totp_qr.go:168-175 | the raw data bytes are the bit stream, eight bits a byte |
| `QrCodewords.MakeBlocks` | control-plane/pkg/auth/totp_qr.go:178-192 | the raw data cut into the version's blocks, each with its error correction |
| `QrCodewords.InterleaveData` | control-plane/pkg/auth/totp_qr.go:194-206 | the i-th byte of block b stands at its interleaved position, for both block lengths |
| `QrCodewords.InterleaveEc` | control-plane/pkg/auth/totp_qr.go:207-211 | the same for the error-correction codewords, after all data |
| `QrCodewords.SelectVersion` | control-plane/pkg/auth/totp_qr.go:122-131 | the smallest version whose data bytes are at least the text length, or none above 216 |
| `QrCodewords.QrEncode` | control-plane/pkg/auth/totp_qr.go:119-213 | fails exactly for texts over 216 bytes; otherwise the codewords of the selected version |
| `QrCodewords.EncodeRoundTrip` | control-plane/pkg/auth/totp_qr.go:119-213 | de-interleaving and parsing recovers the text if and only if it is two bytes (three in version 10) shorter than the version's data bytes |
| `QrCodewords.BlocksAreCodewords` | control-plane/pkg/auth/totp_qr.go:178-211 | every block collected from the output has all syndromes zero |
| `QrCodewords.SixteenBytesLost` | control-plane/pkg/auth/totp_qr.go:122-128 | a text of 16 bytes is put into version 1 and cannot be read back: the selection compares the text length alone |
| `QrStream.DataCodewords` | control-plane/pkg/auth/totp_qr.go:136-175 | the data codewords byte by byte: mode, length, text and terminator as hexadecimal digits two to a byte, then 236 and 17 in turn |
| `QrMatrix.CellAtStep` | control-plane/pkg/auth/totp_qr.go:315-336 | each of the scan's steps visits a cell of the symbol outside column 6 |
| `QrMatrix.StepOfCell` | control-plane/pkg/auth/totp_qr.go:315-336 | each such cell is visited, at the step computed from its coordinates |
| `QrMatrix.ScanDistinct` | control-plane/pkg/auth/totp_qr.go:315-336 | no free cell is visited twice |
| `QrMatrix.ScanCovers` | control-plane/pkg/auth/totp_qr.go:315-336 | the visited free cells are exactly the cells outside column 6 and the function cells |
| `QrMatrix.PlaceData` | control-plane/pkg/auth/totp_qr.go:315-336 | the zigzag loop writes the bits to the free cells in scan order and nothing else |
| `QrMatrix.MaskInvolution` | control-plane/pkg/auth/totp_qr.go:344-369 | masking twice restores the matrix, and function cells are left alone |
| `QrMatrix.ApplyMask` | control-plane/pkg/auth/totp_qr.go:355-369 | the loops compute the masked matrix in a fresh copy |
| `QrFormat.MaskPicture` | control-plane/pkg/auth/totp_qr.go:344-353 | for all cells, the eight mask functions repeat the eight tiles that the standard draws |
| `QrFormat.FormatIsBch` | control-plane/pkg/auth/totp_qr.go:107-111 | each format word is, but for the standard's mask, the multiple of the BCH generator with level 00 and its mask number as information bits |
| `QrMatrix.FormatReadBack` | control-plane/pkg/auth/totp_qr.go:375-399 | both copies of the format word read back as the word written |
| `QrMatrix.WriteFormat` | control-plane/pkg/auth/totp_qr.go:375-399 | the loop writes both copies and no other cell |
| `QrMatrix.SymbolRoundTrip` | control-plane/pkg/auth/totp_qr.go:304-399 | a reader that takes the mask from the format word recovers the placed bits, whatever mask was applied |
| `QrSymbol.ScanRecoversText` | control-plane/pkg/auth/totp_qr.go:509-526 | text to codewords to symbol and back, for any function cells that leave room: the reader gets the text exactly when it fitted, for all eight masks |
| `QrFunction.BuildFunctionCells` | control-plane/pkg/auth/totp_qr.go:215-302 | the marking loops, clipped at the edge and skipping alignment centres already taken, mark exactly the function cells |
| `QrFunction.RoomForSymbol` | control-plane/pkg/auth/totp_qr.go:215-338 | in all ten versions the free cells are exactly as many as the codeword and remainder bits, but for 76 more from version 7 on |
| `QrFunction.FinishedSymbolScans` | control-plane/pkg/auth/totp_qr.go:509-526 | the same round trip with the encoder's own function cells and no condition on them |
| `QrFunction.CodewordBits` | control-plane/pkg/auth/totp_qr.go:304-313 | the loops unpack the codewords and append the version's remainder bits |
| `QrFunction.BuildSymbol` | control-plane/pkg/auth/totp_qr.go:509-526 | function cells, placement, mask and format, loop by loop, leave in the array exactly the symbol of the round-trip theorems, whatever was drawn in the function cells |
| `QrFunction.EncodeToMatrix` | control-plane/pkg/auth/totp_qr.go:509-526 | from text to matrix through all the loops: no matrix exactly for texts over 216 bytes; otherwise, for each mask, scanning the array gives back the text if and only if it fitted |
| `Mmdb.SkipMmdbValue` | control-plane/control/failsafe.go:913-963 | the recursive skip terminates on arbitrary bytes and lands where the structure ends |
| `Mmdb.CtrlDecodes` | control-plane/control/failsafe.go:967-1011 | control bytes of any type and size, in all four size encodings, are read back |
| `Mmdb.SkipEncoded` | control-plane/control/failsafe.go:913-963 | skipping an encoded value, however nested, lands right after it |
| `Mmdb.DecodeIsoInMap` | control-plane/control/failsafe.go:876-908 | the loop finds the first iso_code string of two bytes or more among at most 64 entries |
| `Mmdb.DecodeIsoCode` | control-plane/control/failsafe.go:840-872 | the loop finds the first country map of the record and decodes it, on arbitrary bytes |
| `Mmdb.DecodeEncoded` | control-plane/control/failsafe.go:840-1011 | wherever a record without pointers is encoded in the data, the decoder returns its country code |
| `GeoIp.NodeRoundTrip` | control-plane/control/failsafe.go:698-752 | a node laid out in 24, 28 or 32-bit records is read back as its two records |
| `GeoIp.NodeFits` | control-plane/control/failsafe.go:698-703 | the bounds guard never fires for a node of the tree |
| `GeoIp.WalkEnds` | control-plane/control/failsafe.go:677-687 | every walk ends below the data section or at a leaf that the tree reaches |
| `GeoIp.IndexAgrees` | control-plane/control/failsafe.go:656-673 | a table that indexes the reachable leaves answers every address as the walk and the decoder do |
| `GeoIp.CollectLeaves` | control-plane/control/failsafe.go:765-795 | the depth-first search terminates on any bytes and collects exactly the leaves reachable from the root |
| `GeoIp.FillTable` | control-plane/control/failsafe.go:797-834 | the table holds the code of every reachable leaf and zero everywhere else |
| `GeoIp.GeoIpReader.constructor` | control-plane/control/failsafe.go:596-641 | an opened database has a complete index |
| `GeoIp.GeoIpReader.TraverseTree` | control-plane/control/failsafe.go:677-687 | the loop walks the 32 address bits from the top |
| `GeoIp.NetworkAnswered` | control-plane/control/failsafe.go:677-687 | a prefix whose digits lead out of the tree decides every address of its interval: each gets the code of that record |
| `GeoIp.OtherwiseNone` | control-plane/control/failsafe.go:677-687 | an address in no such interval has no code |
| `GeoIp.GeoIpReader.LookupIPv4` | control-plane/control/failsafe.go:656-673 | for every address the code of the network that contains it, as an interval of addresses, and none if no network does; the same as walking the tree and decoding |
| `GeoIp.RecordFound` | control-plane/control/failsafe.go:656-835 | every address of a network whose record points at an encoded record gets that record's country code |
| `Spsc.StepKeeps` | control-plane/control/failsafe.go:193-216 | every atomic load or store and every word of a slot copy, by either thread, keeps the ring invariant |
| `Spsc.CheckTailKeeps` | control-plane/control/failsafe.go:193-200 | a push is refused only when the ring was full at its load of the tail |
| `Spsc.CheckHeadKeeps` | control-plane/control/failsafe.go:208-212 | a pop reports empty only when the ring was empty at its load of the head |
| `Spsc.RingSafety` | control-plane/control/failsafe.go:180-216 | in every interleaving: popped then buffered is accepted in order, no slot is written while read, occupancy is bounded, accepted plus refused is attempts; across index wrap |
| `Spsc.PushAlone` | control-plane/control/failsafe.go:193-204 | an uninterrupted push is the run of its steps, copying all words |
| `Spsc.PopAlone` | control-plane/control/failsafe.go:208-216 | an uninterrupted pop is the run of its steps |
| `Spsc.SPSCRing.Push` | control-plane/control/failsafe.go:193-204 | accepts exactly when not full, appends to the buffered items, and is a run of the machine |
| `Spsc.SPSCRing.Pop` | control-plane/control/failsafe.go:208-216 | removes the oldest buffered item, or reports an empty ring, and is a run of the machine |
| `Xdp.DecideEffect` | ebpf-kern/src/main.rs:81-206 | a packet bans only its own IPv4 source, writes a ban from the maps as it found them, and leaves configuration and IPv6 blocklist alone |
| `XdpProgram.XdpMaps.ProcessPacket` | ebpf-kern/src/main.rs:81-206 | the program that bumps counters and rewrites maps as it goes is the staged pipeline: same maps, counters and verdict |
| `XdpProgram.XdpMaps.RunFailsafe` | ebpf-kern/src/main.rs:210-242 | rolls the window, opens over a threshold, and drops exactly when the circuit is open afterwards |
| `XdpProgram.XdpMaps.CheckRateLimit` | ebpf-kern/src/main.rs:291-328 | refills, takes a token or reports exhaustion, and creates missing buckets |
| `XdpProgram.XdpMaps.CheckSynCounter` | ebpf-kern/src/main.rs:361-405 | counts SYNs, resets on ACK, and asks for a ban at fifty with no ACK |
| `XdpProgram.XdpMaps.ApplyCoolingBan` | ebpf-kern/src/main.rs:426-476 | writes cooling tracker, blocklist and Bloom filter, and counts the ban |
| `XdpBans.BlockedPacket` | ebpf-kern/src/main.rs:135-150 | a live ban drops the packet, and the Bloom gate does not hide it |
| `XdpBans.BlockWindow6` | ebpf-kern/src/main.rs:271-287 | in any run an IPv6 drop entry stops every packet of its source until it expires |
| `XdpBans.BanWindow` | ebpf-kern/src/main.rs:246-267 | in any run, from a ban until it expires every packet of the source is dropped |
| `XdpBans.PermanentBlock` | ebpf-kern/src/main.rs:249-250 | a drop entry without expiry stops every packet of its source, at any time in any run |
| `XdpExpiry.IgnoredAbsent` | ebpf-kern/src/main.rs:246-287 | entries that have expired, or that the Bloom filter keeps from being read, change neither exit nor maps, for both address families |
| `XdpExpiry.BanExactly` | ebpf-kern/src/main.rs:246-256 | in any run a ban holds until it expires, and the first packet of the source from then on is decided as if the ban were absent |
| `XdpExpiry.DropExactly` | ebpf-kern/src/main.rs:135-150 | a drop entry decides a packet past the failsafe if and only if it is in force and the Bloom filter reports the source |
| `XdpExpiry.ScreenedByBans` | ebpf-kern/src/main.rs:472-473 | in any run a source is in the Bloom filter if and only if it was at the start or the pipeline has banned it |
| `XdpExpiry.BlockUnseen` | ebpf-kern/src/main.rs:135-150 | an entry written from outside has no effect on a source the pipeline has not banned, unless the filter errs |
| `XdpExpiry.Redirected` | ebpf-kern/src/main.rs:263-266 | a redirect entry in force transmits the packet, or drops it if the rewrite fails, unless the failsafe drops it first |
| `XdpBans.BansGrow` | ebpf-kern/src/main.rs:426-476 | in any run the successive bans of a source expire later and later, each with one doubling more than the last, sixteen at most, and no fewer than eight for a SYN flood |
| `XdpBans.BanLength` | ebpf-kern/src/main.rs:426-476 | the k-th ban, from zero, lasts between 10*2^min(k,16) and 655360 seconds, and exactly the former without SYN floods |
| `XdpSweep.SweepBlocklist` | control-plane/pkg/bpfmaps/manager.go:545-571 | the sweep deletes exactly the entries with an expiry that the wall clock has reached, and counts them |
| `XdpSweep.BanSurvivesSweepExactly` | control-plane/pkg/bpfmaps/expiry.go:56-70 | where no other stage drops, the window of a ban survives a sweep if and only if the sweep's wall clock is before the ban's expiry |
| `XdpSweep.SweepUnseen` | control-plane/pkg/bpfmaps/expiry.go:56-70 | a sweep that is not ahead of the kernel's clock changes no packet's exit |
| `XdpSweep.CoolingBanSwept` | ebpf-kern/src/main.rs:426-476 | a cooling ban is deleted by any sweep whose wall clock is 655360 seconds or more ahead of the uptime at which it was written |
| `XdpSyn.SynBansEarned` | ebpf-kern/src/main.rs:361-405 | in any run, until the source acknowledges something, its SYN flood bans are exactly its counted SYNs divided by fifty |
| `XdpSyn.SynBanExactly` | ebpf-kern/src/main.rs:361-405 | a counted SYN is banned if and only if no ACK is on record and it is the fiftieth since the last such ban |
| `XdpSyn.SynBanMeans` | ebpf-kern/src/main.rs:361-405 | only a SYN-only packet gets a SYN flood ban; it lasts at least 2560 seconds, and exactly that for a source without earlier bans |
| `XdpSyn.FlagsMean` | ebpf-kern/src/parser.rs:206-217 | by the control bits of a TCP header: an acknowledgement has ACK without SYN, and SYN-only means SYN alone |
| `XdpConfig.SwitchedOff` | ebpf-kern/src/main.rs:120-190 | a stored configuration that switches failsafe or rate limiter off leaves neither drops nor changes by it |
| `XdpConfig.MissingConfig` | ebpf-kern/src/main.rs:481-497 | an empty configuration map decides every packet as 1000 tokens and a refill every millisecond would, with both checks on |
| `XdpTokens.PacketBucket` | ebpf-kern/src/main.rs:291-346 | a packet that gets to stage 8 takes its source's bucket through stages 8 and 9; no other packet touches a bucket |
| `XdpTokens.TokenBound` | ebpf-kern/src/main.rs:291-346 | in any run, tokens spent are at most max(capacity, 1) plus one per refill interval since the bucket was created, and the bucket never exceeds its capacity |
| `XdpBudget.BudgetExactly` | ebpf-kern/src/main.rs:291-346 | in any run a packet at the limiter is banned if and only if, since some earlier visit, its source has spent its capacity and all refills since; SYN-only packets if ten or fewer tokens are left by that reckoning |
| `XdpWindow.FloodAfter` | ebpf-kern/src/main.rs:210-242 | only check_failsafe changes the failsafe state, and only the packets it drops leave the pipeline there |
| `XdpWindow.WindowBound` | ebpf-kern/src/main.rs:210-242 | from any state, at most twice the packet threshold passes the detector in one second |
| `XdpWindow.NoneAfterOpen` | ebpf-kern/src/main.rs:225-238 | once open, the circuit stays open and nothing passes |
| `XdpWindow.WindowExactly` | ebpf-kern/src/main.rs:210-242 | the bound holds for a threshold if and only if the threshold is below the counter's maximum |
| `XdpDetector.CircuitOpensExactly` | ebpf-kern/src/main.rs:210-242 | in any run the circuit opens if and only if at some packet the packets or the bits of one window exceed a threshold, and is on record as open since the first such packet |
| `XdpCounters.MergedIsTotal` | control-plane/pkg/bpfmaps/manager.go:411-449 | the saturating merge over CPUs is the sum, capped at 2^64 - 1 |
| `XdpCounters.ReportExact` | ebpf-kern/src/main.rs:81-206 | in any run of fewer than 2^64 packets each reported figure is the number of packets that left the pipeline where it says |
| `XdpCounters.CountersConserved` | ebpf-kern/src/main.rs:81-206 | so the reported counters balance: received are passed, dropped, rate limited or redirected, and bans are rate limits and SYN floods |
| `XdpCounters.VerdictsReported` | ebpf-kern/src/main.rs:81-206 | and they agree with the verdicts: packets let through are those reported as passed, packets dropped those reported as dropped, rate limited or malformed, and short frames |
| `XdpCounters.MergeStats` | control-plane/pkg/bpfmaps/manager.go:415-433 | the fold over the per-CPU values is the saturating merge of every counter |
| `XdpCounters.ReadStats` | control-plane/pkg/bpfmaps/manager.go:435-449 | the report takes received, passed and dropped from the hot path and the rest from the cold path |
| `XdpRing.SlotOfWrapped` | control-plane/internal/afxdp/rings.go:144-147 | reducing an index to 32 bits does not move its slot, for every power-of-two size |
| `XdpRing.Ring.constructor` | control-plane/internal/afxdp/rings.go:114-125 | a new ring is an empty queue |
| `XdpRing.Ring.FreeSlots` | control-plane/internal/afxdp/rings.go:153-157 | free slots are size minus queue length, across index wrap |
| `XdpRing.Ring.Produce` | control-plane/internal/afxdp/rings.go:133-151 | appends as many items as fit, in order, across index wrap (fill and transmit rings) |
| `XdpRing.Ring.Consume` | control-plane/internal/afxdp/rings.go:167-185 | takes from the front what there is and what the buffer holds, across index wrap (completion and receive rings) |
| `FrameOwnership.StepConserves` | control-plane/internal/afxdp/bridge.go:164-308 | no ring or pool call creates, duplicates or forgets a frame |
| `FrameOwnership.OneOwner` | control-plane/internal/afxdp/bridge.go:164-308 | in every run every frame is in exactly one place, once, and nothing else is anywhere |
| `FrameOwnership.PoolHasRoom` | control-plane/internal/afxdp/umem.go:221-228 | in every run the pool has room for a frame about to be freed: the overflow branch is unreachable |
| `FrameOwnership.LostOnlyByShortFill` | control-plane/internal/afxdp/bridge.go:222-229 | in every run a step loses exactly the frames that a full fill ring does not take |
| `FrameOwnership.LossExactly` | control-plane/internal/afxdp/bridge.go:257-282 | no run loses a frame if and only if the UMEM has at most as many frames as the fill ring has slots |
| `FrameOwnership.Spills` | control-plane/internal/afxdp/bridge.go:257-282 | with more frames, prefill and one replenish lose some of them |
| `AfXdp.NewUmem` | control-plane/internal/afxdp/umem.go:128-134 | refused exactly for counts that are no power of two and for other frame sizes |
| `AfXdp.Umem.constructor` | control-plane/internal/afxdp/umem.go:176-182 | the pool starts with every frame offset, in order |
| `AfXdp.Umem.AllocFrame` | control-plane/internal/afxdp/umem.go:211-218 | takes the oldest free frame, or reports an empty pool |
| `AfXdp.Umem.FreeFrame` | control-plane/internal/afxdp/umem.go:221-228 | returns a frame to the pool, or drops it when the pool is full |
| `AfXdp.Bridge.Prefill` | control-plane/internal/afxdp/socket.go:183-207 | filling the fill ring from the pool is a run of the ownership machine |
| `AfXdp.Bridge.ReplenishFillRing` | control-plane/internal/afxdp/bridge.go:257-282 | moving half of the pool is a run of the ownership machine, losing what does not fit |
| `AfXdp.Bridge.RxRound` | control-plane/internal/afxdp/bridge.go:164-236 | a receive batch puts every frame back, whatever became of its packet: a run of the ownership machine |
| `AfXdp.Bridge.CompletionRound` | control-plane/internal/afxdp/bridge.go:288-307 | a completion batch returns its frames to the pool: a run of the ownership machine |
| `Failsafe.CooldownExact` | control-plane/internal/failsafe/recovery.go:66-86 | for 0 < base <= max the capped shift gives min(base*2^(k-1), max) for every k >= 1 |
| `Failsafe.KernelAgreement` | control-plane/internal/failsafe/engine.go:283-574 | in every run, OPEN or HALF_OPEN implies that the kernel flag is set, unless a map write has failed |
| `Failsafe.KernelOpeningStays` | ebpf-kern/src/main.rs:225-231 | a flag that the kernel sets stays set for as long as the engine stays CLOSED and no forced close is written |
| `Failsafe.KernelOpeningExactly` | control-plane/internal/failsafe/engine.go:561-574 | with a quiet detector and no operator action, some run clears a flag that the kernel set under a CLOSED engine if and only if a restart can read the kernel map |
| `Failsafe.CounterBounded` | control-plane/internal/failsafe/state.go:252-267 | in every run the violation counter is below the threshold, and zero outside CLOSED |
| `Failsafe.OpensExactly` | control-plane/internal/failsafe/engine.go:310-360 | in every run a successful tick opens a CLOSED circuit if and only if it completes as many CLOSED, triggered, unlatched ticks in a row as configured, with no forced opening, restart or forced close of a circuit that is not CLOSED between them |
| `Failsafe.OpenPeriod` | control-plane/internal/failsafe/engine.go:363-419 | in every run of an engine, absent later overrides and restarts, a period opened by a tick or by force lasts at least the cooldown of its trip count plus the probe window |
| `Failsafe.OpenPeriodRestarted` | control-plane/internal/failsafe/engine.go:561-574 | with any number of restarts, a period opened from CLOSED or HALF_OPEN closes no earlier than one probe window after the later of its opening and the kernel map's opening time plus the base cooldown |
| `Failsafe.WrittenPeriodRestarted` | control-plane/internal/failsafe/engine.go:561-574 | in particular a period opened from CLOSED or by force and written to the map lasts the base cooldown plus the probe window |
| `Failsafe.RestartShortens` | control-plane/internal/failsafe/engine.go:561-574 | the bound is met whatever the trip count was: a restarted engine goes HALF_OPEN and closes at exactly those times |
| `Failsafe.ReopenedPeriodCut` | control-plane/internal/failsafe/engine.go:396-410 | a failed probe does not rewrite the map's opening time, so a restart can cut the period it opens to the probe window alone |
| `Failsafe.OverrideObeyed` | control-plane/internal/failsafe/engine.go:513-546 | from every state a forced opening ends OPEN and a forced close CLOSED, with the kernel flag to match when written, and failed writes counted |
| `FailsafeRuns.ForcedOpenHolds` | control-plane/internal/failsafe/engine.go:513-526 | a written forced opening makes the kernel drop at once, and from CLOSED or HALF_OPEN at every tick until cooldown and probe window are over |
| `FailsafeRuns.RecoversExactly` | control-plane/internal/failsafe/engine.go:363-419 | in quiet runs an open circuit goes HALF_OPEN at the first readable tick after its cooldown, CLOSED at the first one a probe window after that, and not before |
| `FailsafeRuns.LatchedExactly` | control-plane/internal/failsafe/engine.go:73-102 | in every run the detector is kept out exactly for five minutes after a forced close, here or through the file, that no forced opening has undone |
| `FailsafeRuns.TripsAreOpenings` | control-plane/internal/failsafe/engine.go:324-331 | in every run the trip count is the number of openings since the start or the last stable period, reckoned from the last closing |
| `FailsafeRuns.ThresholdsLast` | control-plane/pkg/bpfmaps/manager.go:501-515 | in every run the kernel has the thresholds last written |
| `FailsafeRuns.KernelOpensIs` | ebpf-kern/src/main.rs:225-231 | what a packet does to the failsafe map is the engine's kernel-opening event exactly when it takes a rate over its threshold |
| `Failsafe.ClearedClean` | control-plane/pkg/bpfmaps/manager.go:464-492 | what clears the flag leaves no opening time and no rates, and the thresholds as they were |
| `Failsafe.QuietAfterForceClose` | control-plane/internal/failsafe/engine.go:311-319 | for five minutes after a forced close no tick takes the engine from CLOSED to OPEN, even if it was restarted in between |
| `Failsafe.ClosedAfterForceClose` | control-plane/internal/failsafe/engine.go:311-319 | without a restart the engine stays CLOSED for those five minutes, whatever the detector says |
| `Failsafe.TripsCounted` | control-plane/internal/failsafe/engine.go:324-331 | the trip count rises with every opening, restarts from zero only after the stable period, and changes in no other way |
| `Failsafe.CircuitBreaker.Trip` | control-plane/internal/failsafe/state.go:148-172 | opens from any other state, counts the trip and clears the violations |
| `Failsafe.CircuitBreaker.ReTrip` | control-plane/internal/failsafe/state.go:225-248 | only from HALF_OPEN |
| `Failsafe.CircuitBreaker.IncrViolation` | control-plane/internal/failsafe/state.go:252-257 | counts, and reports whether the threshold is reached |
| `Failsafe.FailsafeEngine.constructor` | control-plane/internal/failsafe/engine.go:183-203 | a new engine takes its state from the kernel map |
| `Failsafe.FailsafeEngine.OverrideActive` | control-plane/internal/failsafe/engine.go:73-102 | in-memory latch or sentinel file, with expiry |
| `Failsafe.FailsafeEngine.RunTick` | control-plane/internal/failsafe/engine.go:283-304 | a tick on the engine's objects is the machine's tick step |
| `Failsafe.FailsafeEngine.RunClosed` | control-plane/internal/failsafe/engine.go:310-360 | latch, backoff reset, hysteresis and opening, in that order |
| `Failsafe.FailsafeEngine.RunOpen` | control-plane/internal/failsafe/engine.go:363-393 | half-open no earlier than the cooldown |
| `Failsafe.FailsafeEngine.RunHalfOpen` | control-plane/internal/failsafe/engine.go:396-419 | a trigger opens again, a quiet probe window closes |
| `Failsafe.FailsafeEngine.ApplyOverride` | control-plane/internal/failsafe/engine.go:513-546 | forced opening and closing are the machine's override steps |
| `Failsafe.FailsafeEngine.UpdateThresholds` | control-plane/pkg/bpfmaps/manager.go:501-515 | new thresholds leave breaker and flag alone |
| `Crc32.ShiftInjective` | ai-inference/src/ipc_protocol.hpp:81-90 | the shift register step loses nothing |
| `Crc32.FourBytesInjective` | ai-inference/src/ipc_protocol.hpp:81-90 | from one register value, different runs of four bytes give different registers |
| `Crc32.BurstDetected` | ai-inference/src/ipc_protocol.hpp:81-90 | two messages that differ only within four consecutive bytes have different checksums |
| `Crc32.Compute` | ai-inference/src/ipc_protocol.hpp:81-90 | the nested loops compute the checksum function |
| `CrcDivision.CrcIsRemainder` | ai-inference/src/ipc_protocol.hpp:79-90 | the checksum is the complemented remainder of the long division over GF(2) of the message, its first 32 digits inverted, by the IEEE 802.3 generator polynomial |
| `CrcDivision.ResidueLaw` | ai-inference/src/ipc_protocol.hpp:79-90 | running the register over any message and its checksum leaves 0xDEBB20E3 |
| `Flx2.UnmarshalMarshal` | control-plane/internal/ipc/protocol.go:101-131 | a header with the protocol's magic and version is decoded as it was encoded, or rejected exactly for a length over 1 MiB |
| `Flx2.MarshalUnmarshal` | control-plane/internal/ipc/protocol.go:101-131 | header bytes that decode are the encoding of what they decode to |
| `Flx2.BuiltIsValid` | control-plane/internal/ipc/protocol.go:142-172 | every built frame validates |
| `Flx2.ReadBuilt` | control-plane/internal/ipc/framing.go:27-64 | a built frame is read back, leaving the rest of the stream, if and only if its payload is at most 1 MiB |
| `Flx2.StreamRoundTrip` | control-plane/internal/ipc/framing.go:27-64 | frames written back to back are read back as the same sequence, all valid |
| `Flx2.AlterationRejected` | control-plane/internal/ipc/protocol.go:162-172 | a frame altered within four consecutive covered bytes, length and checksum fields kept, is unreadable or invalid |
| `Flx2.PeersAgree` | ai-inference/src/ipc_protocol.hpp:166-211 | the C++ parser and the Go reader agree on every buffer, errors included |
| `Flx2.WireLayout` | control-plane/internal/ipc/protocol.go:101-158 | every built frame on the wire: the letters FLX2, version 1, type, then flags, sequence number, length and checksum little-endian, then the payload |
| `Flx2.ReadsExactly` | control-plane/internal/ipc/framing.go:27-48 | a stream starts with a frame if and only if its first 20 bytes say FLX2, version 1 and a length of at most 1 MiB that the stream holds; and which frame that is |
| `Flx2.Conn.WriteFrame` | control-plane/internal/ipc/framing.go:53-64 | appends header and payload to the stream |
| `Flx2.Conn.ReadFrame` | control-plane/internal/ipc/framing.go:27-48 | takes one frame off the stream or reports the error |
| `Flx2.BuildFrame` | control-plane/internal/ipc/protocol.go:142-158 | computes length and checksum over header bytes 0 to 15 and payload |
| `Flx2.Validate` | control-plane/internal/ipc/protocol.go:162-172 | compares the checksum recomputed over the same bytes |
| `HardenedWriter.FailedBatchInvisible` | control-plane/pkg/bpfmaps/hardening.go:137-237 | a failed batch leaves every address as blocked or not as before, now and at any later time, with repeated addresses and expired entries |
| `HardenedWriter.ClockExactly` | control-plane/pkg/bpfmaps/manager.go:296-300 | at a given clock reading all failed batches are invisible if and only if it is zero or at least 10^9 - 1 seconds |
| `HardenedWriter.EarlyClockShows` | control-plane/pkg/bpfmaps/manager.go:296-300 | at the readings in between, an undo write restarts a time to live and the entry outlasts its expiry |
| `HardenedWriter.BatchGap` | control-plane/pkg/bpfmaps/hardening.go:137-237 | counter minus cache size changes, on a failed batch, by the number of log entries that repeat a fresh address |
| `HardenedWriter.CountExactly` | control-plane/pkg/bpfmaps/hardening.go:221-237 | run by run: the counter equals the cache size after a batch if and only if it succeeds or its log holds no address as fresh twice |
| `BatchLimits.BatchStep` | control-plane/pkg/bpfmaps/hardening.go:160-213 | a decision is skipped exactly when it has the fingerprint of the latest decision naming its address, or of the cache if there is none |
| `BatchLimits.CountExactlyByBatch` | control-plane/pkg/bpfmaps/hardening.go:137-237 | by the decisions alone: the counter equals the cache size from every consistent store and however the batch goes, if and only if no decision that can fail follows one that rewrites an address after an entry that can expire |
| `BatchLimits.RiskyDrifts` | control-plane/pkg/bpfmaps/hardening.go:221-237 | every other batch leaves the counter wrong on some forward-running clock |
| `BatchLimits.KernelViewExactly` | ebpf-kern/src/main.rs:427-464 | a failed batch keeps what the kernel drops at a given uptime, however it fails, if and only if it writes no address whose entry the wall clock takes for expired and the uptime clock does not, ahead of a decision that can fail |
| `BatchLimits.LeftInMap` | control-plane/pkg/bpfmaps/hardening.go:221-237 | a failed batch leaves at each key it wrote the entry that the wall clock saw there, if any, and all other keys alone |
| `BatchLimits.CoolingBanOverridden` | ebpf-kern/src/main.rs:426-476 | concretely: a batch that names the source of a running cooling ban and then fails is such a batch |
| `HardenedWriter.CountKept` | control-plane/pkg/bpfmaps/hardening.go:137-237 | in particular whenever no entry the batch writes lapses before the batch names its address again |
| `HardenedWriter.CountDrifts` | control-plane/pkg/bpfmaps/hardening.go:221-237 | concretely: an address written twice with expired entries that differ in the reason, on a batch that fails, leaves the counter one below the cache size |
| `WriteWindow.WindowBound` | control-plane/pkg/bpfmaps/hardening.go:302-316 | from any window, any mix of single writes and batches admits at most twice the limit in any 100 milliseconds |
| `WriteWindow.WindowBoundMet` | control-plane/pkg/bpfmaps/hardening.go:302-316 | no smaller bound holds: two full batches one nanosecond apart are both admitted |
| `HardenedWriter.Writer.CheckWindow` | control-plane/pkg/bpfmaps/hardening.go:302-316 | admits a write exactly while the current window has room, and charges it |
| `HardenedWriter.Writer.BlockIPv4` | control-plane/pkg/bpfmaps/hardening.go:88-132 | duplicate, full window, full map and refused write are told apart in that order and exactly; anything else is written; counter and cache move together |
| `HardenedWriter.Writer.WriteBatch` | control-plane/pkg/bpfmaps/hardening.go:137-217 | refused exactly when the window has no room for all of it; otherwise commits all decisions or leaves every address as it was; charged to the window either way |
| `HardenedWriter.Writer.Rollback` | control-plane/pkg/bpfmaps/hardening.go:221-237 | undoes the log from its last entry to its first |
| `HardenedWriter.Writer.PurgeExpiredDedup` | control-plane/pkg/bpfmaps/hardening.go:243-264 | forgets exactly the addresses no longer blocked; counter and cache move together |
| `Fingerprints.OneFieldMatters` | control-plane/pkg/bpfmaps/hardening.go:319-330 | entries that differ in exactly one of action, rule, score and reason have different fingerprints, entries that differ in expiry alone the same |
| `Fingerprints.FingerprintExactly` | control-plane/pkg/bpfmaps/hardening.go:319-330 | entries with actions below n are told apart by their fingerprints if and only if n is at most 26 |
| `Fingerprints.Clash` | control-plane/pkg/bpfmaps/hardening.go:319-330 | two entries with actions 7 and 26 that have the same fingerprint |
| `Fingerprints.ZeroEntry` | control-plane/pkg/bpfmaps/hardening.go:319-330 | the zero entry hashes to the FNV offset basis times the prime's fourth power |
| `Fingerprints.SkippedExactly` | control-plane/pkg/bpfmaps/hardening.go:88-100 | after a write, another entry for the address is skipped as a duplicate exactly when it says the same but for its expiry; a change of one field never |
| `Fingerprints.SkippedInBatch` | control-plane/pkg/bpfmaps/hardening.go:160-175 | the same within a batch, against the latest decision on the address |
| `Commits.WrittenBlocks` | control-plane/pkg/bpfmaps/manager.go:285-305 | a written entry blocks its address exactly until its time is up, relative below 10^9 seconds, and no other address changes |
| `Commits.CommittedShown` | control-plane/pkg/bpfmaps/hardening.go:137-217 | a committed batch leaves at every address the latest entry it wrote there, and every other address as it was |

## Left out

- QR module values of the function patterns, version information, mask penalty and SVG output: which
  cells are function cells is modelled; what is drawn in them, and the mask, are parameters.
- MMDB metadata parsing and pointer records: node count, record size and data offset enter as
  validated values, and encoded records hold no pointers. The decoder itself is total on all bytes.
- XDP byte counters, drop counts, ban timestamps and the fields of a blocklist entry other than
  expiry and action: nothing in the pipeline reads them.
- The honeypot's packet rewrite: its outcome, transmit or drop, is part of the packet event.
- XdpSweep.SweepBlocklist: the iteration and every deletion succeed.
- Races between CPUs on map values: packets are processed one at a time.
- TX descriptors: the bridge never transmits, so a frame reaches the completion ring from the kernel.
- `AF_XDP` memory: frames are addresses; packet bytes and parsing are not modelled.
- The failsafe detector: its output is one arbitrary value per tick.
- Failsafe.CooldownFor: exact arithmetic instead of floating point, and a positive base cooldown.
- Failsafe.KernelAgreement: another process clearing the kernel flag is not among the events.
- The admin latch's and the ring's locks, the event bus, logs and metrics.
- HardenedWriter.FailedBatchInvisible: undo writes are admitted.
- HardenedWriter.Writer.BlockIPv4: the capacity limit, 95% of the map's size, is a parameter.
- Dedup fingerprints after a rollback that restores an earlier entry: the code does not restore them.
- IPv6 blocklist writes, the rate limiter of the map manager and the audit log.
- Authentication, policy rules, notifications, metrics, the dashboard, system calls and BPF loading.
