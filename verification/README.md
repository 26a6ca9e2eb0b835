# Wolverine driver: verification model

A Dafny 4.11 model of the audio rings, the isochronous playback engine, the GIP codec, the chunked
transfers and the authentication transcript of the Linux driver for the Razer Wolverine Ultimate, with
proofs of what they keep over whole runs. `dafny verify dfyconfig.toml` checks everything.

## What is modelled

* **Rings.** `CRing.Ring` is the ring of `tools/wolverine_pw.c` with its free-running 32-bit cursors and
  mask; it refines a bounded drop-oldest queue for ever, through every wrap of the cursors. `Spsc.Ring`
  is the drop-newest ring of `rust/src/ring.rs`, with `rtrb` taken as an atomic bounded FIFO. `Ledger`
  is the common history of both: every byte that left a ring was played or discarded, and the entries,
  in order, followed by what is still in the ring, are exactly what the ring accepted.
* **Playback engine.** `IsoOut.Engine.OnOut` is the OUT completion callback on its transfer buffer:
  prime, trim, refill packet by packet. `IsoRuns` is the same engine as a step system in which the sink
  thread pushes between any two ring accesses, transfers complete, vanish or fail to resubmit, and `stop`
  can come at any moment; an event list is a run. `IsoRuns.CallbackIsRun` ties the callback to it, and
  `IsoDepth` says how large the ring has to be, exactly.
* **Python engine.** `IsoAudio` is `_on_out` of `tools/iso_audio.py`: the same refill loop over the C
  ring, without a trim. A session is any list of callbacks with the sink pushing between ring accesses.
* **Microphone.** `IsoIn` parses and pushes the IN packets, `MicSource` trims and serves the graph, and
  `MicRuns` lets pushes come between any two ring accesses, over whole runs; `MicDepth` says how large the
  ring has to be, exactly.
* **GIP codec.** `Varints` and `Gip` hold both codecs, loop for loop. GIP is MS-GIPUSB; its varints are
  LEB128 (section 7.6 of DWARF Version 5).
* **Chunked transfer.** `AuthSend`, `AuthRecv` and `AuthLink`: the stop-and-wait sender, the receiver, and
  both joined by a link that delivers packets whole and in order; `AuthCuts` is the receiver against a sender
  that cuts payloads up in any way; `Endpoint` reads the same packets 64 bytes at a time. `Identify` is the
  offset-addressed receiver of the IDENTIFY response, `IdentifyPy` its Python twin.
* **Authentication.** `Prf` is the P_hash of section 5 of RFC 5246; `Handshake` runs the host against a
  device that follows the same protocol, on the RSA and on the ECDH path, for arbitrary hash, HMAC, RSA
  and ECDH functions. Every host payload goes through `Endpoint` to a device that reads a given number of
  bytes at a time, HOST_SECRET in the chunks of `AuthLink`; the device's replies arrive whole.
* **Synchronous fallback.** `SyncOut` is the blocking playback loop over the C ring.

Choices a reader should know:

* A push of the sink thread before a ring access is a parameter (`env`, `TurnIn`); two pushes in a row are
  one push of both byte strings (`Spsc.PushesMerge`), so one byte string for each gap is general.
* Timeouts, deadlines and USB errors are arbitrary events: a list of reads ends where the deadline does.
* `read_varint` shifts a `u32` with no bound. The sixth byte of a varint asks for a shift of 35, which a
  debug build refuses (`Overlong`, `Undefined`) and a release build masks (`ReleaseVarint`,
  `DecodeRelease`). Both builds read the same wherever the debug build does not stop
  (`Gip.DecodeReleaseAgrees`); the microphone path is modelled on the release build.
* The product of requested frames and stride in the source callback is 64 bits wide, as in a release
  build; a debug build stops where it wraps.
* `struct.pack('<H', ..)` raising on a count that does not fit is an outcome of the AUTH receiver.

Findings where the code and what one would expect of it differ, each with its exact condition:

* The chunk sender waits for an ACK after every chunk but asks for one only on the first and the last,
  and the receiver in the same file answers only those that ask. Run against each other, sender and
  receiver of this repository complete a transfer exactly from 58 to 116 bytes
  (`AuthLink.OwnReceiverStalls`).
* A call of the AUTH receiver raises exactly when the total is below 58 or above 65593, which it does on
  the first chunk, or when it is 65536 or more and every chunk went out, which it does on the last
  (`AuthLink.ChunkedReceived`).
* If HOST_SECRET is cut short on the way, host and device still hash the same bytes exactly when nothing
  but the 8 bytes of trailer is missing (`Handshake.CutPayloadIff`).
* A chunked send fits the 64-byte endpoint exactly for payloads below 16384 bytes
  (`AuthSend.WireFitsIff`). From there up to the totals the receiver refuses, 64-byte reads put zeros where
  bytes 56 and 57 of the payload belong, so what comes back need not be a front of it
  (`Endpoint.PrefixSafeIff`).
* HOST_PUBKEY is the one unchunked host payload that does not fit the endpoint: 82 bytes (its docstring says
  78) in a packet of 86, where 60 fit. A device that reads 64 bytes at a time hashes other bytes than the
  host on every v2 run; the v2 handshake works exactly with reads of 78 bytes or more
  (`Handshake.PubkeyArrivesIff`).
* The check for the v2 restart compares the handshake command with byte 7 of the payload, which is the version;
  the data command is byte 6. It restarts exactly if handshake command and version differ, which is what its
  comment says exactly if version and data command are both equal to the handshake command or both not
  (`Handshake.V2Iff`).
* The Python IDENTIFY receiver reports against an unknown total of 0, so it raises exactly on a chunk that
  asks for an ACK, and otherwise returns what the Rust one returns
  (`IdentifyPy.PyIdentifyIsOverlayUnlessFlagged`).
* The playback trim protects the packets of its own callback exactly when the priming depth covers one
  transfer, or the ring is no larger than twice the priming depth and so never trimmed
  (`IsoRuns.TrimNeverStarvesIff`); the defaults (40 ms against 8 packets) do.
* Playback starts at all exactly when the ring can hold the priming depth (`IsoRuns.PrimesIff`): with the
  ring of 256 KiB, a priming depth of 1366 ms or more leaves the headphones silent.
* Transfers cancelled by `stop`, or cut off with the device, take their packets with them: PCM that had
  left the ring is lost exactly with them (`IsoRuns.SinkToBus`, `IsoRuns.StopLoses`).
* The synchronous fallback gives a packet up on any USB error other than a timeout. No PCM is lost that way
  exactly when every packet given up was silent (`SyncOut.DeliveredIff`).
* The two drivers take different PCM from a microphone packet exactly when the length a Rust release build
  reads cuts it at another place than the declared one; never for a length below 2^32 in at most five bytes
  (`IsoIn.ParsersAgree`).
* `gip.rs` cannot read one header shape that `gip_init.py` can build: a length of 2^28 or more before an
  offset varint of odd size, whose padded length takes six bytes (`Gip.RustReadsHeader`).
* The header comment of `tools/iso_audio.py` (line 22) says OUT packets carry no header; its code, like
  `iso.rs`, frames them. The model follows the code.

## Model

| member | source | states |
|---|---|---|
| `Varints.WriteVarint` | rust/src/gip.rs:64-76 | appends the canonical LEB128 bytes of the value to the caller's vector |
| `Varints.EncodeVarint` | tools/gip_init.py:153-159 | the other loop gives the same bytes, so both writers agree on every value |
| `Varints.VarintReadBack` | rust/src/gip.rs:64-94 | written varints read back as the same number wherever they stand in a buffer |
| `Varints.VarintIsShortest` | rust/src/gip.rs:61-76 | the written form is the one shortest encoding of its number |
| `Varints.VarintLengthBound` | rust/src/gip.rs:64-76 | n groups of seven bits suffice exactly below 2^(7n) |
| `Varints.ExtendedReadBack` | rust/src/gip.rs:98-115 | continuing the last byte and adding a zero terminator leaves the number unchanged |
| `Varints.ReadVarint` | rust/src/gip.rs:80-94 | the u32 accumulator yields the number modulo 2^32 and the bytes used for varints of up to five bytes, and stops at the sixth |
| `Varints.ReadVarintRelease` | rust/src/gip.rs:80-94 | the same loop in a release build, which masks the shift, for varints of any length |
| `Varints.ReleaseAgrees` | rust/src/gip.rs:80-94 | both builds read the same wherever the debug build does not stop |
| `Varints.RustTurn` | rust/src/gip.rs:86 | truncating the shift to 32 bits and or-ing keeps the sum modulo 2^32 |
| `Varints.BitOrDisjoint` | tools/gip_init.py:175 | or-ing a group above all bits so far is addition |
| `Gip.BuildHeader` | rust/src/gip.rs:108-122 | the vector edits give the header of `build_gip_header` without an offset |
| `Gip.HeaderIsEven` | tools/gip_init.py:193-209 | every header, with or without offset, has an even number of bytes |
| `Gip.DecodeGipHeader` | tools/gip_init.py:162-190 | the two loops compute the six fields, also for a varint cut off by the end of the data |
| `Gip.HeaderRoundTrip` | tools/gip_init.py:162-209 | decoding a built header followed by anything recovers every field and the declared slice |
| `Gip.RustReadsHeader` | rust/src/gip.rs:161-188 | `decode` recovers the same fields and payload, except for one shape, given exactly |
| `Gip.DecodersAgree` | rust/src/gip.rs:158-188 | whatever Rust decodes Python decodes to the same six fields modulo 2^32, and to the same payload; Rust refuses only short or cut-off headers |
| `Gip.DecodeReleaseAgrees` | rust/src/gip.rs:161-188 | so they decode the same |
| `Gip.SeqCounter.Next` | rust/src/gip.rs:195-201 | the k-th number is k mod 255 + 1, never 0 |
| `Gip.SeqAfterCycles` | rust/src/iso.rs:336 | the engine's way of counting gives the same cycle |
| `Ledger.EntryIsContiguous` | rust/src/ring.rs:22-56 | each removal from a ring with balanced books is the contiguous block of the accepted stream that starts where earlier removals end |
| `Ledger.EntriesStartAligned` | rust/src/iso.rs:315-319 | with whole frames everywhere each block starts on a frame boundary |
| `Ledger.ByteComesFrom` | rust/src/iso.rs:315-319 | a byte at packet position p comes from a stream index congruent to p modulo 4 |
| `BoundedQueue.RunBalanced` | tools/wolverine_pw.c:56-78 | in every run readers get the written stream in order with gaps only where the oldest bytes were pushed out, and the queue is the newest part of it |
| `BoundedQueue.RunAligned` | tools/wolverine_pw.c:56-78 | overflow of the drop-oldest ring never splits a 4-byte frame when pushes and reads are whole frames |
| `BoundedQueue.ChannelsStayPut` | tools/wolverine_pw.c:56-78 | so every byte read keeps its channel |
| `BoundedQueue.WriteNeverLowers` | tools/wolverine_pw.c:56-67 | a write never lowers the fill level |
| `CRing.Ring.Write` | tools/wolverine_pw.c:56-67 | afterwards the ring holds the last min(CAP, old + n) bytes of old content and source, also for n above CAP and across cursor wrap |
| `CRing.Ring.Read` | tools/wolverine_pw.c:69-78 | delivers and removes exactly the first min(n, fill) bytes and touches nothing else of the destination |
| `CRing.Ring.Avail` | tools/wolverine_pw.c:244-250 | the wrapped cursor difference is the fill level |
| `CRing.SlotWraps` | tools/wolverine_pw.c:34-35 | masking does not see the wrap of a 32-bit cursor |
| `Spsc.Ring.Write` | rust/src/ring.rs:22-25 | as much of the source as fits is appended, the newest bytes are dropped, the count is returned |
| `Spsc.Ring.Read` | rust/src/ring.rs:28-31 | the oldest bytes go to the destination and leave the ring |
| `Spsc.Ring.Skip` | rust/src/ring.rs:44-56 | exactly the oldest min(n, fill) bytes leave the ring |
| `Spsc.PushesMerge` | rust/src/ring.rs:22-25 | two pushes in a row are one push of both |
| `IsoOut.AudioHeaderIsBuilt` | rust/src/iso.rs:147-151 | the header template is 60 21 seq c0 81 00 |
| `IsoOut.FrameDecodes` | rust/src/iso.rs:329-348 | every packet is 198 bytes and decodes to a 6-byte header and 192 payload bytes, real PCM and then zeros |
| `IsoOut.TrimBoundsDepth` | rust/src/iso.rs:315-327 | one callback leaves at most twice the prime depth, and after a trim the prime depth and less than one frame, plus what is pushed between sample and skip |
| `IsoOut.PacketsCount` | rust/src/iso.rs:331-348 | a refill makes one 198-byte packet for each slot |
| `IsoOut.RefillTurn` | rust/src/iso.rs:331-348 | each packet lands directly behind the ones before it and nothing else moves, for either ring and for none |
| `IsoOut.PacketFrom` | rust/src/iso.rs:331-348 | packet k of a callback carries the k-th PCM and the number k steps on from where the callback started |
| `IsoOut.Engine.constructor` | rust/src/iso.rs:153-167 | the engine starts running, unprimed, at sequence number 1 |
| `IsoOut.Engine.OnOut` | rust/src/iso.rs:299-352 | the buffer comes back tiled with the packets of the callback, nothing behind the tiling changes, and ring, priming and sequence are those of the step system; a stopped engine or lost device changes nothing |
| `IsoOut.Engine.PrimeAndTrim` | rust/src/iso.rs:310-327 | priming, trim decision and skip, with pushes between all three ring accesses |
| `IsoOut.Engine.RefillOne` | rust/src/iso.rs:331-348 | one packet: header, PCM, silence |
| `IsoRuns.CallbackIsRun` | rust/src/iso.rs:299-352 | the effect proved of the callback is that of a run of the step system with the pushes woven in |
| `IsoRuns.EveryByteAccountedFor` | rust/src/iso.rs:311-348 | in every interleaving played, trimmed and ring bytes, in order, are the accepted bytes |
| `IsoRuns.BusHistory` | rust/src/iso.rs:172-195 | in every run with successful submits bus packet b is packet j in the order of submission, j - b others before it having been cancelled; packet j is a silent one of `start` or frame k = j - runway, with sequence byte k mod 255 + 1 and the PCM of read k |
| `IsoRuns.CutOffIsPrefix` | rust/src/iso.rs:249-284 | if nothing gets through behind a cancelled packet, the bus history is the front of the packets submitted |
| `IsoRuns.SinkToBus` | rust/src/iso.rs:299-352 | every read of the ring whose transfer is back has its packet, with its contiguous place of the accepted stream, at its place on the bus, or among the cancelled ones if the transfer was cancelled |
| `IsoRuns.SilentUntilPrimed` | rust/src/iso.rs:310-313 | until a callback has found the prime depth nothing is taken from the ring |
| `IsoRuns.PrimesIff` | rust/src/iso.rs:310-313 | some run primes the engine exactly if the ring can hold the prime depth; otherwise no run takes a byte |
| `IsoRuns.StepHeld` | rust/src/iso.rs:299-308 | no event adds a transfer; one is given up exactly on a completion when stopped or gone, or on a failed submit |
| `IsoRuns.AllInFlight` | rust/src/iso.rs:172-195 | on a healthy running device all transfers are in flight between callbacks |
| `IsoRuns.StoppedDrains` | rust/src/iso.rs:249-284 | once stopped, each completion retires the oldest transfer and none comes back; its packets went out or were cancelled, as the completion says |
| `IsoRuns.StopLoses` | rust/src/iso.rs:249-284 | if all transfers in flight come back cancelled the bus history stays as it was and all their packets are lost; if none does, all go out |
| `IsoRuns.AlignedAlways` | rust/src/iso.rs:315-327 | with whole-frame pushes every accept, drop, trim and read is a multiple of 4 bytes |
| `IsoRuns.ChannelsStayPut` | rust/src/iso.rs:315-346 | left stays left: each PCM byte keeps its place modulo 4 through priming, trimming, overflow and underrun |
| `IsoRuns.NeverOverflows` | rust/src/iso.rs:311-327 | if at most P bytes arrive between deciding samples and 2*prime + 2*P (or + P with atomic callbacks) fits the capacity, no byte is ever dropped, and the depth stays bounded |
| `IsoRuns.TrimNeverStarvesIff` | rust/src/iso.rs:315-348 | a callback that trimmed emits no silent packet, in all runs, exactly when the prime depth covers one transfer or the capacity is at most twice the prime depth |
| `IsoDepth.NeverDropsIff` | rust/src/iso.rs:311-348 | with at most P bytes between samples no byte is ever dropped exactly if P = 0 or, on top of the most a callback can leave (prime - 1, or 2*prime - 192*packets if P exceeds 192*packets), P fits with atomic callbacks and 2*P with pushes inside them |
| `IsoAudio.Engine.constructor` | tools/iso_audio.py:95-141 | the engine starts running, unprimed, at sequence number 1 |
| `IsoAudio.Engine.OnOut` | tools/iso_audio.py:183-221 | the buffer is the packets of the callback, one behind the other; ring, priming and sequence are those of the session; stopped or without the device nothing changes |
| `IsoAudio.PacketsNumbered` | tools/iso_audio.py:203-206 | the k-th packet behind j others has sequence byte (j + k) mod 255 + 1, also without a bridge |
| `IsoAudio.RefillIsRun` | tools/iso_audio.py:208-214 | the refill loop is a run of the drop-oldest queue, and its packets carry what that run plays |
| `IsoAudio.SessionHistory` | tools/iso_audio.py:183-221 | in every session packet i is frame i, and the PCM of all packets, in order, is the written stream with gaps only where the ring overflowed |
| `IsoAudio.SessionChannelsStayPut` | tools/iso_audio.py:208-214 | with whole-frame pushes overflow never swaps the channels of what is played |
| `IsoAudio.SessionPrimedIff` | tools/iso_audio.py:192-196 | a session is primed exactly if behind some callback's first push the ring held 7680 bytes |
| `IsoAudio.CallbackPrimes` | tools/iso_audio.py:192-196 | one callback: the push, and the priming check behind it, before the first packet and never undone |
| `IsoAudio.SessionPacket` | tools/iso_audio.py:208-214 | packet k of callback i is silent as long as no callback up to i found 7680 bytes, and from that callback on carries the oldest min(192, fill) bytes of the ring |
| `IsoAudio.PacketPlays` | tools/iso_audio.py:208-214 | what a packet carries has left the ring, and nothing else has |
| `IsoAudio.NoBridgeIsSilent` | tools/iso_audio.py:194-214 | without the bridge no callback primes and every packet is silent |
| `IsoIn.OnIn` | rust/src/iso.rs:356-388 | the capture ring takes the PCM of the good packets in order, as one push of all of it |
| `IsoIn.ParsersAgree` | rust/src/iso.rs:430-436 | for every packet both drivers take the same PCM exactly unless the length a release build reads cuts it at another place than the declared one |
| `IsoIn.MicPacketParses` | tools/iso_audio.py:237-252 | the PCM behind header and 2-byte sub-header comes back |
| `IsoIn.MicPacketPcm` | rust/src/iso.rs:370-382 | a failed packet, with any data, and a packet of another command give nothing, an audio packet its PCM |
| `IsoIn.TransferPcm` | rust/src/iso.rs:367-386 | of a whole transfer `OnIn` pushes exactly the PCM of the completed audio packets, in order |
| `MicSource.Process` | rust/src/audio.rs:269-317 | the first `want` bytes of the slice are the served PCM and then silence, the rest is untouched, and the ring is left as specified |
| `MicSource.ServeKeepsBooks` | rust/src/audio.rs:294-308 | skipped, served and left bytes are those there were and those the ring accepted, in order |
| `MicSource.TrimNeverStarves` | rust/src/audio.rs:294-308 | in every interleaving a callback that trims serves all that is wanted |
| `MicSource.AtomicServe` | rust/src/audio.rs:294-308 | with no push in between, the trim costs the reader nothing and one callback brings any ring down to twice max(cap_low, want) |
| `MicSource.ExcessBounds` | rust/src/audio.rs:297-303 | the trim fires exactly above twice the target and never cuts below it |
| `MicSource.TrimIsExact` | rust/src/audio.rs:297-305 | a trim takes whole frames and leaves max(cap_low, want) and less than one frame |
| `MicSource.CapLowIsMilliseconds` | rust/src/audio.rs:252 | `cap_low` is the given milliseconds of audio, rounded down to bytes, but at least one frame |
| `MicSource.SamplesStayWhole` | rust/src/audio.rs:301-305 | 2-byte samples are never split |
| `MicSource.WantsAgree` | tools/wolverine_pw.c:122-125 | exactly when the C shim and the Rust driver serve the same number of bytes, with the 32-bit truncation of one and the 64-bit product of the other |
| `MicRuns.EveryByteAccountedFor` | rust/src/audio.rs:294-308 | in every interleaving served, trimmed and ring bytes, in order, are the accepted bytes |
| `MicRuns.UnreadKeepsOldest` | rust/src/audio.rs:241-247 | while nobody listens the ring holds the oldest bytes that fit, however long that lasts |
| `MicRuns.TrimNeverStarves` | rust/src/audio.rs:294-308 | in no run does a callback that trimmed serve less than is wanted |
| `MicRuns.NeverOverflows` | rust/src/audio.rs:294-308 | if at most P bytes come in between samples, the depth stays within twice max(cap_low, largest want) plus what came in since, and a ring with room for that and 2*P (P, with atomic callbacks) never drops a byte |
| `MicRuns.SamplesStayWhole` | rust/src/audio.rs:301-305 | in every run each piece is whole 2-byte samples of the accepted stream, starting on a sample boundary |
| `MicRuns.CallbackIsRun` | rust/src/audio.rs:269-317 | the effect proved of the callback is that of its ring accesses with the pushes in between |
| `MicDepth.NeverDropsIff` | rust/src/audio.rs:294-308 | with wants up to W and at most P bytes between samples no byte is ever dropped exactly if P = 0 or, on top of max(2*cap_low, min(W, P - 1)), P fits with atomic callbacks and 2*P with pushes inside them |
| `AuthSend.WaitForGipAck` | tools/gip_init.py:399-423 | true exactly when an ACK for the command is among the reads |
| `AuthSend.AckIff` | tools/gip_init.py:417-421 | a packet, chunked or not, is an ACK for a command exactly if its command is 0x01 and its payload has two bytes or more, the second of which names the command |
| `AuthSend.OtherCommandNoAck` | tools/gip_init.py:411-422 | what is shorter than a header or starts with another command than 0x01 never is one |
| `AuthSend.AckAnywhere` | tools/gip_init.py:403-421 | an ACK for AUTHENTICATE ends the wait wherever it comes among other reads |
| `AuthSend.UnrelatedStops` | tools/gip_init.py:372-396 | if the first wait brings only silence, other commands and ACKs for other commands, exactly the first chunk and the empty one go out |
| `AuthSend.GipAuthSendChunked` | tools/gip_init.py:356-396 | the packets written are the first chunk, one more for every acknowledged wait until the payload ends, and the empty chunk |
| `AuthSend.ChunksPartition` | tools/gip_init.py:372-387 | the data chunks, in order, make up the payload as far as it is sent |
| `AuthSend.AckedIsComplete` | tools/gip_init.py:372-387 | if every chunk is acknowledged all of the payload is sent |
| `AuthSend.WireFitsIff` | tools/gip_init.py:356-396 | all packets fit 64 bytes exactly for payloads below 16384 bytes |
| `AuthSend.PacketsOnWire` | tools/gip_init.py:356-396 | the packets of a send of 128 to 16383 bytes, byte for byte |
| `AuthRecv.AckIsRecognised` | tools/gip_init.py:426-437 | an ACK names the command and carries the bytes received and, behind two zeros, the bytes remaining, and the sender's wait accepts it |
| `AuthRecv.AckOnWire` | tools/gip_init.py:426-437 | the 13 bytes of an ACK: received, then remaining, low byte first |
| `AuthRecv.RecvAuthPkt` | tools/gip_init.py:440-509 | the loop computes the outcome, the ACKs and the rest of the stream of the recursive receiver |
| `AuthRecv.NoiseIgnored` | tools/gip_init.py:452-472 | timeouts, errors and other commands anywhere change neither outcome nor ACKs nor what is left |
| `AuthRecv.OthersSkipped` | tools/gip_init.py:452-472 | timeouts, reads shorter than a header and packets that do not start with 0x06 are skipped |
| `AuthLink.FirstTurn` | tools/gip_init.py:477-487 | the first chunk starts a transfer and is acknowledged, or raises, exactly by its total |
| `AuthLink.ChunkTurn` | tools/gip_init.py:489-503 | a data chunk extends the received prefix; only the last is acknowledged and ends the transfer, or raises, exactly for totals of 65536 bytes or more |
| `AuthLink.ChunkedReceived` | tools/gip_init.py:356-509 | over a link that delivers packets whole, for every payload and every pattern of ACK timeouts, the receiver returns the prefix whose chunks went out, all of it exactly when all did, or raises, exactly for the totals it cannot acknowledge |
| `AuthLink.ChunkAnswered` | tools/gip_init.py:477-503 | the receiver answers exactly the first chunk of a total it can start with and the last of a total it can count, with packets the sender's wait takes for ACKs |
| `AuthLink.ClosedLoopSends` | tools/gip_init.py:372-376 | with this file's receiver answering each chunk as it goes out, the sender gets exactly min(total, 116) bytes out, or min(total, 58) if the receiver cannot start |
| `AuthLink.OwnReceiverStalls` | tools/gip_init.py:372-376 | in that closed loop a transfer completes exactly from 58 to 116 bytes |
| `AuthLink.ManyMessages` | tools/gip_init.py:342-396 | over such a link, for any messages on one stream, successive calls return them one by one, or raise exactly where a total cannot be acknowledged, skipping left-over chunks |
| `AuthCuts.AnyChunksReceived` | tools/gip_init.py:474-503 | a payload below 65536 bytes cut up by any sender, a first chunk and the rest in order in chunks of any sizes, is received whole; exactly the flagged chunks are acknowledged, each with the bytes so far and the total |
| `AuthCuts.CutTurn` | tools/gip_init.py:489-503 | one chunk in order: prefix, ACK and end of the transfer |
| `AuthCuts.StartTurn` | tools/gip_init.py:477-487 | a first chunk starts a transfer, also in the middle of another one |
| `AuthCuts.BuiltChunkReads` | tools/gip_init.py:193-209 | every chunk built with a header of this file reads as such a chunk |
| `AuthCuts.StrayChunkIgnored` | tools/gip_init.py:490-491 | a chunk of no transfer is ignored, even if it asks for an ACK |
| `AuthCuts.LastChunkEnds` | tools/gip_init.py:495-503 | a chunk that ends at the total ends the transfer, with whatever is missing left as it was |
| `AuthCuts.DeadlineReturnsNothing` | tools/gip_init.py:451-509 | a deadline in the middle of a transfer returns nothing, whatever has been received |
| `AuthCuts.EmptyChunkReturnsPrefix` | tools/gip_init.py:492-494 | an empty chunk in the middle of a transfer returns the part received, without an ACK |
| `Endpoint.SimpleFitsIff` | tools/gip_init.py:211-213 | an unchunked packet fits 64 bytes exactly up to 60 bytes of payload |
| `Endpoint.Deliver` | tools/gip_init.py:440-509 | of a longer one a receiver takes the part in its first read for the payload |
| `Endpoint.WireReadWhole` | tools/gip_init.py:454 | below 16384 bytes reads of 64 bytes or more deliver a chunked send whole, so what holds of whole packets holds of them |
| `Endpoint.ManyMessagesRead` | tools/gip_init.py:454 | messages that fit the endpoint come one by one through 64-byte reads |
| `Endpoint.FirstCut` | tools/gip_init.py:477-487 | through 64-byte reads the first chunk of a total of 16384 or more leaves the buffer two bytes short, with zeros at 56 and 57 |
| `Endpoint.WideTransferHoled` | tools/gip_init.py:440-509 | no later chunk fills them, so whatever such a call returns has them |
| `Endpoint.PrefixSafeIff` | tools/gip_init.py:440-509 | read 64 bytes at a time, transfers of n bytes raise or return a front of the payload, for all payloads and ACK patterns, exactly if n is below 16384 or at least 65594 |
| `Identify.ReceiveIdentifyResponse` | rust/src/usb.rs:299-345 | the loop computes response and ACKs of the recursive receiver, with every copy in range |
| `Identify.ResizedShown` | rust/src/usb.rs:332-335 | growing the buffer keeps the earlier bytes and adds zeros |
| `Identify.AckPacketRead` | rust/src/usb.rs:349-357 | an ACK answers its chunk with the low 16 bits of the count and a remaining count of 0; its 13 bytes are given |
| `Identify.AcksNeverDecrease` | rust/src/usb.rs:337-341 | whatever comes in, acknowledged counts never go back |
| `Identify.IdentifyIsOverlay` | rust/src/usb.rs:299-345 | complete chunks in any order, repeated, with other packets between, give their overlay on zeros, last writer winning |
| `Identify.OverlayIsMessageIff` | rust/src/usb.rs:332-344 | pieces of a message give the message exactly when they reach its last byte and miss only zero bytes |
| `Identify.IdentifyReassembles` | rust/src/usb.rs:299-345 | pieces that cover a message, in any order and duplicated, give exactly the message |
| `Identify.SimpleResponse` | rust/src/usb.rs:322-324 | a response in one piece is returned as it is, whatever chunks came before |
| `Identify.DeadlineResponse` | rust/src/usb.rs:306-344 | at the deadline the overlay of the chunks so far is returned, and nothing if none came |
| `Identify.OverlongStops` | rust/src/gip.rs:80-94 | a length varint of six bytes stops a debug build, whatever the command |
| `IdentifyPy.PyReceiveIdentifyResponse` | tools/gip_init.py:1082-1158 | the Python loop computes the outcome of its recursive receiver |
| `IdentifyPy.UntotalledAck` | tools/gip_init.py:426-437 | an ACK against an unknown total of 0 can be packed exactly for no bytes received |
| `IdentifyPy.PyIdentifyIsOverlayUnlessFlagged` | tools/gip_init.py:1082-1158 | on complete chunks in any order this receiver raises exactly if one asks for an ACK, and otherwise returns the overlay, as the Rust one does |
| `IdentifyPy.PySimpleResponse` | tools/gip_init.py:1125-1130 | a response in one piece replaces the chunks so far |
| `IdentifyPy.PyCutShort` | tools/gip_init.py:1099-1107 | the deadline, or a USB error, returns the overlay of the chunks so far |
| `Prf.AuthPrf` | tools/gip_init.py:283-296 | terminates and returns exactly `length` bytes of P_hash over label and seed |
| `Prf.ExpandedPrefix` | tools/gip_init.py:292-296 | shorter outputs are prefixes of longer ones |
| `Prf.ExpandedBlock` | tools/gip_init.py:290-294 | block i is HMAC(key, A(i+1) + label + seed) |
| `Prf.FirstTwoBlocks` | tools/gip_init.py:289-294 | the first 64 bytes with their HMACs written out |
| `Handshake.SentIsDeclared` | tools/gip_init.py:221-236 | stripping 6 header and 8 trailer bytes leaves exactly the bytes the header declares |
| `Handshake.PayloadLayout` | tools/gip_init.py:216-236 | host and device payloads byte for byte, both lengths big-endian, the first covering the data header too |
| `Handshake.RequestLayout` | tools/gip_init.py:239-277 | a request byte for byte |
| `Handshake.CutPayloadIff` | tools/gip_init.py:526-531 | of a payload cut short the device still hashes what the host hashed exactly if only trailer is missing |
| `Handshake.ReadAgreesIff` | tools/gip_init.py:342-346 | of an unchunked payload the device hashes what the host hashed exactly if at most trailer is beyond its read |
| `Handshake.EndpointAgreesIff` | tools/gip_init.py:342-346 | through 64-byte reads exactly for up to 50 inner bytes |
| `Handshake.UnreadIsNoise` | tools/gip_init.py:452-472 | what is left unread of a packet whose payload was read far enough is skipped by the next call |
| `Handshake.OnlyPubkeyTooLong` | tools/gip_init.py:239-277 | of the payloads the host sends unchunked only HOST_PUBKEY, 86 bytes as a packet, does not fit the endpoint |
| `Handshake.ReadTranscriptIff` | tools/gip_init.py:526-536 | after any conversation with unchunked host payloads both transcripts agree exactly if each payload was read far enough |
| `Handshake.PubkeyArrivesIff` | tools/gip_init.py:699-703 | on the v2 path the transcripts agree before HOST_FINISH exactly if the device reads 78 bytes or more at a time |
| `Handshake.TranscriptsAgree` | tools/gip_init.py:526-536 | after any conversation host and device have hashed the same bytes |
| `Handshake.AuthState.TranscriptSent` | tools/gip_init.py:526-531 | a sent payload adds its data part to the transcript |
| `Handshake.AuthState.TranscriptRecv` | tools/gip_init.py:533-536 | a received payload adds its data part to the transcript |
| `Handshake.Hello` | tools/gip_init.py:566-616 | after the hello, or after the v2 restart, both transcripts hold exactly the hello in use and the device its random bytes |
| `Handshake.V2Iff` | tools/gip_init.py:594-597 | the restart is asked for exactly if handshake command and version differ, which is what the comment says exactly if version and data command are both equal to the handshake command or both not |
| `Handshake.Conversation` | tools/gip_init.py:550-765 | what is said on both paths, command by command, and what master secret and HOST_FINISH are derived from |
| `Handshake.SendSecret` | tools/gip_init.py:734-738 | through the chunked transfer and reads of 64 bytes or more the device gets exactly the front of HOST_SECRET whose chunks went out |
| `Handshake.AckedSecretArrives` | tools/gip_init.py:734-738 | a device that acknowledges every chunk gets all of it |
| `Handshake.ExchangeV1` | tools/gip_init.py:715-740 | if HOST_SECRET arrives but for trailer, it is in both transcripts and both ends hold the same master secret |
| `Handshake.Tell` | tools/gip_init.py:342-346 | an unchunked payload read far enough is in both transcripts, and the device has its data |
| `Handshake.ExchangeV2` | tools/gip_init.py:673-705 | if the device reads HOST_PUBKEY far enough, both public keys are in both transcripts and both ends hold the same master secret |
| `Handshake.ClientFinish` | tools/gip_init.py:767-788 | over agreeing transcripts and secrets the comparison succeeds |
| `Handshake.CompareFinish` | tools/gip_init.py:780-787 | for any payload that comes back the comparison succeeds exactly if its bytes 10 to 41 are the PRF of the master secret over "Device Finished" and the transcript hash |
| `Handshake.Labels` | tools/gip_init.py:695-784 | the labels of the derivations are "Master Secret", "Host Finished" and "Device Finished" |
| `Handshake.GipAuthHandshake` | tools/gip_init.py:550-805 | if HOST_SECRET (v1) or HOST_PUBKEY (v2) arrives but for trailer, then when the host finishes and when the device does both have hashed exactly the same conversation and hold the same master secret, so the CLIENT_FINISH comparison succeeds |
| `SyncOut.StreamAudioOut` | tools/gip_init.py:1378-1447 | the loop makes the writes of the step function and leaves the ring as it says |
| `SyncOut.ExactlyOnce` | tools/gip_init.py:1411-1447 | in every run packets are numbered without gap or repetition, the attempt behind a timeout resends identical bytes and the attempt behind anything else is the next packet, and the PCM in the packets is what left the ring, in order |
| `SyncOut.WrittenAgainIff` | tools/gip_init.py:1431-1442 | two attempts carry the same packet exactly if all attempts from the first up to the second timed out, so nothing is written again after a success |
| `SyncOut.EachResolved` | tools/gip_init.py:1431-1442 | each packet below the next number has an attempt that did not time out |
| `SyncOut.EachAttempted` | tools/gip_init.py:1431-1442 | every number up to the last tried occurs |
| `SyncOut.StopsIff` | tools/gip_init.py:1440-1447 | the loop gives up exactly with the 101st error since a success, timeouts neither counting nor resetting |
| `SyncOut.SilentExactly` | tools/gip_init.py:1412-1430 | a packet is silent exactly if no earlier sample had found the prime depth or its own sample found less than 192 bytes |
| `SyncOut.TurnMakes` | tools/gip_init.py:1412-1430 | a turn that makes a packet primes exactly if it was primed or the ring held 3840 bytes, records that level, and takes the oldest 192 bytes if it was primed and found as many, else none |
| `SyncOut.TurnRepeats` | tools/gip_init.py:1411-1442 | a turn that writes again, and a turn behind the end, make no packet, prime nothing and read nothing |
| `SyncOut.PrimedIff` | tools/gip_init.py:1417-1421 | in every run the loop is primed exactly if some turn that made a packet found 3840 bytes in the ring |
| `SyncOut.PacketOfTurn` | tools/gip_init.py:1412-1430 | in every run packet k has the level of the ring in the turn that made it, and carries the oldest 192 bytes of the ring exactly if the loop was primed before and found as many |
| `SyncOut.MakerOf` | tools/gip_init.py:1412-1430 | every packet was made by some turn of the run |
| `SyncOut.NoBridgeIsSilent` | tools/gip_init.py:1413-1415 | without the bridge every packet is silent |
| `SyncOut.DeliveredIff` | tools/gip_init.py:1431-1442 | the PCM of the successful writes, in order, is that of all packets let go but those given up on an error, and it is all of it exactly if every packet given up was silent |
| `SyncOut.PrepareKeeps` | tools/gip_init.py:1417-1426 | behind the check of the fill level the read gets its 192 bytes, whatever is pushed in between |
| `SyncOut.ReadPlayback` | tools/gip_init.py:1425-1426 | a read fills the front of the 192-byte buffer with the oldest bytes of the ring |

## Left out

- libusb, nusb, pyusb, PipeWire, uinput, evdev, systemd and the install script: foreign calls, here arbitrary events or an in-order link.
- `rtrb` internals, atomics and memory ordering: its ring is an atomic bounded FIFO.
- Wall-clock deadlines, sleeps and the one-second cancel drain: a deadline is the end of an event list; nothing says how long libusb takes.
- `tools/iso_audio.py` submission, in-flight transfers and `stop`: as in `iso.rs`, where `IsoRuns` has them; a missing bridge is a flag of `IsoAudio.Engine`.
- Diagnostic counters (`out_pkts`, `out_silence`, `out_trimmed`, `in_bytes`), logging and hexdumps.
- Environment variables: the tunables are positive parameters (`IsoOut.Config`), `cap_low` any value of at least one frame.
- The sink closure's slice arithmetic (rust/src/audio.rs:219-226): a single branch; its pushes are the `Sink` events.
- `seq_ref` of the Python driver, which never wraps: sequence numbers come from `SeqCounter` and `out_seq`.
- Certificate parsing and the strength of the cryptography: opaque functions; and since the handshake returns True on a transcript mismatch too, no authentication is claimed from it.
- Handshake timeouts and short replies (early `return False`): the device of the model always answers, and its replies reach the host whole, as `AuthCuts.AnyChunksReceived` has it for replies in order below 65536 bytes.
- Gamepad bits, rumble, media buttons (rust/src/input.rs) and rust/src/main.rs: small finite facts.
- Varints.ReadVarint: the debug build, which stops at the sixth byte; `Varints.ReadVarintRelease` is the release build.
- Identify.ReceiveIdentifyResponse: a failing ACK write, which ends the call with an error, is not modelled; nor is a USB error on writing an ACK or a chunk in the AUTH path, which Python raises out of the handshake.
- IsoRuns.NeverOverflows: the bound is sufficient; `IsoDepth.NeverDropsIff` has the exact one.
- MicRuns.NeverOverflows: the bound is sufficient; `MicDepth.NeverDropsIff` has the exact one.
- Transfers that come back with a status other than NO_DEVICE or CANCELLED count as sent: the code refills them all alike.
- Spsc.Ring.Read: the destination is a mutable array, as in the source; the producer and consumer handles are one object.
