# Verification of a relay's core in Dafny

A model of the parts of the relay that turn bytes into other bytes, and proofs about them. Each module follows one
source file or one stage of it. Code that updates state in place is modelled by classes and methods with loops, each
proved against a function; what the source promises is proved about that function.

- `Blake3Spec`, `Blake3Chunk`, `Blake3Tree`, `Blake3`: the incremental BLAKE3 hasher against the recursive tree of
  section 2.1 of the BLAKE3 specification. The compression function is a parameter. `Blake3Collision` and
  `Blake3Blocks` are about the tree itself: equal hashes come from equal messages or from a collision of the
  compression function, and what each compression is given is said in numbers, without the tree.
- `Gf256`, `ReedSolomon`, `RsDistance`, `Interleave`, `QrTables`, `QrPlan`, `BinaryCode`, `QrFormat`, `QrFormatCode`,
  `QrVersion`, `QrVersionCode`, `Grid`, `Zigzag`, `QrCanvas`, `QrMask`, `QrBits`, `QrCodewords`, `QrCount`, `QrPlace`,
  `Qr`, `QrDamage`: the QR encoder, stage by stage, a specification decoder that undoes it, and how much damage its
  three codes and a whole symbol can take. The placement and interleaving proofs hold for any size, function mask and
  block shape; the tables are discharged by evaluation, and the room for the codewords of each version by rectangles
  that cover the function modules exactly. The penalty of a symbol is a parameter. `QrReference`, `QrStream` and
  `QrPicture` compare tables, stream and finished symbol with those of ISO/IEC 18004.
- `Aead`, `VmessSpec`, `VmessProofs`, `VmessBody`, `ShadowsocksSpec`, `ShadowsocksProofs`, `ShadowsocksBody`, `Codec`:
  the chunked body codecs. `VmessRecords` and `ShadowsocksRecords` say what the decoders make of any wire at all, in
  bytes. A cipher is a pair of functions with three laws: opening undoes sealing, a sealed text is longer than its
  plaintext by 16 bytes, and so is whatever opens. The keystream is any function from positions to bytes.
- `Reader`, `Addr`, `Vless`, `Trojan`, `VmessHeader`, `ShadowsocksHeader`, `Detect`: the header parsers and the
  detector. Text validity, the parsing of IP addresses, hashes and ciphers are parameters, and the clock is an
  argument as it is in the source. `VmessAccepted` and `ShadowsocksAccepted`: what the encrypted parsers accept is
  exactly what a client sends.
- `Relay`, `WebsocketRelay`, `Requests`: the two relays as state machines over the pieces that arrive, from the first
  header byte to the plaintext at the destination. That no second parser takes a part of a stream for a request of its
  own is a hypothesis; it is proved where it follows from the configuration or from the bytes.
- `UploadQueue`, `Uplink`, `UplinkHandlers`, `Downlink`: the reordering of numbered uplink chunks, the queue and the
  relay together, requests that send at the same time, and the way back. `Clients` says what each kind of client
  reads, from bytes and its own secrets alone.
- `Base64`, `Base64Text`, `Uri`, `Router`, `LastKnownGood`: encoders and decoders, share links, prefix routing, and
  the remembered route over runs of sessions.
- `Wrappers`, `Bits`: options, results, bytes and the arithmetic they share.

## Where the code does less than it seems to

- VMess nonces repeat: the 16-bit counter wraps, so chunks whose numbers agree modulo 65536 share a nonce
  (`VmessProofs.NonceRepeats` is the exact condition).
- `Incomplete` is not always resumable: an authenticated VMess header that is itself too short stays `Incomplete` for
  ever (`VmessHeader.CompleteIncomplete` is the exact condition, in lengths; `VmessHeader.WaitsForEver` holds under
  any primitives), and so does an authenticated variable part of a Shadowsocks header that is shorter than its own
  fields (`ShadowsocksHeader.CompleteIncomplete`, `ShadowsocksHeader.WaitsForEver`).
- The WebSocket relay drops the payload that arrives in the frame with the header, although its own comment warns of
  just that (src/transport/websocket.rs:142-145); `WebsocketRelay.LosesLeading` says exactly what is lost.
- The XHTTP relay refuses a session when the piece that completes the header takes the header buffer past 8192 bytes,
  payload included (`Relay.AnyCutting`).
- A Shadowsocks refusal or match can change with more bytes while an earlier credential with a longer key waits, and a
  refusal can become a request (`ShadowsocksHeader.KeptIff` and `ShadowsocksHeader.FollowsIff` are the exact
  conditions; `ShadowsocksHeader.ParseMonotone` holds when none waits and `ShadowsocksHeader.ExclusiveKept` when no
  two keys open one buffer; `ShadowsocksHeader.TwoCredentialsUnstable` and `ShadowsocksHeader.RefusedThenAccepted`
  show the need).
- So with what detection says: a match of a later protocol can change while an earlier parser waits, and its refusal
  can become a request (`Detect.DetectKeptIff` is the exact condition for any credentials, `Detect.DetectMonotone`
  holds before the bytes come; `Detect.EarlierWaiterCanWin`, `Detect.EarlierWaiterWins` and
  `Detect.RefusalBecomesRequest` show the need).
- Chunks of two uplink requests can be sent out of order: each takes its chunks from the queue in one go, but sends
  them one by one and waits while the relay is behind, and another may send in between
  (src/transport/xhttp/durable.rs:347-355; `UplinkHandlers.InOrderIff` is the exact condition,
  `UplinkHandlers.Overtaking` a schedule).
- Recordings of a preference are not always five minutes apart: a session that clears it lets the next one record at
  once (`LastKnownGood.RunSpaced` is what holds over a run, `LastKnownGood.ClearingLifts` shows the exception).
- An address that comes in brackets goes into a link unescaped (`Uri.LinkIff` is the exact condition).
- The module comment of the VMess parser says that the stream is forwarded verbatim (src/protocol/vmess.rs:137-138);
  the code hands it to the body codec, and the model follows the code.

## Model

| member | source | states |
|---|---|---|
| Blake3.Hasher.Finalize | src/crypto/blake3.rs:385-398 | For every message and every output length the output is the root output of the recursive left-balanced tree over the message (section 2.1 of the BLAKE3 specification) |
| Blake3.HashPieces | src/crypto/blake3.rs:369-398 | Any way of cutting an input into updates gives the hash of the whole input, so any two cuttings agree |
| Blake3.HashOnce | src/crypto/blake3.rs:409-437 | Each one-shot form, one update and 32 bytes of output, is the tree hash of its input in its mode |
| Blake3.PlainHash | src/crypto/blake3.rs:409-415 | The one-shot hash is the tree hash under the initial value, without flags |
| Blake3.KeyedHash | src/crypto/blake3.rs:419-425 | The keyed hash is the tree hash under the key, with its flag |
| Blake3.DeriveKey | src/crypto/blake3.rs:431-437 | Key derivation is the tree hash of the material under the key that the context hashes to |
| Blake3.Hasher.Update | src/crypto/blake3.rs:369-383 | Appends the input to the message; the stack, counter and current chunk stay those of the message, and no fallback is taken |
| Blake3.Hasher.AddChunkChainingValue | src/crypto/blake3.rs:360-367 | After a chunk is added the stack holds one root for each set bit of the new count; the loop merges as often as the count has trailing zeros and ends |
| Blake3.Hasher.PushStack | src/crypto/blake3.rs:342-347 | Pushes on top when there is room and drops the value when the stack is full |
| Blake3.Hasher.PopStack | src/crypto/blake3.rs:349-355 | Takes the top off, or returns zeros when the stack is empty |
| Blake3.Hasher.MergeTop | src/crypto/blake3.rs:360-367 | One turn of the merge loop: the top is the left sibling of the new subtree, and what comes out is the root of the perfect subtree over both |
| Blake3.StackEntry | src/crypto/blake3.rs:286-303 | In every reachable state the stack length is the number of set bits of the chunk counter, and the entry of a set bit is the root of that perfect subtree |
| Blake3.StackDepth | src/crypto/blake3.rs:342-355 | Below 2^55 - 1 chunks, which is nearly 2^65 bytes, the stack never needs more than its 54 entries, and at that number it would |
| Blake3.RootOutputBytes | src/crypto/blake3.rs:178-192 | The output bytes are those of one compression per 64 bytes, for lengths that cut a word or a block too |
| Blake3.WriteWords | src/crypto/blake3.rs:178-192 | Writes one block of words little-endian, the last word cut to fit, and nothing else |
| Blake3.XofPrefix | src/crypto/blake3.rs:178-192 | A shorter output is a prefix of a longer one |
| Blake3Chunk.ChunkState.Update | src/crypto/blake3.rs:228-254 | Appends to the chunk; a block is compressed only when more input follows it |
| Blake3Chunk.ChunkState.ChunkNode | src/crypto/blake3.rs:256-264 | The node is that of the whole chunk, its last block with its own length and the end flag |
| Blake3Chunk.BlocksCvPrefix | src/crypto/blake3.rs:228-254 | Later input does not change the chaining value of the blocks before it |
| Blake3Tree.FoldIsTree | src/crypto/blake3.rs:385-398 | Folding the stack of subtree roots with the node over the rest is the root of the tree over the whole message |
| Blake3Tree.MergeUnits | src/crypto/blake3.rs:360-367 | Two adjacent perfect subtrees merge into the perfect subtree of twice the size |
| Blake3Tree.EntryOfBit | src/crypto/blake3.rs:286-294 | The stack entry of a set bit is the root of the perfect subtree that ends where the higher bits and this one say |
| Blake3Tree.StackPrefix | src/crypto/blake3.rs:369-383 | Later input does not change the stack for what came before |
| Blake3Tree.PopCountBound | src/crypto/blake3.rs:342-347 | Fewer than 2^(k+1) - 1 chunks need at most k stack entries |
| Blake3Tree.PopCountFull | src/crypto/blake3.rs:342-347 | The bound is sharp: 2^k - 1 chunks need k entries |
| Blake3Tree.LeftSubtree | src/crypto/blake3.rs:360-367 | The left subtree of an input of more than one chunk is a power of two of chunks, less than all of the input and at least half of it (section 2.1 of the BLAKE3 specification) |
| Blake3Tree.SplitTree | src/crypto/blake3.rs:360-367 | A tree over more than s and at most 2s chunks, s a power of two, has exactly s chunks on the left |
| Blake3Collision.HashesTellApart | src/crypto/blake3.rs:385-398 | In any of the modes: when two messages have the same 32-byte hash, they are the same message under the same mode and key, or two different inputs of the compression function, one from the set of inputs of each hash, have the same first eight output words |
| Blake3Collision.PlainTellsApart | src/crypto/blake3.rs:409-415 | So for the plain hash: equal hashes mean equal messages, or a collision of the compression function |
| Blake3Collision.KeyedTellsApart | src/crypto/blake3.rs:419-425 | So for the keyed hash, which tells keys apart too |
| Blake3Collision.DerivedTellsApart | src/crypto/blake3.rs:431-437 | So for key derivation, which tells contexts apart too; the collision may be in the hash of the context |
| Blake3Collision.SameTree | src/crypto/blake3.rs:256-280 | Trees with the same root node hold the same message under the same mode and key, whatever the chunk numbers, or there is a collision below the roots |
| Blake3Collision.SameChunk | src/crypto/blake3.rs:256-264 | Two chunks with the same node hold the same bytes, or there is a collision among their blocks: the block length tells a short block from one with zeros behind it |
| Blake3Collision.ModesDiffer | src/crypto/blake3.rs:295-334 | The modes have the flags 0, 16, 32 and 64, so no two hash alike without a collision |
| Blake3Blocks.EveryBlock | src/crypto/blake3.rs:228-264 | Every block of every chunk is compressed as section 2.4 of the BLAKE3 specification says, in numbers: its little-endian words padded with zeros, the number of its chunk, the number of its bytes, 1 at the start and 2 at the end of a chunk, chained to the block before it or to the key; the last block of an only chunk has the root flag |
| Blake3Blocks.TreeOfMany | src/crypto/blake3.rs:267-280 | The root of more than one chunk: a power of two of chunks on the left, the key as chaining value, the outputs of left and right as block, number 0, length 64 and flag 4 |
| Blake3Blocks.OutputWord | src/crypto/blake3.rs:178-192 | Word w of the output is, little-endian, word w mod 16 of the root compressed under number w / 16 |
| Blake3Blocks.InitialValue | src/crypto/blake3.rs:45-48 | The initial value is the fractions of the square roots of the first eight primes |
| Gf256.GfMul | src/subscription/qr.rs:394-405 | The shift-and-reduce loop computes the product that the laws below are about |
| Gf256.MulIsProductModPrimitive | src/subscription/qr.rs:394-405 | A byte is the product exactly when it is congruent to the polynomial product modulo 0x11D |
| Gf256.MulDistributes | src/subscription/qr.rs:394-405 | Multiplication distributes over addition of field elements |
| Gf256.MulAssociative | src/subscription/qr.rs:394-405 | Multiplication is associative |
| Gf256.MulCommutative | src/subscription/qr.rs:394-405 | Multiplication is commutative |
| Gf256.MulOne | src/subscription/qr.rs:394-405 | One is neutral |
| ReedSolomon.RsDivisor | src/subscription/qr.rs:408-424 | For every degree the divisor is the product of (x - 2^i) without its leading one |
| ReedSolomon.GeneratorRoot | src/subscription/qr.rs:408-424 | The generator vanishes at each of the first `degree` powers of 2 |
| ReedSolomon.RsRemainder | src/subscription/qr.rs:427-437 | The feedback register computes the remainder of the data, shifted, by the divisor |
| ReedSolomon.BlockHasRoots | src/subscription/qr.rs:427-437 | Data of any length followed by its remainder vanishes at every root of the generator (section 7.5 of ISO/IEC 18004) |
| RsDistance.PowersDistinct | src/subscription/qr.rs:408-424 | The first 255 powers of 2 are all different, so the roots of a generator are |
| RsDistance.WordsApart | src/subscription/qr.rs:427-437 | Two different words of at most 255 codewords that vanish at the first n powers of 2 differ in more than n places |
| RsDistance.BlocksApart | src/subscription/qr.rs:427-437 | Blocks of different data differ in more places than there are parity codewords |
| RsDistance.OneNearest | src/subscription/qr.rs:427-437 | Damage up to half the parity leaves one block it can come from |
| Interleave.Columns | src/subscription/qr.rs:371-391 | The two column walks put out all data columns, then all parity columns |
| Interleave.InterleavedOnce | src/subscription/qr.rs:346-391 | Each codeword of each block is put out exactly once, for any mix of short and long blocks |
| Interleave.InterleavedLength | src/subscription/qr.rs:346-391 | The output is as long as all blocks together |
| Interleave.InterleavedEntry | src/subscription/qr.rs:371-391 | Where each data codeword of each block lands |
| Interleave.DeinterleaveInverse | src/subscription/qr.rs:346-391 | An explicit left inverse recovers the payload from the interleaved codewords |
| Interleave.CapacityIsRest | src/subscription/qr.rs:346-370 | Short and long blocks together hold exactly raw codewords minus parity |
| QrCodewords.InterleaveCodewords | src/subscription/qr.rs:346-391 | Cuts the payload into its blocks, appends parity to each and interleaves them |
| QrCodewords.BlocksHaveRoots | src/subscription/qr.rs:346-391 | Every block of every symbol vanishes at all roots of its generator |
| QrCodewords.BlocksShort | src/subscription/qr.rs:111-149 | No block of any version and level is longer than 255 codewords |
| QrCodewords.OnePayload | src/subscription/qr.rs:346-391 | For every version and level: damage up to half the parity of each block leaves one payload it can come from |
| QrTables.EntryHolds | src/subscription/qr.rs:111-149 | Every entry of the tables leaves at least nine data codewords, at least one per block, and fits the count field |
| QrPlan.SmallestFrom | src/subscription/qr.rs:231-235 | The first version that fits, and none before it does; an error exactly if none fits |
| QrPlan.Plan | src/subscription/qr.rs:243-252 | The smallest version at the required level and the strongest level that fits it; an error exactly when no version fits |
| QrReference.CapacityHolds | src/subscription/qr.rs:111-149 | The tables leave, for every version and level, as many bytes as table 7 of ISO/IEC 18004 says |
| QrReference.StrongerLeavesLess | src/subscription/qr.rs:243-252 | The order by which the strongest level is picked is that of the parity: a stronger level has more parity codewords and leaves fewer for data, in every version |
| QrCodewords.ShapeCapacity | src/subscription/qr.rs:276-280 | The block structure of a version holds its data codewords, and with parity its raw codewords |
| QrCanvas.AlignmentPositions | src/subscription/qr.rs:283-308 | The centre coordinates, none below zero |
| QrCanvas.AlignmentsApart | src/subscription/qr.rs:283-308 | No two alignment patterns overlap, in any version |
| QrReference.CentresHold | src/subscription/qr.rs:283-308 | The coordinates computed are those of annex E of ISO/IEC 18004, in every version |
| QrBits.BitBuffer.Push | src/subscription/qr.rs:447-451 | Appends the low bits of the value, most significant first |
| QrBits.BitBuffer.IntoBytes | src/subscription/qr.rs:457-465 | Every bit lands in its byte, the rest are zero |
| QrBits.BuildStream | src/subscription/qr.rs:311-339 | The stream is exactly the data capacity; after the four-bit terminator no alignment bits are needed (section 7.4.10 of ISO/IEC 18004) |
| QrBits.StreamRoundTrip | src/subscription/qr.rs:311-339 | Reading mode, count and bytes gives the payload back |
| QrStream.StreamIs | src/subscription/qr.rs:311-339 | The stream in groups of four bits: 0100, the count in one or two bytes, each byte with its high half first, 0000, and the pad codewords 11101100 and 00010001 in turn up to the capacity |
| QrStream.CodewordNibbles | src/subscription/qr.rs:311-339 | Every data codeword of a payload has the value of its two groups of four bits in that stream |
| QrBits.NumBitsInverse | src/subscription/qr.rs:447-451 | A number below 2^width is read back from its bits |
| QrBits.PackBits | src/subscription/qr.rs:457-465 | Packing bits into bytes keeps every bit |
| QrCodewords.BuildCodewords | src/subscription/qr.rs:311-339 | The codewords of a payload that fits |
| QrCodewords.ReadBuilt | src/subscription/qr.rs:311-391 | De-interleaving, dropping parity and reading the stream recovers exactly the payload |
| QrCanvas.Canvas.SetFunction | src/subscription/qr.rs:492-497 | Sets and reserves one module; a position outside is ignored |
| QrCanvas.Canvas.DrawFunctionPatterns | src/subscription/qr.rs:556-585 | Every pattern module has its colour and is reserved, the later patterns over the earlier, and no other module changes |
| QrCanvas.Canvas.DrawFinder | src/subscription/qr.rs:594-603 | Rings 2 and 4 light, clamped to the symbol |
| QrCanvas.Canvas.DrawAlignment | src/subscription/qr.rs:605-611 | Ring 1 light |
| QrCanvas.Canvas.DrawFormatBits | src/subscription/qr.rs:614-645 | Both copies of the 15 bits and the dark module; the modules touched do not depend on mask or level |
| QrCanvas.Canvas.DrawVersionBits | src/subscription/qr.rs:648-664 | Both copies of the 18 version bits |
| QrVersion.VersionBits | src/subscription/qr.rs:648-664 | The version number followed by the check bits that the next row determines |
| QrVersionCode.VersionCheckIff | src/subscription/qr.rs:648-664 | The check bits are the one choice of twelve bits that makes the version followed by them a multiple of 0x1F25 as polynomials over two elements (section 7.10 of ISO/IEC 18004) |
| QrVersionCode.VersionApart | src/subscription/qr.rs:648-664 | Any two different version words differ in at least eight bits |
| QrVersionCode.OneVersion | src/subscription/qr.rs:648-664 | Up to three damaged bits leave one version they can come from |
| QrFormat.FormatBits | src/subscription/qr.rs:614-622 | The format word of level and mask: data bits, the check bits that the next row determines, and the fixed mask |
| QrFormatCode.CheckBitsIff | src/subscription/qr.rs:614-622 | The check bits are the one choice of ten bits that makes data followed by them a multiple of 0x537 as polynomials over two elements (section 7.9 of ISO/IEC 18004) |
| QrFormatCode.FormatApart | src/subscription/qr.rs:614-622 | Any two different format words differ in at least seven bits |
| QrFormatCode.OneFormat | src/subscription/qr.rs:614-622 | Up to three damaged bits leave one level and mask they can come from |
| BinaryCode.RestIff | src/subscription/qr.rs:614-664 | For both generators the remainder of the shifted data is the only choice of check bits that makes a multiple |
| QrFormat.FormatRoundTrip | src/subscription/qr.rs:614-622 | Level and mask are read back from the format bits |
| QrReference.FormatWordsHold | src/subscription/qr.rs:614-622 | All 32 format words are those of table C.1 of ISO/IEC 18004 |
| QrReference.VersionWordsHold | src/subscription/qr.rs:648-664 | All 34 version words are those of table D.1 of ISO/IEC 18004 |
| Zigzag.FullOrderMembers | src/subscription/qr.rs:667-696 | For any odd size from 21 on the zigzag visits every module outside column 6 exactly once and no other (section 7.7 of ISO/IEC 18004) |
| Zigzag.PathAt | src/subscription/qr.rs:667-696 | Where the zigzag is at every step, in every symbol: pairs of columns from right to left without column 6, upwards and downwards in turn from the bottom, each row from right to left |
| Zigzag.PathStart | src/subscription/qr.rs:667-696 | It starts in the bottom right corner |
| Zigzag.ShortSteps | src/subscription/qr.rs:667-696 | No step leaves the row by more than one or goes right by more than one column, so each pair of columns is entered at the edge where the last one ended |
| Qr.SymbolSizes | src/subscription/qr.rs:477-484 | Version v has 4v + 17 modules on each side, so all this holds of every version |
| Zigzag.ReadPlaced | src/subscription/qr.rs:667-696 | Bit k lands on the k-th free module, reading back in the same order returns the bits, and every other module is as before |
| QrPlace.DrawCodewords | src/subscription/qr.rs:667-696 | The loop places the bits of the codewords along the zigzag, for any odd size from 21 on and any function mask; bits that find no free module are dropped |
| QrCount.ExactRoom | src/subscription/qr.rs:263-274 | In every version exactly as many modules are free as the capacity formula says |
| QrCount.CoverIff | src/subscription/qr.rs:556-585 | A set of rectangles covers exactly the function modules |
| QrCount.CoverSize | src/subscription/qr.rs:263-274 | The areas of the rectangles add up to what the capacity formula takes off: no two of them overlap |
| QrMask.ApplyMask | src/subscription/qr.rs:699-721 | Flips exactly the data modules that the pattern selects |
| QrMask.BestMask | src/subscription/qr.rs:539-554 | The lowest-numbered mask of least penalty, for any penalty; every data module ends as it began |
| QrMask.Unmasked | src/subscription/qr.rs:539-554 | Masking twice restores every module outside the format area |
| QrMask.MaskAndFormat | src/subscription/qr.rs:539-554 | The masked symbol with the matching format information |
| QrPicture.MaskPicture | src/subscription/qr.rs:699-721 | The eight mask patterns are the pictures of section 7.8.2 of ISO/IEC 18004 |
| Qr.Draw | src/subscription/qr.rs:519-532 | The finished symbol as a whole: patterns, codewords, mask and format; without a given mask the chosen one has least penalty |
| Qr.Encode | src/subscription/qr.rs:167-171 | A specification decoder recovers exactly the payload from the symbol; its version is the smallest that fits, its level the strongest that fits there, its mask the lowest-numbered of least penalty; an error exactly when none fits |
| Qr.SymbolRoundTrip | src/subscription/qr.rs:519-532 | Every codeword laid out in a symbol is read back, for every version, level and mask |
| Qr.DecodeEncoded | src/subscription/qr.rs:167-171 | For every payload that fits and every mask the decoder recovers payload, level and mask |
| Qr.SymbolFormat | src/subscription/qr.rs:614-645 | Both copies of the format information tell level and mask |
| QrPicture.SymbolVersion | src/subscription/qr.rs:648-664 | Both copies of the version information tell the version, read where section 7.10 of ISO/IEC 18004 places them |
| QrPicture.FinderModules | src/subscription/qr.rs:594-603 | In the finished symbol each of three corners shows the finder pattern with its light edge inwards, module by module |
| QrPicture.AlignmentModules | src/subscription/qr.rs:556-611 | At every pair of the centres of annex E but three, the finished symbol shows an alignment pattern |
| QrPicture.TimingModules | src/subscription/qr.rs:556-585 | Between the finder patterns row and column 6 alternate, dark at even places |
| QrPicture.SecondFormatModule | src/subscription/qr.rs:614-645 | Where each bit of the second copy of the format information is, and the dark module |
| QrPicture.VersionModules | src/subscription/qr.rs:648-664 | Where each bit of both copies of the version information is |
| QrDamage.ErrorsAreDamage | src/subscription/qr.rs:667-721 | In every block, no more codewords are read wrongly than have a damaged module |
| QrDamage.OneReading | src/subscription/qr.rs:519-532 | Whatever modules are seen, at most one payload, level and mask explain them with up to three damaged modules in the first copy of the format information and, in each block, damaged codewords up to half its parity |
| QrDamage.IntactExplains | src/subscription/qr.rs:519-532 | An undamaged symbol is explained by what it was drawn from |
| VmessSpec.AcceptedOptions | src/protocol/vmess_body.rs:173-197 | Exactly the option bytes 0x01, 0x05 and 0x0d are accepted, and what each means |
| VmessBody.Split | src/protocol/vmess_body.rs:305-323 | Succeeds exactly for securities 3 and 4 with an accepted option byte; both halves keyed for their direction, from the start of the keystream |
| VmessBody.Direction.NextFraming | src/protocol/vmess_body.rs:282-287 | Draws padding length, then mask, from the one keystream |
| VmessBody.Direction.NextNonce | src/protocol/vmess_body.rs:290-296 | The nonce of the counter, which then wraps |
| VmessBody.VmessDecoder.Decode | src/protocol/vmess_body.rs:391-435 | One call does what the chunk machine does: same chunks, same error, same state |
| VmessBody.VmessEncoder.Encode | src/protocol/vmess_body.rs:457-481 | One chunk on the wire for each piece; a sealed length always fits its field |
| VmessBody.VmessEncoder.TakePrologue | src/protocol/vmess_body.rs:446-448 | The response header once, nothing afterwards |
| VmessProofs.RunAppend | src/protocol/vmess_body.rs:391-435 | Input that comes later continues where the decoder stopped, a half-read chunk included |
| VmessProofs.DecodeSplit | src/protocol/vmess_body.rs:391-435 | Decoding a then b is decoding a followed by b: same chunks, same first error, equivalent state |
| VmessProofs.DecodeAnySplit | src/protocol/vmess_body.rs:391-435 | However the wire is cut, the same chunks, the same error and an equivalent state, after the end of the stream too |
| VmessProofs.RoundTrip | src/protocol/vmess_body.rs:391-481 | For any writes and any cutting of the wire the decoder puts out exactly the writes, never fails and sees no end marker |
| VmessRecords.DecodedIff | src/protocol/vmess_body.rs:391-435 | On any wire at all: the decoder puts out given plaintexts and then waits, ends or fails exactly if the wire is records that open to them under the numbers 0, 1, 2, ..., whatever stands in their padding, and then less than a record, the end marker, a size out of bounds, or what does not authenticate |
| VmessRecords.FrontDecodes | src/protocol/vmess_body.rs:391-435 | What the front of a wire does to a decoder that has opened n chunks, in bytes: sizes from 16 plus the padding to 17408 are taken, an empty plaintext ends the stream |
| VmessRecords.EndIsFinal | src/protocol/vmess_body.rs:391-435 | After the end marker nothing is read any more |
| VmessProofs.WireIsNumbered | src/protocol/vmess_body.rs:457-481 | The wire of a session chunk by chunk, without the state of the encoder: chunk n has its masked length, high byte first, the piece sealed under the low 16 bits of n in front of bytes 2 to 11 of the IV, and its padding; with padding, keystream word 2n is the padding and 2n + 1 the mask |
| Bits.XorBitAt | src/protocol/vmess_body.rs:409-409 | Every bit of a masked length says whether the bits of length and mask differ |
| VmessProofs.OneChunk | src/protocol/vmess_body.rs:457-481 | A sealed chunk passes the size checks and opens to its piece |
| VmessProofs.EncodeCallsArePieces | src/protocol/vmess_body.rs:457-481 | Calls of the encoder one after another are one stream of chunks |
| VmessProofs.PendingBounded | src/protocol/vmess_body.rs:391-435 | At most 17409 bytes are kept after a call while the stream goes on |
| VmessProofs.SessionPendingBounded | src/protocol/vmess_body.rs:391-435 | So over a whole session of calls, whatever arrives |
| VmessProofs.RunKeepsSync | src/protocol/vmess_body.rs:391-435 | On any input, keystream position, counter and remembered framing are those of the number of chunks opened |
| VmessProofs.NonceRepeats | src/protocol/vmess_body.rs:290-296 | Two chunks of a session share a nonce exactly when their numbers agree modulo 65536 |
| Aead.XorTwice | src/protocol/vmess_body.rs:409-409 | Masking a length twice gives it back |
| ShadowsocksBody.SsDecoder.Decode | src/protocol/shadowsocks_body.rs:123-164 | The payload of the request header first and once, then what the chunk machine does |
| ShadowsocksBody.SsEncoder.Encode | src/protocol/shadowsocks_body.rs:183-217 | Salt, header and first payload on the first call with data, then a sealed length and a sealed piece each |
| ShadowsocksBody.SsEncoder.SealNext | src/protocol/shadowsocks_body.rs:219-223 | Operation number k uses counter k |
| ShadowsocksBody.NoNonceRepeats | src/protocol/shadowsocks_body.rs:219-223 | No two operations of an encoder share a nonce, up to 2^64 of them |
| ShadowsocksBody.Split | src/protocol/shadowsocks_body.rs:68-98 | Both halves, keyed for their direction; the decoder goes on at the counter of the request |
| ShadowsocksProofs.RunAppend | src/protocol/shadowsocks_body.rs:123-164 | Input that comes later continues where the decoder stopped, between a length and its body too |
| ShadowsocksProofs.DecodeSplit | src/protocol/shadowsocks_body.rs:123-164 | Decoding a then b is decoding a followed by b: same chunks, same first error, same state |
| ShadowsocksProofs.DecodeAnySplit | src/protocol/shadowsocks_body.rs:123-164 | However the wire is cut, the same chunks, the same error and the same state |
| ShadowsocksProofs.PendingBounded | src/protocol/shadowsocks_body.rs:123-164 | After a call at most 65550 bytes are kept, and an awaited body is not longer than a chunk |
| ShadowsocksProofs.CounterCounts | src/protocol/shadowsocks_body.rs:123-164 | On any input a call counts two operations for each chunk and one while a body is awaited |
| ShadowsocksProofs.SessionBounded | src/protocol/shadowsocks_body.rs:123-164 | Over a whole session of calls, whatever arrives, what is kept stays bounded |
| ShadowsocksProofs.SessionCounter | src/protocol/shadowsocks_body.rs:123-164 | Over a whole session the counter is the start plus two for each chunk put out, and one while a body is awaited |
| ShadowsocksProofs.RoundTrip | src/protocol/shadowsocks_body.rs:183-223 | For any writes a client reading salt, header, first payload and chunks recovers the writes, the echoed request salt and the time |
| ShadowsocksProofs.HeaderReads | src/protocol/shadowsocks_body.rs:190-211 | The header tells salt, echoed salt, time and the length of the first payload |
| ShadowsocksProofs.NonceInjective | src/protocol/shadowsocks.rs:239-243 | Different counters below 2^64 have different nonces |
| ShadowsocksProofs.NonceIsNumbered | src/protocol/shadowsocks.rs:239-243 | The nonce is the counter in eight bytes, lowest first, and four zeros |
| ShadowsocksProofs.WireIsNumbered | src/protocol/shadowsocks_body.rs:183-223 | The wire of a response operation by operation: the salt; 1, the time, the echoed salt and a length under number 0; the first payload under number 1; then two numbers for each chunk |
| ShadowsocksRecords.DecodedIff | src/protocol/shadowsocks_body.rs:123-164 | On any wire at all: the decoder puts out given plaintexts and then waits or fails exactly if the wire is records that open to them under numbers without gap, and then less than a record, a length of zero, or what does not authenticate |
| ShadowsocksRecords.FrontDecodes | src/protocol/shadowsocks_body.rs:123-164 | What the front of a wire does to the decoder, in bytes: the length under one number, the body under the next, and a length of zero refused |
| Codec.Decoder.Decode | src/protocol/codec.rs:117-129 | One call does what the step of its protocol does |
| Codec.AnySplit | src/protocol/codec.rs:117-129 | However the uplink is cut, every protocol delivers the same bytes, fails the same way and goes on from the same state, the encrypted ones in the same chunks |
| Codec.PlainSplit | src/protocol/codec.rs:117-129 | Plain bodies pass every byte through and never fail |
| Codec.Encoder.Prologue | src/protocol/codec.rs:153-164 | Hands over what is owed; a second call is empty for every protocol |
| Codec.Encoder.Encode | src/protocol/codec.rs:170-176 | One call does what the step of its protocol does: a plain body as it is, the others as their encoders wrap it; what is due before any payload stays due |
| Reader.Cursor.Take | src/protocol/mod.rs:140-153 | The next bytes, `Incomplete` when they are not there yet, and a terminal refusal of an implausible length; the cursor moves only on success |
| Reader.Cursor.U8 | src/protocol/mod.rs:123-127 | The next byte or `Incomplete` |
| Reader.Cursor.U16Be | src/protocol/mod.rs:130-133 | The next two bytes, most significant first, or `Incomplete` |
| Reader.TakeSettled | src/protocol/mod.rs:140-153 | More bytes change nothing but `Incomplete` |
| Reader.CtEq | src/protocol/mod.rs:173-182 | True exactly for equal byte strings |
| Reader.Authenticate | src/protocol/vless.rs:98-106 | The last table entry equal to what was presented, none exactly if there is none |
| Reader.LastMatch | src/protocol/trojan.rs:83-91 | The index is the last match |
| Addr.ReadHost | src/protocol/addr.rs:126-170 | The host that the chosen table says, with every malformed case refused |
| Addr.ReadTargetSocks5 | src/protocol/addr.rs:174-178 | Address, then port |
| Addr.AddressRoundTrip | src/protocol/addr.rs:126-170 | Every address that can be written is read back, a literal address in the name slot normalised, under either table |
| Addr.HostCases | src/protocol/addr.rs:126-170 | `Incomplete` exactly when fewer bytes are there than the type and the name length ask for; read exactly when the type is known and the name sound |
| Addr.HostSettled | src/protocol/addr.rs:126-170 | More bytes change nothing but `Incomplete` |
| Addr.HostDecided | src/protocol/addr.rs:126-170 | 255 bytes are enough for any address |
| Addr.HostIsPrinted | src/protocol/addr.rs:126-170 | Whatever is read as an address is the written form of one that can be written |
| Vless.Parse | src/protocol/vless.rs:117-156 | The cursor code computes the header, then the payload |
| Vless.ParseMonotone | src/protocol/vless.rs:117-156 | With more bytes a request is the same request with more payload, and a refusal the same refusal |
| Vless.StrictPrefixIncomplete | src/protocol/vless.rs:117-156 | A request cut anywhere inside its header is `Incomplete` |
| Vless.RoundTrip | src/protocol/vless.rs:117-156 | A written header parses to the last user with that identifier, its command, its normalised target and exactly the payload |
| Vless.ParsedIff | src/protocol/vless.rs:117-156 | A buffer is a request exactly when it is a written header of a known user followed by some payload, and every way of seeing it so gives the same meaning |
| Vless.Decided | src/protocol/vless.rs:117-156 | 531 bytes always get a verdict |
| Vless.LimitIsSharp | src/protocol/vless.rs:117-156 | The longest header has 531 bytes, and 530 of them are not enough |
| Trojan.KeyFor | src/protocol/trojan.rs:70-79 | Lower-case hexadecimal of the digest, 56 digits |
| Trojan.HexAt | src/protocol/trojan.rs:70-79 | Each byte of the digest is written in its two digits, the high one first |
| Trojan.HexInjective | src/protocol/trojan.rs:70-79 | Different digests have different keys |
| Trojan.Parse | src/protocol/trojan.rs:99-125 | The cursor code computes the header, then the payload |
| Trojan.ParseMonotone | src/protocol/trojan.rs:99-125 | With more bytes a request is the same request with more payload, and a refusal the same refusal |
| Trojan.StrictPrefixIncomplete | src/protocol/trojan.rs:99-125 | A request cut anywhere inside its header is `Incomplete` |
| Trojan.RoundTrip | src/protocol/trojan.rs:99-125 | A written header parses to the last user with that key, its command, its normalised target and exactly the payload (addresses as in section 5 of RFC 1928) |
| Trojan.ParsedIff | src/protocol/trojan.rs:99-125 | A buffer is a request exactly when it is a written header with a known key followed by some payload, and every way of seeing it so gives the same meaning |
| Trojan.Decided | src/protocol/trojan.rs:99-125 | 318 bytes always get a verdict |
| Trojan.LimitIsSharp | src/protocol/trojan.rs:99-125 | The longest header has 318 bytes, and 317 of them are not enough |
| VmessHeader.Parse | src/protocol/vmess.rs:296-356 | The last credential that opens the identifier decides; lengths are bounded before they are used |
| VmessHeader.DecodeHeader | src/protocol/vmess.rs:407-457 | The checksum first, then the fields |
| VmessHeader.FieldsRoundTrip | src/protocol/vmess.rs:416-457 | Every field of a written header is read back where it belongs |
| VmessHeader.RoundTrip | src/protocol/vmess.rs:296-356 | What a client sends, from an identifier written within 120 seconds on, parses to its user, the fields of its header and exactly the payload |
| VmessAccepted.ParsedIff | src/protocol/vmess.rs:296-356 | A buffer is a request of a user exactly when it is what a client of this user sends, with some payload: a timely identifier under the key of the user that no later key accepts, and behind the sealed length a sealed header that holds a written one with its checksum; then it means what was written |
| VmessHeader.AuthIdOpens | src/protocol/vmess.rs:270-285 | An identifier that a client has written, eight bytes of time and four random ones with their checksum, opens to its time |
| VmessHeader.UntimelyRefused | src/protocol/vmess.rs:303-323 | An identifier more than 120 seconds old or ahead is refused, whatever follows it |
| VmessHeader.NobodyRefused | src/protocol/vmess.rs:303-323 | One that no key accepts is refused |
| VmessHeader.TooLongRefused | src/protocol/vmess.rs:325-340 | A header that says it is longer than 2048 bytes is refused as soon as it says so |
| VmessHeader.ParseMonotone | src/protocol/vmess.rs:296-356 | With more bytes a request is the same request with more payload, and a refusal the same refusal |
| VmessHeader.FieldsShortIff | src/protocol/vmess.rs:416-457 | The fields are `Incomplete` exactly when they are empty, or of version 1 and shorter than 38 bytes, or with a known command shorter than port, address and padding |
| VmessHeader.CompleteIncomplete | src/protocol/vmess.rs:407-457 | Once the header is complete, `Incomplete` means exactly that an authenticated header has fewer than four bytes, or an intact checksum and fewer bytes than its fields announce, and then it stays |
| VmessHeader.EnoughIsComplete | src/protocol/vmess.rs:325-340 | 2106 bytes are always a complete header |
| VmessHeader.WaitsForEver | src/protocol/vmess.rs:407-410 | Under any primitives a sealed header that is cut short stays `Incomplete`, however much follows it |
| ShadowsocksHeader.Parse | src/protocol/shadowsocks.rs:315-372 | The first credential that opens the fixed part and decides; `Incomplete` if none decides and one waits |
| ShadowsocksHeader.DecodeAfterFixed | src/protocol/shadowsocks.rs:378-427 | Type, clock, variable part, address, padding and first payload, each case of refusal in order |
| ShadowsocksHeader.RoundTrip | src/protocol/shadowsocks.rs:315-372 | A request written within 30 seconds parses to its credential, its normalised target, the session the body goes on with and exactly the payload |
| ShadowsocksAccepted.ParsedIff | src/protocol/shadowsocks.rs:315-372 | A buffer is a request of a user exactly when it is what a client with this key sends, with some payload, and no earlier key accepts or refuses it: a salt, and under the key derived from it a timely fixed part and a variable part that have been written |
| ShadowsocksAccepted.DoneIff | src/protocol/shadowsocks.rs:328-371 | So for one credential, whatever the others |
| ShadowsocksHeader.UntimelyRefused | src/protocol/shadowsocks.rs:378-399 | A request more than 30 seconds old or ahead is refused as soon as its fixed part is there |
| ShadowsocksHeader.TrySettled | src/protocol/shadowsocks.rs:315-372 | What one credential makes of a buffer changes with more bytes only while it waits |
| ShadowsocksHeader.ParseMonotone | src/protocol/shadowsocks.rs:315-372 | When no earlier credential waits, request and refusal stay the same with more bytes |
| ShadowsocksHeader.OneCredential | src/protocol/shadowsocks.rs:315-372 | With one credential a verdict means that none waits |
| ShadowsocksHeader.KeptIff | src/protocol/shadowsocks.rs:328-371 | The verdict comes from the first credential that opens the fixed part and then refuses, or has a complete header that is not short. With more bytes it is kept exactly when no earlier credential gets there by then, or the first that does refuses in the same way |
| ShadowsocksHeader.SettlesIff | src/protocol/shadowsocks.rs:315-372 | A credential accepts or refuses exactly when it opens the fixed part and either its header is refused or, in openings and lengths, its variable part is there and not short |
| ShadowsocksHeader.FollowsIff | src/protocol/shadowsocks.rs:328-371 | For any credentials and key lengths: a request stays that request and a refusal stays some refusal exactly when no earlier credential overtakes the one that settled |
| ShadowsocksHeader.ExclusiveKept | src/protocol/shadowsocks.rs:328-371 | When no two credentials open one buffer, the verdict of one that settles is final, whatever the key lengths |
| ShadowsocksHeader.TwoCredentialsUnstable | src/protocol/shadowsocks.rs:328-371 | With two key lengths a refusal can change under lawful ciphers: a concrete pair of buffers |
| ShadowsocksHeader.RefusedThenAccepted | src/protocol/shadowsocks.rs:328-371 | A refusal can become a request: a written request of the longer key is refused at 43 bytes and accepted when it is whole, under lawful ciphers |
| ShadowsocksHeader.VariableShortIff | src/protocol/shadowsocks.rs:413-422 | The variable part is `Incomplete` exactly when it is shorter than its address, port, padding length and padding |
| ShadowsocksHeader.CompleteIncomplete | src/protocol/shadowsocks.rs:413-422 | With one credential and a complete header, `Incomplete` means exactly that an authenticated variable part is short, and then it stays |
| ShadowsocksHeader.EnoughIsComplete | src/protocol/shadowsocks.rs:401-411 | The fixed part, 65535 bytes and the tag are always a complete header |
| ShadowsocksHeader.WaitsForEver | src/protocol/shadowsocks.rs:413-422 | Under any lawful cipher a sealed variable part that is cut short stays `Incomplete`, however much follows it |
| Detect.Identify | src/protocol/detect.rs:162-259 | The parsers in order until one matches, else `Incomplete` if any waits, else one uniform refusal |
| Requests.VlessRequest | src/protocol/detect.rs:162-188 | What detection says of a written VLESS request: the last user with that identifier, its target unless it is multiplexed, TCP exactly for command 1, a flow exactly for addons, two zero bytes to answer it, and the payload |
| Requests.TrojanRequest | src/protocol/detect.rs:189-203 | So for Trojan: never a flow, and nothing answers it |
| Requests.VmessRequest | src/protocol/detect.rs:204-232 | So for a VMess request that VLESS and Trojan do not take, with the fields its body is keyed by |
| Requests.ShadowsocksRequest | src/protocol/detect.rs:233-259 | So for a Shadowsocks request that no other parser takes and no earlier key opens |
| Detect.NeverBoth | src/protocol/detect.rs:162-203 | With keys from passwords no buffer is both VLESS and Trojan, and what Trojan accepts VLESS does not wait for |
| Detect.OrderIndependent | src/protocol/detect.rs:162-203 | The order of VLESS and Trojan does not matter, whatever the other parsers say |
| Detect.DetectMonotone | src/protocol/detect.rs:162-259 | A verdict is final once no earlier parser waits and, for a Shadowsocks verdict or the refusal, no earlier Shadowsocks credential waits |
| Detect.DetectKeptIff | src/protocol/detect.rs:162-259 | For any credentials: a verdict is kept under more bytes exactly when it is `Incomplete`, or no parser before the one that matched comes to match and, where VLESS, Trojan and VMess had all failed, no Shadowsocks credential overtakes another. The refusal is kept as a refusal |
| Detect.PlainDetectMonotone | src/protocol/detect.rs:162-259 | With VLESS and Trojan alone every verdict is final |
| Detect.PlainDetectDecided | src/protocol/detect.rs:162-259 | With VLESS and Trojan alone 531 bytes always get a verdict |
| Detect.EarlierWaiterCanWin | src/protocol/detect.rs:162-259 | While an earlier parser waits a later match is not final: under any primitives, a VMess request whose bytes start a VLESS header is VMess first and VLESS with the rest |
| Detect.EarlierWaiterWins | src/protocol/detect.rs:162-259 | This happens: concrete buffers, for any four-byte checksums |
| Detect.RefusalBecomesRequest | src/protocol/detect.rs:162-259 | The uniform refusal is not final: a written request of the longer of two Shadowsocks keys is refused at 43 bytes and is a request when it is whole, under lawful ciphers |
| Base64.EncodeWith | src/subscription/encode.rs:18-45 | The groups of three bytes give four characters each, the last one padded or not |
| Base64.Decode | src/crypto/base64.rs:21-72 | The 32-bit accumulator, which keeps old bits and wraps, computes the decoding that the laws below are about |
| Base64.DecodeIff | src/crypto/base64.rs:21-72 | A text decodes to b exactly if, apart from white space and final padding, it is the unpadded encoding of b, and padding does not stand alone (section 4 of RFC 4648) |
| Base64.RoundTrip | src/crypto/base64.rs:21-72 | Decoding undoes standard encoding, padded or not, for every byte string |
| Base64Text.SameNumber | src/subscription/encode.rs:18-45 | The values of a text are the base-64 digits of the number that the bytes denote, filled up with zero bits |
| Base64Text.TextAt | src/subscription/encode.rs:11-57 | Every character is that of the standard or URL-safe alphabet for its value (tables 1 and 2 of RFC 4648) |
| Base64Text.TextLength | src/subscription/encode.rs:18-45 | Four characters for three bytes, two for one more byte, three for two more; padding makes them four |
| Base64Text.Vectors | src/subscription/encode.rs:94-108 | The test vectors of section 10 of RFC 4648 |
| Base64Text.Standard | src/subscription/encode.rs:49-51 | The padded text under the standard alphabet |
| Base64Text.UrlSafe | src/subscription/encode.rs:55-57 | The text under the URL-safe alphabet, without padding |
| Base64Text.UrlClean | src/subscription/encode.rs:55-57 | It has no plus, no slash and no equals sign |
| Base64.SextetsUnique | src/crypto/base64.rs:56-69 | Values that leave no bits over are those of the bytes that came out |
| Uri.Percent | src/subscription/encode.rs:68-81 | Everything outside the unreserved set escaped |
| Uri.EscapedIs | src/subscription/encode.rs:68-81 | A byte stands for itself exactly if it is a letter, a digit or one of four marks, and is a percent sign and two upper-case digits otherwise (section 2.3 of RFC 3986) |
| Uri.PercentAppend | src/subscription/encode.rs:68-81 | A text is escaped byte by byte |
| Uri.PercentRoundTrip | src/subscription/encode.rs:68-81 | Decoding undoes percent-encoding for every text (section 2.1 of RFC 3986) |
| Uri.PercentClean | src/subscription/encode.rs:68-81 | An encoded text holds no separator |
| Uri.HostPortRoundTrip | src/subscription/uri.rs:131-143 | Host and port are read back, IPv6 addresses from their brackets |
| Uri.QueryRoundTrip | src/subscription/uri.rs:145-151 | Every pair is read back, in order, whatever the values |
| Uri.LinkRoundTrip | src/subscription/uri.rs:154-196 | A link splits into credential, host, port, every pair in order and label, for arbitrary texts (section 3 of RFC 3986) |
| Uri.LinkIff | src/subscription/uri.rs:131-143 | It does so exactly when the address does not already come in brackets |
| Uri.BracketedBreaks | src/subscription/uri.rs:131-135 | A bracketed address with a number sign makes the link unreadable |
| Router.OverlapIff | src/path.rs:24-42 | Two prefixes overlap exactly if some path is covered by both, slashes at the end or not, empty prefixes included |
| Router.CoversIsBelow | src/path.rs:24-42 | A prefix covers the paths that are it or below it; an empty one covers nothing |
| Router.StripIff | src/path.rs:24-36 | What is left of a path is what follows the prefix without its last slashes and one slash; nothing exactly when the path is that prefix |
| Router.RouteIff | src/router.rs:98-127 | Which route a path has and with which rest: the panel before the subscription before XHTTP, the decoy for what no prefix covers, and only the websocket for an upgrade |
| Router.ShadowingConflict | src/router.rs:69-88 | None exactly when no path is covered by two configured prefixes; otherwise a pair that overlaps |
| Router.OrderDoesNotMatter | src/router.rs:98-127 | Without a conflict the order of the checks does not matter |
| Router.OrderMatters | src/router.rs:98-127 | Some path is routed by the order of the checks exactly when two of the panel, subscription and XHTTP prefixes overlap |
| Router.UpgradeMatters | src/router.rs:98-127 | Some path is the websocket for an upgrade and another route without one exactly when the websocket prefix overlaps another |
| Router.ConflictIff | src/router.rs:69-127 | A configuration has no conflict exactly when neither happens for any path |
| LastKnownGood.OrderPlan | src/relay/outbound_state.rs:100-113 | Moves the fresh preferred candidate to the front |
| LastKnownGood.ActedOn | src/relay/outbound_state.rs:61-113 | A preference written within the last hour moves the first candidate that has its key to the front |
| LastKnownGood.NotActedOn | src/relay/outbound_state.rs:61-113 | Nothing else moves anything: no preference, a blank one, one without a time, one more than an hour old, or one that no candidate has |
| LastKnownGood.OrderOnlyMoves | src/relay/outbound_state.rs:100-113 | The same candidates and destination, and nothing else changes place |
| LastKnownGood.Dial | src/relay/connect.rs:156-209 | The first candidate that connects wins, with the first failure before it; when all fail, the error is that of the last one, and an empty plan has an error of its own |
| LastKnownGood.SuccessIndependent | src/relay/connect.rs:156-209 | Whether a dial succeeds does not depend on the stored preference |
| LastKnownGood.FailedPreferenceGone | src/relay/outbound_state.rs:180-212 | A preference that was put first and failed is not stored afterwards, whatever won |
| LastKnownGood.PreferenceCarried | src/transport/xhttp/durable.rs:893-936 | Over any run of sessions a stored preference is the key of a proxy candidate that carried one of them, stored when it ended |
| LastKnownGood.WritesSpaced | src/relay/outbound_state.rs:131-136 | A session that replaces a preference ends at least five minutes after it was stored |
| LastKnownGood.RunSpaced | src/relay/outbound_state.rs:131-136 | Over any run of sessions two recordings are at least five minutes apart, unless a session between them cleared the preference |
| LastKnownGood.ClearingLifts | src/relay/outbound_state.rs:131-136 | The exception happens: recorded, cleared and recorded again within two milliseconds |
| LastKnownGood.RememberedFirst | src/relay/outbound_state.rs:61-212 | Over any run: when a session has recorded a key, the next one within the hour that has such a candidate dials it first, if the sessions in between keep the preference |
| LastKnownGood.ForgottenLater | src/relay/outbound_state.rs:61-212 | After an hour it does not: the plan is dialed as it is |
| LastKnownGood.RecordedIff | src/relay/outbound_state.rs:122-212 | A session records exactly when a proxy candidate wins that is not the stored preference, five minutes or more after the last recording |
| LastKnownGood.ClearedIff | src/relay/outbound_state.rs:180-212 | A session clears exactly when nothing is recorded and the stored preference failed first, or everything failed |
| Relay.SplitBody | src/protocol/detect.rs:90-102 | Both halves of a session, decoder and encoder, each in the starting state that the request asks for; the error of a body that cannot be framed |
| Relay.Serve | src/transport/xhttp/durable.rs:500-696 | The header loop, the refusals, the split and the decoding loop do what the relay machine does, piece by piece |
| Relay.AnyCutting | src/transport/xhttp/durable.rs:500-696 | Any cutting of a stream forwards exactly what its body decodes to, unless the piece that completes the header makes the header buffer longer than 8192 bytes; then nothing is forwarded |
| Relay.FeedAny | src/transport/xhttp/durable.rs:654-696 | On any input what is forwarded is exactly what the decoder puts out in the calls before the first that fails; the chunks of that call are dropped, and the relay stops there |
| Relay.DeliversVless | src/transport/xhttp/durable.rs:500-696 | For any VLESS request, payload and cutting the destination gets exactly the payload |
| Relay.DeliversTrojan | src/transport/xhttp/durable.rs:500-696 | For any Trojan request, payload and cutting the destination gets exactly the payload |
| Relay.DeliversVmess | src/transport/xhttp/durable.rs:500-696 | For any VMess request, any writes and any cutting of header and chunks the destination gets exactly the writes |
| Requests.DeliversRecords | src/transport/xhttp/durable.rs:500-696 | So for any client that seals its chunks under their numbers: whatever stands in the padding and whatever follows the end marker |
| Relay.DeliversShadowsocks | src/transport/xhttp/durable.rs:500-696 | For any Shadowsocks request, first payload, chunks and cutting the destination gets the first payload, then the chunks |
| Requests.RefusesVless | src/transport/xhttp/durable.rs:552-560 | A VLESS stream that is not TCP or asks for a flow is refused, in any cutting, and nothing is forwarded |
| Requests.RefusesTrojan | src/transport/xhttp/durable.rs:552-560 | So a Trojan stream that is not TCP |
| Requests.RefusesVmess | src/transport/xhttp/durable.rs:552-568 | So a VMess stream that is not TCP or asks for a cipher or framing that there is not |
| Requests.RefusedCutting | src/transport/xhttp/durable.rs:552-568 | So any stream with such a request in front |
| Relay.FirstByteDecides | src/protocol/detect.rs:162-203 | With VLESS and Trojan alone and keys from passwords, the first byte of a stream says which one cannot take any part of it |
| Relay.OthersDisabled | src/protocol/detect.rs:162-259 | With the other protocols disabled no other parser takes any part of a stream |
| Relay.RuledOut | src/protocol/detect.rs:162-259 | Nor does one that the bytes rule out: VLESS by a first byte other than 0, Trojan with keys from passwords by a byte among the first 56 that is no lower-case hexadecimal digit |
| Relay.OneKeyQuiet | src/protocol/shadowsocks.rs:315-372 | With one Shadowsocks credential no other key makes anything of a stream |
| WebsocketRelay.Serve | src/transport/websocket.rs:91-209 | The header loop, what is sent first and the forwarding loop do what the websocket machine does |
| WebsocketRelay.LosesLeading | src/transport/websocket.rs:104-162 | Any framing forwards the payload without what came in the frame that completed the header; all of it exactly when a frame ends with the header |
| WebsocketRelay.VlessPayloadLost | src/transport/websocket.rs:104-162 | A VLESS payload in one frame with its header is not forwarded at all |
| Requests.ClosesVless | src/transport/websocket.rs:104-141 | A VLESS connection that is not TCP or asks for a flow is closed, in any framing, and nothing is forwarded |
| Requests.ClosesTrojan | src/transport/websocket.rs:104-141 | So a Trojan connection that is not TCP |
| Requests.ClosesVmess | src/transport/websocket.rs:104-141 | So every VMess connection |
| Requests.AnswersVless | src/transport/websocket.rs:141-188 | A VLESS connection that is carried gets two zero bytes first, and behind them the client reads exactly the chunks |
| Requests.AnswersTrojan | src/transport/websocket.rs:141-188 | A Trojan client has nothing to drop and reads exactly the chunks |
| Downlink.Pump | src/transport/xhttp/durable.rs:697-800 | Pushes what is due before any payload, unless it is empty, then every chunk wrapped, until the receiver is gone |
| Downlink.ReadsPushed | src/protocol/codec.rs:132-176 | Whenever the pushing stops, a client that knows the session reads exactly the chunks that were pushed: nothing else, nothing twice, nothing in another order, for every protocol |
| Downlink.Answer | src/transport/xhttp/durable.rs:697-800 | From the body of a request on: its encoder, the prologue and the chunks, and the client reads what was pushed, or the error of a body that cannot be framed |
| Clients.TrojanGets | src/protocol/detect.rs:189-203 | From the first bytes of a Trojan request on: what the client reads is exactly the chunks pushed, with nothing in front |
| Clients.VlessGets | src/protocol/detect.rs:162-188 | From the first bytes of a VLESS request on: behind version 0 and no addons the client reads exactly the chunks pushed |
| Clients.VmessGets | src/protocol/vmess_body.rs:305-323 | From the first bytes of a VMess request on: a client that checks the response header and opens chunks under the digests of its own key and IV, with the cipher and framing it asked for, reads exactly the chunks pushed; a request for anything else is not framed |
| Clients.VmessWritten | src/protocol/vmess.rs:296-356 | Those are the key, IV, cipher, framing and verification byte that the client has written |
| Clients.ShadowsocksGets | src/protocol/shadowsocks_body.rs:68-98 | From a written Shadowsocks request on: a client that derives the key of the reply from its own key and the salt in front of it, and checks the echo of its salt, reads exactly the chunks pushed |
| Clients.Reply | src/transport/xhttp/durable.rs:500-800 | Identifying a request and answering it: what Trojan and VLESS clients read of what is pushed |
| UploadQueue.UploadQueue.Push | src/transport/xhttp/session.rs:96-136 | What is accepted is delivered in order or held above a gap; repeats and refusals change nothing, and each refusal has its exact condition |
| UploadQueue.UploadQueue.Release | src/transport/xhttp/session.rs:111-121 | The awaited chunk goes out with all that follow it without a gap |
| UploadQueue.AllDelivered | src/transport/xhttp/session.rs:96-136 | When every number below n has been accepted, exactly those chunks have been delivered, in order and once each |
| UploadQueue.HeldBounded | src/transport/xhttp/session.rs:65-76 | What is held is bounded in number, in bytes and in distance |
| Uplink.Receive | src/transport/xhttp/durable.rs:300-358 | Posts in any order and with repeats: what goes out is the first data under each number, from 0 up to the first gap |
| Uplink.CarriedInOrder | src/transport/xhttp/session.rs:96-136 | When the posts carry the chunks of a stream, in any order and any of them repeated, exactly those chunks go out, in order and once each |
| Uplink.Session | src/transport/xhttp/durable.rs:300-696 | Queue and relay together: for posts that carry a stream of any of the four protocols the destination gets exactly its plaintext, unless the header buffer grows too long |
| UplinkHandlers.AllSentOnce | src/transport/xhttp/durable.rs:300-358 | Over any schedule of requests that take and send at the same time, every chunk that the queue let go is sent once when all are done |
| UplinkHandlers.InOrderIff | src/transport/xhttp/durable.rs:300-358 | Over any schedule the chunks are sent in order exactly when no request sends while an earlier one has chunks left |
| UplinkHandlers.TurnsDeliver | src/transport/xhttp/durable.rs:300-358 | Then what the relay receives is the first chunks in order, and all that the queue let go once every request is done |
| UplinkHandlers.Overtaking | src/transport/xhttp/durable.rs:300-358 | A schedule of two requests in which the second sends first |

## Left out

- Compression, AES, ChaCha, SHA, MD5, SHAKE, CRC-32 and FNV: parameters with the laws named above, or with none.
- The penalty score of a symbol: any function of the symbol; only which mask wins depends on it.
- SVG rendering and the reading of single modules.
- Capacity arithmetic of buffers, zeroing, timing and redaction of secrets in debug output.
- ShadowsocksBody.Split: the response key is any function of the pre-shared key and the salt; that it is derived with
  BLAKE3 is not restated.
- ShadowsocksBody.SsDecoder.Decode: the field that would mark the end of the stream is never set in the source and is
  not modelled; counters are unbounded, since 2^64 operations do not happen.
- VmessBody.Split: the response header is any function of the response key, IV and verification byte.
- VmessHeader.Parse: the derivation of keys from labels is inside the two opening functions.
- UploadQueue.UploadQueue.Push: sequence numbers are unbounded; the classifier refuses those from 2^32 on.
- LastKnownGood.Dial: how dialing a target ends is a function of the target, the same for the whole dial; refusal by
  address range, sockets and timeouts are inside it.
- Relay.Serve: the clock stands still, the dial succeeds and the destination takes every write; deadlines, supervision
  and diagnostics are not modelled.
- WebsocketRelay.Serve: the clock stands still, every frame is binary, the dial succeeds and the destination takes
  every write.
- Relay.DeliversVmess: the client's chunks are padded with zeros and the end marker is not part of the stream;
  Requests.DeliversRecords is about any padding, and about the end marker.
- LastKnownGood.OrderPlan: keys, trimming and lower case are functions with the law that keys are already trimmed, in
  lower case and not empty.
- Codec.Encoder.Encode: sealing does not fail, so there is no error to return.
- Downlink.Pump: reads arrive already joined into chunks; the window in which they are joined, and the switch of
  receivers, are not modelled.
- Uplink.Receive: a request sends all its chunks before the next one is taken in; UplinkHandlers has the other
  schedules.
- UplinkHandlers.InOrderIff: any request with chunks left may send next; which schedules the runtime and its bounded
  channel produce is not part of this model.
- How a plan is resolved from the outbound configuration, and the synthesis of NAT64 addresses: the proofs hold for
  every plan.
- Uri.LinkRoundTrip: holds for every list of parameters; which parameters a node has, and the VMess and Shadowsocks
  forms, are not modelled.
- Router.OrderDoesNotMatter: the classification of what is under the XHTTP prefix is not modelled.
- Addr.ReadHost: which texts are valid and which are IP addresses are functions without laws; local rejection of
  private ranges is not modelled.
- The configuration model, the panel, the emitters of client configurations, the Worker glue and the Python probe.
