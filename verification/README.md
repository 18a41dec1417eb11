# Verified models of libsignal's codecs, chain sort and streams

A Dafny model of seven parts of libsignal, with proofs of what they promise.
`dafny verify dfyconfig.toml` checks the whole project.

| part | files | main results |
|---|---|---|
| MFA key metadata: protobuf, padding, CBC and MAC in a 160-byte blob | `Utf8.dfy`, `Protobuf.dfy`, `Cbc.dfy`, `MfaMetadata.dfy` | round trip through every layer; exactly which blobs are accepted; decryption yields a normal form |
| `ReadableStream` over a native bulk-pull stream | `PullStream.dfy`, `BulkStream.dfy` | no item lost in any interleaving; no native call after termination; rejections and cancellation end every read; no read left hanging; source to consumer end to end, down to the last item and the ending |
| Framing of messages over a Noise session | `Noise.dfy` | exactly which ciphertexts `recv` accepts; every in-order conversation delivers what was sent, and exactly when its ends agree on the nonce |
| Ordering of a certificate chain | `CertChain.dfy` | sound for every issuance relation; exactly which inputs are accepted, and which sorted alike, from every order; cost |
| Stream that releases only validated bytes | `IncrementalMac.dfy`, `PassThrough.dfy` | output is the validated prefix; a stream ends well exactly for the right digests, however the input is cut |
| HMAC-SHA256-SIV of the master key | `Siv.dfy` | decryption is the exact inverse of encryption |
| Account entropy pool | `EntropyPool.dfy` | parsing and printing are inverse; the reported character is the first offending one |

`Bytes.dfy` and `Wrappers.dfy` hold byte strings and the failure datatypes.

## How the model is set up

Cryptography is a parameter. The block cipher is any pair of functions that are
inverse on 16-byte blocks under each key (`Cbc.Correct`); a MAC is any function
with 32-byte results; the AEAD of the Noise session opens a packet to `p` exactly
when the packet is what sealing `p` under that nonce gives (`Noise.Correct`).
Random bytes (the initial vector, the draws of a generated pool) and the outcome
of waiting (which promise settles when, how many items arrive before a debounce
deadline) are parameters or events, and the theorems hold for all of them.

Where the source updates things in place the model does too: `certs` is an array
permuted by swaps, ciphertext and plaintext buffers are arrays, and the Noise
connection, the validating MAC, the pass-through stream, the bulk-polled stream
and the stream adapter are classes. Every such method is proved equal to a
function of its inputs and its old state, and the theorems are about those
functions. In the source the adapter's controller and the Noise transport are
library objects; they are modelled from the WHATWG Streams Standard (section 4.9)
and the Noise Protocol Framework (sections 3 and 5.1). The protobuf reader and
writer are library code as well and follow the wire format: default values are
left out, the last of repeated fields counts, unknown fields are skipped, a varint
holds at most 64 bits, and tags and lengths at most 32.

A text is a sequence of Unicode scalar values, and its length limits apply to its
UTF-8 bytes.

## Where code and documentation differ

- The comment on `CertChain::certs` says each certificate is issued by the
  previous one. The code orders leaf first, each issued by the next, and so does
  the model.
- `sort` is documented to fail on missing or extra links. It does
  (`CertChain.SortSound`), but the converse is not true: it can also fail on a
  complete chain when a certificate issued two others, depending on the input
  order (`CertChain.AmbiguousOrderMatters`). It accepts certificates in every
  order if and only if one is self-issued and no chain grown from a self-issued
  one gets stuck while certificates are left over
  (`CertChain.AcceptedFromEveryOrder`). That every order is sorted into the same
  chain is a stronger demand, and `CertChain.OrderIndependence` is exact for it.
- A digest made for an input validates that input only if every count of bytes
  fits the bridge's signed 32 bits. A chunk size above that limit is accepted by
  the constructor although no stream reaching a boundary can then end well
  (`PassThrough.HugeChunksNeverFinish`). `PassThrough.LifetimeExact` has the
  exact condition.

- `send` does not document what a failure leaves behind: one that runs out of
  nonces half way sends nothing and still advances the sender's nonce, so the two
  ends no longer agree. `Noise.ConversationInSync` has the exact condition.

## Model

| member | source | states |
|---|---|---|
| MfaMetadata.New | rust/account-keys/src/mfa_metadata.rs:79-87 | accepts exactly the names of at most 98 UTF-8 bytes without U+0000; a null is reported before the length |
| MfaMetadata.EncodingFits | rust/account-keys/src/mfa_metadata.rs:113-121 | every valid name with any 64-bit time encodes to at most 111 bytes, so padding is never empty and none of the expectations in `encrypt` can fail |
| MfaMetadata.PadLayout | rust/account-keys/src/mfa_metadata.rs:113-121 | behind the plaintext every byte up to the fixed width is the number of bytes behind the plaintext |
| MfaMetadata.UnpadExact | rust/account-keys/src/mfa_metadata.rs:180-188 | unpadding a 112-byte string gives `x` if and only if the string is `x` with the padding `encrypt` appends, including the empty plaintext |
| MfaMetadata.KeysExact | rust/account-keys/src/lib.rs:118-130 | the cipher key and the MAC key are the MACs under the account key of two different labels, given byte by byte |
| Bytes.LabelExact | rust/account-keys/src/lib.rs:120-121 | an ASCII label is one byte per character, its code, and nothing is cut off |
| MfaMetadata.SealLayout | rust/account-keys/src/mfa_metadata.rs:123-137 | the blob byte by byte: initial vector, each of the seven blocks as the cipher of its plaintext block masked with the block before, and the MAC of both, under the keys made from the literal label bytes |
| MfaMetadata.UnsealExact | rust/account-keys/src/mfa_metadata.rs:164-188 | a byte string opens to a plaintext if and only if it is the sealing of that plaintext under its own initial vector |
| MfaMetadata.FillBlob | rust/account-keys/src/mfa_metadata.rs:124-137 | filling the 160-byte buffer slice by slice leaves initial vector, ciphertext and MAC of the two |
| MfaMetadata.Encrypt | rust/account-keys/src/mfa_metadata.rs:103-138 | seals the encoding of the name and the whole seconds; never panics on valid metadata |
| MfaMetadata.Decrypt | rust/account-keys/src/mfa_metadata.rs:163-203 | total on byte strings of any length; the result is that of unsealing, parsing and revalidating |
| MfaMetadata.OpenedOfSeal | rust/account-keys/src/mfa_metadata.rs:190-202 | for an authentic blob only the parse of its plaintext decides, so equal messages in different encodings open alike and invalid ones are refused |
| MfaMetadata.RevalidateExact | rust/account-keys/src/mfa_metadata.rs:195-202 | refuses exactly a time beyond the last second that fits in 64-bit milliseconds, a name with a null, and a name over 98 bytes |
| MfaMetadata.RoundTrip | rust/account-keys/src/mfa_metadata.rs:103-203 | for every valid name, 64-bit time, key and initial vector, decrypting the encryption gives the name and the time floored to a second |
| MfaMetadata.OpenedExact | rust/account-keys/src/mfa_metadata.rs:163-203 | a blob is accepted as some metadata if and only if it seals a plaintext that parses and passes the checks to that metadata |
| MfaMetadata.NormalForm | rust/account-keys/src/mfa_metadata.rs:163-203 | whatever is accepted satisfies the name invariant, has a whole-second time, and survives encryption and decryption under any key unchanged |
| Protobuf.ParseOfWrite | rust/account-keys/src/proto/mfa_metadata.proto:10-13 | every message parses back from its encoding |
| Protobuf.ParseMerges | rust/account-keys/src/proto/mfa_metadata.proto:10-13 | appending an encoding to anything that parses overlays the fields it writes and keeps the others |
| Protobuf.ParseSwapped | rust/account-keys/src/proto/mfa_metadata.proto:10-13 | the fields may come in either order |
| Protobuf.UnknownFieldIgnored | rust/account-keys/src/proto/mfa_metadata.proto:10-13 | appending any complete field with another tag, groups included, changes nothing |
| Protobuf.UnknownFieldSkipped | rust/account-keys/src/proto/mfa_metadata.proto:10-13 | a written field of any wire type with another tag, with its four, eight or counted bytes or as a group nested to any depth, changes nothing wherever it stands in the message |
| Protobuf.BadTagRejected | rust/account-keys/src/mfa_metadata.rs:190-194 | a tag over 32 bits, with field number zero or with a wire type that starts no field makes the message fail to parse |
| Protobuf.CutShortRejected | rust/account-keys/src/mfa_metadata.rs:190-194 | fewer than four, eight or the announced number of bytes behind a tag of that wire type make the message fail to parse |
| Protobuf.MergeAppend | rust/account-keys/src/mfa_metadata.rs:190-194 | reading a concatenation is reading its second part into what the first part gave |
| Protobuf.ReadOfWriteVarint | rust/account-keys/src/mfa_metadata.rs:31-32 | a 64-bit value takes at most ten bytes and reads back, whatever follows it |
| Protobuf.ReadVarintExact | rust/account-keys/src/proto/mfa_metadata.proto:11-11 | any varint, shortest or not, reads as its base-128 digits if it fits in 64 bits, and is refused otherwise |
| Protobuf.UnendedVarintRejected | rust/account-keys/src/proto/mfa_metadata.proto:11-11 | bytes that never end a varint are refused |
| Protobuf.WriteVarintExact | rust/account-keys/src/proto/mfa_metadata.proto:11-11 | a value is written as its base-128 digits without needless ones, so in the only shortest way |
| Protobuf.InvalidNameRejected | rust/account-keys/src/mfa_metadata.rs:401-408 | a name field that is not UTF-8 makes the message fail to parse |
| Protobuf.WriteExample | rust/account-keys/src/proto/mfa_metadata.proto:10-13 | the exact bytes of one message: tags 0x08 and 0x12, little-endian base-128 digits, a length in bytes |
| Protobuf.TooManyBits | rust/account-keys/src/proto/mfa_metadata.proto:11-11 | a varint with a 65th bit does not parse |
| Utf8.DecodeExact | rust/account-keys/src/mfa_metadata.rs:190-194 | a byte string reads as a text if and only if it is the text's UTF-8 encoding; overlong forms and surrogates never read |
| Utf8.ScalarBits | rust/account-keys/src/mfa_metadata.rs:83-83 | a code point is the payload bits of its one to four bytes, so name lengths are counted as UTF-8 counts them |
| Cbc.DecryptOfEncrypt | rust/account-keys/src/mfa_metadata.rs:176-178 | chained decryption undoes chained encryption |
| Cbc.EncryptOfDecrypt | rust/account-keys/src/mfa_metadata.rs:130-132 | chained encryption undoes chained decryption, so every ciphertext has one plaintext |
| Cbc.ChainingEquation | rust/account-keys/src/mfa_metadata.rs:130-132 | block `j` is the cipher of plaintext block `j` masked with ciphertext block `j-1` |
| Cbc.EncryptInto | rust/account-keys/src/mfa_metadata.rs:130-132 | fills exactly the ciphertext slice of the buffer and nothing behind it |
| Cbc.DecryptAll | rust/account-keys/src/mfa_metadata.rs:176-178 | the block loop computes the chained decryption |
| PullStream.NoItemLost | node/ts/internal.ts:53-80 | in every interleaving of reads, native completions, reactions and cancellation: delivered plus queued is what was received, in order; a stream that errored or closed had delivered everything; it surfaces the native side's own ending, and all later reads get it |
| PullStream.PullsWhenDrained | node/ts/internal.ts:57-65 | in every run each wait for the native side is exactly one native call, and it starts only with an empty queue, no termination, no pending error and no other pull in progress |
| PullStream.NoUseAfterTermination | node/ts/internal.ts:71-80 | after any termination no continuation of the run calls the native pull again |
| PullStream.EndIsFinal | node/ts/internal.ts:82-85 | a closed, cancelled or errored stream stays so in every continuation and delivers nothing more, also when a pull resolves after the cancellation |
| PullStream.RejectionErrorsStream | node/ts/internal.ts:62-65 | in every run that waits for the native side and was not cancelled, a rejected native promise errors the stream with its cause once the reaction runs; every read that waited or came in between fails with it, each once, and nothing handed out changes |
| PullStream.CancelExact | node/ts/internal.ts:82-85 | in every run cancelling closes a readable stream at once, answers every waiting read as done, drops the queue, and leaves an ended stream alone |
| PullStream.LateReturnIsRefused | node/ts/internal.ts:67-73 | a native call that resolves after a cancellation throws exactly if it has an item to enqueue or a close to make, and nothing reaches the consumer |
| PullStream.EveryReadCounted | node/ts/internal.ts:56-86 | in every run the reads made are those answered with an item, those answered with an ending and those waiting; none waits on an ended stream |
| PullStream.ReadsAreServed | node/ts/internal.ts:57-81 | with a native side that never returns an empty chunk without a termination, a started stream that is open and has nothing queued always has a pull in progress or one about to start; a waiting read is always on such a stream |
| PullStream.EmptyChunkStalls | node/ts/internal.ts:62-71 | without that contract a read can be left waiting with nothing in progress |
| PullStream.UndeferredErrorDropsItems | node/ts/internal.ts:74-79 | raising the error together with its chunk would drop items that no read had taken |
| PullStream.StepKeepsInv | node/ts/internal.ts:56-86 | every event of every kind keeps the invariant on controller, pull, termination and items |
| PullStream.WrappedStream.Pull | node/ts/internal.ts:57-65 | throws a pending error, and otherwise makes one native call |
| PullStream.WrappedStream.NativeResolved | node/ts/internal.ts:62-81 | the enqueueing loop and the branches on the termination leave the state the model gives |
| PullStream.WrappedStream.NativeRejected | node/ts/internal.ts:62-65 | a rejection leaves `pull` rejected with its cause and the controller as it was |
| PullStream.WrappedStream.CancelAll | node/ts/internal.ts:82-85 | closes a readable stream, drops its queue and ends its waiting reads |
| BulkStream.NextContract | rust/net/chat/src/stream_util.rs:95-194 | whatever the timing a chunk is non-empty or terminated, within the maximum, continues the items exactly, and carries the source's own ending with the last of them; afterwards the answer is always empty and finished |
| BulkStream.NextExact | rust/net/chat/src/stream_util.rs:118-194 | a call is determined: it hands out as many items as the maximum, the time and the wrapped stream allow, keeps none back, and ends exactly if the wrapped stream ended while there was room and time; without an ending it is full or out of time |
| BulkStream.InterruptSafe | rust/net/chat/src/stream_util.rs:116-117 | a call dropped at any of its awaits loses no item and leaves an active stream that keeps its invariant |
| BulkStream.NextAwaitsAre | rust/net/chat/src/stream_util.rs:158-187 | at await number `i` exactly the next `i` items have moved to the pending ones, which stay below the maximum |
| BulkStream.NextAwaitsCount | rust/net/chat/src/stream_util.rs:157-187 | await number `i` happens exactly if there is room for item `i`, time for it, and the wrapped stream had the `i` items before |
| BulkStream.BulkPolledStream.NextChunk | rust/net/chat/src/stream_util.rs:118-194 | computes that chunk, keeps the pending items below the maximum, and awaits in exactly the states the cancellation theorems are about |
| BulkStream.BulkPolledStream.Collect | rust/net/chat/src/stream_util.rs:168-194 | the collecting loop gives the rest of the chunk and the rest of the await states |
| BulkStream.EndToEnd | node/ts/internal.ts:39-87 | from the native source to the consumer in every run: reads get a prefix of the source's items; an uncancelled close or a termination error comes only after all of them and only if it is the source's ending; no read hangs |
| BulkStream.DropErrorsStream | node/ts/internal.ts:62-65 | in every run a native call dropped at any of its awaits errors the stream with its cause, fails every waiting read with it, and keeps every item not yet handed out on the native side |
| BulkStream.WaitingReadIsAnswered | node/ts/internal.ts:57-81 | in every state of every run a read waiting on a started stream is at most three moves of the platform and the native side from its answer |
| BulkStream.EverythingArrives | node/ts/internal.ts:39-87 | from every state of every run that is neither cancelled nor hit by a rejected promise, some continuation of reads, native completions and reactions hands out every item of the source and then gives a read the source's own ending |
| Noise.SendExact | rust/attest/src/client_connection.rs:64-79 | `send` succeeds if and only if a nonce is left for every packet; the output length is n + ceil(n/65519)*16 and the nonce advances by the packet count |
| Noise.SendFirstPacket | rust/attest/src/client_connection.rs:72-76 | the first packet has at most 65535 bytes and seals the first 65519 bytes of payload |
| Noise.SendPackets | rust/attest/src/client_connection.rs:72-76 | behind `i` full packets the output is that of sending the rest of the payload from nonce `n + i` |
| Noise.RecvOfSend | rust/attest/src/client_connection.rs:82-92 | a peer in sync gets back the message and is left in sync |
| Noise.RecvExact | rust/attest/src/client_connection.rs:82-92 | `recv` accepts `c` as `p` if and only if `c` is what `send(p)` produces, or that followed by one empty-payload packet after a whole number of full ones |
| Noise.OpenPacketExact | rust/attest/src/client_connection.rs:85-88 | one packet opens exactly if a nonce is left, it is at most 65535 bytes long and it is the sealing of the payload; each error has its own condition |
| Noise.FullPacketsAre | rust/attest/src/client_connection.rs:85-85 | a whole number of full packets means a multiple of 65519 bytes |
| Noise.RecvFailure | rust/attest/src/client_connection.rs:85-89 | a rejected message has advanced the nonce by exactly the genuine full packets in front of the one that failed |
| Noise.ConversationInSync | rust/attest/src/client_connection.rs:62-93 | however sends and in-order deliveries interleave, nothing is rejected and messages come out unchanged and in order; when nothing is in flight the two nonces agree if and only if no send of the run ran out of nonces half way |
| Noise.ConversationDelivers | rust/attest/src/client_connection.rs:62-93 | in every run exactly the messages for which there were nonces go out, in order, and after as many deliveries as are under way the receiver has exactly those |
| Noise.ForgeryBreaks | rust/attest/src/client_connection.rs:82-92 | anything in place of the next ciphertext that is not a sealing of some message is rejected and nothing is handed out for it |
| Noise.TooLongMessageDesynchronises | rust/attest/src/client_connection.rs:64-79 | one message of more packets than there are nonces sends nothing and leaves the sender at the last nonce and the receiver at the first |
| Noise.ClientConnection.Send | rust/attest/src/client_connection.rs:64-79 | the buffer sized in advance always has room for the next packet and is filled exactly, so truncation drops nothing |
| Noise.ClientConnection.Recv | rust/attest/src/client_connection.rs:82-92 | the buffer always has room; the loop returns what the model gives, also after a failure half way |
| Noise.ClientConnection.WriteMessage | rust/attest/src/client_connection.rs:73-75 | one packet is refused exactly for its size or the room, or for want of a nonce; otherwise it is sealed into the slice and the nonce advances |
| Noise.ClientConnection.ReadMessage | rust/attest/src/client_connection.rs:86-88 | one packet is opened into the slice and the nonce advances, or it is refused and the nonce stays |
| CertChain.SortSound | rust/attest/src/cert_chain.rs:107-134 | for any issuance relation the slice stays a permutation, and on success it is a complete chain from leaf to a self-issued root |
| CertChain.SortComplete | rust/attest/src/cert_chain.rs:109-134 | every arrangement of an unambiguous chain is sorted into that chain |
| CertChain.OrderIndependence | rust/attest/src/cert_chain.rs:109-134 | all arrangements of `t` are sorted into `t` if and only if `t` is a chain without a second root or a second certificate issued from above |
| CertChain.AcceptedFromEveryOrder | rust/attest/src/cert_chain.rs:109-134 | `sort` succeeds on every arrangement of `t` if and only if `t` holds a self-issued certificate and, in every arrangement whose upper part is a chain up to a self-issued one, the lowest certificate of that part issued one of those below |
| CertChain.AmbiguousOrderMatters | rust/attest/src/cert_chain.rs:124-132 | with two certificates issued by one, a complete chain is found from one order and missed from another |
| CertChain.AcceptedThoughAmbiguous | rust/attest/src/cert_chain.rs:124-132 | accepting every order asks for less than sorting every order alike: two certificates that issued everything are always accepted and yet ambiguous |
| CertChain.OrderedIsLinearFixpoint | rust/attest/src/cert_chain.rs:122-132 | a slice is already a chain if and only if it is sorted with one test per certificate, and then it is unchanged |
| CertChain.SortIdempotent | rust/attest/src/cert_chain.rs:109-134 | sorting a sorted slice changes nothing |
| CertChain.SortCost | rust/attest/src/cert_chain.rs:115-132 | any run, successful or not, makes at least n and at most n(n+1)/2 issuance tests |
| CertChain.FindLast | rust/attest/src/cert_chain.rs:115-118 | the scan from the end finds the last certificate that passes the test, at the cost of the positions visited |
| CertChain.PlaceRoot | rust/attest/src/cert_chain.rs:115-120 | leaves a self-issued certificate in the last place, or reports that there is none and changes nothing |
| CertChain.SortRound | rust/attest/src/cert_chain.rs:124-132 | one round leaves a certificate issued by the current one directly below it and everything from the current one up untouched, or reports that none below was issued by it and changes nothing; the rest of the sort continues from there |
| CertChain.Sort | rust/attest/src/cert_chain.rs:109-134 | the array and the number of tests are those of the specification, on success and on failure |
| CertChain.NewChain | rust/attest/src/cert_chain.rs:37-45 | yields what sorting gives: a chain of exactly the given certificates, or nothing for no certificates or a failed sort, and never nothing for an unambiguous chain |
| IncrementalMac.MacsAppend | rust/protocol/src/incremental_mac.rs:74-81 | feeding in two portions takes the same MACs as feeding at once |
| IncrementalMac.DigestsAreOfPrefixes | rust/protocol/src/incremental_mac.rs:87-98 | digest `j` is the MAC of the first `(j+1)n` bytes, for every whole chunk of the input |
| IncrementalMac.DigestCount | rust/protocol/src/incremental_mac.rs:83-98 | there is one digest per whole chunk and one more, the MAC of everything |
| IncrementalMac.CrossedCount | rust/protocol/src/incremental_mac.rs:87-102 | boundaries crossed times the chunk size plus the bytes after the last one is everything fed |
| IncrementalMac.MatchIsPrefix | rust/protocol/src/incremental_mac.rs:111-121 | the comparison loop, which goes on after a mismatch, succeeds if and only if the MACs are the next expected ones, and then has used up exactly those |
| IncrementalMac.MatchTakesFront | rust/protocol/src/incremental_mac.rs:111-121 | also after a mismatch what is left over is what was expected less the MACs matched |
| IncrementalMac.MatchIsLongest | rust/protocol/src/incremental_mac.rs:111-121 | going on after a mismatch, the loop matches as many expected MACs as occur in order among those taken |
| IncrementalMac.ValidatingMac.UpdateChunk | rust/protocol/src/incremental_mac.rs:87-98 | a MAC is taken exactly when the chunk is filled |
| IncrementalMac.ValidatingMac.Feed | rust/protocol/src/incremental_mac.rs:74-81 | splitting at the boundaries takes exactly the MACs of the model |
| IncrementalMac.ValidatingMac.Update | rust/bridge/shared/src/incremental_mac.rs:82-97 | answers the bytes of the chunks validated, or -1 on a mismatch or a count over 32 signed bits |
| IncrementalMac.ValidatingMac.Finalize | rust/bridge/shared/src/incremental_mac.rs:100-108 | answers the remaining bytes if exactly the final MAC was left and matches, or -1 |
| PassThrough.ReleaseSplits | node/ts/incremental_mac.ts:217-236 | the releasing loop with its clamped negative indices splits the buffered bytes at any boundary into what is handed on and what is kept |
| PassThrough.ReleaseSplitsLastOnly | node/ts/incremental_mac.ts:223-235 | if the boundary is not before the last chunk, earlier chunks go out whole and at most a suffix of the last is kept |
| PassThrough.OutputIsValidatedPrefix | node/ts/incremental_mac.ts:196-259 | for any writes and any validator answers within its contract the output is the validated prefix and the buffer the rest; a successful end has output everything; after an error nothing more is output |
| PassThrough.LifetimeExact | node/ts/incremental_mac.ts:196-259 | however the input is cut, the stream ends well if and only if the expected MACs are the input's digests and every count is reportable; otherwise it fails with a verification error and only whole chunks with matching MACs went out |
| PassThrough.FailureExact | node/ts/incremental_mac.ts:159-174 | a failed stream reports corruption in a write exactly if some MAC at a boundary is not the expected one or some write is not reportable, and otherwise corruption at the end |
| PassThrough.ReleasedPromptly | node/ts/incremental_mac.ts:217-236 | while the stream is going everything up to the last whole chunk is out and only the rest is held |
| PassThrough.HeldBackIsSmall | node/ts/incremental_mac.ts:217-236 | between writes fewer than `n` bytes are held, and only the newest chunk is ever split |
| PassThrough.SmallWritesReportable | rust/bridge/shared/src/incremental_mac.rs:88-96 | writes a chunk below the 32-bit limit are always reportable |
| PassThrough.HugeChunksNeverFinish | rust/bridge/shared/src/incremental_mac.rs:88-96 | with a chunk size over the limit no stream that reaches a boundary ends well, whatever MACs are expected |
| PassThrough.DigestThenValidate | node/ts/incremental_mac.ts:42-46 | a digest collected over any writes validates the same bytes in any other writes, and another input only if its digests are equal |
| PassThrough.ChangedInputRejected | node/ts/incremental_mac.ts:159-164 | an input whose MAC differs never comes out whole |
| PassThrough.SplitDigestExact | rust/bridge/shared/src/incremental_mac.rs:73-77 | a digest is cut into MACs if and only if its length is a multiple of 32; each MAC has 32 bytes and together they make up the digest |
| PassThrough.ValidatingWritable.Write | node/ts/incremental_mac.ts:145-165 | adds the validated bytes or reports corrupted input |
| PassThrough.ValidatingWritable.End | node/ts/incremental_mac.ts:167-175 | adds the remaining bytes or reports corrupted input at the end |
| PassThrough.ValidatingPassThrough.Create | node/ts/incremental_mac.ts:121-139 | refused exactly for a zero chunk size or a digest of another length |
| PassThrough.ValidatingPassThrough.ReleaseReady | node/ts/incremental_mac.ts:217-236 | the loop hands on and keeps what the model gives |
| PassThrough.ValidatingPassThrough.TransformData | node/ts/incremental_mac.ts:196-239 | one write has exactly the model's effect |
| PassThrough.ValidatingPassThrough.FinalData | node/ts/incremental_mac.ts:241-259 | the end has exactly the model's effect |
| Siv.Encrypt | rust/account-keys/src/hash.rs:113-131 | the 48 bytes are the synthetic vector of the message and the message masked with the key drawn from that vector, under the literal labels |
| Siv.Decrypt | rust/account-keys/src/hash.rs:133-145 | the in-place unmasking and the comparison of the vector compute the model's answer |
| Siv.DecryptedExact | rust/account-keys/src/hash.rs:113-145 | for any MAC a blob decrypts to `m` if and only if it is the encryption of `m` |
| Siv.EncryptedInjective | rust/account-keys/src/hash.rs:113-131 | under one key different messages have different encryptions |
| Siv.XorInto | rust/account-keys/src/hash.rs:127-128 | masks the common length in place |
| Bytes.XorExact | rust/account-keys/src/hash.rs:127-128 | a bit of the exclusive or is set exactly where the two bytes differ |
| Bytes.SameBits | rust/account-keys/src/hash.rs:127-128 | eight bits determine a byte, so those bits fix the exclusive or |
| Bytes.XoredExact | rust/account-keys/src/hash.rs:127-128 | masking sets bit `i` of byte `j` exactly where mask and string differ there, and bytes beyond the mask stay |
| EntropyPool.FirstInvalid | rust/account-keys/src/lib.rs:184-194 | in every text the first byte outside [0-9a-z] starts a character, the first one outside it, so slicing there never panics |
| EntropyPool.FromStrExact | rust/account-keys/src/lib.rs:177-197 | accepted exactly for 64 allowed characters; another byte length is reported; otherwise the first character that is not allowed |
| EntropyPool.AlphabetExact | rust/account-keys/src/lib.rs:182-186 | the digit and lower-case checks accept exactly the bytes of the alphabet |
| EntropyPool.DisplayParses | rust/account-keys/src/lib.rs:140-146 | every pool prints and its text parses to that pool |
| EntropyPool.ParseDisplays | rust/account-keys/src/lib.rs:140-146 | every accepted text is what its pool prints |
| EntropyPool.GeneratedParses | rust/account-keys/src/lib.rs:39-43 | every pool drawn from the alphabet prints as exactly the drawn characters, and is accepted |
| EntropyPool.GenerateInjective | rust/account-keys/src/lib.rs:39-43 | different draws give different pools |
| EntropyPool.GenerateSurjective | rust/account-keys/src/lib.rs:39-43 | every valid pool is drawn by some draws |

## Left out

- Strength of the cryptography, constant-time comparison and the quality of randomness: the primitives are parameters with the contracts above.
- `CertChain::validate_chain`, PEM parsing, public keys and `valid_at`: calls into BoringSSL, and a check of two time stamps per certificate.
- The Noise handshake, and key changes during a session.
- The error texts, and the debug and log-safe printing of all types.
- `PullStream`: streams with another queuing strategy, byte streams, and `tee`; `wrapStream` uses none of them.
- `BulkStream`: the bridge's own cancellation, which answers later calls with an error; `PullStream.EndIsFinal` covers any answer given after a cancellation.
- `PassThrough`: single writes over 4 GiB, whose length does not fit the bridge's 32-bit argument, and the loss of integer precision above 2^53 bytes in total.
- `Protobuf`: the library's limit on nested groups.
- The digesting pass-through stream and `calculate_chunk_size`: only the digests such a stream collects are modelled (`PassThrough.Collected`).
- `local_pin_hash`, Argon2 and the other key derivations: straight library calls.
