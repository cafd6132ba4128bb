# Verified model of the WebRTC signaling core

This project models the two cores of the Rust crate `rust-core` in Dafny 4.11 and proves what they guarantee:

- the **signal wire codec** of `lib.rs` (offers, answers, ICE candidates and hang-ups as length-prefixed binary), with
  the hex codec for keys and the Noise handshake and transport objects that carry the signals;
- the **transport fallback controller** of `transport_fallback.rs`, the state machine that decides, from ICE callbacks,
  direct-channel results and a timer, when a call gives up on WebRTC and falls back.

`dafny verify dfyconfig.toml` checks everything. Nothing here executes the Rust program.

## How the model is built

| file | content |
|---|---|
| `src/Common.dfy` | options, results, bytes and machine integers |
| `src/Utf8.dfy` | Rust strings as sequences of Unicode scalar values; UTF-8 by sections 3 and 4 of RFC 3629 |
| `src/Signal.dfy` | the messages, the printing and parsing functions, canonical messages and normal forms |
| `src/SignalCodec.dfy` | the codec as the program runs it: a growing vector and a moving cursor |
| `src/SignalProperties.dfy` | accepted language, round trip, prefix-freeness, exact errors, wrapped lengths, layout |
| `src/Hex.dfy` | `to_hex`, `from_hex`, `hex32` on every Unicode text |
| `src/Noise.dfy` | the one-way handshake object and the transport object over an abstract Noise library |
| `src/EndToEnd.dfy` | signals from one peer's encoder through the transport to the other peer's decoder |
| `src/Fallback.dfy` | the controller's state and step function |
| `src/FallbackHistory.dfy` | each field as a non-recursive reading of the call history |
| `src/FallbackController.dfy` | the controller object with its four fields, refining the history |
| `src/FallbackReach.dfy` | the exact reachable set, with a run into every state of it |
| `src/FallbackEquivalence.dfy` | observational equivalence and racing calls |
| `src/FallbackTiming.dfy` | real-time bounds from the spacing of ticks |
| `src/FallbackRuns.dfy` | whole-run properties: spontaneous changes, erasable calls, disciplined callers, dropped failures |
| `src/FallbackAbandon.dfy` | when "abandoned" is true of the callers' reports |

Code that the source writes as updates in place is a class or a method with a loop-free imperative body
(`SignalCodec.ByteVec`, `SignalCodec.Cursor`, `Noise.NoiseHandshake`, `Noise.NoiseTransport`,
`FallbackController.TransportFallbackController`), tied by its contract to a function; the lemmas are about those
functions. Statements write thresholds, sizes and digits as numbers and characters, so that they do not move with the
constants they are about. A mutex makes each method one atomic step, so any number of threads produces a sequence of calls, and every
statement about histories quantifies over all of them. Elapsed time is an argument, as in the source.

Error strings are represented by what they say: `Truncated`, `InvalidUtf8` and `UnknownType(n)` for the decoder, `Consumed`
for "handshake already consumed" and `Library` for a message passed on from the Noise library. The controller's texts
are names with a `Wording`; `WordingsDiffer` shows that comparing names is comparing texts.

The Noise library is not part of this model. It enters as functions on an abstract state. The handshake results hold
for any such functions; the end-to-end results assume (`EndToEnd.Lawful`) what sections 3 and 4.2 of the Noise Protocol
Framework promise: a message fits 65535 bytes, is no shorter than its plaintext, and a paired peer opens what was sealed.

## Where the code and its documentation differ

- `transport_fallback.rs:11` promises a status update at least every `MAX_SILENT_MS`, which is not a constant of the
  file. The promise holds in the connecting phase only: `SilencePromiseExact` proves that a regular timer can leave the
  status without an update for the bound exactly when the controller has left that phase.
- `transport_fallback.rs:26-28` says `Abandoned` means that both transports failed, and so does the text of one of its
  reasons. The controller never checks it. Judged by the callers' own reports (the last ICE report is a failure, the
  last direct-channel result is a failure), it is true of an abandoned run exactly when the call that abandoned it
  reported a failed direct channel while the last ICE report was a failure (`TruthfulExactly`). It is false of every
  timed-out run, and even callers who wait for a fallback can see it false (`AbandonedWithoutWebRtcFailure`,
  `AbandonedWhileConnected`). A run never shows a false `Abandoned` exactly when its caller reports a failed
  direct channel only while its last ICE report is a failure and no tick times out (`TruthfulThroughoutExactly`); that
  care alone suffices exactly for ticks at most 14 seconds apart (`CarefulSuffices`).
- `transport_fallback.rs:99-100` asks callers to report a direct-channel result only after a fallback transition.
  `DisciplinedOutcome` proves what this buys; `UndisciplinedOutcomeIsUndone` shows it is needed.
- `lib.rs:472-473` says an absent mid is not confused with an empty one. On the wire they are the same, as are an absent
  m-line index and 65535; `NormalFormLaws` and `RoundTripToNormalForm` say exactly what a peer sees.
- `lib.rs:441-448` wants malformed hex to be an error and not a panic. This holds for ASCII (`AsciiNeverPanics`) and
  fails for some other texts (`GarbledTextCanPanic`); `PanicsExactly` gives the exact condition.

## Model

| member | source | states |
|---|---|---|
| `Utf8.ValidateExact` | rust-core/src/lib.rs:305-314 | `String::from_utf8` accepts exactly the UTF-8 encodings of strings and returns the string encoded (RFC 3629, grammar of section 4 against encoder of section 3) |
| `Utf8.ScalarShape` | rust-core/src/lib.rs:286-293 | a character takes 1 to 4 bytes by the ranges of section 3 of RFC 3629, each place holding only its byte values |
| `Utf8.EncodeOrder` | rust-core/src/lib.rs:286-293 | texts are ordered by their bytes exactly as by their characters (section 1 of RFC 3629); with the grammar this leaves one possible encoder |
| `Utf8.NeverAppears` | rust-core/src/lib.rs:286-293 | the byte values C0, C1 and F5 to FF never occur (section 3 of RFC 3629) |
| `Utf8.Rfc3629Examples` | rust-core/src/lib.rs:286-293 | the four example texts of section 7 of RFC 3629 encode to the bytes given there |
| `Utf8.PrefixValidIffBoundary` | rust-core/src/lib.rs:305-309 | a prefix of valid UTF-8 is valid exactly when the cut is a character boundary |
| `Utf8.Cut` | rust-core/src/lib.rs:305-309 | a cut at a boundary spells exactly the leading characters of the string |
| `SignalCodec.PushU16Str` | rust-core/src/lib.rs:286-289 | appends the wrapped 16-bit length, big-endian, and the text, and nothing else |
| `SignalCodec.PushU8Str` | rust-core/src/lib.rs:290-293 | appends the wrapped 8-bit length and the text, and nothing else |
| `SignalCodec.Cursor.TakeN` | rust-core/src/lib.rs:294-301 | splits off the first n bytes, or reports truncation and leaves the cursor where it was |
| `SignalCodec.Cursor.TakeU8` | rust-core/src/lib.rs:302-304 | reads one byte, or reports truncation and leaves the cursor where it was |
| `SignalCodec.Cursor.TakeU16Str` | rust-core/src/lib.rs:305-309 | reads a text with a 16-bit length as the parsing function says; the cursor only moves forward |
| `SignalCodec.Cursor.TakeU8Str` | rust-core/src/lib.rs:310-314 | reads a text with an 8-bit length as the parsing function says; the cursor only moves forward |
| `SignalCodec.EncodeInner` | rust-core/src/lib.rs:317-337 | the vector grown in place ends up as the printed message |
| `SignalCodec.DecodeInner` | rust-core/src/lib.rs:339-358 | the cursor walk returns the parsing function's result on every byte string |
| `SignalProperties.TakeU16StrExact` | rust-core/src/lib.rs:305-309 | a text is read exactly when it was printed with an unwrapped 16-bit length, and what follows it is left |
| `SignalProperties.TakeU8StrExact` | rust-core/src/lib.rs:310-314 | the same for 8-bit lengths |
| `SignalProperties.AcceptedLanguage` | rust-core/src/lib.rs:339-358 | bytes decode to m exactly when m is canonical and they start with m's encoding |
| `SignalProperties.ParseExact` | rust-core/src/lib.rs:339-358 | the cursor consumes exactly the encoding of the message and leaves exactly the tail |
| `SignalProperties.RoundTripIffCanonical` | rust-core/src/lib.rs:317-358 | a message survives encoding and decoding unchanged exactly when it is canonical |
| `SignalProperties.NormalFormLaws` | rust-core/src/lib.rs:271-274 | sentinel values print like absent fields; the normal form is idempotent, and canonical exactly within the length limits |
| `SignalProperties.AbsentFields` | rust-core/src/lib.rs:349-353 | a decoded candidate never has an empty mid or index 65535; absent fields, and their sentinels, come back absent |
| `SignalProperties.RoundTripToNormalForm` | rust-core/src/lib.rs:317-358 | the decoded message is the normal form exactly when no length wraps |
| `SignalProperties.EncodeEqualIffSameNormalForm` | rust-core/src/lib.rs:317-337 | any two messages whose mids differ by less than 65536 bytes print alike exactly when their normal forms agree, whatever the size of their other texts |
| `SignalProperties.SameNormalFormExactly` | rust-core/src/lib.rs:317-337 | for all messages, the normal forms agree exactly when the prints agree and the mids have the same size |
| `SignalProperties.LongMidsCanCollide` | rust-core/src/lib.rs:286-293 | two candidates with mids 65536 bytes apart print alike and differ |
| `SignalProperties.ParseStable` | rust-core/src/lib.rs:294-358 | a verdict other than truncation does not depend on the bytes that follow |
| `SignalProperties.TruncatedIffExtendable` | rust-core/src/lib.rs:294-301 | truncation is reported exactly when some further bytes would change the verdict |
| `SignalProperties.ProperPrefixIsTruncated` | rust-core/src/lib.rs:260-262 | every proper prefix of a canonical encoding, also the empty one, is rejected as truncated |
| `SignalProperties.PrefixFree` | rust-core/src/lib.rs:260-262 | no canonical encoding is a prefix of another |
| `SignalProperties.StreamPrefix` | rust-core/src/lib.rs:260-262 | a concatenation of encodings extends another exactly when its messages extend the other's |
| `SignalProperties.StreamUnique` | rust-core/src/lib.rs:260-262 | a concatenation of canonical encodings has one parse into messages |
| `SignalProperties.UnknownTypeExact` | rust-core/src/lib.rs:341-356 | the unknown-type error names the first byte and is reported exactly when that byte is none of 1 to 4 |
| `SignalProperties.InvalidUtf8Exact` | rust-core/src/lib.rs:305-314 | the UTF-8 error is reported exactly when the first text, or a candidate's mid behind a good candidate text, is all there and encodes no string |
| `SignalProperties.WrappedDescription` | rust-core/src/lib.rs:286-289 | an offer or answer with L bytes of text decodes to the characters in its first L mod 65536 bytes, or to the UTF-8 error if that cuts a character |
| `SignalProperties.WrappedCandidate` | rust-core/src/lib.rs:345-348 | a candidate text of any size is cut the same way and its remainder is read as the fields that follow; over 65535 bytes the remainder always suffices, so the message's own mid and m-line index make no difference |
| `SignalProperties.WrappedMid` | rust-core/src/lib.rs:290-293 | behind a candidate text of at most 65535 bytes, a mid over 255 bytes is cut to its size mod 256, and its next two bytes become the m-line index; longer candidate texts are the business of `WrappedCandidate` |
| `SignalProperties.TypeByte` | rust-core/src/lib.rs:280-283 | the first byte is 1, 2, 3 or 4 by kind of message, and a hang-up is that byte alone |
| `SignalProperties.DescriptionLayout` | rust-core/src/lib.rs:320-327 | position and meaning of every byte of an offer or answer |
| `SignalProperties.CandidateLayout` | rust-core/src/lib.rs:328-333 | position and meaning of every byte of a candidate, with 65535 and the empty text for absent fields |
| `Hex.ToHexDigits` | rust-core/src/lib.rs:31-33 | each byte is written as the characters of `0123456789abcdef` at its high and then its low digit |
| `Hex.ToHexOrder` | rust-core/src/lib.rs:31-33 | hex texts are ordered exactly as the bytes they spell |
| `Hex.ToHexIsLowerHex` | rust-core/src/lib.rs:31-33 | the text is lower-case hex, two characters a byte |
| `Hex.RoundTrip` | rust-core/src/lib.rs:31-46 | decoding inverts encoding on every byte string |
| `Hex.FromHexExact` | rust-core/src/lib.rs:35-46 | decoding succeeds exactly on texts of pairs of hex digits, the first of a pair possibly a plus sign, and re-encoding gives the lower-cased text with zeros for plus signs |
| `Hex.FromHexDigits` | rust-core/src/lib.rs:35-46 | each decoded byte is 16 times the digit its first character denotes, zero for a plus sign, plus the digit its second character denotes |
| `Hex.PanicsExactly` | rust-core/src/lib.rs:35-45 | slicing panics exactly when, after hex pairs only, the next two bytes end inside a character; the length error is given exactly for an odd number of bytes |
| `Hex.AsciiNeverPanics` | rust-core/src/lib.rs:35-46 | on ASCII the result is always a value or an error, and the length error exactly for odd lengths |
| `Hex.GarbledTextCanPanic` | rust-core/src/lib.rs:42 | a concrete text on which slicing panics |
| `Hex.Hex32Exact` | rust-core/src/lib.rs:48-52 | `hex32` accepts exactly the hex texts of 64 characters, reports the wrong size exactly for other hex texts, and otherwise passes the decoder's error on |
| `Hex.Hex32SameKey` | rust-core/src/lib.rs:48-52 | two accepted texts name the same key exactly when they agree up to case and plus signs for zeros |
| `Hex.Hex32Bijection` | rust-core/src/lib.rs:48-52 | `hex32` maps 64-character lower-case hex texts one to one onto 32-byte strings |
| `Noise.NoiseHandshake.WriteMessage` | rust-core/src/lib.rs:154-164 | records the call; the reply is the history's and the state what the history leaves (see `LibrarySeesEveryCall`) |
| `Noise.NoiseHandshake.ReadMessage` | rust-core/src/lib.rs:166-176 | the same for a read |
| `Noise.NoiseHandshake.IsFinished` | rust-core/src/lib.rs:178-184 | the same for the question whether the handshake is finished, which leaves the handshake alone |
| `Noise.NoiseHandshake.IntoTransport` | rust-core/src/lib.rs:188-197 | the same for the request for a transport, which leaves the handshake empty in every case, also when the library refuses |
| `Noise.LibrarySeesEveryCall` | rust-core/src/lib.rs:154-197 | until the transport is first asked for, the handshake has gone through exactly the library's own writes and reads, in order, with their payloads and a buffer of 65535 bytes, and every reply is the library's answer |
| `Noise.ConsumedExactly` | rust-core/src/lib.rs:154-197 | in any interleaving of calls, a call is told "already consumed" exactly when an earlier call asked for the transport |
| `Noise.TransportExactly` | rust-core/src/lib.rs:188-197 | a transport is returned exactly by the first request for one, if the library agrees |
| `Noise.AtMostOneTransport` | rust-core/src/lib.rs:118-126 | whatever the interleaving and the number of callers, at most one transport is handed out |
| `EndToEnd.WrappedLengthIsTooLong` | rust-core/src/lib.rs:116 | every message whose sdp or candidate is over 65535 bytes encodes to more than 65535 bytes |
| `EndToEnd.TagAcceptsExactly` | rust-core/src/lib.rs:209-216 | with a 16-byte tag, a message is accepted exactly up to 65519 encoded bytes, an offer or answer exactly up to 65516 bytes of text |
| `EndToEnd.ReceiptExactly` | rust-core/src/lib.rs:317-358 | what any message whose 16-bit lengths hold decodes to: its normal form, or for a mid over 255 bytes the UTF-8 error or the candidate with shortened mid |
| `EndToEnd.DeliveredIffMidFits` | rust-core/src/lib.rs:209-225 | a message that encryption accepts gets exactly that receipt, which is the normal form exactly when its mid is at most 255 bytes |
| `EndToEnd.ReceiveExactly` | rust-core/src/lib.rs:218-225 | receiving gives the canonical message whose encoding the opened bytes start with, else the library's or the decoder's error |
| `EndToEnd.SessionDelivers` | rust-core/src/lib.rs:260-266 | over any session, told by the states of both transports between messages, every accepted message gets exactly its receipt and the peers stay paired, so a mid that does not fit harms no other message |
| `EndToEnd.SendSignal` | rust-core/src/lib.rs:209-216 | the message's encoding is handed to the sender's library with a buffer of 65535 bytes and the answer returned; an accepted message is in flight to the peer with its text lengths intact, a refused one leaves the peers paired |
| `EndToEnd.ReceiveSignal` | rust-core/src/lib.rs:218-225 | decrypting and decoding on the receiver's object: a message in flight gets exactly its receipt, in normal form exactly when its mid is at most 255 bytes, and the peers are paired again |
| `EndToEnd.Exchange` | rust-core/src/lib.rs:260-266 | one message from object to object: a receipt, exactly the message's, arrives exactly when the sender's library accepts the encoding, else the receiver is untouched; the peers stay paired |
| `EndToEnd.LawfulIsPossible` | rust-core/src/lib.rs:200-205 | the assumptions on the transport can be met |
| `Fallback.WordingsDiffer` | rust-core/src/transport_fallback.rs:66-133 | the six texts shown to the user are pairwise different |
| `FallbackRuns.WordsExactly` | rust-core/src/transport_fallback.rs:84-134 | whenever a call changes the visible state, that call is one that may, and the words shown are exactly its own |
| `FallbackController.TransportFallbackController.constructor` | rust-core/src/transport_fallback.rs:63-72 | a new controller is connecting, with no call made |
| `FallbackController.TransportFallbackController.GetCurrentState` | rust-core/src/transport_fallback.rs:74-76 | returns the state the history determines and changes nothing |
| `FallbackController.TransportFallbackController.OnIceStateChanged` | rust-core/src/transport_fallback.rs:80-97 | all four fields and the returned value are what the extended history says |
| `FallbackController.TransportFallbackController.OnDirectChannelResult` | rust-core/src/transport_fallback.rs:101-109 | the same for a direct-channel result |
| `FallbackController.TransportFallbackController.OnTick` | rust-core/src/transport_fallback.rs:114-136 | the same for a tick |
| `FallbackHistory.OutcomeExact` | rust-core/src/transport_fallback.rs:80-136 | after any history the four fields equal a non-recursive reading of it: last effective call, last ICE report, whether a failure or a timely first tick occurred, whether an early tick came first |
| `FallbackHistory.ConnectingIffUndecided` | rust-core/src/transport_fallback.rs:114-120 | the controller is connecting exactly when no connected or failed report, direct result or tick from 6000 on has occurred, and then no fallback was triggered |
| `FallbackReach.ReachableExact` | rust-core/src/transport_fallback.rs:53-136 | the reachable states are exactly those of an explicit invariant, each with a run into it |
| `FallbackEquivalence.EquivalentIffAlike` | rust-core/src/transport_fallback.rs:80-136 | reachable controllers return the same for all future calls, up to fallback wording, exactly when they agree on state, trigger and, while connecting, the early flag |
| `FallbackEquivalence.RaceInsensitive` | rust-core/src/transport_fallback.rs:87-134 | a failure report and a tick may arrive in either order without any caller noticing |
| `FallbackEquivalence.AnyOrderFallsBack` | rust-core/src/transport_fallback.rs:80-136 | every ordering of ticks and setback reports with one failure ends falling back with fresh signaling, and all orderings are equivalent |
| `FallbackEquivalence.SwapExactly` | rust-core/src/transport_fallback.rs:80-136 | from any reachable state and for any two calls, the two orders are indistinguishable exactly when the calls do not conflict: different overwriting reports, an overwriting report against a first trigger, or a fallback tick against the timeout |
| `FallbackEquivalence.TicksSwapExactly` | rust-core/src/transport_fallback.rs:118-130 | two ticks may be swapped exactly unless the controller is connecting and one is in 6000 to 19999 and the other from 20000 on (`TickOrderMatters` is an instance) |
| `FallbackEquivalence.ConnectedTickSwapExactly` | rust-core/src/transport_fallback.rs:84-130 | a connected report and a tick may be swapped exactly unless the controller is connecting and the tick is in 6000 to 19999 |
| `FallbackTiming.SilenceBound` | rust-core/src/transport_fallback.rs:10-16 | while connecting and before the next tick is overdue, the status is less than 3000 + d ms old and less than 6000 + d ms have passed |
| `FallbackTiming.RegularSilenceBound` | rust-core/src/transport_fallback.rs:114-134 | over ticks at most d apart, no tick finds a connecting status 3000 + d old; the phase ends at the first tick from 6000 on, before 6000 + d, and for d up to 14000 in the fallback |
| `FallbackTiming.SilenceBoundIsTight` | rust-core/src/transport_fallback.rs:44-46 | for every d of at least 1 some run holds a status for 2999 + d |
| `FallbackTiming.SilencePromiseExact` | rust-core/src/transport_fallback.rs:10-11 | a regular timer can let the bound pass without an update exactly once the connecting phase is over |
| `FallbackTiming.TimeoutThreshold` | rust-core/src/transport_fallback.rs:121-130 | "Timed out" can be reached with ticks at most d apart exactly when d is at least 14001 |
| `FallbackRuns.AtMostThreeChanges` | rust-core/src/transport_fallback.rs:87-134 | ticks and failure reports change the visible state at most 3 times in any run |
| `FallbackRuns.ThreeChangesThreshold` | rust-core/src/transport_fallback.rs:87-134 | 3 changes can happen exactly when d is at least 14001; up to 14000 there are at most 2 |
| `FallbackRuns.TwoChangesAreReached` | rust-core/src/transport_fallback.rs:87-134 | 2 changes happen in some run, however fine the timer |
| `FallbackRuns.FallbackOnceAndFresh` | rust-core/src/transport_fallback.rs:12-13 | the fallback is entered exactly once in a run in which some call returned it, and always demands fresh signaling |
| `FallbackRuns.StaysOutOfConnecting` | rust-core/src/transport_fallback.rs:116-120 | the connecting phase is never re-entered |
| `FallbackRuns.TickErasure` | rust-core/src/transport_fallback.rs:116-120 | after the connecting phase, dropping ticks changes no other result and not the final state |
| `FallbackRuns.CollapseKeepsState` | rust-core/src/transport_fallback.rs:80-136 | collapsing equal consecutive calls keeps the final state, from any state |
| `FallbackRuns.DisciplinedOutcome` | rust-core/src/transport_fallback.rs:99-109 | if results are reported only after a fallback, an outcome is shown only after fresh signaling was demanded, and only a connected report or another result replaces it |
| `FallbackRuns.FailureIgnoredIffFellBack` | rust-core/src/transport_fallback.rs:87-94 | after any run a failure report leaves the visible state alone exactly when an earlier call had returned a fallback state, which is told from the calls alone; instances are `UndisciplinedOutcomeIsUndone` and `FailureAfterRecoveryIsIgnored` |
| `FallbackAbandon.TruthfulExactly` | rust-core/src/transport_fallback.rs:26-28 | both transports had failed, by the callers' reports, when a run was abandoned exactly when the abandoning call reported a failed direct channel while the last ICE report was a failure |
| `FallbackAbandon.TruthfulThroughoutExactly` | rust-core/src/transport_fallback.rs:99-124 | in any history, no prefix is falsely abandoned exactly when failed direct channels are reported only while the last ICE report is a failure and no tick from 20000 on finds the connecting phase unended |
| `FallbackAbandon.TruthfulThroughoutIffCareful` | rust-core/src/transport_fallback.rs:99-109 | ticks at most 14000 apart never time out, so there the first condition alone decides |
| `FallbackAbandon.CarefulSuffices` | rust-core/src/transport_fallback.rs:121-124 | such care rules out a false abandonment in all runs with ticks at most d apart exactly when d is at most 14000 |
| `FallbackAbandon.AbandonedWithoutWebRtcFailure` | rust-core/src/transport_fallback.rs:99-107 | a disciplined run ends in "both failed" with no failure report in it |
| `FallbackAbandon.AbandonedWhileConnected` | rust-core/src/transport_fallback.rs:99-107 | a disciplined run ends in "both failed" while the last ICE report is connected |

## Left out

- The internals of `ct_common` and `snow` (channel ids, framing, grants, the IK handshake, AEAD) and ed25519 signing and
  key generation: library code that is not part of this model.
- The handshake constructors and the join request (`lib.rs:132-152`, `252-258`): they only pass decoded hex to a library.
- The exported `encode_signal_*` and `decode_signal_message` wrappers (`lib.rs:361-391`): single calls of the codec.
- `rust-core/src/ice.rs`: one conditional append.
- Mutex poisoning and real clocks: each method is one atomic step and elapsed time is an argument.
- Allocation failure and the capacity of `Vec`: vectors are unbounded sequences.
- `KeyStoreIdentity.kt`, the Android activities and services, UniFFI scaffolding, Gradle and Docker: platform glue.
- EndToEnd.SessionDelivers: assumes in-order delivery of every sealed message; loss and reordering happen below the
  code modelled.
