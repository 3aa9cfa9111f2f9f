# A verified model of transaction signing in the Hathor Ledger app

The app runs on a hardware wallet. A host streams a transaction to it in APDU chunks of at most
255 bytes; the device decodes tokens, inputs and outputs on the fly, shows every output that is
not change, asks "Send transaction?" and only then signs. This project models that command, the
text the user reads and the wire formats around it, and proves:

* **What is approved is what was shown.** In every run, an approved session is *endorsed* (the
  hashed bytes are exactly one transaction, every output not listed as change was accepted once
  and in order, every listed one passed the ownership check) **if and only if** no acceptance of
  that session was that of the last output of a batch with a change output due next
  (`Exactness.ApprovedExactlyIf`). The condition is real: `ui_confirm_output` calls
  `skip_change_outputs` before it checks for the end of the batch, while `prepare_display_output`
  checks first, and `Boundary.StraddlingRun` is a run that approves a message without its second
  output. `Seen.EndorsedExactlyIf` states the theorem without the review's counters.
* **What that means.** In such a session the accepted screens show exactly the outputs of the hashed
  transaction that no change entry names (`Seen.ApprovedWasSeen`) and this wallet owns all the others
  (`Ownership.ApprovedIsOwned`). In every session what is hashed is what the host sent
  (`Heard.HashedIsSent`), and nothing but the accept button at "Send transaction?" approves it
  (`Consent.ApprovalWasGiven`).
* **Honest sessions succeed exactly when well cut.** For a well-formed transaction whose user
  accepts everything, the session ends approved and endorsed if and only if no chunk that
  completes an output ends between an output to be shown and an index listed as change
  (`Cutting.HonestExactly`). The host can check this from lengths and indices alone, without
  knowing the device's registry or keys (`HostView.HostDecides`), and it holds of the device with
  its arrays and fields (`HostView.HonestDevice`). No event of a well cut
  one is answered with an error (`Exchange.HonestReplies`); a false claim of change always is
  (`Ownership.FalseClaimRefused`).
* **The token array is overrun exactly when** a registered eleventh token arrives
  (`TokenRoom.EventFitsExactly`); `Reached.EleventhTokenRun` is a run that does it, and no run whose
  headers declare at most ten tokens does (`TokenRoom.FewDeclaredFit`).
* **Chunking does not matter** to the decoder, which is sound and complete for the wire format;
  the 300-byte buffer never holds more than 290 bytes.
* **Signatures** are sent only when approved. The first of a session is over the double SHA-256 of
  the message, and so is every later one unless that digest begins with a zero byte; then the
  later ones are over digests of the spent hash context, which are stated exactly
  (`Approval.SignatureIsEndorsed`). `Reached.ZeroDigestIsNotKept` is a run with two different
  signatures.
* **Screens are unambiguous**: the three lines of an output screen read as numbers, symbol and value,
  and an address whose checksum is good and which decodes to the recipient (`Display.ScreenReads`).
  Index and address always fit; the amount line fits **if and only if** the symbol leaves room for
  the value, and `Reached.OverlongAmountRun` is a run whose line does not fit.
* **Base58, amounts, integers and derivation paths** are printed by the in-place C algorithms as
  canonical texts that read back to what was printed, with exact size bounds.

## How it is laid out

| layer | files |
|---|---|
| wire formats | `Bytes`, `Deserialize`, `Transaction`, `Prelude` |
| session as a function of events | `Decoder`, `Review`, `Session` |
| theorems over runs | `Safety`, `Approval`, `Exactness`, `Consent`, `Heard`, `Ownership`, `Seen`, `Numbering`, `Honest`, `Exchange`, `Cutting`, `HostView`, `Display`, `TokenRoom` |
| runs that reach the edges | `Boundary`, `Reached` |
| the device, fields and buffers updated in place | `Cursor`, `OutputParser`, `SelectionSort`, `SignTx` |
| texts and their meaning | `Numerals`, `NumberText`, `PathText`, `ScreenText`, `Base58` |
| printers and codecs writing arrays in place | `Base58InPlace`, `Format`, `PathFormat` |

`Session.React` says what one event does to the context. `SignTx.Device` is the C code's form of
it: an object with the fields of `G_context`, whose methods follow the handlers statement by
statement and are each proved to do what `React` says, as long as the token array is not overrun.
`SignTx.AppMain` carries that over to whole runs whose headers declare at most ten tokens, so every
theorem about `Run` holds of the device on them; honest sessions are among them. Cryptography is a
parameter (`Env`): SHA-256, ECDSA and the ownership check are arbitrary total functions.

## Model

| member | source | states |
|---|---|---|
| `Bytes.BigEndianToBytes` | src/common/read.c:4-25 | reading the big-endian bytes of an integer gives the integer back, at every width |
| `Bytes.ToBytesBigEndian` | src/common/read.c:4-25 | writing the integer read from bytes gives those bytes back |
| `Bytes.OrIsSum16` | src/common/read.c:4-7 | in 16-bit words, or-ing the shifted octets gives their weighted sum |
| `Bytes.OrIsSum32` | src/common/read.c:9-14 | the same for four octets in 32-bit words |
| `Bytes.OrIsSum64` | src/common/read.c:16-25 | the same for eight octets in 64-bit words |
| `Bytes.ShiftForms` | src/common/read.c:4-7 | one octet, and the weighted sum of two, is the big-endian value |
| `Bytes.ShiftForm32` | src/common/read.c:9-14 | the weighted sum of four octets is the big-endian value |
| `Bytes.ShiftForm64` | src/common/read.c:16-25 | the weighted sum of eight octets is the big-endian value, and so is that of two halves |
| `Bytes.LeadingByte` | src/transaction/deserialize.c:45-46 | the first bit of a field is its sign bit, at every width |
| `Deserialize.ParseOutputStable` | src/transaction/deserialize.c:66-89 | success or error on a prefix is unchanged by more bytes; only "need more" can change |
| `Deserialize.ParseEncoded` | tests/app_client/transaction.py:58-74 | an output the client serialises parses back to its fields, whatever follows it |
| `Deserialize.ParsedIsEncoded` | src/transaction/deserialize.c:66-89 | every accepted output is a serialisation of exactly the fields returned |
| `Deserialize.EncodedValue` | tests/app_client/transaction.py:58-62 | the negated 8-byte form and the plain 4-byte form decode to the value |
| `Deserialize.DecodedValue` | src/transaction/deserialize.c:41-64 | every value field is the encoding of the value read from it |
| `Deserialize.OutputLayout` | src/transaction/deserialize.c:20-89 | on any buffer, byte by byte: exactly when an output is parsed, refused or short, and where its length, token byte, key hash and value (plain in 4 bytes, negated in 8) stand |
| `OutputParser.ParseOutputValue` | src/transaction/deserialize.c:41-64 | the cursor reads give the decoded value, or ask for more, for both widths |
| `OutputParser.ValidateP2pkhScript` | src/transaction/deserialize.c:20-39 | accepts exactly the P2PKH scripts; wrong length is refused before missing bytes are asked for |
| `OutputParser.ParseOutputBytes` | src/transaction/deserialize.c:66-89 | the parser with its cursor computes the specified parse of the buffer |
| `CursorModule.Cursor.SeekCur` | src/common/buffer.c:27-39 | moves exactly if the target is inside the buffer, the wrapping addition included |
| `CursorModule.Cursor.ReadU8` | src/common/buffer.c:54-65 | one byte, or failure with the cursor unmoved |
| `CursorModule.Cursor.ReadU16` | src/common/buffer.c:67-79 | two bytes, big-endian, or failure with the cursor unmoved |
| `CursorModule.Cursor.ReadU32` | src/common/buffer.c:81-94 | four bytes, big-endian, or failure with the cursor unmoved |
| `CursorModule.Cursor.ReadU64` | src/common/buffer.c:96-109 | eight bytes, big-endian, or failure with the cursor unmoved |
| `CursorModule.Cursor.Copy` | src/common/buffer.c:140-151 | copies all unread bytes if they fit and nothing otherwise; the rest of the target is untouched |
| `CursorModule.Cursor.ReadBip32Path` | src/common/buffer.c:111-123 | reads a path exactly if `ReadPath` does, moves past it, or fails with the cursor unmoved |
| `Prelude.ReadEncodedPath` | src/common/bip32.c:10-44 | the length-prefixed words of a path are read as that path if and only if the change and index limits hold |
| `Prelude.ReadPathIsEncoded` | src/common/bip32.c:10-44 | whatever path is read, its length-prefixed words are the bytes it was read from |
| `Prelude.PathLayout` | src/common/bip32.c:10-44 | on any bytes: a path is read if and only if it has up to five words, all there, the fourth 0 or 1 and the fifth at most 1048576; its words are the big-endian ones behind the length byte |
| `Prelude.LimitsAre` | src/common/bip32.c:28-41 | so every encoded path within these limits, such as the app's own keys, is read back, and no other |
| `Prelude.WordBytes` | tests/app_client/utils.py:9-23 | an encoded path spells word i in its bytes 4i to 4i+3, most significant first |
| `Prelude.V1RoundTrip` | src/handler/sign_tx.c:68-91 | every list of up to 11 change entries is delivered and the cursor stops at the header; list and header take at most 249 bytes |
| `Prelude.OldEqualsV1` | src/handler/sign_tx.c:104-174 | the old encoding of an entry gives the same change state as its v1 encoding, and both leave the cursor at the header |
| `Prelude.AcceptedIsEncoded` | src/handler/sign_tx.c:144-174 | nothing but "none", a v1 list or an old entry is accepted as change information |
| `Prelude.EntriesGrow` | src/handler/sign_tx.c:68-91 | each entry adds its index, its path length and its words behind those before it |
| `Prelude.InfoRefused` | src/handler/sign_tx.c:144-174 | what change information is refused with: SW_INVALID_TX for an unknown protocol byte, SW_WRONG_DATA_LENGTH for everything else; a zero byte is accepted as no change |
| `Decoder.FindToken` | src/token/token_parser.c:44-49 | the first registry entry with the uid, or none if there is none |
| `Decoder.StepStable` | src/handler/sign_tx.c:315-421 | an element taken or refused on a prefix is taken or refused alike with more bytes |
| `Decoder.DecodeSplit` | src/handler/sign_tx.c:436-457 | decoding a stream in two pieces, the leftover kept in between, ends where one pass ends |
| `Decoder.ChunkingIrrelevant` | src/handler/sign_tx.c:436-457 | for every split into non-empty chunks: same outputs, counters, leftover and verdict as one pass |
| `Decoder.CompleteLeavesNothing` | src/handler/sign_tx.c:414-420 | a decoder that has everything leaves no byte behind; trailing bytes are an error |
| `Decoder.LeftoverIsPartial` | src/handler/sign_tx.c:436-457 | what is kept for the next chunk is too short for the element it begins |
| `Decoder.AtMostEightOutputs` | src/handler/sign_tx.c:403-413 | one call queues at most 8 outputs and never needs more than 290 of the 300 bytes |
| `Reached.EightOutputsRun` | src/handler/sign_tx.c:403-413 | and 8 is reached: for any eight short outputs, one byte left over and 255 in the next chunk queue all of them |
| `Transaction.DecodeAccepts` | tests/app_client/transaction.py:117-145 | completeness: every acceptable list of elements decodes to what it means |
| `Transaction.DecodeFinds` | src/handler/sign_tx.c:315-457 | soundness: whatever is decoded is the encoding of acceptable elements, up to the leftover |
| `Transaction.AppliedInOrder` | src/handler/sign_tx.c:315-421 | accepted elements come as tokens, inputs, outputs, as many as the header declares |
| `Transaction.DecodedIsTransaction` | src/handler/sign_tx.c:315-457 | a message decoded to the end is the serialisation of one valid transaction, nothing left over |
| `Transaction.SerializeLayout` | tests/app_client/transaction.py:117-145 | version in two bytes, the three counts, then the elements: tokens, inputs, outputs |
| `Transaction.EncodeAllGrows` | tests/app_client/transaction.py:117-145 | each element adds its own bytes behind those before it |
| `Transaction.ElementLayout` | tests/app_client/transaction.py:25-74 | a token is its 32 bytes; an input 35, the last two zero; an output 32 bytes or 36 with the first bit set, from which all its fields are parsed |
| `Review.SortedUnique` | src/ui/display.c:233-247 | there is one sorted arrangement of a list, so any correct sort computes it |
| `Review.SkipIsPastChanges` | src/ui/display.c:249-271 | one pass over the sorted indices moves to the least index not listed as change, or stops at the batch or transaction end |
| `Review.SkipStaysPast` | src/ui/display.c:249-271 | counters that ran past the batch never return to its end: the review goes on or asks to send |
| `SelectionSort.InplaceSelectionSort` | src/ui/display.c:233-247 | the first `len` entries become their sorted permutation, in place |
| `Session.BufferSuffices` | src/handler/sign_tx.c:489-499 | in every reachable state any chunk fits the buffer with 10 bytes to spare and queues at most 8 outputs: both overflow guards are unreachable |
| `Session.StepSound` | src/handler/sign_tx.c:466-580 | every event keeps the incremental state equal to a one-pass parse of everything hashed |
| `Session.RunSound` | src/handler/sign_tx.c:466-580 | that holds in every run |
| `Safety.AcceptInSync` | src/ui/display.c:335-348 | accepting an output keeps `confirmed + queued - displayed == decoded` and the review record if and only if it does not straddle |
| `Safety.StepInSync` | src/handler/sign_tx.c:525-580 | every other event keeps them always |
| `Safety.ConfirmLosesStep` | src/ui/display.c:335-348 | a straddling acceptance asks to send or shows an output screen with nothing queued for it |
| `Safety.RunInSync` | src/handler/sign_tx.c:466-580 | a session without straddling acceptance is in step, in every run |
| `Seen.ScreensShow` | src/ui/display.c:276-333 | the i-th screen shows the i-th output not listed as change |
| `Seen.OnScreenIsNext` | src/ui/display.c:276-298 | in every run in step the output on screen is the one decoded at its position, not listed as change, and of those before it exactly the unlisted ones have been accepted, in order |
| `Approval.ApprovedIsEndorsed` | src/ui/display.c:165-357 | an approved session in step is endorsed; what the record of screens and the claims then say of the transaction is `Seen.ApprovedWasSeen` and `Ownership.ApprovedIsOwned` |
| `Seen.ApprovedWasSeen` | src/ui/display.c:276-348 | main review theorem: in an approved session in step the accepted screens show exactly the outputs of the hashed transaction that no change entry names, once each, in order, each with its own index, value, token and key hash |
| `Ownership.ApprovedIsOwned` | src/handler/sign_tx.c:362-413 | main ownership theorem: in an approved session in step `verify_change` holds of every output and path listed for it; tokens are registered; outputs are no authorities and name HTR or a declared token |
| `Ownership.DecodedOutputs` | src/handler/sign_tx.c:362-413 | every decoded output carries its position, an ordinary token byte in range, and is owned under every path listed for it |
| `Ownership.DecodedChangeIsOwned` | src/handler/sign_tx.c:386-398 | in every run, in step or not, this wallet owns each output decoded so far under each path listed for it |
| `Ownership.FalseClaimFails` | src/handler/sign_tx.c:386-398 | whatever acceptable elements come before and whatever follows: an output that an entry claims without owning it fails the decoding |
| `Ownership.FalseClaimRefused` | src/handler/sign_tx.c:502-507 | in every run a later chunk that brings such an output clears the session with SW_INVALID_TX |
| `Ownership.FalseClaimRefusedAtOnce` | src/handler/sign_tx.c:502-507 | so does a first chunk |
| `Heard.HashedIsSent` | src/handler/sign_tx.c:208-217 | in every run a session with outputs has hashed exactly what the host sent in it while nothing was asked, byte for byte, behind the announcement of the change entries it uses |
| `Consent.ApprovingEvent` | src/ui/display.c:165-177 | an event approves a session if and only if it is the accept button at "Send transaction?"; the reply is SW_OK and nothing else changes |
| `Consent.RejectingEnds` | src/ui/display.c:165-177 | rejecting at any prompt clears the session with SW_DENY |
| `Consent.ApprovalWasGiven` | src/ui/display.c:165-177 | in every run: approved if and only if the user accepted at "Send transaction?" and the session has been approved ever since |
| `Consent.EndingEvent` | src/handler/sign_tx.c:525-580 | exactly which events other than data end a session: rejecting, done, another command, leaving the processing screen, an empty path |
| `Consent.EndedSignsNothing` | src/handler/sign_tx.c:533-538 | in every run: after done, another command, data or leaving the screen in an approved session, any later signature has had a later approval |
| `Consent.PromptBlocks` | src/io.c:73-93 | while a prompt is pending only the buttons do anything |
| `Consent.Refusals` | src/handler/sign_tx.c:540-571 | commands out of order or without data, and with which status each is refused |
| `Consent.AcceptReplies` | src/ui/display.c:214-231 | accepting is answered SW_OK if and only if nothing more is asked |
| `Consent.ChunkReplies` | src/handler/sign_tx.c:489-523 | a later chunk is answered SW_INVALID_TX exactly if all received so far, decoded in one pass, is no beginning of a transaction; nothing if an output comes on screen, else SW_OK |
| `Consent.FirstChunkReplies` | src/handler/sign_tx.c:466-523 | the same for a first chunk, with the two ways it can be refused as unreadable |
| `Exactness.NoChangeIsEndorsed` | src/ui/display.c:249-253 | every approved session without change entries is in step and endorsed, however it was cut |
| `Approval.SignatureOnlyWhenApproved` | src/handler/sign_tx.c:540-553 | a signature is sent if and only if an approved session without prompt is asked to sign with a readable non-empty path |
| `Approval.ApprovedIsFinal` | src/handler/sign_tx.c:555-569 | one event of an approved session clears the context or leaves message, changes and review record as they are |
| `Approval.ApprovedStays` | src/handler/sign_tx.c:525-580 | however long a session stays approved, its message, changes, decoder and review record are constant |
| `Approval.RunKeepsDigest` | src/handler/sign_tx.c:241-257 | in every approved state the cached digest is empty before the first signature, the double SHA-256 after it, and after more finalisations, which only a zero first byte causes, the last digest of the spent context |
| `Approval.SignatureIsEndorsed` | src/handler/sign_tx.c:224-281 | every signature is over exactly `NextDigest`: the double SHA-256 of the message if it is the first or that does not begin with zero, otherwise a stated digest of the spent context; in a session in step the message is the endorsed transaction |
| `Approval.FirstSignature` | src/handler/sign_tx.c:241-281 | the signature of a session just approved, for every readable path, is ECDSA over SHA-256 of SHA-256 of the message |
| `Approval.SignatureDigest` | src/handler/sign_tx.c:241-281 | so is every signature of every run whose message does not digest to a leading zero byte |
| `Approval.SignaturesAgree` | src/handler/sign_tx.c:224-281 | any two signatures of one approved session, for any paths and whatever happens between, are over the same double SHA-256 unless that begins with a zero byte |
| `Reached.ZeroDigestIsNotKept` | src/handler/sign_tx.c:241-257 | a run from power-up with two sign commands for one path and two different signatures |
| `Reached.SecondSignature` | src/handler/sign_tx.c:241-257 | in every run, for any two paths: the first signature is over the double SHA-256, the one right after it over the same unless that begins with a zero byte, then over the respent digest |
| `Exactness.StraddleLoses` | src/ui/display.c:335-342 | a straddling acceptance from a state in step leaves one that has lost step |
| `Exactness.LostStays` | src/handler/sign_tx.c:525-580 | a session that has lost step never finds it again |
| `Exactness.EndorsedIsDecoded` | src/handler/sign_tx.c:315-421 | what is endorsed has been decoded in full |
| `Exactness.ApprovedExactlyIf` | src/ui/display.c:335-348 | main safety theorem: an approved session is endorsed if and only if none of its acceptances straddled |
| `Seen.EndorsedExactlyIf` | src/ui/display.c:335-348 | the same without reference to the review counters: an approved session is endorsed if and only if the user never, in that session, accepted the last output decoded so far while the next position was listed as change |
| `Numbering.ScreenCount` | src/ui/display.c:284-295 | a run has as many output screens as outputs minus distinct change indices |
| `Numbering.TotalIsRight` | src/ui/display.c:286-289 | the shown total is that number if and only if the listed indices are distinct and inside the transaction |
| `Numbering.ScreensReadOneToT` | src/ui/display.c:284-298 | under that condition the screens read 1/T, 2/T, ..., T/T |
| `Honest.WellFormedDecodes` | src/handler/sign_tx.c:315-421 | a well-formed transaction decodes to the end |
| `Honest.MessagePrefix` | src/handler/sign_tx.c:466-523 | after k chunks the hashed bytes are a prefix of the transaction that decodes without error, complete only at the last chunk |
| `Honest.StraddleIsBeforeChange` | src/ui/display.c:335-342 | a session in step straddles only where a chunk boundary separates a shown output from a change output |
| `Honest.HonestRunIsApproved` | src/handler/sign_tx.c:466-523 | a well cut honest session is approved exactly at its last chunk, with outputs minus distinct changes prompts plus one, and signs the host's bytes |
| `Exchange.WellFormedMeans` | src/handler/sign_tx.c:315-421 | what the honest transactions are, field by field: an if-and-only-if with registry, token bytes and `verify_change` written out |
| `Exchange.HonestReplies` | src/handler/sign_tx.c:502-523 | in a well cut honest session every event is answered SW_OK if nothing is asked after it and not at all otherwise; no error word is ever sent |
| `Exchange.OneChunkRun` | src/handler/sign_tx.c:466-523 | whatever fits one chunk is approved and endorsed by one acceptance for each output not listed and one more, unless an entry names the position behind the last output |
| `Cutting.MustShow` | src/ui/display.c:276-282 | a decoded output not listed as change is shown before more data is asked for |
| `Cutting.BadCutLoses` | src/ui/display.c:335-342 | after the first bad cut and the user's acceptances the session is over or has lost step |
| `Cutting.HonestExactly` | src/ui/display.c:335-348 | an honest run ends approved and endorsed if and only if the submission is well cut |
| `HostView.PrefixOutputs` | src/handler/sign_tx.c:436-457 | on a prefix of acceptable elements the decoder has found exactly the outputs whose encoding ends within it |
| `HostView.CompletedIsDecoded` | tests/app_client/transaction.py:117-145 | the outputs the device has after k chunks are those whose bytes the host has sent in full |
| `HostView.HostDecides` | src/ui/display.c:335-348 | for every device and wallet: an honest run ends approved and endorsed if and only if the host finds its cuts good by lengths and indices |
| `HostView.ScriptDeclaresFew` | src/handler/sign_tx.c:190-202 | no event of an honest session declares more than ten tokens, so the device follows it |
| `HostView.HonestDevice` | src/main.c:66-79 | the device itself, fed by an honest host and user, ends approved and endorsed if and only if the host finds its cuts good |
| `Boundary.ApprovedScreensNumbered` | src/ui/display.c:284-298 | in every approved run in step the accepted screens read 1/T to T/T if the indices are distinct and inside; otherwise T is wrong on every screen |
| `Boundary.TooShortToEndorse` | src/handler/sign_tx.c:190-202 | a message too short for the outputs it declares is not endorsed |
| `Boundary.StraddlingRun` | src/ui/display.c:335-342 | for every path, amount and address: a run that shows one output and approves a message that lacks the second |
| `Boundary.CutMessageIsShort` | tests/app_client/cmd_builder.py:10-13 | the first chunk of that run fits one APDU, whatever the path |
| `Display.DecodedDisplayable` | src/handler/sign_tx.c:373-381 | every decoded output names HTR or a token the transaction declared and the registry knows |
| `Display.RunDisplayable` | src/ui/display.c:284-331 | in every run the queued and the shown outputs can be displayed: `tokens[token_index - 1]` is in range |
| `Display.ScreenIsLegible` | src/ui/display.c:276-333 | an output of the batch on screen (`ShowOutput`; stray screens are outside) has a symbol, a fitting index line and a 34-character address, and its amount line fits if and only if the symbol leaves room for the value |
| `Display.ScreenReads` | src/ui/display.c:284-331 | in every run the three lines on screen read as number and total, as symbol, space and value, and as an address with good checksum that decodes to version and key hash |
| `Display.SymbolIsOfHashedToken` | src/handler/sign_tx.c:329-334 | in every run the symbol on screen is the registry's for the uid that the hashed bytes hold at the output's token index |
| `Reached.OverlongAmountRun` | src/ui/display.c:329-331 | for every registry, recipient and value without room: a one-chunk run that shows an output whose amount line overruns the 30 bytes |
| `SignTx.Device.CheckOutputIndexState` | src/ui/display.c:214-231 | asks to send, asks for more data, or lets the review go on, as the counters say |
| `SignTx.Device.SortedChangeIndices` | src/ui/display.c:254-259 | the change indices, copied and sorted |
| `SignTx.Device.SkipChangeOutputs` | src/ui/display.c:249-271 | the skip loop over the sorted array is `SkipChanges` |
| `SignTx.Device.ScreenNumbers` | src/ui/display.c:284-295 | the shown index and total in 8-bit arithmetic |
| `SignTx.Device.PrepareDisplayOutput` | src/ui/display.c:276-298 | the output and numbers of the next screen, or what the two checks before it did; that this is the queued output itself is `Seen.OnScreenIsNext`, and `ScreenText.PutScreen` writes the lines |
| `SignTx.Device.UiDisplayTxOutputs` | src/ui/display.c:350-357 | the review round of a fresh batch |
| `SignTx.Device.UiConfirmOutput` | src/ui/display.c:335-348 | rejecting clears the session; accepting advances, skips and shows |
| `SignTx.Device.UiActionTxConfirm` | src/ui/display.c:165-177 | approval on accepting, clearing on rejecting (`Consent.ApprovingEvent`, `Consent.RejectingEnds`) |
| `SignTx.Device.ReadChangeInfoV1` | src/handler/sign_tx.c:68-91 | the entry loop delivers the specified entries or throws |
| `SignTx.Device.ReadChangeInfoOldProtocol` | src/handler/sign_tx.c:104-136 | the single entry, read through the zero-padded scratch buffer |
| `SignTx.Device.ReadChange` | src/handler/sign_tx.c:144-174 | dispatch on the protocol byte |
| `SignTx.Device.ReadTxData` | src/handler/sign_tx.c:190-202 | header fields in order; a short header throws and leaves what was read |
| `SignTx.Device.SighashAllHash` | src/handler/sign_tx.c:208-217 | absorbs all unread bytes, cursor unmoved |
| `SignTx.Device.FindTokenRegistryIndex` | src/token/token_parser.c:44-49 | the lookup loop finds the first match |
| `SignTx.Device.VerifyClaims` | src/handler/sign_tx.c:386-398 | succeeds exactly if every entry naming the output is owned; what that achieves is `Ownership.ApprovedIsOwned` and `Ownership.FalseClaimRefused` |
| `SignTx.Device.DecodeToken` | src/handler/sign_tx.c:319-341 | one token step on the shifted buffer |
| `SignTx.Device.DecodeInput` | src/handler/sign_tx.c:342-361 | one input step; non-empty input data is an error |
| `SignTx.Device.DecodeOutput` | src/handler/sign_tx.c:362-413 | one output step with authority, token index and ownership checks |
| `SignTx.Device.DecodeElement` | src/handler/sign_tx.c:315-421 | one call of `_decode_elements` does one `DecodeStep` |
| `SignTx.Device.DecodeElements` | src/handler/sign_tx.c:436-457 | the loop computes `Decode` and the full-batch guard |
| `SignTx.Device.InitSignTxCtx` | src/handler/sign_tx.c:286-298 | the fresh receiving context |
| `SignTx.Device.ReceiveBody` | src/handler/sign_tx.c:494-523 | append, decode, review; a chunk that does not fit changes nothing |
| `SignTx.Device.ReceiveData` | src/handler/sign_tx.c:466-523 | a data chunk; a throw in chunk 0 leaves the half-initialised session |
| `SignTx.Device.SignWithKey` | src/handler/sign_tx.c:224-281 | finalises the hash unless cached, then signs the cached digest; an empty path fails |
| `SignTx.Device.HandlerData` | src/handler/sign_tx.c:555-571 | state checks of the data stage |
| `SignTx.Device.HandlerSign` | src/handler/sign_tx.c:540-553 | state and path checks of the sign stage; a negative status for an empty path |
| `SignTx.Device.OnData` | src/apdu/dispatcher.c:72-84 | a data command does what `React` says, throws caught by the main loop included |
| `SignTx.Device.OnSign` | src/main.c:66-79 | a sign command does what `React` says; after a negative status the main loop starts over with a cleared context and no response |
| `SignTx.Device.OnDone` | src/handler/sign_tx.c:533-538 | done clears the context |
| `SignTx.Device.OnChoice` | src/ui/display.c:165-177 | a pressed button does what `React` says |
| `SignTx.Device.OnQuit` | src/ui/display.c:42-45 | leaving the processing screen clears the context |
| `SignTx.Device.OnQuery` | src/apdu/dispatcher.c:22-34 | a command that does not touch the context leaves it as it is |
| `SignTx.AppMain` | src/main.c:66-79 | from power-up through any events whose first chunks declare at most ten tokens the device is in the state the session model gives |
| `SignTx.Device.Handle` | src/main.c:66-79 | any single event that does not overrun the token array does what `React` says |
| `TokenRoom.FewTokensFit` | src/handler/sign_tx.c:319-341 | decoding from counters that leave at most ten tokens in all never stores an eleventh |
| `TokenRoom.RoomExactly` | src/handler/sign_tx.c:319-341 | from any counters and buffer, an eleventh token is stored if and only if more are declared than there is room for and the first without room, like all before it, has arrived and is registered |
| `TokenRoom.EventFitsExactly` | src/handler/sign_tx.c:466-523 | an event overruns the array if and only if it is a later chunk read in RECV_DATA that brings such a token |
| `TokenRoom.FirstChunkHasRoom` | src/handler/sign_tx.c:466-487 | no first chunk does: seven tokens at most arrive with it |
| `TokenRoom.FewDeclaredFit` | src/handler/sign_tx.c:190-202 | in every run whose first chunks declare at most ten tokens no event overruns the array |
| `TokenRoom.DeclaresFewMeans` | src/handler/sign_tx.c:190-202 | the bound is on the third byte behind the announcement |
| `TokenRoom.SessionTokens` | src/handler/sign_tx.c:319-341 | in every run a session with outputs has stored the lesser of the tokens declared and the tokens arrived, those of the hashed uids; so more than ten exactly if more than ten are declared and 357 bytes hashed |
| `Reached.EleventhTokenRun` | src/handler/sign_tx.c:333-334 | for any eleven registered tokens: a run of two chunks that stores all eleven |
| `Base58.RebaseBack` | src/common/base58.c:58-147 | re-expressing digits in another base, leading zeros kept, is undone by going back, for any bases |
| `Base58.EncodeFitsDecoder` | src/common/base58.h:10-14 | encodings of up to 120 bytes have at most 164 characters |
| `Base58.DecodeUndoesEncode` | src/common/base58.c:29-147 | decoding gives the bytes back if and only if they encode to at least two characters |
| `Base58.EncodeUndoesDecode` | src/common/base58.c:29-147 | encoding gives an accepted string back if and only if it decodes to at most 120 bytes |
| `Base58.AddressText` | src/ui/display.c:300-310 | every mainnet address is 34 characters starting with H, every testnet one 34 starting with W |
| `Base58.EncodeMeans` | src/common/base58.c:95-147 | a '1' for each leading zero byte and no other in front; in base 58 the text is the number the bytes are in base 256 |
| `Base58.DecodeDomain` | src/common/base58.c:29-56 | accepted are exactly the strings of 2 to 164 characters of the alphabet |
| `Base58.LetterIsAlphabet` | src/common/base58.c:21-26 | the letters are those of the alphabet, in its order |
| `Base58.AlphabetIsBase58` | src/common/base58.c:8-19 | the table has a digit for exactly the characters of the alphabet |
| `Base58InPlace.EstimateSuffices` | src/common/base58.c:114 | 256^n <= 58^(138n/100 + 1) for every n |
| `Base58InPlace.AddByte` | src/common/base58.c:117-127 | multiplies by 256 and adds in place; always leaves by the break, zeros left of the window |
| `Base58InPlace.EncodeDigits` | src/common/base58.c:114-128 | the buffer spells the input in base 58; `stop_at - 1` never wraps |
| `Base58InPlace.Base58Encode` | src/common/base58.c:95-147 | writes the canonical encoding, or refuses and writes nothing |
| `Base58InPlace.DivideBy256` | src/common/base58.c:65-75 | quotient digits below 58, leading digit retired, quotient and remainder exact |
| `Base58InPlace.DecodeDigits` | src/common/base58.c:62-78 | one byte per pass, value conserved, `j` ends at `zero_count` |
| `Base58InPlace.DecodeWindow` | src/common/base58.c:58-90 | the copied window starts with exactly the leading zeros |
| `Base58InPlace.LookUp` | src/common/base58.c:46-56 | accepts exactly base-58 strings and yields their digits |
| `Base58InPlace.Base58Decode` | src/common/base58.c:29-93 | writes the decoded bytes, or refuses and writes nothing |
| `NumberText.ReadIntText` | src/common/format.c:178-206 | every integer is read back from its text in every base from 2 to 36 |
| `NumberText.AmountReadsBack` | src/common/format.c:147-176 | deleting commas and dot and reading in decimal gives the amount back; where the dot and the commas stand is `AmountParts` |
| `NumberText.AmountParts` | src/common/format.c:147-176 | the dot stands before the last two characters, which read as the hundredths; what stands before it are groups of three behind commas and reads as the units; a reader of amounts gets the value back |
| `NumberText.DigitTable` | src/common/format.c:192-194 | the digits are those of the table of `itoa` |
| `NumberText.NoLeadingZero` | src/common/format.c:178-206 | only zero is printed with a leading zero, as "0" |
| `NumberText.AmountInjective` | src/common/format.c:147-176 | no two amounts print alike |
| `NumberText.AmountFits` | src/ui/display.c:21 | an amount an output can carry takes at most 25 characters, reached, so "HTR " plus amount fills the 30-byte buffer at most exactly |
| `NumberText.AmountLineFits` | src/ui/display.c:311-331 | exactly when the amount line behind a symbol of up to 5 characters fits |
| `Format.FormatU64` | src/common/format.c:52-85 | prints the decimal text in place and succeeds exactly if it and the terminator fit, or for one digit in a buffer of one byte, whose terminator then lands behind it |
| `Format.FormatI64` | src/common/format.c:8-50 | the same for every signed 64-bit value; failure writes nothing |
| `Format.ItoaDigits` | src/common/format.c:187-195 | truncating division and the mirrored table give the digits of every 32-bit int, the minimum included |
| `Format.Itoa` | src/common/format.c:178-206 | prints the canonical signed numeral in any base from 2 to 36, nothing else changed |
| `Format.LaidIsGrouped` | src/common/format.c:155-163 | digits and commas as laid out are the grouped text with one comma too many |
| `Format.FormatValue` | src/common/format.c:147-176 | prints every 64-bit amount as `AmountText` has it (`NumberText.AmountParts`), behind what the buffer already holds |
| `PathText.ReadsBack` | tests/app_client/utils.py:9-23 | the client reads every printed path back as the same words |
| `PathText.Injective` | src/common/bip32.c:46-89 | no two paths print alike |
| `PathText.FirstKeyText` | src/common/bip32.c:46-89 | the app's first key is shown as 44'/280'/0'/0/0 |
| `PathFormat.AppendComponent` | src/common/bip32.c:56-86 | one component through up to three truncating `snprintf` calls, and exactly when a check fails |
| `PathFormat.FormatPath` | src/common/bip32.c:46-89 | succeeds exactly if the text before its last piece leaves room; then holds the text as far as it fits, otherwise zeros; a buffer of no bytes is refused |
| `PathFormat.DisplayFits` | src/ui/display.c:28 | the 60-byte buffer takes every path of 1 to 5 components |
| `PathFormat.LongestPath` | src/ui/display.c:28 | and one path fills it |
| `PathFormat.CutTextIsAnotherPath` | src/common/bip32.c:59-64 | in a buffer one byte short, success prints another path whenever the last component has several digits and no mark |
| `PathFormat.PrintedPathIsAccepted` | src/common/bip32.c:10-89 | a printed path read by the client and sent back is accepted as that path if and only if within the limits |
| `ScreenText.AddressInjective` | src/hathor.c:70-89 | the address text determines the public key hash |
| `ScreenText.AmountLineInjective` | src/ui/display.c:329-331 | the amount line determines symbol and value, spaces in the symbol included |
| `ScreenText.LinesDetermineOutput` | src/ui/display.c:284-331 | equal screens mean equal recipient, value, symbol as C reads it, and numbering |
| `ScreenText.CString` | src/ui/display.c:326-330 | what `strlcpy` and `strlen` see of an array: all before its first NUL |
| `ScreenText.IndexLineReads` | src/ui/display.c:295-298 | what stands left of the slash reads as the number, right of it as the total |
| `ScreenText.AmountLineReads` | src/ui/display.c:313-331 | the symbol, a space, and a text that reads as the value |
| `ScreenText.AddressReads` | src/hathor.c:70-89 | the address text decodes to version, key hash and the first four bytes of SHA-256 of SHA-256 of these |
| `ScreenText.LinesRead` | src/ui/display.c:284-331 | the three lines of any output read as its numbers, value, symbol and recipient |
| `ScreenText.LinesFit` | src/ui/display.c:20-23 | index and address always fit; the amount line fits if and only if the symbol leaves room |
| `ScreenText.PutIndexLine` | src/ui/display.c:295-298 | prints "number/total" into the 10-byte buffer |
| `ScreenText.PutAddressLine` | src/ui/display.c:300-311 | version, hash and checksum, encoded in place and copied: the address buffer holds the address text, which decodes as `AddressReads` says |
| `ScreenText.PutAmountLine` | src/ui/display.c:313-331 | symbol, space and amount written one behind the other: the amount buffer holds the amount line |
| `ScreenText.PutScreen` | src/ui/display.c:284-331 | the three buffers hold the three lines of the screen |

## Where the code and its own words differ

* src/types.h:121 says at most 7 outputs are queued by one call. It can be 8
  (`Reached.EightOutputsRun`) and no more (`Decoder.AtMostEightOutputs`); the array of 10 is large
  enough.
* The 30 bytes of `g_amount` (src/ui/display.c:21) hold every HTR amount, but not every line of a
  token with a 4- or 5-character symbol: `format_value` then writes past the buffer, for values
  from 10^18 and 10^17 on (`Display.ScreenIsLegible`, `Reached.OverlongAmountRun`).
* The array `tokens` (src/types.h:124) holds ten tokens, but `_decode_elements` stores as many as
  the header declares (src/handler/sign_tx.c:333). Eleven registered ones, which need not differ,
  overrun it (`Reached.EleventhTokenRun`, exactly when: `TokenRoom.EventFitsExactly`).
* `format_u64` takes the buffer length to keep to it, but prints a single digit into a buffer of one
  byte with the terminator behind it (`Format.FormatU64`).
* For an empty path `sign_tx_with_key` sends a status and reports failure, so `app_main` returns and
  starts over before the status goes out; the model does the same (`SignTx.Device.OnSign`).
* src/common/bip32.h:54 promises success or failure; success with a cut text is possible in a
  short buffer (`PathFormat.CutTextIsAnotherPath`). The app's own 60-byte buffer is never short.
* The comments above `read_change_info_v1` and `read_change_info_old_protocol` in
  src/handler/sign_tx.c describe one format; the code reads two, and the model follows the code.

## Left out

- SignTx.AppMain: requires that first chunks declare at most ten tokens; what an eleventh token overwrites behind the array is not modelled, and `Session.React` itself has no limit.
- SignTx.Device.Handle: requires that the event does not overrun the token array, which `TokenRoom.EventFitsExactly` makes a check on header, buffer and registry.
- SignTx.Device.OnData: the same requirement, for the same reason.
- SignTx.Device.HandlerData: the same requirement, for the same reason.
- SignTx.Device.ReceiveData: the same requirement, for the same reason.
- SignTx.Device.ReceiveBody: the same requirement, for the same reason.
- SignTx.Device.DecodeElements: the same requirement, for the same reason.
- SignTx.Device.DecodeElement: the same requirement, for the same reason.
- SignTx.Device.DecodeToken: the same requirement, for the same reason.
- Honest.HonestRunIsApproved: well-formed transactions have at most ten tokens, as the device has room for; so do those of `Cutting.HonestExactly` and `HostView.HostDecides`.
- ScreenText.PutAmountLine: requires that the line fits; what an overlong one overwrites is not modelled.
- ScreenText.PutScreen: the same requirement, for the same reason.
- Format.Itoa: requires a base from 2 to 36; for any other the code writes a terminator and goes on to divide by it or to read outside its table.
- Format.ItoaDigits: the same bases, for the same reason.
- Approval.SignatureIsEndorsed: what finalising a finalised hash context returns is the SDK's and arbitrary here, so later signatures over a digest that begins with zero are exact only up to it.
- PathFormat.FormatPath: for a buffer of no bytes it requires a terminator in the memory behind the pointer, as `strlen` does.
- PathText.ReadsBack: the client's `int()` is modelled on strings of digits; signs, blanks and underscores, which Python also takes, never occur in a printed path.
- Key derivation, SHA-256, RIPEMD-160 and ECDSA are arbitrary total functions; their error returns and the internal-error replies behind them are not modelled.
- The token registry is fixed while a session runs. SEND_TOKEN_DATA with p1 other than 0 (src/handler/send_token_data.c:9-46) can add to the registry or empty it without clearing the context; a token already decoded then shows whatever symbol its slot holds. A restart of the main loop empties the registry too. Token signatures and storage are not modelled.
- The arrays `change_info`, `tokens` and `outputs` are held as the lists of their used entries; stale entries beyond those are not modelled. What an output screen shows when `display_index` is past the batch is therefore only known not to be an output of the batch (`ShowStray`).
- The three display buffers are not fields of `SignTx.Device`: the prompt it sets names the output and its numbers, from which `ScreenText.PutScreen` writes them.
- Commands other than SIGN_TX appear as one event that clears the context (GET_ADDRESS, GET_XPUB, SIGN_TOKEN_DATA, VERIFY_TOKEN_SIGNATURE, SEND_TOKEN_DATA with p1 0) and one that leaves it alone (GET_VERSION and what the dispatcher refuses). RESET_TOKEN_SIGNATURES, which puts its own prompt over a session without clearing it, is not modelled, nor are the flows of the other commands, APDU header parsing, transport, and the menu and screen plumbing of the SDK.
- Null pointers, and conversions to `int` of buffer lengths of 2^31 bytes and more, are not modelled.
- `format_fpu64`, `format_hex`, `buffer_move` and the little-endian reads serve other commands and would add only easy members.
