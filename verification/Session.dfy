/** The SIGN_TX command as a state machine over APDUs and user choices
    (`handler_sign_tx`, `receive_data` in src/handler/sign_tx.c). */
module Session {
  import opened Bytes
  import opened Decoder
  import opened Prelude
  import opened Review
  import opened Transaction

  const BUFFER_SIZE := 300

  /** The data of one APDU: Lc is a byte. */
  type Payload = s: seq<byte> | |s| <= 255

  /** What can happen to the device. `OtherCommand` is any command whose handler clears the
      context, `Query` any that leaves it alone (GET_VERSION, or one the dispatcher refuses);
      `Quit` is the exit button of the processing screen. */
  datatype Event =
    | Data(chunk: byte, bytes: Payload)
    | Sign(path: Payload)
    | Done
    | OtherCommand
    | Query
    | Accept
    | Reject
    | Quit

  /** `init_sign_tx_ctx`. */
  function Begun(): Context {
    Cleared().(stage := RecvData, request := ConfirmTransaction)
  }

  /** The end of `receive_data`: decode what is buffered, then review or ask for more. */
  function Receive(env: Env, c: Context): Outcome {
    match Decode(env, c.changes, c.dec, c.buffer)
    case Failed => Outcome(Cleared(), Status(SW_INVALID_TX))
    case Ready(dec, rest, outs) =>
      if |outs| > OUTPUT_SLOTS then Outcome(Cleared(), Status(SW_INVALID_TX))
      else
        var c' := c.(dec := dec, buffer := rest, batch := outs);
        if outs != [] then DisplayOutputs(c') else Outcome(c', Status(SW_OK))
  }

  /** Chunk 0 after its change information: hash, header, body. Change entries are kept only if
      outputs follow; nothing else ever reads them. */
  function Opening(env: Env, changes: seq<Change>, rest: seq<byte>): Outcome {
    var c := Begun().(hash := HashContext(rest, 0));
    if |rest| < 5 then
      var tokens := if |rest| > 2 then rest[2] else 0;
      var inputs := if |rest| > 3 then rest[3] else 0;
      Outcome(c.(dec := Counters(tokens, inputs, 0, 0, [])), Status(SW_WRONG_DATA_LENGTH))
    else
      var c' := Opened(changes, rest);
      if |c'.buffer| > BUFFER_SIZE then Outcome(c'.(buffer := []), Status(SW_WRONG_DATA_LENGTH))
      else Receive(env, c')
  }

  /** The context in which the body of the first chunk is decoded. */
  function Opened(changes: seq<Change>, rest: seq<byte>): Context
    requires |rest| >= 5
  {
    Begun().(hash := HashContext(rest, 0), dec := StartOf(rest),
             changes := if rest[4] == 0 then [] else changes, buffer := rest[5..])
  }

  /** Chunk 0. Refusals here and in `Opening` are throws: they leave the fresh context, with no
      outputs declared, in RecvData. */
  function FirstChunk(env: Env, bytes: seq<byte>): Outcome {
    match ReadChangeInfo(bytes)
    case Refused(sw) => Outcome(Begun(), Status(sw))
    case Accepted(changes, used) => Opening(env, changes, bytes[used..])
  }

  /** Any later chunk: hash it, append it, decode. */
  function NextChunk(env: Env, c: Context, bytes: seq<byte>): Outcome {
    var c' := c.(hash := c.hash.(message := c.hash.message + bytes));
    if |bytes| > BUFFER_SIZE - |c.buffer| then Outcome(c', Status(SW_WRONG_DATA_LENGTH))
    else Receive(env, c'.(buffer := c.buffer + bytes))
  }

  function HandleData(env: Env, c: Context, chunk: byte, bytes: seq<byte>): Outcome {
    if c.stage == Approved || (chunk > 0 && c.stage != RecvData) || (chunk == 0 && c.stage == RecvData)
    then Outcome(Cleared(), Status(SW_BAD_STATE))
    else if chunk == 0 then FirstChunk(env, bytes)
    else NextChunk(env, c, bytes)
  }

  /** The hash part of `sign_tx_with_key`: finish the double SHA-256 unless byte 0 says it is done. */
  function Finalised(env: Env, c: Context): Context {
    if c.sighash[0] != 0 then c
    else
      var first := if c.hash.rounds == 0 then env.sha256(c.hash.message)
                   else env.respent(c.hash.message, c.hash.rounds);
      c.(sighash := env.sha256(first), hash := c.hash.(rounds := c.hash.rounds + 1))
  }

  /** The SIGN stage. For an empty path `sign_tx_with_key` fails, so the handler returns -1 and
      `app_main` starts over: context and pending response are gone. */
  function HandleSign(env: Env, c: Context, bytes: seq<byte>): Outcome {
    if c.stage != Approved then Outcome(c, Status(SW_BAD_STATE))
    else
      var path := ReadPath(bytes);
      if path.None? then Outcome(c, Status(SW_WRONG_DATA_LENGTH))
      else if path.value == [] then Outcome(Cleared(), NoReply)
      else
        var c' := Finalised(env, c);
        Outcome(c', Signature(env.ecdsa(path.value, c'.sighash)))
  }

  /** `handler_sign_tx` begins by resetting both review counters. */
  function Entered(c: Context): Context {
    c.(display := 0, batch := [])
  }

  /** One event. A pending prompt blocks commands; without a prompt there is nothing to choose. */
  function React(env: Env, c: Context, e: Event): Outcome {
    match e
    case Data(chunk, bytes) =>
      if c.prompt != NoPrompt then Outcome(c, NoReply)
      else if bytes == [] then Outcome(c, Status(SW_WRONG_DATA_LENGTH))
      else HandleData(env, Entered(c), chunk, bytes)
    case Sign(path) =>
      if c.prompt != NoPrompt then Outcome(c, NoReply)
      else if path == [] then Outcome(c, Status(SW_WRONG_DATA_LENGTH))
      else HandleSign(env, Entered(c), path)
    case Done =>
      if c.prompt != NoPrompt then Outcome(c, NoReply) else Outcome(Cleared(), Status(SW_OK))
    case OtherCommand =>
      if c.prompt != NoPrompt then Outcome(c, NoReply) else Outcome(Cleared(), NoReply)
    case Query => Outcome(c, NoReply)
    case Accept => Choose(c, true)
    case Reject => Choose(c, false)
    case Quit =>
      if c.stage == Approved && c.prompt == NoPrompt then Outcome(Cleared(), NoReply) else Outcome(c, NoReply)
  }

  /** The button callback `g_validate_callback`. */
  function Choose(c: Context, choice: bool): Outcome {
    match c.prompt
    case NoPrompt => Outcome(c, NoReply)
    case ConfirmSend => ConfirmTx(c, choice)
    case _ => ConfirmOutput(c, choice)
  }

  // ---- runs ----

  /** A device together with the output prompts its user accepted since the session began. */
  datatype World = World(ctx: Context, accepted: seq<Prompt>)

  function Next(env: Env, w: World, e: Event): World {
    World(
      React(env, w.ctx, e).ctx,
      if e.Data? && e.chunk == 0 && e.bytes != [] && w.ctx.prompt == NoPrompt then []
      else if e == Accept && (w.ctx.prompt.ShowOutput? || w.ctx.prompt.ShowStray?)
      then w.accepted + [w.ctx.prompt]
      else w.accepted)
  }

  /** The state after a list of events, from power-up. */
  function Run(env: Env, es: seq<Event>): World {
    if es == [] then World(Cleared(), [])
    else Next(env, Run(env, es[..|es| - 1]), es[|es| - 1])
  }

  // ---- what holds in every run ----

  /** All outputs decoded from the message so far. */
  function Stream(env: Env, c: Context): Verdict
    requires |c.hash.message| >= 5
  {
    Decode(env, c.changes, StartOf(c.hash.message), c.hash.message[5..])
  }

  /** The incremental state is what one pass over everything hashed would give. */
  predicate Streamed(env: Env, c: Context) {
    && |c.hash.message| >= 5
    && var v := Stream(env, c);
       v.Ready? && v.dec == c.dec && v.rest == c.buffer
  }

  predicate Sound(env: Env, c: Context) {
    match c.stage
    case Idle => c.prompt == NoPrompt
    case _ =>
      && c.request == ConfirmTransaction
      && |c.changes| <= TX_MAX_TOKENS + 1
      && c.dec.current <= c.dec.outputsLen < 256
      && (c.buffer == [] || DecodeStep(env, c.changes, c.dec, c.buffer).NeedMore?)
      && (c.stage != Approved ==> c.hash.rounds == 0 && c.sighash == NoDigest())
      && (c.stage == Parsed ==> c.prompt == ConfirmSend)
      && (c.stage == Approved ==> c.prompt == NoPrompt)
      && (c.stage == RecvData ==> c.prompt != ConfirmSend)
      && (if c.dec.outputsLen == 0 then c.stage == RecvData && c.prompt == NoPrompt
          else Streamed(env, c))
  }

  /** Reviewing touches neither the stream nor the hash. */
  predicate SameStream(c: Context, c': Context) {
    && c'.dec == c.dec && c'.buffer == c.buffer && c'.changes == c.changes
    && c'.hash == c.hash && c'.sighash == c.sighash && c'.request == c.request
  }

  predicate ReviewResult(c: Context, c': Context) {
    && SameStream(c, c')
    && (|| (c'.stage == Parsed && c'.prompt == ConfirmSend)
        || (c'.stage == c.stage && c'.prompt != ConfirmSend))
  }

  lemma {:induction false} SkipFrame(c: Context, sorted: seq<byte>)
    requires c.request == ConfirmTransaction && c.prompt != ConfirmSend
    ensures var r := SkipFrom(c, sorted);
            ReviewResult(c, r.ctx) && (r.Open? ==> r.ctx.stage == c.stage && r.ctx.prompt == c.prompt)
    decreases |sorted|
  {
    if sorted == [] {
    } else {
      if c.confirmed == sorted[0] {
        if CheckIndex(Advance(c)).Open? { SkipFrame(Advance(c), sorted[1..]); }
      } else {
        SkipFrame(c, sorted[1..]);
      }
    }
  }

  lemma DisplayFrame(c: Context)
    requires c.request == ConfirmTransaction && c.prompt != ConfirmSend
    ensures ReviewResult(c, DisplayOutputs(c).ctx)
  {
    hide SkipFrom, Sorted;
    SkipFrame(c, Sorted(Indices(c.changes)));
  }

  lemma ConfirmFrame(c: Context)
    requires c.request == ConfirmTransaction && c.prompt != ConfirmSend
    ensures ReviewResult(c, ConfirmOutput(c, true).ctx)
  {
    hide SkipFrom, Sorted, DisplayOutputs;
    SkipFrame(Advance(c), Sorted(Indices(c.changes)));
    var r := SkipChanges(Advance(c));
    if r.Open? { DisplayFrame(r.ctx); }
  }

  /** What one pass over the whole message gives is what came before followed by what the
      buffer now decodes to. */
  predicate Feeds(env: Env, c: Context, before: seq<Output>) {
    && |c.hash.message| >= 5
    && Stream(env, c) == Decode(env, c.changes, c.dec, c.buffer).After(before)
  }

  lemma ReceiveSound(env: Env, c: Context, before: seq<Output>)
    requires c.stage == RecvData && c.prompt == NoPrompt && c.request == ConfirmTransaction
    requires |c.changes| <= TX_MAX_TOKENS + 1 && c.hash.rounds == 0 && c.sighash == NoDigest()
    requires c.dec.current <= c.dec.outputsLen < 256
    requires c.dec.outputsLen > 0 ==> Feeds(env, c, before)
    ensures Sound(env, Receive(env, c).ctx)
  {
    LeftoverIsPartial(env, c.changes, c.dec, c.buffer);
    hide Decode, DecodeStep, DisplayOutputs;
    var v := Decode(env, c.changes, c.dec, c.buffer);
    if v.Ready? && v.outs != [] {
      DisplayFrame(c.(dec := v.dec, buffer := v.rest, batch := v.outs));
    }
  }

  lemma FirstChunkSound(env: Env, bytes: Payload)
    ensures Sound(env, FirstChunk(env, bytes).ctx)
  {
    hide ReadChangeInfo, Decode, DecodeStep, Receive;
    var r := ReadChangeInfo(bytes);
    if r.Accepted? {
      var rest := bytes[r.used..];
      if |rest| >= 5 {
        var c := Opened(r.changes, rest);
        AfterNothing(Decode(env, c.changes, c.dec, c.buffer));
        ReceiveSound(env, c, []);
      }
    }
  }

  /** The buffer takes every chunk, and never more than 290 of its 300 bytes are in use. */
  lemma BufferSuffices(env: Env, c: Context, bytes: Payload)
    requires Sound(env, c) && c.stage == RecvData
    ensures |c.buffer| + |bytes| <= 290
    ensures var v := Decode(env, c.changes, c.dec, c.buffer + bytes);
            v.Ready? ==> |v.outs| <= 8
  {
    hide Decode, DecodeStep;
    AtMostEightOutputs(env, c.changes, c.dec, c.buffer, bytes);
  }

  lemma ChunkFeeds(env: Env, c: Context, bytes: seq<byte>)
    requires Streamed(env, c) && bytes != []
    ensures Feeds(env, c.(hash := c.hash.(message := c.hash.message + bytes), buffer := c.buffer + bytes),
                  Stream(env, c).outs)
  {
    hide Decode;
    var m := c.hash.message;
    assert (m + bytes)[5..] == m[5..] + bytes;
    DecodeSplit(env, c.changes, StartOf(m), m[5..], bytes);
  }

  lemma NextChunkSound(env: Env, c: Context, bytes: Payload)
    requires Sound(env, c) && c.stage == RecvData && c.prompt == NoPrompt && bytes != []
    ensures Sound(env, NextChunk(env, c, bytes).ctx)
  {
    hide Decode, DecodeStep, Receive;
    BufferSuffices(env, c, bytes);
    var c' := c.(hash := c.hash.(message := c.hash.message + bytes), buffer := c.buffer + bytes);
    if c.dec.outputsLen > 0 {
      ChunkFeeds(env, c, bytes);
      ReceiveSound(env, c', Stream(env, c).outs);
    } else {
      ReceiveSound(env, c', []);
    }
  }

  /** Every event keeps the correspondence between the device's incremental state and a
      one-pass parse of everything it hashed, whatever the chunks and the user do. */
  lemma StepSound(env: Env, c: Context, e: Event)
    requires Sound(env, c)
    ensures Sound(env, React(env, c, e).ctx)
  {
    hide Decode, DecodeStep, Receive, FirstChunk, NextChunk, ReadPath, ConfirmOutput;
    match e {
      case Data(chunk, bytes) =>
        FirstChunkSound(env, bytes);
        if c.stage == RecvData && c.prompt == NoPrompt && bytes != [] {
          assert Sound(env, Entered(c));
          NextChunkSound(env, Entered(c), bytes);
        }
      case Sign(_) =>
        assert Sound(env, Entered(c));
      case Accept =>
        if c.prompt != NoPrompt && c.prompt != ConfirmSend { ConfirmFrame(c); }
      case Reject => RejectClears(c);
      case _ =>
    }
  }

  lemma RejectClears(c: Context)
    ensures ConfirmOutput(c, false) == Outcome(Cleared(), Status(SW_DENY))
  {
  }

  lemma {:induction false} RunSound(env: Env, es: seq<Event>)
    ensures Sound(env, Run(env, es).ctx)
    decreases |es|
  {
    hide React, Sound;
    if es == [] {
      ClearedSound(env);
    } else {
      RunSound(env, es[..|es| - 1]);
      StepSound(env, Run(env, es[..|es| - 1]).ctx, es[|es| - 1]);
    }
  }

  lemma ClearedSound(env: Env)
    ensures Sound(env, Cleared())
  {
  }
}
