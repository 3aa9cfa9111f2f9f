/** The converse of the safety theorem: a session that loses step never finds it again, and is
    never endorsed. */
module Exactness {
  import opened Bytes
  import opened Decoder
  import opened Prelude
  import opened Review
  import opened Transaction
  import opened Session
  import opened Safety
  import opened Approval
  import opened Numbering

  /** The marks of a session that has lost step: outputs are listed as change, and it shows or has
      shown a screen without an output, or it asks to send, or may sign, what it has not decoded in
      full. */
  predicate Lost(w: World) {
    && w.ctx.stage != Idle && w.ctx.dec.outputsLen > 0 && w.ctx.changes != []
    && (|| ShowStray in w.accepted
        || w.ctx.prompt == ShowStray
        || (w.ctx.stage != RecvData && w.ctx.dec.current < w.ctx.dec.outputsLen))
  }

  /** The counter that ran past the batch can only meet the number of outputs early. */
  lemma AheadOfDecoder(c: Context, r: Context)
    requires Aligned(c) && c.display < |c.batch| && RanPast(c, r) && r.display <= 32
    requires r.confirmed == r.dec.outputsLen && c.display + 1 == |c.batch|
    ensures r.dec.current < r.dec.outputsLen
  {
  }

  lemma StraddleLoses(env: Env, w: World)
    requires InSync(env, w) && Straddles(w.ctx)
    ensures Lost(Next(env, w, Accept))
  {
    hide Streamed, DecodeStep, Screens, ConfirmOutput, IsChangeIndex;
    ConfirmLosesStep(w.ctx);
    if w.ctx.changes == [] { NoChangeNoStraddle(w.ctx); }
    var r := ConfirmOutput(w.ctx, true).ctx;
    if r.stage != RecvData { AheadOfDecoder(w.ctx, r); }
  }

  lemma LostStays(env: Env, w: World, e: Event, w': World)
    requires Sound(env, w.ctx) && Lost(w) && w' == Next(env, w, e)
    ensures w'.ctx.stage == Idle || Lost(w')
  {
    hide Streamed, DecodeStep, Decode, ReadPath, FirstChunk, ConfirmOutput;
    match e {
      case Data(_, bytes) =>
        if w.ctx.prompt == NoPrompt && w.ctx.stage == RecvData && bytes != [] {
          NextChunkFrame(env, Entered(w.ctx), bytes);
        }
      case Accept =>
        if w.ctx.prompt != NoPrompt && w.ctx.prompt != ConfirmSend { ConfirmFrame(w.ctx); }
      case Reject => RejectClears(w.ctx);
      case _ =>
    }
  }

  lemma NextChunkFrame(env: Env, c: Context, bytes: seq<byte>)
    requires c.stage == RecvData && c.prompt == NoPrompt && c.request == ConfirmTransaction
    ensures var r := NextChunk(env, c, bytes).ctx;
            r == Cleared() || (r.dec.outputsLen == c.dec.outputsLen && r.changes == c.changes)
  {
    var c' := c.(hash := c.hash.(message := c.hash.message + bytes), buffer := c.buffer + bytes);
    var v := Decode(env, c'.changes, c'.dec, c'.buffer);
    hide Decode, DisplayOutputs;
    if v.Ready? { DisplayFrame(c'.(dec := v.dec, buffer := v.rest, batch := v.outs)); }
  }

  lemma {:induction false} OutOfStepIsLost(env: Env, es: seq<Event>)
    requires !InStep(env, es)
    ensures Lost(Run(env, es))
    decreases |es|
  {
    hide InSync, Straddles, Next, Lost;
    var front, e := es[..|es| - 1], es[|es| - 1];
    if InStep(env, front) {
      RunInSync(env, front);
      StraddleLoses(env, Run(env, front));
    } else {
      OutOfStepIsLost(env, front);
      RunSound(env, front);
      LostStays(env, Run(env, front), e, Run(env, es));
    }
  }

  lemma NoStrayScreens(changes: seq<Change>, outputsLen: nat, outs: seq<Output>)
    ensures ShowStray !in Screens(changes, outputsLen, outs)
  {
    ScreensTotal(changes, outputsLen, outs);
    hide Screens;
  }

  /** What is endorsed has been decoded in full. */
  lemma EndorsedIsDecoded(env: Env, w: World)
    requires Sound(env, w.ctx) && w.ctx.stage != Idle && w.ctx.dec.outputsLen > 0 && Endorsed(env, w)
    ensures w.ctx.dec.current == w.ctx.dec.outputsLen
  {
    hide Decode, DecodeStep, ApplyAll, Screens, Element.Valid, ClaimsHold, TxOf;
    var c := w.ctx;
    var tx := Signed(env, c);
    TransactionOutputs(env, c.changes, tx);
    HeaderOf(tx);
    var m := c.hash.message;
    assert m[5..] == EncodeAll(tx.Body());
    assert tx.Body() != [] by { assert |tx.Body()| >= |tx.outputs|; }
    DecodeAccepts(env, c.changes, tx.Start(), tx.Body());
  }

  lemma HeaderOf(tx: Tx)
    requires tx.Valid()
    ensures var m := tx.Serialize(); |m| >= 5 && StartOf(m) == tx.Start() && m[5..] == EncodeAll(tx.Body())
  {
    hide Element.Valid, EncodeAll;
    var m := tx.Serialize();
    assert m[..5] == tx.Header();
    assert m[2] == tx.Header()[2] && m[3] == tx.Header()[3] && m[4] == tx.Header()[4];
  }

  lemma LostIsNotEndorsed(env: Env, w: World)
    requires Sound(env, w.ctx) && Lost(w) && w.ctx.stage == Approved
    ensures !Endorsed(env, w)
  {
    hide Streamed, DecodeStep, Decode, ApplyAll, Screens, TxOf, Element.Valid, ClaimsHold, EncodeAll;
    if Endorsed(env, w) {
      EndorsedIsDecoded(env, w);
      var tx := Signed(env, w.ctx);
      NoStrayScreens(w.ctx.changes, |tx.outputs|, Outputs(tx));
    }
  }

  /** Main safety theorem: in every run, an approved session is endorsed if and only if none of
      its acceptances was that of the last output of a batch with a change output due next. */
  lemma ApprovedExactlyIf(env: Env, es: seq<Event>, w: World)
    requires w == Run(env, es)
    ensures w.ctx.stage == Approved ==> (Endorsed(env, w) <==> InStep(env, es))
  {
    hide InStep, Endorsed, Lost, Sound, Run;
    if InStep(env, es) {
      ApprovedIsEndorsed(env, es, w);
    } else {
      OutOfStepIsLost(env, es);
      RunSound(env, es);
      if w.ctx.stage == Approved { LostIsNotEndorsed(env, w); }
    }
  }

  /** Without change entries every approval is endorsed, however the transaction was cut. */
  lemma NoChangeIsEndorsed(env: Env, es: seq<Event>, w: World)
    requires w == Run(env, es)
    ensures w.ctx.stage == Approved && w.ctx.changes == [] ==> InStep(env, es) && Endorsed(env, w)
  {
    hide InStep, Endorsed, Run;
    if !InStep(env, es) { OutOfStepIsLost(env, es); }
    ApprovedExactlyIf(env, es, w);
  }
}
