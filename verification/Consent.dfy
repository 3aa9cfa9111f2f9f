/** What only the user's buttons can do, what every command is answered, and how sessions end. */
module Consent {
  import opened Bytes
  import opened Decoder
  import opened Prelude
  import opened Review
  import opened Session
  import opened Safety
  import opened Approval
  import opened Transaction

  // ---- the buttons ----

  /** A session becomes approved by the accept button at "Send transaction?", and by nothing else. */
  lemma ApprovingEvent(env: Env, c: Context, e: Event, r: Outcome)
    requires Sound(env, c) && c.stage != Approved && r == React(env, c, e)
    ensures r.ctx.stage == Approved <==> e == Accept && c.prompt == ConfirmSend
    ensures r.ctx.stage == Approved ==> r.reply == Status(SW_OK) && r.ctx == c.(stage := Approved, prompt := NoPrompt)
  {
    hide Decode, DecodeStep, Streamed, HandleData, ReadPath, ConfirmOutput;
    match e {
      case Data(chunk, bytes) => ReceivingNotApproved(env, Entered(c), chunk, bytes);
      case Accept => if c.prompt != NoPrompt && c.prompt != ConfirmSend { ConfirmFrame(c); }
      case Reject => RejectClears(c);
      case _ =>
    }
  }

  /** Rejecting at any prompt, that of an output or the one to send, ends the session. */
  lemma RejectingEnds(env: Env, c: Context)
    requires c.prompt != NoPrompt
    ensures React(env, c, Reject) == Outcome(Cleared(), Status(SW_DENY))
  {
  }

  /** In every run, a session is approved exactly if the user accepted at "Send transaction?" and
      the session has been approved ever since. */
  lemma {:induction false} ApprovalWasGiven(env: Env, es: seq<Event>, w: World)
    requires w == Run(env, es)
    ensures w.ctx.stage == Approved
       <==> exists j :: 0 <= j < |es| && es[j] == Accept && Run(env, es[..j]).ctx.prompt == ConfirmSend
              && forall i :: j < i <= |es| ==> Run(env, es[..i]).ctx.stage == Approved
    decreases |es|
  {
    hide Next, Sound, React;
    assert es[..|es|] == es;
    if w.ctx.stage == Approved {
      var front, e := es[..|es| - 1], es[|es| - 1];
      var v := Run(env, front);
      RunSound(env, front);
      assert forall i :: 0 <= i < |es| ==> front[..i] == es[..i];
      if v.ctx.stage == Approved {
        ApprovalWasGiven(env, front, v);
      } else {
        Nexts(env, v, e);
        ApprovingEvent(env, v.ctx, e, React(env, v.ctx, e));
        assert es[|es| - 1] == Accept && Run(env, es[..|es| - 1]).ctx.prompt == ConfirmSend;
      }
    }
  }

  lemma Nexts(env: Env, w: World, e: Event)
    ensures Next(env, w, e).ctx == React(env, w.ctx, e).ctx
  {
  }

  // ---- the end of a session ----

  /** Outside data commands, exactly these end a session: rejecting; and, with no prompt pending, the
      done command, any command of another kind, and in an approved session leaving the processing
      screen or asking for a signature with an empty path. */
  lemma EndingEvent(env: Env, c: Context, e: Event)
    requires Sound(env, c) && c.stage != Idle && !e.Data?
    ensures React(env, c, e).ctx.stage == Idle
       <==> || (e == Reject && c.prompt != NoPrompt)
            || (c.prompt == NoPrompt && (e == Done || e == OtherCommand))
            || (c.stage == Approved && (e == Quit || (e.Sign? && ReadPath(e.path) == Some([]))))
    ensures React(env, c, e).ctx.stage == Idle ==> React(env, c, e).ctx == Cleared()
  {
    hide Decode, DecodeStep, Streamed, ReadPath, ConfirmOutput, Finalised;
    match e {
      case Accept => if c.prompt != NoPrompt && c.prompt != ConfirmSend { ConfirmFrame(c); }
      case Reject => RejectClears(c);
      case Sign(_) => FinalisedStage(env, Entered(c));
      case _ =>
    }
  }

  lemma FinalisedStage(env: Env, c: Context)
    ensures Finalised(env, c).stage == c.stage
  {
  }

  /** After done, a command of another kind, a data command, or leaving the processing screen, an
      approved session signs nothing any more: every later signature has had its own approval. */
  lemma EndedSignsNothing(env: Env, es: seq<Event>, k: nat, path: Payload)
    requires k < |es| && Run(env, es[..k]).ctx.stage == Approved
    requires es[k] == Done || es[k] == Quit || es[k] == OtherCommand || (es[k].Data? && es[k].bytes != [])
    requires React(env, Run(env, es).ctx, Sign(path)).reply.Signature?
    ensures exists j :: k < j < |es| && es[j] == Accept && Run(env, es[..j]).ctx.prompt == ConfirmSend
  {
    hide Run, React, Sound, ReadPath;
    var c := Run(env, es[..k]).ctx;
    RunSound(env, es[..k]);
    assert es[..k + 1] == es[..k] + [es[k]];
    RunNext(env, es[..k], es[k]);
    Nexts(env, Run(env, es[..k]), es[k]);
    ApprovedEnds(env, c, es[k]);
    SignatureOnlyWhenApproved(env, Run(env, es).ctx, Sign(path));
    ApprovalWasGiven(env, es, Run(env, es));
  }

  lemma ApprovedEnds(env: Env, c: Context, e: Event)
    requires Sound(env, c) && c.stage == Approved
    requires e == Done || e == Quit || e == OtherCommand || (e.Data? && e.bytes != [])
    ensures React(env, c, e).ctx.stage == Idle
  {
    hide Streamed, DecodeStep, Decode;
  }

  // ---- what commands are answered ----

  /** While a prompt is pending, only the buttons do anything. */
  lemma PromptBlocks(env: Env, c: Context, e: Event)
    requires Sound(env, c) && c.prompt != NoPrompt && e != Accept && e != Reject
    ensures React(env, c, e) == Outcome(c, NoReply)
  {
    hide Streamed, DecodeStep, Decode;
  }

  /** With no prompt pending a command out of order or without data is refused: data to an approved
      session, a later chunk without a session, a first chunk to an open one, a signature that was
      not approved or whose path cannot be read. Data out of order ends the session. */
  lemma Refusals(env: Env, c: Context, e: Event, r: Outcome)
    requires c.prompt == NoPrompt && r == React(env, c, e)
    ensures (e.Data? && e.bytes == []) || (e.Sign? && e.path == []) ==> r == Outcome(c, Status(SW_WRONG_DATA_LENGTH))
    ensures e.Data? && e.bytes != [] && (c.stage == Approved || (e.chunk == 0 <==> c.stage == RecvData)) ==>
              r == Outcome(Cleared(), Status(SW_BAD_STATE))
    ensures e.Sign? && e.path != [] && c.stage != Approved ==>
              r.ctx.stage == c.stage && r.reply == Status(SW_BAD_STATE)
    ensures e.Sign? && e.path != [] && c.stage == Approved && ReadPath(e.path).None? ==>
              r.ctx.stage == c.stage && r.reply == Status(SW_WRONG_DATA_LENGTH)
  {
    hide ReadPath, FirstChunk, NextChunk;
  }

  /** The reply of a step that the session survives: done, unless the user is asked something. */
  predicate ReplyFits(r: Outcome) {
    r.reply == if r.ctx.prompt == NoPrompt then Status(SW_OK) else NoReply
  }

  lemma {:induction false} SkipReplies(c: Context, sorted: seq<byte>)
    requires c.request == ConfirmTransaction
    ensures var r := SkipFrom(c, sorted);
            && r.ctx.request == ConfirmTransaction
            && (r.Halted? ==> ReplyFits(Outcome(r.ctx, r.reply)))
    decreases |sorted|
  {
    if sorted == [] {
    } else {
      if c.confirmed == sorted[0] {
        if CheckIndex(Advance(c)).Open? { SkipReplies(Advance(c), sorted[1..]); }
      } else {
        SkipReplies(c, sorted[1..]);
      }
    }
  }

  lemma DisplayReplies(c: Context)
    requires c.request == ConfirmTransaction
    ensures ReplyFits(DisplayOutputs(c))
  {
    hide SkipFrom, Sorted;
    SkipReplies(c, Sorted(Indices(c.changes)));
  }

  /** Accepting at any prompt is answered exactly when it was the last one: the device is done with
      the chunk, or approved. */
  lemma AcceptReplies(env: Env, c: Context, r: Outcome)
    requires Sound(env, c) && c.prompt != NoPrompt && r == React(env, c, Accept)
    ensures r.reply == if r.ctx.prompt == NoPrompt then Status(SW_OK) else NoReply
  {
    hide SkipFrom, Sorted, DisplayOutputs, Streamed, DecodeStep;
    SkipReplies(Advance(c), Sorted(Indices(c.changes)));
    var round := SkipChanges(Advance(c));
    if round.Open? { DisplayReplies(round.ctx); }
  }

  lemma ReceiveReplies(env: Env, c: Context)
    requires c.request == ConfirmTransaction && c.prompt == NoPrompt && c.stage == RecvData
    ensures var r := Receive(env, c);
            if r.ctx.stage == Idle then r == Outcome(Cleared(), Status(SW_INVALID_TX)) else ReplyFits(r)
    ensures Receive(env, c).ctx.stage == Idle
       <==> var v := Decode(env, c.changes, c.dec, c.buffer); v.Failed? || |v.outs| > OUTPUT_SLOTS
  {
    hide Decode, DisplayOutputs;
    var v := Decode(env, c.changes, c.dec, c.buffer);
    if v.Ready? {
      var c' := c.(dec := v.dec, buffer := v.rest, batch := v.outs);
      DisplayReplies(c');
      DisplayFrame(c');
    }
  }

  /** A later chunk that is due is answered SW_INVALID_TX exactly if it ends the session, nothing if
      it puts an output on the screen, and SW_OK otherwise; it ends the session exactly if what was
      received so far, decoded in one pass, is no beginning of a transaction. */
  lemma ChunkReplies(env: Env, c: Context, chunk: byte, bytes: Payload, r: Outcome)
    requires Sound(env, c) && c.stage == RecvData && c.prompt == NoPrompt && c.dec.outputsLen > 0
    requires chunk > 0 && bytes != [] && r == React(env, c, Data(chunk, bytes))
    ensures r.reply == if r.ctx.stage == Idle then Status(SW_INVALID_TX)
                       else if r.ctx.prompt == NoPrompt then Status(SW_OK)
                       else NoReply
    ensures r.ctx.stage == Idle ==> r.ctx == Cleared()
    ensures |c.hash.message| >= 5
    ensures var m := c.hash.message + bytes;
            r.ctx.stage == Idle <==> Decode(env, c.changes, StartOf(m), m[5..]).Failed?
  {
    hide Decode, DecodeStep, Receive;
    var c1 := Entered(c);
    assert Sound(env, c1);
    BufferSuffices(env, c1, bytes);
    ChunkFeeds(env, c1, bytes);
    var c2 := c1.(hash := c.hash.(message := c.hash.message + bytes), buffer := c.buffer + bytes);
    ReceiveReplies(env, c2);
  }

  /** A first chunk that is due: change information that cannot be read is refused as such and a missing
      header as too short; both leave a session that knows of no outputs. Otherwise it is answered as
      later chunks are. */
  lemma FirstChunkReplies(env: Env, c: Context, bytes: Payload, r: Outcome)
    requires c.stage != RecvData && c.stage != Approved && c.prompt == NoPrompt && bytes != []
    requires r == React(env, c, Data(0, bytes))
    ensures var info := ReadChangeInfo(bytes);
            if info.Refused? || |bytes| < info.used + 5 then
              && r.reply == Status(if info.Refused? then info.sw else SW_WRONG_DATA_LENGTH)
              && r.ctx.stage == RecvData && r.ctx.dec.outputsLen == 0 && r.ctx.prompt == NoPrompt
            else
              r.reply == if r.ctx.stage == Idle then Status(SW_INVALID_TX)
                         else if r.ctx.prompt == NoPrompt then Status(SW_OK)
                         else NoReply
  {
    hide ReadChangeInfo, Receive;
    var info := ReadChangeInfo(bytes);
    if info.Accepted? && |bytes| >= info.used + 5 {
      ReceiveReplies(env, Opened(info.changes, bytes[info.used..]));
    }
  }
}
