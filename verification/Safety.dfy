/** What was shown is what is signed: the review invariant of a session, exactly when it holds,
    and what an approved session has established. */
module Safety {
  import opened Bytes
  import opened Decoder
  import opened Prelude
  import opened Review
  import opened Transaction
  import opened Session

  /** The screens of those of the outputs `outs` that are not listed as change, in order. */
  function Screens(changes: seq<Change>, outputsLen: nat, outs: seq<Output>): seq<Prompt> {
    if outs == [] then []
    else
      var n := |outs| - 1;
      Screens(changes, outputsLen, outs[..n]) +
      if IsChangeIndex(changes, n) then [] else [Screen(changes, outputsLen, outs[n])]
  }

  /** Everything confirmed so far was either accepted on screen, in order, or is listed as change. */
  predicate Reviewed(env: Env, c: Context, accepted: seq<Prompt>) {
    && Aligned(c) && Streamed(env, c)
    && var outs := Stream(env, c).outs;
       && |outs| == c.dec.current && |c.batch| <= |outs|
       && c.batch == outs[|outs| - |c.batch|..]
       && c.confirmed <= |outs|
       && accepted == Screens(c.changes, c.dec.outputsLen, outs[..c.confirmed])
  }

  /** The review position matches what the device is doing. */
  predicate AtRest(c: Context) {
    match c.stage
    case RecvData =>
      (match c.prompt
       case NoPrompt => c.batch == [] && c.display == 0 && c.confirmed < c.dec.outputsLen
       case ShowOutput(_, _, _) =>
         && c.display < |c.batch| && !IsChangeIndex(c.changes, c.confirmed)
         && c.prompt == Screen(c.changes, c.dec.outputsLen, c.batch[c.display])
       case _ => false)
    case _ => c.confirmed == c.dec.outputsLen
  }

  /** The session invariant. A session with no outputs declared never leaves RecvData. */
  predicate InSync(env: Env, w: World) {
    && Sound(env, w.ctx)
    && (w.ctx.stage == Idle || w.ctx.dec.outputsLen == 0 || (Reviewed(env, w.ctx, w.accepted) && AtRest(w.ctx)))
  }

  /** The one situation in which the device loses step: the user accepts the last output of a
      batch and the next output of the transaction is listed as change. */
  predicate Straddles(c: Context) {
    && c.prompt.ShowOutput?
    && c.display + 1 == |c.batch| && IsChangeIndex(c.changes, c.confirmed + 1)
  }

  // ---- one review round ----

  /** What a review round does from aligned counters: pass the change outputs, then show the
      next output, ask for more data, or ask to send. */
  function Settle(c: Context): Outcome
    requires Aligned(c)
  {
    var c' := PastChanges(c);
    if c'.confirmed == c.dec.outputsLen then Outcome(c'.(stage := Parsed, prompt := ConfirmSend), NoReply)
    else if c'.display == |c.batch| then
      Outcome(c'.(batch := [], display := 0, prompt := NoPrompt), Status(SW_OK))
    else Outcome(c'.(prompt := Screen(c.changes, c.dec.outputsLen, c.batch[c'.display])), NoReply)
  }

  lemma DisplaySettles(c: Context)
    requires Aligned(c) && (c.display == |c.batch| ==> !IsChangeIndex(c.changes, c.confirmed))
    ensures DisplayOutputs(c) == Settle(c)
  {
    SkipIsPastChanges(c);
    hide SkipChanges;
  }

  lemma ConfirmSettles(c: Context)
    requires Aligned(Advance(c))
    requires Advance(c).display == |c.batch| ==> !IsChangeIndex(c.changes, Advance(c).confirmed)
    ensures ConfirmOutput(c, true) == Settle(Advance(c))
  {
    var c1 := Advance(c);
    var c2 := PastChanges(c1);
    SkipIsPastChanges(c1);
    hide SkipChanges, DisplayOutputs;
    if c2 == c1 || CheckIndex(c2).Open? {
      assert PastChanges(c2) == c2;
      DisplaySettles(c2);
    }
  }

  /** Passing outputs listed as change adds no screen. */
  lemma {:induction false} ChangesAddNoScreen(changes: seq<Change>, outputsLen: nat, outs: seq<Output>, i: nat, j: nat)
    requires i <= j <= |outs|
    requires forall k :: i <= k < j ==> IsChangeIndex(changes, k)
    ensures Screens(changes, outputsLen, outs[..j]) == Screens(changes, outputsLen, outs[..i])
    decreases j
  {
    if i == j {
    } else {
      assert outs[..j][..j - 1] == outs[..j - 1];
      ChangesAddNoScreen(changes, outputsLen, outs, i, j - 1);
    }
  }

  lemma SettleInSync(env: Env, c: Context, accepted: seq<Prompt>)
    requires Sound(env, c.(prompt := NoPrompt)) && c.stage == RecvData && c.dec.outputsLen > 0
    requires Reviewed(env, c, accepted)
    ensures InSync(env, World(Settle(c).ctx, accepted))
  {
    hide Decode, DecodeStep, PastChanges, Screens;
    var c' := PastChanges(c);
    ChangesAddNoScreen(c.changes, c.dec.outputsLen, Stream(env, c).outs, c.confirmed, c'.confirmed);
  }

  // ---- every event ----

  /** A batch just decoded is about to be reviewed from its first output. */
  lemma BatchReviewed(env: Env, c: Context, before: seq<Output>, accepted: seq<Prompt>)
    requires c.request == ConfirmTransaction && c.batch == [] && c.display == 0
    requires Feeds(env, c, before) && c.confirmed == |before| == c.dec.current <= c.dec.outputsLen < 256
    requires accepted == Screens(c.changes, c.dec.outputsLen, before)
    requires var v := Decode(env, c.changes, c.dec, c.buffer);
             v.Ready? && |v.outs| <= OUTPUT_SLOTS
    ensures var v := Decode(env, c.changes, c.dec, c.buffer);
            Reviewed(env, c.(dec := v.dec, buffer := v.rest, batch := v.outs), accepted)
  {
    hide Decode, DecodeStep, Screens;
    var v := Decode(env, c.changes, c.dec, c.buffer);
    var c' := c.(dec := v.dec, buffer := v.rest, batch := v.outs);
    var outs := Stream(env, c').outs;
    assert outs == before + v.outs;
    assert outs[..c'.confirmed] == before;
    assert v.outs == outs[|before|..];
  }

  lemma ReceiveInSync(env: Env, c: Context, before: seq<Output>, accepted: seq<Prompt>)
    requires c.stage == RecvData && c.prompt == NoPrompt && c.request == ConfirmTransaction
    requires |c.changes| <= TX_MAX_TOKENS + 1 && c.hash.rounds == 0 && c.sighash == NoDigest()
    requires c.dec.current <= c.dec.outputsLen < 256 && c.batch == [] && c.display == 0
    requires c.dec.outputsLen > 0 ==>
               && Feeds(env, c, before) && c.confirmed == |before| == c.dec.current < c.dec.outputsLen
               && accepted == Screens(c.changes, c.dec.outputsLen, before)
    ensures InSync(env, World(Receive(env, c).ctx, accepted))
  {
    ReceiveSound(env, c, before);
    LeftoverIsPartial(env, c.changes, c.dec, c.buffer);
    hide Decode, DecodeStep, DisplayOutputs, Screens, Settle, Feeds;
    var v := Decode(env, c.changes, c.dec, c.buffer);
    if c.dec.outputsLen > 0 && v.Ready? && |v.outs| <= OUTPUT_SLOTS {
      var c' := c.(dec := v.dec, buffer := v.rest, batch := v.outs);
      BatchReviewed(env, c, before, accepted);
      if v.outs != [] {
        ReviewedSound(env, c', accepted);
        hide Sound, Reviewed;
        DisplaySettles(c');
        SettleInSync(env, c', accepted);
      }
    }
  }

  lemma ReviewedSound(env: Env, c: Context, accepted: seq<Prompt>)
    requires Reviewed(env, c, accepted) && c.stage == RecvData && c.dec.outputsLen > 0
    requires |c.changes| <= TX_MAX_TOKENS + 1 && c.hash.rounds == 0 && c.sighash == NoDigest()
    ensures Sound(env, c.(prompt := NoPrompt))
  {
    LeftoverIsPartial(env, c.changes, StartOf(c.hash.message), c.hash.message[5..]);
    hide Decode, DecodeStep;
  }

  lemma FirstChunkInSync(env: Env, bytes: Payload)
    ensures InSync(env, World(FirstChunk(env, bytes).ctx, []))
  {
    FirstChunkSound(env, bytes);
    hide ReadChangeInfo, Decode, DecodeStep, Receive, Sound, Reviewed;
    var r := ReadChangeInfo(bytes);
    if r.Accepted? {
      var rest := bytes[r.used..];
      if |rest| >= 5 {
        var c := Opened(r.changes, rest);
        AfterNothing(Decode(env, c.changes, c.dec, c.buffer));
        ReceiveInSync(env, c, [], []);
      }
    }
  }

  lemma NextChunkInSync(env: Env, w: World, bytes: Payload)
    requires InSync(env, w) && w.ctx.stage == RecvData && w.ctx.prompt == NoPrompt && bytes != []
    ensures InSync(env, World(NextChunk(env, Entered(w.ctx), bytes).ctx, w.accepted))
  {
    var c := Entered(w.ctx);
    hide Decode, DecodeStep, Receive, Screens;
    assert Sound(env, c);
    BufferSuffices(env, c, bytes);
    var c' := c.(hash := c.hash.(message := c.hash.message + bytes), buffer := c.buffer + bytes);
    if c.dec.outputsLen > 0 {
      ChunkFeeds(env, c, bytes);
      var outs := Stream(env, c).outs;
      assert outs[..c.confirmed] == outs;
      ReceiveInSync(env, c', outs, w.accepted);
    } else {
      ReceiveInSync(env, c', [], w.accepted);
    }
  }

  /** Commands other than data leave an approved review as it is. */
  lemma EnteredInSync(env: Env, w: World)
    requires InSync(env, w) && w.ctx.prompt == NoPrompt
    ensures InSync(env, World(Entered(w.ctx), w.accepted))
  {
    hide Decode, DecodeStep, Screens;
  }

  lemma FinalisedInSync(env: Env, w: World)
    requires InSync(env, w) && w.ctx.stage == Approved
    ensures InSync(env, World(Finalised(env, w.ctx), w.accepted))
  {
    hide Decode, DecodeStep, Screens, IsChangeIndex, Aligned, AtRest;
    SamePosition(w.ctx, Finalised(env, w.ctx));
  }

  lemma SignInSync(env: Env, w: World, bytes: seq<byte>)
    requires InSync(env, w) && w.ctx.prompt == NoPrompt
    ensures InSync(env, World(HandleSign(env, Entered(w.ctx), bytes).ctx, w.accepted))
  {
    hide InSync, ReadPath, Finalised;
    EnteredInSync(env, w);
    ClearedSound(env);
    IdleInSync(env, World(Cleared(), w.accepted));
    if w.ctx.stage == Approved { FinalisedInSync(env, World(Entered(w.ctx), w.accepted)); }
  }

  lemma SamePosition(c: Context, c': Context)
    requires c'.stage == c.stage && c'.prompt == c.prompt && c'.batch == c.batch && c'.display == c.display
    requires c'.confirmed == c.confirmed && c'.dec == c.dec && c'.changes == c.changes && c'.request == c.request
    ensures AtRest(c') == AtRest(c) && Aligned(c') == Aligned(c)
  {
    hide IsChangeIndex, Screen;
  }

  lemma AcceptReviewed(env: Env, c: Context, accepted: seq<Prompt>)
    requires Reviewed(env, c, accepted) && AtRest(c) && c.prompt.ShowOutput? && c.stage == RecvData
    ensures Reviewed(env, Advance(c), accepted + [c.prompt])
  {
    hide Decode, DecodeStep, Screen, IsChangeIndex;
    var outs := Stream(env, c).outs;
    assert c.batch[c.display] == outs[c.confirmed];
    assert outs[..c.confirmed + 1][..c.confirmed] == outs[..c.confirmed];
  }

  lemma AcceptKeepsStep(env: Env, w: World)
    requires InSync(env, w) && w.ctx.prompt.ShowOutput? && w.ctx.stage == RecvData && w.ctx.dec.outputsLen > 0
    requires !Straddles(w.ctx)
    ensures InSync(env, World(ConfirmOutput(w.ctx, true).ctx, w.accepted + [w.ctx.prompt]))
  {
    var c := w.ctx;
    AcceptReviewed(env, c, w.accepted);
    assert Aligned(Advance(c));
    ReviewedSound(env, Advance(c), w.accepted + [c.prompt]);
    hide Sound, Reviewed, ConfirmOutput, Settle;
    ConfirmSettles(c);
    SettleInSync(env, Advance(c), w.accepted + [c.prompt]);
  }

  lemma AcceptLosesStep(env: Env, w: World, accepted: seq<Prompt>)
    requires InSync(env, w) && w.ctx.stage == RecvData && w.ctx.dec.outputsLen > 0
    requires Straddles(w.ctx)
    ensures !InSync(env, World(ConfirmOutput(w.ctx, true).ctx, accepted))
  {
    hide Streamed, DecodeStep, Screens, ConfirmOutput;
    ConfirmLosesStep(w.ctx);
  }

  /** Accepting an output keeps step exactly when the device is not at the end of a batch with
      a change output due next. */
  lemma AcceptInSync(env: Env, w: World, w': World)
    requires InSync(env, w) && w.ctx.prompt.ShowOutput? && w' == Next(env, w, Accept)
    ensures InSync(env, w') <==> !Straddles(w.ctx)
  {
    assert w.ctx.stage == RecvData && w.ctx.dec.outputsLen > 0;
    hide InSync, ConfirmOutput, Straddles;
    if Straddles(w.ctx) {
      AcceptLosesStep(env, w, w.accepted + [w.ctx.prompt]);
    } else {
      AcceptKeepsStep(env, w);
    }
  }

  lemma {:induction false} SkipLosesStep(c: Context, sorted: seq<byte>)
    requires c.confirmed in sorted && c.display == |c.batch| && c.display + |sorted| + 1 < 256
    requires c.request == ConfirmTransaction && c.stage == RecvData
    ensures var r := SkipFrom(c, sorted);
            && RanPast(c, r.ctx) && r.ctx.display <= c.display + |sorted|
            && (r.Halted? <==> r.ctx.stage == Parsed)
    decreases |sorted|
  {
    if c.confirmed == sorted[0] {
      PastStep(c, sorted);
    } else {
      SkipLosesStep(c, sorted[1..]);
    }
  }

  lemma DisplayStaysPast(c: Context)
    requires |c.batch| < c.display <= 21 && c.confirmed < 256 && |c.changes| <= TX_MAX_TOKENS + 1
    requires c.request == ConfirmTransaction && c.stage == RecvData
    ensures var r := DisplayOutputs(c).ctx;
            RanPast(c, r) && r.display <= 32 && (r.stage == RecvData ==> r.prompt == ShowStray)
  {
    hide Sorted, SkipFrom;
    CheckPast(c);
    SortedLength(Indices(c.changes));
    if c.changes != [] { SkipStaysPast(c, Sorted(Indices(c.changes))); }
  }

  lemma SortedLength(s: seq<byte>)
    ensures |Sorted(s)| == |s|
  {
    assert |multiset(Sorted(s))| == |multiset(s)|;
  }

  lemma PastOrigin(c: Context, r: Context)
    requires RanPast(c, r)
    ensures Drifted(c, r) && r.confirmed < 256 && |r.batch| < r.display
    ensures r.request == c.request && r.changes == c.changes
  {
  }

  lemma StraddlingSkip(c: Context)
    requires Straddles(c) && c.stage == RecvData && c.request == ConfirmTransaction
    requires |c.batch| <= OUTPUT_SLOTS && |c.changes| <= TX_MAX_TOKENS + 1 && c.confirmed < 255
    ensures var r := SkipChanges(Advance(c));
            RanPast(Advance(c), r.ctx) && r.ctx.display <= 21 && (r.Halted? <==> r.ctx.stage == Parsed)
  {
    hide Sorted, SkipFrom, RanPast;
    SortedLength(Indices(c.changes));
    IndicesHold(c.changes, c.confirmed + 1);
    SkipLosesStep(Advance(c), Sorted(Indices(c.changes)));
  }

  /** A straddling acceptance runs past the batch: the device asks to send, or shows an output
      screen with nothing queued for it. */
  lemma ConfirmLosesStep(c: Context)
    requires Straddles(c) && c.stage == RecvData && c.request == ConfirmTransaction
    requires |c.batch| <= OUTPUT_SLOTS && |c.changes| <= TX_MAX_TOKENS + 1 && c.confirmed < 255
    ensures var r := ConfirmOutput(c, true).ctx;
            RanPast(c, r) && r.display <= 32 && (r.stage == RecvData ==> r.prompt == ShowStray)
  {
    hide SkipChanges, DisplayOutputs;
    var c1 := Advance(c);
    AdvanceDrifts(c);
    StraddlingSkip(c);
    var r1 := SkipChanges(c1);
    PastOrigin(c1, r1.ctx);
    if r1.Open? {
      DisplayStaysPast(r1.ctx);
      hide Drifted;
      DriftFurther(c1, r1.ctx, DisplayOutputs(r1.ctx).ctx);
    }
    hide RanPast;
    DriftFurther(c, c1, ConfirmOutput(c, true).ctx);
  }

  // ---- runs ----

  lemma EventInSync(env: Env, w: World, e: Event)
    requires InSync(env, w) && !(e == Accept && w.ctx.prompt.ShowOutput?)
    ensures InSync(env, Next(env, w, e))
  {
    hide Decode, DecodeStep, Screens, FirstChunk, NextChunk, HandleSign, ConfirmOutput;
    var c := w.ctx;
    match e {
      case Data(chunk, bytes) =>
        FirstChunkInSync(env, bytes);
        if c.stage == RecvData && c.prompt == NoPrompt && bytes != [] { NextChunkInSync(env, w, bytes); }
        hide Reviewed, AtRest;
      case Sign(path) =>
        if c.prompt == NoPrompt { SignInSync(env, w, path); }
      case Reject => RejectClears(c);
      case _ =>
    }
  }

  /** Every event but accepting an output keeps step, and that one does unless it straddles. */
  lemma StepInSync(env: Env, w: World, e: Event)
    requires InSync(env, w)
    ensures InSync(env, Next(env, w, e)) <==> !(e == Accept && Straddles(w.ctx))
  {
    hide InSync, Next;
    if e == Accept && w.ctx.prompt.ShowOutput? {
      AcceptInSync(env, w, Next(env, w, Accept));
    } else {
      EventInSync(env, w, e);
    }
  }

  /** No acceptance of the session under way has straddled a batch end and a change output. */
  predicate InStep(env: Env, es: seq<Event>) {
    || es == []
    || Run(env, es).ctx.stage == Idle
    || (&& InStep(env, es[..|es| - 1])
        && !(es[|es| - 1] == Accept && Straddles(Run(env, es[..|es| - 1]).ctx)))
  }

  lemma RunNext(env: Env, es: seq<Event>, e: Event)
    ensures Run(env, es + [e]) == Next(env, Run(env, es), e)
  {
    assert (es + [e])[..|es|] == es;
  }

  /** In every run, a session none of whose acceptances straddled is in step. */
  lemma {:induction false} RunInSync(env: Env, es: seq<Event>)
    requires InStep(env, es)
    ensures InSync(env, Run(env, es))
    decreases |es|
  {
    hide InSync, Straddles, Next;
    RunSound(env, es);
    if es == [] {
      PowerUpInSync(env);
    } else if Run(env, es).ctx.stage == Idle {
      IdleInSync(env, Run(env, es));
    } else {
      var front, e := es[..|es| - 1], es[|es| - 1];
      RunInSync(env, front);
      StepInSync(env, Run(env, front), e);
    }
  }

  lemma IdleInSync(env: Env, w: World)
    requires Sound(env, w.ctx) && w.ctx.stage == Idle
    ensures InSync(env, w)
  {
  }

  lemma PowerUpInSync(env: Env)
    ensures InSync(env, World(Cleared(), []))
  {
  }
}
