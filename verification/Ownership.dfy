/** Whose outputs may go unseen: those this wallet owns. An output that a change entry claims wrongly
    ends the session. */
module Ownership {
  import opened Bytes
  import opened Deserialize
  import opened Decoder
  import opened Prelude
  import opened Review
  import opened Transaction
  import opened Session
  import opened Safety
  import opened Approval
  import opened Consent
  import opened Exchange
  import Honest

  // ---- what is decoded is owned ----

  lemma StepOutputs(env: Env, changes: seq<Change>, d: Counters, buf: seq<byte>)
    ensures var s := DecodeStep(env, changes, d, buf);
            s.Took? ==>
              && |s.dec.tokens| >= |d.tokens|
              && forall i :: 0 <= i < |s.outs| ==>
                   && s.outs[i].index == d.current + i
                   && s.outs[i].tokenData < 0x80 && s.outs[i].tokenData <= |d.tokens|
                   && forall k :: 0 <= k < |changes| && changes[k].index == s.outs[i].index ==>
                        env.owns(changes[k].path, s.outs[i].pkh)
  {
    hide ParseOutput;
  }

  /** Every decoded output carries its position and a token of the transaction, is no authority, and
      is owned by this wallet under every path that a change entry lists for it. */
  lemma {:induction false} DecodedOutputs(env: Env, changes: seq<Change>, d: Counters, buf: seq<byte>, v: Verdict)
    requires v == Decode(env, changes, d, buf) && v.Ready?
    ensures |v.dec.tokens| >= |d.tokens|
    ensures forall i :: 0 <= i < |v.outs| ==>
              v.outs[i].index == d.current + i && v.outs[i].tokenData < 0x80 && v.outs[i].tokenData <= |v.dec.tokens|
    ensures forall i, k :: 0 <= i < |v.outs| && 0 <= k < |changes| && changes[k].index == v.outs[i].index ==>
              env.owns(changes[k].path, v.outs[i].pkh)
    decreases |buf|
  {
    hide DecodeStep;
    StepOutputs(env, changes, d, buf);
    var s := DecodeStep(env, changes, d, buf);
    if s.Took? && s.n < |buf| {
      DecodedOutputs(env, changes, s.dec, buf[s.n..], Decode(env, changes, s.dec, buf[s.n..]));
    }
  }

  /** In every run, in step or not, this wallet owns every output decoded so far under each path
      that a change entry lists for it. */
  lemma DecodedChangeIsOwned(env: Env, es: seq<Event>, c: Context)
    requires c == Run(env, es).ctx && c.stage != Idle && c.dec.outputsLen > 0
    ensures |c.hash.message| >= 5 && Stream(env, c).Ready?
    ensures var outs := Stream(env, c).outs;
            && |outs| == c.dec.current
            && forall k :: 0 <= k < |c.changes| && c.changes[k].index < |outs| ==>
                 env.owns(c.changes[k].path, outs[c.changes[k].index].pkh)
  {
    hide Run, Decode, DecodeStep;
    RunSound(env, es);
    var m := c.hash.message;
    DecodedOutputs(env, c.changes, StartOf(m), m[5..], Stream(env, c));
  }

  lemma AppliedStep(env: Env, changes: seq<Change>, d: Counters, e: Element)
    requires Apply(env, changes, d, e).Some?
    ensures var d' := Apply(env, changes, d, e).value.0;
            |d'.tokens| + d'.remTokens == |d.tokens| + d.remTokens
    ensures e.TokenUid? ==> Registered(env.registry, e.uid)
    ensures e.TxOutput? ==> e.tokenData < 0x80 && e.tokenData <= |d.tokens| + d.remTokens
  {
  }

  /** Acceptable elements name registered tokens and tokens that the transaction declares. */
  lemma {:induction false} AppliedAreFine(env: Env, changes: seq<Change>, d: Counters, es: seq<Element>)
    requires ApplyAll(env, changes, d, es).Some?
    ensures forall i :: 0 <= i < |es| ==>
              && (es[i].TokenUid? ==> Registered(env.registry, es[i].uid))
              && (es[i].TxOutput? ==> es[i].tokenData < 0x80 && es[i].tokenData <= |d.tokens| + d.remTokens)
    decreases |es|
  {
    hide Apply, Registered;
    if es == [] {
    } else {
      AppliedStep(env, changes, d, es[0]);
      AppliedAreFine(env, changes, Apply(env, changes, d, es[0]).value.0, es[1..]);
      assert forall i :: 0 < i < |es| ==> es[i] == es[1..][i - 1];
    }
  }

  /** Main ownership theorem: when a session in step is approved, this wallet owns every output listed
      as change, under every path listed for it; every token is registered; no output is an authority,
      and each names HTR or a token of the transaction. */
  lemma ApprovedIsOwned(env: Env, es: seq<Event>, w: World)
    requires w == Run(env, es)
    ensures InStep(env, es) && w.ctx.stage == Approved ==>
              && |w.ctx.hash.message| >= 5
              && var tx, changes := Signed(env, w.ctx), w.ctx.changes;
                 && tx.Valid() && w.ctx.hash.message == tx.Serialize()
                 && (forall i, k :: 0 <= i < |tx.outputs| && 0 <= k < |changes| && changes[k].index == i ==>
                       env.owns(changes[k].path, tx.outputs[i].pkh))
                 && (forall i :: 0 <= i < |tx.tokens| ==> Registered(env.registry, tx.tokens[i].uid))
                 && (forall i :: 0 <= i < |tx.outputs| ==>
                       tx.outputs[i].tokenData < 0x80 && tx.outputs[i].tokenData <= |tx.tokens|)
  {
    hide Run, InStep, Registered, Tx.Serialize;
    ApprovedIsEndorsed(env, es, w);
    if InStep(env, es) && w.ctx.stage == Approved { EndorsedIsOwned(env, w); }
  }

  lemma EndorsedIsOwned(env: Env, w: World)
    requires Endorsed(env, w)
    ensures var tx, changes := Signed(env, w.ctx), w.ctx.changes;
            && (forall i, k :: 0 <= i < |tx.outputs| && 0 <= k < |changes| && changes[k].index == i ==>
                  env.owns(changes[k].path, tx.outputs[i].pkh))
            && (forall i :: 0 <= i < |tx.tokens| ==> Registered(env.registry, tx.tokens[i].uid))
            && (forall i :: 0 <= i < |tx.outputs| ==>
                  tx.outputs[i].tokenData < 0x80 && tx.outputs[i].tokenData <= |tx.tokens|)
  {
    hide ApplyAll, Screens, Outputs, TxOf, Element.Valid, Tx.Serialize, Registered;
    var tx := Signed(env, w.ctx);
    AppliedAreFine(env, w.ctx.changes, tx.Start(), tx.Body());
    forall i | 0 <= i < |tx.tokens| ensures Registered(env.registry, tx.tokens[i].uid) {
      assert tx.Body()[i] == tx.tokens[i];
    }
    forall i | 0 <= i < |tx.outputs|
      ensures tx.outputs[i].tokenData < 0x80 && tx.outputs[i].tokenData <= |tx.tokens|
    {
      assert tx.Body()[|tx.tokens| + |tx.inputs| + i] == tx.outputs[i];
    }
  }

  // ---- what is not owned is refused ----

  lemma FalseClaimInvalid(env: Env, changes: seq<Change>, d: Counters, e: Element, tail: seq<byte>, k: nat)
    requires e.Valid() && e.TxOutput? && d.remTokens == 0 && d.remInputs == 0
    requires k < |changes| && changes[k].index == d.current && !env.owns(changes[k].path, e.pkh)
    ensures DecodeStep(env, changes, d, e.Encode() + tail).Invalid?
  {
    hide ParseOutput;
    ParseEncoded(e.wide, e.value, e.tokenData, e.pkh, tail);
  }

  /** However well the stream begins, an output that some entry claims without owning it fails it. */
  lemma {:induction false} FalseClaimFails(
      env: Env, changes: seq<Change>, d: Counters, es: seq<Element>, e: Element, tail: seq<byte>, k: nat)
    requires AllValid(es) && ApplyAll(env, changes, d, es).Some? && e.Valid() && e.TxOutput?
    requires var d' := ApplyAll(env, changes, d, es).value.0;
             && d'.remTokens == 0 && d'.remInputs == 0
             && k < |changes| && changes[k].index == d'.current && !env.owns(changes[k].path, e.pkh)
    ensures Decode(env, changes, d, EncodeAll(es) + (e.Encode() + tail)).Failed?
    decreases |es|
  {
    hide DecodeStep, Element.Encode, Element.Valid, Apply;
    var rest := e.Encode() + tail;
    if es == [] {
      assert EncodeAll(es) + rest == rest;
      FalseClaimInvalid(env, changes, d, e, tail, k);
    } else {
      var first, more := es[0].Encode(), EncodeAll(es[1..]) + rest;
      StepAccepts(env, changes, d, es[0], more);
      assert EncodeAll(es) + rest == first + more;
      assert (first + more)[|first|..] == more;
      FalseClaimFails(env, changes, Apply(env, changes, d, es[0]).value.0, es[1..], e, tail, k);
    }
  }

  /** In every run, a later chunk that brings such an output ends the session with an error. */
  lemma FalseClaimRefused(
      env: Env, es: seq<Event>, c: Context, chunk: byte, bytes: Payload,
      before: seq<Element>, e: Element, tail: seq<byte>, k: nat)
    requires c == Run(env, es).ctx && c.stage == RecvData && c.prompt == NoPrompt && c.dec.outputsLen > 0
    requires chunk > 0 && bytes != [] && |c.hash.message| >= 5
    requires AllValid(before) && ApplyAll(env, c.changes, StartOf(c.hash.message), before).Some?
    requires e.Valid() && e.TxOutput?
    requires (c.hash.message + bytes)[5..] == EncodeAll(before) + (e.Encode() + tail)
    requires var d := ApplyAll(env, c.changes, StartOf(c.hash.message), before).value.0;
             && d.remTokens == 0 && d.remInputs == 0
             && k < |c.changes| && c.changes[k].index == d.current && !env.owns(c.changes[k].path, e.pkh)
    ensures React(env, c, Data(chunk, bytes)) == Outcome(Cleared(), Status(SW_INVALID_TX))
  {
    hide Run, React, Sound, Decode, ApplyAll, EncodeAll, Element.Encode, Element.Valid;
    RunSound(env, es);
    FalseClaimFails(env, c.changes, StartOf(c.hash.message), before, e, tail, k);
    assert StartOf(c.hash.message + bytes) == StartOf(c.hash.message);
    ChunkReplies(env, c, chunk, bytes, React(env, c, Data(chunk, bytes)));
  }

  /** So does a first chunk. */
  lemma FalseClaimRefusedAtOnce(
      env: Env, c: Context, changes: seq<Change>, m: seq<byte>, bytes: Payload,
      before: seq<Element>, e: Element, tail: seq<byte>, k: nat)
    requires c.stage == Idle && c.prompt == NoPrompt
    requires AreChanges(changes) && |changes| <= TX_MAX_TOKENS + 1 && bytes == EncodeV1(changes) + m
    requires |m| >= 5 && m[4] > 0 && AllValid(before) && ApplyAll(env, changes, StartOf(m), before).Some?
    requires e.Valid() && e.TxOutput? && m[5..] == EncodeAll(before) + (e.Encode() + tail)
    requires var d := ApplyAll(env, changes, StartOf(m), before).value.0;
             && d.remTokens == 0 && d.remInputs == 0
             && k < |changes| && changes[k].index == d.current && !env.owns(changes[k].path, e.pkh)
    ensures React(env, c, Data(0, bytes)) == Outcome(Cleared(), Status(SW_INVALID_TX))
  {
    hide Decode, ApplyAll, EncodeAll, EncodeEntries, Element.Encode, Element.Valid, Receive;
    FalseClaimFails(env, changes, StartOf(m), before, e, tail, k);
    Honest.FirstChunkOpens(env, changes, EncodeV1(changes), m);
    hide FirstChunk, EncodeV1;
    ReceiveReplies(env, Opened(changes, m));
  }
}
