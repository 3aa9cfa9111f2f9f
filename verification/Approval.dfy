/** What an approved session stands for: one transaction, shown output by output, and nothing
    else is ever signed. */
module Approval {
  import opened Bytes
  import opened Decoder
  import opened Prelude
  import opened Review
  import opened Transaction
  import opened Session
  import opened Safety

  /** The outputs of a list of elements, numbered from `next`. */
  function OutputsFrom(es: seq<Element>, next: nat): seq<Output> {
    if es == [] then []
    else if es[0].TxOutput? then
      [Output(next, es[0].value, es[0].tokenData, es[0].pkh)] + OutputsFrom(es[1..], next + 1)
    else OutputsFrom(es[1..], next)
  }

  /** The outputs of a transaction, in order. */
  function Outputs(tx: Tx): seq<Output> {
    OutputsFrom(tx.outputs, 0)
  }

  lemma {:induction false} NoOutputsThere(es: seq<Element>, more: seq<Element>, next: nat)
    requires forall i :: 0 <= i < |es| ==> !es[i].TxOutput?
    ensures OutputsFrom(es + more, next) == OutputsFrom(more, next)
    decreases |es|
  {
    if es == [] {
      assert es + more == more;
    } else {
      assert (es + more)[1..] == es[1..] + more;
      NoOutputsThere(es[1..], more, next);
    }
  }

  lemma {:induction false} OutputsOneByOne(es: seq<Element>, next: nat)
    requires forall i :: 0 <= i < |es| ==> es[i].TxOutput?
    ensures |OutputsFrom(es, next)| == |es|
    ensures forall i :: 0 <= i < |es| ==>
              OutputsFrom(es, next)[i] == Output(next + i, es[i].value, es[i].tokenData, es[i].pkh)
    decreases |es|
  {
    if es == [] {
    } else {
      OutputsOneByOne(es[1..], next + 1);
    }
  }

  /** What the decoder queues are the outputs, each with every claim on it checked. */
  lemma {:induction false} AppliedOutputs(env: Env, changes: seq<Change>, d: Counters, es: seq<Element>)
    requires ApplyAll(env, changes, d, es).Some?
    ensures var outs := ApplyAll(env, changes, d, es).value.1;
            && outs == OutputsFrom(es, d.current)
            && forall i :: 0 <= i < |outs| ==> ClaimsHold(env, changes, outs[i])
    decreases |es|
  {
    hide ClaimsHold;
    if es == [] {
    } else {
      AppliedOutputs(env, changes, Apply(env, changes, d, es[0]).value.0, es[1..]);
    }
  }

  /** Once an output is decoded, all tokens and inputs have been. */
  lemma {:induction false} OutputsComeLast(env: Env, changes: seq<Change>, d: Counters, buf: seq<byte>)
    ensures var v := Decode(env, changes, d, buf);
            v.Ready? && v.outs != [] ==> v.dec.remTokens == 0 && v.dec.remInputs == 0
    ensures var v := Decode(env, changes, d, buf);
            v.Ready? && d.remTokens == 0 && d.remInputs == 0 ==> v.dec.remTokens == 0 && v.dec.remInputs == 0
    decreases |buf|
  {
    StepOrder(env, changes, d, buf);
    hide DecodeStep;
    var s := DecodeStep(env, changes, d, buf);
    if s.Took? && s.n < |buf| { OutputsComeLast(env, changes, s.dec, buf[s.n..]); }
  }

  lemma StepOrder(env: Env, changes: seq<Change>, d: Counters, buf: seq<byte>)
    ensures var s := DecodeStep(env, changes, d, buf);
            s.Took? && (s.outs != [] || (d.remTokens == 0 && d.remInputs == 0))
            ==> s.dec.remTokens == 0 && s.dec.remInputs == 0
  {
  }

  /** The transaction a session has been given. */
  function Signed(env: Env, c: Context): Tx
    requires |c.hash.message| >= 5
  {
    TxOf(env, c.changes, c.hash.message)
  }

  /** The hashed bytes are exactly one transaction; each output not listed as change was
      accepted on its own screen, once and in order; each other one was decoded and every claim
      on it passed the ownership check; every token is registered and no output is an authority. */
  predicate Endorsed(env: Env, w: World) {
    var c := w.ctx;
    && |c.hash.message| >= 5
    && var tx := Signed(env, c);
       && tx.Valid() && c.hash.message == tx.Serialize()
       && ApplyAll(env, c.changes, tx.Start(), tx.Body()).Some?
       && w.accepted == Screens(c.changes, |tx.outputs|, Outputs(tx))
       && |Outputs(tx)| == |tx.outputs|
       && (forall i :: 0 <= i < |tx.outputs| ==>
             && Outputs(tx)[i] == Output(i, tx.outputs[i].value, tx.outputs[i].tokenData, tx.outputs[i].pkh)
             && ClaimsHold(env, c.changes, Outputs(tx)[i]))
  }

  lemma FinishedIsComplete(env: Env, w: World)
    requires InSync(env, w) && (w.ctx.stage == Parsed || w.ctx.stage == Approved)
    ensures var c := w.ctx;
            && |c.hash.message| >= 5 && Stream(env, c).Ready? && Stream(env, c).dec.Complete()
            && c.dec.outputsLen == |Stream(env, c).outs|
            && w.accepted == Screens(c.changes, |Stream(env, c).outs|, Stream(env, c).outs)
  {
    hide Decode, DecodeStep, Screens, IsChangeIndex, Tx.Valid, Tx.Serialize;
    var c := w.ctx;
    var m := c.hash.message;
    var outs := Stream(env, c).outs;
    OutputsComeLast(env, c.changes, StartOf(m), m[5..]);
    assert outs[..c.confirmed] == outs;
  }

  lemma FinishedIsEndorsed(env: Env, w: World)
    requires InSync(env, w) && (w.ctx.stage == Parsed || w.ctx.stage == Approved)
    ensures Endorsed(env, w)
  {
    hide InSync, DecodeStep, Decode, Elements, ApplyAll, Element.Valid, Screens, TxOf;
    FinishedIsComplete(env, w);
    var c := w.ctx;
    DecodedIsTransaction(env, c.changes, c.hash.message);
    TransactionOutputs(env, c.changes, Signed(env, c));
  }

  lemma TransactionOutputs(env: Env, changes: seq<Change>, tx: Tx)
    requires tx.Valid() && ApplyAll(env, changes, tx.Start(), tx.Body()).Some?
    ensures var outs := Outputs(tx);
            && ApplyAll(env, changes, tx.Start(), tx.Body()).value.1 == outs && |outs| == |tx.outputs|
            && forall i :: 0 <= i < |tx.outputs| ==>
                 && outs[i] == Output(i, tx.outputs[i].value, tx.outputs[i].tokenData, tx.outputs[i].pkh)
                 && ClaimsHold(env, changes, outs[i])
  {
    hide ApplyAll, Element.Valid, ClaimsHold;
    AppliedOutputs(env, changes, tx.Start(), tx.Body());
    assert tx.Body() == (tx.tokens + tx.inputs) + tx.outputs;
    NoOutputsThere(tx.tokens + tx.inputs, tx.outputs, 0);
    OutputsOneByOne(tx.outputs, 0);
  }

  /** Safety, for every run: an approved session none of whose acceptances straddled a batch end
      and a change output is endorsed. `Exactness` proves the converse. */
  lemma ApprovedIsEndorsed(env: Env, es: seq<Event>, w: World)
    requires w == Run(env, es)
    ensures InStep(env, es) && w.ctx.stage == Approved ==> Endorsed(env, w)
  {
    hide InSync, Endorsed, Run, Straddles;
    if InStep(env, es) && w.ctx.stage == Approved {
      RunInSync(env, es);
      FinishedIsEndorsed(env, w);
    }
  }

  /** Without change entries nothing can straddle. */
  lemma NoChangeNoStraddle(c: Context)
    requires c.changes == []
    ensures !Straddles(c)
  {
  }

  // ---- signatures ----

  function DoubleSha(env: Env, message: seq<byte>): Digest {
    env.sha256(env.sha256(message))
  }

  /** What finalising the spent hash context for the `n`-th time makes of the digest. */
  function Respent(env: Env, message: seq<byte>, n: nat): Digest {
    env.sha256(env.respent(message, n))
  }

  /** The digest cache: empty until the first signature, then the double SHA-256 of the message.
      It stays that unless it begins with the zero byte that marks an empty cache; then the next
      signatures finalise the spent hash context again, until a digest begins otherwise. */
  predicate DigestKept(env: Env, c: Context) {
    c.stage == Approved ==>
      var d := DoubleSha(env, c.hash.message);
      || (c.hash.rounds == 0 && c.sighash == NoDigest())
      || (c.hash.rounds == 1 && c.sighash == d)
      || (c.hash.rounds > 1 && d[0] == 0 && c.sighash == Respent(env, c.hash.message, c.hash.rounds - 1))
  }

  lemma StepKeepsDigest(env: Env, c: Context, e: Event)
    requires Sound(env, c) && DigestKept(env, c)
    ensures DigestKept(env, React(env, c, e).ctx)
  {
    hide Decode, DecodeStep, Streamed, HandleData, ReadPath, ConfirmOutput;
    match e {
      case Data(chunk, bytes) => ReceivingNotApproved(env, Entered(c), chunk, bytes);
      case Accept => if c.prompt != NoPrompt && c.prompt != ConfirmSend { ConfirmFrame(c); }
      case Reject => RejectClears(c);
      case _ =>
    }
  }

  lemma ReceivingNotApproved(env: Env, c: Context, chunk: byte, bytes: Payload)
    ensures HandleData(env, c, chunk, bytes).ctx.stage != Approved
  {
    hide Decode, ReadChangeInfo;
    forall c: Context | c.stage == RecvData ensures Receive(env, c).ctx.stage != Approved {
      ReceiveNotApproved(env, c);
    }
    hide Receive;
  }

  lemma ReceiveNotApproved(env: Env, c: Context)
    requires c.stage == RecvData
    ensures Receive(env, c).ctx.stage != Approved
  {
    hide Decode;
    var v := Decode(env, c.changes, c.dec, c.buffer);
    if v.Ready? {
      SkipNotApproved(c.(dec := v.dec, buffer := v.rest, batch := v.outs), Sorted(Indices(c.changes)));
    }
  }

  lemma {:induction false} SkipNotApproved(c: Context, sorted: seq<byte>)
    requires c.stage == RecvData
    ensures SkipFrom(c, sorted).ctx.stage != Approved
    ensures SkipFrom(c, sorted).Open? ==> SkipFrom(c, sorted).ctx.stage == RecvData
    decreases |sorted|
  {
    if sorted == [] {
    } else {
      if c.confirmed == sorted[0] {
        if CheckIndex(Advance(c)).Open? { SkipNotApproved(Advance(c), sorted[1..]); }
      } else {
        SkipNotApproved(c, sorted[1..]);
      }
    }
  }

  lemma {:induction false} RunKeepsDigest(env: Env, es: seq<Event>)
    ensures DigestKept(env, Run(env, es).ctx)
    decreases |es|
  {
    hide React, DigestKept, Sound;
    if es == [] {
      PowerUpDigest(env);
    } else {
      RunSound(env, es[..|es| - 1]);
      RunKeepsDigest(env, es[..|es| - 1]);
      StepKeepsDigest(env, Run(env, es[..|es| - 1]).ctx, es[|es| - 1]);
    }
  }

  lemma PowerUpDigest(env: Env)
    ensures DigestKept(env, Cleared())
  {
  }

  /** A signature is sent exactly when an approved session is asked to sign with a readable,
      non-empty path, and it is over the digest the session then has. */
  lemma SignatureOnlyWhenApproved(env: Env, c: Context, e: Event)
    ensures React(env, c, e).reply.Signature?
       <==> && e.Sign? && c.stage == Approved && c.prompt == NoPrompt
            && ReadPath(e.path).Some? && ReadPath(e.path).value != []
    ensures React(env, c, e).reply.Signature? ==>
              React(env, c, e).reply.bytes
              == env.ecdsa(ReadPath(e.path).value, Finalised(env, Entered(c)).sighash)
  {
    hide ReadPath, HandleData, Choose;
    if e.Data? { DataRepliesStatus(env, Entered(c), e.chunk, e.bytes); }
    ChoiceRepliesStatus(c, e.Accept?);
  }

  lemma ChoiceRepliesStatus(c: Context, choice: bool)
    ensures !Choose(c, choice).reply.Signature?
  {
    SkipRepliesStatus(Advance(c), Sorted(Indices(c.changes)));
    hide SkipFrom, Sorted;
    var r := SkipChanges(Advance(c));
    SkipRepliesStatus(r.ctx, Sorted(Indices(r.ctx.changes)));
  }

  lemma {:induction false} SkipRepliesStatus(c: Context, sorted: seq<byte>)
    ensures SkipFrom(c, sorted).Halted? ==> !SkipFrom(c, sorted).reply.Signature?
    decreases |sorted|
  {
    if sorted == [] {
    } else {
      if c.confirmed == sorted[0] {
        if CheckIndex(Advance(c)).Open? { SkipRepliesStatus(Advance(c), sorted[1..]); }
      } else {
        SkipRepliesStatus(c, sorted[1..]);
      }
    }
  }

  lemma ReceiveRepliesStatus(env: Env, c: Context)
    ensures !Receive(env, c).reply.Signature?
  {
    hide Decode, SkipFrom, Sorted;
    var v := Decode(env, c.changes, c.dec, c.buffer);
    if v.Ready? {
      SkipRepliesStatus(c.(dec := v.dec, buffer := v.rest, batch := v.outs), Sorted(Indices(c.changes)));
    }
  }

  lemma DataRepliesStatus(env: Env, c: Context, chunk: byte, bytes: seq<byte>)
    ensures !HandleData(env, c, chunk, bytes).reply.Signature?
  {
    forall c: Context ensures !Receive(env, c).reply.Signature? {
      ReceiveRepliesStatus(env, c);
    }
    hide Receive, ReadChangeInfo;
  }

  /** Approval is final: until the context is cleared no byte enters the hash and the list of
      accepted screens stands. */
  lemma ApprovedIsFinal(env: Env, w: World, e: Event)
    requires Sound(env, w.ctx) && w.ctx.stage == Approved
    ensures var w' := Next(env, w, e);
            || w'.ctx == Cleared()
            || (&& w'.ctx.stage == Approved && w'.ctx.hash.message == w.ctx.hash.message
                && w'.ctx.changes == w.ctx.changes && w'.ctx.dec == w.ctx.dec
                && w'.accepted == w.accepted)
  {
    hide Streamed, DecodeStep, ReadPath;
  }

  /** From the state after `es`, the session stays approved through `more`. */
  predicate StaysApproved(env: Env, es: seq<Event>, more: seq<Event>) {
    forall j :: 0 <= j <= |more| ==> Run(env, es + more[..j]).ctx.stage == Approved
  }

  /** While a session stays approved its message, its changes and its review record are fixed. */
  lemma {:induction false} ApprovedStays(env: Env, es: seq<Event>, more: seq<Event>, w: World, w': World)
    requires w == Run(env, es) && w' == Run(env, es + more) && StaysApproved(env, es, more)
    ensures w'.ctx.stage == w.ctx.stage == Approved && w'.ctx.hash.message == w.ctx.hash.message
    ensures w'.ctx.changes == w.ctx.changes && w'.ctx.dec == w.ctx.dec && w'.accepted == w.accepted
    decreases |more|
  {
    hide Next, Sound, Run;
    assert more[..|more|] == more && more[..0] == [] && es + [] == es;
    if more == [] {
    } else {
      var front, e := more[..|more| - 1], more[|more| - 1];
      assert forall j :: 0 <= j <= |front| ==> front[..j] == more[..j];
      var v := Run(env, es + front);
      ApprovedStays(env, es, front, w, v);
      RunSound(env, es + front);
      ApprovedIsFinal(env, v, e);
      assert es + more == es + front + [e];
      RunNext(env, es + front, e);
    }
  }

  /** The digest the next signature of an approved session is over. It is the double SHA-256 of
      the message for the first signature, and for every one if that does not begin with a zero
      byte; otherwise every later signature is over a digest of the spent hash context. */
  function NextDigest(env: Env, c: Context): Digest {
    var m, n := c.hash.message, c.hash.rounds;
    if n == 0 || DoubleSha(env, m)[0] != 0 then DoubleSha(env, m)
    else Respent(env, m, if n > 1 && Respent(env, m, n - 1)[0] != 0 then n - 1 else n)
  }

  lemma SignedDigest(env: Env, c: Context)
    requires c.stage == Approved && DigestKept(env, c)
    ensures Finalised(env, c).sighash == NextDigest(env, c)
    ensures Finalised(env, c).hash.message == c.hash.message
    ensures Finalised(env, c).hash.rounds > 0
  {
  }

  /** Every signature of every session in step is over the digest of an endorsed transaction, and
      in every session over exactly this digest. */
  lemma SignatureIsEndorsed(env: Env, es: seq<Event>, path: Payload)
    requires React(env, Run(env, es).ctx, Sign(path)).reply.Signature?
    ensures var w := Run(env, es);
            && ReadPath(path).Some?
            && React(env, w.ctx, Sign(path)).reply
               == Signature(env.ecdsa(ReadPath(path).value, NextDigest(env, w.ctx)))
            && (InStep(env, es) ==> Endorsed(env, w) && w.ctx.hash.message == Signed(env, w.ctx).Serialize())
  {
    var w := Run(env, es);
    SignatureOnlyWhenApproved(env, w.ctx, Sign(path));
    ApprovedIsEndorsed(env, es, w);
    RunKeepsDigest(env, es);
    hide React, Run, ReadPath, Screens, ApplyAll, DoubleSha, Respent;
    SignedDigest(env, w.ctx);
    SignedDigest(env, Entered(w.ctx));
  }

  /** The signature of a session just approved, for any readable path: over the double SHA-256 of all
      it has hashed. */
  lemma FirstSignature(env: Env, es: seq<Event>, path: Payload, w: World)
    requires Run(env, es).ctx.prompt == ConfirmSend && w == Run(env, es + [Accept])
    requires ReadPath(path).Some? && ReadPath(path).value != []
    ensures React(env, w.ctx, Sign(path)).reply
         == Signature(env.ecdsa(ReadPath(path).value, env.sha256(env.sha256(w.ctx.hash.message))))
  {
    RunNext(env, es, Accept);
    RunSound(env, es);
    hide Run, ReadPath, Streamed, DecodeStep;
    assert w.ctx.stage == Approved && w.ctx.hash.rounds == 0 && w.ctx.sighash[0] == 0;
  }

  /** Every signature of every run whose message does not digest to a leading zero byte. */
  lemma SignatureDigest(env: Env, es: seq<Event>, path: Payload, c: Context)
    requires c == Run(env, es).ctx && env.sha256(env.sha256(c.hash.message))[0] != 0
    ensures var r := React(env, c, Sign(path)).reply;
            r.Signature? ==>
              && ReadPath(path).Some?
              && r == Signature(env.ecdsa(ReadPath(path).value, env.sha256(env.sha256(c.hash.message))))
  {
    hide React, Run, ReadPath, InStep, Endorsed;
    if React(env, c, Sign(path)).reply.Signature? { SignatureIsEndorsed(env, es, path); }
  }

  /** Any two signatures of one approved session are over the same digest, the double SHA-256 of its
      message, if that does not begin with a zero byte. */
  lemma SignaturesAgree(
      env: Env, es: seq<Event>, more: seq<Event>, first: Payload, second: Payload, c: Context, c': Context)
    requires c == Run(env, es).ctx && c' == Run(env, es + more).ctx && StaysApproved(env, es, more)
    requires DoubleSha(env, c.hash.message)[0] != 0
    ensures var d := DoubleSha(env, c.hash.message);
            var r, r' := React(env, c, Sign(first)).reply, React(env, c', Sign(second)).reply;
            && (r.Signature? ==> ReadPath(first).Some? && r == Signature(env.ecdsa(ReadPath(first).value, d)))
            && (r'.Signature? ==> ReadPath(second).Some? && r' == Signature(env.ecdsa(ReadPath(second).value, d)))
  {
    hide Run, React, StaysApproved, ReadPath, DoubleSha, InStep, Endorsed;
    ApprovedStays(env, es, more, Run(env, es), Run(env, es + more));
    if React(env, c, Sign(first)).reply.Signature? { SignatureIsEndorsed(env, es, first); }
    if React(env, c', Sign(second)).reply.Signature? { SignatureIsEndorsed(env, es + more, second); }
  }
}
