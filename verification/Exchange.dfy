/** What the host of an honest session hears, and the shortest honest session. */
module Exchange {
  import opened Bytes
  import opened Decoder
  import opened Prelude
  import opened Review
  import opened Transaction
  import opened Session
  import opened Safety
  import opened Approval
  import opened Numbering
  import opened Honest
  import opened Consent

  /** Every event of the run is answered at once if nothing is asked after it, and not at all if the
      user is asked something. */
  predicate Answered(env: Env, es: seq<Event>) {
    forall i :: 0 <= i < |es| ==> ReplyFits(React(env, Run(env, es[..i]).ctx, es[i]))
  }

  lemma NothingAnswered(env: Env)
    ensures Answered(env, [])
  {
  }

  lemma OneMoreAnswered(env: Env, es: seq<Event>, e: Event)
    requires Answered(env, es) && ReplyFits(React(env, Run(env, es).ctx, e))
    ensures Answered(env, es + [e])
  {
    hide Run, React, ReplyFits;
    forall i | 0 <= i < |es + [e]| ensures ReplyFits(React(env, Run(env, (es + [e])[..i]).ctx, (es + [e])[i])) {
      assert (es + [e])[..i] == es[..i];
      assert es[..|es|] == es;
    }
  }

  lemma {:induction false} AcceptsAnswered(env: Env, es: seq<Event>, patience: nat)
    requires Answered(env, es)
    ensures Answered(env, AcceptAll(env, es, patience))
    decreases patience
  {
    hide Run, React, Sound, Answered;
    var c := Run(env, es).ctx;
    if patience > 0 && c.prompt != NoPrompt {
      RunSound(env, es);
      AcceptReplies(env, c, React(env, c, Accept));
      OneMoreAnswered(env, es, Accept);
      AcceptsAnswered(env, es + [Accept], patience - 1);
    }
  }

  lemma FirstReceived(env: Env, s: Submission, m: seq<byte>)
    requires s.Valid(env) && |Concat(s.chunks[..1])| >= |s.prelude| && m == s.Message(1)
    ensures |m| >= 5
    ensures React(env, Cleared(), Data(0, s.chunks[0])) == Receive(env, Opened(s.changes, m))
  {
    hide Decode, Receive, FirstChunk, ReadChangeInfo, WellFormed, Announces, Concat, Submission.Message;
    FirstStream(env, s);
    FirstChunkOpens(env, s.changes, s.prelude, m);
    assert Entered(Cleared()) == Cleared();
  }

  lemma FirstAnswered(env: Env, s: Submission)
    requires s.Valid(env)
    ensures ReplyFits(React(env, Run(env, []).ctx, Data(0, s.chunks[0])))
  {
    MessagePrefix(env, s, 1);
    FirstDelivered(env, s);
    hide React, Receive, InSync, OutputsBy, Submission.Valid, Submission.Message;
    var m := s.Message(1);
    FirstReceived(env, s, m);
    ReceiveReplies(env, Opened(s.changes, m));
  }

  lemma NextAnswered(env: Env, s: Submission, k: nat)
    requires s.Valid(env) && 0 < k < |s.chunks| <= 256 && HonestAfter(env, s, k)
    ensures ReplyFits(React(env, Run(env, Script(env, s.chunks, k)).ctx, Data(k, s.chunks[k])))
  {
    var w := Run(env, Script(env, s.chunks, k));
    NextDelivered(env, s, k, w);
    OutputsDeclared(env, s);
    hide Run, Script, WellFormed, Announces, Concat, Submission.Message, OutputsBy, React, Reviewed, Sound;
    ChunkReplies(env, w.ctx, k, s.chunks[k], React(env, w.ctx, Data(k, s.chunks[k])));
  }

  lemma {:induction false} ScriptAnswered(env: Env, s: Submission, k: nat)
    requires s.Valid(env) && k <= |s.chunks| <= 256 && GoodCuts(env, s, k)
    ensures Answered(env, Script(env, s.chunks, k))
    decreases k
  {
    hide Run, React, Answered, ReplyFits, Submission.Valid, GoodCut, HonestAfter, AcceptAll;
    if k == 0 {
      NothingAnswered(env);
    } else {
      ScriptAnswered(env, s, k - 1);
      if k == 1 {
        FirstAnswered(env, s);
      } else {
        HonestStep(env, s, k - 1);
        NextAnswered(env, s, k - 1);
      }
      var before := Script(env, s.chunks, k - 1);
      OneMoreAnswered(env, before, Data(k - 1, s.chunks[k - 1]));
      AcceptsAnswered(env, before + [Data(k - 1, s.chunks[k - 1])], PATIENCE);
    }
  }

  /** In an honest session no command and no button is ever answered with an error: each is answered
      SW_OK if the device then asks nothing, and not answered if it asks something. */
  lemma HonestReplies(env: Env, s: Submission, es: seq<Event>)
    requires s.Valid(env) && CutWell(env, s) && es == Script(env, s.chunks, |s.chunks|)
    ensures forall i :: 0 <= i < |es| ==>
              var r := React(env, Run(env, es[..i]).ctx, es[i]);
              r.reply == if r.ctx.prompt == NoPrompt then Status(SW_OK) else NoReply
  {
    hide Run, React, Script, Submission.Valid, GoodCut;
    OutputsDeclared(env, s);
    ScriptAnswered(env, s, |s.chunks|);
  }

  // ---- one chunk ----

  lemma OneChunkValid(env: Env, changes: seq<Change>, tx: Tx, bytes: Payload)
    requires AreChanges(changes) && |changes| <= TX_MAX_TOKENS + 1 && WellFormed(env, changes, tx)
    requires bytes == EncodeV1(changes) + tx.Serialize()
    ensures Submission(changes, tx, EncodeV1(changes), [bytes]).Valid(env)
  {
    hide OutputsFine, EncodeAll, EncodeEntries, Element.Valid;
    assert Concat([bytes]) == bytes + Concat([]);
    assert bytes + [] == bytes;
  }

  lemma OneChunkCut(env: Env, s: Submission)
    requires s.Valid(env) && |s.chunks| == 1 && !BeforeChange(s.changes, |s.tx.outputs|)
    ensures CutWell(env, s)
  {
    hide WellFormed, Announces, Concat, Decode, EncodeAll, Element.Valid, BeforeChange, Outputs;
    MessagePrefix(env, s, 1);
    TransactionIsValid(env, s.changes, s.tx);
    var m := s.tx.Serialize();
    WellFormedDecodes(env, s.changes, s.tx);
    assert m[5..] == EncodeAll(s.tx.Body());
    assert |Outputs(s.tx)| == |s.tx.outputs| by { hide *; OutputCount(s.tx); }
    assert OutputsBy(env, s, 1) == |s.tx.outputs|;
  }

  lemma TransactionIsValid(env: Env, changes: seq<Change>, tx: Tx)
    requires WellFormed(env, changes, tx)
    ensures tx.Valid()
  {
  }

  lemma OutputCount(tx: Tx)
    requires forall i :: 0 <= i < |tx.outputs| ==> tx.outputs[i].TxOutput?
    ensures |Outputs(tx)| == |tx.outputs|
  {
    OutputsOneByOne(tx.outputs, 0);
  }

  /** Whatever fits one chunk: announced and sent, it is approved by one acceptance for each output
      not listed as change and one to send, unless an entry names an output one past the last. */
  lemma OneChunkRun(env: Env, changes: seq<Change>, tx: Tx, bytes: Payload, shown: nat, w: World)
    requires AreChanges(changes) && |changes| <= TX_MAX_TOKENS + 1 && WellFormed(env, changes, tx)
    requires bytes == EncodeV1(changes) + tx.Serialize()
    requires forall i :: 0 <= i < |changes| ==> changes[i].index != |tx.outputs|
    requires shown == |tx.outputs| - |ChangeSet(changes, |tx.outputs|)|
    requires w == Run(env, [Data(0, bytes)] + seq(shown + 1, _ => Accept))
    ensures w.ctx.stage == Approved && Endorsed(env, w) && w.ctx.hash.message == tx.Serialize()
    ensures |w.accepted| == shown
  {
    hide Run, AcceptAll, WellFormed, Endorsed, ChangeSet, EncodeV1, Submission.Valid, Tx.Serialize;
    var s := Submission(changes, tx, EncodeV1(changes), [bytes]);
    OneChunkValid(env, changes, tx, bytes);
    OneChunkCut(env, s);
    HonestRunIsApproved(env, s);
    var es := Script(env, s.chunks, 1);
    assert Script(env, s.chunks, 0) + [Data(0, bytes)] == [Data(0, bytes)];
    forall i | 0 <= i < |es| ensures es[i] == if i == 0 then Data(0, bytes) else Accept {
      OnlyAccepts(env, [Data(0, bytes)], PATIENCE, i);
    }
    assert es == [Data(0, bytes)] + seq(shown + 1, _ => Accept);
  }

  // ---- well-formedness, spelled out ----

  lemma FineMeans(env: Env, changes: seq<Change>, es: seq<Element>, tokens: nat)
    requires forall i :: 0 <= i < |es| ==> es[i].TxOutput?
    ensures OutputsFine(env, changes, es, 0, tokens)
       <==> && (forall i :: 0 <= i < |es| ==> es[i].tokenData < 0x80 && es[i].tokenData <= tokens)
            && (forall i, k :: 0 <= i < |es| && 0 <= k < |changes| && changes[k].index == i ==>
                  env.owns(changes[k].path, es[i].pkh))
  {
    if OutputsFine(env, changes, es, 0, tokens) {
      forall i, k | 0 <= i < |es| && 0 <= k < |changes| && changes[k].index == i
        ensures env.owns(changes[k].path, es[i].pkh)
      {
        assert ClaimsHold(env, changes, Output(0 + i, es[i].value, es[i].tokenData, es[i].pkh));
      }
      assert forall i :: 0 <= i < |es| ==> es[i].tokenData < 0x80;
    }
  }

  predicate Registered(registry: seq<TokenSymbol>, uid: seq<byte>) {
    exists r :: 0 <= r < |registry| && registry[r].uid == uid
  }

  lemma TokensMean(registry: seq<TokenSymbol>, es: seq<Element>)
    requires forall i :: 0 <= i < |es| ==> es[i].TokenUid?
    ensures (forall i :: 0 <= i < |es| ==> FindToken(registry, es[i].uid).Some?)
       <==> (forall i :: 0 <= i < |es| ==> Registered(registry, es[i].uid))
  {
    hide FindToken;
    forall i | 0 <= i < |es| ensures FindToken(registry, es[i].uid).Some? <==> Registered(registry, es[i].uid) {
      assert FindToken(registry, es[i].uid).Some? ==> registry[FindToken(registry, es[i].uid).value].uid == es[i].uid;
    }
    hide Registered;
  }

  /** A transaction is well formed exactly if its fields have their widths, it has an output and at
      most ten tokens, each in the registry, its outputs are no authorities and name HTR or one of its
      tokens, and this wallet owns every output listed as change under each path listed for it. */
  lemma WellFormedMeans(env: Env, changes: seq<Change>, tx: Tx)
    ensures WellFormed(env, changes, tx)
       <==> && tx.Valid() && 0 < |tx.outputs| && |tx.tokens| <= 10
            && (forall i :: 0 <= i < |tx.tokens| ==>
                  Registered(env.registry, tx.tokens[i].uid))
            && (forall i :: 0 <= i < |tx.outputs| ==>
                  tx.outputs[i].tokenData < 0x80 && tx.outputs[i].tokenData <= |tx.tokens|)
            && (forall i, k :: 0 <= i < |tx.outputs| && 0 <= k < |changes| && changes[k].index == i ==>
                  env.owns(changes[k].path, tx.outputs[i].pkh))
  {
    hide Element.Valid, OutputsFine, FindToken, Registered;
    if tx.Valid() {
      TokensMean(env.registry, tx.tokens);
      FineMeans(env, changes, tx.outputs, |tx.tokens|);
    }
  }
}
