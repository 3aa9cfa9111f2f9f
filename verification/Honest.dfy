/** Honest sessions succeed: a well-formed transaction, cut into chunks and accepted by its
    user, is approved exactly at its last chunk. */
module Honest {
  import opened Bytes
  import opened Decoder
  import opened Prelude
  import opened Review
  import opened Transaction
  import opened Session
  import opened Safety
  import opened Approval
  import opened Numbering

  // ---- well-formed transactions decode ----

  /** Tokens are registered and fit the device's array, outputs are ordinary and refer to the
      transaction's tokens, and listed change really belongs to the wallet. Scripts and inputs are
      fixed by `Serialize`. */
  predicate WellFormed(env: Env, changes: seq<Change>, tx: Tx) {
    && tx.Valid() && tx.outputs != [] && |tx.tokens| <= TX_MAX_TOKENS
    && (forall i :: 0 <= i < |tx.tokens| ==> FindToken(env.registry, tx.tokens[i].uid).Some?)
    && OutputsFine(env, changes, tx.outputs, 0, |tx.tokens|)
  }

  predicate OutputsFine(env: Env, changes: seq<Change>, es: seq<Element>, next: nat, tokens: nat)
    requires forall i :: 0 <= i < |es| ==> es[i].TxOutput?
  {
    forall i :: 0 <= i < |es| ==>
      && es[i].tokenData < 0x80 && es[i].tokenData <= tokens
      && ClaimsHold(env, changes, Output(next + i, es[i].value, es[i].tokenData, es[i].pkh))
  }

  lemma {:induction false} AppliedThenApplied(
      env: Env, changes: seq<Change>, d: Counters, a: seq<Element>, b: seq<Element>)
    requires ApplyAll(env, changes, d, a).Some?
    requires ApplyAll(env, changes, ApplyAll(env, changes, d, a).value.0, b).Some?
    ensures ApplyAll(env, changes, d, a + b).Some?
    ensures ApplyAll(env, changes, d, a + b).value.0
         == ApplyAll(env, changes, ApplyAll(env, changes, d, a).value.0, b).value.0
    decreases |a|
  {
    hide Apply;
    if a == [] {
      assert a + b == b;
    } else {
      assert (a + b)[1..] == a[1..] + b;
      AppliedThenApplied(env, changes, Apply(env, changes, d, a[0]).value.0, a[1..], b);
    }
  }

  /** Where the registry has the tokens. */
  function Positions(env: Env, es: seq<Element>): (ps: seq<nat>)
    requires forall i :: 0 <= i < |es| ==> es[i].TokenUid? && FindToken(env.registry, es[i].uid).Some?
    ensures |ps| == |es|
  {
    seq(|es|, i requires 0 <= i < |es| => FindToken(env.registry, es[i].uid).value)
  }

  lemma {:induction false} TokensApply(env: Env, changes: seq<Change>, d: Counters, es: seq<Element>)
    requires forall i :: 0 <= i < |es| ==> es[i].TokenUid? && FindToken(env.registry, es[i].uid).Some?
    requires |es| <= d.remTokens
    ensures ApplyAll(env, changes, d, es).Some?
    ensures var d' := ApplyAll(env, changes, d, es).value.0;
            && d'.remTokens == d.remTokens - |es| && d'.remInputs == d.remInputs
            && d'.tokens == d.tokens + Positions(env, es) && d'.current == d.current
    decreases |es|
  {
    hide FindToken;
    if es == [] {
      assert d.tokens + Positions(env, es) == d.tokens;
    } else {
      var d' := Apply(env, changes, d, es[0]).value.0;
      TokensApply(env, changes, d', es[1..]);
      assert d'.tokens + Positions(env, es[1..]) == d.tokens + Positions(env, es);
    }
  }

  lemma {:induction false} InputsApply(env: Env, changes: seq<Change>, d: Counters, es: seq<Element>)
    requires forall i :: 0 <= i < |es| ==> es[i].Input?
    requires d.remTokens == 0 && |es| <= d.remInputs
    ensures ApplyAll(env, changes, d, es).Some?
    ensures var d' := ApplyAll(env, changes, d, es).value.0;
            d'.remTokens == 0 && d'.remInputs == d.remInputs - |es| && d'.tokens == d.tokens
            && d'.current == d.current
    decreases |es|
  {
    if es == [] {
    } else {
      InputsApply(env, changes, Apply(env, changes, d, es[0]).value.0, es[1..]);
    }
  }

  lemma {:induction false} OutputsApply(env: Env, changes: seq<Change>, d: Counters, es: seq<Element>)
    requires forall i :: 0 <= i < |es| ==> es[i].TxOutput?
    requires d.remTokens == 0 && d.remInputs == 0 && d.current + |es| <= d.outputsLen
    requires OutputsFine(env, changes, es, d.current, |d.tokens|)
    ensures ApplyAll(env, changes, d, es).Some?
    ensures var d' := ApplyAll(env, changes, d, es).value.0;
            && d'.remTokens == 0 && d'.remInputs == 0 && d'.current == d.current + |es|
            && d'.tokens == d.tokens
    decreases |es|
  {
    hide ClaimsHold;
    if es == [] {
    } else {
      assert es[0].tokenData < 0x80;
      var d' := Apply(env, changes, d, es[0]).value.0;
      forall i | 0 <= i < |es[1..]|
        ensures var e := es[1..][i];
                && e.tokenData < 0x80 && e.tokenData <= |d'.tokens|
                && ClaimsHold(env, changes, Output(d'.current + i, e.value, e.tokenData, e.pkh))
      {
        assert es[1..][i] == es[i + 1];
      }
      OutputsApply(env, changes, d', es[1..]);
    }
  }

  /** All elements of a well-formed transaction are acceptable where they stand. */
  lemma WellFormedApplies(env: Env, changes: seq<Change>, tx: Tx)
    requires WellFormed(env, changes, tx)
    ensures ApplyAll(env, changes, tx.Start(), tx.Body()).Some?
    ensures var d := ApplyAll(env, changes, tx.Start(), tx.Body()).value.0;
            d.Complete() && d.tokens == Positions(env, tx.tokens)
  {
    hide Apply, ApplyAll, Element.Valid, OutputsFine, Positions, ClaimsHold;
    var d := tx.Start();
    TokensApply(env, changes, d, tx.tokens);
    var d1 := ApplyAll(env, changes, d, tx.tokens).value.0;
    InputsApply(env, changes, d1, tx.inputs);
    AppliedThenApplied(env, changes, d, tx.tokens, tx.inputs);
    var d2 := ApplyAll(env, changes, d1, tx.inputs).value.0;
    OutputsApply(env, changes, d2, tx.outputs);
    AppliedThenApplied(env, changes, d, tx.tokens + tx.inputs, tx.outputs);
    assert [] + Positions(env, tx.tokens) == Positions(env, tx.tokens);
  }

  /** A well-formed transaction decodes to the end, to its tokens and its outputs. */
  lemma WellFormedDecodes(env: Env, changes: seq<Change>, tx: Tx)
    requires WellFormed(env, changes, tx)
    ensures var v := Decode(env, changes, tx.Start(), EncodeAll(tx.Body()));
            && v.Ready? && v.dec.Complete() && v.rest == []
            && v.dec.tokens == Positions(env, tx.tokens) && v.outs == Outputs(tx)
  {
    hide ApplyAll, Element.Valid, OutputsFine, EncodeAll, Positions, Outputs, ClaimsHold;
    WellFormedApplies(env, changes, tx);
    DecodeAccepts(env, changes, tx.Start(), tx.Body());
    TransactionOutputs(env, changes, tx);
  }

  // ---- prefixes of a good stream ----

  /** A stream that decodes in full never fails and is never finished before its end. */
  lemma PrefixIsUnfinished(env: Env, changes: seq<Change>, d: Counters, a: seq<byte>, b: seq<byte>)
    requires b != [] && Decode(env, changes, d, a + b).Ready?
    ensures Decode(env, changes, d, a).Ready? && !Decode(env, changes, d, a).dec.Complete()
  {
    hide DecodeStep;
    DecodeSplit(env, changes, d, a, b);
  }

  // ---- submissions ----

  /** The ways of announcing `changes` that the client uses. */
  predicate Announces(prelude: seq<byte>, changes: seq<Change>) {
    && AreChanges(changes) && |changes| <= TX_MAX_TOKENS + 1
    && (|| prelude == EncodeV1(changes)
        || (changes == [] && prelude == [0])
        || (|changes| == 1 && prelude == EncodeOld(changes[0])))
  }

  lemma AnnouncementRead(prelude: seq<byte>, changes: seq<Change>, tail: seq<byte>)
    requires Announces(prelude, changes)
    ensures ReadChangeInfo(prelude + tail) == Accepted(changes, |prelude|)
  {
    if prelude == EncodeV1(changes) {
      V1RoundTrip(changes, prelude, tail);
    } else if changes == [] {
    } else {
      assert changes == [changes[0]];
      OldEqualsV1(changes[0], tail);
    }
  }

  datatype Submission = Submission(changes: seq<Change>, tx: Tx, prelude: seq<byte>, chunks: seq<Payload>)
  {
    /** The chunks spell the announcement and the transaction; the first holds the header. */
    predicate Valid(env: Env) {
      && WellFormed(env, changes, tx) && Announces(prelude, changes)
      && 0 < |chunks| <= 256 && (forall i :: 0 <= i < |chunks| ==> chunks[i] != [])
      && Concat(chunks) == prelude + tx.Serialize()
      && |chunks[0]| >= |prelude| + 5
    }

    /** What has been hashed after `k` chunks. */
    function Message(k: nat): seq<byte>
      requires 0 < k <= |chunks| && |Concat(chunks[..k])| >= |prelude|
    {
      Concat(chunks[..k])[|prelude|..]
    }
  }

  lemma {:induction false} ConcatSplit(chunks: seq<seq<byte>>, k: nat)
    requires k <= |chunks|
    ensures Concat(chunks) == Concat(chunks[..k]) + Concat(chunks[k..])
    ensures (forall i :: 0 <= i < |chunks| ==> chunks[i] != []) && k < |chunks| ==> Concat(chunks[k..]) != []
    decreases k
  {
    if k == 0 {
      assert chunks[0..] == chunks;
      if |chunks| > 0 && chunks[0] != [] { assert Concat(chunks) != []; }
    } else {
      ConcatSplit(chunks[1..], k - 1);
      assert chunks[..k][1..] == chunks[1..][..k - 1];
      assert chunks[k..] == chunks[1..][k - 1..];
    }
  }

  lemma ConcatNext(chunks: seq<seq<byte>>, k: nat)
    requires k < |chunks|
    ensures Concat(chunks[..k + 1]) == Concat(chunks[..k]) + chunks[k]
  {
    ConcatSplit(chunks[..k + 1], k);
    assert chunks[..k + 1][..k] == chunks[..k];
    assert chunks[..k + 1][k..] == [chunks[k]];
    assert Concat([chunks[k]]) == chunks[k] + Concat([]);
  }

  /** After `k` chunks the hashed bytes are a prefix of the serialised transaction, proper
      unless all chunks were sent, and its body decodes without failing. */
  lemma MessagePrefix(env: Env, s: Submission, k: nat)
    requires s.Valid(env) && 0 < k <= |s.chunks|
    ensures |Concat(s.chunks[..k])| >= |s.prelude| + 5
    ensures var m := s.Message(k);
            && |m| >= 5 && m[..5] == s.tx.Header() && StartOf(m) == s.tx.Start()
            && var v := Decode(env, s.changes, s.tx.Start(), m[5..]);
               v.Ready? && (v.dec.Complete() <==> k == |s.chunks|)
    ensures k == |s.chunks| ==> s.Message(k) == s.tx.Serialize()
  {
    hide Decode, EncodeAll, Element.Valid, Announces, OutputsFine;
    var a, b := Concat(s.chunks[..k]), Concat(s.chunks[k..]);
    ConcatSplit(s.chunks, k);
    ConcatSplit(s.chunks[..k], 1);
    assert s.chunks[..k][..1] == [s.chunks[0]];
    assert Concat([s.chunks[0]]) == s.chunks[0] + Concat([]);
    var body := EncodeAll(s.tx.Body());
    var whole := s.prelude + s.tx.Serialize();
    assert a + b == whole;
    var p := |s.prelude|;
    var m := a[p..];
    assert m + b == whole[p..] == s.tx.Serialize();
    assert m[..5] == s.tx.Serialize()[..5] == s.tx.Header();
    assert m[5..] + b == s.tx.Serialize()[5..] == body;
    HeaderStarts(s.tx, m);
    WellFormedDecodes(env, s.changes, s.tx);
    if k == |s.chunks| {
      assert s.chunks[..k] == s.chunks && s.chunks[k..] == [];
      assert m[5..] == body && m == s.tx.Serialize();
    } else {
      PrefixIsUnfinished(env, s.changes, s.tx.Start(), m[5..], b);
    }
  }

  lemma HeaderStarts(tx: Tx, m: seq<byte>)
    requires tx.Valid() && |m| >= 5 && m[..5] == tx.Header()
    ensures StartOf(m) == tx.Start()
  {
    hide Element.Valid;
    assert m[2] == m[..5][2] && m[3] == m[..5][3] && m[4] == m[..5][4];
  }

  // ---- the honest run ----

  const PATIENCE := 257

  /** The user accepts until nothing is asked. */
  function AcceptAll(env: Env, es: seq<Event>, patience: nat): seq<Event>
    decreases patience
  {
    if patience == 0 || Run(env, es).ctx.prompt == NoPrompt then es
    else AcceptAll(env, es + [Accept], patience - 1)
  }

  /** The host sends `k` chunks in order, each followed by the user's acceptances. */
  function Script(env: Env, chunks: seq<Payload>, k: nat): seq<Event>
    requires k <= |chunks| <= 256
  {
    if k == 0 then []
    else AcceptAll(env, Script(env, chunks, k - 1) + [Data(k - 1, chunks[k - 1])], PATIENCE)
  }

  /** Nothing but acceptances is added. */
  lemma {:induction false} OnlyAccepts(env: Env, es: seq<Event>, patience: nat, i: nat)
    requires i < |AcceptAll(env, es, patience)|
    ensures |es| <= |AcceptAll(env, es, patience)|
    ensures AcceptAll(env, es, patience)[i] == if i < |es| then es[i] else Accept
    decreases patience
  {
    hide Run;
    if patience == 0 || Run(env, es).ctx.prompt == NoPrompt {
    } else {
      OnlyAccepts(env, es + [Accept], patience - 1, i);
    }
  }

  /** An output boundary between an output the user saw and one listed as change. */
  predicate BeforeChange(changes: seq<Change>, n: nat) {
    n > 0 && !IsChangeIndex(changes, n - 1) && IsChangeIndex(changes, n)
  }

  /** Straddling happens only where a chunk boundary is such an output boundary. */
  lemma StraddleIsBeforeChange(env: Env, w: World)
    requires InSync(env, w) && Straddles(w.ctx)
    ensures BeforeChange(w.ctx.changes, w.ctx.dec.current)
  {
    hide Decode, DecodeStep, Screens;
  }

  /** Prompts still to come before the device asks nothing. */
  function Pending(c: Context): nat {
    if c.prompt == NoPrompt then 0
    else if c.prompt == ConfirmSend then 1
    else 2 + if c.confirmed < c.dec.outputsLen then c.dec.outputsLen - c.confirmed else 0
  }

  /** One acceptance of an output: same stream, fewer prompts to come. */
  lemma ConfirmProgress(c: Context)
    requires Aligned(Advance(c)) && c.confirmed < c.dec.outputsLen
    requires c.stage == RecvData && c.prompt.ShowOutput? && c.dec.outputsLen < 256
    requires Advance(c).display == |c.batch| ==> !IsChangeIndex(c.changes, Advance(c).confirmed)
    ensures var c' := ConfirmOutput(c, true).ctx;
            && SameStream(c, c') && (c'.stage == RecvData || c'.stage == Stage.Parsed)
            && Pending(c') < Pending(c)
  {
    hide ConfirmOutput, PastChanges, IsChangeIndex, Screen;
    ConfirmSettles(c);
    assert Pending(c) == 2 + c.dec.outputsLen - c.confirmed;
  }

  /** One acceptance: the session goes on in step, with fewer prompts to come. */
  lemma AcceptProgress(env: Env, w: World)
    requires InSync(env, w) && w.ctx.prompt != NoPrompt && w.ctx.dec.outputsLen > 0
    requires !Straddles(w.ctx)
    ensures var w' := Next(env, w, Accept);
            && InSync(env, w') && SameStream(w.ctx, w'.ctx) && w'.ctx.stage != Idle
            && Pending(w'.ctx) < Pending(w.ctx)
            && |w'.accepted| == |w.accepted| + (if w.ctx.prompt == ConfirmSend then 0 else 1)
            && (w'.ctx.stage == Approved <==> w.ctx.prompt == ConfirmSend)
  {
    hide InSync, ConfirmOutput, Aligned, IsChangeIndex, Straddles;
    StepInSync(env, w, Accept);
    StagesOfPrompts(env, w);
    if w.ctx.prompt != ConfirmSend {
      ShowingOutput(env, w);
      ConfirmProgress(w.ctx);
    }
  }

  lemma ShowingOutput(env: Env, w: World)
    requires InSync(env, w) && w.ctx.prompt.ShowOutput? && !Straddles(w.ctx)
    ensures var c := w.ctx;
            && Aligned(Advance(c)) && c.confirmed < c.dec.outputsLen < 256 && c.stage == RecvData
            && (Advance(c).display == |c.batch| ==> !IsChangeIndex(c.changes, Advance(c).confirmed))
  {
    hide Decode, DecodeStep, Screens;
  }

  lemma {:induction false} AcceptAllSettles(env: Env, es: seq<Event>, patience: nat)
    requires InSync(env, Run(env, es))
    requires var c := Run(env, es).ctx;
             && c.stage != Idle && c.dec.outputsLen > 0 && Pending(c) <= patience
             && (c.prompt.ShowOutput? ==> !BeforeChange(c.changes, c.dec.current))
    ensures var es' := AcceptAll(env, es, patience);
            var w, w' := Run(env, es), Run(env, es');
            && InSync(env, w') && SameStream(w.ctx, w'.ctx)
            && w'.ctx.stage != Idle && w'.ctx.prompt == NoPrompt
            && |es'| - |es| == |w'.accepted| - |w.accepted|
                             + (if w'.ctx.stage == Approved && w.ctx.stage != Approved then 1 else 0)
    decreases patience
  {
    hide Run, Next, InSync, Straddles, BeforeChange;
    var w := Run(env, es);
    if patience > 0 && w.ctx.prompt != NoPrompt {
      NotStraddling(env, w);
      AcceptProgress(env, w);
      RunNext(env, es, Accept);
      StagesOfPrompts(env, w);
      StagesOfPrompts(env, Next(env, w, Accept));
      AcceptAllSettles(env, es + [Accept], patience - 1);
    }
  }

  lemma NotStraddling(env: Env, w: World)
    requires InSync(env, w) && (w.ctx.prompt.ShowOutput? ==> !BeforeChange(w.ctx.changes, w.ctx.dec.current))
    ensures !Straddles(w.ctx)
  {
    hide InSync, BeforeChange;
    if Straddles(w.ctx) { StraddleIsBeforeChange(env, w); }
  }

  lemma StagesOfPrompts(env: Env, w: World)
    requires InSync(env, w)
    ensures w.ctx.stage == Approved ==> w.ctx.prompt == NoPrompt
    ensures w.ctx.prompt != ShowStray
    ensures w.ctx.prompt == ConfirmSend ==> w.ctx.stage == Stage.Parsed
    ensures w.ctx.stage == Stage.Parsed ==> w.ctx.prompt == ConfirmSend
    ensures w.ctx.prompt != NoPrompt && w.ctx.prompt != ConfirmSend ==> w.ctx.stage == RecvData
    ensures w.ctx.stage != Idle && w.ctx.dec.outputsLen > 0 ==> w.ctx.confirmed <= w.ctx.dec.outputsLen
  {
    hide Decode, DecodeStep, Screens;
  }

  // ---- delivering the chunks ----

  /** Outputs complete after `k` chunks. */
  function OutputsBy(env: Env, s: Submission, k: nat): nat
    requires s.Valid(env) && k <= |s.chunks|
  {
    if k == 0 then 0
    else
      MessagePrefix(env, s, k);
      |Decode(env, s.changes, s.tx.Start(), s.Message(k)[5..]).outs|
  }

  /** If chunk `k` completes an output, it does not end between an output the user will see and
      an index listed as change. The host can check this before sending anything. */
  predicate GoodCut(env: Env, s: Submission, k: nat)
    requires s.Valid(env) && 0 < k <= |s.chunks|
  {
    OutputsBy(env, s, k) > OutputsBy(env, s, k - 1) ==> !BeforeChange(s.changes, OutputsBy(env, s, k))
  }

  predicate GoodCuts(env: Env, s: Submission, n: nat)
    requires s.Valid(env) && n <= |s.chunks|
  {
    forall k :: 0 < k <= n ==> GoodCut(env, s, k)
  }

  predicate CutWell(env: Env, s: Submission)
    requires s.Valid(env)
  {
    GoodCuts(env, s, |s.chunks|)
  }

  /** The session after `k` chunks of submission `s`, before or after the user's acceptances. */
  predicate Delivered(env: Env, s: Submission, k: nat, c: Context)
    requires s.Valid(env) && 0 < k <= |s.chunks|
  {
    MessagePrefix(env, s, k);
    && c.stage != Idle && c.hash.message == s.Message(k)
    && c.changes == s.changes && c.dec.outputsLen == |s.tx.outputs|
    && c.dec.current == OutputsBy(env, s, k)
  }

  /** Decoding a good prefix starts a review or asks for more; it never fails. */
  lemma ReceiveGoesOn(env: Env, c: Context, before: seq<Output>)
    requires Feeds(env, c, before) && Stream(env, c).Ready?
    requires |Decode(env, c.changes, c.dec, c.buffer).outs| <= OUTPUT_SLOTS
    requires c.stage == RecvData && c.prompt == NoPrompt && c.request == ConfirmTransaction
    ensures var r := Receive(env, c).ctx;
            && (r.stage == RecvData || r.stage == Stage.Parsed)
            && r.hash == c.hash && r.changes == c.changes && r.dec == Stream(env, c).dec
            && (r.prompt.ShowOutput? ==> |Stream(env, c).outs| > |before|)
  {
    hide Decode, DisplayOutputs;
    var v := Decode(env, c.changes, c.dec, c.buffer);
    if v.outs != [] { DisplayFrame(c.(dec := v.dec, buffer := v.rest, batch := v.outs)); }
  }

  lemma FirstMessage(chunks: seq<seq<byte>>, prelude: seq<byte>, rest: seq<byte>)
    requires chunks != [] && Concat(chunks) == prelude + rest && |chunks[0]| >= |prelude|
    ensures Concat(chunks[..1]) == chunks[0] == prelude + chunks[0][|prelude|..]
  {
    ConcatSplit(chunks, 1);
    assert chunks[..1] == [chunks[0]];
    assert Concat([chunks[0]]) == chunks[0] + Concat([]);
    hide Concat;
    var a, b := chunks[0], Concat(chunks[1..]);
    assert a[..|prelude|] == (a + b)[..|prelude|] == prelude;
  }

  lemma FirstChunkOpens(env: Env, changes: seq<Change>, prelude: seq<byte>, message: seq<byte>)
    requires Announces(prelude, changes) && |prelude + message| <= 255 && |message| >= 5 && message[4] > 0
    ensures FirstChunk(env, prelude + message) == Receive(env, Opened(changes, message))
  {
    AnnouncementRead(prelude, changes, message);
    hide ReadChangeInfo, Receive, Announces;
    assert (prelude + message)[|prelude|..] == message;
  }

  /** What the first chunk is, seen from the device. */
  lemma FirstStream(env: Env, s: Submission)
    requires s.Valid(env)
    ensures |Concat(s.chunks[..1])| >= |s.prelude| + 5
    ensures var m := s.Message(1);
            && s.chunks[0] == s.prelude + m && |m| >= 5 && StartOf(m) == s.tx.Start() && m[4] == |s.tx.outputs| > 0
            && Announces(s.prelude, s.changes) && |s.changes| <= TX_MAX_TOKENS + 1
            && Decode(env, s.changes, s.tx.Start(), m[5..]).Ready?
  {
    hide Decode, Concat, Tx.Header, Tx.Serialize, OutputsFine, Tx.Valid;
    MessagePrefix(env, s, 1);
    FirstMessage(s.chunks, s.prelude, s.tx.Serialize());
  }

  lemma FirstDelivered(env: Env, s: Submission)
    requires s.Valid(env)
    ensures var w := Next(env, World(Cleared(), []), Data(0, s.chunks[0]));
            && Delivered(env, s, 1, w.ctx) && InSync(env, w) && w.accepted == []
            && w.ctx.stage != Approved
            && (w.ctx.prompt.ShowOutput? ==> OutputsBy(env, s, 1) > 0)
  {
    hide Decode, Receive, InSync, FirstChunk, ReadChangeInfo, WellFormed, Announces, Concat, Submission.Message;
    FirstStream(env, s);
    var m := s.Message(1);
    FirstChunkInSync(env, s.chunks[0]);
    FirstChunkOpens(env, s.changes, s.prelude, m);
    var c := Opened(s.changes, m);
    AfterNothing(Decode(env, c.changes, c.dec, c.buffer));
    OutputsTake32(env, c.changes, c.dec, c.buffer);
    ReceiveGoesOn(env, c, []);
  }

  lemma MessageNext(chunks: seq<seq<byte>>, p: nat, k: nat)
    requires k < |chunks| && p <= |Concat(chunks[..k])|
    ensures |Concat(chunks[..k + 1])| >= p
    ensures Concat(chunks[..k + 1])[p..] == Concat(chunks[..k])[p..] + chunks[k]
  {
    ConcatNext(chunks, k);
    hide Concat;
  }

  /** A later chunk appended to a session at rest. */
  lemma NextChunkGoesOn(env: Env, c: Context, bytes: Payload)
    requires |c.hash.message| >= 5 && bytes != []
    requires Sound(env, c) && c.stage == RecvData && c.prompt == NoPrompt && c.dec.outputsLen > 0
    requires Decode(env, c.changes, StartOf(c.hash.message), c.hash.message[5..] + bytes).Ready?
    ensures var m := c.hash.message + bytes;
            var v := Decode(env, c.changes, StartOf(m), m[5..]);
            var r := NextChunk(env, c, bytes).ctx;
            && (r.stage == RecvData || r.stage == Stage.Parsed)
            && r.hash.message == m && r.changes == c.changes && v.Ready? && r.dec == v.dec
            && (r.prompt.ShowOutput? ==> |v.outs| > |Stream(env, c).outs|)
  {
    hide Decode, Receive, DecodeStep;
    BufferSuffices(env, c, bytes);
    ChunkFeeds(env, c, bytes);
    var m := c.hash.message;
    assert (m + bytes)[5..] == m[5..] + bytes;
    var c' := c.(hash := c.hash.(message := m + bytes), buffer := c.buffer + bytes);
    ReceiveGoesOn(env, c', Stream(env, c).outs);
  }

  lemma NextDelivered(env: Env, s: Submission, k: nat, w: World)
    requires s.Valid(env) && 0 < k < |s.chunks| && InSync(env, w)
    requires Delivered(env, s, k, w.ctx) && w.ctx.stage == RecvData && w.ctx.prompt == NoPrompt
    ensures var w' := Next(env, w, Data(k, s.chunks[k]));
            && Delivered(env, s, k + 1, w'.ctx) && InSync(env, w') && w'.accepted == w.accepted
            && w'.ctx.stage != Approved
            && (w'.ctx.prompt.ShowOutput? ==> OutputsBy(env, s, k + 1) > OutputsBy(env, s, k))
  {
    var bytes := s.chunks[k];
    NextChunkInSync(env, w, bytes);
    NextStream(env, s, k);
    EnteredSound(env, w);
    var c := Entered(w.ctx);
    hide Decode, NextChunk, WellFormed, Announces, Concat, Sound, InSync, Submission.Message;
    NextChunkGoesOn(env, c, bytes);
  }

  lemma EnteredSound(env: Env, w: World)
    requires InSync(env, w) && w.ctx.prompt == NoPrompt
    ensures Sound(env, Entered(w.ctx))
  {
    hide Decode, DecodeStep, Reviewed;
  }

  lemma NextStream(env: Env, s: Submission, k: nat)
    requires s.Valid(env) && 0 < k < |s.chunks|
    ensures |Concat(s.chunks[..k])| >= |s.prelude| + 5 && |Concat(s.chunks[..k + 1])| >= |s.prelude| + 5
    ensures var m := s.Message(k);
            && s.Message(k + 1) == m + s.chunks[k]
            && |m| >= 5 && StartOf(m) == s.tx.Start() == StartOf(m + s.chunks[k])
            && (m + s.chunks[k])[5..] == m[5..] + s.chunks[k]
            && Decode(env, s.changes, s.tx.Start(), m[5..] + s.chunks[k]).Ready?
  {
    hide Decode, Submission.Valid, Tx.Valid, Concat, Tx.Header, Tx.Serialize;
    MessagePrefix(env, s, k);
    MessagePrefix(env, s, k + 1);
    MessageNext(s.chunks, |s.prelude|, k);
    var m, b := s.Message(k), s.chunks[k];
    assert s.Message(k + 1) == m + b;
    assert (m + b)[5..] == m[5..] + b;
  }

  /** A device that asks nothing has been approved exactly if all chunks were delivered. */
  lemma RestingStage(env: Env, s: Submission, k: nat, w: World)
    requires s.Valid(env) && 0 < k <= |s.chunks| && InSync(env, w)
    requires Delivered(env, s, k, w.ctx) && w.ctx.prompt == NoPrompt
    ensures w.ctx.stage == if k == |s.chunks| then Approved else RecvData
  {
    hide Decode, DecodeStep, Screens, WellFormed, Announces, Concat, Submission.Message, Tx.Valid;
    MessagePrefix(env, s, k);
    var m := s.Message(k);
    assert w.ctx.dec.outputsLen > 0 by { hide *; OutputsDeclared(env, s); }
    OutputsComeLast(env, s.changes, StartOf(m), m[5..]);
  }

  lemma OutputsDeclared(env: Env, s: Submission)
    requires s.Valid(env)
    ensures 0 < |s.tx.outputs| < 256 && 0 < |s.chunks| <= 256
  {
    hide Concat, Element.Valid, OutputsFine;
  }

  /** Where the honest run stands after `k` chunks. */
  predicate HonestAfter(env: Env, s: Submission, k: nat)
    requires s.Valid(env) && 0 < k <= |s.chunks|
  {
    var es := Script(env, s.chunks, k);
    var w := Run(env, es);
    && InSync(env, w) && Delivered(env, s, k, w.ctx) && w.ctx.prompt == NoPrompt
    && w.ctx.stage == (if k == |s.chunks| then Approved else RecvData)
    && |es| == k + |w.accepted| + (if k == |s.chunks| then 1 else 0)
  }

  lemma SettleDelivery(env: Env, s: Submission, k: nat, es: seq<Event>)
    requires s.Valid(env) && 0 < k <= |s.chunks| && GoodCut(env, s, k)
    requires InSync(env, Run(env, es)) && Delivered(env, s, k, Run(env, es).ctx) && Run(env, es).ctx.stage != Approved
    requires Run(env, es).ctx.prompt.ShowOutput? ==> OutputsBy(env, s, k) > OutputsBy(env, s, k - 1)
    ensures var es' := AcceptAll(env, es, PATIENCE);
            var w, w' := Run(env, es), Run(env, es');
            && InSync(env, w') && Delivered(env, s, k, w'.ctx) && w'.ctx.prompt == NoPrompt
            && w'.ctx.stage == (if k == |s.chunks| then Approved else RecvData)
            && |es'| - |es| == |w'.accepted| - |w.accepted| + (if k == |s.chunks| then 1 else 0)
  {
    hide Run, InSync, Submission.Valid, OutputsBy, BeforeChange, Submission.Message;
    OutputsDeclared(env, s);
    AcceptAllSettles(env, es, PATIENCE);
    var es' := AcceptAll(env, es, PATIENCE);
    RestingStage(env, s, k, Run(env, es'));
  }

  /** Chunk `k - 1` arrives at a session that stands where it should. */
  lemma ChunkDelivered(env: Env, s: Submission, k: nat)
    requires s.Valid(env) && 0 < k <= |s.chunks| && (k > 1 ==> HonestAfter(env, s, k - 1))
    ensures var before := Script(env, s.chunks, k - 1);
            var w, w' := Run(env, before), Run(env, before + [Data(k - 1, s.chunks[k - 1])]);
            && Delivered(env, s, k, w'.ctx) && InSync(env, w') && w'.accepted == w.accepted
            && w'.ctx.stage != Approved
            && (w'.ctx.prompt.ShowOutput? ==> OutputsBy(env, s, k) > OutputsBy(env, s, k - 1))
  {
    hide Next, InSync, WellFormed, Announces, Concat, OutputsBy, Delivered, AcceptAll;
    var before := Script(env, s.chunks, k - 1);
    RunNext(env, before, Data(k - 1, s.chunks[k - 1]));
    if k == 1 {
      FirstDelivered(env, s);
      NothingYet(env, s);
    } else {
      NextDelivered(env, s, k - 1, Run(env, before));
    }
  }

  lemma {:induction false} HonestStep(env: Env, s: Submission, k: nat)
    requires s.Valid(env) && 0 < k <= |s.chunks| && GoodCuts(env, s, k)
    ensures HonestAfter(env, s, k)
    decreases k
  {
    hide Next, InSync, Submission.Valid, OutputsBy, Delivered, GoodCut, AcceptAll;
    OutputsDeclared(env, s);
    if k == 1 {
    } else {
      HonestStep(env, s, k - 1);
    }
    ChunkDelivered(env, s, k);
    hide Run;
    SettleDelivery(env, s, k, Script(env, s.chunks, k - 1) + [Data(k - 1, s.chunks[k - 1])]);
  }

  lemma NothingYet(env: Env, s: Submission)
    requires s.Valid(env)
    ensures InSync(env, Run(env, [])) && OutputsBy(env, s, 0) == 0
  {
    PowerUpInSync(env);
    hide InSync;
  }

  /** Main liveness theorem: an honest session is approved exactly at its last chunk, with one
      prompt for each output not listed as change and one to send; nothing is ever rejected,
      and what is approved is the host's transaction. */
  lemma HonestRunIsApproved(env: Env, s: Submission)
    requires s.Valid(env) && CutWell(env, s)
    ensures var es := Script(env, s.chunks, |s.chunks|);
            var w := Run(env, es);
            && Endorsed(env, w)
            && w.ctx.stage == Approved && w.ctx.hash.message == s.tx.Serialize()
            && |w.accepted| == |s.tx.outputs| - |ChangeSet(s.changes, |s.tx.outputs|)|
            && |es| == |s.chunks| + |w.accepted| + 1
    ensures forall k :: 0 < k < |s.chunks| ==>
              var c := Run(env, Script(env, s.chunks, k)).ctx;
              c.stage == RecvData && c.prompt == NoPrompt
  {
    hide Run, Script, InSync, Straddles, Endorsed, WellFormed, Announces, Concat, GoodCut, Element.Valid;
    forall k | 0 < k < |s.chunks|
      ensures var c := Run(env, Script(env, s.chunks, k)).ctx;
              c.stage == RecvData && c.prompt == NoPrompt
    {
      HonestStep(env, s, k);
    }
    var es := Script(env, s.chunks, |s.chunks|);
    HonestStep(env, s, |s.chunks|);
    FinishedIsEndorsed(env, Run(env, es));
    MessagePrefix(env, s, |s.chunks|);
    EndorsedCount(env, s, Run(env, es));
  }

  lemma EndorsedCount(env: Env, s: Submission, w: World)
    requires s.Valid(env) && Endorsed(env, w)
    requires w.ctx.hash.message == s.tx.Serialize() && w.ctx.changes == s.changes
    ensures |w.accepted| == |s.tx.outputs| - |ChangeSet(s.changes, |s.tx.outputs|)|
  {
    hide Element.Valid, Announces, Concat, OutputsFine, EncodeAll, Elements, ApplyAll, Screens, OutputsFrom;
    var tx := Signed(env, w.ctx);
    assert s.tx.Serialize()[4] == s.tx.Header()[4] == |s.tx.outputs|;
    assert tx.Serialize()[4] == tx.Header()[4] == |tx.outputs|;
    ScreenCount(s.changes, |tx.outputs|, Outputs(tx));
  }
}
