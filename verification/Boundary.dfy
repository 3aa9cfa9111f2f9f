/** Two facts at the edge of the safety theorem: numbering of the accepted screens, and a run
    that shows why straddling acceptances are excluded. */
module Boundary {
  import opened Bytes
  import opened Deserialize
  import opened Decoder
  import opened Prelude
  import opened Review
  import opened Transaction
  import opened Session
  import opened Safety
  import opened Approval
  import opened Numbering
  import Honest

  /** In every approved run in step, the accepted screens read 1/T, 2/T, ..., T/T if the listed
      indices are distinct and belong to the transaction; if they are not, T is wrong. */
  lemma ApprovedScreensNumbered(env: Env, es: seq<Event>)
    requires InStep(env, es) && Run(env, es).ctx.stage == Approved
    ensures var w := Run(env, es);
            && |w.ctx.hash.message| >= 5
            && var n := |Signed(env, w.ctx).outputs|;
               && (Distinct(w.ctx.changes) && AllBelow(w.ctx.changes, n) ==>
                     forall i :: 0 <= i < |w.accepted| ==>
                       && w.accepted[i].ShowOutput?
                       && w.accepted[i].number == i + 1 && w.accepted[i].total == |w.accepted|)
               && (!(Distinct(w.ctx.changes) && AllBelow(w.ctx.changes, n)) ==>
                     forall i :: 0 <= i < |w.accepted| ==>
                       w.accepted[i].ShowOutput? && w.accepted[i].total != |w.accepted|)
  {
    hide Run, Sound, ApplyAll, Screens, Tx.Valid;
    var w := Run(env, es);
    ApprovedIsEndorsed(env, es, w);
    RunSound(env, es);
    SoundChanges(env, w.ctx);
    NumberedOrMiscounted(env, w);
  }

  lemma SoundChanges(env: Env, c: Context)
    requires Sound(env, c) && c.stage == Approved
    ensures |c.changes| <= TX_MAX_TOKENS + 1
  {
  }

  lemma NumberedOrMiscounted(env: Env, w: World)
    requires Endorsed(env, w) && |w.ctx.changes| <= TX_MAX_TOKENS + 1
    ensures var n := |Signed(env, w.ctx).outputs|;
            && (Distinct(w.ctx.changes) && AllBelow(w.ctx.changes, n) ==>
                  forall i :: 0 <= i < |w.accepted| ==>
                    w.accepted[i].ShowOutput? && w.accepted[i].number == i + 1 && w.accepted[i].total == |w.accepted|)
            && (!(Distinct(w.ctx.changes) && AllBelow(w.ctx.changes, n)) ==>
                  forall i :: 0 <= i < |w.accepted| ==>
                    w.accepted[i].ShowOutput? && w.accepted[i].total != |w.accepted|)
  {
    hide ApplyAll, Screens, Element.Valid, Distinct, AllBelow, ClaimsHold, TxOf, Tx.Serialize, OutputsFrom;
    var changes := w.ctx.changes;
    var outs := Outputs(Signed(env, w.ctx));
    ScreensTotal(changes, |outs|, outs);
    ScreenCount(changes, |outs|, outs);
    TotalIsRight(changes, |outs|);
    if Distinct(changes) && AllBelow(changes, |outs|) { ScreensReadOneToT(changes, outs); }
  }

  lemma {:induction false} ElementsAreLong(es: seq<Element>)
    requires AllValid(es)
    ensures |EncodeAll(es)| >= 32 * |es|
    decreases |es|
  {
    hide Element.Valid, Element.Encode;
    if es == [] {
    } else {
      ElementsAreLong(es[1..]);
    }
  }

  /** A message that is too short to hold the outputs it declares is not endorsed. */
  lemma TooShortToEndorse(env: Env, w: World)
    requires |w.ctx.hash.message| >= 5 && |w.ctx.hash.message| < 5 + 32 * (w.ctx.hash.message[4] as int)
    ensures !Endorsed(env, w)
  {
    hide Element.Valid, ApplyAll, Screens, EncodeAll, TxOf;
    if Endorsed(env, w) {
      var tx := Signed(env, w.ctx);
      assert tx.Serialize()[4] == tx.Header()[4];
      ElementsAreLong(tx.Body());
    }
  }

  /** The first chunk of a two-output transaction whose second output is listed as change, cut
      right after the first output. */
  function CutMessage(value: nat, pkh: seq<byte>): (m: seq<byte>)
    requires ValueFits(false, value) && |pkh| == PUBKEY_HASH_LEN
    ensures |m| == 37 && m[4] == 2
  {
    [0, 1, 0, 0, 2] + EncodeOutput(false, value, 0, pkh)
  }

  lemma CutMessageDecodes(env: Env, path: Path, value: nat, pkh: seq<byte>)
    requires ValueFits(false, value) && |pkh| == PUBKEY_HASH_LEN
    ensures Decode(env, [Change(1, path)], StartOf(CutMessage(value, pkh)), CutMessage(value, pkh)[5..])
         == Ready(Counters(0, 0, 2, 1, []), [], [Output(0, value, 0, pkh)])
  {
    var m := CutMessage(value, pkh);
    var e := TxOutput(false, value, 0, pkh);
    var d := Counters(0, 0, 2, 0, []);
    assert StartOf(m) == d;
    assert m[5..] == e.Encode() + [];
    StepAccepts(env, [Change(1, path)], d, e, []);
    hide DecodeStep;
  }

  lemma OneIndex(path: Path)
    ensures Sorted(Indices([Change(1, path)])) == [1]
  {
    assert Indices([Change(1, path)]) == [1];
    assert Sorted([1]) == Insert(Sorted([]), 1);
  }

  lemma CutMessageIsShort(path: Path, value: nat, pkh: seq<byte>)
    requires IsPath(path) && WithinLimits(path) && ValueFits(false, value) && |pkh| == PUBKEY_HASH_LEN
    ensures |EncodeV1([Change(1, path)]) + CutMessage(value, pkh)| <= 255
  {
  }

  /** Straddling is possible and matters: whatever the wallet, path, amount and address, this
      run shows one output, then asks to send, and approves a message that declares a second
      output it does not contain. */
  lemma StraddlingRun(env: Env, path: Path, value: nat, pkh: seq<byte>, bytes: Payload, w: World)
    requires IsPath(path) && WithinLimits(path) && ValueFits(false, value) && |pkh| == PUBKEY_HASH_LEN
    requires bytes == EncodeV1([Change(1, path)]) + CutMessage(value, pkh)
    requires w == Run(env, [Data(0, bytes), Accept, Accept])
    ensures Straddles(Run(env, [Data(0, bytes)]).ctx)
    ensures w.ctx.stage == Approved && |w.accepted| == 1
    ensures w.ctx.hash.message == CutMessage(value, pkh) && !Endorsed(env, w)
  {
    hide Decode, EncodeV1, CutMessage, Endorsed, Sorted;
    var changes := [Change(1, path)];
    var m := CutMessage(value, pkh);
    V1RoundTrip(changes, EncodeV1(changes), m);
    Honest.FirstChunkOpens(env, changes, EncodeV1(changes), m);
    hide FirstChunk;
    CutMessageDecodes(env, path, value, pkh);
    OneIndex(path);
    var o := Output(0, value, 0, pkh);
    var c0 := Opened(changes, m);
    var c1 := c0.(dec := Counters(0, 0, 2, 1, []), buffer := [], batch := [o]);
    assert SkipFrom(c1, [1]) == Open(c1);
    var w1 := World(c1.(prompt := Screen(changes, 2, o)), []);
    var es1: seq<Event> := [Data(0, bytes)];
    assert [] + es1 == es1;
    RunNext(env, [], Data(0, bytes));
    assert Run(env, es1) == w1;
    assert changes[0].index == 1;
    AcceptThenSend(env, es1, w1);
    TooShortToEndorse(env, Run(env, es1 + [Accept] + [Accept]));
    assert es1 + [Accept] + [Accept] == [Data(0, bytes), Accept, Accept];
  }

  lemma ConfirmJumps(c: Context)
    requires c.display == 0 && c.confirmed == 0 && c.dec.outputsLen == 2 && c.request == ConfirmTransaction
    requires c.changes != [] && Sorted(Indices(c.changes)) == [1]
    ensures ConfirmOutput(c, true).ctx
         == c.(display := 2, confirmed := 2, stage := Stage.Parsed, prompt := ConfirmSend)
  {
    hide Sorted, DisplayOutputs;
    var c2 := Advance(c);
    assert SkipChanges(c2) == SkipFrom(c2, [1]);
    assert CheckIndex(Advance(c2)).Halted?;
  }

  lemma AcceptThenSend(env: Env, es: seq<Event>, w: World)
    requires Run(env, es) == w && w.ctx.prompt.ShowOutput? && w.ctx.request == ConfirmTransaction
    requires w.ctx.display == 0 && w.ctx.confirmed == 0 && w.ctx.dec.outputsLen == 2
    requires w.ctx.changes != [] && Sorted(Indices(w.ctx.changes)) == [1]
    ensures var w' := Run(env, es + [Accept] + [Accept]);
            w'.ctx.stage == Approved && |w'.accepted| == |w.accepted| + 1 && w'.ctx.hash == w.ctx.hash
  {
    hide Run, Sorted, ConfirmOutput;
    RunNext(env, es, Accept);
    RunNext(env, es + [Accept], Accept);
    ConfirmJumps(w.ctx);
  }
}
