/** What the user has seen when a session is approved, and what is on the screen before: the review
    invariant read out of the session, in terms of the transaction alone. */
module Seen {
  import opened Decoder
  import opened Review
  import opened Transaction
  import opened Session
  import opened Safety
  import opened Approval
  import opened Ownership
  import opened Exactness

  /** Some of the screens showed exactly `o`. */
  predicate WasShown(screens: seq<Prompt>, o: Output) {
    exists i :: 0 <= i < |screens| && screens[i].ShowOutput? && screens[i].output == o
  }

  function OutputAt(tx: Tx, k: nat): Output
    requires tx.Valid() && k < |tx.outputs|
  {
    var e := tx.outputs[k];
    Output(k, e.value, e.tokenData, e.pkh)
  }

  /** The outputs whose position is not listed as change, in order. */
  function Unlisted(changes: seq<Change>, outs: seq<Output>): (shown: seq<Output>)
    ensures |shown| <= |outs|
  {
    if outs == [] then []
    else
      var n := |outs| - 1;
      if IsChangeIndex(changes, n) then Unlisted(changes, outs[..n])
      else Unlisted(changes, outs[..n]) + [outs[n]]
  }

  /** The screens show these outputs, one each. */
  lemma {:induction false} ScreensShow(changes: seq<Change>, outputsLen: nat, outs: seq<Output>)
    ensures var s, v := Screens(changes, outputsLen, outs), Unlisted(changes, outs);
            |s| == |v| && forall i :: 0 <= i < |s| ==> s[i].ShowOutput? && s[i].output == v[i]
    decreases |outs|
  {
    if outs == [] {
    } else {
      ScreensShow(changes, outputsLen, outs[..|outs| - 1]);
      hide Unlisted, Screens;
      ScreensNext(changes, outputsLen, outs);
    }
  }

  lemma ScreensNext(changes: seq<Change>, outputsLen: nat, outs: seq<Output>)
    requires outs != []
    ensures var n := |outs| - 1;
            var s, v := Screens(changes, outputsLen, outs[..n]), Unlisted(changes, outs[..n]);
            || (Screens(changes, outputsLen, outs) == s && Unlisted(changes, outs) == v)
            || exists p: Prompt :: p.ShowOutput? && p.output == outs[n]
                 && Screens(changes, outputsLen, outs) == s + [p] && Unlisted(changes, outs) == v + [outs[n]]
  {
    assert Screen(changes, outputsLen, outs[|outs| - 1]).output == outs[|outs| - 1];
  }

  /** They are those not listed as change, each once, in their order. */
  lemma {:induction false} UnlistedMeans(changes: seq<Change>, outs: seq<Output>)
    requires forall i :: 0 <= i < |outs| ==> outs[i].index == i
    ensures var v := Unlisted(changes, outs);
            && (forall i :: 0 <= i < |v| ==> v[i].index < |outs| && v[i] == outs[v[i].index])
            && (forall i, j :: 0 <= i < |v| && 0 <= j < |changes| ==> changes[j].index != v[i].index)
            && (forall i, j :: 0 <= i < j < |v| ==> v[i].index < v[j].index)
            && (forall k :: 0 <= k < |outs| && outs[k] !in v ==> IsChangeIndex(changes, k))
    decreases |outs|
  {
    if outs == [] {
    } else {
      var n := |outs| - 1;
      var before, v := Unlisted(changes, outs[..n]), Unlisted(changes, outs);
      UnlistedMeans(changes, outs[..n]);
      assert forall k :: 0 <= k < n ==> outs[..n][k] == outs[k];
      forall i | 0 <= i < |v| ensures v[i].index < |outs| && v[i] == outs[v[i].index] {
        if i < |before| { assert v[i] == before[i]; }
      }
    }
  }

  /** Main review theorem: when a session in step is approved, the user has accepted, one screen each
      and in the transaction's order, exactly the outputs that no change entry names, each with its
      own position, value, token and recipient. */
  lemma ApprovedWasSeen(env: Env, es: seq<Event>, w: World)
    requires w == Run(env, es)
    ensures InStep(env, es) && w.ctx.stage == Approved ==>
              && |w.ctx.hash.message| >= 5
              && var tx, changes, s := Signed(env, w.ctx), w.ctx.changes, w.accepted;
                 && tx.Valid() && w.ctx.hash.message == tx.Serialize()
                 && (forall i :: 0 <= i < |s| ==>
                       && s[i].ShowOutput? && s[i].output.index < |tx.outputs|
                       && s[i].output == OutputAt(tx, s[i].output.index)
                       && forall j :: 0 <= j < |changes| ==> changes[j].index != s[i].output.index)
                 && (forall i, j :: 0 <= i < j < |s| ==> s[i].output.index < s[j].output.index)
                 && (forall k :: 0 <= k < |tx.outputs| ==>
                       IsChangeIndex(changes, k) || WasShown(s, OutputAt(tx, k)))
  {
    hide Run, InStep, OutputAt, WasShown, IsChangeIndex;
    ApprovedIsEndorsed(env, es, w);
    if InStep(env, es) && w.ctx.stage == Approved { EndorsedWasSeen(env, w); }
  }

  lemma EndorsedWasSeen(env: Env, w: World)
    requires Endorsed(env, w)
    ensures var tx, changes, s := Signed(env, w.ctx), w.ctx.changes, w.accepted;
            && (forall i :: 0 <= i < |s| ==>
                  && s[i].ShowOutput? && s[i].output.index < |tx.outputs|
                  && s[i].output == OutputAt(tx, s[i].output.index)
                  && forall j :: 0 <= j < |changes| ==> changes[j].index != s[i].output.index)
            && (forall i, j :: 0 <= i < j < |s| ==> s[i].output.index < s[j].output.index)
            && (forall k :: 0 <= k < |tx.outputs| ==>
                  IsChangeIndex(changes, k) || WasShown(s, OutputAt(tx, k)))
  {
    hide ApplyAll, Screens, Outputs, Unlisted, ClaimsHold, TxOf, Element.Valid, Tx.Serialize, IsChangeIndex;
    var tx, s := Signed(env, w.ctx), w.accepted;
    var outs := Outputs(tx);
    ScreensShow(w.ctx.changes, |outs|, outs);
    UnlistedMeans(w.ctx.changes, outs);
    var v := Unlisted(w.ctx.changes, outs);
    forall k | 0 <= k < |tx.outputs|
      ensures IsChangeIndex(w.ctx.changes, k) || WasShown(s, OutputAt(tx, k))
    {
      if outs[k] in v {
        var i :| 0 <= i < |v| && v[i] == outs[k];
        assert s[i].output == OutputAt(tx, k);
      }
    }
  }

  // ---- what is on the screen ----

  /** In every run in step, the output on the screen is the one decoded at its position; it is not
      listed as change, and of the outputs before it exactly those not listed have been accepted. */
  lemma OnScreenIsNext(env: Env, es: seq<Event>, w: World)
    requires w == Run(env, es)
    ensures InStep(env, es) && w.ctx.prompt.ShowOutput? ==>
              && |w.ctx.hash.message| >= 5 && Stream(env, w.ctx).Ready?
              && var o, changes, outs := w.ctx.prompt.output, w.ctx.changes, Stream(env, w.ctx).outs;
                 && o.index < |outs| && o == outs[o.index]
                 && (forall j :: 0 <= j < |changes| ==> changes[j].index != o.index)
                 && var v := Unlisted(changes, outs[..o.index]);
                    && |w.accepted| == |v|
                    && forall i :: 0 <= i < |v| ==> w.accepted[i].ShowOutput? && w.accepted[i].output == v[i]
  {
    hide Run, InStep, InSync, Unlisted;
    if InStep(env, es) && w.ctx.prompt.ShowOutput? {
      RunInSync(env, es);
      ScreenInSync(env, w);
      ScreensShow(w.ctx.changes, w.ctx.dec.outputsLen, Stream(env, w.ctx).outs[..w.ctx.prompt.output.index]);
    }
  }

  lemma ScreenInSync(env: Env, w: World)
    requires InSync(env, w) && w.ctx.prompt.ShowOutput?
    ensures |w.ctx.hash.message| >= 5 && Stream(env, w.ctx).Ready?
    ensures var o, changes, outs := w.ctx.prompt.output, w.ctx.changes, Stream(env, w.ctx).outs;
            && o.index < |outs| && o == outs[o.index] && w.ctx.confirmed == o.index
            && (forall j :: 0 <= j < |changes| ==> changes[j].index != o.index)
            && w.accepted == Screens(changes, w.ctx.dec.outputsLen, outs[..o.index])
  {
    hide Decode, DecodeStep, Screens;
    var m, c := w.ctx.hash.message, w.ctx;
    assert |m| >= 5;
    var v := Decode(env, c.changes, StartOf(m), m[5..]);
    DecodedOutputs(env, c.changes, StartOf(m), m[5..], v);
    assert c.batch[c.display] == v.outs[c.confirmed];
  }

  // ---- the safety theorem in these terms ----

  /** The output on the screen is the last one decoded so far, and the next one is listed as change. */
  predicate BeforeHiddenOutput(c: Context) {
    && c.prompt.ShowOutput? && c.prompt.output.index + 1 == c.dec.current
    && exists k :: 0 <= k < |c.changes| && c.changes[k].index == c.dec.current
  }

  lemma StraddlesMeans(env: Env, w: World)
    requires InSync(env, w)
    ensures Straddles(w.ctx) <==> BeforeHiddenOutput(w.ctx)
  {
    if w.ctx.prompt.ShowOutput? {
      ScreenInSync(env, w);
      hide Decode, DecodeStep, Screens;
    }
  }

  /** Event `j` accepts such an output, and belongs to the session that `es` ends in. */
  predicate AcceptsBeforeHidden(env: Env, es: seq<Event>, j: nat)
    requires j < |es|
  {
    && es[j] == Accept && BeforeHiddenOutput(Run(env, es[..j]).ctx)
    && forall i :: j < i <= |es| ==> Run(env, es[..i]).ctx.stage != Idle
  }

  /** Once lost, step stays lost while the session goes on. */
  lemma {:induction false} OutOfStepStays(env: Env, es: seq<Event>, j: nat)
    requires j <= |es| && !InStep(env, es[..j])
    requires forall i :: j < i <= |es| ==> Run(env, es[..i]).ctx.stage != Idle
    ensures !InStep(env, es)
    decreases |es| - j
  {
    hide Run, Straddles;
    if j == |es| {
      assert es[..j] == es;
    } else {
      assert es[..j + 1][..j] == es[..j];
      OutOfStepStays(env, es, j + 1);
    }
  }

  lemma {:induction false} OutOfStepAccepted(env: Env, es: seq<Event>) returns (j: nat)
    requires !InStep(env, es)
    ensures j < |es| && AcceptsBeforeHidden(env, es, j)
    decreases |es|
  {
    hide Run, Straddles, BeforeHiddenOutput, InSync;
    var front := es[..|es| - 1];
    assert es[..|es|] == es;
    if InStep(env, front) {
      j := |es| - 1;
      RunInSync(env, front);
      StraddlesMeans(env, Run(env, front));
    } else {
      j := OutOfStepAccepted(env, front);
      assert forall i :: 0 <= i <= |front| ==> front[..i] == es[..i];
    }
  }

  lemma AcceptedOutOfStep(env: Env, es: seq<Event>, j: nat)
    requires j < |es| && AcceptsBeforeHidden(env, es, j)
    ensures !InStep(env, es)
  {
    hide Run, Straddles, BeforeHiddenOutput, InSync;
    var before := Run(env, es[..j]);
    assert es[..j + 1][..j] == es[..j];
    assert Run(env, es[..j + 1]).ctx.stage != Idle;
    if InStep(env, es[..j]) {
      RunInSync(env, es[..j]);
      StraddlesMeans(env, before);
      assert !InStep(env, es[..j + 1]);
    }
    OutOfStepStays(env, es, j + 1);
  }

  /** The main safety theorem in terms of what can be seen from outside: an approved session is
      endorsed if and only if the user never, in that session, accepted the last output decoded so
      far while the position after it was listed as change. */
  lemma EndorsedExactlyIf(env: Env, es: seq<Event>, w: World)
    requires w == Run(env, es)
    ensures w.ctx.stage == Approved ==>
              (Endorsed(env, w) <==> forall j :: 0 <= j < |es| ==> !AcceptsBeforeHidden(env, es, j))
  {
    hide Run, InStep, Endorsed, AcceptsBeforeHidden;
    ApprovedExactlyIf(env, es, w);
    if InStep(env, es) {
      forall j | 0 <= j < |es| ensures !AcceptsBeforeHidden(env, es, j) {
        if AcceptsBeforeHidden(env, es, j) { AcceptedOutOfStep(env, es, j); }
      }
    } else {
      var j := OutOfStepAccepted(env, es);
    }
  }
}
