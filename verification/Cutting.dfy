/** Honest sessions succeed only if they are well cut: one bad cut and nothing the host and the
    user do as before leads to an endorsed session. */
module Cutting {
  import opened Decoder
  import opened Review
  import opened Session
  import opened Safety
  import opened Approval
  import opened Numbering
  import opened Exactness
  import opened Honest

  /** A session that is over or has lost step. */
  predicate Gone(w: World) {
    w.ctx.stage == Idle || Lost(w)
  }

  lemma GoneStays(env: Env, w: World, e: Event)
    requires Sound(env, w.ctx) && Gone(w) && !(e.Data? && e.chunk == 0)
    ensures Gone(Next(env, w, e))
  {
    if w.ctx.stage == Idle {
      hide Decode, DecodeStep, Streamed, Lost;
    } else {
      hide React, Sound, Lost;
      LostStays(env, w, e, Next(env, w, e));
    }
  }

  lemma {:induction false} AcceptAllGone(env: Env, es: seq<Event>, patience: nat)
    requires Gone(Run(env, es))
    ensures Gone(Run(env, AcceptAll(env, es, patience)))
    decreases patience
  {
    hide Run, Gone, Next, Sound;
    if patience > 0 && Run(env, es).ctx.prompt != NoPrompt {
      RunSound(env, es);
      RunNext(env, es, Accept);
      GoneStays(env, Run(env, es), Accept);
      AcceptAllGone(env, es + [Accept], patience - 1);
    }
  }

  lemma {:induction false} ScriptGone(env: Env, chunks: seq<Payload>, k: nat, n: nat)
    requires 0 < k <= n <= |chunks| <= 256 && Gone(Run(env, Script(env, chunks, k)))
    ensures Gone(Run(env, Script(env, chunks, n)))
    decreases n
  {
    hide Run, Gone, Next, Sound, AcceptAll;
    if k == n {
    } else {
      ScriptGone(env, chunks, k, n - 1);
      var before, e := Script(env, chunks, n - 1), Data(n - 1, chunks[n - 1]);
      RunSound(env, before);
      RunNext(env, before, e);
      GoneStays(env, Run(env, before), e);
      AcceptAllGone(env, before + [e], PATIENCE);
    }
  }

  // ---- a bad cut ----

  /** In front of a bad cut every acceptance shows another output, until one straddles. */
  lemma AcceptShows(env: Env, w: World)
    requires InSync(env, w) && w.ctx.prompt.ShowOutput? && !Straddles(w.ctx)
    requires BeforeChange(w.ctx.changes, w.ctx.dec.current)
    ensures Next(env, w, Accept).ctx.prompt.ShowOutput?
  {
    ShowingOutput(env, w);
    var c := w.ctx;
    OnOutput(env, w);
    hide InSync, ConfirmOutput, IsChangeIndex, Screen;
    ConfirmSettles(c);
    assert Advance(c).confirmed < c.dec.current;
  }

  lemma OnOutput(env: Env, w: World)
    requires InSync(env, w) && w.ctx.prompt.ShowOutput?
    ensures Aligned(w.ctx) && w.ctx.display < |w.ctx.batch|
  {
    hide Decode, DecodeStep, Screens;
  }

  lemma {:induction false} AcceptAllLoses(env: Env, es: seq<Event>, patience: nat)
    requires var w := Run(env, es);
             && InSync(env, w) && w.ctx.prompt.ShowOutput? && w.ctx.dec.outputsLen > 0
             && BeforeChange(w.ctx.changes, w.ctx.dec.current) && Pending(w.ctx) <= patience
    ensures Gone(Run(env, AcceptAll(env, es, patience)))
    decreases patience
  {
    hide Run, Next, InSync, Straddles, BeforeChange, Lost;
    var w := Run(env, es);
    RunNext(env, es, Accept);
    if Straddles(w.ctx) {
      StraddleLoses(env, w);
      AcceptAllGone(env, es + [Accept], patience - 1);
    } else {
      AcceptProgress(env, w);
      AcceptShows(env, w);
      AcceptAllLoses(env, es + [Accept], patience - 1);
    }
  }

  /** Outputs not listed as change are shown before more is asked for. */
  lemma MustShow(env: Env, w: World, n0: nat, n: nat)
    requires InSync(env, w) && w.ctx.dec.outputsLen > 0 && (w.ctx.stage == RecvData || w.ctx.stage == Stage.Parsed)
    requires n0 < n == w.ctx.dec.current && !IsChangeIndex(w.ctx.changes, n - 1)
    requires |w.accepted| == n0 - |ChangeSet(w.ctx.changes, n0)|
    ensures w.ctx.prompt.ShowOutput?
  {
    NotShowing(env, w);
    hide InSync;
    ShownGrow(w.ctx.changes, n0, n - 1);
    ChangeSetNext(w.ctx.changes, n - 1);
  }

  lemma NotShowing(env: Env, w: World)
    requires InSync(env, w) && w.ctx.dec.outputsLen > 0 && w.ctx.stage != Idle
    ensures !w.ctx.prompt.ShowOutput? ==>
              |w.accepted| == w.ctx.dec.current - |ChangeSet(w.ctx.changes, w.ctx.dec.current)|
  {
    hide Decode, DecodeStep, Screens, ChangeSet;
    if !w.ctx.prompt.ShowOutput? {
      var outs := Stream(env, w.ctx).outs;
      assert outs[..w.ctx.confirmed] == outs;
      ScreenCount(w.ctx.changes, w.ctx.dec.outputsLen, outs);
    }
  }

  lemma {:induction false} ShownGrow(changes: seq<Change>, m: nat, n: nat)
    requires m <= n
    ensures m - |ChangeSet(changes, m)| <= n - |ChangeSet(changes, n)|
    decreases n
  {
    if m == n {
    } else {
      ShownGrow(changes, m, n - 1);
      ChangeSetNext(changes, n - 1);
    }
  }

  lemma BadCutLoses(env: Env, s: Submission, k: nat)
    requires s.Valid(env) && 0 < k <= |s.chunks|
    requires GoodCuts(env, s, k - 1) && !GoodCut(env, s, k)
    ensures Gone(Run(env, Script(env, s.chunks, k)))
  {
    hide Next, InSync, WellFormed, Announces, Concat, OutputsBy, Submission.Valid, Run, AcceptAll, Screens;
    OutputsDeclared(env, s);
    hide Script;
    if k > 1 { HonestStep(env, s, k - 1); }
    ChunkDelivered(env, s, k);
    var before := Script(env, s.chunks, k - 1);
    ShownSoFar(env, s, k);
    var es := before + [Data(k - 1, s.chunks[k - 1])];
    StagesOfPrompts(env, Run(env, es));
    MustShow(env, Run(env, es), OutputsBy(env, s, k - 1), OutputsBy(env, s, k));
    AcceptAllLoses(env, es, PATIENCE);
  }

  lemma ShownSoFar(env: Env, s: Submission, k: nat)
    requires s.Valid(env) && 0 < k <= |s.chunks| && (k > 1 ==> HonestAfter(env, s, k - 1))
    ensures var n := OutputsBy(env, s, k - 1);
            |Run(env, Script(env, s.chunks, k - 1)).accepted| == n - |ChangeSet(s.changes, n)|
  {
    hide InSync, Submission.Valid, OutputsBy, Script, Run, ChangeSet;
    OutputsDeclared(env, s);
    if k == 1 {
      NothingShown(env, s);
    } else {
      hide Submission.Message;
      NotShowing(env, Run(env, Script(env, s.chunks, k - 1)));
    }
  }

  lemma NothingShown(env: Env, s: Submission)
    requires s.Valid(env)
    ensures OutputsBy(env, s, 0) == 0 && ChangeSet(s.changes, 0) == {}
    ensures 0 <= |s.chunks| <= 256 && Run(env, Script(env, s.chunks, 0)).accepted == []
  {
    NothingYet(env, s);
    OutputsDeclared(env, s);
    hide Submission.Valid;
  }

  lemma {:induction false} FirstBadCut(env: Env, s: Submission, n: nat) returns (k: nat)
    requires s.Valid(env) && n <= |s.chunks| && !GoodCuts(env, s, n)
    ensures 0 < k <= n && GoodCuts(env, s, k - 1) && !GoodCut(env, s, k)
    decreases n
  {
    hide GoodCut;
    if GoodCuts(env, s, n - 1) {
      k := n;
    } else {
      k := FirstBadCut(env, s, n - 1);
    }
  }

  /** Exactly the well cut submissions succeed: if the host sends a well-formed transaction and
      the user accepts everything, the session ends approved and endorsed if and only if no
      chunk is cut badly. */
  lemma HonestExactly(env: Env, s: Submission)
    requires s.Valid(env)
    ensures var w := Run(env, Script(env, s.chunks, |s.chunks|));
            w.ctx.stage == Approved && Endorsed(env, w) <==> CutWell(env, s)
  {
    hide Run, Script, GoodCuts, Endorsed, Lost, Sound, Submission.Valid;
    OutputsDeclared(env, s);
    if CutWell(env, s) {
      HonestRunIsApproved(env, s);
    } else {
      var n := |s.chunks|;
      var k := FirstBadCut(env, s, n);
      BadCutLoses(env, s, k);
      ScriptGone(env, s.chunks, k, n);
      var es := Script(env, s.chunks, n);
      RunSound(env, es);
      if Run(env, es).ctx.stage == Approved { LostIsNotEndorsed(env, Run(env, es)); }
    }
  }
}
