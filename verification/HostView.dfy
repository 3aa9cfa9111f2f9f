/** What the host can check by itself: where its chunks cut the serialised transaction, without
    knowing the device's registry or keys. */
module HostView {
  import opened Bytes
  import opened Decoder
  import opened Review
  import opened Transaction
  import opened Session
  import opened Approval
  import opened Cutting
  import opened Honest
  import opened TokenRoom
  import SignTx

  /** Outputs whose encoding ends within the first `n` bytes of the encoded elements. */
  function OutputsWithin(es: seq<Element>, n: nat): nat
    requires AllValid(es)
  {
    if es == [] || n < |es[0].Encode()| then 0
    else (if es[0].TxOutput? then 1 else 0) + OutputsWithin(es[1..], n - |es[0].Encode()|)
  }

  /** A proper prefix of an acceptable element asks for more. */
  lemma PartIsShort(env: Env, changes: seq<Change>, d: Counters, e: Element, part: seq<byte>)
    requires e.Valid() && Apply(env, changes, d, e).Some?
    requires |part| < |e.Encode()| && part == e.Encode()[..|part|]
    ensures DecodeStep(env, changes, d, part).NeedMore?
  {
    hide DecodeStep, Element.Encode;
    var rest := e.Encode()[|part|..];
    assert part + rest == e.Encode() == e.Encode() + [];
    StepAccepts(env, changes, d, e, []);
    StepStable(env, changes, d, part, rest);
  }

  /** The decoder has found exactly the outputs that end within what it was given. */
  lemma {:induction false} PrefixOutputs(env: Env, changes: seq<Change>, d: Counters, es: seq<Element>, part: seq<byte>)
    requires AllValid(es) && es != [] && ApplyAll(env, changes, d, es).Some?
    requires |part| <= |EncodeAll(es)| && part == EncodeAll(es)[..|part|]
    ensures var v := Decode(env, changes, d, part);
            v.Ready? && |v.outs| == OutputsWithin(es, |part|)
    decreases |es|
  {
    hide DecodeStep, Element.Encode, Element.Valid, Apply;
    var e, n := es[0], |es[0].Encode()|;
    EncodedFirst(es);
    if |part| < n {
      assert part == e.Encode()[..|part|];
      PartIsShort(env, changes, d, e, part);
    } else {
      var tail := part[n..];
      assert part == e.Encode() + tail;
      StepAccepts(env, changes, d, e, tail);
      AppliedCount(env, changes, d, e);
      var d' := Apply(env, changes, d, e).value.0;
      if |part| == n {
        NothingWithin(es[1..]);
      } else {
        assert tail == EncodeAll(es[1..])[..|tail|];
        PrefixOutputs(env, changes, d', es[1..], tail);
      }
    }
  }

  lemma EncodedFirst(es: seq<Element>)
    requires AllValid(es) && es != []
    ensures EncodeAll(es) == es[0].Encode() + EncodeAll(es[1..])
    ensures es[1..] == [] ==> EncodeAll(es) == es[0].Encode()
  {
    hide Element.Encode, Element.Valid;
    assert es[0].Encode() + [] == es[0].Encode();
  }

  lemma AppliedCount(env: Env, changes: seq<Change>, d: Counters, e: Element)
    requires Apply(env, changes, d, e).Some?
    ensures |Apply(env, changes, d, e).value.1| == if e.TxOutput? then 1 else 0
  {
  }

  lemma NothingWithin(es: seq<Element>)
    requires AllValid(es)
    ensures OutputsWithin(es, 0) == 0
  {
    hide Element.Encode;
  }

  /** Outputs complete after `k` chunks, by their lengths alone. */
  function Completed(s: Submission, k: nat): nat
    requires s.tx.Valid() && k <= |s.chunks|
  {
    var sent := |Concat(s.chunks[..k])|;
    if sent < |s.prelude| + 5 then 0 else OutputsWithin(s.tx.Body(), sent - |s.prelude| - 5)
  }

  /** The device completes the outputs the host expects it to. */
  lemma CompletedIsDecoded(env: Env, s: Submission, k: nat)
    requires s.Valid(env) && k <= |s.chunks|
    ensures OutputsBy(env, s, k) == Completed(s, k)
  {
    hide Decode, EncodeAll, Element.Valid, Announces, OutputsFine, OutputsWithin, ApplyAll;
    if k == 0 {
      assert s.chunks[..0] == [] && Concat([]) == [];
    } else {
      MessagePrefix(env, s, k);
      ConcatSplit(s.chunks, k);
      var a, b := Concat(s.chunks[..k]), Concat(s.chunks[k..]);
      var whole := s.prelude + s.tx.Serialize();
      assert a + b == whole;
      var m := s.Message(k);
      assert m + b == whole[|s.prelude|..] == s.tx.Serialize();
      assert m[5..] + b == s.tx.Serialize()[5..] == EncodeAll(s.tx.Body());
      WellFormedApplies(env, s.changes, s.tx);
      assert |s.tx.Body()| >= |s.tx.outputs| > 0;
      PrefixOutputs(env, s.changes, s.tx.Start(), s.tx.Body(), m[5..]);
    }
  }

  /** No chunk that completes an output ends between an output the user will see and an index
      listed as change: a check on lengths and indices only. */
  predicate CutAtGoodPlaces(s: Submission)
    requires s.tx.Valid()
  {
    forall k :: 0 < k <= |s.chunks| ==> GoodPlace(s, k)
  }

  predicate GoodPlace(s: Submission, k: nat)
    requires s.tx.Valid() && 0 < k <= |s.chunks|
  {
    Completed(s, k) > Completed(s, k - 1) ==> !BeforeChange(s.changes, Completed(s, k))
  }

  /** For every device and wallet, the host's own check decides the fate of an honest session. */
  lemma HostDecides(env: Env, s: Submission, w: World)
    requires s.Valid(env) && w == Run(env, Script(env, s.chunks, |s.chunks|))
    ensures w.ctx.stage == Approved && Endorsed(env, w) <==> CutAtGoodPlaces(s)
  {
    hide Run, Script, Endorsed, Submission.Valid, OutputsBy, Completed, BeforeChange;
    HonestExactly(env, s);
    TransactionValid(env, s);
    forall k | 0 < k <= |s.chunks| ensures GoodCut(env, s, k) <==> GoodPlace(s, k) {
      CompletedIsDecoded(env, s, k);
      CompletedIsDecoded(env, s, k - 1);
    }
    hide GoodCut, GoodPlace;
    assert CutWell(env, s) <==> CutAtGoodPlaces(s);
  }

  lemma TransactionValid(env: Env, s: Submission)
    requires s.Valid(env)
    ensures s.tx.Valid() && 0 < |s.chunks| <= 256
  {
    hide Element.Valid;
  }

  // ---- on the device ----

  /** No event of an honest session declares more tokens than the device has room for. */
  lemma {:induction false} ScriptDeclaresFew(env: Env, s: Submission, k: nat, i: nat)
    requires s.Valid(env) && k <= |s.chunks| <= 256 && i < |Script(env, s.chunks, k)|
    ensures DeclaresFew(Script(env, s.chunks, k)[i])
    decreases k
  {
    hide DeclaresFew, AcceptAll, Submission.Valid;
    if k == 0 {
    } else {
      var before, e := Script(env, s.chunks, k - 1), Data(k - 1, s.chunks[k - 1]);
      OnlyAccepts(env, before + [e], PATIENCE, i);
      if i < |before| {
        ScriptDeclaresFew(env, s, k - 1, i);
      } else if i == |before| {
        ChunkDeclaresFew(env, s, k - 1);
      } else {
        assert DeclaresFew(Accept) by { hide *; AcceptDeclaresNothing(); }
      }
    }
  }

  lemma AcceptDeclaresNothing()
    ensures DeclaresFew(Accept)
  {
  }

  lemma ChunkDeclaresFew(env: Env, s: Submission, k: nat)
    requires s.Valid(env) && k < |s.chunks|
    ensures DeclaresFew(Data(k, s.chunks[k]))
  {
    if k == 0 {
      FirstStream(env, s);
      var m := s.Message(1);
      AnnouncementRead(s.prelude, s.changes, m);
      assert s.chunks[0] == s.prelude + m && s.chunks[0][|s.prelude| + 2] == m[2];
      assert StartOf(m) == s.tx.Start();
    }
  }

  /** The device itself, fed by an honest host and user: it ends approved, on the host's own
      transaction, exactly if the host finds its cuts good. */
  method HonestDevice(env: Env, s: Submission) returns (device: SignTx.Device, ghost w: World)
    requires s.Valid(env)
    ensures fresh(device) && device.Valid() && device.Abs() == w.ctx
    ensures device.state == Approved && Endorsed(env, w) <==> CutAtGoodPlaces(s)
  {
    hide Run, Script, Endorsed, Submission.Valid, CutAtGoodPlaces, DeclaresFew;
    TransactionValid(env, s);
    var events := Script(env, s.chunks, |s.chunks|);
    forall i | 0 <= i < |events| ensures DeclaresFew(events[i]) {
      ScriptDeclaresFew(env, s, |s.chunks|, i);
    }
    device := SignTx.AppMain(env, events);
    w := Run(env, events);
    HostDecides(env, s, w);
  }
}
