/** The signing context and its output review (the SIGN_TX half of src/ui/display.c). */
module Review {
  import opened Bytes
  import opened Decoder
  import opened Prelude

  datatype Stage = Idle | RecvData | Parsed | Approved
  datatype Request = ConfirmAddress | ConfirmXpub | ConfirmTransaction

  /** What the screen asks. `ShowStray` is the output screen with `display_index` past the
      queued outputs: what it shows then is not an output of this batch. */
  datatype Prompt =
    | NoPrompt
    | ShowOutput(output: Output, number: nat, total: nat)
    | ShowStray
    | ConfirmSend

  /** The SHA-256 context: bytes absorbed since the session began, times finalised. */
  datatype HashContext = HashContext(message: seq<byte>, rounds: nat)

  function NoDigest(): Digest {
    seq(32, _ => 0)
  }

  const OUTPUT_SLOTS := 10

  /** `G_context` with the SIGN_TX member of its union. */
  datatype Context = Context(
    stage: Stage, request: Request, prompt: Prompt,
    dec: Counters,
    buffer: seq<byte>,        // buffer[..buffer_len]
    changes: seq<Change>,     // change_info[..change_len]
    batch: seq<Output>,       // outputs[..buffer_output_len]
    display: nat, confirmed: nat,
    hash: HashContext, sighash: Digest)

  /** `explicit_bzero(&G_context, sizeof(G_context))` and the main menu. */
  function Cleared(): Context {
    Context(
      Idle, ConfirmAddress, NoPrompt, Counters(0, 0, 0, 0, []), [], [], [], 0, 0, HashContext([], 0), NoDigest())
  }

  datatype Reply = NoReply | Status(sw: nat) | Signature(bytes: seq<byte>)

  /** Result of the checks that may end a review round: `Halted` is `return true`. */
  datatype Round = Halted(ctx: Context, reply: Reply) | Open(ctx: Context)

  datatype Outcome = Outcome(ctx: Context, reply: Reply)

  /** `check_output_index_state`. */
  function CheckIndex(c: Context): (r: Round)
    ensures r.Open? ==> r.ctx == c
  {
    if c.confirmed == c.dec.outputsLen then
      if c.request == ConfirmTransaction
      then Halted(c.(stage := Parsed, prompt := ConfirmSend), NoReply)
      else Halted(Cleared(), Status(SW_BAD_STATE))
    else if c.display == |c.batch| then
      Halted(c.(batch := [], display := 0, prompt := NoPrompt), Status(SW_OK))
    else Open(c)
  }

  /** Both counters step together, as `uint8_t`. */
  function Advance(c: Context): Context {
    c.(display := (c.display + 1) % 256, confirmed := (c.confirmed + 1) % 256)
  }

  function Indices(changes: seq<Change>): (s: seq<byte>)
    ensures |s| == |changes| && forall i :: 0 <= i < |s| ==> s[i] == changes[i].index
  {
    if changes == [] then [] else [changes[0].index] + Indices(changes[1..])
  }

  predicate IsSorted(s: seq<byte>) {
    forall i, j :: 0 <= i < j < |s| ==> s[i] <= s[j]
  }

  /** The sorted arrangement of a list. */
  function Sorted(s: seq<byte>): (t: seq<byte>)
    ensures IsSorted(t) && multiset(t) == multiset(s)
  {
    if s == [] then [] else
    assert s == [s[0]] + s[1..];
    Insert(Sorted(s[1..]), s[0])
  }

  function Insert(s: seq<byte>, x: byte): (t: seq<byte>)
    requires IsSorted(s)
    ensures IsSorted(t) && multiset(t) == multiset(s) + multiset{x}
  {
    if s == [] || x <= s[0] then [x] + s
    else
      assert s == [s[0]] + s[1..];
      var t := Insert(s[1..], x);
      PrependSorted(s[0], t, s[1..], x);
      [s[0]] + t
  }

  lemma PrependSorted(head: byte, t: seq<byte>, rest: seq<byte>, x: byte)
    requires IsSorted(t) && multiset(t) == multiset(rest) + multiset{x}
    requires head <= x && forall y :: y in rest ==> head <= y
    ensures IsSorted([head] + t)
  {
    forall i | 0 <= i < |t| ensures head <= t[i] {
      assert t[i] in multiset(t);
      if t[i] != x {
        assert t[i] in multiset(rest);
        assert t[i] in rest;
      }
    }
  }

  /** There is only one sorted arrangement, so any correct sort computes `Sorted`. */
  lemma {:induction false} SortedUnique(s: seq<byte>, t: seq<byte>)
    requires IsSorted(s) && IsSorted(t) && multiset(s) == multiset(t)
    ensures s == t
  {
    if s == [] {
      assert |multiset(s)| == |multiset(t)|;
    } else {
      assert s[0] in multiset(t);
      HeadIsLeast(s, t);
      HeadIsLeast(t, s);
      HeadOff(s);
      HeadOff(t);
      SortedUnique(s[1..], t[1..]);
      assert s == [s[0]] + s[1..] && t == [t[0]] + t[1..];
    }
  }

  lemma HeadIsLeast(s: seq<byte>, t: seq<byte>)
    requires IsSorted(s) && multiset(s) == multiset(t) && t != []
    ensures s != [] && s[0] <= t[0]
  {
    assert t[0] in multiset(s);
    var i :| 0 <= i < |s| && s[i] == t[0];
  }

  lemma HeadOff(s: seq<byte>)
    requires s != []
    ensures multiset(s[1..]) == multiset(s) - multiset{s[0]}
  {
    assert s == [s[0]] + s[1..];
  }

  /** The loop of `skip_change_outputs` over the sorted change indices. */
  function SkipFrom(c: Context, sorted: seq<byte>): (r: Round)
    ensures r.Open? ==> r.ctx == c.(display := r.ctx.display, confirmed := r.ctx.confirmed)
    decreases |sorted|
  {
    if sorted == [] then Open(c)
    else if c.confirmed == sorted[0] then
      match CheckIndex(Advance(c))
      case Halted(c', reply) => Halted(c', reply)
      case Open(c') => SkipFrom(c', sorted[1..])
    else SkipFrom(c, sorted[1..])
  }

  /** `skip_change_outputs`. */
  function SkipChanges(c: Context): (r: Round)
    ensures r.Open? ==> r.ctx == c.(display := r.ctx.display, confirmed := r.ctx.confirmed)
  {
    if c.changes == [] then Open(c) else SkipFrom(c, Sorted(Indices(c.changes)))
  }

  /** Entries whose index lies below `index`. */
  function CountBelow(changes: seq<Change>, index: nat): (n: nat)
    ensures n <= |changes|
  {
    if changes == [] then 0
    else (if index > changes[0].index then 1 else 0) + CountBelow(changes[1..], index)
  }

  /** The output screen for `o`: "number/total" in `uint8_t` arithmetic. */
  function Screen(changes: seq<Change>, outputsLen: nat, o: Output): Prompt {
    ShowOutput(o, (o.index + 1 - CountBelow(changes, o.index)) % 256, (outputsLen - |changes|) % 256)
  }

  /** `ui_display_tx_outputs` with `prepare_display_output`. */
  function DisplayOutputs(c: Context): Outcome {
    match CheckIndex(c)
    case Halted(c', reply) => Outcome(c', reply)
    case Open(_) =>
      match SkipChanges(c)
      case Halted(c', reply) => Outcome(c', reply)
      case Open(c') =>
        if c'.display < |c'.batch|
        then Outcome(c'.(prompt := Screen(c'.changes, c'.dec.outputsLen, c'.batch[c'.display])), NoReply)
        else Outcome(c'.(prompt := ShowStray), NoReply)
  }

  /** `ui_confirm_output`. */
  function ConfirmOutput(c: Context, choice: bool): Outcome {
    if !choice then Outcome(Cleared(), Status(SW_DENY))
    else
      match SkipChanges(Advance(c))
      case Halted(c', reply) => Outcome(c', reply)
      case Open(c') => DisplayOutputs(c')
  }

  /** `ui_action_tx_confirm`. */
  function ConfirmTx(c: Context, choice: bool): Outcome {
    if choice then Outcome(c.(stage := Approved, prompt := NoPrompt), Status(SW_OK))
    else Outcome(Cleared(), Status(SW_DENY))
  }

  // ---- what skipping achieves ----

  predicate IsChangeIndex(changes: seq<Change>, k: nat) {
    exists i :: 0 <= i < |changes| && changes[i].index == k
  }

  lemma IndicesHold(changes: seq<Change>, k: nat)
    ensures IsChangeIndex(changes, k) <==> k in Sorted(Indices(changes))
  {
    var t := Sorted(Indices(changes));
    assert k in t <==> k in multiset(t);
    assert k in Indices(changes) <==> k in multiset(Indices(changes));
    if IsChangeIndex(changes, k) {
      var i :| 0 <= i < |changes| && changes[i].index == k;
      assert Indices(changes)[i] == k;
    }
  }

  /** The counters agree: what is confirmed plus what is queued but not reviewed is what is decoded. */
  predicate Aligned(c: Context) {
    && c.display <= |c.batch| <= OUTPUT_SLOTS
    && c.confirmed + |c.batch| - c.display == c.dec.current <= c.dec.outputsLen < 256
    && c.request == ConfirmTransaction
  }

  /** Moves to the first output of the batch that is not listed as change, or to the batch end. */
  function PastChanges(c: Context): (c': Context)
    requires Aligned(c)
    ensures Aligned(c') && c' == c.(display := c'.display, confirmed := c'.confirmed)
    ensures c.confirmed <= c'.confirmed
    ensures forall k :: c.confirmed <= k < c'.confirmed ==> IsChangeIndex(c.changes, k)
    ensures c'.display == |c.batch| || !IsChangeIndex(c.changes, c'.confirmed)
    decreases |c.batch| - c.display
  {
    if c.display < |c.batch| && IsChangeIndex(c.changes, c.confirmed) then PastChanges(Advance(c)) else c
  }

  lemma {:induction false} SkipNothing(c: Context, sorted: seq<byte>)
    requires forall i :: 0 <= i < |sorted| ==> c.confirmed < sorted[i]
    ensures SkipFrom(c, sorted) == Open(c)
    decreases |sorted|
  {
    if sorted == [] {
    } else {
      SkipNothing(c, sorted[1..]);
    }
  }

  lemma {:induction false} SkipFromIsPastChanges(c: Context, sorted: seq<byte>)
    requires Aligned(c) && IsSorted(sorted)
    requires forall x :: x in sorted ==> IsChangeIndex(c.changes, x)
    requires forall k: byte :: c.confirmed <= k && IsChangeIndex(c.changes, k) ==> k in sorted
    requires c.display == |c.batch| ==> !IsChangeIndex(c.changes, c.confirmed)
    ensures var c' := PastChanges(c);
            SkipFrom(c, sorted) == if c' == c then Open(c) else CheckIndex(c')
    decreases |sorted|
  {
    if sorted == [] {
    } else if c.confirmed == sorted[0] {
      if CheckIndex(Advance(c)).Open? {
        SkipFromIsPastChanges(Advance(c), sorted[1..]);
      }
    } else if sorted[0] < c.confirmed {
      SkipFromIsPastChanges(c, sorted[1..]);
    } else {
      SkipNothing(c, sorted);
      assert c.confirmed !in sorted;
    }
  }

  /** One pass over the sorted list suffices: the review moves to the least index not listed as
      change, or stops at the end of the batch, which is the end of the transaction if nothing
      is left to decode. */
  lemma SkipIsPastChanges(c: Context)
    requires Aligned(c)
    requires c.display == |c.batch| ==> !IsChangeIndex(c.changes, c.confirmed)
    ensures var c' := PastChanges(c);
            SkipChanges(c) == if c' == c then Open(c) else CheckIndex(c')
  {
    if c.changes == [] {
    } else {
      var sorted := Sorted(Indices(c.changes));
      forall k: nat ensures IsChangeIndex(c.changes, k) <==> k in sorted {
        IndicesHold(c.changes, k);
      }
      SkipFromIsPastChanges(c, sorted);
    }
  }

  /** `r` is `c` with both counters advanced in step. */
  predicate Drifted(c: Context, r: Context) {
    && r.batch == c.batch && r.dec == c.dec && r.request == c.request && r.changes == c.changes
    && c.display <= r.display && r.confirmed == (c.confirmed + r.display - c.display) % 256
  }

  /** The counters have run past the batch: all outputs seem confirmed, or the review goes on. */
  predicate RanPast(c: Context, r: Context) {
    && Drifted(c, r) && |r.batch| < r.display
    && (r.stage == RecvData || (r.stage == Parsed && r.prompt == ConfirmSend && r.confirmed == r.dec.outputsLen))
  }

  lemma AdvanceDrifts(c: Context)
    requires c.display < 255
    ensures Drifted(c, Advance(c))
  {
  }

  lemma DriftFurther(c: Context, m: Context, r: Context)
    requires Drifted(c, m) && RanPast(m, r)
    ensures RanPast(c, r)
  {
  }

  /** A check past the batch ends the review only to ask for sending. */
  lemma CheckPast(c: Context)
    requires |c.batch| < c.display && c.request == ConfirmTransaction && c.stage == RecvData && c.confirmed < 256
    ensures var r := CheckIndex(c);
            RanPast(c, r.ctx) && r.ctx.display == c.display && (r.Halted? <==> r.ctx.stage == Parsed)
  {
  }

  /** Once past the batch the counters never come back to its end. */
  lemma {:induction false} SkipStaysPast(c: Context, sorted: seq<byte>)
    requires |c.batch| < c.display && c.display + |sorted| < 256 && c.confirmed < 256
    requires c.request == ConfirmTransaction && c.stage == RecvData
    ensures var r := SkipFrom(c, sorted);
            && RanPast(c, r.ctx) && r.ctx.display <= c.display + |sorted|
            && (r.Halted? <==> r.ctx.stage == Parsed)
    decreases |sorted|, 1
  {
    if sorted == [] {
    } else {
      if c.confirmed == sorted[0] {
        PastStep(c, sorted);
      } else {
        SkipStaysPast(c, sorted[1..]);
      }
    }
  }

  lemma {:induction false} PastStep(c: Context, sorted: seq<byte>)
    requires |c.batch| <= c.display && c.display + |sorted| < 256 && sorted != [] && c.confirmed == sorted[0]
    requires c.request == ConfirmTransaction && c.stage == RecvData
    ensures var r := SkipFrom(c, sorted);
            && RanPast(c, r.ctx) && r.ctx.display <= c.display + |sorted|
            && (r.Halted? <==> r.ctx.stage == Parsed)
    decreases |sorted|, 0
  {
    var c' := Advance(c);
    AdvanceDrifts(c);
    CheckPast(c');
    if CheckIndex(c').Open? { SkipStaysPast(c', sorted[1..]); }
    hide RanPast, Drifted;
    DriftFurther(c, c', SkipFrom(c, sorted).ctx);
  }
}
