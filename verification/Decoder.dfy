/** The incremental transaction decoder of src/handler/sign_tx.c (`_decode_elements`, `decode_elements`). */
module Decoder {
  import opened Bytes
  import opened Deserialize

  const TOKEN_UID_LEN := 32
  const TX_INPUT_LEN := 35
  const TX_MAX_TOKENS := 10

  type Path = seq<nat>
  type Digest = s: seq<byte> | |s| == 32 witness seq(32, _ => 0)

  /** An output listed by the host as change, with the key path it claims. */
  datatype Change = Change(index: byte, path: Path)

  /** One entry of the token registry G_token_symbols. */
  datatype TokenSymbol = TokenSymbol(uid: seq<byte>, symbol: string)

  /** What the device brings to a session: registered tokens and its cryptography.
      `owns(path, pkh)` is `verify_change`; `respent(message, n)` is what finalising an
      already finalised hash context yields, which the SDK leaves open. */
  datatype Env = Env(
    registry: seq<TokenSymbol>,
    owns: (Path, seq<byte>) -> bool,
    sha256: seq<byte> -> Digest,
    respent: (seq<byte>, nat) -> Digest,
    ecdsa: (Path, Digest) -> seq<byte>)

  datatype Output = Output(index: nat, value: nat, tokenData: byte, pkh: seq<byte>)

  /** The decoding counters of `sign_tx_ctx_t`. */
  datatype Counters = Counters(
    remTokens: nat, remInputs: nat, outputsLen: nat, current: nat,
    tokens: seq<nat>)  // registry positions
  {
    predicate Complete() {
      remTokens == 0 && remInputs == 0 && current >= outputsLen
    }
  }

  /** One call of `_decode_elements`. */
  datatype Step = NeedMore | Invalid | Took(dec: Counters, n: nat, outs: seq<Output>)

  /** One call of `decode_elements`: the outputs it queued and the bytes it left. */
  datatype Verdict = Failed | Ready(dec: Counters, rest: seq<byte>, outs: seq<Output>)
  {
    /** The same verdict, with the outputs queued earlier. */
    function After(earlier: seq<Output>): Verdict {
      if Failed? then Failed else Ready(dec, rest, earlier + outs)
    }
  }

  /** First-match lookup of src/token/token_parser.c. */
  function FindToken(registry: seq<TokenSymbol>, uid: seq<byte>): (r: Option<nat>)
    ensures r.Some? ==> r.value < |registry| && registry[r.value].uid == uid
    ensures r.Some? ==> forall i :: 0 <= i < r.value ==> registry[i].uid != uid
    ensures r.None? ==> forall i :: 0 <= i < |registry| ==> registry[i].uid != uid
  {
    FindTokenFrom(registry, uid, 0)
  }

  function FindTokenFrom(registry: seq<TokenSymbol>, uid: seq<byte>, i: nat): (r: Option<nat>)
    requires i <= |registry|
    requires forall k :: 0 <= k < i ==> registry[k].uid != uid
    ensures r.Some? ==> r.value < |registry| && registry[r.value].uid == uid
    ensures r.Some? ==> forall i :: 0 <= i < r.value ==> registry[i].uid != uid
    ensures r.None? ==> forall i :: 0 <= i < |registry| ==> registry[i].uid != uid
    decreases |registry| - i
  {
    if i == |registry| then None
    else if registry[i].uid == uid then Some(i)
    else FindTokenFrom(registry, uid, i + 1)
  }

  /** Every listed claim on output `o` is backed by a key of this wallet. */
  predicate ClaimsHold(env: Env, changes: seq<Change>, o: Output) {
    forall i :: 0 <= i < |changes| && changes[i].index == o.index ==> env.owns(changes[i].path, o.pkh)
  }

  function DecodeStep(env: Env, changes: seq<Change>, d: Counters, buf: seq<byte>): (r: Step)
    ensures r.Took? ==> 32 <= r.n <= 36 && r.n <= |buf| && |r.outs| <= 1
    ensures r.Took? ==> r.dec.current == d.current + |r.outs| && r.dec.outputsLen == d.outputsLen
    ensures r.Took? && d.current <= d.outputsLen ==> r.dec.current <= d.outputsLen
    ensures r.Took? || r.NeedMore? ==> !d.Complete()
    ensures r.NeedMore? ==> |buf| < 36
  {
    if d.remTokens > 0 then
      if |buf| < TOKEN_UID_LEN then NeedMore
      else
        var at := FindToken(env.registry, buf[..TOKEN_UID_LEN]);
        if at.None? then Invalid
        else Took(d.(remTokens := d.remTokens - 1, tokens := d.tokens + [at.value]), TOKEN_UID_LEN, [])
    else if d.remInputs > 0 then
      if |buf| < TX_INPUT_LEN then NeedMore
      else if BigEndian(buf[33..35]) > 0 then Invalid
      else Took(d.(remInputs := d.remInputs - 1), TX_INPUT_LEN, [])
    else if d.current < d.outputsLen then
      match ParseOutput(buf)
      case Short => NeedMore
      case Malformed => Invalid
      case Parsed(value, tokenData, pkh, length) =>
        if tokenData >= 0x80 || tokenData > |d.tokens| then Invalid
        else
          var o := Output(d.current, value, tokenData, pkh);
          if ClaimsHold(env, changes, o)
          then Took(d.(current := d.current + 1), length, [o])
          else Invalid
    else Invalid
  }

  /** The `while (_decode_elements())` loop. */
  function Decode(env: Env, changes: seq<Change>, d: Counters, buf: seq<byte>): (v: Verdict)
    ensures v.Ready? ==> |v.rest| <= |buf| && |v.rest| < 36
    ensures v.Ready? ==> v.dec.current == d.current + |v.outs| && v.dec.outputsLen == d.outputsLen
    ensures v.Ready? && d.current <= d.outputsLen ==> v.dec.current <= d.outputsLen
    decreases |buf|
  {
    hide DecodeStep;
    match DecodeStep(env, changes, d, buf)
    case NeedMore => Ready(d, buf, [])
    case Invalid => Failed
    case Took(d', n, outs) =>
      if n == |buf| then Ready(d', [], outs)
      else Decode(env, changes, d', buf[n..]).After(outs)
  }

  // ---- chunking ----

  lemma StepStable(env: Env, changes: seq<Change>, d: Counters, a: seq<byte>, b: seq<byte>)
    ensures var s := DecodeStep(env, changes, d, a);
            !s.NeedMore? ==> DecodeStep(env, changes, d, a + b) == s
  {
    if d.remTokens > 0 {
      if |a| >= 32 { assert (a + b)[..32] == a[..32]; }
    } else if d.remInputs > 0 {
      if |a| >= 35 { assert (a + b)[33..35] == a[33..35]; }
    } else {
      ParseOutputStable(a, b);
    }
  }

  /** The verdict on a stream that continues with `b`, given the verdict on what came before. */
  function Continue(env: Env, changes: seq<Change>, v: Verdict, b: seq<byte>): Verdict {
    match v
    case Failed => Failed
    case Ready(d, rest, outs) => Decode(env, changes, d, rest + b).After(outs)
  }

  /** Where a stream is cut does not matter. */
  lemma {:induction false} DecodeSplit(env: Env, changes: seq<Change>, d: Counters, a: seq<byte>, b: seq<byte>)
    requires b != []
    ensures Decode(env, changes, d, a + b) == Continue(env, changes, Decode(env, changes, d, a), b)
    decreases |a|
  {
    hide DecodeStep;
    StepStable(env, changes, d, a, b);
    match DecodeStep(env, changes, d, a) {
      case NeedMore =>
        AfterNothing(Decode(env, changes, d, a + b));
      case Invalid =>
      case Took(d', n, outs) =>
        assert (a + b)[n..] == a[n..] + b;
        if n == |a| {
          assert a[n..] + b == b == [] + b;
        } else {
          DecodeSplit(env, changes, d', a[n..], b);
          ContinueAfter(env, changes, Decode(env, changes, d', a[n..]), outs, b);
        }
    }
  }

  lemma AfterNothing(v: Verdict)
    ensures v.After([]) == v
  {
    if v.Ready? { assert [] + v.outs == v.outs; }
  }

  lemma ContinueAfter(env: Env, changes: seq<Change>, v: Verdict, earlier: seq<Output>, b: seq<byte>)
    ensures Continue(env, changes, v.After(earlier), b) == Continue(env, changes, v, b).After(earlier)
  {
    hide Decode;
    if v.Ready? {
      var w := Decode(env, changes, v.dec, v.rest + b);
      if w.Ready? { assert earlier + (v.outs + w.outs) == (earlier + v.outs) + w.outs; }
    }
  }

  /** Feeding a stream chunk by chunk. */
  function DecodeChunks(env: Env, changes: seq<Change>, v: Verdict, chunks: seq<seq<byte>>): Verdict
    decreases |chunks|
  {
    if chunks == [] then v
    else DecodeChunks(env, changes, Continue(env, changes, v, chunks[0]), chunks[1..])
  }

  function Concat(chunks: seq<seq<byte>>): seq<byte> {
    if chunks == [] then [] else chunks[0] + Concat(chunks[1..])
  }

  /** However a stream is split into non-empty chunks, the decoder ends where one pass over
      the whole stream ends: same outputs, counters, leftover bytes and accept/error verdict. */
  lemma {:induction false} ChunkingIrrelevant(
      env: Env, changes: seq<Change>, d: Counters, first: seq<byte>, chunks: seq<seq<byte>>)
    requires forall i :: 0 <= i < |chunks| ==> chunks[i] != []
    ensures DecodeChunks(env, changes, Decode(env, changes, d, first), chunks)
         == Decode(env, changes, d, first + Concat(chunks))
    decreases |chunks|
  {
    hide DecodeStep, Decode;
    if chunks == [] {
      assert first + [] == first;
    } else {
      DecodeSplit(env, changes, d, first, chunks[0]);
      ChunkingIrrelevant(env, changes, d, first + chunks[0], chunks[1..]);
      assert first + chunks[0] + Concat(chunks[1..]) == first + Concat(chunks);
    }
  }

  // ---- how much one call can leave and queue ----

  /** A finished decoder leaves nothing behind. */
  lemma {:induction false} CompleteLeavesNothing(env: Env, changes: seq<Change>, d: Counters, buf: seq<byte>)
    ensures var v := Decode(env, changes, d, buf);
            v.Ready? && v.dec.Complete() ==> v.rest == []
    decreases |buf|
  {
    hide DecodeStep;
    var s := DecodeStep(env, changes, d, buf);
    if s.Took? && s.n < |buf| {
      CompleteLeavesNothing(env, changes, s.dec, buf[s.n..]);
    }
  }

  /** Every queued output took at least 32 bytes. */
  lemma {:induction false} OutputsTake32(env: Env, changes: seq<Change>, d: Counters, buf: seq<byte>)
    ensures var v := Decode(env, changes, d, buf);
            v.Ready? ==> 32 * |v.outs| + |v.rest| <= |buf|
    decreases |buf|
  {
    hide DecodeStep;
    var s := DecodeStep(env, changes, d, buf);
    if s.Took? && s.n < |buf| {
      OutputsTake32(env, changes, s.dec, buf[s.n..]);
    }
  }

  /** The leftover is too short for the element it begins. */
  lemma {:induction false} LeftoverIsPartial(env: Env, changes: seq<Change>, d: Counters, buf: seq<byte>)
    ensures var v := Decode(env, changes, d, buf);
            v.Ready? && v.rest != [] ==> DecodeStep(env, changes, v.dec, v.rest).NeedMore?
    decreases |buf|
  {
    hide DecodeStep;
    var s := DecodeStep(env, changes, d, buf);
    if s.Took? && s.n < |buf| {
      LeftoverIsPartial(env, changes, s.dec, buf[s.n..]);
    }
  }

  /** A leftover of more than 32 bytes can only be the start of a 35-byte input or of a
      36-byte output. */
  lemma LongLeftover(env: Env, changes: seq<Change>, d: Counters, rest: seq<byte>, chunk: seq<byte>)
    requires |rest| > 32 && DecodeStep(env, changes, d, rest).NeedMore?
    ensures var s := DecodeStep(env, changes, d, rest + chunk);
            s.Took? ==> s.n >= 35
  {
    if d.remTokens == 0 && d.remInputs == 0 {
      assert (rest + chunk)[0] == rest[0];
      var w := ValueLength(rest[0]);
      assert (rest + chunk)[w + 1..w + 3] == rest[w + 1..w + 3];
    }
  }

  /** At most 8 outputs are queued by one call, and at most 290 bytes are ever buffered. */
  lemma AtMostEightOutputs(env: Env, changes: seq<Change>, d: Counters, rest: seq<byte>, chunk: seq<byte>)
    requires rest == [] || DecodeStep(env, changes, d, rest).NeedMore?
    requires |chunk| <= 255
    ensures var v := Decode(env, changes, d, rest + chunk);
            v.Ready? ==> |v.outs| <= 8
    ensures |rest + chunk| <= 290
  {
    var buf := rest + chunk;
    var s := DecodeStep(env, changes, d, buf);
    hide DecodeStep;
    if s.Took? {
      if |rest| > 32 { LongLeftover(env, changes, d, rest, chunk); }
      if s.n < |buf| { OutputsTake32(env, changes, s.dec, buf[s.n..]); }
    }
  }
}
