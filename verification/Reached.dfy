/** Runs that reach the edges: a screen whose amount line is too long, a session whose signatures
    differ, a call that queues eight outputs. */
module Reached {
  import opened Bytes
  import opened Decoder
  import opened Deserialize
  import opened Prelude
  import opened Review
  import opened Transaction
  import opened Session
  import opened Safety
  import opened Approval
  import opened NumberText
  import opened ScreenText
  import opened TokenRoom
  import Honest

  /** A transaction with these tokens, one output and no input, which needs no change. */
  function Single(tokens: seq<Element>, e: Element): Tx {
    Tx(1, tokens, [], [e])
  }

  /** The state after a single-output transaction sent in one chunk. */
  function Asking(env: Env, tokens: seq<Element>, e: Element): (c: Context)
    requires e.TxOutput? && Honest.WellFormed(env, [], Single(tokens, e))
  {
    var o := Output(0, e.value, e.tokenData, e.pkh);
    Begun().(
      hash := HashContext(Single(tokens, e).Serialize(), 0), batch := [o], prompt := ShowOutput(o, 1, 1),
      dec := Counters(0, 0, 1, 1, Honest.Positions(env, tokens)))
  }

  lemma SingleDecodes(env: Env, tokens: seq<Element>, e: Element)
    requires e.TxOutput? && Honest.WellFormed(env, [], Single(tokens, e))
    ensures var m := Single(tokens, e).Serialize();
            && |m| >= 5 && m[4] == 1
            && Decode(env, [], StartOf(m), m[5..])
               == Ready(Counters(0, 0, 1, 1, Honest.Positions(env, tokens)), [],
                        [Output(0, e.value, e.tokenData, e.pkh)])
  {
    hide Decode, EncodeAll, Element.Valid, Honest.OutputsFine, Honest.Positions, ApplyAll;
    var tx := Single(tokens, e);
    Honest.WellFormedDecodes(env, [], tx);
    Honest.HeaderStarts(tx, tx.Serialize());
    assert Outputs(tx) == [Output(0, e.value, e.tokenData, e.pkh)] by {
      assert tx.outputs[1..] == [];
    }
    assert tx.Serialize()[..5] == tx.Header();
    assert tx.Serialize()[5..] == EncodeAll(tx.Body());
    assert tx.Serialize()[4] == tx.Header()[4];
  }

  /** Sent in one chunk, a well-formed single-output transaction has its output on screen. */
  lemma SingleShown(env: Env, tokens: seq<Element>, e: Element, bytes: Payload)
    requires e.TxOutput? && Honest.WellFormed(env, [], Single(tokens, e))
    requires bytes == [0] + Single(tokens, e).Serialize()
    ensures Run(env, [Data(0, bytes)]) == World(Asking(env, tokens, e), [])
  {
    hide Decode, Honest.OutputsFine, Honest.Positions, Element.Valid, EncodeAll, Tx.Header;
    var m := Single(tokens, e).Serialize();
    SingleDecodes(env, tokens, e);
    Honest.FirstChunkOpens(env, [], [0], m);
    hide FirstChunk, ReadChangeInfo;
    assert [] + [Data(0, bytes)] == [Data(0, bytes)];
    RunNext(env, [], Data(0, bytes));
  }

  /** Accepting it and the sending approves the session, with nothing signed yet. */
  lemma SingleApproved(env: Env, tokens: seq<Element>, e: Element, bytes: Payload)
    requires e.TxOutput? && Honest.WellFormed(env, [], Single(tokens, e))
    requires bytes == [0] + Single(tokens, e).Serialize()
    ensures var c := Run(env, [Data(0, bytes), Accept, Accept]).ctx;
            && c.stage == Approved && c.prompt == NoPrompt && c.sighash == NoDigest()
            && c.hash == HashContext(Single(tokens, e).Serialize(), 0)
  {
    hide Honest.OutputsFine, Honest.Positions, Element.Valid, EncodeAll, Tx.Header, Run;
    var es: seq<Event> := [Data(0, bytes)];
    SingleShown(env, tokens, e, bytes);
    RunNext(env, es, Accept);
    RunNext(env, es + [Accept], Accept);
    assert es + [Accept] + [Accept] == [Data(0, bytes), Accept, Accept];
  }

  // ---- an amount line that is too long ----

  /** The amount line of a registered token overruns its buffer whenever the symbol leaves no room
      for the value: this one-chunk transaction puts it on screen. */
  lemma OverlongAmountRun(
      env: Env, version: byte, uid: seq<byte>, value: nat, pkh: seq<byte>, bytes: Payload, w: World)
    requires |uid| == TOKEN_UID_LEN && |pkh| == PUBKEY_HASH_LEN && 0 < value <= MAX_VALUE
    requires ShortSymbols(env.registry) && FindToken(env.registry, uid).Some?
    requires !LineHasRoom(|CString(env.registry[FindToken(env.registry, uid).value].symbol)|, value)
    requires bytes == [0, 0, 1, 1, 0, 1] + uid + EncodeOutput(true, value, 1, pkh)
    requires w == Run(env, [Data(0, bytes)])
    ensures |bytes| == 74 && w.ctx.prompt.ShowOutput?
    ensures var p := w.ctx.prompt;
            && HasSymbol(env, w.ctx.dec.tokens, p.output) && |p.output.pkh| == PUBKEY_HASH_LEN
            && |Shown(env, version, w.ctx.dec.tokens, p.output, p.number, p.total).amount| + 1 > AMOUNT_BUFFER
  {
    hide Run, LineHasRoom, AmountText, CString, FindToken, EncodeOutput, NatText, Base58.Encode, Address;
    var tokens, e := [TokenUid(uid)], TxOutput(true, value, 1, pkh);
    FineTokenOutput(env, uid, e);
    SpelledOut(uid, e);
    SingleShown(env, tokens, e, bytes);
    var symbol := CString(env.registry[FindToken(env.registry, uid).value].symbol);
    AmountLineFits(|symbol|, value);
  }

  lemma FineTokenOutput(env: Env, uid: seq<byte>, e: Element)
    requires |uid| == TOKEN_UID_LEN && FindToken(env.registry, uid).Some?
    requires e.TxOutput? && e.Valid() && e.tokenData == 1
    ensures Honest.WellFormed(env, [], Single([TokenUid(uid)], e))
  {
    hide FindToken;
  }

  lemma SpelledOut(uid: seq<byte>, e: Element)
    requires |uid| == TOKEN_UID_LEN && e.TxOutput? && e.Valid() && e.wide
    ensures var tx := Single([TokenUid(uid)], e);
            && tx.Valid()
            && [0] + tx.Serialize() == [0, 0, 1, 1, 0, 1] + uid + EncodeOutput(true, e.value, e.tokenData, e.pkh)
            && |EncodeOutput(true, e.value, e.tokenData, e.pkh)| == 36
  {
    var tx := Single([TokenUid(uid)], e);
    SingleHeader([TokenUid(uid)], e);
    hide Tx.Header;
    assert tx.Body() == [TokenUid(uid), e];
    assert tx.Body()[1..] == [e] && [e][1..] == [];
    assert EncodeAll([e]) == e.Encode();
    assert EncodeAll(tx.Body()) == uid + e.Encode();
  }

  lemma SingleHeader(tokens: seq<Element>, e: Element)
    requires Single(tokens, e).Valid()
    ensures Single(tokens, e).Header() == [0, 1, |tokens|, 0, 1]
  {
    hide Element.Valid;
    assert ToBytes(1, 2) == ToBytes(0, 1) + [1] && ToBytes(0, 1) == ToBytes(0, 0) + [0];
  }

  // ---- two signatures of one session ----

  /** The first two signatures of a session: the first is always over the double SHA-256 of the
      message; the second is too, exactly as far as that does not begin with a zero byte. */
  lemma SecondSignature(env: Env, es: seq<Event>, path: Payload, path': Payload, c: Context, c': Context)
    requires c == Run(env, es).ctx && c.hash.rounds == 0 && React(env, c, Sign(path)).reply.Signature?
    requires c' == Run(env, es + [Sign(path)]).ctx && React(env, c', Sign(path')).reply.Signature?
    ensures ReadPath(path).Some? && ReadPath(path').Some?
    ensures var d := DoubleSha(env, c.hash.message);
            var second := if d[0] != 0 then d else Respent(env, c.hash.message, 1);
            && React(env, c, Sign(path)).reply == Signature(env.ecdsa(ReadPath(path).value, d))
            && React(env, c', Sign(path')).reply == Signature(env.ecdsa(ReadPath(path').value, second))
  {
    RunNext(env, es, Sign(path));
    RunKeepsDigest(env, es);
    RunKeepsDigest(env, es + [Sign(path)]);
    SignatureOnlyWhenApproved(env, c, Sign(path));
    SignatureOnlyWhenApproved(env, c', Sign(path'));
    hide Run, ReadPath;
  }

  /** The zero byte that marks an empty cache costs something: on a device whose digest begins with
      it, this run gets two different signatures for one key. */
  lemma ZeroDigestIsNotKept() returns (env: Env, es: seq<Event>, path: Payload)
    ensures var first, second := React(env, Run(env, es).ctx, Sign(path)).reply,
                                 React(env, Run(env, es + [Sign(path)]).ctx, Sign(path)).reply;
            first.Signature? && second.Signature? && first != second
  {
    var e := TxOutput(false, 0, 0, seq(20, _ => 0));
    env := ZeroDigests();
    FineOutput(env, e);
    ShortMessage(e);
    var bytes: Payload := [0] + Single([], e).Serialize();
    es := [Data(0, bytes), Accept, Accept];
    path := [1, 0, 0, 0, 0];
    SingleApproved(env, [], e, bytes);
    ShortPath();
    ZeroDigestsDiffer(Single([], e).Serialize());
    hide Run, ReadPath, ZeroDigests, Tx.Serialize, React;
    var c := Run(env, es).ctx;
    var c' := Run(env, es + [Sign(path)]).ctx;
    RunNext(env, es, Sign(path));
    SignedTwice(env, es, path, c, c');
    SecondSignature(env, es, path, path, c, c');
  }

  /** A device whose messages digest to zeros, but whose spent hash contexts do not. */
  function ZeroDigests(): Env {
    var zeros: Digest := seq(32, _ => 0);
    var sevens: Digest := seq(32, _ => 7);
    Env([], (_, _) => true, s => if s == sevens then sevens else zeros, (_, _) => sevens, (_, d) => d)
  }

  lemma ZeroDigestsDiffer(message: seq<byte>)
    requires |message| == 37
    ensures var env := ZeroDigests();
            var d, d' := DoubleSha(env, message), Respent(env, message, 1);
            d[0] == 0 && env.ecdsa([0], d) != env.ecdsa([0], d')
  {
    var zeros: Digest := seq(32, _ => 0);
    var sevens: Digest := seq(32, _ => 7);
    assert zeros[0] == 0 && sevens[0] == 7;
  }

  /** An approved session signs for a readable path as often as it is asked. */
  lemma SignedTwice(env: Env, es: seq<Event>, path: Payload, c: Context, c': Context)
    requires c == Run(env, es).ctx && c' == Run(env, es + [Sign(path)]).ctx
    requires c.stage == Approved && c.prompt == NoPrompt
    requires ReadPath(path).Some? && ReadPath(path).value != []
    ensures React(env, c, Sign(path)).reply.Signature? && React(env, c', Sign(path)).reply.Signature?
  {
    RunNext(env, es, Sign(path));
    SignatureOnlyWhenApproved(env, c, Sign(path));
    SignatureOnlyWhenApproved(env, c', Sign(path));
    hide Run, ReadPath;
  }

  lemma ShortPath()
    ensures ReadPath([1, 0, 0, 0, 0]) == Some([0])
  {
    var s: seq<byte> := [1, 0, 0, 0, 0];
    assert s[1..5] == [0, 0, 0, 0];
    ShiftForm32([0, 0, 0, 0]);
    assert Words(s, 1, 1) == [0];
  }

  lemma FineOutput(env: Env, e: Element)
    requires e.TxOutput? && e.Valid() && e.tokenData == 0
    ensures Honest.WellFormed(env, [], Single([], e))
  {
  }

  lemma ShortMessage(e: Element)
    requires e.TxOutput? && e.Valid() && !e.wide
    ensures Single([], e).Valid() && |Single([], e).Serialize()| == 37
  {
    hide Tx.Header;
    var body := Single([], e).Body();
    assert body == [e] && body[1..] == [];
    assert EncodeAll(body) == e.Encode() + EncodeAll([]);
    assert |Script(e.pkh)| == SCRIPT_LEN && |EncodeValue(false, e.value)| == 4;
    assert |e.Encode()| == 32;
  }

  // ---- eight outputs at once ----

  /** Eight outputs of the short form, as many as one call can queue. */
  predicate EightShort(es: seq<Element>) {
    |es| == 8 && forall i :: 0 <= i < 8 ==> es[i].TxOutput? && es[i].Valid() && !es[i].wide && es[i].tokenData == 0
  }

  lemma EightDecode(env: Env, es: seq<Element>)
    requires EightShort(es)
    ensures AllValid(es) && |EncodeAll(es)| == 256
    ensures var v := Decode(env, [], Counters(0, 0, 8, 0, []), EncodeAll(es));
            v.Ready? && v.rest == [] && |v.outs| == 8 && v.dec.outputsLen == 8
    ensures DecodeStep(env, [], Counters(0, 0, 8, 0, []), EncodeAll(es)[..1]).NeedMore?
  {
    var d := Counters(0, 0, 8, 0, []);
    assert Honest.OutputsFine(env, [], es, 0, 0);
    Honest.OutputsApply(env, [], d, es);
    ShortElements(es);
    hide DecodeStep;
    DecodeAccepts(env, [], d, es);
    OneByteIsShort(env, d, EncodeAll(es)[..1]);
  }

  lemma OneByteIsShort(env: Env, d: Counters, buf: seq<byte>)
    requires d.remTokens == 0 && d.remInputs == 0 && d.current < d.outputsLen && |buf| == 1
    ensures DecodeStep(env, [], d, buf).NeedMore?
  {
  }

  lemma {:induction false} ShortElements(es: seq<Element>)
    requires forall i :: 0 <= i < |es| ==> es[i].TxOutput? && es[i].Valid() && !es[i].wide
    ensures AllValid(es) && |EncodeAll(es)| == 32 * |es|
    decreases |es|
  {
    if es == [] {
    } else {
      assert |Script(es[0].pkh)| == SCRIPT_LEN && |EncodeValue(false, es[0].value)| == 4;
      ShortElements(es[1..]);
    }
  }

  /** The bound of eight outputs a call is reached: one byte left over by the first chunk, and 255
      in the second. */
  lemma EightOutputsRun(env: Env, es: seq<Element>, first: Payload, second: Payload, w: World)
    requires EightShort(es) && AllValid(es) && |EncodeAll(es)| == 256
    requires first == [0, 0, 1, 0, 0, 8] + EncodeAll(es)[..1] && second == EncodeAll(es)[1..]
    requires w == Run(env, [Data(0, first), Data(1, second)])
    ensures w.ctx.prompt.ShowOutput? && |w.ctx.batch| == 8
  {
    hide Decode, DecodeStep, EncodeAll, EightShort;
    EightDecode(env, es);
    var s := EncodeAll(es);
    var m: seq<byte> := [0, 1, 0, 0, 8] + s[..1];
    assert first == [0] + m && m[5..] == s[..1];
    Honest.FirstChunkOpens(env, [], [0], m);
    hide FirstChunk, ReadChangeInfo;
    OneByteStays(env, s[..1]);
    var c := Opened([], m);
    assert Receive(env, c) == Outcome(c, Status(SW_OK));
    assert [] + [Data(0, first)] == [Data(0, first)];
    RunNext(env, [], Data(0, first));
    assert s[..1] + second == s;
    assert [Data(0, first)] + [Data(1, second)] == [Data(0, first), Data(1, second)];
    RunNext(env, [Data(0, first)], Data(1, second));
  }

  lemma OneByteStays(env: Env, buf: seq<byte>)
    requires DecodeStep(env, [], Counters(0, 0, 8, 0, []), buf).NeedMore?
    ensures Decode(env, [], Counters(0, 0, 8, 0, []), buf) == Ready(Counters(0, 0, 8, 0, []), buf, [])
  {
  }

  // ---- an eleventh token ----

  /** Eleven uids the registry knows; they need not differ. */
  predicate ElevenTokens(env: Env, es: seq<Element>) {
    && |es| == 11
    && forall i :: 0 <= i < 11 ==>
         es[i].TokenUid? && es[i].Valid() && FindToken(env.registry, es[i].uid).Some?
  }

  /** Tokens alone decode to as many stored tokens. */
  lemma TokensOnly(env: Env, d: Counters, es: seq<Element>)
    requires es != [] && |es| <= d.remTokens && AllValid(es)
    requires forall i :: 0 <= i < |es| ==> es[i].TokenUid? && FindToken(env.registry, es[i].uid).Some?
    ensures var v := Decode(env, [], d, EncodeAll(es));
            && v.Ready? && v.rest == [] && v.outs == [] && |v.dec.tokens| == |d.tokens| + |es|
            && v.dec.remTokens == d.remTokens - |es| && v.dec.remInputs == d.remInputs
            && v.dec.outputsLen == d.outputsLen && v.dec.current == d.current
  {
    hide FindToken, EncodeAll, ApplyAll, Element.Valid, Decode;
    Honest.TokensApply(env, [], d, es);
    DecodeAccepts(env, [], d, es);
  }

  lemma {:induction false} TokenBytes(es: seq<Element>)
    requires AllValid(es) && forall i :: 0 <= i < |es| ==> es[i].TokenUid?
    ensures |EncodeAll(es)| == TOKEN_UID_LEN * |es|
    decreases |es|
  {
    if es == [] {
    } else {
      TokenBytes(es[1..]);
    }
  }

  /** The token array of ten is overrun by every transaction that declares eleven registered tokens:
      seven arrive with the first chunk, four with the second. */
  lemma EleventhTokenRun(env: Env, es: seq<Element>, first: Payload, second: Payload, w: World)
    requires ElevenTokens(env, es) && AllValid(es)
    requires first == [0, 0, 1, 11, 0, 1] + EncodeAll(es[..7]) && second == EncodeAll(es[7..])
    requires w == Run(env, [Data(0, first), Data(1, second)])
    ensures |first| == 230 && |second| == 128
    ensures |w.ctx.dec.tokens| == 11 && w.ctx.stage == RecvData
    ensures !EventFits(env, Run(env, [Data(0, first)]).ctx, Data(1, second))
  {
    hide Decode, DecodeStep, EncodeAll, FindToken, Element.Valid, RoomForTokens;
    TokenBytes(es[..7]);
    TokenBytes(es[7..]);
    var m: seq<byte> := [0, 1, 11, 0, 1] + EncodeAll(es[..7]);
    var d := Counters(11, 0, 1, 0, []);
    assert first == [0] + m && m[5..] == EncodeAll(es[..7]) && StartOf(m) == d;
    TokensOnly(env, d, es[..7]);
    Honest.FirstChunkOpens(env, [], [0], m);
    hide FirstChunk, ReadChangeInfo;
    assert [] + [Data(0, first)] == [Data(0, first)];
    RunNext(env, [], Data(0, first));
    var c := Run(env, [Data(0, first)]).ctx;
    assert c.stage == RecvData && c.prompt == NoPrompt && c.buffer == [] && c.changes == [];
    TokensOnly(env, c.dec, es[7..]);
    assert [] + second == second;
    assert [Data(0, first)] + [Data(1, second)] == [Data(0, first), Data(1, second)];
    RunNext(env, [Data(0, first)], Data(1, second));
    if EventFits(env, c, Data(1, second)) { RoomMeans(env, [], c.dec, second); }
  }
}
