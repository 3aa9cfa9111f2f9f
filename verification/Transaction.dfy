/** Transactions as the client serialises them (tests/app_client/transaction.py), and the proof
    that the incremental decoder accepts exactly their encodings. */
module Transaction {
  import opened Bytes
  import opened Deserialize
  import opened Decoder

  datatype Element =
    | TokenUid(uid: seq<byte>)
    | Input(txId: seq<byte>, index: byte)
    | TxOutput(wide: bool, value: nat, tokenData: byte, pkh: seq<byte>)
  {
    /** Field sizes of the wire format. */
    predicate Valid() {
      match this
      case TokenUid(uid) => |uid| == TOKEN_UID_LEN
      case Input(txId, _) => |txId| == 32
      case TxOutput(wide, value, _, pkh) => ValueFits(wide, value) && |pkh| == PUBKEY_HASH_LEN
    }

    function Encode(): (s: seq<byte>)
      requires Valid()
      ensures |s| >= 32
    {
      match this
      case TokenUid(uid) => uid
      case Input(txId, index) => txId + [index] + [0, 0]
      case TxOutput(wide, value, tokenData, pkh) => EncodeOutput(wide, value, tokenData, pkh)
    }
  }

  predicate AllValid(es: seq<Element>) {
    forall i :: 0 <= i < |es| ==> es[i].Valid()
  }

  function EncodeAll(es: seq<Element>): (s: seq<byte>)
    requires AllValid(es)
    ensures es != [] ==> s != []
  {
    if es == [] then [] else es[0].Encode() + EncodeAll(es[1..])
  }

  /** Reference meaning of one element: what it must satisfy where it stands and what it adds. */
  function Apply(env: Env, changes: seq<Change>, d: Counters, e: Element): (r: Option<(Counters, seq<Output>)>)
    ensures r.Some? ==> r.value.0.outputsLen == d.outputsLen && r.value.0.current == d.current + |r.value.1|
  {
    match e
    case TokenUid(uid) =>
      var at := FindToken(env.registry, uid);
      if d.remTokens > 0 && at.Some?
      then Some((d.(remTokens := d.remTokens - 1, tokens := d.tokens + [at.value]), []))
      else None
    case Input(_, _) =>
      if d.remTokens == 0 && d.remInputs > 0
      then Some((d.(remInputs := d.remInputs - 1), []))
      else None
    case TxOutput(_, value, tokenData, pkh) =>
      var o := Output(d.current, value, tokenData, pkh);
      if d.remTokens == 0 && d.remInputs == 0 && d.current < d.outputsLen &&
         tokenData < 0x80 && tokenData <= |d.tokens| && ClaimsHold(env, changes, o)
      then Some((d.(current := d.current + 1), [o]))
      else None
  }

  function ApplyAll(env: Env, changes: seq<Change>, d: Counters, es: seq<Element>): (r: Option<(Counters, seq<Output>)>)
    ensures r.Some? ==> r.value.0.outputsLen == d.outputsLen && r.value.0.current == d.current + |r.value.1|
    decreases |es|
  {
    if es == [] then Some((d, []))
    else
      match Apply(env, changes, d, es[0])
      case None => None
      case Some((d', outs)) =>
        match ApplyAll(env, changes, d', es[1..])
        case None => None
        case Some((d'', more)) => Some((d'', outs + more))
  }

  // ---- decoder versus format, one element ----

  lemma StepAccepts(env: Env, changes: seq<Change>, d: Counters, e: Element, tail: seq<byte>)
    requires e.Valid() && Apply(env, changes, d, e).Some?
    ensures var (d', outs) := Apply(env, changes, d, e).value;
            DecodeStep(env, changes, d, e.Encode() + tail) == Took(d', |e.Encode()|, outs)
  {
    var buf := e.Encode() + tail;
    match e
    case TokenUid(uid) =>
      assert buf[..32] == uid;
    case Input(txId, index) =>
      assert buf[33..35] == [0, 0];
      ShiftForms(buf[33..35]);
    case TxOutput(wide, value, tokenData, pkh) =>
      ParseEncoded(wide, value, tokenData, pkh, tail);
  }

  /** The element at the front of a buffer from which one can be taken. */
  function ElementAt(env: Env, changes: seq<Change>, d: Counters, buf: seq<byte>): Element
    requires DecodeStep(env, changes, d, buf).Took?
  {
    if d.remTokens > 0 then TokenUid(buf[..32])
    else if d.remInputs > 0 then Input(buf[..32], buf[32])
    else
      var p := ParseOutput(buf);
      TxOutput(p.length == 36, p.value, p.tokenData, p.pkh)
  }

  lemma StepFinds(env: Env, changes: seq<Change>, d: Counters, buf: seq<byte>)
    requires DecodeStep(env, changes, d, buf).Took?
    ensures var e := ElementAt(env, changes, d, buf);
            var s := DecodeStep(env, changes, d, buf);
            && e.Valid() && e.Encode() == buf[..s.n]
            && Apply(env, changes, d, e) == Some((s.dec, s.outs))
  {
    if d.remTokens > 0 {
    } else if d.remInputs > 0 {
      ShiftForms(buf[33..35]);
      assert buf[33..35] == [0, 0];
      assert buf[..35] == buf[..32] + [buf[32]] + buf[33..35];
    } else {
      ParsedIsEncoded(buf);
    }
  }

  // ---- decoder versus format, whole streams ----

  /** Completeness: an acceptable list of elements decodes to what it means. */
  lemma {:induction false} DecodeAccepts(env: Env, changes: seq<Change>, d: Counters, es: seq<Element>)
    requires AllValid(es) && es != [] && ApplyAll(env, changes, d, es).Some?
    ensures var (d', outs) := ApplyAll(env, changes, d, es).value;
            Decode(env, changes, d, EncodeAll(es)) == Ready(d', [], outs)
    decreases |es|
  {
    hide DecodeStep;
    var (d1, outs1) := Apply(env, changes, d, es[0]).value;
    var tail := EncodeAll(es[1..]);
    StepAccepts(env, changes, d, es[0], tail);
    hide Apply;
    var first := es[0].Encode();
    assert (first + tail)[|first|..] == tail;
    if es[1..] == [] {
      assert outs1 + [] == outs1;
    } else {
      DecodeAccepts(env, changes, d1, es[1..]);
    }
  }

  /** The elements found in a stream. */
  function Elements(env: Env, changes: seq<Change>, d: Counters, buf: seq<byte>): seq<Element>
    decreases |buf|
  {
    match DecodeStep(env, changes, d, buf)
    case NeedMore => []
    case Invalid => []
    case Took(d', n, outs) =>
      [ElementAt(env, changes, d, buf)] + if n == |buf| then [] else Elements(env, changes, d', buf[n..])
  }

  /** The verdict `v` on `buf` is that of the elements `es`, up to the leftover. */
  predicate Explains(env: Env, changes: seq<Change>, d: Counters, es: seq<Element>, buf: seq<byte>, v: Verdict) {
    && AllValid(es) && v.Ready? && buf == EncodeAll(es) + v.rest
    && ApplyAll(env, changes, d, es) == Some((v.dec, v.outs))
  }

  lemma ExplainsCons(env: Env, changes: seq<Change>, d: Counters, e: Element, d': Counters, outs: seq<Output>,
                     es: seq<Element>, tail: seq<byte>, v: Verdict)
    requires e.Valid() && Apply(env, changes, d, e) == Some((d', outs))
    requires Explains(env, changes, d', es, tail, v)
    ensures Explains(env, changes, d, [e] + es, e.Encode() + tail, v.After(outs))
  {
    hide Apply, Element.Encode, Element.Valid;
    var all := [e] + es;
    assert all[0] == e && all[1..] == es;
    assert e.Encode() + (EncodeAll(es) + v.rest) == (e.Encode() + EncodeAll(es)) + v.rest;
  }

  lemma ExplainsOneMore(env: Env, changes: seq<Change>, d: Counters, es: seq<Element>, buf: seq<byte>, v: Verdict)
    requires var s := DecodeStep(env, changes, d, buf);
             s.Took? && Explains(env, changes, s.dec, es, buf[s.n..], v)
    ensures Explains(env, changes, d, [ElementAt(env, changes, d, buf)] + es, buf,
                     v.After(DecodeStep(env, changes, d, buf).outs))
  {
    hide DecodeStep, ElementAt, Apply, Explains, Element.Encode, Element.Valid;
    var s := DecodeStep(env, changes, d, buf);
    StepFinds(env, changes, d, buf);
    ExplainsCons(env, changes, d, ElementAt(env, changes, d, buf), s.dec, s.outs, es, buf[s.n..], v);
    assert buf == buf[..s.n] + buf[s.n..];
  }

  /** Soundness: whatever is decoded is the encoding of acceptable elements. */
  lemma {:induction false} DecodeFinds(env: Env, changes: seq<Change>, d: Counters, buf: seq<byte>)
    requires Decode(env, changes, d, buf).Ready?
    ensures Explains(env, changes, d, Elements(env, changes, d, buf), buf, Decode(env, changes, d, buf))
    decreases |buf|
  {
    hide DecodeStep, ElementAt;
    var s := DecodeStep(env, changes, d, buf);
    if s.Took? {
      if s.n == |buf| {
        ExplainsOneMore(env, changes, d, [], buf, Ready(s.dec, [], []));
        hide Explains;
        assert s.outs + [] == s.outs;
      } else {
        hide Explains;
        DecodeFinds(env, changes, s.dec, buf[s.n..]);
        ExplainsOneMore(env, changes, d, Elements(env, changes, s.dec, buf[s.n..]), buf,
                        Decode(env, changes, s.dec, buf[s.n..]));
      }
    }
  }

  // ---- transactions ----

  datatype Tx = Tx(version: nat, tokens: seq<Element>, inputs: seq<Element>, outputs: seq<Element>)
  {
    function Body(): seq<Element> {
      tokens + inputs + outputs
    }

    predicate Valid() {
      && version < 0x1_0000 && |tokens| < 256 && |inputs| < 256 && |outputs| < 256
      && (forall i :: 0 <= i < |tokens| ==> tokens[i].TokenUid?)
      && (forall i :: 0 <= i < |inputs| ==> inputs[i].Input?)
      && (forall i :: 0 <= i < |outputs| ==> outputs[i].TxOutput?)
      && AllValid(Body())
    }

    function Header(): (s: seq<byte>)
      requires Valid()
      ensures |s| == 5
    {
      OctetPowers();
      ToBytes(version, 2) + [|tokens|, |inputs|, |outputs|]
    }

    function Start(): Counters {
      Counters(|tokens|, |inputs|, |outputs|, 0, [])
    }

    /** The `sighash_all` data: everything after the change information. */
    function Serialize(): seq<byte>
      requires Valid()
    {
      Header() + EncodeAll(Body())
    }
  }

  /** The serialisation, byte by byte: version in two bytes, the three counts, then the elements one
      after the other (outputs are laid out by `OutputLayout`). */
  lemma SerializeLayout(tx: Tx, m: seq<byte>)
    requires tx.Valid() && m == tx.Serialize()
    ensures |m| >= 5 && tx.version == m[0] as int * 0x100 + m[1]
    ensures m[2] == |tx.tokens| && m[3] == |tx.inputs| && m[4] == |tx.outputs|
    ensures m[5..] == EncodeAll(tx.tokens + tx.inputs + tx.outputs)
  {
    hide Element.Valid, EncodeAll, ToBytes, BigEndian, Numerals.Pow;
    OctetPowers();
    var v := ToBytes(tx.version, 2);
    BigEndianToBytes(tx.version, 2);
    ShiftForms(v);
    assert m[0] == v[0] && m[1] == v[1];
  }

  lemma {:induction false} EncodeAllGrows(es: seq<Element>, e: Element)
    requires AllValid(es) && e.Valid()
    ensures EncodeAll(es + [e]) == EncodeAll(es) + e.Encode()
    decreases |es|
  {
    hide Element.Valid, Element.Encode;
    if es == [] {
      assert [e][1..] == [];
      assert EncodeAll([e]) == e.Encode() + EncodeAll([]);
    } else {
      assert (es + [e])[1..] == es[1..] + [e];
      EncodeAllGrows(es[1..], e);
    }
  }

  /** A token is its 32-byte uid, an input 35 bytes: transaction id, index and an empty data field. An
      output starts with its value and ends with the script that pays its key hash. */
  lemma ElementLayout(e: Element, s: seq<byte>)
    requires e.Valid() && s == e.Encode()
    ensures e.TokenUid? ==> |s| == 32 && s == e.uid
    ensures e.Input? ==> |s| == 35 && s[..32] == e.txId && s[32] == e.index && s[33] == 0 && s[34] == 0
    ensures e.TxOutput? ==> && |s| == (if e.wide then 36 else 32) && (s[0] >= 0x80 <==> e.wide)
                            && ParseOutput(s) == Parsed(e.value, e.tokenData, e.pkh, |s|)
  {
    if e.TxOutput? {
      hide ParseOutput, ToBytes, BigEndian;
      ParseEncoded(e.wide, e.value, e.tokenData, e.pkh, []);
      EncodedValue(e.wide, e.value);
      assert s + [] == s && |Script(e.pkh)| == 25;
      assert s[0] == EncodeValue(e.wide, e.value)[0];
    }
  }

  /** An accepted list puts tokens first, then inputs, then outputs. */
  lemma {:induction false} AppliedInOrder(env: Env, changes: seq<Change>, d: Counters, es: seq<Element>)
    requires ApplyAll(env, changes, d, es).Some?
    ensures forall i :: 0 <= i < |es| ==>
              && (es[i].TokenUid? <==> i < d.remTokens)
              && (es[i].Input? <==> d.remTokens <= i < d.remTokens + d.remInputs)
    ensures var d' := ApplyAll(env, changes, d, es).value.0;
            d.current <= d.outputsLen ==>
              && d'.current <= d'.outputsLen
              && (d'.Complete() ==> |es| == d.remTokens + d.remInputs + d.outputsLen - d.current)
    decreases |es|
  {
    if es == [] {
    } else {
      var (d1, _) := Apply(env, changes, d, es[0]).value;
      AppliedInOrder(env, changes, d1, es[1..]);
      forall i | 0 <= i < |es|
        ensures es[i].TokenUid? <==> i < d.remTokens
        ensures es[i].Input? <==> d.remTokens <= i < d.remTokens + d.remInputs
      {
        if i > 0 { assert es[i] == es[1..][i - 1]; }
      }
    }
  }

  /** The decoder at the header of a message. */
  function StartOf(message: seq<byte>): Counters
    requires |message| >= 5
  {
    Counters(message[2], message[3], message[4], 0, [])
  }

  /** A message decoded to the end is the serialisation of exactly one transaction, every
      element of which is acceptable; the outputs queued are its outputs. */
  function TxOf(env: Env, changes: seq<Change>, message: seq<byte>): Tx
    requires |message| >= 5
  {
    var d := StartOf(message);
    var es := Elements(env, changes, d, message[5..]);
    if |es| < d.remTokens + d.remInputs then Tx(0, [], [], [])
    else Tx(BigEndian(message[..2]), es[..d.remTokens], es[d.remTokens..d.remTokens + d.remInputs],
            es[d.remTokens + d.remInputs..])
  }

  lemma TxFrom(version: nat, d: Counters, es: seq<Element>)
    requires version < 0x1_0000 && AllValid(es)
    requires d.remTokens < 256 && d.remInputs < 256 && d.outputsLen < 256
    requires |es| == d.remTokens + d.remInputs + d.outputsLen
    requires forall i :: 0 <= i < |es| ==>
              && (es[i].TokenUid? <==> i < d.remTokens)
              && (es[i].Input? <==> d.remTokens <= i < d.remTokens + d.remInputs)
    ensures var tx := Tx(version, es[..d.remTokens], es[d.remTokens..d.remTokens + d.remInputs],
                         es[d.remTokens + d.remInputs..]);
            && tx.Valid() && tx.Body() == es
            && |tx.tokens| == d.remTokens && |tx.inputs| == d.remInputs && |tx.outputs| == d.outputsLen
  {
    hide Element.Valid;
    var t, n := d.remTokens, d.remTokens + d.remInputs;
    assert es == es[..t] + es[t..n] + es[n..];
    forall i | 0 <= i < |es[n..]|
      ensures es[n..][i].TxOutput?
    {
      assert es[n..][i] == es[n + i];
    }
  }

  lemma DecodedIsTransaction(env: Env, changes: seq<Change>, message: seq<byte>)
    requires |message| >= 5
    requires var v := Decode(env, changes, StartOf(message), message[5..]);
             v.Ready? && v.dec.Complete()
    ensures var v := Decode(env, changes, StartOf(message), message[5..]);
            var tx := TxOf(env, changes, message);
            && tx.Valid() && message == tx.Serialize() && StartOf(message) == tx.Start()
            && v.rest == [] && |v.outs| == |tx.outputs|
            && ApplyAll(env, changes, tx.Start(), tx.Body()) == Some((v.dec, v.outs))
  {
    hide Decode, DecodeStep, Elements, Apply, ApplyAll, EncodeAll, AllValid, Element.Valid;
    var d := StartOf(message);
    var body := message[5..];
    var v := Decode(env, changes, d, body);
    CompleteLeavesNothing(env, changes, d, body);
    DecodeFinds(env, changes, d, body);
    var es := Elements(env, changes, d, body);
    AppliedInOrder(env, changes, d, es);
    var version := BigEndian(message[..2]);
    OctetPowers();
    TxFrom(version, d, es);
    hide Element.Valid, Tx.Valid, Tx.Body;
    ToBytesBigEndian(message[..2]);
    assert message == (message[..2] + [message[2], message[3], message[4]]) + body;
    assert body == EncodeAll(es) + [] == EncodeAll(es);
  }
}
