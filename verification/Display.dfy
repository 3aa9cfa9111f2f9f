/** In every run, whatever output is queued or on screen can be displayed: its token is one the
    transaction declared and the registry knows, and its lines fit the display buffers. */
module Display {
  import opened Bytes
  import opened Decoder
  import opened Deserialize
  import opened Prelude
  import opened Review
  import opened Session
  import opened NumberText
  import opened ScreenText
  import opened TokenRoom

  predicate KnownTokens(env: Env, d: Counters) {
    forall i :: 0 <= i < |d.tokens| ==> d.tokens[i] < |env.registry|
  }

  predicate CanShow(d: Counters, o: Output) {
    o.tokenData <= |d.tokens| && |o.pkh| == PUBKEY_HASH_LEN && o.value <= MAX_VALUE
  }

  predicate Displayable(env: Env, c: Context) {
    && KnownTokens(env, c.dec)
    && (forall i :: 0 <= i < |c.batch| ==> CanShow(c.dec, c.batch[i]))
    && (c.prompt.ShowOutput? ==>
          CanShow(c.dec, c.prompt.output) && c.prompt.number < 256 && c.prompt.total < 256)
  }

  lemma ParsedValueFits(buf: seq<byte>)
    ensures var p := ParseOutput(buf); p.Parsed? ==> p.value <= MAX_VALUE
  {
    if ParseOutput(buf).Parsed? {
      assert buf[..ValueLength(buf[0])][0] == buf[0];
    }
  }

  lemma StepDisplayable(env: Env, changes: seq<Change>, d: Counters, buf: seq<byte>)
    requires KnownTokens(env, d)
    ensures var s := DecodeStep(env, changes, d, buf);
            s.Took? ==> && KnownTokens(env, s.dec) && |d.tokens| <= |s.dec.tokens|
                        && forall i :: 0 <= i < |s.outs| ==> CanShow(s.dec, s.outs[i])
  {
    ParsedValueFits(buf);
    hide ParseOutput;
  }

  lemma {:induction false} DecodedDisplayable(env: Env, changes: seq<Change>, d: Counters, buf: seq<byte>)
    requires KnownTokens(env, d)
    ensures var v := Decode(env, changes, d, buf);
            v.Ready? ==> && KnownTokens(env, v.dec) && |d.tokens| <= |v.dec.tokens|
                         && forall i :: 0 <= i < |v.outs| ==> CanShow(v.dec, v.outs[i])
    decreases |buf|
  {
    hide DecodeStep;
    StepDisplayable(env, changes, d, buf);
    var s := DecodeStep(env, changes, d, buf);
    if s.Took? && s.n < |buf| { DecodedDisplayable(env, changes, s.dec, buf[s.n..]); }
  }

  lemma {:induction false} SkipDisplayable(env: Env, c: Context, sorted: seq<byte>)
    requires Displayable(env, c)
    ensures Displayable(env, SkipFrom(c, sorted).ctx)
    decreases |sorted|
  {
    if sorted == [] {
    } else {
      var c' := if c.confirmed == sorted[0] then Advance(c) else c;
      SkipDisplayable(env, c', sorted[1..]);
    }
  }

  lemma ShownDisplayable(env: Env, c: Context)
    requires Displayable(env, c)
    ensures Displayable(env, DisplayOutputs(c).ctx)
  {
    SkipDisplayable(env, c, Sorted(Indices(c.changes)));
  }

  lemma ConfirmedDisplayable(env: Env, c: Context)
    requires Displayable(env, c)
    ensures Displayable(env, ConfirmOutput(c, true).ctx)
  {
    SkipDisplayable(env, Advance(c), Sorted(Indices(c.changes)));
    hide SkipFrom;
    var r := SkipChanges(Advance(c));
    if r.Open? { ShownDisplayable(env, r.ctx); }
  }

  lemma ReceivedDisplayable(env: Env, c: Context)
    requires Displayable(env, c) && c.prompt == NoPrompt
    ensures Displayable(env, Receive(env, c).ctx)
  {
    DecodedDisplayable(env, c.changes, c.dec, c.buffer);
    hide Decode, DisplayOutputs;
    var v := Decode(env, c.changes, c.dec, c.buffer);
    if v.Ready? { ShownDisplayable(env, c.(dec := v.dec, buffer := v.rest, batch := v.outs)); }
  }

  lemma FirstChunkDisplayable(env: Env, bytes: Payload)
    ensures Displayable(env, FirstChunk(env, bytes).ctx)
  {
    hide ReadChangeInfo, Receive;
    var r := ReadChangeInfo(bytes);
    if r.Accepted? && |bytes[r.used..]| >= 5 { ReceivedDisplayable(env, Opened(r.changes, bytes[r.used..])); }
  }

  lemma EventDisplayable(env: Env, c: Context, e: Event)
    requires Displayable(env, c)
    ensures Displayable(env, React(env, c, e).ctx)
  {
    hide Receive, FirstChunk, ReadPath, ConfirmOutput, Finalised;
    match e {
      case Data(_, bytes) =>
        FirstChunkDisplayable(env, bytes);
        if c.prompt == NoPrompt {
          var c' := Entered(c);
          ReceivedDisplayable(env,
            c'.(hash := c'.hash.(message := c'.hash.message + bytes), buffer := c'.buffer + bytes));
        }
      case Sign(_) => FinalisedFrame(env, Entered(c));
      case Accept => ConfirmedDisplayable(env, c);
      case Reject => RejectClears(c);
      case _ =>
    }
  }

  lemma FinalisedFrame(env: Env, c: Context)
    ensures Finalised(env, c) == c.(sighash := Finalised(env, c).sighash, hash := Finalised(env, c).hash)
  {
  }

  lemma {:induction false} RunDisplayable(env: Env, es: seq<Event>)
    ensures Displayable(env, Run(env, es).ctx)
    decreases |es|
  {
    hide React;
    if es == [] {
    } else {
      RunDisplayable(env, es[..|es| - 1]);
      EventDisplayable(env, Run(env, es[..|es| - 1]).ctx, es[|es| - 1]);
    }
  }

  /** In any run, an output on screen has a token symbol and a public key hash; its index and its
      address fit the display, and its amount line exactly if the symbol leaves room for it. */
  lemma ScreenIsLegible(env: Env, version: byte, es: seq<Event>, c: Context)
    requires version == Base58.MAINNET || version == Base58.TESTNET
    requires c == Run(env, es).ctx && ShortSymbols(env.registry)
    ensures c.prompt.ShowOutput? ==>
              var o := c.prompt.output;
              && HasSymbol(env, c.dec.tokens, o) && |o.pkh| == PUBKEY_HASH_LEN
              && var lines := Shown(env, version, c.dec.tokens, o, c.prompt.number, c.prompt.total);
                 && |lines.index| + 1 <= INDEX_BUFFER
                 && |lines.address| + 1 == Base58.B58_ADDRESS_LEN
                 && (|lines.amount| + 1 <= AMOUNT_BUFFER <==> LineHasRoom(|Symbol(env, c.dec.tokens, o)|, o.value))
  {
    hide Run, Shown, LineHasRoom;
    RunDisplayable(env, es);
    if c.prompt.ShowOutput? {
      LinesFit(env, version, c.dec.tokens, c.prompt.output, c.prompt.number, c.prompt.total);
    }
  }

  /** In any run, the three lines of an output on screen read as its number and total, its value
      behind its symbol, and its public key hash in an address of this network. */
  lemma ScreenReads(env: Env, version: byte, es: seq<Event>, c: Context)
    requires c == Run(env, es).ctx
    ensures c.prompt.ShowOutput? ==>
              var o := c.prompt.output;
              && HasSymbol(env, c.dec.tokens, o) && |o.pkh| == PUBKEY_HASH_LEN
              && Reads(env, version, Shown(env, version, c.dec.tokens, o, c.prompt.number, c.prompt.total),
                       c.prompt.number, c.prompt.total, Symbol(env, c.dec.tokens, o), o.value, o.pkh)
  {
    hide Run, Shown, Symbol, Reads;
    RunDisplayable(env, es);
    if c.prompt.ShowOutput? {
      var o := c.prompt.output;
      LinesRead(env, version, c.dec.tokens, o, c.prompt.number, c.prompt.total,
                Shown(env, version, c.dec.tokens, o, c.prompt.number, c.prompt.total));
    }
  }

  /** In any run, the symbol of an output on screen is the registry's for the uid that the hashed
      bytes give to the output's token. */
  lemma SymbolIsOfHashedToken(env: Env, es: seq<Event>, c: Context)
    requires c == Run(env, es).ctx
    ensures c.prompt.ShowOutput? ==>
              var m, o := c.hash.message, c.prompt.output;
              && |m| >= 5 && HasSymbol(env, c.dec.tokens, o) && TOKEN_UID_LEN * o.tokenData <= |m[5..]|
              && (if o.tokenData == 0 then Symbol(env, c.dec.tokens, o) == "HTR"
                  else
                    var at := FindToken(env.registry, UidAt(m[5..], o.tokenData - 1));
                    at.Some? && Symbol(env, c.dec.tokens, o) == CString(env.registry[at.value].symbol))
  {
    hide Run, FindToken, CString;
    RunDisplayable(env, es);
    SessionTokens(env, es, c);
    RunSound(env, es);
    if c.prompt.ShowOutput? { PromptHasOutputs(env, c); }
  }

  lemma PromptHasOutputs(env: Env, c: Context)
    requires Sound(env, c) && c.prompt != NoPrompt
    ensures c.stage != Idle && c.dec.outputsLen > 0
  {
  }
}
