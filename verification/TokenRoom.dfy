/** The room in the array `tokens`, which `_decode_elements` fills without looking: when a stream
    overruns it, and which streams cannot. */
module TokenRoom {
  import opened Bytes
  import opened Decoder
  import opened Prelude
  import opened Review
  import opened Session
  import opened Transaction

  /** Decoding `buf` never stores more tokens than the array holds. */
  predicate RoomForTokens(env: Env, changes: seq<Change>, d: Counters, buf: seq<byte>)
    decreases |buf|
  {
    match DecodeStep(env, changes, d, buf)
    case Took(d', n, _) =>
      |d'.tokens| <= TX_MAX_TOKENS && (n < |buf| ==> RoomForTokens(env, changes, d', buf[n..]))
    case _ => true
  }

  predicate HasRoom(env: Env, c: Context) {
    RoomForTokens(env, c.changes, c.dec, c.buffer)
  }

  /** Handling `e` in `c` never stores more tokens than the array holds. A first chunk is too short
      to do so (`FirstChunkHasRoom`). */
  predicate EventFits(env: Env, c: Context, e: Event) {
    e.Data? && c.prompt == NoPrompt && e.chunk > 0 && c.stage == RecvData ==>
      HasRoom(env, c.(buffer := c.buffer + e.bytes))
  }

  lemma RoomNext(env: Env, changes: seq<Change>, d: Counters, buf: seq<byte>)
    requires RoomForTokens(env, changes, d, buf)
    ensures match DecodeStep(env, changes, d, buf)
            case Took(d', n, _) =>
              |d'.tokens| <= TX_MAX_TOKENS && (n < |buf| ==> RoomForTokens(env, changes, d', buf[n..]))
            case _ => true
  {
  }

  /** What fits is what the decoder ends with. */
  lemma {:induction false} RoomMeans(env: Env, changes: seq<Change>, d: Counters, buf: seq<byte>)
    requires RoomForTokens(env, changes, d, buf) && |d.tokens| <= TX_MAX_TOKENS
    ensures var v := Decode(env, changes, d, buf);
            v.Ready? ==> |v.dec.tokens| <= TX_MAX_TOKENS
    decreases |buf|
  {
    hide DecodeStep;
    var s := DecodeStep(env, changes, d, buf);
    if s.Took? && s.n < |buf| { RoomMeans(env, changes, s.dec, buf[s.n..]); }
  }

  // ---- when there is room ----

  function UidAt(buf: seq<byte>, i: nat): seq<byte>
    requires TOKEN_UID_LEN * (i + 1) <= |buf|
  {
    buf[TOKEN_UID_LEN * i..TOKEN_UID_LEN * (i + 1)]
  }

  /** From counters `d`, the bytes `buf` bring one registered token more than there is room for. */
  predicate Overfills(registry: seq<TokenSymbol>, d: Counters, buf: seq<byte>)
    requires |d.tokens| <= TX_MAX_TOKENS
  {
    var room := TX_MAX_TOKENS - |d.tokens|;
    && d.remTokens > room && |buf| >= TOKEN_UID_LEN * (room + 1)
    && forall i :: 0 <= i <= room ==> FindToken(registry, UidAt(buf, i)).Some?
  }

  lemma OverfillsNext(registry: seq<TokenSymbol>, d: Counters, d': Counters, buf: seq<byte>)
    requires |d.tokens| < TX_MAX_TOKENS && d.remTokens > 0 && |buf| >= TOKEN_UID_LEN
    requires FindToken(registry, UidAt(buf, 0)).Some?
    requires |d'.tokens| == |d.tokens| + 1 && d'.remTokens == d.remTokens - 1
    ensures Overfills(registry, d, buf) <==> Overfills(registry, d', buf[TOKEN_UID_LEN..])
  {
    hide FindToken;
    var room, rest := TX_MAX_TOKENS - |d.tokens|, buf[TOKEN_UID_LEN..];
    if |buf| >= TOKEN_UID_LEN * (room + 1) {
      forall i | 0 <= i < room ensures UidAt(rest, i) == UidAt(buf, i + 1) {
        UidShift(buf, i);
      }
      if Overfills(registry, d', rest) {
        forall i | 0 <= i <= room ensures FindToken(registry, UidAt(buf, i)).Some? {
          if i > 0 { assert UidAt(rest, i - 1) == UidAt(buf, i); }
        }
      }
    }
  }

  lemma UidShift(buf: seq<byte>, i: nat)
    requires TOKEN_UID_LEN * (i + 2) <= |buf|
    ensures UidAt(buf[TOKEN_UID_LEN..], i) == UidAt(buf, i + 1)
  {
  }

  /** The array is overrun exactly if more tokens are declared than there is room for, and the first
      of them that has none, like all before it, has arrived and is registered. */
  lemma {:induction false} RoomExactly(env: Env, changes: seq<Change>, d: Counters, buf: seq<byte>)
    requires |d.tokens| <= TX_MAX_TOKENS
    ensures RoomForTokens(env, changes, d, buf) <==> !Overfills(env.registry, d, buf)
    decreases |buf|
  {
    hide FindToken;
    if d.remTokens == 0 {
      FewTokensFit(env, changes, d, buf);
    } else if |buf| >= TOKEN_UID_LEN {
      assert UidAt(buf, 0) == buf[..TOKEN_UID_LEN];
      var s := DecodeStep(env, changes, d, buf);
      if s.Took? && |d.tokens| < TX_MAX_TOKENS {
        OverfillsNext(env.registry, d, s.dec, buf);
        if s.n < |buf| { RoomExactly(env, changes, s.dec, buf[s.n..]); }
      }
    }
  }

  /** There is room whenever no more tokens are declared than the array holds. */
  lemma {:induction false} FewTokensFit(env: Env, changes: seq<Change>, d: Counters, buf: seq<byte>)
    requires |d.tokens| + d.remTokens <= TX_MAX_TOKENS
    ensures RoomForTokens(env, changes, d, buf)
    decreases |buf|
  {
    hide DecodeStep;
    StepKeepsSum(env, changes, d, buf);
    var s := DecodeStep(env, changes, d, buf);
    if s.Took? && s.n < |buf| { FewTokensFit(env, changes, s.dec, buf[s.n..]); }
  }

  lemma StepKeepsSum(env: Env, changes: seq<Change>, d: Counters, buf: seq<byte>)
    ensures var s := DecodeStep(env, changes, d, buf);
            s.Took? ==> |s.dec.tokens| + s.dec.remTokens == |d.tokens| + d.remTokens
  {
  }

  /** Seven tokens at most arrive with a first chunk. */
  lemma FirstChunkHasRoom(env: Env, changes: seq<Change>, rest: seq<byte>)
    requires 5 <= |rest| <= 255
    ensures HasRoom(env, Opened(changes, rest))
  {
    var c := Opened(changes, rest);
    RoomExactly(env, c.changes, c.dec, c.buffer);
  }

  // ---- runs that declare few tokens ----

  /** If `e` is a first chunk with a header, it declares at most TX_MAX_TOKENS tokens. */
  predicate DeclaresFew(e: Event) {
    e.Data? && e.chunk == 0 ==>
      match ReadChangeInfo(e.bytes)
      case Refused(_) => true
      case Accepted(_, used) => |e.bytes| > used + 2 ==> e.bytes[used + 2] <= TX_MAX_TOKENS
  }

  /** The third byte behind the announcement is what counts. */
  lemma DeclaresFewMeans(changes: seq<Change>, m: seq<byte>, bytes: Payload)
    requires AreChanges(changes) && |changes| <= TX_MAX_TOKENS + 1 && bytes == EncodeV1(changes) + m
    ensures DeclaresFew(Data(0, bytes)) <==> |m| <= 2 || m[2] <= 10
  {
    V1RoundTrip(changes, EncodeV1(changes), m);
    hide ReadChangeInfo, EncodeV1;
  }

  predicate FewTokens(c: Context) {
    |c.dec.tokens| + c.dec.remTokens <= TX_MAX_TOKENS
  }

  lemma {:induction false} DecodeKeepsSum(env: Env, changes: seq<Change>, d: Counters, buf: seq<byte>)
    ensures var v := Decode(env, changes, d, buf);
            v.Ready? ==> |v.dec.tokens| + v.dec.remTokens == |d.tokens| + d.remTokens
    decreases |buf|
  {
    hide DecodeStep;
    StepKeepsSum(env, changes, d, buf);
    var s := DecodeStep(env, changes, d, buf);
    if s.Took? && s.n < |buf| { DecodeKeepsSum(env, changes, s.dec, buf[s.n..]); }
  }

  lemma ReceiveKeepsFew(env: Env, c: Context)
    requires FewTokens(c) && c.request == ConfirmTransaction && c.prompt == NoPrompt
    ensures FewTokens(Receive(env, c).ctx)
  {
    DecodeKeepsSum(env, c.changes, c.dec, c.buffer);
    var v := Decode(env, c.changes, c.dec, c.buffer);
    hide Decode, DisplayOutputs;
    if v.Ready? { DisplayFrame(c.(dec := v.dec, buffer := v.rest, batch := v.outs)); }
  }

  lemma FirstChunkKeepsFew(env: Env, bytes: Payload)
    requires DeclaresFew(Data(0, bytes))
    ensures FewTokens(FirstChunk(env, bytes).ctx)
  {
    hide ReadChangeInfo, Receive;
    var r := ReadChangeInfo(bytes);
    if r.Accepted? && |bytes[r.used..]| >= 5 {
      assert bytes[r.used..][2] == bytes[r.used + 2];
      ReceiveKeepsFew(env, Opened(r.changes, bytes[r.used..]));
    }
  }

  lemma EventKeepsFew(env: Env, c: Context, e: Event)
    requires Sound(env, c) && FewTokens(c) && DeclaresFew(e)
    ensures FewTokens(React(env, c, e).ctx)
  {
    hide Receive, FirstChunk, ReadPath, ConfirmOutput, Streamed, DecodeStep, DeclaresFew;
    match e {
      case Data(chunk, bytes) =>
        if c.prompt == NoPrompt && bytes != [] {
          if chunk == 0 {
            FirstChunkKeepsFew(env, bytes);
          } else if c.stage == RecvData {
            var c' := Entered(c);
            var hash := c'.hash.(message := c'.hash.message + bytes);
            ReceiveKeepsFew(env, c'.(hash := hash, buffer := c'.buffer + bytes));
          }
        }
      case Accept => if c.prompt != NoPrompt && c.prompt != ConfirmSend { ConfirmFrame(c); }
      case Reject => RejectClears(c);
      case _ =>
    }
  }

  lemma {:induction false} RunKeepsFew(env: Env, es: seq<Event>)
    requires forall i :: 0 <= i < |es| ==> DeclaresFew(es[i])
    ensures FewTokens(Run(env, es).ctx)
    decreases |es|
  {
    hide React, DeclaresFew, Sound;
    if es == [] {
    } else {
      RunSound(env, es[..|es| - 1]);
      RunKeepsFew(env, es[..|es| - 1]);
      EventKeepsFew(env, Run(env, es[..|es| - 1]).ctx, es[|es| - 1]);
    }
  }

  /** For every run: if every first chunk declares at most ten tokens, no event stores an eleventh. */
  lemma FewDeclaredFit(env: Env, es: seq<Event>, i: nat, c: Context)
    requires i < |es| && c == Run(env, es[..i]).ctx
    requires forall j :: 0 <= j < |es| ==> DeclaresFew(es[j])
    ensures EventFits(env, c, es[i])
  {
    hide Run, DeclaresFew, RoomForTokens;
    RunKeepsFew(env, es[..i]);
    if es[i].Data? { FewTokensFit(env, c.changes, c.dec, c.buffer + es[i].bytes); }
  }

  /** And in any run, an event overruns the array exactly if it is a later chunk that brings a
      registered token more than there is room for. */
  lemma EventFitsExactly(env: Env, c: Context, e: Event)
    requires |c.dec.tokens| <= TX_MAX_TOKENS
    ensures EventFits(env, c, e)
       <==> !(&& e.Data? && c.prompt == NoPrompt && e.chunk > 0 && c.stage == RecvData
              && Overfills(env.registry, c.dec, c.buffer + e.bytes))
  {
    hide RoomForTokens, Overfills;
    if e.Data? { RoomExactly(env, c.changes, c.dec, c.buffer + e.bytes); }
  }

  // ---- the tokens of a session ----

  /** The tokens stored are those of the first declared uids, as far as they have arrived. */
  predicate StoresUids(registry: seq<TokenSymbol>, buf: seq<byte>, tokens: seq<nat>) {
    && TOKEN_UID_LEN * |tokens| <= |buf|
    && forall i :: 0 <= i < |tokens| ==> FindToken(registry, UidAt(buf, i)) == Some(tokens[i])
  }

  /** One step stores the token it reads, and only tokens do. */
  lemma StoreStep(env: Env, changes: seq<Change>, d: Counters, buf: seq<byte>)
    ensures var s := DecodeStep(env, changes, d, buf);
            && (s.NeedMore? && d.remTokens > 0 ==> |buf| < TOKEN_UID_LEN)
            && (s.Took? && d.remTokens == 0 ==> s.dec.tokens == d.tokens && s.dec.remTokens == 0)
            && (s.Took? && d.remTokens > 0 ==>
                  && s.n == TOKEN_UID_LEN && s.dec.remTokens == d.remTokens - 1
                  && |s.dec.tokens| == |d.tokens| + 1 && d.tokens <= s.dec.tokens
                  && FindToken(env.registry, buf[..TOKEN_UID_LEN]) == Some(s.dec.tokens[|d.tokens|]))
  {
    hide FindToken, ClaimsHold;
  }

  lemma {:induction false} TokensDecoded(env: Env, changes: seq<Change>, d: Counters, buf: seq<byte>)
    ensures var v := Decode(env, changes, d, buf);
            v.Ready? ==>
              && d.tokens <= v.dec.tokens
              && |v.dec.tokens| == |d.tokens| + Min(d.remTokens, |buf| / TOKEN_UID_LEN)
              && StoresUids(env.registry, buf, v.dec.tokens[|d.tokens|..])
    decreases |buf|
  {
    hide FindToken, DecodeStep, StoresUids;
    StoreStep(env, changes, d, buf);
    NoUids(env.registry, buf);
    var s, v := DecodeStep(env, changes, d, buf), Decode(env, changes, d, buf);
    if s.Took? {
      NoUids(env.registry, buf[s.n..]);
      if s.n < |buf| { TokensDecoded(env, changes, s.dec, buf[s.n..]); }
    }
    if v.Ready? {
      var all := v.dec.tokens[|d.tokens|..];
      if s.Took? && d.remTokens > 0 {
        assert all[1..] == v.dec.tokens[|s.dec.tokens|..];
        UidsPrepended(env.registry, buf, all);
      } else {
        assert all == [];
      }
    }
  }

  lemma NoUids(registry: seq<TokenSymbol>, buf: seq<byte>)
    ensures StoresUids(registry, buf, [])
  {
  }

  lemma UidsPrepended(registry: seq<TokenSymbol>, buf: seq<byte>, tokens: seq<nat>)
    requires tokens != [] && |buf| >= TOKEN_UID_LEN
    requires FindToken(registry, buf[..TOKEN_UID_LEN]) == Some(tokens[0])
    requires StoresUids(registry, buf[TOKEN_UID_LEN..], tokens[1..])
    ensures StoresUids(registry, buf, tokens)
  {
    hide FindToken;
    assert UidAt(buf, 0) == buf[..TOKEN_UID_LEN];
    forall i | 0 < i < |tokens| ensures FindToken(registry, UidAt(buf, i)) == Some(tokens[i]) {
      UidShift(buf, i - 1);
      assert tokens[1..][i - 1] == tokens[i];
    }
  }

  /** In every run, a session with outputs declared has stored as many tokens as its header
      declares or as have arrived, whichever is less, and they are those of the hashed uids; so it
      has stored an eleventh exactly if eleven are declared and 357 bytes are hashed. */
  lemma SessionTokens(env: Env, es: seq<Event>, c: Context)
    requires c == Run(env, es).ctx
    ensures c.stage != Idle && c.dec.outputsLen > 0 ==>
              var m := c.hash.message;
              && |m| >= 5 && |c.dec.tokens| == Min(m[2], (|m| - 5) / TOKEN_UID_LEN)
              && StoresUids(env.registry, m[5..], c.dec.tokens)
              && (|c.dec.tokens| > TX_MAX_TOKENS <==> m[2] > TX_MAX_TOKENS && |m| >= 357)
  {
    hide Run, DecodeStep, FindToken;
    RunSound(env, es);
    if c.stage != Idle && c.dec.outputsLen > 0 {
      var m := c.hash.message;
      TokensDecoded(env, c.changes, StartOf(m), m[5..]);
      hide Decode;
      assert c.dec.tokens[0..] == c.dec.tokens;
    }
  }
}
