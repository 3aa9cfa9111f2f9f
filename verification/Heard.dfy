/** What is hashed, and so signed, is what the host sent: every byte of the session, in order, but
    for the change information in front. */
module Heard {
  import opened Bytes
  import opened Decoder
  import opened Prelude
  import opened Review
  import opened Session

  /** The data of the session under way: from its first chunk on, everything sent while the device
      asked nothing. */
  function Sent(env: Env, es: seq<Event>): seq<byte> {
    if es == [] then []
    else
      var front, e := es[..|es| - 1], es[|es| - 1];
      if !e.Data? || e.bytes == [] || Run(env, front).ctx.prompt != NoPrompt then Sent(env, front)
      else if e.chunk == 0 then e.bytes
      else Sent(env, front) + e.bytes
  }

  /** `p` announces these change entries: none, a v1 list, or an entry of the old protocol, three
      bits of whose first byte are ignored. */
  predicate Announcement(p: seq<byte>, changes: seq<Change>) {
    && AreChanges(changes) && |changes| <= TX_MAX_TOKENS + 1
    && (|| (p == [0] && changes == [])
        || p == EncodeV1(changes)
        || (|changes| == 1 && p != [] && p[0] >= 0x80 && p[0] % 16 == |changes[0].path|
            && p[1..] == EncodeOld(changes[0])[1..]))
  }

  lemma AcceptedAnnouncement(bytes: seq<byte>)
    requires ReadChangeInfo(bytes).Accepted?
    ensures var r := ReadChangeInfo(bytes);
            Announcement(bytes[..r.used], r.changes)
  {
    AcceptedIsEncoded(bytes);
    hide ReadChangeInfo, EncodeV1, EncodeOld, AreChanges;
    var r := ReadChangeInfo(bytes);
    assert bytes[..r.used][1..] == bytes[1..r.used];
  }

  /** What a received chunk leaves of hash and change entries. */
  lemma ReceivedFrame(env: Env, c: Context)
    requires c.stage == RecvData && c.prompt == NoPrompt && c.request == ConfirmTransaction
    ensures var r := Receive(env, c).ctx;
            r == Cleared() || (r.hash == c.hash && r.changes == c.changes && r.dec.outputsLen == c.dec.outputsLen)
  {
    var v := Decode(env, c.changes, c.dec, c.buffer);
    hide Decode, DisplayOutputs;
    if v.Ready? { DisplayFrame(c.(dec := v.dec, buffer := v.rest, batch := v.outs)); }
  }

  lemma FirstHeard(env: Env, bytes: Payload)
    ensures var c := FirstChunk(env, bytes).ctx;
            c.stage != Idle && c.dec.outputsLen > 0 ==>
              && ReadChangeInfo(bytes).Accepted?
              && c.changes == ReadChangeInfo(bytes).changes && c.hash.message == bytes[ReadChangeInfo(bytes).used..]
  {
    hide ReadChangeInfo, Receive;
    var r := ReadChangeInfo(bytes);
    if r.Accepted? && |bytes[r.used..]| >= 5 { ReceivedFrame(env, Opened(r.changes, bytes[r.used..])); }
  }

  lemma NextHeard(env: Env, c: Context, bytes: Payload)
    requires c.stage == RecvData && c.prompt == NoPrompt && c.request == ConfirmTransaction
    ensures var r := NextChunk(env, c, bytes).ctx;
            r.stage != Idle ==>
              && r.hash.message == c.hash.message + bytes
              && r.changes == c.changes && r.dec.outputsLen == c.dec.outputsLen
  {
    hide Receive;
    var c' := c.(hash := c.hash.(message := c.hash.message + bytes));
    ReceivedFrame(env, c'.(buffer := c.buffer + bytes));
  }

  /** One event: a first chunk starts afresh, a later one is appended, nothing else is hashed. */
  lemma StepHeard(env: Env, c: Context, e: Event, r: Context)
    requires Sound(env, c) && r == React(env, c, e).ctx && r.stage != Idle && r.dec.outputsLen > 0
    ensures if !e.Data? || e.bytes == [] || c.prompt != NoPrompt || e.chunk > 0 then
              && c.stage != Idle && c.dec.outputsLen > 0 && r.changes == c.changes
              && r.hash.message == c.hash.message + if e.Data? && c.prompt == NoPrompt then e.bytes else []
            else
              && ReadChangeInfo(e.bytes).Accepted?
              && r.changes == ReadChangeInfo(e.bytes).changes
              && r.hash.message == e.bytes[ReadChangeInfo(e.bytes).used..]
  {
    hide Streamed, Decode, DecodeStep, ReadChangeInfo, ReadPath, FirstChunk, NextChunk, ConfirmOutput, Finalised;
    match e {
      case Data(_, bytes) =>
        FirstHeard(env, bytes);
        if c.stage == RecvData && c.prompt == NoPrompt { NextHeard(env, Entered(c), bytes); }
      case Accept => if c.prompt != NoPrompt && c.prompt != ConfirmSend { ConfirmFrame(c); }
      case Reject => RejectClears(c);
      case Sign(_) => SignedFrame(env, Entered(c));
      case _ =>
    }
  }

  lemma SignedFrame(env: Env, c: Context)
    ensures var r := Finalised(env, c);
            r.stage == c.stage && r.changes == c.changes && r.dec == c.dec && r.hash.message == c.hash.message
  {
  }

  /** In every run, what a session with outputs has hashed is what the host sent in it, byte for byte,
      behind the announcement of exactly the change entries it uses. */
  lemma {:induction false} HashedIsSent(env: Env, es: seq<Event>, c: Context)
    requires c == Run(env, es).ctx && c.stage != Idle && c.dec.outputsLen > 0
    ensures var n := |Sent(env, es)| - |c.hash.message|;
            && n >= 0 && Sent(env, es)[n..] == c.hash.message
            && Announcement(Sent(env, es)[..n], c.changes)
    decreases |es|
  {
    hide Next, React, Sound, Announcement, ReadChangeInfo;
    var front, e := es[..|es| - 1], es[|es| - 1];
    var b := Run(env, front).ctx;
    RunSound(env, front);
    assert Run(env, es) == Next(env, Run(env, front), e);
    NextReacts(env, Run(env, front), e);
    StepHeard(env, b, e, c);
    if !e.Data? || e.bytes == [] || b.prompt != NoPrompt {
      HashedIsSent(env, front, b);
    } else if e.chunk > 0 {
      HashedIsSent(env, front, b);
      var n := |Sent(env, front)| - |b.hash.message|;
      assert Sent(env, es)[n..] == Sent(env, front)[n..] + e.bytes;
      assert Sent(env, es)[..n] == Sent(env, front)[..n];
    } else {
      AcceptedAnnouncement(e.bytes);
    }
  }

  lemma NextReacts(env: Env, w: World, e: Event)
    ensures Next(env, w, e).ctx == React(env, w.ctx, e).ctx
  {
  }
}
