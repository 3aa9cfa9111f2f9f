/** The device itself: the fields of `G_context` updated in place by the handlers of
    src/handler/sign_tx.c and src/ui/display.c, each proved to do what the session model says. */
module SignTx {
  import opened Bytes
  import opened Deserialize
  import opened Decoder
  import opened Prelude
  import opened Review
  import opened Session
  import opened CursorModule
  import opened TokenRoom
  import OutputParser
  import SelectionSort

  const CHANGE_SLOTS := TX_MAX_TOKENS + 1

  /** `_decode_elements`: more to parse or not, or a throw. */
  datatype Signal = More(more: bool) | ThrowReady | ThrowErr

  /** `tx_decoder_state_e`. */
  datatype DecoderState = TxStateErr | TxStateReady

  datatype Thrown = NoThrow | Throw(sw: nat)

  /** The response standing after a routine that replies `r`, or does not. */
  function Sent(before: Reply, r: Reply): Reply {
    if r == NoReply then before else r
  }

  /** The device. The fixed-capacity arrays `change_info`, `tokens` and `outputs` are held as the
      lists of their used entries, the decode buffer as the array it is. */
  class Device {
    const env: Env
    // the decode buffer
    const buffer: array<byte>
    var bufferLen: nat
    // hash context and cached digest
    var hash: HashContext
    var sighash: Digest
    // change_info[..change_len]
    var changeInfo: seq<Change>
    // counters of the transaction
    var remainingTokens: byte
    var remainingInputs: byte
    var outputsLen: byte
    var currentOutput: byte
    // tokens[..tokens_len]
    var tokens: seq<nat>
    // review: outputs[..buffer_output_len]
    var outputs: seq<Output>
    var displayIndex: byte
    var confirmedOutputs: byte
    // session
    var state: Stage
    var reqType: Request
    var prompt: Prompt
    // last response sent while handling the current event
    var reply: Reply

    ghost predicate Valid()
      reads this
    {
      && buffer.Length == BUFFER_SIZE && bufferLen <= BUFFER_SIZE
      && (outputsLen > 0 ==> |changeInfo| <= CHANGE_SLOTS)
      && |tokens| <= TX_MAX_TOKENS
      && currentOutput <= outputsLen
      && (prompt == NoPrompt || prompt == ConfirmSend || outputsLen > 0)
      && |outputs| <= OUTPUT_SLOTS && (forall i :: 0 <= i < |outputs| ==> outputs[i].index < 256)
    }

    /** The state as the session model sees it. Change entries count only once outputs are
        declared; before that nothing reads them. */
    ghost function Abs(): Context
      requires Valid()
      reads this, buffer
    {
      Context(state, reqType, prompt,
              Counters(remainingTokens, remainingInputs, outputsLen, currentOutput, tokens),
              buffer[..bufferLen], if outputsLen == 0 then [] else changeInfo,
              outputs, displayIndex, confirmedOutputs, hash, sighash)
    }

    ghost function Result(): Outcome
      requires Valid()
      reads this, buffer
    {
      Outcome(Abs(), reply)
    }

    constructor (env: Env)
      ensures Valid() && this.env == env && Abs() == Cleared() && fresh(buffer)
    {
      this.env := env;
      buffer := new byte[BUFFER_SIZE](_ => 0);
      bufferLen, changeInfo, tokens, outputs := 0, [], [], [];
      remainingTokens, remainingInputs, outputsLen, currentOutput := 0, 0, 0, 0;
      displayIndex, confirmedOutputs := 0, 0;
      hash, sighash := HashContext([], 0), NoDigest();
      state, reqType, prompt, reply := Idle, ConfirmAddress, NoPrompt, NoReply;
    }

    method ClearReview()
      modifies this`outputs, this`displayIndex, this`confirmedOutputs, this`prompt, this`currentOutput, this`outputsLen
      ensures outputs == [] && displayIndex == 0 && confirmedOutputs == 0 && prompt == NoPrompt
      ensures currentOutput == 0 && outputsLen == 0
    {
      outputs, displayIndex, confirmedOutputs, prompt := [], 0, 0, NoPrompt;
      currentOutput, outputsLen := 0, 0;
    }

    /** `explicit_bzero(&G_context, sizeof(G_context))`; callers return to the menu. */
    method Clear()
      requires Valid()
      modifies this
      ensures Valid() && Abs() == Cleared() && reply == old(reply)
    {
      ClearReview();
      state, reqType, bufferLen, changeInfo, tokens := Idle, ConfirmAddress, 0, [], [];
      remainingTokens, remainingInputs := 0, 0;
      hash, sighash := HashContext([], 0), NoDigest();
    }

    /** `io_send_sw`. */
    method SendStatus(sw: nat)
      modifies this`reply
      ensures reply == Status(sw)
    {
      reply := Status(sw);
    }

    // ---- output review ----

    /** `check_output_index_state` with `ui_display_tx_confirm`. */
    method CheckOutputIndexState() returns (shown: bool)
      requires Valid()
      modifies this
      ensures Valid()
      ensures match CheckIndex(old(Abs()))
              case Halted(c, r) => shown && Abs() == c && reply == Sent(old(reply), r)
              case Open(c) => !shown && Abs() == c && reply == old(reply)
    {
      if confirmedOutputs == outputsLen {
        state := Stage.Parsed;
        if reqType != ConfirmTransaction {
          Clear();
          SendStatus(SW_BAD_STATE);
        } else {
          prompt := ConfirmSend;
        }
        return true;
      }
      if displayIndex as int == |outputs| {
        outputs := [];
        displayIndex := 0;
        SendStatus(SW_OK);
        prompt := NoPrompt;
        return true;
      }
      return false;
    }

    /** The change indices, copied out and sorted. */
    method SortedChangeIndices() returns (changeIndices: array<byte>)
      requires Valid() && outputsLen > 0 && changeInfo != []
      ensures fresh(changeIndices) && changeIndices.Length == CHANGE_SLOTS
      ensures changeIndices[..|changeInfo|] == Sorted(Indices(changeInfo))
    {
      hide Sorted, Indices;
      changeIndices := new byte[CHANGE_SLOTS](_ => 0);
      var i := 0;
      while i < |changeInfo|
        modifies changeIndices
        invariant 0 <= i <= |changeInfo|
        invariant forall k :: 0 <= k < i ==> changeIndices[k] == changeInfo[k].index
      {
        changeIndices[i] := changeInfo[i].index;
        i := i + 1;
      }
      assert changeIndices[..|changeInfo|] == Indices(changeInfo);
      SelectionSort.InplaceSelectionSort(changeIndices, |changeInfo|);
    }

    /** One entry of the skip loop. */
    method SkipIf(index: byte) returns (shown: bool)
      requires Valid()
      modifies this
      ensures Valid()
      ensures if old(confirmedOutputs) != index then !shown && Abs() == old(Abs()) && reply == old(reply)
              else match CheckIndex(Advance(old(Abs())))
                   case Halted(c, r) => shown && Abs() == c && reply == Sent(old(reply), r)
                   case Open(c) => !shown && Abs() == c && reply == old(reply)
    {
      if confirmedOutputs == index {
        displayIndex := (displayIndex + 1) % 256;
        confirmedOutputs := (confirmedOutputs + 1) % 256;
        shown := CheckOutputIndexState();
      } else {
        shown := false;
      }
    }

    /** `skip_change_outputs`. */
    method SkipChangeOutputs() returns (shown: bool)
      requires Valid() && outputsLen > 0
      modifies this
      ensures Valid()
      ensures match SkipChanges(old(Abs()))
              case Halted(c, r) => shown && Abs() == c && reply == Sent(old(reply), r)
              case Open(c) => !shown && Abs() == c && reply == old(reply)
    {
      hide Sorted, CheckIndex, SkipFrom, Indices;
      if changeInfo == [] {
        return false;
      }
      var changeIndices := SortedChangeIndices();
      var len := |changeInfo|;
      ghost var sorted := Sorted(Indices(changeInfo));
      ghost var start := Abs();
      assert sorted[0..] == sorted;
      var i := 0;
      while i < len
        invariant Valid() && reply == old(reply)
        invariant 0 <= i <= len && changeIndices[..len] == sorted
        invariant SkipFrom(Abs(), sorted[i..]) == SkipFrom(start, sorted)
      {
        assert sorted[i] == changeIndices[i];
        SkipStep(Abs(), sorted, i);
        shown := SkipIf(changeIndices[i]);
        if shown {
          return true;
        }
        i := i + 1;
      }
      EndOfSkip(Abs(), sorted);
      return false;
    }

    /** The numbers of the line "number/total" on the screen of output `index`. */
    method ScreenNumbers(index: byte) returns (number: byte, total: byte)
      requires Valid() && outputsLen > 0
      ensures number == (index as int + 1 - CountBelow(changeInfo, index)) % 256
      ensures total == (outputsLen as int - |changeInfo|) % 256
    {
      hide CountBelow;
      CountNothing(index);
      total := outputsLen;
      number := (index as int + 1) % 256;
      if changeInfo != [] {
        total := (total as int - |changeInfo|) % 256;
        ghost var below := 0;
        var i := 0;
        assert changeInfo[0..] == changeInfo;
        while i < |changeInfo|
          invariant 0 <= i <= |changeInfo| && 0 <= below
          invariant below + CountBelow(changeInfo[i..], index) == CountBelow(changeInfo, index)
          invariant number == (index as int + 1 - below) % 256
        {
          CountFrom(changeInfo, index, i);
          if index > changeInfo[i].index {
            OneLess(index as int + 1 - below);
            number := (number as int - 1) % 256;
            below := below + 1;
          }
          i := i + 1;
        }
      }
    }

    /** `prepare_display_output`; `screen` is what the global display strings are made from. */
    method PrepareDisplayOutput() returns (shown: bool, screen: Prompt)
      requires Valid() && outputsLen > 0
      modifies this
      ensures Valid()
      ensures var r := DisplayOutputs(old(Abs()));
              && (shown ==> Abs() == r.ctx && reply == Sent(old(reply), r.reply))
              && (!shown ==> Abs().(prompt := screen) == r.ctx && reply == old(reply) && r.reply == NoReply)
      ensures !shown ==> outputsLen > 0
    {
      hide CheckIndex, SkipChanges;
      screen := NoPrompt;
      shown := CheckOutputIndexState();
      if shown {
        return;
      }
      shown := SkipChangeOutputs();
      if shown {
        return;
      }
      if displayIndex as int >= |outputs| {
        // outputs[display_index] is then no output of this batch
        return false, ShowStray;
      }
      var output := outputs[displayIndex];
      var number, total := ScreenNumbers(output.index);
      screen := ShowOutput(output, number, total);
    }

    /** `ui_display_tx_outputs`. */
    method UiDisplayTxOutputs()
      requires Valid() && outputsLen > 0
      modifies this
      ensures Valid()
      ensures var r := DisplayOutputs(old(Abs()));
              Abs() == r.ctx && reply == Sent(old(reply), r.reply)
    {
      hide DisplayOutputs;
      var shown, screen := PrepareDisplayOutput();
      if !shown {
        prompt := screen;
      }
    }

    /** `ui_confirm_output`. */
    method UiConfirmOutput(choice: bool)
      requires Valid() && outputsLen > 0
      modifies this
      ensures Valid()
      ensures var r := ConfirmOutput(old(Abs()), choice);
              Abs() == r.ctx && reply == Sent(old(reply), r.reply)
    {
      hide DisplayOutputs, SkipChanges;
      if choice {
        displayIndex := (displayIndex + 1) % 256;
        confirmedOutputs := (confirmedOutputs + 1) % 256;
        assert Abs() == Advance(old(Abs()));
        var shown := SkipChangeOutputs();
        if shown {
          return;
        }
        UiDisplayTxOutputs();
      } else {
        Clear();
        SendStatus(SW_DENY);
      }
    }

    /** `ui_action_tx_confirm`. */
    method UiActionTxConfirm(choice: bool)
      requires Valid()
      modifies this
      ensures Valid()
      ensures var r := ConfirmTx(old(Abs()), choice);
              Abs() == r.ctx && reply == Sent(old(reply), r.reply)
    {
      if choice {
        state := Approved;
        SendStatus(SW_OK);
        prompt := NoPrompt;
      } else {
        Clear();
        SendStatus(SW_DENY);
      }
    }

    // ---- first chunk: change information and header ----

    /** `read_change_info_v1`, after the version byte. */
    method ReadChangeInfoV1(cdata: Cursor) returns (t: Thrown)
      requires Valid() && outputsLen == 0 && cdata.Valid() && cdata.offset == 1
      requires cdata.ptr[0] == 1 && cdata.size > 0
      modifies this`changeInfo, cdata`offset
      ensures Valid() && cdata.Valid()
      ensures match ReadChangeInfo(cdata.ptr[..cdata.size])
              case Refused(sw) => t == Throw(sw)
              case Accepted(cs, used) => t == NoThrow && changeInfo == cs && cdata.offset == used
    {
      ghost var bytes := cdata.ptr[..cdata.size];
      assert cdata.Rest() == bytes[1..];
      hide ReadPath, ReadOld;
      changeInfo := [];
      var ok, count := cdata.ReadU8();
      if !ok {
        return Throw(SW_WRONG_DATA_LENGTH);
      }
      if count > CHANGE_SLOTS {
        return Throw(SW_WRONG_DATA_LENGTH);
      }
      assert ReadChangeInfo(bytes) == ReadEntries(bytes, 2, count);
      t := ReadChangeEntries(cdata, count);
    }

    /** The loop of `read_change_info_v1`. */
    method ReadChangeEntries(cdata: Cursor, count: byte) returns (t: Thrown)
      requires Valid() && outputsLen == 0 && cdata.Valid() && changeInfo == []
      modifies this`changeInfo, cdata`offset
      ensures Valid() && cdata.Valid()
      ensures match ReadEntries(cdata.ptr[..cdata.size], old(cdata.offset), count)
              case Refused(sw) => t == Throw(sw)
              case Accepted(cs, used) => t == NoThrow && changeInfo == cs && cdata.offset == used
    {
      hide ReadPath, ReadEntries, Joined;
      ghost var bytes := cdata.ptr[..cdata.size];
      ghost var whole := ReadEntries(bytes, cdata.offset, count);
      JoinedEnds([], whole, bytes, 0);
      var i: int := 0;
      while i < count
        invariant Valid() && outputsLen == 0 && cdata.Valid() && 0 <= i <= count
        invariant Joined(changeInfo, ReadEntries(bytes, cdata.offset, count - i)) == whole
      {
        assert cdata.Rest() == bytes[cdata.offset..];
        EntriesStep(changeInfo, bytes, cdata.offset, count - i);
        var ok, index := cdata.ReadU8();
        if !ok {
          return Throw(SW_WRONG_DATA_LENGTH);
        }
        var path;
        ok, path := cdata.ReadBip32Path();
        if !ok {
          return Throw(SW_WRONG_DATA_LENGTH);
        }
        changeInfo := changeInfo + [Change(index, path)];
        i := i + 1;
      }
      JoinedEnds(changeInfo, whole, bytes, cdata.offset);
      return NoThrow;
    }

    method PaddedCopy(cdata: Cursor, len: byte) returns (padded: array<byte>)
      requires cdata.Valid() && len <= MAX_BIP32_PATH && 4 * len as int <= |cdata.Rest()|
      ensures fresh(padded) && padded.Length == 1 + 4 * MAX_BIP32_PATH
      ensures padded[..] == Padded(len, cdata.Rest())
    {
      hide Padded;
      padded := new byte[1 + 4 * MAX_BIP32_PATH](_ => 0);
      padded[0] := len;
      forall k | 0 <= k < 4 * len as int {
        padded[1 + k] := cdata.ptr[cdata.offset + k];
      }
      PaddedBytes(len, cdata.Rest());
    }

    /** Copies the words of an old-protocol path behind its length into a zeroed scratch buffer
        and reads the path from there. */
    method ReadPaddedPath(cdata: Cursor, len: byte) returns (ok: bool, path: Path)
      requires cdata.Valid() && len <= MAX_BIP32_PATH && 4 * len as int <= |cdata.Rest()|
      modifies cdata`offset
      ensures cdata.Valid() && cdata.offset == old(cdata.offset) + 4 * len as int
      ensures var read := ReadPath(Padded(len, old(cdata.Rest())));
              (ok <==> read.Some?) && (ok ==> path == read.value)
    {
      hide ReadPath, Padded;
      var padded := PaddedCopy(cdata, len);
      var _ := cdata.SeekCur(4 * len as int);
      var bufData := new Cursor(padded, 1 + 4 * MAX_BIP32_PATH);
      assert bufData.Rest() == padded[..];
      ok, path := bufData.ReadBip32Path();
    }

    /** `read_change_info_old_protocol`, after its first byte. */
    method ReadChangeInfoOldProtocol(changeByte: byte, cdata: Cursor) returns (t: Thrown)
      requires Valid() && outputsLen == 0 && cdata.Valid() && cdata.offset == 1
      requires cdata.size > 0 && cdata.ptr[0] == changeByte
      modifies this`changeInfo, cdata`offset
      ensures Valid() && cdata.Valid()
      ensures match ReadOld(cdata.ptr[..cdata.size])
              case Refused(sw) => t == Throw(sw)
              case Accepted(cs, used) => t == NoThrow && changeInfo == cs && cdata.offset == used
    {
      hide ReadPath, ReadOld;
      ghost var bytes := cdata.ptr[..cdata.size];
      assert cdata.Rest() == bytes[1..];
      var ok, index := cdata.ReadU8();
      var len := changeByte % 16;
      OldRefused(bytes);
      if !ok {
        return Throw(SW_WRONG_DATA_LENGTH);
      }
      if len > MAX_BIP32_PATH {
        return Throw(SW_WRONG_DATA_LENGTH);
      }
      if cdata.size - cdata.offset < 4 * len as int {
        return Throw(SW_WRONG_DATA_LENGTH);
      }
      assert cdata.Rest() == bytes[2..];
      OldRead(bytes);
      var path;
      ok, path := ReadPaddedPath(cdata, len);
      if !ok {
        return Throw(SW_WRONG_DATA_LENGTH);
      }
      changeInfo := [Change(index, path)];
      return NoThrow;
    }

    /** `read_change_info`. */
    method ReadChange(cdata: Cursor) returns (t: Thrown)
      requires Valid() && outputsLen == 0 && cdata.Valid() && cdata.offset == 0
      modifies this`changeInfo, cdata`offset
      ensures Valid() && cdata.Valid()
      ensures match ReadChangeInfo(cdata.ptr[..cdata.size])
              case Refused(sw) => t == Throw(sw)
              case Accepted(cs, used) => t == NoThrow && changeInfo == cs && cdata.offset == used
    {
      hide ReadOld, ReadEntries;
      ghost var bytes := cdata.ptr[..cdata.size];
      assert cdata.Rest() == bytes;
      var ok, protoVersion := cdata.ReadU8();
      if !ok {
        return Throw(SW_WRONG_DATA_LENGTH);
      }
      if protoVersion == 0 {
        changeInfo := [];
        return NoThrow;
      }
      if protoVersion >= 0x80 {
        t := ReadChangeInfoOldProtocol(protoVersion, cdata);
      } else if protoVersion == 1 {
        t := ReadChangeInfoV1(cdata);
      } else {
        t := Throw(SW_INVALID_TX);
      }
    }

    /** `read_tx_data`: fields are read in order until one is missing. */
    method ReadTxData(cdata: Cursor) returns (t: Thrown)
      requires Valid() && cdata.Valid()
      requires tokens == [] && remainingTokens == 0 && remainingInputs == 0 && outputsLen == 0
      requires |changeInfo| <= CHANGE_SLOTS
      modifies this`remainingTokens, this`remainingInputs, this`outputsLen, cdata`offset
      ensures Valid() && cdata.Valid()
      ensures var rest := old(cdata.Rest());
              && remainingTokens == (if |rest| > 2 then rest[2] else 0)
              && remainingInputs == (if |rest| > 3 then rest[3] else 0)
              && (if |rest| < 5 then t == Throw(SW_WRONG_DATA_LENGTH) && outputsLen == 0
                  else t == NoThrow && outputsLen == rest[4] && cdata.Rest() == rest[5..])
    {
      ghost var rest := cdata.Rest();
      var ok, txVersion := cdata.ReadU16();
      if ok {
        ok, remainingTokens := cdata.ReadU8();
      }
      if ok {
        ok, remainingInputs := cdata.ReadU8();
      }
      if ok {
        ok, outputsLen := cdata.ReadU8();
      }
      t := if ok then NoThrow else Throw(SW_WRONG_DATA_LENGTH);
    }

    /** `sighash_all_hash`: absorbs what the cursor has not read. */
    method SighashAllHash(cdata: Cursor)
      requires cdata.Valid()
      modifies this`hash
      ensures hash == old(hash).(message := old(hash).message + cdata.Rest())
    {
      hash := hash.(message := hash.message + cdata.ptr[cdata.offset..cdata.size]);
    }

    // ---- the decode loop ----

    /** Drops the first `n` buffered bytes (the `memmove` after each element). */
    method Consume(n: nat)
      requires Valid() && n <= bufferLen
      modifies this`bufferLen, buffer
      ensures Valid() && bufferLen == old(bufferLen) - n
      ensures buffer[..bufferLen] == old(buffer[..bufferLen])[n..]
    {
      bufferLen := bufferLen - n;
      forall k | 0 <= k < bufferLen {
        buffer[k] := buffer[k + n];
      }
    }

    /** `find_token_registry_index`; None is -1. */
    method FindTokenRegistryIndex(uid: seq<byte>) returns (r: Option<nat>)
      ensures r == FindToken(env.registry, uid)
    {
      var i := 0;
      while i < |env.registry|
        invariant 0 <= i <= |env.registry|
        invariant forall k :: 0 <= k < i ==> env.registry[k].uid != uid
      {
        if env.registry[i].uid == uid {
          return Some(i);
        }
        i := i + 1;
      }
      return None;
    }

    /** The change claims on a decoded output, one by one. */
    method VerifyClaims(output: Output) returns (ok: bool)
      requires Valid() && outputsLen > 0
      ensures ok == ClaimsHold(env, changeInfo, output)
    {
      var i := 0;
      while i < |changeInfo|
        invariant 0 <= i <= |changeInfo|
        invariant forall k :: 0 <= k < i && changeInfo[k].index == output.index ==>
                    env.owns(changeInfo[k].path, output.pkh)
      {
        if output.index == changeInfo[i].index as int {
          if !env.owns(changeInfo[i].path, output.pkh) {
            return false;
          }
        }
        i := i + 1;
      }
      return true;
    }

    /** What one element does to the state, unless the batch is full. */
    ghost predicate Stepped(before: Context, s: Decoder.Step, signal: Signal)
      requires Valid()
      reads this, buffer
    {
      match s
      case NeedMore => signal == ThrowReady && Abs() == before
      case Invalid => signal == ThrowErr
      case Took(dec, n, outs) =>
        n <= |before.buffer| &&
        if |before.batch| + |outs| > OUTPUT_SLOTS then signal == ThrowErr
        else
          && signal == More(n < |before.buffer|)
          && Abs() == before.(dec := dec, buffer := before.buffer[n..], batch := before.batch + outs)
    }

    /** The next element does not overfill the token array. */
    ghost predicate NextFits()
      requires Valid()
      reads this, buffer
    {
      var s := DecodeStep(env, Abs().changes, Abs().dec, Abs().buffer);
      s.Took? ==> |s.dec.tokens| <= TX_MAX_TOKENS
    }

    method DecodeToken() returns (signal: Signal)
      requires Valid() && remainingTokens > 0
      requires NextFits()
      modifies this, buffer
      ensures Valid()
      ensures var c := old(Abs()); Stepped(c, DecodeStep(env, c.changes, c.dec, c.buffer), signal)
      ensures reply == old(reply)
    {
      ghost var c := Abs();
      TokenStep(env, c.changes, c.dec, c.buffer);
      hide FindToken, DecodeStep;
      if bufferLen < TOKEN_UID_LEN {
        return ThrowReady;
      }
      var uid := buffer[..TOKEN_UID_LEN];
      assert uid == c.buffer[..TOKEN_UID_LEN];
      var registryIndex := FindTokenRegistryIndex(uid);
      if registryIndex.None? {
        return ThrowErr;
      }
      tokens := tokens + [registryIndex.value];
      remainingTokens := remainingTokens - 1;
      Consume(TOKEN_UID_LEN);
      signal := More(bufferLen != 0);
    }

    method DecodeInput() returns (signal: Signal)
      requires Valid() && remainingTokens == 0 && remainingInputs > 0
      modifies this, buffer
      ensures Valid()
      ensures var c := old(Abs()); Stepped(c, DecodeStep(env, c.changes, c.dec, c.buffer), signal)
      ensures reply == old(reply)
    {
      ghost var c := Abs();
      InputStep(env, c.changes, c.dec, c.buffer);
      hide DecodeStep;
      if bufferLen < TX_INPUT_LEN {
        return ThrowReady;
      }
      var inputDataLen := buffer[33] as int * 0x100 + buffer[34];
      if inputDataLen > 0 {
        return ThrowErr;
      }
      remainingInputs := remainingInputs - 1;
      Consume(TX_INPUT_LEN);
      signal := More(bufferLen != 0);
    }

    /** An accepted output leaves the buffer and joins the batch. */
    method QueueOutput(output: Output, length: nat) returns (signal: Signal)
      requires Valid() && currentOutput < outputsLen && length <= bufferLen && output.index < 256
      modifies this, buffer
      ensures Valid() && reply == old(reply)
      ensures var before := old(Abs());
              var dec := before.dec.(current := before.dec.current + 1);
              Stepped(before, Took(dec, length, [output]), signal)
    {
      currentOutput := currentOutput + 1;
      Consume(length);
      if |outputs| >= OUTPUT_SLOTS {
        return ThrowErr;
      }
      outputs := outputs + [output];
      signal := More(bufferLen != 0);
    }

    method DecodeOutput() returns (signal: Signal)
      requires Valid() && remainingTokens == 0 && remainingInputs == 0 && currentOutput < outputsLen
      modifies this, buffer
      ensures Valid()
      ensures var c := old(Abs()); Stepped(c, DecodeStep(env, c.changes, c.dec, c.buffer), signal)
      ensures reply == old(reply)
    {
      hide ParseOutput, ClaimsHold;
      var p := OutputParser.ParseOutputBytes(buffer, bufferLen);
      if p.Short? {
        return ThrowReady;
      }
      if p.Malformed? {
        return ThrowErr;
      }
      if p.tokenData >= 0x80 {
        return ThrowErr;
      }
      if p.tokenData as int > |tokens| {
        return ThrowErr;
      }
      var output := Output(currentOutput, p.value, p.tokenData, p.pkh);
      var ok := VerifyClaims(output);
      if !ok {
        return ThrowErr;
      }
      signal := QueueOutput(output, p.length);
    }

    /** `_decode_elements`. */
    method DecodeElement() returns (signal: Signal)
      requires Valid()
      requires NextFits()
      modifies this, buffer
      ensures Valid()
      ensures var c := old(Abs()); Stepped(c, DecodeStep(env, c.changes, c.dec, c.buffer), signal)
      ensures reply == old(reply)
    {
      if remainingTokens > 0 {
        signal := DecodeToken();
      } else if remainingInputs > 0 {
        signal := DecodeInput();
      } else if currentOutput < outputsLen {
        signal := DecodeOutput();
      } else {
        signal := ThrowErr;
      }
    }

    /** `decode_elements`: one element at a time until something is thrown or nothing is left. */
    method DecodeElements() returns (r: DecoderState)
      requires Valid() && outputs == [] && HasRoom(env, Abs())
      modifies this, buffer
      ensures Valid() && reply == old(reply)
      ensures var c := old(Abs());
              var v := Decode(env, c.changes, c.dec, c.buffer);
              if v.Failed? || |v.outs| > OUTPUT_SLOTS then r == TxStateErr
              else r == TxStateReady && Abs() == c.(dec := v.dec, buffer := v.rest, batch := v.outs)
    {
      hide Decode, DecodeStep, RoomForTokens;
      ghost var c := Abs();
      ghost var v := Decode(env, c.changes, c.dec, c.buffer);
      AfterNothing(v);
      var more := true;
      while more
        invariant Valid() && reply == old(reply)
        invariant Abs() == c.(dec := Abs().dec, buffer := Abs().buffer, batch := outputs)
        invariant v == if more then Decode(env, c.changes, Abs().dec, Abs().buffer).After(outputs)
                       else Ready(Abs().dec, Abs().buffer, outputs)
        invariant more ==> RoomForTokens(env, c.changes, Abs().dec, Abs().buffer)
        decreases bufferLen
      {
        RoomNext(env, c.changes, Abs().dec, Abs().buffer);
        OneElement(env, c.changes, Abs().dec, Abs().buffer, outputs);
        var signal := DecodeElement();
        match signal {
          case ThrowReady => return TxStateReady;
          case ThrowErr => return TxStateErr;
          case More(m) => more := m;
        }
      }
      return TxStateReady;
    }

    // ---- SIGN_TX ----

    /** `init_sign_tx_ctx`. */
    method InitSignTxCtx()
      requires Valid()
      modifies this
      ensures Valid() && Abs() == Begun() && reply == old(reply) && changeInfo == []
    {
      Clear();
      reqType := ConfirmTransaction;
      state := RecvData;
      changeInfo := [];
    }

    /** The end of `receive_data`. */
    method FinishReceive()
      requires Valid() && outputs == [] && HasRoom(env, Abs())
      modifies this, buffer
      ensures Valid()
      ensures var r := Receive(env, old(Abs()));
              Abs() == r.ctx && reply == Sent(old(reply), r.reply)
    {
      hide Decode, DisplayOutputs;
      var r := DecodeElements();
      if r == TxStateErr {
        Clear();
        SendStatus(SW_INVALID_TX);
      } else if outputs != [] {
        UiDisplayTxOutputs();
      } else {
        SendStatus(SW_OK);
      }
    }

    /** Appends what the cursor has not read to the decode buffer, if it fits. */
    method BufferRest(cdata: Cursor) returns (ok: bool)
      requires Valid() && cdata.Valid() && cdata.ptr != buffer
      modifies this`bufferLen, buffer
      ensures Valid()
      ensures ok <==> |cdata.Rest()| <= BUFFER_SIZE - old(bufferLen)
      ensures buffer[..bufferLen] == old(buffer[..bufferLen]) + (if ok then cdata.Rest() else [])
    {
      ghost var kept := buffer[..bufferLen];
      ok := cdata.Copy(buffer, bufferLen, BUFFER_SIZE - bufferLen);
      if !ok {
        assert buffer[..bufferLen] == kept;
      } else {
        bufferLen := bufferLen + (cdata.size - cdata.offset);
        assert buffer[..bufferLen] == kept + cdata.Rest();
      }
    }

    /** The common end of `receive_data`: append, decode, review. */
    method ReceiveBody(cdata: Cursor) returns (t: Thrown)
      requires Valid() && outputs == [] && cdata.Valid() && cdata.ptr != buffer
      requires HasRoom(env, Abs().(buffer := Abs().buffer + cdata.Rest()))
      modifies this, buffer
      ensures Valid()
      ensures var c, rest := old(Abs()), cdata.Rest();
              if |rest| > BUFFER_SIZE - |c.buffer| then
                t == Throw(SW_WRONG_DATA_LENGTH) && Abs() == c && reply == old(reply)
              else
                var r := Receive(env, c.(buffer := c.buffer + rest));
                t == NoThrow && Abs() == r.ctx && reply == Sent(old(reply), r.reply)
    {
      hide Receive;
      ghost var c := Abs();
      var ok := BufferRest(cdata);
      if !ok {
        assert c.buffer + [] == c.buffer;
        return Throw(SW_WRONG_DATA_LENGTH);
      }
      assert Abs() == c.(buffer := c.buffer + cdata.Rest());
      FinishReceive();
      t := NoThrow;
    }

    /** The header of chunk 0, hashed with all that follows it. */
    method ReceiveHeader(cdata: Cursor) returns (t: Thrown)
      requires Valid() && cdata.Valid() && Abs() == Begun() && |changeInfo| <= CHANGE_SLOTS
      modifies this, cdata`offset
      ensures Valid() && cdata.Valid() && outputs == [] && reply == old(reply)
      ensures var rest := old(cdata.Rest());
              if |rest| < 5 then t == Throw(SW_WRONG_DATA_LENGTH) && Abs() == ShortHeader(rest)
              else t == NoThrow && Abs() == Opened(old(changeInfo), rest).(buffer := []) && cdata.Rest() == rest[5..]
    {
      assert bufferLen == 0 by { assert |buffer[..bufferLen]| == |Begun().buffer|; }
      SighashAllHash(cdata);
      t := ReadTxData(cdata);
    }

    /** `receive_data` for chunk 0, from the header on. */
    method ReceiveOpening(cdata: Cursor) returns (t: Thrown)
      requires Valid() && cdata.Valid() && cdata.ptr != buffer && Abs() == Begun() && |changeInfo| <= CHANGE_SLOTS
      requires |cdata.Rest()| <= 255
      modifies this, buffer, cdata`offset
      ensures Valid()
      ensures var r := Opening(env, old(changeInfo), old(cdata.Rest()));
              && Abs() == r.ctx
              && (if t.Throw? then r.reply == Status(t.sw) && reply == old(reply)
                  else reply == Sent(old(reply), r.reply))
    {
      hide Receive, Opening, RoomForTokens, ShortHeader, Opened;
      ghost var changes, rest := changeInfo, cdata.Rest();
      OpeningCases(env, changes, rest);
      t := ReceiveHeader(cdata);
      if t.Throw? {
        return;
      }
      OpenedWhole(env, changes, rest);
      t := ReceiveBody(cdata);
    }

    /** `receive_data` for chunk 0, once it is known not to be repeated. A throw leaves the rest
        to the catch in `app_main`, which sends its code. */
    method ReceiveFirst(cdata: Cursor) returns (t: Thrown)
      requires Valid() && cdata.Valid() && cdata.offset == 0 && cdata.ptr != buffer
      requires |cdata.Rest()| <= 255
      modifies this, buffer, cdata`offset
      ensures Valid()
      ensures var r := FirstChunk(env, old(cdata.Rest()));
              && Abs() == r.ctx
              && (if t.Throw? then r.reply == Status(t.sw) && reply == old(reply)
                  else reply == Sent(old(reply), r.reply))
    {
      hide ReadChangeInfo, Opening, HasRoom;
      ghost var bytes := cdata.Rest();
      assert bytes == cdata.ptr[..cdata.size];
      InitSignTxCtx();
      t := ReadChange(cdata);
      if t.Throw? {
        return;
      }
      assert cdata.Rest() == bytes[cdata.offset..];
      t := ReceiveOpening(cdata);
    }

    /** `receive_data` for any later chunk. */
    method ReceiveNext(cdata: Cursor) returns (t: Thrown)
      requires Valid() && outputs == [] && cdata.Valid() && cdata.ptr != buffer
      requires HasRoom(env, Abs().(buffer := Abs().buffer + cdata.Rest()))
      modifies this, buffer
      ensures Valid()
      ensures var r := NextChunk(env, old(Abs()), old(cdata.Rest()));
              && Abs() == r.ctx
              && (if t.Throw? then r.reply == Status(t.sw) && reply == old(reply)
                  else reply == Sent(old(reply), r.reply))
    {
      hide Receive, RoomForTokens;
      SighashAllHash(cdata);
      t := ReceiveBody(cdata);
    }

    /** `receive_data`. */
    method ReceiveData(cdata: Cursor, chunk: byte) returns (t: Thrown)
      requires Valid() && outputs == [] && cdata.Valid() && cdata.offset == 0 && cdata.ptr != buffer
      requires |cdata.Rest()| <= 255
      requires chunk > 0 && state == RecvData ==> HasRoom(env, Abs().(buffer := Abs().buffer + cdata.Rest()))
      requires state != Approved && (chunk > 0 ==> state == RecvData)
      modifies this, buffer, cdata`offset
      ensures Valid()
      ensures Handled(HandleData(env, old(Abs()), chunk, old(cdata.Rest())), old(reply), t)
    {
      hide FirstChunk, NextChunk, HasRoom;
      if chunk == 0 {
        if state == RecvData {
          Clear();
          return Throw(SW_BAD_STATE);
        }
        t := ReceiveFirst(cdata);
      } else {
        t := ReceiveNext(cdata);
      }
    }

    /** The state and the response are those of `r`; a throw is a response yet to be sent. */
    ghost predicate Handled(r: Outcome, before: Reply, t: Thrown)
      requires Valid()
      reads this, buffer
    {
      && Abs() == r.ctx
      && (if t.Throw? then r.reply == Status(t.sw) && reply == before else reply == Sent(before, r.reply))
    }

    /** `sign_tx_with_key`: signs with the key at `path`, after finalising the hash if byte 0 of
        the digest says it is not. False is returned for an empty path. */
    method SignWithKey(path: Path) returns (ok: bool)
      requires Valid() && state == Approved
      modifies this
      ensures Valid() && (ok <==> path != [])
      ensures if ok then Abs() == Finalised(env, old(Abs())) && reply == Signature(env.ecdsa(path, sighash))
              else Abs() == old(Abs()) && reply == Status(SW_SIGNATURE_FAIL)
    {
      if path == [] {
        SendStatus(SW_SIGNATURE_FAIL);
        return false;
      }
      if sighash[0] == 0 {
        var first := if hash.rounds == 0 then env.sha256(hash.message) else env.respent(hash.message, hash.rounds);
        sighash := env.sha256(first);
        hash := hash.(rounds := hash.rounds + 1);
      }
      reply := Signature(env.ecdsa(path, sighash));
      return true;
    }

    /** `handler_sign_tx`, DATA stage. */
    method HandlerData(cdata: Cursor, chunk: byte) returns (t: Thrown)
      requires Valid() && cdata.Valid() && cdata.offset == 0 && cdata.ptr != buffer
      requires |cdata.Rest()| <= 255
      requires chunk > 0 && state == RecvData ==> HasRoom(env, Abs().(buffer := Abs().buffer + cdata.Rest()))
      modifies this, buffer, cdata`offset
      ensures Valid()
      ensures Handled(HandleData(env, Entered(old(Abs())), chunk, old(cdata.Rest())), old(reply), t)
    {
      hide FirstChunk, NextChunk, RoomForTokens;
      displayIndex := 0;
      outputs := [];
      if state == Approved {
        Clear();
        SendStatus(SW_BAD_STATE);
        return NoThrow;
      }
      if chunk > 0 && state != RecvData {
        Clear();
        SendStatus(SW_BAD_STATE);
        return NoThrow;
      }
      hide HandleData;
      t := ReceiveData(cdata, chunk);
    }

    /** `handler_sign_tx`, SIGN stage. A negative status makes `app_main` start over. */
    method HandlerSign(cdata: Cursor) returns (status: int)
      requires Valid() && cdata.Valid()
      modifies this, cdata`offset
      ensures Valid()
      ensures var r := HandleSign(env, Entered(old(Abs())), old(cdata.Rest()));
              if status < 0 then r == Outcome(Cleared(), NoReply)
              else Abs() == r.ctx && reply == Sent(old(reply), r.reply)
    {
      hide ReadPath, Finalised;
      displayIndex := 0;
      outputs := [];
      if state != Approved {
        SendStatus(SW_BAD_STATE);
        return 0;
      }
      var ok, path := cdata.ReadBip32Path();
      if !ok {
        SendStatus(SW_WRONG_DATA_LENGTH);
        return 0;
      }
      ok := SignWithKey(path);
      return if ok then 0 else -1;
    }

    /** `app_main` returns and is called again: nothing of the context or of a response is left. */
    method Restart()
      requires Valid()
      modifies this
      ensures Valid() && Result() == Outcome(Cleared(), NoReply)
    {
      Clear();
      reply := NoReply;
    }

    // ---- events ----

    /** A SIGN_TX data command: dispatched if no prompt is pending; `app_main` catches throws. */
    method OnData(chunk: byte, bytes: Payload)
      requires Valid() && EventFits(env, Abs(), Data(chunk, bytes))
      modifies this, buffer
      ensures Valid() && Result() == React(env, old(Abs()), Data(chunk, bytes))
    {
      hide HandleData, HasRoom;
      reply := NoReply;
      if prompt != NoPrompt {
        return;
      }
      if bytes == [] {
        SendStatus(SW_WRONG_DATA_LENGTH);
        return;
      }
      var cdata := ApduData(bytes);
      var t := HandlerData(cdata, chunk);
      if t.Throw? {
        SendStatus(t.sw);
      }
    }

    /** A SIGN_TX signature request. */
    method OnSign(path: Payload)
      requires Valid()
      modifies this
      ensures Valid() && Result() == React(env, old(Abs()), Sign(path))
    {
      hide HandleSign;
      reply := NoReply;
      if prompt != NoPrompt {
        return;
      }
      if path == [] {
        SendStatus(SW_WRONG_DATA_LENGTH);
        return;
      }
      var cdata := ApduData(path);
      var status := HandlerSign(cdata);
      if status < 0 {
        Restart();
      }
    }

    /** SIGN_TX done. */
    method OnDone()
      requires Valid()
      modifies this
      ensures Valid() && Result() == React(env, old(Abs()), Done)
    {
      reply := NoReply;
      if prompt == NoPrompt {
        Clear();
        SendStatus(SW_OK);
      }
    }

    /** The user presses Approve or Reject: `g_validate_callback`. */
    method OnChoice(choice: bool)
      requires Valid()
      modifies this
      ensures Valid() && Result() == React(env, old(Abs()), if choice then Accept else Reject)
    {
      hide ConfirmOutput, ConfirmTx;
      reply := NoReply;
      match prompt {
        case NoPrompt =>
        case ConfirmSend => UiActionTxConfirm(choice);
        case _ => UiConfirmOutput(choice);
      }
    }

    /** The user leaves the "Processing" screen: `action_exit_to_menu`. */
    method OnQuit()
      requires Valid()
      modifies this
      ensures Valid() && Result() == React(env, old(Abs()), Quit)
    {
      reply := NoReply;
      if state == Approved && prompt == NoPrompt {
        Clear();
      }
    }

    /** A command that does not touch the context. */
    method OnQuery()
      requires Valid()
      modifies this
      ensures Valid() && Result() == React(env, old(Abs()), Query)
    {
      reply := NoReply;
    }

    /** One event of the main loop. */
    method Handle(e: Event)
      requires Valid() && EventFits(env, Abs(), e)
      modifies this, buffer
      ensures Valid() && Result() == React(env, old(Abs()), e)
    {
      hide React;
      match e {
        case Data(chunk, bytes) => OnData(chunk, bytes);
        case Sign(path) => OnSign(path);
        case Done => OnDone();
        case OtherCommand => OnOtherCommand();
        case Query => OnQuery();
        case Accept => OnChoice(true);
        case Reject => OnChoice(false);
        case Quit => OnQuit();
      }
    }

    /** Any command whose handler starts by clearing the context. */
    method OnOtherCommand()
      requires Valid()
      modifies this
      ensures Valid() && Result() == React(env, old(Abs()), OtherCommand)
    {
      reply := NoReply;
      if prompt == NoPrompt {
        Clear();
      }
    }
  }

  /** The main loop: from power-up through any list of events whose first chunks declare at most ten
      tokens, the device is in the state the session model gives. `Device.Handle` does the same
      for every single event that does not overrun the token array. */
  method AppMain(env: Env, events: seq<Event>) returns (device: Device)
    requires forall i :: 0 <= i < |events| ==> DeclaresFew(events[i])
    ensures fresh(device) && device.Valid() && device.Abs() == Run(env, events).ctx
  {
    hide React, DeclaresFew, EventFits;
    device := new Device(env);
    var i := 0;
    NothingHappened(env);
    while i < |events|
      invariant 0 <= i <= |events|
      invariant fresh(device) && fresh(device.buffer) && device.Valid() && device.env == env
      invariant device.Abs() == Run(env, events[..i]).ctx
    {
      OneMoreEvent(env, events, i);
      FewDeclaredFit(env, events, i, device.Abs());
      device.Handle(events[i]);
      i := i + 1;
    }
    assert events[..|events|] == events;
  }

  lemma NothingHappened(env: Env)
    ensures Run(env, []).ctx == Cleared()
  {
  }

  lemma OneMoreEvent(env: Env, events: seq<Event>, i: nat)
    requires i < |events|
    ensures Run(env, events[..i + 1]).ctx == React(env, Run(env, events[..i]).ctx, events[i]).ctx
  {
    hide React;
    assert events[..i + 1][..i] == events[..i];
  }

  /** The data of an APDU behind a fresh cursor. */
  method ApduData(bytes: Payload) returns (cdata: Cursor)
    ensures fresh(cdata) && fresh(cdata.ptr) && cdata.Valid() && cdata.offset == 0 && cdata.Rest() == bytes
  {
    var a := new byte[|bytes|](i requires 0 <= i < |bytes| => bytes[i]);
    cdata := new Cursor(a, |bytes|);
    assert cdata.Rest() == bytes;
  }

  lemma OpenedWhole(env: Env, changes: seq<Change>, rest: seq<byte>)
    requires 5 <= |rest| <= 255
    ensures var c := Opened(changes, rest).(buffer := []);
            HasRoom(env, c.(buffer := c.buffer + rest[5..]))
  {
    FirstChunkHasRoom(env, changes, rest);
    hide RoomForTokens;
    assert [] + rest[5..] == rest[5..];
  }

  /** A header that ends early leaves what was read of it, and no outputs. */
  function ShortHeader(rest: seq<byte>): Context
    requires |rest| < 5
  {
    Begun().(
      hash := HashContext(rest, 0),
      dec := Counters(if |rest| > 2 then rest[2] else 0, if |rest| > 3 then rest[3] else 0, 0, 0, []))
  }

  lemma OpeningCases(env: Env, changes: seq<Change>, rest: seq<byte>)
    ensures var r := Opening(env, changes, rest);
            if |rest| < 5 then r == Outcome(ShortHeader(rest), Status(SW_WRONG_DATA_LENGTH))
            else
              var c := Opened(changes, rest).(buffer := []);
              r == if |rest[5..]| > BUFFER_SIZE then Outcome(c, Status(SW_WRONG_DATA_LENGTH))
                   else Receive(env, c.(buffer := c.buffer + rest[5..]))
  {
    hide Receive;
    if |rest| >= 5 { assert [] + rest[5..] == rest[5..]; }
  }

  lemma TokenStep(env: Env, changes: seq<Change>, d: Counters, buf: seq<byte>)
    requires d.remTokens > 0
    ensures DecodeStep(env, changes, d, buf)
         == if |buf| < TOKEN_UID_LEN then NeedMore
            else
              var at := FindToken(env.registry, buf[..TOKEN_UID_LEN]);
              if at.None? then Invalid
              else Took(d.(remTokens := d.remTokens - 1, tokens := d.tokens + [at.value]), TOKEN_UID_LEN, [])
  {
    hide FindToken;
  }

  lemma InputStep(env: Env, changes: seq<Change>, d: Counters, buf: seq<byte>)
    requires d.remTokens == 0 && d.remInputs > 0
    ensures DecodeStep(env, changes, d, buf)
         == if |buf| < TX_INPUT_LEN then NeedMore
            else if buf[33] as int * 0x100 + buf[34] > 0 then Invalid
            else Took(d.(remInputs := d.remInputs - 1), TX_INPUT_LEN, [])
  {
    if |buf| >= TX_INPUT_LEN {
      assert buf[33..35] == [buf[33], buf[34]];
      ShiftForms(buf[33..35]);
    }
  }

  lemma OneElement(env: Env, changes: seq<Change>, d: Counters, buf: seq<byte>, queued: seq<Output>)
    ensures var v := Decode(env, changes, d, buf).After(queued);
            match DecodeStep(env, changes, d, buf)
            case NeedMore => v == Ready(d, buf, queued)
            case Invalid => v.Failed?
            case Took(d', n, outs) =>
              && (v.Failed? || |v.outs| >= |queued| + |outs|)
              && v == if n == |buf| then Ready(d', [], queued + outs)
                      else Decode(env, changes, d', buf[n..]).After(queued + outs)
  {
    hide DecodeStep;
    match DecodeStep(env, changes, d, buf) {
      case NeedMore => assert queued + [] == queued;
      case Invalid =>
      case Took(d', n, outs) =>
        if n < |buf| {
          var w := Decode(env, changes, d', buf[n..]);
          if w.Ready? { assert queued + (outs + w.outs) == (queued + outs) + w.outs; }
        }
    }
  }

  /** Entries read so far followed by those still to be read. */
  function Joined(cs: seq<Change>, r: ChangeInfo): ChangeInfo {
    match r
    case Refused(sw) => Refused(sw)
    case Accepted(more, used) => Accepted(cs + more, used)
  }

  lemma JoinedEnds(cs: seq<Change>, r: ChangeInfo, bytes: seq<byte>, offset: nat)
    requires offset <= |bytes|
    ensures Joined([], r) == r
    ensures Joined(cs, ReadEntries(bytes, offset, 0)) == Accepted(cs, offset)
  {
    if r.Accepted? { assert [] + r.changes == r.changes; }
    assert cs + [] == cs;
  }

  lemma EntriesStep(cs: seq<Change>, bytes: seq<byte>, offset: nat, n: nat)
    requires offset <= |bytes| && n > 0
    ensures Joined(cs, ReadEntries(bytes, offset, n))
         == if offset == |bytes| || ReadPath(bytes[offset + 1..]).None? then Refused(SW_WRONG_DATA_LENGTH)
            else
              var path := ReadPath(bytes[offset + 1..]).value;
              Joined(cs + [Change(bytes[offset], path)], ReadEntries(bytes, offset + 2 + 4 * |path|, n - 1))
  {
    hide ReadPath;
    if offset < |bytes| && ReadPath(bytes[offset + 1..]).Some? {
      var path := ReadPath(bytes[offset + 1..]).value;
      var r := ReadEntries(bytes, offset + 2 + 4 * |path|, n - 1);
      if r.Accepted? {
        assert cs + ([Change(bytes[offset], path)] + r.changes) == (cs + [Change(bytes[offset], path)]) + r.changes;
      }
    }
  }

  lemma OldRefused(bytes: seq<byte>)
    requires bytes != []
    ensures var len := bytes[0] % 16;
            |bytes| < 2 || len > MAX_BIP32_PATH || |bytes| - 2 < 4 * len
            ==> ReadOld(bytes) == Refused(SW_WRONG_DATA_LENGTH)
  {
    hide ReadPath;
  }

  function Padded(len: byte, rest: seq<byte>): (s: seq<byte>)
    requires len <= MAX_BIP32_PATH && 4 * len as int <= |rest|
    ensures |s| == 1 + 4 * MAX_BIP32_PATH
  {
    [len] + rest[..4 * len as int] + seq(4 * (MAX_BIP32_PATH - len as int), _ => 0)
  }

  lemma PaddedBytes(len: byte, rest: seq<byte>)
    requires len <= MAX_BIP32_PATH && 4 * len as int <= |rest|
    ensures forall k :: 0 <= k < |Padded(len, rest)| ==>
              Padded(len, rest)[k] == if k == 0 then len else if k <= 4 * len as int then rest[k - 1] else 0
  {
  }

  lemma OldRead(bytes: seq<byte>)
    requires bytes != []
    requires var len := bytes[0] % 16;
             |bytes| >= 2 && len <= MAX_BIP32_PATH && |bytes| - 2 >= 4 * len
    ensures var read := ReadPath(Padded(bytes[0] % 16, bytes[2..]));
            ReadOld(bytes) == (if read.None? then Refused(SW_WRONG_DATA_LENGTH)
                               else Accepted([Change(bytes[1], read.value)], 2 + 4 * (bytes[0] % 16)))
  {
    hide ReadPath;
    var len := bytes[0] % 16;
    assert bytes[2..][..4 * len] == bytes[2..2 + 4 * len];
  }

  lemma CountNothing(index: nat)
    ensures CountBelow([], index) == 0
  {
  }

  lemma CountFrom(changes: seq<Change>, index: nat, i: nat)
    requires i < |changes|
    ensures CountBelow(changes[i..], index)
         == (if index > changes[i].index then 1 else 0) + CountBelow(changes[i + 1..], index)
  {
    assert changes[i..][1..] == changes[i + 1..];
  }

  lemma OneLess(n: int)
    ensures (n % 256 - 1) % 256 == (n - 1) % 256
  {
  }

  lemma EndOfSkip(c: Context, sorted: seq<byte>)
    ensures SkipFrom(c, sorted[|sorted|..]) == Open(c)
  {
  }

  lemma SkipStep(c: Context, sorted: seq<byte>, i: nat)
    requires i < |sorted|
    ensures SkipFrom(c, sorted[i..])
         == if c.confirmed != sorted[i] then SkipFrom(c, sorted[i + 1..])
            else match CheckIndex(Advance(c))
                 case Halted(c', r) => Halted(c', r)
                 case Open(c') => SkipFrom(c', sorted[i + 1..])
  {
    assert sorted[i..][1..] == sorted[i + 1..];
  }
}
