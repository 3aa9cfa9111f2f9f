/** The output parser as the device executes it: a cursor over the decode buffer, stopping at
    the first thing it cannot read. Proved against `Deserialize.ParseOutput`. */
module OutputParser {
  import opened Bytes
  import opened Deserialize
  import opened CursorModule

  /** How a parsing routine ends: normally, or by one of its two throws. */
  datatype Signal = Fine | ThrowReady | ThrowParsing

  /** `parse_output_value`. The first byte is inspected before any length check. */
  method ParseOutputValue(buf: Cursor) returns (s: Signal, value: nat)
    requires buf.Valid() && buf.offset == 0 && buf.ptr.Length > 0
    modifies buf`offset
    ensures buf.Valid()
    ensures var w := ValueLength(buf.ptr[0]);
            if buf.size < w then s == ThrowReady
            else s == Fine && buf.offset == w && value == DecodeValue(buf.ptr[..w])
  {
    hide BigEndian;
    ghost var bytes := buf.Rest();
    if buf.ptr[0] >= 0x80 {
      var ok, tmp := buf.ReadU64();
      if !ok {
        return ThrowReady, 0;
      }
      assert bytes[..8] == buf.ptr[..8];
      return Fine, (-(tmp as int)) % 0x1_0000_0000_0000_0000;
    } else {
      var ok, tmp := buf.ReadU32();
      if !ok {
        return ThrowReady, 0;
      }
      assert bytes[..4] == buf.ptr[..4];
      return Fine, tmp;
    }
  }

  /** `validate_p2pkh_script`. */
  method ValidateP2pkhScript(buf: Cursor, scriptLen: nat) returns (s: Signal)
    requires buf.Valid()
    ensures s == if scriptLen != SCRIPT_LEN then ThrowParsing
                 else if |buf.Rest()| < SCRIPT_LEN then ThrowReady
                 else if IsP2pkh(buf.Rest()[..SCRIPT_LEN]) then Fine
                 else ThrowParsing
  {
    if scriptLen != SCRIPT_LEN {
      return ThrowParsing;
    }
    if buf.size - buf.offset < SCRIPT_LEN {
      return ThrowReady;
    }
    var p, at := buf.ptr, buf.offset;
    ghost var script := buf.Rest()[..SCRIPT_LEN];
    assert forall i :: 0 <= i < SCRIPT_LEN ==> script[i] == p[at + i];
    assert script[..3] == [p[at], p[at + 1], p[at + 2]] && script[23..] == [p[at + 23], p[at + 24]];
    if p[at] != OP_DUP || p[at + 1] != OP_HASH160 || p[at + 2] != PUBKEY_HASH_LEN ||
       p[at + 23] != OP_EQUALVERIFY || p[at + 24] != OP_CHECKSIG {
      return ThrowParsing;
    }
    return Fine;
  }

  lemma ScriptBytes(s: seq<byte>, len: nat, at: nat)
    requires at + SCRIPT_LEN <= len <= |s|
    ensures s[..len][at..at + SCRIPT_LEN] == s[at..at + SCRIPT_LEN] == s[at..len][..SCRIPT_LEN]
  {
  }

  lemma HashBytes(s: seq<byte>, at: nat)
    requires at + SCRIPT_LEN <= |s|
    ensures s[at..at + SCRIPT_LEN][3..23] == s[at + 3..at + 23]
  {
    var script := s[at..at + SCRIPT_LEN];
    assert forall i :: 3 <= i < 23 ==> script[i] == s[at + i];
  }

  /** `parse_output` on the first `inLen` bytes of `input`. */
  method ParseOutputBytes(input: array<byte>, inLen: nat) returns (p: Parse)
    requires inLen <= input.Length < SIZE_LIMIT && input.Length > 0
    ensures p == ParseOutput(input[..inLen])
  {
    ghost var bytes := input[..inLen];
    var buf := new Cursor(input, inLen);
    var s, value := ParseOutputValue(buf);
    if s == ThrowReady {
      return Short;
    }
    var w := buf.offset;
    assert bytes[0] == input[0] && w == ValueLength(bytes[0]) && input[..w] == bytes[..w];
    var ok, tokenData := buf.ReadU8();
    if !ok {
      return Short;
    }
    var scriptLen;
    ok, scriptLen := buf.ReadU16();
    if !ok {
      return Short;
    }
    assert buf.offset == w + 3;
    assert input[w + 1..inLen][..2] == bytes[w + 1..w + 3];
    hide IsP2pkh, DecodeValue, BigEndian;
    s := ValidateP2pkhScript(buf, scriptLen);
    if scriptLen == SCRIPT_LEN && w + 3 + SCRIPT_LEN <= inLen {
      ScriptBytes(input[..], inLen, w + 3);
      HashBytes(input[..], w + 3);
      assert buf.Rest()[..SCRIPT_LEN] == input[w + 3..w + 3 + SCRIPT_LEN];
    }
    if s != Fine {
      return if s == ThrowReady then Short else Malformed;
    }
    var pkh := input[buf.offset + 3..buf.offset + 3 + PUBKEY_HASH_LEN];
    ok := buf.SeekCur(scriptLen);
    return Parsed(value, tokenData, pkh, buf.offset);
  }
}
