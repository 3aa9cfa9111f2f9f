/** The output parser of src/transaction/deserialize.c, and the wire format it reads. */
module Deserialize {
  import opened Bytes

  const OP_DUP: byte := 0x76
  const OP_HASH160: byte := 0xA9
  const OP_EQUALVERIFY: byte := 0x88
  const OP_CHECKSIG: byte := 0xAC
  const PUBKEY_HASH_LEN := 20
  const SCRIPT_LEN := 25

  /** What `parse_output` learns about one output; `length` is its return value. */
  datatype Parse =
    | Short                                 // THROW(TX_STATE_READY)
    | Malformed                             // THROW(SW_TX_PARSING_FAIL)
    | Parsed(value: nat, tokenData: byte, pkh: seq<byte>, length: nat)

  /** Width of the value field, announced by the first bit. */
  function ValueLength(first: byte): nat {
    if first >= 0x80 then 8 else 4
  }

  lemma FieldRange(field: seq<byte>)
    requires |field| == 4 || |field| == 8
    ensures |field| == 8 ==> BigEndian(field) < 0x1_0000_0000_0000_0000
    ensures |field| == 8 && field[0] >= 0x80 ==> BigEndian(field) >= 0x8000_0000_0000_0000
    ensures |field| == 4 && field[0] < 0x80 ==> BigEndian(field) < 0x8000_0000
  {
    hide BigEndian, Numerals.Pow;
    OctetPowers();
    LeadingByte(field);
  }

  /** A wide value is the two's complement negation of the 64-bit field. */
  function DecodeValue(field: seq<byte>): (v: nat)
    requires |field| == 4 || |field| == 8
    ensures |field| == 8 && field[0] >= 0x80 ==> 0 < v <= 0x8000_0000_0000_0000
    ensures |field| == 4 && field[0] < 0x80 ==> v < 0x8000_0000
  {
    FieldRange(field);
    hide BigEndian;
    if |field| == 8 then
      (0x1_0000_0000_0000_0000 - BigEndian(field)) % 0x1_0000_0000_0000_0000
    else
      BigEndian(field)
  }

  /** `validate_p2pkh_script` on the script bytes. */
  predicate IsP2pkh(script: seq<byte>)
    requires |script| == SCRIPT_LEN
  {
    script[..3] == [OP_DUP, OP_HASH160, PUBKEY_HASH_LEN] && script[23..] == [OP_EQUALVERIFY, OP_CHECKSIG]
  }

  function ParseOutput(buf: seq<byte>): (p: Parse)
    ensures p.Parsed? ==> p.length <= |buf| && (p.length == 32 || p.length == 36) && |p.pkh| == 20
    ensures p.Short? ==> |buf| < 36
  {
    if buf == [] then Short else
    var w := ValueLength(buf[0]);
    if |buf| < w + 3 then Short
    else if BigEndian(buf[w + 1..w + 3]) != SCRIPT_LEN then Malformed
    else if |buf| < w + 3 + SCRIPT_LEN then Short
    else
      var script := buf[w + 3..w + 3 + SCRIPT_LEN];
      if IsP2pkh(script)
      then Parsed(DecodeValue(buf[..w]), buf[w], script[3..23], w + 3 + SCRIPT_LEN)
      else Malformed
  }

  /** More bytes never change a verdict other than "need more". */
  lemma ParseOutputStable(a: seq<byte>, b: seq<byte>)
    ensures !ParseOutput(a).Short? ==> ParseOutput(a + b) == ParseOutput(a)
  {
    if !ParseOutput(a).Short? {
      var w := ValueLength(a[0]);
      assert (a + b)[w + 1..w + 3] == a[w + 1..w + 3];
      if |a| >= w + 3 + SCRIPT_LEN {
        assert (a + b)[w + 3..w + 3 + SCRIPT_LEN] == a[w + 3..w + 3 + SCRIPT_LEN];
        assert (a + b)[..w] == a[..w];
      }
    }
  }

  // ---- the wire format, as the client writes it ----

  function Script(pkh: seq<byte>): seq<byte> {
    [OP_DUP, OP_HASH160, PUBKEY_HASH_LEN] + pkh + [OP_EQUALVERIFY, OP_CHECKSIG]
  }

  predicate ValueFits(wide: bool, value: nat) {
    if wide then 0 < value <= 0x8000_0000_0000_0000 else value < 0x8000_0000
  }

  function EncodeValue(wide: bool, value: nat): (s: seq<byte>)
    requires ValueFits(wide, value)
    ensures |s| == if wide then 8 else 4
  {
    OctetPowers();
    if wide then ToBytes(0x1_0000_0000_0000_0000 - value, 8) else ToBytes(value, 4)
  }

  function EncodeOutput(wide: bool, value: nat, tokenData: byte, pkh: seq<byte>): seq<byte>
    requires ValueFits(wide, value)
  {
    EncodeValue(wide, value) + [tokenData] + [0, SCRIPT_LEN] + Script(pkh)
  }

  lemma EncodedValue(wide: bool, value: nat)
    requires ValueFits(wide, value)
    ensures var s := EncodeValue(wide, value);
            ValueLength(s[0]) == |s| && DecodeValue(s) == value
  {
    hide ToBytes, BigEndian, Numerals.Pow;
    OctetPowers();
    var s := EncodeValue(wide, value);
    BigEndianToBytes(if wide then 0x1_0000_0000_0000_0000 - value else value, if wide then 8 else 4);
    LeadingByte(s);
  }

  lemma Negated(n: nat)
    requires 0x8000_0000_0000_0000 <= n < 0x1_0000_0000_0000_0000
    ensures (0x1_0000_0000_0000_0000 - n) % 0x1_0000_0000_0000_0000 == 0x1_0000_0000_0000_0000 - n
  {
  }

  lemma DecodedValue(field: seq<byte>)
    requires |field| == 4 || |field| == 8
    requires |field| == ValueLength(field[0])
    ensures ValueFits(|field| == 8, DecodeValue(field))
    ensures EncodeValue(|field| == 8, DecodeValue(field)) == field
  {
    hide ToBytes, BigEndian, Numerals.Pow;
    FieldRange(field);
    ToBytesBigEndian(field);
    if |field| == 8 { Negated(BigEndian(field)); }
  }

  /** An encoded output parses back to its fields, whatever follows it. */
  lemma ParseEncoded(wide: bool, value: nat, tokenData: byte, pkh: seq<byte>, tail: seq<byte>)
    requires ValueFits(wide, value) && |pkh| == PUBKEY_HASH_LEN
    ensures var e := EncodeOutput(wide, value, tokenData, pkh);
            ParseOutput(e + tail) == Parsed(value, tokenData, pkh, |e|)
  {
    var v := EncodeValue(wide, value);
    var e := EncodeOutput(wide, value, tokenData, pkh);
    var w := |v|;
    EncodedValue(wide, value);
    assert e[..w] == v;
    assert e[0] == v[0];
    assert e[w + 1..w + 3] == [0, SCRIPT_LEN];
    ShiftForms(e[w + 1..w + 3]);
    assert e[w + 3..w + 3 + SCRIPT_LEN] == Script(pkh);
    assert Script(pkh)[3..23] == pkh;
    ParseOutputStable(e, tail);
  }

  /** Every accepted output is an encoding of its fields. */
  lemma ParsedIsEncoded(buf: seq<byte>)
    requires ParseOutput(buf).Parsed?
    ensures var p := ParseOutput(buf);
            var wide := p.length == 36;
            ValueFits(wide, p.value) && buf[..p.length] == EncodeOutput(wide, p.value, p.tokenData, p.pkh)
  {
    var p := ParseOutput(buf);
    var w := ValueLength(buf[0]);
    DecodedValue(buf[..w]);
    ShiftForms(buf[w + 1..w + 3]);
    var script := buf[w + 3..w + 3 + SCRIPT_LEN];
    assert script == script[..3] + script[3..23] + script[23..];
    assert buf[..p.length] == buf[..w] + [buf[w]] + buf[w + 1..w + 3] + script;
    assert buf[w + 1..w + 3] == [0, SCRIPT_LEN];
  }

  /** The parser on any buffer, byte by byte: a value of 4 bytes, or of 8 negated ones if the first bit
      is set, the token byte, the script length 25 and the script around the key hash. It is refused
      once its length or its whole script is there and wrong, and asks for more until then. */
  lemma OutputLayout(buf: seq<byte>, w: nat, p: Parse)
    requires buf != [] && w == (if buf[0] >= 0x80 then 8 else 4) && p == ParseOutput(buf)
    ensures p.Short? <==> |buf| < w + 3 || (buf[w + 1] == 0 && buf[w + 2] == 25 && |buf| < w + 28)
    ensures p.Parsed? <==> && |buf| >= w + 28 && buf[w + 1..w + 6] == [0, 25, 0x76, 0xA9, 20]
                           && buf[w + 26..w + 28] == [0x88, 0xAC]
    ensures p.Parsed? ==> p.length == w + 28 && p.tokenData == buf[w] && p.pkh == buf[w + 6..w + 26]
    ensures p.Parsed? && w == 4 ==>
              p.value == buf[0] as int * 0x100_0000 + buf[1] as int * 0x1_0000 + buf[2] as int * 0x100 + buf[3]
    ensures p.Parsed? && w == 8 ==>
              p.value + buf[0] as int * 0x100_0000_0000_0000 + buf[1] as int * 0x1_0000_0000_0000
              + buf[2] as int * 0x100_0000_0000 + buf[3] as int * 0x1_0000_0000
              + buf[4] as int * 0x100_0000 + buf[5] as int * 0x1_0000 + buf[6] as int * 0x100 + buf[7]
              == 0x1_0000_0000_0000_0000
  {
    hide BigEndian, DecodeValue;
    if |buf| >= w + 3 { ShiftForms(buf[w + 1..w + 3]); }
    if |buf| >= w + 28 { ScriptBytes(buf, w + 3); }
    if p.Parsed? { ValueBytes(buf[..w]); }
  }

  lemma ScriptBytes(buf: seq<byte>, at: nat)
    requires at + 25 <= |buf| && at >= 2
    ensures IsP2pkh(buf[at..at + 25]) && buf[at - 2] == 0 && buf[at - 1] == 25
       <==> buf[at - 2..at + 3] == [0, 25, 0x76, 0xA9, 20] && buf[at + 23..at + 25] == [0x88, 0xAC]
    ensures buf[at..at + 25][3..23] == buf[at + 3..at + 23]
  {
    var script := buf[at..at + 25];
    assert script[..3] == buf[at..at + 3] && script[23..] == buf[at + 23..at + 25];
    assert forall k :: 0 <= k < 20 ==> script[3..23][k] == buf[at + 3..at + 23][k];
    assert buf[at - 2..at + 3] == [buf[at - 2], buf[at - 1]] + script[..3];
  }

  lemma ValueBytes(field: seq<byte>)
    requires |field| == 4 || |field| == 8
    requires |field| == 8 ==> field[0] >= 0x80
    ensures |field| == 4 ==>
              DecodeValue(field) == field[0] as int * 0x100_0000 + field[1] as int * 0x1_0000
                                    + field[2] as int * 0x100 + field[3]
    ensures |field| == 8 ==>
              DecodeValue(field) + field[0] as int * 0x100_0000_0000_0000 + field[1] as int * 0x1_0000_0000_0000
              + field[2] as int * 0x100_0000_0000 + field[3] as int * 0x1_0000_0000
              + field[4] as int * 0x100_0000 + field[5] as int * 0x1_0000 + field[6] as int * 0x100 + field[7]
              == 0x1_0000_0000_0000_0000
  {
    hide BigEndian;
    FieldRange(field);
    if |field| == 4 {
      ShiftForm32(field);
    } else {
      ShiftForm64(field);
      Negated(BigEndian(field));
    }
  }
}
