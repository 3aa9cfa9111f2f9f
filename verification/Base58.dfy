/** Base58 as src/common/base58.h promises it: what the two directions compute, and that they
    undo each other. */
module Base58 {
  import opened Bytes
  import opened Numerals

  const MAX_DEC_INPUT_SIZE := 164
  const MAX_ENC_INPUT_SIZE := 120

  /** BASE58_ALPHABET: the digits 1-9, then the letters A-Z and a-z without I, O and l. */
  function Letter(d: nat): char
    requires d < 58
  {
    if d < 9 then '1' + d as char
    else if d < 17 then 'A' + (d - 9) as char
    else if d < 22 then 'J' + (d - 17) as char
    else if d < 33 then 'P' + (d - 22) as char
    else if d < 44 then 'a' + (d - 33) as char
    else 'm' + (d - 44) as char
  }

  /** BASE58_TABLE: the digit of a character, 0xFF for every other one. Characters past the end
      of the table are refused before it is read. */
  function Table(c: char): nat {
    if '1' <= c <= '9' then c as int - '1' as int
    else if 'A' <= c <= 'H' then c as int - 'A' as int + 9
    else if 'J' <= c <= 'N' then c as int - 'J' as int + 17
    else if 'P' <= c <= 'Z' then c as int - 'P' as int + 22
    else if 'a' <= c <= 'k' then c as int - 'a' as int + 33
    else if 'm' <= c <= 'z' then c as int - 'm' as int + 44
    else 0xFF
  }

  lemma TableOfLetter(d: nat)
    requires d < 58
    ensures Table(Letter(d)) == d
  {
  }

  lemma LetterOfTable(c: char)
    requires Table(c) < 58
    ensures Letter(Table(c)) == c
  {
  }

  predicate IsBase58(s: string) {
    forall i :: 0 <= i < |s| ==> Table(s[i]) != 0xFF
  }

  function Letters(digits: seq<nat>): (s: string)
    requires AreDigits(58, digits)
    ensures |s| == |digits| && forall i :: 0 <= i < |s| ==> s[i] == Letter(digits[i])
  {
    seq(|digits|, i requires 0 <= i < |digits| => Letter(digits[i]))
  }

  function Digits(s: string): (digits: seq<nat>)
    requires IsBase58(s)
    ensures |digits| == |s| && AreDigits(58, digits) && forall i :: 0 <= i < |s| ==> digits[i] == Table(s[i])
  {
    seq(|s|, i requires 0 <= i < |s| => Table(s[i]))
  }

  /** How many leading entries are zero. */
  function ZeroCount(s: seq<nat>): (z: nat)
    ensures z <= |s| && (forall i :: 0 <= i < z ==> s[i] == 0) && (z < |s| ==> s[z] != 0)
  {
    if s == [] || s[0] != 0 then 0 else 1 + ZeroCount(s[1..])
  }

  function Zeros(z: nat): (s: seq<nat>)
    ensures |s| == z && forall i :: 0 <= i < z ==> s[i] == 0
  {
    seq(z, _ => 0)
  }

  /** Re-expresses a numeral in another base, keeping its leading zeros one for one. */
  function Rebase(from: nat, to: nat, s: seq<nat>): (t: seq<nat>)
    requires to >= 2
    ensures AreDigits(to, t) && |t| >= ZeroCount(s)
  {
    Zeros(ZeroCount(s)) + Numeral(to, Value(from, s[ZeroCount(s)..]))
  }

  /** `base58_encode`: each leading zero byte is a '1', the rest one base-58 numeral. */
  function Encode(bytes: seq<byte>): string {
    Letters(Rebase(256, 58, bytes))
  }

  /** `base58_decode`. */
  function Decode(s: string): (r: Option<seq<byte>>)
    ensures r.Some? ==> 2 <= |s| <= MAX_DEC_INPUT_SIZE && IsBase58(s)
  {
    if |s| > MAX_DEC_INPUT_SIZE || |s| < 2 || !IsBase58(s) then None
    else Some(AsBytes(Rebase(58, 256, Digits(s))))
  }

  function AsBytes(s: seq<nat>): (t: seq<byte>)
    requires AreDigits(256, s)
    ensures |t| == |s| && forall i :: 0 <= i < |s| ==> t[i] == s[i]
  {
    seq(|s|, i requires 0 <= i < |s| => s[i])
  }

  // ---- the two directions undo each other ----

  lemma {:induction false} ZeroCountIs(s: seq<nat>, z: nat)
    requires z <= |s| && (forall i :: 0 <= i < z ==> s[i] == 0) && (z < |s| ==> s[z] != 0)
    ensures ZeroCount(s) == z
    decreases z
  {
    if z == 0 {
    } else {
      ZeroCountIs(s[1..], z - 1);
    }
  }

  /** Rebasing is undone by rebasing back, for every digit string and any two bases. */
  lemma RebaseBack(from: nat, to: nat, s: seq<nat>, t: seq<nat>)
    requires from >= 2 && to >= 2 && AreDigits(from, s) && t == Rebase(from, to, s)
    ensures Rebase(to, from, t) == s
  {
    hide Numeral, Value, ZeroCount;
    var z := ZeroCount(s);
    var rest := s[z..];
    var n := Value(from, rest);
    assert t == Zeros(z) + Numeral(to, n);
    ZeroCountIs(t, z);
    assert t[z..] == Numeral(to, n);
    ValueNumeral(to, n);
    assert forall i :: 0 <= i < |rest| ==> rest[i] == s[z + i];
    NumeralValue(from, rest);
    assert s == Zeros(z) + rest;
  }

  lemma LettersOfDigits(s: string)
    requires IsBase58(s)
    ensures Letters(Digits(s)) == s
  {
    forall i | 0 <= i < |s| ensures Letters(Digits(s))[i] == s[i] {
      LetterOfTable(s[i]);
    }
  }

  lemma DigitsOfLetters(digits: seq<nat>)
    requires AreDigits(58, digits)
    ensures IsBase58(Letters(digits)) && Digits(Letters(digits)) == digits
  {
    forall i | 0 <= i < |digits| ensures Table(Letters(digits)[i]) == digits[i] {
      TableOfLetter(digits[i]);
    }
  }

  const ALPHABET := "123456789" + "ABCDEFGHJKLMNPQRSTUVWXYZ" + "abcdefghijkmnopqrstuvwxyz"

  /** The letters are those of BASE58_ALPHABET, in its order. */
  lemma LetterIsAlphabet(d: nat)
    requires d < 58
    ensures |ALPHABET| == 58 && Letter(d) == ALPHABET[d]
  {
    if d < 9 {
      assert ALPHABET[d] == "123456789"[d];
    } else if d < 33 {
      CapitalLetter(d - 9);
    } else {
      SmallLetter(d - 33);
    }
  }

  lemma CapitalLetter(d: nat)
    requires d < 24
    ensures Letter(d + 9) == "ABCDEFGHJKLMNPQRSTUVWXYZ"[d]
  {
  }

  lemma SmallLetter(d: nat)
    requires d < 25
    ensures Letter(d + 33) == "abcdefghijkmnopqrstuvwxyz"[d]
  {
  }

  /** And no others: a character is in the table exactly if it is in the alphabet. */
  lemma AlphabetIsBase58(c: char)
    ensures Table(c) != 0xFF <==> c in ALPHABET
  {
    hide Table, Letter;
    LetterIsAlphabet(0);
    if c in ALPHABET {
      var d :| 0 <= d < |ALPHABET| && ALPHABET[d] == c;
      LetterIsAlphabet(d);
      TableOfLetter(d);
    } else if Table(c) != 0xFF {
      TableRange(c);
      LetterOfTable(c);
      LetterIsAlphabet(Table(c));
    }
  }

  lemma TableRange(c: char)
    ensures Table(c) != 0xFF ==> Table(c) < 58
  {
  }

  /** The decoder takes exactly the strings of 2 to 164 characters of the alphabet. */
  lemma DecodeDomain(s: string)
    ensures Decode(s).Some? <==> 2 <= |s| <= 164 && forall i :: 0 <= i < |s| ==> s[i] in ALPHABET
  {
    hide Rebase, Table;
    forall c: char ensures Table(c) != 0xFF <==> c in ALPHABET {
      AlphabetIsBase58(c);
    }
  }

  /** What encoding means: a '1' for each leading zero byte and no other in front, and the same
      number in base 58 as the bytes are in base 256. */
  lemma EncodeMeans(bytes: seq<byte>, s: string, z: nat)
    requires s == Encode(bytes) && z <= |bytes|
    requires (forall i :: 0 <= i < z ==> bytes[i] == 0) && (z < |bytes| ==> bytes[z] != 0)
    ensures IsBase58(s) && Value(58, Digits(s)) == Value(256, bytes)
    ensures z <= |s| && (forall i :: 0 <= i < z ==> s[i] == '1') && (z < |s| ==> s[z] != '1')
  {
    hide Rebase, Value, IsBase58, Digits, Letters, Table;
    var asNat: seq<nat> := bytes;
    var digits := Rebase(256, 58, asNat);
    RebaseMeans(256, 58, asNat, digits, z);
    DigitsOfLetters(digits);
    assert s == Letters(digits);
    LettersOne(digits, z);
  }

  lemma LettersOne(digits: seq<nat>, z: nat)
    requires AreDigits(58, digits) && z <= |digits|
    requires (forall i :: 0 <= i < z ==> digits[i] == 0) && (z < |digits| ==> digits[z] != 0)
    ensures (forall i :: 0 <= i < z ==> Letters(digits)[i] == '1') && (z < |digits| ==> Letters(digits)[z] != '1')
  {
  }

  lemma RebaseMeans(from: nat, to: nat, s: seq<nat>, t: seq<nat>, z: nat)
    requires to >= 2 && t == Rebase(from, to, s) && z <= |s|
    requires (forall i :: 0 <= i < z ==> s[i] == 0) && (z < |s| ==> s[z] != 0)
    ensures Value(to, t) == Value(from, s)
    ensures z <= |t| && (forall i :: 0 <= i < z ==> t[i] == 0) && (z < |t| ==> t[z] != 0)
  {
    ZeroCountIs(s, z);
    hide Numeral, Value, ZeroCount;
    var rest := s[z..];
    var n := Numeral(to, Value(from, rest));
    assert t == Zeros(z) + n;
    assert s == Zeros(z) + rest;
    ValueNumeral(to, Value(from, rest));
    LeadingZeros(to, Zeros(z), n);
    LeadingZeros(from, Zeros(z), rest);
  }

  // ---- sizes ----

  lemma Tens()
    ensures Pow(256, 10) == 0x1_0000_0000_0000_0000_0000
    ensures Pow(58, 10) == 430804206899405824 && Pow(58, 1) == 58
  {
  }

  /** 30 bytes need at most 41 base-58 digits. */
  lemma SizeStep()
    ensures Pow(256, 30) <= Pow(58, 41)
  {
    Tens();
    hide Pow;
    PowAdd(256, 10, 10);
    PowAdd(256, 20, 10);
    PowAdd(58, 10, 10);
    PowAdd(58, 20, 10);
    PowAdd(58, 30, 10);
    PowAdd(58, 40, 1);
  }

  lemma FullSize()
    ensures Pow(256, 120) <= Pow(58, 164)
  {
    hide Pow;
    SizeStep();
    var a, b := Pow(256, 30), Pow(58, 41);
    PowAdd(256, 30, 30);
    PowAdd(256, 60, 60);
    PowAdd(58, 41, 41);
    PowAdd(58, 82, 82);
    MulMonotone(a, b, a, b);
    MulMonotone(a * a, b * b, a * a, b * b);
  }

  /** A number of `n` bytes, with `120 - n` zero bytes before it, fits the decoder's 164 characters. */
  lemma EncodedLength(v: nat, n: nat)
    requires n <= MAX_ENC_INPUT_SIZE && v < Pow(256, n)
    ensures |Numeral(58, v)| + (MAX_ENC_INPUT_SIZE - n) <= MAX_DEC_INPUT_SIZE
  {
    hide Pow, Numeral;
    var k := MAX_ENC_INPUT_SIZE - n;
    var d := Numeral(58, v);
    if d != [] {
      NumeralLower(58, d);
      ValueNumeral(58, v);
      FullSize();
      PowAdd(256, n, k);
      PowBaseMonotone(58, 256, k);
      PowAdd(58, |d| - 1, k);
      var low := Pow(58, |d| - 1);
      assert low <= v < Pow(256, n);
      assert Pow(256, k) > 0 && Pow(58, k) > 0;
      LessTimes(low, Pow(256, n), Pow(58, k), Pow(256, k));
      assert Pow(58, |d| - 1 + k) < Pow(58, 164);
      if |d| - 1 + k >= 164 { PowMonotone(58, 164, |d| - 1 + k); }
    }
  }

  lemma LessTimes(a: nat, b: nat, x: nat, y: nat)
    requires a < b && 0 < x <= y
    ensures a * x < b * y
  {
    MulMonotone(a + 1, b, x, x);
    assert (a + 1) * x == a * x + x;
    MulMonotone(b, b, x, y);
  }

  /** What the encoder returns: nothing for more than 120 bytes. */
  function EncodeChecked(bytes: seq<byte>): Option<string> {
    if |bytes| > MAX_ENC_INPUT_SIZE then None else Some(Encode(bytes))
  }

  lemma EncodeFitsDecoder(bytes: seq<byte>)
    requires |bytes| <= MAX_ENC_INPUT_SIZE
    ensures |Encode(bytes)| <= MAX_DEC_INPUT_SIZE
  {
    hide Numeral, Value, ZeroCount, Pow;
    var rest: seq<nat> := bytes[ZeroCount(bytes)..];
    ValueBound(256, rest);
    EncodedLength(Value(256, rest), |rest|);
  }

  /** The encoder writes a single character, or none, only for the empty string and for one byte
      below 58. */
  lemma EncodeIsShort(bytes: seq<byte>)
    ensures |Encode(bytes)| < 2 <==> |bytes| == 0 || (|bytes| == 1 && bytes[0] < 58)
  {
    var z := ZeroCount(bytes);
    var rest: seq<nat> := bytes[z..];
    var v := Value(256, rest);
    var d := Numeral(58, v);
    assert |Encode(bytes)| == z + |d|;
    ValueNumeral(58, v);
    if |rest| >= 2 {
      assert Canonical(256, rest);
      NumeralLower(256, rest);
      PowMonotone(256, 1, |rest| - 1);
      assert Pow(256, 1) == 256;
    } else if |rest| == 1 {
      assert rest[..0] == [];
      assert v == rest[0] == bytes[z];
    }
    if |d| >= 2 {
      NumeralLower(58, d);
      PowMonotone(58, 1, |d| - 1);
      assert Pow(58, 1) == 58;
    } else if |d| == 1 {
      assert d[..0] == [];
    }
  }

  /** Decoding undoes encoding, exactly for the inputs that encode to at least two characters. */
  lemma DecodeUndoesEncode(bytes: seq<byte>)
    requires |bytes| <= MAX_ENC_INPUT_SIZE
    ensures Decode(Encode(bytes)) == Some(bytes)
       <==> |bytes| >= 2 || (|bytes| == 1 && bytes[0] >= 58)
  {
    hide Rebase, Letters, Digits, IsBase58;
    EncodeFitsDecoder(bytes);
    EncodeIsShort(bytes);
    var asNat: seq<nat> := bytes;
    var digits := Rebase(256, 58, asNat);
    DigitsOfLetters(digits);
    RebaseBack(256, 58, asNat, digits);
    BytesAsBytes(bytes);
  }

  lemma BytesAsBytes(bytes: seq<byte>)
    ensures AsBytes(bytes) == bytes
  {
    assert forall i :: 0 <= i < |bytes| ==> AsBytes(bytes)[i] == bytes[i];
  }

  /** Encoding undoes decoding, exactly when the decoded bytes are within the encoder's limit. */
  lemma EncodeUndoesDecode(s: string)
    requires Decode(s).Some?
    ensures EncodeChecked(Decode(s).value) == Some(s) <==> |Decode(s).value| <= MAX_ENC_INPUT_SIZE
  {
    hide Rebase;
    var bytes := Decode(s).value;
    var digits := Digits(s);
    assert forall i :: 0 <= i < |bytes| ==> bytes[i] == Rebase(58, 256, digits)[i];
    var asNat: seq<nat> := bytes;
    assert asNat == Rebase(58, 256, digits);
    RebaseBack(58, 256, digits, Rebase(58, 256, digits));
    LettersOfDigits(s);
  }

  // ---- addresses ----

  /** A number between d * 58^k and (d+1) * 58^k has k+1 digits, the first of them d. */
  lemma LeadingDigit(v: nat, d: nat, k: nat)
    requires 0 < d < 58 && d * Pow(58, k) <= v < (d + 1) * Pow(58, k)
    ensures |Numeral(58, v)| == k + 1 && Numeral(58, v)[0] == d
  {
    hide Numeral, Value;
    var s := Numeral(58, v);
    var p := Pow(58, k);
    ValueNumeral(58, v);
    MulMonotone(d + 1, 58, p, p);
    NumeralLength(58, v, k + 1);
    MulAtLeast(d, p);
    if |s| <= k {
      ValueBound(58, s);
      PowMonotone(58, |s|, k);
    }
    assert s == [s[0]] + s[1..];
    ValueSplit(58, [s[0]], s[1..]);
    SingleDigit(58, s[0]);
    ValueBound(58, s[1..]);
    SameQuotient(v, d, s[0], Value(58, s[1..]), p);
  }

  lemma SingleDigit(b: nat, d: nat)
    ensures Value(b, [d]) == d
  {
    assert [d][..0] == [];
  }

  lemma SameQuotient(v: nat, d: nat, e: nat, r: nat, p: nat)
    requires v == e * p + r && r < p && d * p <= v < (d + 1) * p
    ensures d == e
  {
    if e < d {
      MulMonotone(e + 1, d, p, p);
    } else if e > d {
      MulMonotone(d + 1, e, p, p);
    }
  }

  /** 256^24 and 58^33, the place values that fix an address's first character. */
  lemma PlaceValues()
    ensures 16 * Pow(58, 33) <= 0x28 * Pow(256, 24) && 0x29 * Pow(256, 24) <= 17 * Pow(58, 33)
    ensures 29 * Pow(58, 33) <= 0x49 * Pow(256, 24) && 0x4A * Pow(256, 24) <= 30 * Pow(58, 33)
  {
    assert Pow(256, 8) == 0x1_0000_0000_0000_0000;
    PowAdd(256, 8, 8);
    PowAdd(256, 16, 8);
    assert Pow(58, 11) == 24986644000165537792;
    PowAdd(58, 11, 11);
    PowAdd(58, 22, 11);
  }

  const MAINNET: byte := 0x28
  const TESTNET: byte := 0x49
  const ADDRESS_LEN := 25
  const B58_ADDRESS_LEN := 35

  /** Every address of either network renders as 34 characters, 'H...' on mainnet and 'W...' on
      testnet, so with its NUL it fills the 35-byte display buffer exactly. */
  lemma AddressText(address: seq<byte>)
    requires |address| == ADDRESS_LEN && (address[0] == MAINNET || address[0] == TESTNET)
    ensures |Encode(address)| == 34 == B58_ADDRESS_LEN - 1
    ensures Encode(address)[0] == if address[0] == MAINNET then 'H' else 'W'
  {
    hide Numeral, Pow;
    var s: seq<nat> := address;
    ZeroCountIs(s, 0);
    assert s[0..] == s;
    assert s == [s[0]] + s[1..];
    ValueSplit(256, [s[0]], s[1..]);
    SingleDigit(256, s[0]);
    ValueBound(256, s[1..]);
    PlaceValues();
    var v, w := Value(256, s), Pow(256, 24);
    assert s[0] * w <= v < (s[0] + 1) * w;
    LeadingDigit(v, if address[0] == MAINNET then 16 else 29, 33);
  }
}
