/** The in-place radix conversions of src/common/base58.c, proved to compute `Base58.Encode` and
    `Base58.Decode`. */
module Base58InPlace {
  import opened Bytes
  import opened Numerals
  import opened Base58

  /** The encoder's size estimate for `n` bytes. */
  function Estimate(n: nat): nat {
    n * 138 / 100 + 1
  }

  /** The estimate is always large enough: eight more bytes add at least eleven digits, and
      256^8 <= 58^11. */
  lemma {:induction false} EstimateSuffices(n: nat)
    ensures Pow(256, n) <= Pow(58, Estimate(n))
    decreases n
  {
    hide Pow;
    if n < 8 {
      SmallEstimates(n);
    } else {
      EstimateSuffices(n - 8);
      EightBytes();
      PowAdd(256, 8, n - 8);
      PowAdd(58, 11, Estimate(n - 8));
      PowMonotone(58, 11 + Estimate(n - 8), Estimate(n));
      MulMonotone(Pow(256, 8), Pow(58, 11), Pow(256, n - 8), Pow(58, Estimate(n - 8)));
    }
  }

  lemma EightBytes()
    ensures Pow(256, 8) <= Pow(58, 11)
  {
  }

  lemma SmallEstimates(n: nat)
    requires n < 8
    ensures Pow(256, n) <= Pow(58, Estimate(n))
  {
    assert Pow(256, 0) == 1 && Pow(256, 1) == 256 && Pow(256, 2) == 65536 && Pow(256, 3) == 16777216;
    assert Pow(256, 4) == 4294967296 && Pow(256, 5) == 1099511627776 && Pow(256, 6) == 281474976710656;
    assert Pow(256, 7) == 72057594037927936;
    assert Pow(58, 1) == 58 && Pow(58, 2) == 3364 && Pow(58, 3) == 195112 && Pow(58, 5) == 656356768;
    assert Pow(58, 6) == 38068692544 && Pow(58, 7) == 2207984167552 && Pow(58, 9) == 7427658739644928;
    assert Pow(58, 10) == 430804206899405824;
  }

  /** The part of a buffer in use, as digits. */
  ghost function InUse(a: array<byte>, lo: nat, hi: nat): (s: seq<nat>)
    requires lo <= hi <= a.Length
    reads a
    ensures |s| == hi - lo && forall i :: 0 <= i < |s| ==> s[i] == a[lo + i]
  {
    a[lo..hi]
  }

  lemma NextDigit(x: seq<nat>, i: nat)
    requires i < |x|
    ensures Value(58, x[i..]) == x[i] * Pow(58, |x| - i - 1) + Value(58, x[i + 1..])
  {
    assert x[i..] == [x[i]] + x[i + 1..];
    ValueSplit(58, [x[i]], x[i + 1..]);
    SingleDigit(58, x[i]);
  }

  lemma CarryStep(newTail: nat, oldTail: nat, d: nat, carry: nat, b: nat, p: nat)
    requires newTail + carry * p == 256 * oldTail + b
    ensures var c := carry + 256 * d;
            (c % 58) * p + newTail + (c / 58) * (58 * p) == 256 * (d * p + oldTail) + b
  {
    var c := carry + 256 * d;
    assert (c % 58) * p + (c / 58) * (58 * p) == (c % 58 + 58 * (c / 58)) * p == c * p;
    assert c * p == carry * p + 256 * (d * p);
  }

  /** Values are equal once everything to the left is zero. */
  lemma ZerosLeft(x: seq<nat>, j: nat)
    requires j <= |x| && forall k :: 0 <= k < j ==> x[k] == 0
    ensures Value(58, x) == Value(58, x[j..])
  {
    assert x == x[..j] + x[j..];
    LeadingZeros(58, x[..j], x[j..]);
  }

  lemma NoCarryLeft(newTail: nat, carry: nat, p: nat, total: nat)
    requires newTail + carry * p == total < p
    ensures carry == 0
  {
    if carry > 0 { MulAtLeast(carry, p); }
  }

  /** Left of the window everything is zero: a carry that has died out leaves the whole value
      right, and at `low` it has. */
  lemma LeftOfWindow(o: seq<nat>, n: seq<nat>, j: nat, carry: nat, b: nat, low: nat)
    requires j <= |o| == |n| && low <= j
    requires forall k :: 0 <= k < j ==> o[k] == 0 && n[k] == 0
    requires Value(58, n[j..]) + carry * Pow(58, |o| - j) == 256 * Value(58, o[j..]) + b
    requires 256 * Value(58, o) + b < Pow(58, |o| - low)
    ensures carry == 0 ==> Value(58, n) == 256 * Value(58, o) + b
    ensures j == low ==> carry == 0
  {
    hide Pow, Value;
    ZerosLeft(o, j);
    ZerosLeft(n, j);
    if j == low { NoCarryLeft(Value(58, n[j..]), carry, Pow(58, |o| - j), 256 * Value(58, o[j..]) + b); }
  }

  /** The inner loop of `base58_encode`: multiplies the base-58 number in `buffer[..size]` by 256
      and adds `b`, working leftwards until the carry dies out left of `stopAt`. It always
      leaves by that break, at or right of `low`. */
  method AddByte(buffer: array<byte>, size: nat, stopAt: nat, b: byte, ghost low: nat) returns (newStop: int)
    requires 0 < stopAt < size <= buffer.Length && low < stopAt
    requires AreDigits(58, InUse(buffer, 0, size))
    requires forall k :: 0 <= k < stopAt ==> buffer[k] == 0
    requires 256 * Value(58, InUse(buffer, 0, size)) + b < Pow(58, size - low)
    modifies buffer
    ensures low <= newStop < stopAt
    ensures AreDigits(58, InUse(buffer, 0, size))
    ensures forall k :: 0 <= k < newStop ==> buffer[k] == 0
    ensures Value(58, InUse(buffer, 0, size)) == 256 * Value(58, old(InUse(buffer, 0, size))) + b
  {
    hide Pow, Value;
    ghost var o := InUse(buffer, 0, size);
    EmptyTail(o, b);
    var carry: int := b;
    var j: int := size - 1;
    while j >= 0
      invariant low <= j < size && 0 <= carry < 256
      invariant AreDigits(58, InUse(buffer, 0, size))
      invariant forall k :: 0 <= k <= j ==> buffer[k] == o[k]
      invariant Value(58, InUse(buffer, 0, size)[j + 1..]) + carry * Pow(58, size - 1 - j)
             == 256 * Value(58, o[j + 1..]) + b
      decreases j
    {
      ghost var n := InUse(buffer, 0, size);
      ghost var c := carry;
      carry := carry + 256 * buffer[j] as int;
      buffer[j] := carry % 58;
      carry := carry / 58;
      ghost var n' := InUse(buffer, 0, size);
      DigitStored(o, n, n', j, b, c);
      if j <= stopAt - 1 {
        LeftOfWindow(o, n', j, carry, b, low);
        if carry == 0 {
          break;
        }
      }
      j := j - 1;
    }
    newStop := j;
  }

  lemma EmptyTail(o: seq<nat>, b: nat)
    ensures Value(58, o[|o|..]) == 0 && Pow(58, 0) == 1
  {
  }

  /** One digit of the inner loop: `c` is the carry before it. */
  lemma DigitStored(o: seq<nat>, n: seq<nat>, n': seq<nat>, j: nat, b: nat, c: nat)
    requires j < |o| == |n| == |n'|
    requires n' == n[j := (c + 256 * o[j]) % 58]
    requires Value(58, n[j + 1..]) + c * Pow(58, |o| - 1 - j) == 256 * Value(58, o[j + 1..]) + b
    ensures Value(58, n'[j..]) + (c + 256 * o[j]) / 58 * Pow(58, |o| - j) == 256 * Value(58, o[j..]) + b
  {
    hide Value;
    assert n'[j + 1..] == n[j + 1..];
    NextDigit(n', j);
    NextDigit(o, j);
    CarryStep(Value(58, n[j + 1..]), Value(58, o[j + 1..]), o[j], c, b, Pow(58, |o| - 1 - j));
  }

  /** The outer loop of `base58_encode`. `stopAt` is never 0 before a pass, so `stopAt - 1` does
      not wrap. */
  method EncodeDigits(input: array<byte>, inLen: nat, zeroCount: nat, buffer: array<byte>, outputSize: nat)
    requires zeroCount <= inLen <= input.Length && input != buffer
    requires outputSize == Estimate(inLen - zeroCount) <= buffer.Length
    requires forall k :: 0 <= k < outputSize ==> buffer[k] == 0
    modifies buffer
    ensures AreDigits(58, InUse(buffer, 0, outputSize))
    ensures Value(58, InUse(buffer, 0, outputSize)) == Value(256, InUse(input, zeroCount, inLen))
  {
    hide Pow, Value;
    ghost var bytes := InUse(input, zeroCount, inLen);
    NoValue(InUse(buffer, 0, outputSize), bytes[..0]);
    var stopAt: int := outputSize - 1;
    var startAt := zeroCount;
    while startAt < inLen
      invariant zeroCount <= startAt <= inLen
      invariant outputSize - Estimate(startAt - zeroCount) <= stopAt < outputSize
      invariant AreDigits(58, InUse(buffer, 0, outputSize))
      invariant forall k :: 0 <= k < stopAt ==> buffer[k] == 0
      invariant Value(58, InUse(buffer, 0, outputSize)) == Value(256, bytes[..startAt - zeroCount])
    {
      ghost var n := startAt - zeroCount;
      EstimateGrows(n, inLen - zeroCount);
      OneMoreByte(bytes, n);
      EstimateSuffices(n + 1);
      stopAt := AddByte(buffer, outputSize, stopAt, input[startAt], outputSize - Estimate(n + 1));
      startAt := startAt + 1;
    }
    assert bytes[..inLen - zeroCount] == bytes;
  }

  lemma NoValue(s: seq<nat>, t: seq<nat>)
    requires t == [] && forall k :: 0 <= k < |s| ==> s[k] == 0
    ensures Value(58, s) == Value(256, t) == 0
  {
    ZerosHaveNoValue(58, s);
  }

  lemma EstimateGrows(n: nat, total: nat)
    requires n < total
    ensures Estimate(n) < Estimate(n + 1) <= Estimate(total)
  {
  }

  lemma OneMoreByte(bytes: seq<nat>, n: nat)
    requires n < |bytes| && AreDigits(256, bytes)
    ensures Value(256, bytes[..n + 1]) == Value(256, bytes[..n]) * 256 + bytes[n]
    ensures Value(256, bytes[..n + 1]) < Pow(256, n + 1)
  {
    assert bytes[..n + 1] == bytes[..n] + [bytes[n]];
    ValueOneMore(256, bytes[..n], bytes[n]);
    ValueBound(256, bytes[..n + 1]);
  }

  /** Without its leading zeros a digit string is the canonical numeral of its value. */
  lemma Stripped(b: nat, digits: seq<nat>, j: nat)
    requires b >= 2 && AreDigits(b, digits) && j <= |digits|
    requires (forall k :: 0 <= k < j ==> digits[k] == 0) && (j < |digits| ==> digits[j] != 0)
    ensures digits[j..] == Numeral(b, Value(b, digits))
  {
    hide Value, Numeral;
    assert digits == digits[..j] + digits[j..];
    LeadingZeros(b, digits[..j], digits[j..]);
    NumeralValue(b, digits[j..]);
  }

  /** `base58_encode` of the first `inLen` bytes of `input` into `out`; -1 is refusal. */
  method Base58Encode(input: array<byte>, inLen: nat, out: array<char>, outLen: nat) returns (r: int)
    requires inLen <= input.Length && outLen <= out.Length
    modifies out
    ensures var e := EncodeChecked(input[..inLen]);
            if e.None? || outLen < |e.value| then r == -1 && out[..] == old(out[..])
            else r == |e.value| && out[..r] == e.value && out[r..] == old(out[r..])
  {
    hide Value, Numeral, ZeroCount;
    if inLen > MAX_ENC_INPUT_SIZE {
      return -1;
    }
    ghost var bytes := InUse(input, 0, inLen);
    var buffer := new byte[MAX_ENC_INPUT_SIZE * 138 / 100 + 1](_ => 0);
    var zeroCount := 0;
    while zeroCount < inLen && input[zeroCount] == 0
      invariant 0 <= zeroCount <= inLen
      invariant forall k :: 0 <= k < zeroCount ==> bytes[k] == 0
    {
      zeroCount := zeroCount + 1;
    }
    ZeroCountIs(bytes, zeroCount);
    var outputSize := (inLen - zeroCount) * 138 / 100 + 1;
    EncodeDigits(input, inLen, zeroCount, buffer, outputSize);
    ghost var digits := InUse(buffer, 0, outputSize);
    var j := 0;
    while j < outputSize && buffer[j] == 0
      invariant 0 <= j <= outputSize
      invariant forall k :: 0 <= k < j ==> digits[k] == 0
    {
      j := j + 1;
    }
    Stripped(58, digits, j);
    ghost var text := Encode(input[..inLen]);
    assert InUse(input, zeroCount, inLen) == bytes[zeroCount..];
    assert text == Letters(Zeros(zeroCount) + digits[j..]);
    if outLen < zeroCount + outputSize - j {
      return -1;
    }
    r := EmitText(out, zeroCount, buffer, j, outputSize);
  }

  /** The end of `base58_encode`: `zeroCount` ones, then the digits from `from` on. */
  method EmitText(out: array<char>, zeroCount: nat, buffer: array<byte>, from: nat, outputSize: nat) returns (i: nat)
    requires from <= outputSize <= buffer.Length && zeroCount + outputSize - from <= out.Length
    requires AreDigits(58, InUse(buffer, 0, outputSize))
    modifies out
    ensures var text := Letters(Zeros(zeroCount) + InUse(buffer, 0, outputSize)[from..]);
            i == |text| && out[..i] == text && out[i..] == old(out[i..])
  {
    ghost var text := Letters(Zeros(zeroCount) + InUse(buffer, 0, outputSize)[from..]);
    i := 0;
    while i < zeroCount
      modifies out
      invariant 0 <= i <= zeroCount
      invariant forall m :: 0 <= m < i ==> out[m] == text[m]
      invariant forall m :: i <= m < out.Length ==> out[m] == old(out[m])
    {
      out[i] := Letter(0);
      i := i + 1;
    }
    var j := from;
    while j < outputSize
      modifies out
      invariant j <= outputSize && i == zeroCount + j - from
      invariant forall m :: 0 <= m < i ==> out[m] == text[m]
      invariant forall m :: i <= m < out.Length ==> out[m] == old(out[m])
    {
      assert text[i] == Letter(InUse(buffer, 0, outputSize)[from..][j - from]);
      out[i] := Letter(buffer[j]);
      i := i + 1;
      j := j + 1;
    }
  }

  // ---- decoding ----

  lemma DivisionStep(q: nat, rem: nat, v: nat, d: nat)
    requires q * 256 + rem == v
    ensures var t := rem * 58 + d;
            (q * 58 + t / 256) * 256 + t % 256 == v * 58 + d
  {
  }

  lemma DigitAppended(x: seq<nat>, i: nat)
    requires i < |x|
    ensures Value(58, x[..i + 1]) == Value(58, x[..i]) * 58 + x[i]
  {
    assert x[..i + 1] == x[..i] + [x[i]];
    ValueOneMore(58, x[..i], x[i]);
  }

  /** The inner loop of `base58_decode`: divides the base-58 number in `tmp[from..to]` by 256 in
      place. Quotient digits stay below 58 and the leading one is always retired; the 16-bit
      temporary never exceeds 14847. */
  method DivideBy256(tmp: array<byte>, from: nat, to: nat) returns (remainder: byte)
    requires from < to <= tmp.Length && AreDigits(58, InUse(tmp, from, to))
    modifies tmp
    ensures AreDigits(58, InUse(tmp, from, to)) && tmp[from] == 0
    ensures Value(58, InUse(tmp, from, to)) * 256 + remainder == Value(58, old(InUse(tmp, from, to)))
    ensures forall k :: 0 <= k < tmp.Length && !(from <= k < to) ==> tmp[k] == old(tmp[k])
  {
    hide Value;
    ghost var o := InUse(tmp, from, to);
    EmptyPrefix(o);
    remainder := 0;
    var i := from;
    while i < to
      invariant from <= i <= to
      invariant AreDigits(58, InUse(tmp, from, to))
      invariant i > from ==> tmp[from] == 0
      invariant Value(58, InUse(tmp, from, to)[..i - from]) * 256 + remainder == Value(58, o[..i - from])
      invariant forall k :: i <= k < to ==> tmp[k] == o[k - from]
      invariant forall k :: 0 <= k < tmp.Length && !(from <= k < to) ==> tmp[k] == old(tmp[k])
    {
      ghost var x, rem := InUse(tmp, from, to), remainder;
      var digit256 := tmp[i];
      var tmpDiv: int := remainder as int * 58 + digit256;
      tmp[i] := tmpDiv / 256;
      remainder := tmpDiv % 256;
      ghost var x' := InUse(tmp, from, to);
      QuotientStored(o, x, x', i - from, rem);
      i := i + 1;
    }
    assert o[..to - from] == o && InUse(tmp, from, to)[..to - from] == InUse(tmp, from, to);
  }

  lemma EmptyPrefix(o: seq<nat>)
    ensures Value(58, o[..0]) == 0
  {
  }

  lemma QuotientStored(o: seq<nat>, x: seq<nat>, x': seq<nat>, i: nat, rem: nat)
    requires i < |o| == |x| == |x'| && x' == x[i := (rem * 58 + o[i]) / 256]
    requires Value(58, x[..i]) * 256 + rem == Value(58, o[..i])
    ensures Value(58, x'[..i + 1]) * 256 + (rem * 58 + o[i]) % 256 == Value(58, o[..i + 1])
  {
    hide Value;
    assert x'[..i] == x[..i];
    DigitAppended(x', i);
    DigitAppended(o, i);
    DivisionStep(Value(58, x[..i]), rem, Value(58, o[..i]), o[i]);
  }

  lemma ByteEmitted(q: nat, q': nat, r: nat, e: nat, p: nat, v: nat)
    requires q == q' * 256 + r && q * p + e == v
    ensures q' * (256 * p) + (r * p + e) == v
  {
    assert q * p == (q' * 256) * p + r * p;
    assert (q' * 256) * p == q' * (256 * p);
  }

  lemma BytePrepended(r: nat, e: seq<nat>)
    ensures Value(256, [r] + e) == r * Pow(256, |e|) + Value(256, e)
  {
    ValueSplit(256, [r], e);
    SingleDigit(256, r);
  }

  /** The outer loop of `base58_decode`: one byte per pass, one digit retired per pass, so the
      bytes end up in `buffer[zeroCount..inLen]`. */
  method DecodeDigits(tmp: array<byte>, zeroCount: nat, inLen: nat, buffer: array<byte>)
    requires zeroCount <= inLen <= tmp.Length && inLen <= buffer.Length && tmp != buffer
    requires AreDigits(58, InUse(tmp, zeroCount, inLen))
    requires forall k :: 0 <= k < inLen ==> buffer[k] == 0
    modifies tmp, buffer
    ensures Value(256, InUse(buffer, zeroCount, inLen)) == Value(58, old(InUse(tmp, zeroCount, inLen)))
    ensures forall k :: 0 <= k < zeroCount ==> buffer[k] == 0
  {
    hide Value, Pow;
    ghost var v := Value(58, InUse(tmp, zeroCount, inLen));
    NothingEmitted(InUse(buffer, inLen, inLen), v);
    var j := inLen;
    var startAt := zeroCount;
    while startAt < inLen
      invariant zeroCount <= startAt <= inLen && inLen - j == startAt - zeroCount
      invariant AreDigits(58, InUse(tmp, startAt, inLen))
      invariant forall k :: 0 <= k < j ==> buffer[k] == 0
      invariant Value(58, InUse(tmp, startAt, inLen)) * Pow(256, inLen - j) + Value(256, InUse(buffer, j, inLen)) == v
    {
      ghost var q, e := Value(58, InUse(tmp, startAt, inLen)), InUse(buffer, j, inLen);
      var remainder := DivideBy256(tmp, startAt, inLen);
      ghost var x := InUse(tmp, startAt, inLen);
      LeadingRetired(x);
      if tmp[startAt] == 0 {
        startAt := startAt + 1;
      }
      assert InUse(tmp, startAt, inLen) == x[1..];
      j := j - 1;
      buffer[j] := remainder;
      assert InUse(buffer, j, inLen) == [remainder] + e;
      BytePrepended(remainder, e);
      ByteEmitted(q, Value(58, x[1..]), remainder, Value(256, e), Pow(256, |e|), v);
      PowNext(|e|);
    }
    NoQuotient(InUse(tmp, inLen, inLen), Pow(256, inLen - j));
  }

  lemma PowNext(k: nat)
    ensures Pow(256, k + 1) == 256 * Pow(256, k)
  {
  }

  lemma NothingEmitted(e: seq<nat>, v: nat)
    requires e == []
    ensures v * Pow(256, 0) + Value(256, e) == v
  {
  }

  lemma NoQuotient(x: seq<nat>, p: nat)
    requires x == []
    ensures Value(58, x) * p == 0
  {
  }

  lemma LeadingRetired(x: seq<nat>)
    requires x != [] && x[0] == 0
    ensures Value(58, x) == Value(58, x[1..])
  {
    ZerosLeft(x, 1);
  }

  lemma ZeroWindow(all: seq<nat>, z: nat, j: nat)
    requires z <= j <= |all| && forall k :: 0 <= k < j ==> all[k] == 0
    ensures all[j - z..] == Zeros(z) + all[z..][j - z..]
  {
    assert all[j - z..] == all[j - z..j] + all[j..];
    assert all[j - z..j] == Zeros(z);
  }

  /** The middle of `base58_decode`: where in `buffer` the result ends up. The window before the
      first non-zero byte holds exactly as many zeros as the text had leading ones. */
  method DecodeWindow(tmp: array<byte>, inLen: nat, buffer: array<byte>) returns (from: nat, length: nat)
    requires inLen <= tmp.Length && inLen <= buffer.Length && tmp != buffer
    requires AreDigits(58, InUse(tmp, 0, inLen))
    requires forall k :: 0 <= k < inLen ==> buffer[k] == 0
    modifies tmp, buffer
    ensures from + length <= buffer.Length
    ensures InUse(buffer, from, from + length) == Rebase(58, 256, old(InUse(tmp, 0, inLen)))
  {
    hide Value, Numeral, ZeroCount, Rebase, Zeros;
    ghost var digits := InUse(tmp, 0, inLen);
    var zeroCount := 0;
    while zeroCount < inLen && tmp[zeroCount] == 0
      invariant 0 <= zeroCount <= inLen
      invariant forall k :: 0 <= k < zeroCount ==> digits[k] == 0
    {
      zeroCount := zeroCount + 1;
    }
    ZeroCountIs(digits, zeroCount);
    assert InUse(tmp, zeroCount, inLen) == digits[zeroCount..];
    DecodeDigits(tmp, zeroCount, inLen, buffer);
    ghost var bytes := InUse(buffer, zeroCount, inLen);
    var j := zeroCount;
    while j < inLen && buffer[j] == 0
      invariant zeroCount <= j <= inLen
      invariant forall k :: 0 <= k < j ==> buffer[k] == 0
    {
      j := j + 1;
    }
    Stripped(256, bytes, j - zeroCount);
    DecodedIs(digits, zeroCount, bytes, j - zeroCount);
    from, length := j - zeroCount, inLen - (j - zeroCount);
    ghost var all := InUse(buffer, 0, inLen);
    assert bytes == all[zeroCount..] && InUse(buffer, from, from + length) == all[from..];
    ZeroWindow(all, zeroCount, j);
  }

  /** `base58_decode` of the first `inLen` characters of `input` into `out`; -1 is refusal. */
  method Base58Decode(input: array<char>, inLen: nat, out: array<byte>, outLen: nat) returns (r: int)
    requires inLen <= input.Length && outLen <= out.Length
    modifies out
    ensures var d := Decode(input[..inLen]);
            if d.None? || outLen < |d.value| then r == -1 && out[..] == old(out[..])
            else r == |d.value| && out[..r] == d.value && out[r..] == old(out[r..])
  {
    hide Rebase, Table;
    if inLen > MAX_DEC_INPUT_SIZE || inLen < 2 {
      return -1;
    }
    ghost var text := input[..inLen];
    var tmp := new byte[MAX_DEC_INPUT_SIZE](_ => 0);
    var ok := LookUp(input, inLen, tmp);
    if !ok {
      return -1;
    }
    ghost var digits := InUse(tmp, 0, inLen);
    assert digits == Digits(text);
    var buffer := new byte[MAX_DEC_INPUT_SIZE](_ => 0);
    assert digits == InUse(tmp, 0, inLen);
    var from, length := DecodeWindow(tmp, inLen, buffer);
    ghost var result := Rebase(58, 256, digits);
    assert buffer[from..from + length] == AsBytes(result);
    hide Decode;
    if outLen < length {
      return -1;
    }
    MoveOut(buffer, from, length, out);
    return length;
  }

  /** The final `memmove`. */
  method MoveOut(buffer: array<byte>, from: nat, length: nat, out: array<byte>)
    requires from + length <= buffer.Length && length <= out.Length && buffer != out
    modifies out
    ensures out[..length] == old(buffer[from..from + length]) && out[length..] == old(out[length..])
  {
    forall k | 0 <= k < length {
      out[k] := buffer[from + k];
    }
  }

  /** The table loop: digits of the characters, or refusal at the first that has none. */
  method LookUp(input: array<char>, inLen: nat, tmp: array<byte>) returns (ok: bool)
    requires inLen <= input.Length && inLen <= tmp.Length
    modifies tmp
    ensures ok <==> IsBase58(input[..inLen])
    ensures ok ==> forall k :: 0 <= k < inLen ==> tmp[k] == Table(input[k])
  {
    var i := 0;
    while i < inLen
      modifies tmp
      invariant 0 <= i <= inLen
      invariant forall k :: 0 <= k < i ==> tmp[k] == Table(input[k]) != 0xFF
    {
      if input[i] as int >= 132 {
        assert Table(input[..inLen][i]) == 0xFF;
        return false;
      }
      tmp[i] := Table(input[i]);
      if tmp[i] == 0xFF {
        assert Table(input[..inLen][i]) == 0xFF;
        return false;
      }
      i := i + 1;
    }
    return true;
  }

  lemma DecodedIs(digits: seq<nat>, z: nat, bytes: seq<nat>, k: nat)
    requires z == ZeroCount(digits) && k <= |bytes|
    requires bytes[k..] == Numeral(256, Value(256, bytes)) && Value(256, bytes) == Value(58, digits[z..])
    ensures Rebase(58, 256, digits) == Zeros(z) + bytes[k..]
  {
    hide Value, Numeral, ZeroCount;
  }
}
