/** The printers of src/common/format.c, writing their output in place, proved to print the
    texts of `NumberText`. */
module Format {
  import opened Numerals
  import opened NumberText

  const NUL: char := 0 as char

  function Abs(v: int): nat {
    if v < 0 then -v else v
  }

  /** C's division and remainder, which truncate toward zero. */
  function TruncDiv(a: int, b: nat): (q: int)
    requires b > 0
  {
    if a < 0 then -(Abs(a) / b) else Abs(a) / b
  }

  function TruncMod(a: int, b: nat): (r: int)
    requires b > 0
  {
    if a < 0 then -(Abs(a) % b) else Abs(a) % b
  }

  lemma NatDivision(n: nat, b: nat)
    requires b > 0
    ensures n == (n / b) * b + n % b && n / b >= 0 && 0 <= n % b < b
    ensures n < b ==> n / b == 0 && n % b == n
    ensures n >= b ==> n / b > 0
    ensures b >= 2 && n > 0 ==> n / b < n
  {
    var q, r := n / b, n % b;
    assert n == q * b + r;
    if b >= 2 { MulMonotone(q, q, 2, b); }
  }

  /** What C guarantees of its two operators. */
  lemma Truncates(a: int, b: nat)
    requires b > 0
    ensures a == TruncDiv(a, b) * b + TruncMod(a, b)
    ensures Abs(TruncDiv(a, b)) == Abs(a) / b && Abs(TruncMod(a, b)) == Abs(a) % b
    ensures TruncDiv(a, b) != 0 ==> (TruncDiv(a, b) < 0 <==> a < 0)
  {
    NatDivision(Abs(a), b);
    var q := Abs(a) / b;
    assert -q * b == -(q * b);
  }

  /** The swapping loop the printers end with: reverses `out[lo..hi]`. */
  method ReverseInPlace(out: array<char>, lo: nat, hi: nat)
    requires lo <= hi <= out.Length
    modifies out
    ensures forall k :: lo <= k < hi ==> out[k] == old(out[lo + hi - 1 - k])
    ensures forall k :: 0 <= k < out.Length && !(lo <= k < hi) ==> out[k] == old(out[k])
  {
    var i, j := lo, hi;
    while i + 1 < j
      invariant lo <= i <= j <= hi && i + j == lo + hi
      invariant forall k :: lo <= k < i ==> out[k] == old(out[lo + hi - 1 - k]) && out[lo + hi - 1 - k] == old(out[k])
      invariant forall k :: i <= k < j ==> out[k] == old(out[k])
      invariant forall k :: 0 <= k < out.Length && !(lo <= k < hi) ==> out[k] == old(out[k])
    {
      j := j - 1;
      var tmp := out[j];
      out[j] := out[i];
      out[i] := tmp;
      i := i + 1;
    }
  }

  lemma NextDigits(b: nat, n: nat)
    requires 2 <= b <= 36
    ensures NatText(b, n) == (if n < b then [] else NatText(b, n / b)) + [DigitChar(n % b)]
  {
    hide DigitChar;
    LastDigit(b, n);
    hide DigitsOf;
  }

  lemma LastDigit(b: nat, n: nat)
    requires b >= 2
    ensures DigitsOf(b, n) == (if n < b then [] else DigitsOf(b, n / b)) + [n % b]
  {
    NatDivision(n, b);
    if 0 < n < b {
      assert Numeral(b, n / b) == [];
    }
  }

  /** `format_u64`. In a buffer of one byte it prints a single digit all the same, and its
      terminator behind the buffer; in every other it keeps to the buffer. */
  method FormatU64(out: array<char>, outLen: nat, value: nat) returns (ok: bool)
    requires outLen <= out.Length && value < 0x1_0000_0000_0000_0000
    requires outLen == 1 && value <= 9 ==> out.Length >= 2
    modifies out
    ensures ok <==> |NatText(10, value)| + 1 <= outLen || (outLen == 1 && value <= 9)
    ensures ok ==> out[..|NatText(10, value)|] == NatText(10, value) && out[|NatText(10, value)|] == NUL
    ensures forall k :: (if outLen == 1 && value <= 9 then 2 else outLen) <= k < out.Length ==> out[k] == old(out[k])
  {
    hide NatText, DigitChar;
    if outLen == 0 {
      return false;
    }
    var last := outLen - 1;
    var n := value;
    var i := 0;
    ghost var text := NatText(10, value);
    while n > 9
      invariant 0 <= i < |text| && (i == 0 || i < last) && (i == 0 ==> n == value)
      invariant |NatText(10, n)| == |text| - i && NatText(10, n) == text[..|text| - i]
      invariant forall k :: 0 <= k < i ==> out[k] == text[|text| - 1 - k]
      invariant forall k :: outLen <= k < out.Length ==> out[k] == old(out[k])
      decreases n
    {
      NextDigits(10, n);
      out[i] := DigitChar(n % 10);
      n := n / 10;
      i := i + 1;
      if i + 1 > last {
        return false;
      }
    }
    NextDigits(10, n);
    out[i] := DigitChar(n);
    out[i + 1] := NUL;
    ReverseInPlace(out, 0, i + 1);
    assert out[..i + 1] == text;
    return true;
  }

  /** The 71-character table of `itoa`, digits mirrored around zero. */
  function MirroredDigit(at: nat): char
    requires at < 71
  {
    if at < 35 then DigitChar(35 - at) else DigitChar(at - 35)
  }

  /** How far `itoa` has come: the digits written are the text's from its end, the quotient
      holds the rest. */
  ghost predicate Unwritten(base: nat, text: string, v: int, i: nat)
    requires 2 <= base <= 36
  {
    i <= |text| && NatText(base, Abs(v)) == text[..|text| - i]
  }

  lemma OneDigitLess(base: nat, text: string, v: int, i: nat)
    requires 2 <= base <= 36 && Unwritten(base, text, v, i)
    ensures i < |text| && text[|text| - 1 - i] == DigitChar(Abs(TruncMod(v, base)))
    ensures var q := TruncDiv(v, base);
            if q == 0 then i + 1 == |text| else Unwritten(base, text, q, i + 1)
    ensures Abs(TruncDiv(v, base)) < Abs(v) || v == 0
  {
    hide NatText, DigitChar, TruncDiv, TruncMod;
    Truncates(v, base);
    NatDivision(Abs(v), base);
    NextDigits(base, Abs(v));
  }

  /** The digit loop of `itoa`: the digits of `value`, last one first. */
  method ItoaDigits(value: int, out: array<char>, result: nat, base: nat) returns (i: nat, tmpValue: int)
    requires 2 <= base <= 36 && -0x8000_0000 <= value < 0x8000_0000
    requires result + |NatText(base, Abs(value))| < out.Length
    modifies out
    ensures var text := NatText(base, Abs(value));
            && i == |text| && (tmpValue < 0 <==> value < 0)
            && forall k :: result <= k < result + i ==> out[k] == text[i - 1 - (k - result)]
    ensures forall k :: 0 <= k < out.Length && !(result <= k < result + i) ==> out[k] == old(out[k])
  {
    hide NatText, DigitChar, TruncDiv, TruncMod, Unwritten;
    ghost var text := NatText(base, Abs(value));
    NothingWritten(base, value);
    var v := value;
    tmpValue := value;
    i := 0;
    var done := false;
    while !done
      modifies out
      invariant if done then i == |text| && (tmpValue < 0 <==> value < 0)
                else Unwritten(base, text, v, i) && i < |text| && (v < 0 <==> value < 0)
      invariant forall m :: result <= m < result + i ==> out[m] == text[|text| - 1 - (m - result)]
      invariant forall k :: 0 <= k < out.Length && !(result <= k < result + i) ==> out[k] == old(out[k])
      decreases Abs(v), if done then 0 else 1
    {
      OneDigitLess(base, text, v, i);
      Truncates(v, base);
      tmpValue := v;
      v := TruncDiv(v, base);
      Mirrored(TruncMod(tmpValue, base), base);
      out[result + i] := MirroredDigit(35 + (tmpValue - v * base));
      i := i + 1;
      done := v == 0;
      if !done { OneDigitLess(base, text, v, i); }
    }
  }

  /** The text of `itoa` before its reversal: digits, sign and terminator. */
  method ItoaBackwards(value: int, out: array<char>, result: nat, base: nat) returns (i: nat)
    requires 2 <= base <= 36 && -0x8000_0000 <= value < 0x8000_0000
    requires result + |IntText(base, value)| < out.Length
    modifies out
    ensures var text := IntText(base, value);
            i == |text| && forall k :: result <= k < result + i ==> out[k] == text[i - 1 - (k - result)]
    ensures out[result + i] == NUL
    ensures forall k :: 0 <= k < out.Length && !(result <= k <= result + i) ==> out[k] == old(out[k])
  {
    hide NatText;
    var tmpValue;
    i, tmpValue := ItoaDigits(value, out, result, base);
    if tmpValue < 0 {
      out[result + i] := '-';
      i := i + 1;
    }
    out[result + i] := NUL;
  }

  /** `itoa` for a valid base, printing at `result`, an offset into `out`. */
  method Itoa(value: int, out: array<char>, result: nat, base: nat)
    requires 2 <= base <= 36 && -0x8000_0000 <= value < 0x8000_0000
    requires result + |IntText(base, value)| < out.Length
    modifies out
    ensures out[result..result + |IntText(base, value)|] == IntText(base, value)
    ensures out[result + |IntText(base, value)|] == NUL
    ensures forall k :: 0 <= k < result || result + |IntText(base, value)| < k < out.Length ==> out[k] == old(out[k])
  {
    hide *;
    var i := ItoaBackwards(value, out, result, base);
    ReverseInPlace(out, result, result + i);
  }

  lemma NothingWritten(base: nat, value: int)
    requires 2 <= base <= 36
    ensures Unwritten(base, NatText(base, Abs(value)), value, 0)
  {
    hide NatText;
    var text := NatText(base, Abs(value));
    assert text[..|text|] == text;
  }

  lemma Mirrored(mod: int, base: nat)
    requires 0 < base <= 36 && Abs(mod) < base
    ensures 0 <= 35 + mod < 71 && MirroredDigit(35 + mod) == DigitChar(Abs(mod))
  {
  }

  lemma Int64Digits(value: int)
    requires -0x8000_0000_0000_0000 <= value < 0x8000_0000_0000_0000
    ensures |NatText(10, Abs(value))| <= 19
  {
    hide NatText, Pow;
    TenPowers();
    PowAdd(10, 2, 17);
    TwoTens();
    DigitCount(Abs(value), 19);
  }

  lemma TwoTens()
    ensures Pow(10, 2) == 100
  {
  }

  /** The digit loop of `format_i64`, into its scratch buffer; none for zero. */
  method WriteDigits(temp: array<char>, value: int) returns (i: nat)
    requires temp.Length == 21 && -0x8000_0000_0000_0000 <= value < 0x8000_0000_0000_0000
    modifies temp
    ensures value == 0 ==> i == 0
    ensures value != 0 ==> i == |NatText(10, Abs(value))| <= 19
    ensures forall k :: 0 <= k < i ==> temp[k] == NatText(10, Abs(value))[i - 1 - k]
  {
    hide NatText, DigitChar, TruncDiv, TruncMod, Unwritten;
    ghost var text := NatText(10, Abs(value));
    Int64Digits(value);
    NothingWritten(10, value);
    var sign := if value < 0 then -1 else 1;
    var num := value;
    i := 0;
    while num != 0
      invariant num != 0 ==> Unwritten(10, text, num, i) && (num < 0 <==> value < 0)
      invariant num == 0 ==> i == if value == 0 then 0 else |text|
      invariant i <= |text| && forall k :: 0 <= k < i ==> temp[k] == text[|text| - 1 - k]
      decreases Abs(num)
    {
      OneDigitLess(10, text, num, i);
      Truncates(num, 10);
      DecimalChar(TruncMod(num, 10), sign);
      temp[i] := '0' + (TruncMod(num, 10) * sign) as char;
      num := TruncDiv(num, 10);
      i := i + 1;
    }
  }

  lemma DecimalChar(mod: int, sign: int)
    requires -10 < mod < 10 && (sign == 1 || sign == -1) && mod * sign >= 0
    ensures '0' + (mod * sign) as char == DigitChar(Abs(mod))
  {
  }

  /** `format_i64`. */
  method FormatI64(dst: array<char>, dstLen: nat, value: int) returns (ok: bool)
    requires dstLen <= dst.Length && -0x8000_0000_0000_0000 <= value < 0x8000_0000_0000_0000
    modifies dst
    ensures ok <==> |IntText(10, value)| + 1 <= dstLen
    ensures ok ==> dst[..|IntText(10, value)|] == IntText(10, value) && dst[|IntText(10, value)|] == NUL
    ensures !ok ==> dst[..] == old(dst[..])
  {
    hide NatText;
    if dstLen == 0 {
      return false;
    }
    var temp := new char[21](_ => NUL);
    var n := WriteDigits(temp, value);
    if value < 0 {
      temp[n] := '-';
      n := n + 1;
    } else if value == 0 {
      temp[n] := '0';
      n := n + 1;
      ZeroText();
    }
    ghost var text := IntText(10, value);
    assert n == |text| && forall k :: 0 <= k < n ==> temp[k] == text[n - 1 - k];
    if dstLen < n + 1 {
      return false;
    }
    var index := 0;
    while index < n
      modifies dst
      invariant 0 <= index <= n
      invariant forall k :: 0 <= k < index ==> dst[k] == text[k]
    {
      dst[index] := temp[n - 1 - index];
      index := index + 1;
    }
    dst[index] := NUL;
    return true;
  }

  lemma ZeroText()
    ensures NatText(10, 0) == "0"
  {
  }

  // ---- amounts ----

  /** What `format_value` has laid out after `k` of the digits `s`: a comma follows every digit
      whose distance from the end is a multiple of three. */
  function Laid(s: string, k: nat): (t: string)
    requires k <= |s|
    ensures |t| >= k
  {
    if k == 0 then [] else Laid(s, k - 1) + Piece(s, k)
  }

  /** Digit `k - 1` and the comma that may follow it. */
  function Piece(s: string, k: nat): (t: string)
    requires 0 < k <= |s|
    ensures |t| == if (|s| - k) % 3 == 0 then 2 else 1
  {
    if (|s| - k) % 3 == 0 then [s[k - 1], ','] else [s[k - 1]]
  }

  lemma {:induction false} LaidPrefix(s: string, k: nat)
    requires |s| >= 3 && k <= |s| - 3
    ensures Laid(s, k) == Laid(s[..|s| - 3], k)
    decreases k
  {
    if k == 0 {
    } else {
      LaidPrefix(s, k - 1);
    }
  }

  /** The layout is the grouped text with one comma too many, which `*--out = 0` removes. */
  lemma {:induction false} LaidIsGrouped(s: string)
    requires s != []
    ensures Laid(s, |s|) == Grouped(s) + ","
    decreases |s|
  {
    hide *;
    var n := |s|;
    if n <= 3 {
      GroupedShort(s);
      ShortLayout(s);
    } else {
      LaidIsGrouped(s[..n - 3]);
      LaidPrefix(s, n - 3);
      GroupedNext(s);
      LastThree(s, Grouped(s[..n - 3]) + ",");
    }
  }

  lemma DigitLaid(s: string, k: nat)
    requires 0 < k <= |s| && (|s| - k) % 3 != 0
    ensures Laid(s, k) == Laid(s, k - 1) + [s[k - 1]]
  {
  }

  lemma CommaLaid(s: string, k: nat)
    requires 0 < k <= |s| && (|s| - k) % 3 == 0
    ensures Laid(s, k) == Laid(s, k - 1) + [s[k - 1], ',']
  {
  }

  lemma LastThree(s: string, front: string)
    requires |s| >= 3 && Laid(s, |s| - 3) == front
    ensures Laid(s, |s|) == (front + s[|s| - 3..]) + ","
  {
    hide *;
    var n := |s|;
    DigitLaid(s, n - 2);
    DigitLaid(s, n - 1);
    CommaLaid(s, n);
    TailOfThree(s);
    ThreeMore(front, Laid(s, n - 2), Laid(s, n - 1), Laid(s, n), s[n - 3..]);
  }

  lemma TailOfThree(s: string)
    requires |s| >= 3
    ensures s[|s| - 3..] == [s[|s| - 3], s[|s| - 2], s[|s| - 1]]
  {
  }

  lemma ThreeMore(l0: string, l1: string, l2: string, l3: string, tail: string)
    requires |tail| == 3 && l1 == l0 + [tail[0]] && l2 == l1 + [tail[1]] && l3 == l2 + [tail[2], ',']
    ensures l3 == (l0 + tail) + ","
  {
    var n := |l0|;
    assert forall i :: 0 <= i < n ==> l3[i] == l0[i];
    assert l3[n] == tail[0] && l3[n + 1] == tail[1] && l3[n + 2] == tail[2];
  }

  lemma ShortLayout(s: string)
    requires 1 <= |s| <= 3
    ensures Laid(s, |s|) == s + ","
  {
    hide *;
    LaidEmpty(s);
    if |s| == 3 {
      LastThree(s, []);
      assert [] + s[0..] == s;
    } else if |s| == 2 {
      DigitLaid(s, 1);
      CommaLaid(s, 2);
      assert ([] + [s[0]]) + [s[1], ','] == s + ",";
    } else {
      CommaLaid(s, 1);
      assert [] + [s[0], ','] == s + ",";
    }
  }

  lemma LaidNext(s: string, k: nat)
    requires 0 < k <= |s|
    ensures Laid(s, k) == Laid(s, k - 1) + Piece(s, k)
  {
  }

  lemma LaidEmpty(s: string)
    ensures Laid(s, 0) == []
  {
  }

  /** One turn of that loop: a digit and, when it is due, a comma. */
  method PutDigit(out: array<char>, at: nat, digit: char, comma: bool) returns (next: nat)
    requires at + (if comma then 1 else 0) < out.Length
    modifies out
    ensures next == at + if comma then 2 else 1
    ensures out[..next] == old(out[..at]) + if comma then [digit, ','] else [digit]
    ensures forall k :: next <= k < out.Length ==> out[k] == old(out[k])
  {
    out[at] := digit;
    next := at + 1;
    if comma {
      out[next] := ',';
      next := next + 1;
    }
  }

  /** The digit loop of `format_value`: digits and commas, the last comma overwritten by NUL. */
  method LayOut(buf: array<char>, len: nat, out: array<char>, start: nat) returns (at: nat)
    requires 0 < len < buf.Length && buf[len] == NUL && buf != out
    requires forall k :: 0 <= k < len ==> buf[k] != NUL
    requires start + |Grouped(buf[..len])| < out.Length
    modifies out
    ensures at == start + |Grouped(buf[..len])| && out[..at] == old(out[..start]) + Grouped(buf[..len])
    ensures out[at] == NUL && forall k :: at < k < out.Length ==> out[k] == old(out[k])
  {
    hide *;
    ghost var digits, front := buf[..len], out[..start];
    LaidIsGrouped(digits);
    LaidEmpty(digits);
    var c := 2 - len % 3;
    var p := 0;
    at := start;
    while buf[p] != NUL
      modifies out
      invariant 0 <= p <= len && digits == buf[..len] && buf[len] == NUL
      invariant c == (2 - len % 3 + p) % 3
      invariant at == start + |Laid(digits, p)| && |Laid(digits, p)| <= |Grouped(digits)| + 1
      invariant out[..at] == front + Laid(digits, p)
      invariant forall k :: start + |Grouped(digits)| < k < out.Length ==> out[k] == old(out[k])
      decreases len - p
    {
      LaidTurn(digits, p, c);
      ghost var laid := Laid(digits, p);
      at := PutDigit(out, at, buf[p], c == 1);
      assert out[..at] == front + (laid + if c == 1 then [digits[p], ','] else [digits[p]]);
      c := (c + 1) % 3;
      p := p + 1;
    }
    at := at - 1;
    out[at] := NUL;
  }

  /** The counter `c` of `format_value` is 1 exactly where a comma is due. */
  lemma LaidTurn(s: string, p: nat, c: nat)
    requires p < |s| && c == (2 - |s| % 3 + p) % 3
    ensures Laid(s, p + 1) == Laid(s, p) + if c == 1 then [s[p], ','] else [s[p]]
    ensures |Laid(s, p + 1)| <= |Grouped(s)| + 1
  {
    hide Laid, Grouped;
    LaidNext(s, p + 1);
    LaidShorter(s, p + 1);
    LaidIsGrouped(s);
  }

  lemma {:induction false} LaidShorter(s: string, k: nat)
    requires k <= |s|
    ensures |Laid(s, k)| <= |Laid(s, |s|)|
    decreases |s| - k
  {
    hide Laid;
    if k == |s| {
    } else {
      LaidNext(s, k + 1);
      LaidShorter(s, k + 1);
    }
  }

  /** C's `strlen(buf + offset)`. */
  method StrLen(buf: array<char>, offset: nat) returns (n: nat)
    requires exists k :: offset <= k < buf.Length && buf[k] == NUL
    ensures offset + n < buf.Length && buf[offset + n] == NUL
    ensures forall k :: offset <= k < offset + n ==> buf[k] != NUL
  {
    n := 0;
    while buf[offset + n] != NUL
      invariant offset + n < buf.Length && forall k :: offset <= k < offset + n ==> buf[k] != NUL
      decreases buf.Length - offset - n
    {
      n := n + 1;
    }
  }

  lemma AmountDigits(value: nat)
    requires value < 0x1_0000_0000_0000_0000
    ensures |NatText(10, value / 100)| <= 18
  {
    hide NatText, Pow;
    TenPowers();
    PowAdd(10, 1, 17);
    OneTen();
    DigitCount(value / 100, 18);
  }

  lemma OneTen()
    ensures Pow(10, 1) == 10
  {
  }

  lemma TwoDigitText(n: nat)
    requires n < 100
    ensures n < 10 ==> TwoDigits(n) == "0" + NatText(10, n) && |NatText(10, n)| == 1
    ensures n >= 10 ==> TwoDigits(n) == NatText(10, n)
  {
    hide NatText;
    NextDigits(10, n);
    if n >= 10 { NextDigits(10, n / 10); }
  }

  /** The right of the decimal separator, with the separator. */
  method PutCents(out: array<char>, at: nat, cents: nat)
    requires cents < 100 && at + 3 < out.Length
    modifies out
    ensures out[..at + 3] == old(out[..at]) + ("." + TwoDigits(cents)) && out[at + 3] == NUL
    ensures forall k :: at + 3 < k < out.Length ==> out[k] == old(out[k])
  {
    hide NatText, TwoDigits;
    TwoDigitText(cents);
    var c := at;
    out[c] := '.';
    c := c + 1;
    if cents < 10 {
      out[c] := '0';
      c := c + 1;
    }
    Itoa(cents, out, c, 10);
    assert out[..at] == old(out[..at]);
    assert out[at..at + 3] == "." + TwoDigits(cents);
  }

  /** `format_value` for every 64-bit amount, printing at `start`, an offset into `out`. */
  method FormatValue(value: nat, out: array<char>, start: nat)
    requires value < 0x1_0000_0000_0000_0000 && start + |AmountText(value)| < out.Length
    modifies out
    ensures out[..start + |AmountText(value)|] == old(out[..start]) + AmountText(value)
    ensures out[start + |AmountText(value)|] == NUL
    ensures forall k :: start + |AmountText(value)| < k < out.Length ==> out[k] == old(out[k])
  {
    hide NatText, Grouped, TwoDigits;
    var buf := new char[35](_ => NUL);
    ghost var units := NatText(10, value / 100);
    AmountDigits(value);
    NatTextIsDecimal(value / 100);
    var _ := FormatU64(buf, 35, value / 100);
    assert forall k :: 0 <= k < |units| ==> buf[k] == units[k];
    var len := StrLen(buf, 0);
    assert buf[..len] == units;
    ghost var g := old(out[..start]) + Grouped(units);
    var at := LayOut(buf, len, out, start);
    PutCents(out, at, value % 100);
    assert g + ("." + TwoDigits(value % 100)) == old(out[..start]) + AmountText(value);
  }
}
