/** The texts src/common/format.c prints, and what a reader can recover from them. */
module NumberText {
  import opened Bytes
  import opened Numerals

  function DigitChar(d: nat): (c: char)
    requires d < 36
    ensures c != ',' && c != '.' && c != '-' && c != ' ' && c != 0 as char
  {
    if d < 10 then '0' + d as char else 'a' + (d - 10) as char
  }

  function CharDigit(c: char): nat {
    if '0' <= c <= '9' then c as int - '0' as int
    else if 'a' <= c <= 'z' then c as int - 'a' as int + 10
    else 36
  }

  /** The digits of `n`, at least one. */
  function DigitsOf(b: nat, n: nat): (s: seq<nat>)
    requires b >= 2
    ensures s != [] && AreDigits(b, s)
  {
    if n == 0 then [0] else Numeral(b, n)
  }

  function Chars(s: seq<nat>): (t: string)
    requires AreDigits(36, s)
    ensures |t| == |s| && forall i :: 0 <= i < |s| ==> t[i] == DigitChar(s[i])
  {
    seq(|s|, i requires 0 <= i < |s| => DigitChar(s[i]))
  }

  /** `n` in base `b`, without superfluous zeros. */
  function NatText(b: nat, n: nat): (t: string)
    requires 2 <= b <= 36
    ensures t != []
  {
    assert AreDigits(36, DigitsOf(b, n));
    Chars(DigitsOf(b, n))
  }

  function IntText(b: nat, v: int): (t: string)
    requires 2 <= b <= 36
    ensures t != []
  {
    if v < 0 then "-" + NatText(b, -v) else NatText(b, v)
  }

  // ---- reading back ----

  function ReadDigits(t: string): (s: seq<nat>)
    ensures |s| == |t| && forall i :: 0 <= i < |t| ==> s[i] == CharDigit(t[i])
  {
    seq(|t|, i requires 0 <= i < |t| => CharDigit(t[i]))
  }

  function ReadNat(b: nat, t: string): nat {
    Value(b, ReadDigits(t))
  }

  function ReadInt(b: nat, t: string): int {
    if t != [] && t[0] == '-' then -(ReadNat(b, t[1..]) as int) else ReadNat(b, t)
  }

  lemma CharDigitOfDigitChar(d: nat)
    requires d < 36
    ensures CharDigit(DigitChar(d)) == d
  {
  }

  lemma ReadChars(s: seq<nat>)
    requires AreDigits(36, s)
    ensures ReadDigits(Chars(s)) == s
  {
    forall i | 0 <= i < |s| ensures ReadDigits(Chars(s))[i] == s[i] {
      CharDigitOfDigitChar(s[i]);
    }
  }

  lemma DigitsOfValue(b: nat, n: nat)
    requires b >= 2
    ensures Value(b, DigitsOf(b, n)) == n
  {
    if n == 0 {
      assert [0][..0] == [];
      assert Value(b, [0]) == 0;
    } else {
      ValueNumeral(b, n);
    }
  }

  lemma ReadNatText(b: nat, n: nat)
    requires 2 <= b <= 36
    ensures ReadNat(b, NatText(b, n)) == n
  {
    DigitsOfValue(b, n);
    ReadChars(DigitsOf(b, n));
    hide Value, DigitsOf;
  }

  /** Every integer is read back from its text, in every base from 2 to 36. */
  lemma ReadIntText(b: nat, v: int, text: string)
    requires 2 <= b <= 36 && text == IntText(b, v)
    ensures ReadInt(b, text) == v
  {
    hide DigitsOf, Value;
    if v < 0 {
      ReadNatText(b, -v);
      assert IntText(b, v)[1..] == NatText(b, -v);
    } else {
      ReadNatText(b, v);
    }
  }

  // ---- amounts ----

  /** Commas between groups of three digits, counted from the right. */
  function Grouped(s: string): (t: string)
    ensures |s| <= |t|
  {
    if |s| <= 3 then s else Grouped(s[..|s| - 3]) + "," + s[|s| - 3..]
  }

  function TwoDigits(n: nat): (t: string)
    requires n < 100
    ensures |t| == 2
  {
    [DigitChar(n / 10), DigitChar(n % 10)]
  }

  /** `format_value`: hundredths, with grouped units and two decimals. */
  function AmountText(value: nat): string {
    Grouped(NatText(10, value / 100)) + "." + TwoDigits(value % 100)
  }

  /** A text without its separators. */
  function Plain(t: string): string {
    if t == [] then [] else
    Plain(t[..|t| - 1]) + if t[|t| - 1] == ',' || t[|t| - 1] == '.' then [] else [t[|t| - 1]]
  }

  lemma {:induction false} PlainConcat(s: string, t: string)
    ensures Plain(s + t) == Plain(s) + Plain(t)
    decreases |t|
  {
    if t == [] {
      assert s + t == s;
    } else {
      assert (s + t)[..|s + t| - 1] == s + t[..|t| - 1];
      PlainConcat(s, t[..|t| - 1]);
    }
  }

  predicate NoSeparators(s: string) {
    forall i :: 0 <= i < |s| ==> s[i] != ',' && s[i] != '.'
  }

  lemma {:induction false} PlainIsPlain(s: string)
    requires NoSeparators(s)
    ensures Plain(s) == s
    decreases |s|
  {
    if s == [] {
    } else {
      PlainIsPlain(s[..|s| - 1]);
      assert s == s[..|s| - 1] + [s[|s| - 1]];
    }
  }

  lemma GroupedShort(s: string)
    requires |s| <= 3
    ensures Grouped(s) == s
  {
  }

  lemma GroupedNext(s: string)
    requires |s| > 3
    ensures Grouped(s) == Grouped(s[..|s| - 3]) + "," + s[|s| - 3..]
  {
  }

  lemma {:induction false} PlainGrouped(s: string)
    requires NoSeparators(s)
    ensures Plain(Grouped(s)) == s
    decreases |s|
  {
    hide *;
    if |s| <= 3 {
      GroupedShort(s);
      PlainIsPlain(s);
    } else {
      var a, b := s[..|s| - 3], s[|s| - 3..];
      NoSeparatorsIn(s, |s| - 3);
      GroupedNext(s);
      PlainGrouped(a);
      PlainIsPlain(b);
      SeparatorsVanish();
      PlainConcat(Grouped(a), ",");
      PlainConcat(Grouped(a) + ",", b);
      assert a + [] + b == s;
    }
  }

  lemma NoSeparatorsIn(s: string, i: nat)
    requires NoSeparators(s) && i <= |s|
    ensures NoSeparators(s[..i]) && NoSeparators(s[i..])
  {
  }

  lemma SeparatorsVanish()
    ensures Plain(",") == [] && Plain(".") == []
  {
    assert ","[..0] == [];
    assert "."[..0] == [];
  }

  predicate IsDecimal(s: string) {
    s != [] && forall i :: 0 <= i < |s| ==> '0' <= s[i] <= '9'
  }

  lemma NatTextIsDecimal(n: nat)
    ensures IsDecimal(NatText(10, n))
  {
    var s := DigitsOf(10, n);
    forall i | 0 <= i < |s| ensures '0' <= Chars(s)[i] <= '9' {
      assert Chars(s)[i] == DigitChar(s[i]);
    }
  }

  /** Deleting the commas and the dot and reading in decimal gives the amount back. */
  lemma AmountReadsBack(value: nat)
    ensures ReadNat(10, Plain(AmountText(value))) == value
  {
    hide Value, Grouped, NatText, TwoDigits, Plain;
    var q, r := value / 100, value % 100;
    var a, b := NatText(10, q), TwoDigits(r);
    AmountPlain(q, r);
    assert ReadDigits(a + b) == ReadDigits(a) + ReadDigits(b);
    ReadNatText(10, q);
    ValueSplit(10, ReadDigits(a), ReadDigits(b));
    ReadTwoDigits(r);
  }

  lemma AmountPlain(q: nat, r: nat)
    requires r < 100
    ensures Plain(Grouped(NatText(10, q)) + "." + TwoDigits(r)) == NatText(10, q) + TwoDigits(r)
  {
    hide Grouped, Plain, NatText;
    var a, b := NatText(10, q), TwoDigits(r);
    NatTextIsDecimal(q);
    PlainGrouped(a);
    PlainIsPlain(b);
    SeparatorsVanish();
    PlainConcat(Grouped(a), ".");
    PlainConcat(Grouped(a) + ".", b);
    assert a + [] + b == a + b;
  }

  lemma ReadTwoDigits(n: nat)
    requires n < 100
    ensures Value(10, ReadDigits(TwoDigits(n))) == n && Pow(10, 2) == 100
  {
    var s := ReadDigits(TwoDigits(n));
    CharDigitOfDigitChar(n / 10);
    CharDigitOfDigitChar(n % 10);
    assert s[..1][..0] == [];
    assert Value(10, s[..1]) == s[0];
    assert Pow(10, 2) == 10 * 10 * Pow(10, 0);
  }

  /** No two amounts print alike. */
  lemma AmountInjective(v: nat, w: nat)
    requires AmountText(v) == AmountText(w)
    ensures v == w
  {
    hide AmountText;
    AmountReadsBack(v);
    AmountReadsBack(w);
  }

  // ---- a reader of amounts ----

  /** The digits of a grouped text: one to three, then groups of a comma and three digits. */
  function Ungroup(t: string): Option<string> {
    if |t| <= 3 then (if IsDecimal(t) then Some(t) else None)
    else if t[|t| - 4] != ',' || !IsDecimal(t[|t| - 3..]) then None
    else
      match Ungroup(t[..|t| - 4])
      case None => None
      case Some(front) => Some(front + t[|t| - 3..])
  }

  /** Reads grouped units, a dot and two digits of cents. */
  function ReadAmount(t: string): Option<nat> {
    if |t| < 4 || t[|t| - 3] != '.' || !IsDecimal(t[|t| - 2..]) then None
    else
      match Ungroup(t[..|t| - 3])
      case None => None
      case Some(units) => Some(100 * ReadNat(10, units) + ReadNat(10, t[|t| - 2..]))
  }

  lemma UngroupNext(a: string, b: string)
    requires IsDecimal(b) && |b| == 3
    ensures Ungroup(a + "," + b) == match Ungroup(a) case None => None case Some(front) => Some(front + b)
  {
    hide IsDecimal;
    var t := a + "," + b;
    assert t[..|t| - 4] == a && t[|t| - 3..] == b && t[|t| - 4] == ',';
  }

  lemma {:induction false} UngroupGrouped(s: string)
    requires IsDecimal(s)
    ensures Ungroup(Grouped(s)) == Some(s)
    decreases |s|
  {
    if |s| <= 3 {
    } else {
      var a, b := s[..|s| - 3], s[|s| - 3..];
      hide Ungroup, Grouped;
      GroupedNext(s);
      UngroupGrouped(a);
      UngroupNext(Grouped(a), b);
      assert a + b == s;
    }
  }

  /** The printed amount has its dot before the last two characters; what stands before it are the
      units, grouped, and what stands behind it the hundredths. */
  lemma AmountParts(value: nat, t: string)
    requires t == AmountText(value)
    ensures |t| >= 4 && t[|t| - 3] == '.'
    ensures Ungroup(t[..|t| - 3]).Some? && ReadNat(10, Ungroup(t[..|t| - 3]).value) == value / 100
    ensures ReadNat(10, Plain(t[..|t| - 3])) == value / 100
    ensures IsDecimal(t[|t| - 2..]) && ReadNat(10, t[|t| - 2..]) == value % 100
    ensures ReadAmount(t) == Some(value)
  {
    hide Value, Grouped, NatText, Plain, Ungroup, ReadDigits;
    var units, cents := NatText(10, value / 100), TwoDigits(value % 100);
    NatTextIsDecimal(value / 100);
    UngroupGrouped(units);
    PlainGrouped(units);
    ReadNatText(10, value / 100);
    ReadTwoDigits(value % 100);
    assert t[..|t| - 3] == Grouped(units) && t[|t| - 2..] == cents;
  }

  // ---- digits as printed ----

  /** The digits are those of the table of `itoa`. */
  lemma DigitTable(d: nat)
    requires d < 36
    ensures DigitChar(d) == "0123456789abcdefghijklmnopqrstuvwxyz"[d]
  {
  }

  /** No number but zero begins with a zero. */
  lemma NoLeadingZero(b: nat, n: nat)
    requires 2 <= b <= 36
    ensures NatText(b, n)[0] == '0' <==> n == 0
    ensures NatText(b, 0) == "0"
  {
    CharDigitOfDigitChar(DigitsOf(b, n)[0]);
  }

  // ---- how long amounts get ----

  lemma {:induction false} GroupedLength(s: string)
    requires s != []
    ensures |Grouped(s)| == |s| + (|s| - 1) / 3
    decreases |s|
  {
    if |s| <= 3 {
    } else {
      GroupedLength(s[..|s| - 3]);
    }
  }

  lemma AmountLength(value: nat)
    ensures var d := |NatText(10, value / 100)|;
            |AmountText(value)| == d + (d - 1) / 3 + 3
  {
    GroupedLength(NatText(10, value / 100));
  }

  /** A positive number has at most k digits exactly if it is below 10^k. */
  lemma DigitCount(n: nat, k: nat)
    requires k > 0
    ensures |NatText(10, n)| <= k <==> n < Pow(10, k)
  {
    hide Value, Numeral, Pow;
    if n == 0 {
      PowPositive(k);
    } else if n < Pow(10, k) {
      NumeralLength(10, n, k);
    } else {
      ValueNumeral(10, n);
      ValueBound(10, Numeral(10, n));
      if |Numeral(10, n)| <= k { PowMonotone(10, |Numeral(10, n)|, k); }
    }
  }

  lemma PowPositive(k: nat)
    ensures Pow(10, k) > 0
  {
  }

  /** The largest amount an output can carry. */
  const MAX_VALUE := 0x8000_0000_0000_0000

  /** The display buffer `g_amount`. */
  const AMOUNT_BUFFER := 30

  lemma TenPowers()
    ensures Pow(10, 15) == 1_000_000_000_000_000
    ensures Pow(10, 16) == 10_000_000_000_000_000
    ensures Pow(10, 17) == 100_000_000_000_000_000
  {
    assert Pow(10, 5) == 100_000;
    PowAdd(10, 5, 5);
    PowAdd(10, 10, 5);
    PowAdd(10, 1, 15);
    PowAdd(10, 1, 16);
  }

  /** Every amount an output can carry takes at most 25 characters, so that with "HTR " and the
      terminator it fits the 30-byte display buffer; the largest one fills it. */
  lemma AmountFits(value: nat)
    requires value <= MAX_VALUE
    ensures |AmountText(value)| <= 25
    ensures |AmountText(MAX_VALUE)| == 25
    ensures 4 + |AmountText(value)| + 1 <= AMOUNT_BUFFER
  {
    hide AmountText, NatText, Pow;
    TenPowers();
    AmountLength(value);
    DigitCount(value / 100, 17);
    AmountLength(MAX_VALUE);
    DigitCount(MAX_VALUE / 100, 17);
    DigitCount(MAX_VALUE / 100, 16);
  }

  /** The amounts whose line has room: all of them behind a symbol of up to three characters. */
  predicate LineHasRoom(symbolLength: nat, value: nat) {
    || symbolLength <= 3
    || (symbolLength == 4 && value < 1_000_000_000_000_000_000)
    || (symbolLength == 5 && value < 100_000_000_000_000_000)
  }

  /** With a token symbol of up to five characters, the amount line fits the buffer exactly for
      the amounts below these bounds. */
  lemma AmountLineFits(symbolLength: nat, value: nat)
    requires symbolLength <= 5 && value <= MAX_VALUE
    ensures symbolLength + 1 + |AmountText(value)| + 1 <= AMOUNT_BUFFER <==> LineHasRoom(symbolLength, value)
  {
    hide AmountText, NatText, Pow;
    TenPowers();
    AmountLength(value);
    DigitCount(value / 100, 15);
    DigitCount(value / 100, 16);
    DigitCount(value / 100, 17);
  }
}
