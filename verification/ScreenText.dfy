/** The text of an output screen (`prepare_display_output` of src/ui/display.c) and what a user
    can conclude from reading it. */
module ScreenText {
  import opened Bytes
  import opened Decoder
  import opened Deserialize
  import opened NumberText
  import Base58
  import Base58InPlace
  import Format
  import PathFormat

  /** The buffers behind the three lines; the first is `g_output_index`. */
  datatype Lines = Lines(index: string, address: string, amount: string)

  const INDEX_BUFFER := 10
  const MAX_TOKEN_SYMBOL_LEN := 5

  function IndexLine(number: nat, total: nat): string {
    NatText(10, number) + "/" + NatText(10, total)
  }

  function AmountLine(symbol: string, value: nat): string {
    symbol + " " + AmountText(value)
  }

  /** `address_from_pubkey_hash`. */
  function Address(env: Env, version: byte, pkh: seq<byte>): (address: seq<byte>)
    requires |pkh| == PUBKEY_HASH_LEN
    ensures |address| == Base58.ADDRESS_LEN && address[0] == version && address[1..21] == pkh
  {
    var body := [version] + pkh;
    body + env.sha256(env.sha256(body))[..4]
  }

  /** The tokens of the transaction resolve in the registry, and `o` names one of them or HTR. */
  predicate HasSymbol(env: Env, tokens: seq<nat>, o: Output) {
    o.tokenData <= |tokens| && forall i :: 0 <= i < |tokens| ==> tokens[i] < |env.registry|
  }

  /** The registry keeps symbols of up to five characters. */
  predicate ShortSymbols(registry: seq<TokenSymbol>) {
    forall i :: 0 <= i < |registry| ==> |registry[i].symbol| <= MAX_TOKEN_SYMBOL_LEN
  }

  /** What C's string functions see of a character array: all before the first NUL. */
  function CString(s: string): (t: string)
    ensures Format.NUL !in t && |t| <= |s| && t == s[..|t|]
    ensures |t| < |s| ==> s[|t|] == Format.NUL
  {
    if s == [] || s[0] == Format.NUL then [] else [s[0]] + CString(s[1..])
  }

  function Symbol(env: Env, tokens: seq<nat>, o: Output): (symbol: string)
    requires HasSymbol(env, tokens, o)
    ensures Format.NUL !in symbol && (ShortSymbols(env.registry) ==> |symbol| <= MAX_TOKEN_SYMBOL_LEN)
  {
    if o.tokenData == 0 then "HTR" else CString(env.registry[tokens[o.tokenData - 1]].symbol)
  }

  function Shown(env: Env, version: byte, tokens: seq<nat>, o: Output, number: nat, total: nat): Lines
    requires HasSymbol(env, tokens, o) && |o.pkh| == PUBKEY_HASH_LEN
  {
    Lines(
      IndexLine(number, total),
      Base58.Encode(Address(env, version, o.pkh)),
      AmountLine(Symbol(env, tokens, o), o.value))
  }

  lemma NoLaterSeparator(a: string, b: string, c: char, i: nat)
    requires c !in b && i < |a + [c] + b| && (a + [c] + b)[i] == c
    ensures i <= |a|
  {
    var s := a + [c] + b;
    assert forall k :: |a| < k < |s| ==> s[k] == b[k - |a| - 1];
  }

  /** A text splits at its last separator in one way. */
  lemma LastSeparator(a: string, b: string, a': string, b': string, c: char)
    requires c !in b && c !in b' && a + [c] + b == a' + [c] + b'
    ensures a == a' && b == b'
  {
    var s, s' := a + [c] + b, a' + [c] + b';
    assert s[|a|] == c && s'[|a'|] == c;
    NoLaterSeparator(a, b, c, |a'|);
    NoLaterSeparator(a', b', c, |a|);
    assert a == s[..|a|] && a' == s'[..|a|];
    assert b == s[|a| + 1..] && b' == s'[|a| + 1..];
  }

  lemma {:induction false} GroupedChars(s: string)
    requires forall i :: 0 <= i < |s| ==> '0' <= s[i] <= '9'
    ensures ' ' !in Grouped(s)
    decreases |s|
  {
    if |s| <= 3 {
    } else {
      GroupedChars(s[..|s| - 3]);
    }
  }

  lemma AmountChars(value: nat)
    ensures ' ' !in AmountText(value)
  {
    hide NatText, Grouped;
    NatTextIsDecimal(value / 100);
    GroupedChars(NatText(10, value / 100));
  }

  /** The amount line spells the token symbol, whatever printable characters it has, and the value. */
  lemma AmountLineInjective(symbol: string, value: nat, symbol': string, value': nat)
    requires AmountLine(symbol, value) == AmountLine(symbol', value')
    ensures symbol == symbol' && value == value'
  {
    hide AmountText;
    AmountChars(value);
    AmountChars(value');
    LastSeparator(symbol, AmountText(value), symbol', AmountText(value'), ' ');
    AmountInjective(value, value');
  }

  lemma IndexLineInjective(number: nat, total: nat, number': nat, total': nat)
    requires IndexLine(number, total) == IndexLine(number', total')
    ensures number == number' && total == total'
  {
    hide NatText, ReadNat;
    NatTextIsDecimal(total);
    NatTextIsDecimal(total');
    LastSeparator(NatText(10, number), NatText(10, total), NatText(10, number'), NatText(10, total'), '/');
    ReadNatText(10, number);
    ReadNatText(10, number');
    ReadNatText(10, total);
    ReadNatText(10, total');
  }

  /** The address text spells the public key hash. */
  lemma AddressInjective(env: Env, version: byte, pkh: seq<byte>, pkh': seq<byte>)
    requires |pkh| == PUBKEY_HASH_LEN == |pkh'|
    requires Base58.Encode(Address(env, version, pkh)) == Base58.Encode(Address(env, version, pkh'))
    ensures pkh == pkh'
  {
    hide Base58.Encode, Base58.Decode, Address;
    Base58.DecodeUndoesEncode(Address(env, version, pkh));
    Base58.DecodeUndoesEncode(Address(env, version, pkh'));
  }

  lemma OnlySeparator(a: string, c: char, b: string, line: string)
    requires c !in a && c !in b && line == a + [c] + b
    ensures line[|a|] == c && line[..|a|] == a && line[|a| + 1..] == b
    ensures forall i :: 0 <= i < |line| && line[i] == c ==> i == |a|
  {
    assert forall i :: 0 <= i < |a| ==> line[i] == a[i];
    assert forall i :: |a| < i < |line| ==> line[i] == b[i - |a| - 1];
  }

  /** What stands left of the slash reads as the number, what stands right of it as the total. */
  lemma IndexLineReads(number: nat, total: nat, line: string)
    requires line == IndexLine(number, total)
    ensures '/' in line
    ensures forall i :: 0 <= i < |line| && line[i] == '/' ==>
              && IsDecimal(line[..i]) && ReadNat(10, line[..i]) == number
              && IsDecimal(line[i + 1..]) && ReadNat(10, line[i + 1..]) == total
  {
    hide NatText, ReadNat;
    var a, b := NatText(10, number), NatText(10, total);
    NatTextIsDecimal(number);
    NatTextIsDecimal(total);
    ReadNatText(10, number);
    ReadNatText(10, total);
    OnlySeparator(a, '/', b, line);
  }

  /** The amount line is the symbol, a space, and a text that reads as the value in hundredths. */
  lemma AmountLineReads(symbol: string, value: nat, line: string)
    requires line == AmountLine(symbol, value)
    ensures |line| > |symbol| && line[..|symbol|] == symbol && line[|symbol|] == ' '
    ensures ReadAmount(line[|symbol| + 1..]) == Some(value)
  {
    hide AmountText, ReadAmount;
    AmountParts(value, AmountText(value));
    assert line[|symbol| + 1..] == AmountText(value);
  }

  /** The address decodes to version, public key hash and the first four bytes of the double SHA-256
      of these. */
  lemma AddressReads(env: Env, version: byte, pkh: seq<byte>, text: string)
    requires |pkh| == PUBKEY_HASH_LEN && text == Base58.Encode(Address(env, version, pkh))
    ensures Base58.Decode(text).Some?
    ensures var a := Base58.Decode(text).value;
            && |a| == 25 && a[0] == version && a[1..21] == pkh
            && a[21..] == env.sha256(env.sha256(a[..21]))[..4]
  {
    hide Base58.Encode, Base58.Decode;
    var a := Address(env, version, pkh);
    Base58.DecodeUndoesEncode(a);
    assert a[..21] == [version] + pkh;
  }

  /** The lines read as these numbers, this value behind this symbol, and an address that decodes, with
      a good checksum, to this version and public key hash. */
  predicate Reads(
      env: Env, version: byte, lines: Lines, number: nat, total: nat, symbol: string, value: nat, pkh: seq<byte>)
  {
    && (exists i :: 0 <= i < |lines.index| && lines.index[i] == '/'
          && ReadNat(10, lines.index[..i]) == number && ReadNat(10, lines.index[i + 1..]) == total)
    && |lines.amount| > |symbol| && lines.amount[..|symbol|] == symbol && lines.amount[|symbol|] == ' '
    && ReadAmount(lines.amount[|symbol| + 1..]) == Some(value)
    && Base58.Decode(lines.address).Some?
    && var a := Base58.Decode(lines.address).value;
       && |a| == 25 && a[0] == version && a[1..21] == pkh
       && a[21..] == env.sha256(env.sha256(a[..21]))[..4]
  }

  lemma LinesRead(env: Env, version: byte, tokens: seq<nat>, o: Output, number: nat, total: nat, lines: Lines)
    requires HasSymbol(env, tokens, o) && |o.pkh| == PUBKEY_HASH_LEN
    requires lines == Shown(env, version, tokens, o, number, total)
    ensures Reads(env, version, lines, number, total, Symbol(env, tokens, o), o.value, o.pkh)
  {
    hide IndexLine, AmountLine, Address, Symbol, ReadNat, ReadAmount, Base58.Encode, Base58.Decode;
    IndexLineReads(number, total, lines.index);
    AddressReads(env, version, o.pkh, lines.address);
    AmountLineReads(Symbol(env, tokens, o), o.value, lines.amount);
  }

  /** What the user reads is what is signed: two outputs that show the same lines pay the same
      value of a token with the same symbol to the same public key hash, under the same number. */
  lemma LinesDetermineOutput(
      env: Env, version: byte, tokens: seq<nat>,
      o: Output, number: nat, total: nat, o': Output, number': nat, total': nat)
    requires HasSymbol(env, tokens, o) && HasSymbol(env, tokens, o')
    requires |o.pkh| == PUBKEY_HASH_LEN == |o'.pkh|
    requires Shown(env, version, tokens, o, number, total) == Shown(env, version, tokens, o', number', total')
    ensures o.pkh == o'.pkh && o.value == o'.value && Symbol(env, tokens, o) == Symbol(env, tokens, o')
    ensures number == number' && total == total'
  {
    hide IndexLine, AmountLine, Address, Symbol, Base58.Encode;
    IndexLineInjective(number, total, number', total');
    AddressInjective(env, version, o.pkh, o'.pkh);
    AmountLineInjective(Symbol(env, tokens, o), o.value, Symbol(env, tokens, o'), o'.value);
  }

  /** Index and address always fit their buffers on either network, terminator included; the
      amount line does exactly if the symbol leaves room for the value. */
  lemma LinesFit(env: Env, version: byte, tokens: seq<nat>, o: Output, number: nat, total: nat)
    requires version == Base58.MAINNET || version == Base58.TESTNET
    requires |o.pkh| == PUBKEY_HASH_LEN && HasSymbol(env, tokens, o) && ShortSymbols(env.registry)
    requires o.value <= MAX_VALUE && number < 256 && total < 256
    ensures var lines := Shown(env, version, tokens, o, number, total);
            && |lines.index| + 1 <= INDEX_BUFFER
            && |lines.address| + 1 == Base58.B58_ADDRESS_LEN
            && (|lines.amount| + 1 <= AMOUNT_BUFFER <==> LineHasRoom(|Symbol(env, tokens, o)|, o.value))
  {
    hide NatText, AmountText, Address, Base58.Encode, LineHasRoom, Symbol;
    OctetText(number);
    OctetText(total);
    Base58.AddressText(Address(env, version, o.pkh));
    AmountLineFits(|Symbol(env, tokens, o)|, o.value);
  }

  lemma OctetText(n: nat)
    requires n < 256
    ensures |NatText(10, n)| <= 3
  {
    hide NatText;
    Thousand();
    DigitCount(n, 3);
  }

  lemma Thousand()
    ensures Numerals.Pow(10, 3) == 1000
  {
  }

  /** The index line as `prepare_display_output` prints it. */
  method PutIndexLine(out: array<char>, number: byte, total: byte)
    requires out.Length == INDEX_BUFFER
    modifies out
    ensures var line := IndexLine(number, total);
            |line| < out.Length && out[..|line|] == line && out[|line|] == Format.NUL
  {
    hide NatText;
    OctetText(number);
    OctetText(total);
    NatTextIsDecimal(number);
    Format.Itoa(number, out, 0, 10);
    ghost var first := NatText(10, number);
    assert out[..|first|] == first;
    assert forall k :: 0 <= k < |first| ==> out[k] == first[k];
    var len := Format.StrLen(out, 0);
    out[len] := '/';
    len := len + 1;
    Format.Itoa(total, out, len, 10);
    assert out[..len] == first + "/";
  }

  /** The address line: version, public key hash and checksum, encoded into a zeroed buffer. */
  method PutAddressLine(out: array<char>, env: Env, version: byte, pkh: seq<byte>)
    requires out.Length == Base58.B58_ADDRESS_LEN && |pkh| == PUBKEY_HASH_LEN
    requires version == Base58.MAINNET || version == Base58.TESTNET
    modifies out
    ensures var line := Base58.Encode(Address(env, version, pkh));
            |line| + 1 == out.Length && out[..|line|] == line && out[|line|] == Format.NUL
  {
    ghost var whole := Address(env, version, pkh);
    Base58.AddressText(whole);
    hide Base58.Encode;
    var address := new byte[Base58.ADDRESS_LEN](_ => 0);
    address[0] := version;
    forall k | 0 <= k < PUBKEY_HASH_LEN {
      address[1 + k] := pkh[k];
    }
    var body := [version] + pkh;
    var digest := env.sha256(env.sha256(body));
    forall k | 0 <= k < 4 {
      address[21 + k] := digest[k];
    }
    assert address[..Base58.ADDRESS_LEN] == whole;
    hide Address;
    var text := new char[Base58.B58_ADDRESS_LEN](_ => Format.NUL);
    var n := Base58InPlace.Base58Encode(address, Base58.ADDRESS_LEN, text, Base58.B58_ADDRESS_LEN);
    assert text[n..][0] == Format.NUL;
    forall k | 0 <= k < Base58.B58_ADDRESS_LEN {
      out[k] := text[k];
    }
    assert out[..n] == text[..n];
  }

  /** The amount line: the symbol, a space over its terminator, the amount behind it. */
  method PutAmountLine(out: array<char>, symbol: string, value: nat)
    requires out.Length == AMOUNT_BUFFER && value <= MAX_VALUE
    requires |symbol| <= MAX_TOKEN_SYMBOL_LEN && Format.NUL !in symbol && LineHasRoom(|symbol|, value)
    modifies out
    ensures var line := AmountLine(symbol, value);
            |line| < out.Length && out[..|line|] == line && out[|line|] == Format.NUL
  {
    AmountLineFits(|symbol|, value);
    hide AmountText, LineHasRoom;
    PathFormat.Snprintf(out, 0, MAX_TOKEN_SYMBOL_LEN + 1, symbol);
    var symbolLen := |symbol|;
    out[symbolLen] := ' ';
    assert out[..symbolLen + 1] == symbol + " ";
    Format.FormatValue(value, out, symbolLen + 1);
  }

  /** The three lines of the screen of output `o`, written one after the other. */
  method PutScreen(index: array<char>, address: array<char>, amount: array<char>,
                   env: Env, version: byte, tokens: seq<nat>, o: Output, number: byte, total: byte)
    requires index.Length == INDEX_BUFFER && address.Length == Base58.B58_ADDRESS_LEN && amount.Length == AMOUNT_BUFFER
    requires index != address && index != amount && address != amount
    requires version == Base58.MAINNET || version == Base58.TESTNET
    requires |o.pkh| == PUBKEY_HASH_LEN && HasSymbol(env, tokens, o) && ShortSymbols(env.registry)
    requires o.value <= MAX_VALUE && LineHasRoom(|Symbol(env, tokens, o)|, o.value)
    modifies index, address, amount
    ensures var lines := Shown(env, version, tokens, o, number, total);
            && Holds(index, lines.index) && Holds(address, lines.address) && Holds(amount, lines.amount)
  {
    hide IndexLine, AmountLine, Address, Symbol, Base58.Encode, LineHasRoom;
    PutIndexLine(index, number, total);
    PutAddressLine(address, env, version, o.pkh);
    PutAmountLine(amount, Symbol(env, tokens, o), o.value);
  }

  /** A buffer holds a terminated text. */
  ghost predicate Holds(buffer: array<char>, line: string)
    reads buffer
  {
    |line| < buffer.Length && buffer[..|line|] == line && buffer[|line|] == Format.NUL
  }
}
