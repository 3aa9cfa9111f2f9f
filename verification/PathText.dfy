/** The text of a derivation path: what src/common/bip32.c prints and how the client's
    `bip32_path_from_string` reads it. */
module PathText {
  import opened Bytes
  import opened Numerals
  import opened NumberText

  const HARDENED := 0x8000_0000

  function Number(w: nat): (t: string)
    ensures t != []
  {
    NatText(10, w % HARDENED)
  }

  function Mark(w: nat): string {
    if w / HARDENED % 2 == 1 then "'" else ""
  }

  function Component(w: nat): (t: string)
    ensures t != []
  {
    Number(w) + Mark(w)
  }

  function Text(path: seq<nat>): string {
    if |path| == 0 then ""
    else if |path| == 1 then Component(path[0])
    else Text(path[..|path| - 1]) + "/" + Component(path[|path| - 1])
  }

  predicate AreWords(path: seq<nat>) {
    forall i :: 0 <= i < |path| ==> path[i] < 2 * HARDENED
  }

  // ---- the client's reader ----

  function Split(text: string): (parts: seq<string>)
    ensures parts != []
  {
    if text == [] then [""]
    else
      var parts, c := Split(text[..|text| - 1]), text[|text| - 1];
      if c == '/' then parts + [""] else parts[..|parts| - 1] + [parts[|parts| - 1] + [c]]
  }

  /** `0x80000000 | n`. */
  function Harden(n: nat): nat {
    if n / HARDENED % 2 == 1 then n else n + HARDENED
  }

  function ReadComponent(p: string): Option<nat> {
    var hardened := '\'' in p;
    var digits := if hardened then p[..|p| - 1] else p;
    if !IsDecimal(digits) then None
    else
      var n := if hardened then Harden(ReadNat(10, digits)) else ReadNat(10, digits);
      if n < 2 * HARDENED then Some(n) else None
  }

  function ReadComponents(parts: seq<string>): Option<seq<nat>> {
    if parts == [] then Some([])
    else
      var front, last := ReadComponents(parts[..|parts| - 1]), ReadComponent(parts[|parts| - 1]);
      if front.Some? && last.Some? then Some(front.value + [last.value]) else None
  }

  /** The words of a written path, or None where the client raises an error. */
  function Read(text: string): Option<seq<nat>> {
    var parts := Split(text);
    ReadComponents(if "m" in parts && parts[0] == "m" then parts[1..] else parts)
  }

  // ---- reading back ----

  predicate NoSlash(s: string) {
    forall i :: 0 <= i < |s| ==> s[i] != '/'
  }

  lemma {:induction false} SplitAppend(t: string, s: string)
    requires NoSlash(s)
    ensures var parts := Split(t);
            Split(t + s) == parts[..|parts| - 1] + [parts[|parts| - 1] + s]
    decreases |s|
  {
    hide Split;
    var parts := Split(t);
    if s == [] {
      assert t + s == t;
      assert parts[|parts| - 1] + s == parts[|parts| - 1];
    } else {
      var s', c := s[..|s| - 1], s[|s| - 1];
      SplitAppend(t, s');
      SplitChar(t + s', c);
      assert t + s == (t + s') + [c];
      assert (parts[|parts| - 1] + s') + [c] == parts[|parts| - 1] + s;
    }
  }

  lemma SplitChar(t: string, c: char)
    ensures var parts := Split(t);
            Split(t + [c]) == if c == '/' then parts + [""] else parts[..|parts| - 1] + [parts[|parts| - 1] + [c]]
  {
    assert (t + [c])[..|t|] == t;
  }

  /** Splitting undoes joining with slashes. */
  lemma SplitJoined(t: string, s: string)
    requires NoSlash(s)
    ensures Split(t + "/" + s) == Split(t) + [s]
  {
    hide Split;
    SplitChar(t, '/');
    SplitAppend(t + "/", s);
    var parts := Split(t + "/");
    assert parts[..|parts| - 1] == Split(t);
    assert "" + s == s;
  }

  lemma SplitSingle(s: string)
    requires NoSlash(s)
    ensures Split(s) == [s]
  {
    SplitAppend("", s);
    assert Split("") == [""];
    hide Split;
    assert "" + s == s;
    assert [""][..0] + [s] == [s];
  }

  lemma ComponentChars(w: nat)
    ensures NoSlash(Component(w)) && Component(w) != "m"
    ensures '\'' in Component(w) <==> Mark(w) != ""
  {
    NatTextIsDecimal(w % HARDENED);
    hide NatText;
    var n, c := Number(w), Component(w);
    assert c[0] == n[0];
    assert Mark(w) != "" ==> c[|n|] == '\'';
  }

  lemma ReadsComponent(w: nat)
    requires w < 2 * HARDENED
    ensures ReadComponent(Component(w)) == Some(w)
  {
    hide NatText, ReadNat;
    NatTextIsDecimal(w % HARDENED);
    ComponentChars(w);
    ReadNatText(10, w % HARDENED);
    var c := Component(w);
    if w < HARDENED {
      assert c == Number(w);
    } else {
      assert c[..|c| - 1] == Number(w);
      assert Harden(w - HARDENED) == w;
    }
  }

  function Components(path: seq<nat>): (parts: seq<string>)
    ensures |parts| == |path|
  {
    if path == [] then [] else Components(path[..|path| - 1]) + [Component(path[|path| - 1])]
  }

  lemma {:induction false} SplitText(path: seq<nat>)
    requires path != []
    ensures Split(Text(path)) == Components(path)
    decreases |path|
  {
    hide Split, Component;
    var n := |path| - 1;
    ComponentChars(path[n]);
    if n == 0 {
      SplitSingle(Component(path[0]));
      assert Components(path[..0]) == [];
    } else {
      SplitText(path[..n]);
      SplitJoined(Text(path[..n]), Component(path[n]));
    }
  }

  lemma {:induction false} ReadsComponents(path: seq<nat>)
    requires AreWords(path)
    ensures ReadComponents(Components(path)) == Some(path)
    decreases |path|
  {
    hide ReadComponent, Component;
    if path == [] {
    } else {
      var n := |path| - 1;
      ReadsComponents(path[..n]);
      ReadsComponent(path[n]);
      var parts := Components(path);
      assert parts[..n] == Components(path[..n]);
      assert path == path[..n] + [path[n]];
    }
  }

  lemma {:induction false} FirstComponent(path: seq<nat>)
    requires path != []
    ensures Components(path)[0] == Component(path[0])
    decreases |path|
  {
    hide Component;
    if |path| <= 1 {
    } else {
      FirstComponent(path[..|path| - 1]);
    }
  }

  /** The client reads every printed path back as the same words. */
  lemma ReadsBack(path: seq<nat>)
    requires path != [] && AreWords(path)
    ensures Read(Text(path)) == Some(path)
  {
    hide Split, Text, Component, Components, ReadComponents;
    SplitText(path);
    ReadsComponents(path);
    FirstComponent(path);
    ComponentChars(path[0]);
  }

  /** No two paths print alike. */
  lemma Injective(p: seq<nat>, q: seq<nat>)
    requires p != [] && q != [] && AreWords(p) && AreWords(q) && Text(p) == Text(q)
    ensures p == q
  {
    hide Text, Read;
    ReadsBack(p);
    ReadsBack(q);
  }

  lemma NatTextNext(n: nat)
    ensures NatText(10, n) == if n < 10 then [DigitChar(n)] else NatText(10, n / 10) + [DigitChar(n % 10)]
  {
    if n < 10 {
      assert Numeral(10, n) == if n == 0 then [] else Numeral(10, 0) + [n];
    } else {
      assert Numeral(10, n) == Numeral(10, n / 10) + [n % 10];
    }
  }

  lemma FirstKeyParts()
    ensures Component(0x8000_002C) == "44'" && Component(0x8000_0118) == "280'"
    ensures Component(0x8000_0000) == "0'" && Component(0) == "0"
  {
    hide NatText;
    NatTextNext(44);
    NatTextNext(4);
    NatTextNext(280);
    NatTextNext(28);
    NatTextNext(2);
    NatTextNext(0);
  }

  /** The app's first key, as it is shown. */
  lemma FirstKeyText()
    ensures Text([0x8000_002C, 0x8000_0118, 0x8000_0000, 0, 0]) == "44'/280'/0'/0/0"
  {
    hide Text, Component;
    FirstKeyParts();
    var p := [0x8000_002C, 0x8000_0118, 0x8000_0000, 0, 0];
    TextNext(p[..1]);
    TextNext(p[..2]);
    TextNext(p[..3]);
    TextNext(p[..4]);
    TextNext(p);
    assert p[..4][..3] == p[..3] && p[..3][..2] == p[..2] && p[..2][..1] == p[..1];
  }

  lemma TextNext(path: seq<nat>)
    requires path != []
    ensures Text(path) == (if |path| == 1 then "" else Text(path[..|path| - 1]) + "/") + Component(path[|path| - 1])
  {
    if |path| == 1 { assert "" + Component(path[0]) == Component(path[0]); }
  }

  // ---- how long paths get ----

  lemma NumberLength(w: nat)
    ensures |Number(w)| <= 10
  {
    hide NatText, Pow;
    TenPowers();
    PowMonotone(10, 10, 15);
    TenTens();
    DigitCount(w % HARDENED, 10);
  }

  lemma TenTens()
    ensures Pow(10, 10) == 10_000_000_000
  {
    assert Pow(10, 5) == 100_000;
    PowAdd(10, 5, 5);
  }

  lemma {:induction false} TextLength(path: seq<nat>)
    requires path != []
    ensures |Text(path)| <= 12 * |path| - 1
    decreases |path|
  {
    hide Number;
    NumberLength(path[|path| - 1]);
    if |path| <= 1 {
    } else {
      TextLength(path[..|path| - 1]);
    }
  }
}
