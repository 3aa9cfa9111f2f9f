/** `bip32_path_format` of src/common/bip32.c, over a fixed output buffer that `snprintf` may
    cut short. */
module PathFormat {
  import opened Bytes
  import opened Numerals
  import opened NumberText
  import opened PathText
  import Format
  import Prelude

  /** The display buffer `g_bip32_path`. */
  const PATH_BUFFER := 60

  predicate NoNul(s: string) {
    forall i :: 0 <= i < |s| ==> s[i] != Format.NUL
  }

  /** C's `snprintf(out + offset, size, "%s", text)`; with no room at all it writes nothing. */
  method Snprintf(out: array<char>, offset: nat, size: nat, text: string)
    requires offset + size <= out.Length
    modifies out
    ensures size > 0 ==>
              var n := Min(|text|, size - 1);
              out[offset + n] == Format.NUL && forall k :: offset <= k < offset + n ==> out[k] == text[k - offset]
    ensures forall k :: 0 <= k < out.Length && !(offset <= k < offset + size) ==> out[k] == old(out[k])
  {
    if size == 0 {
      return;
    }
    var i := 0;
    while i < |text| && i < size - 1
      modifies out
      invariant 0 <= i <= Min(|text|, size - 1)
      invariant forall k :: offset <= k < offset + i ==> out[k] == text[k - offset]
      invariant forall k :: 0 <= k < out.Length && !(offset <= k < offset + size) ==> out[k] == old(out[k])
    {
      out[offset + i] := text[i];
      i := i + 1;
    }
    out[offset + i] := Format.NUL;
  }

  /** C's `memset(out, 0, outLen)`. */
  method Wipe(out: array<char>, outLen: nat)
    requires outLen <= out.Length
    modifies out
    ensures forall k :: 0 <= k < outLen ==> out[k] == Format.NUL
    ensures forall k :: outLen <= k < out.Length ==> out[k] == old(out[k])
  {
    for i := 0 to outLen
      invariant forall k :: 0 <= k < i ==> out[k] == Format.NUL
      invariant forall k :: outLen <= k < out.Length ==> out[k] == old(out[k])
    {
      out[i] := Format.NUL;
    }
  }

  /** `s` holds `text` as far as a buffer of `size` bytes lets it. */
  ghost predicate Holds(s: seq<char>, offset: nat, text: string, size: nat) {
    && offset == (if size == 0 then 0 else Min(|text|, size - 1))
    && offset <= |s| && s[..offset] == text[..offset]
  }

  /** What `strlen` needs of a buffer into which nothing can be printed. */
  ghost predicate Terminated(out: array<char>, outLen: nat)
    reads out
  {
    outLen == 0 ==> exists k :: 0 <= k < out.Length && out[k] == Format.NUL
  }

  /** One `snprintf`, the length check behind it, and the wiping of the buffer when it fails. It
      fails exactly if what was written before fills the buffer. */
  method Append(out: array<char>, outLen: nat, offset: nat, text: string, ghost before: string)
      returns (ok: bool, next: nat)
    requires outLen <= out.Length && Holds(out[..], offset, before, outLen) && text != [] && NoNul(text)
    requires Terminated(out, outLen)
    modifies out
    ensures ok <==> |before| + 1 < outLen
    ensures ok ==> Holds(out[..], next, before + text, outLen) && out[next] == Format.NUL
    ensures !ok ==> forall k :: 0 <= k < outLen ==> out[k] == Format.NUL
    ensures forall k :: outLen <= k < out.Length ==> out[k] == old(out[k])
  {
    Snprintf(out, offset, outLen - offset, text);
    if outLen > 0 {
      ghost var n := Min(|text|, outLen - offset - 1);
      assert out[offset + n] == Format.NUL && forall k :: offset <= k < offset + n ==> out[k] != Format.NUL;
    }
    var written := Format.StrLen(out, offset);
    if written == 0 || written >= outLen - offset {
      Wipe(out, outLen);
      return false, offset;
    }
    next := offset + written;
    assert out[..offset] == before[..offset];
    assert out[..next] == (before + text)[..next];
    ok := true;
  }

  /** The last piece of text `bip32_path_format` appends. */
  function LastPiece(path: seq<nat>): string
    requires path != []
  {
    var w := path[|path| - 1];
    if Mark(w) == "" then Number(w) else Mark(w)
  }

  /** What has been appended before component `i`. */
  ghost function Appended(path: seq<nat>, i: nat): string
    requires i <= |path|
  {
    Text(path[..i]) + if 0 < i < |path| then "/" else ""
  }

  lemma AppendedNext(path: seq<nat>, i: nat)
    requires i < |path|
    ensures var a := Appended(path, i) + Number(path[i]);
            var b := if Mark(path[i]) == "" then a else a + Mark(path[i]);
            Appended(path, i + 1) == if i + 1 < |path| then b + "/" else b
  {
    hide Number, Mark;
    assert path[..i + 1][..i] == path[..i];
    var a, c := Appended(path, i), Component(path[i]);
    assert Text(path[..i + 1]) == a + c;
    hide Text;
    assert a + c == a + Number(path[i]) + Mark(path[i]);
  }

  lemma {:induction false} AppendedGrows(path: seq<nat>, i: nat, j: nat)
    requires i <= j <= |path|
    ensures |Appended(path, i)| <= |Appended(path, j)|
    decreases j
  {
    hide Appended;
    if i == j {
    } else {
      AppendedGrows(path, i, j - 1);
      AppendedNext(path, j - 1);
    }
  }

  lemma NothingAppended(path: seq<nat>)
    ensures Appended(path, 0) == ""
  {
  }

  lemma AllAppended(path: seq<nat>)
    ensures Appended(path, |path|) == Text(path)
  {
    assert path[..|path|] == path;
  }

  lemma PieceChars(w: nat)
    ensures NoNul(Number(w)) && NoNul(Mark(w))
  {
    NatTextIsDecimal(w % HARDENED);
  }

  /** The text before the last piece is what decides. */
  lemma LastAppended(path: seq<nat>)
    requires path != []
    ensures var w, a := path[|path| - 1], Appended(path, |path| - 1);
            |Text(path)| == |a| + |Number(w)| + |Mark(w)|
            && |Text(path)| - |LastPiece(path)| == |a| + if Mark(w) == "" then 0 else |Number(w)|
  {
    AllAppended(path);
    AppendedNext(path, |path| - 1);
    hide Appended, Number, Text;
  }

  /** One turn of the loop of `bip32_path_format`. */
  method AppendComponent(path: seq<nat>, i: nat, out: array<char>, outLen: nat, offset: nat)
      returns (ok: bool, next: nat)
    requires i < |path| && outLen <= out.Length && Holds(out[..], offset, Appended(path, i), outLen)
    requires Terminated(out, outLen)
    modifies out
    ensures ok <==> Room(path, i, outLen)
    ensures ok ==> Holds(out[..], next, Appended(path, i + 1), outLen) && out[next] == Format.NUL
    ensures !ok ==> forall k :: 0 <= k < outLen ==> out[k] == Format.NUL
    ensures forall k :: outLen <= k < out.Length ==> out[k] == old(out[k])
  {
    AppendedNext(path, i);
    PieceChars(path[i]);
    hide Number, Appended, Holds;
    ghost var text := Appended(path, i);
    ok, next := Append(out, outLen, offset, Number(path[i]), text);
    if !ok { return; }
    text := text + Number(path[i]);
    if path[i] / HARDENED % 2 == 1 {
      ok, next := Append(out, outLen, next, "'", text);
      if !ok { return; }
      text := text + "'";
    }
    if i != |path| - 1 {
      ok, next := Append(out, outLen, next, "/", text);
    }
  }

  /** Whether component `i` and what follows it in its turn get past the length checks. */
  ghost predicate Room(path: seq<nat>, i: nat, outLen: nat)
    requires i < |path|
  {
    if i + 1 < |path| then |Appended(path, i + 1)| < outLen
    else |Appended(path, i)| + (if Mark(path[i]) == "" then 0 else |Number(path[i])|) + 1 < outLen
  }

  lemma RoomForAll(path: seq<nat>, i: nat, outLen: nat)
    requires i < |path|
    ensures !Room(path, i, outLen) ==> |Text(path)| - |LastPiece(path)| + 1 >= outLen
    ensures i + 1 == |path| ==> (Room(path, i, outLen) <==> |Text(path)| - |LastPiece(path)| + 1 < outLen)
  {
    hide Appended, Text, LastPiece, Number, Mark;
    LastAppended(path);
    if i + 1 < |path| { AppendedGrows(path, i + 1, |path| - 1); }
  }

  /** `bip32_path_format`, with the words of a path in `path`. It succeeds exactly if the text up
      to its last piece leaves room, and then holds the text as far as the buffer allows. */
  method FormatPath(path: seq<nat>, out: array<char>, outLen: nat) returns (ok: bool)
    requires outLen <= out.Length && Terminated(out, outLen)
    modifies out
    ensures ok <==> 1 <= |path| <= Prelude.MAX_BIP32_PATH && |Text(path)| - |LastPiece(path)| + 1 < outLen
    ensures ok ==> var n := Min(|Text(path)|, outLen - 1); out[..n] == Text(path)[..n] && out[n] == Format.NUL
    ensures !ok && 1 <= |path| <= Prelude.MAX_BIP32_PATH ==> forall k :: 0 <= k < outLen ==> out[k] == Format.NUL
    ensures forall k :: outLen <= k < out.Length ==> out[k] == old(out[k])
  {
    hide Number, Appended, Room, Text, LastPiece;
    if |path| == 0 || |path| > Prelude.MAX_BIP32_PATH {
      return false;
    }
    var offset: nat := 0;
    NothingAppended(path);
    for i := 0 to |path|
      invariant Holds(out[..], offset, Appended(path, i), outLen)
      invariant i == |path| ==> out[offset] == Format.NUL && |Text(path)| - |LastPiece(path)| + 1 < outLen
      invariant forall k :: outLen <= k < out.Length ==> out[k] == old(out[k])
      invariant Terminated(out, outLen)
    {
      RoomForAll(path, i, outLen);
      ok, offset := AppendComponent(path, i, out, outLen, offset);
      if !ok { return; }
    }
    AllAppended(path);
    ok := true;
  }

  /** The display buffer takes every path of up to five components, and one fills it. */
  lemma DisplayFits(path: seq<nat>)
    requires 1 <= |path| <= Prelude.MAX_BIP32_PATH
    ensures |Text(path)| < PATH_BUFFER && |Text(path)| - |LastPiece(path)| + 1 < PATH_BUFFER
  {
    hide Text, Number;
    TextLength(path);
  }

  lemma LongestPath()
    ensures var w := 0xFFFF_FFFF; AreWords([w, w, w, w, w]) && |Text([w, w, w, w, w])| + 1 == PATH_BUFFER
  {
    var w := 0xFFFF_FFFF;
    LongestNumber();
    hide Number;
    var p := [w, w, w, w, w];
    assert p[..4] == [w, w, w, w] && p[..4][..3] == [w, w, w] && p[..4][..3][..2] == [w, w];
    assert [w, w][..1] == [w];
    assert |Text([w])| == 11 && |Text([w, w])| == 23 && |Text([w, w, w])| == 35;
  }

  lemma LongestNumber()
    ensures |Number(0xFFFF_FFFF)| == 10
  {
    hide NatText, Pow;
    NumberLength(0xFFFF_FFFF);
    TenTens();
    NinthPower();
    DigitCount(0x7FFF_FFFF, 9);
  }

  lemma NinthPower()
    ensures Pow(10, 9) == 1_000_000_000
  {
    assert Pow(10, 4) == 10_000 && Pow(10, 5) == 100_000;
    PowAdd(10, 4, 5);
  }

  /** Success does not mean that the text fits. In a buffer one byte too short, every path whose
      last component is unhardened and has at least two digits is printed successfully as
      another path. */
  lemma CutTextIsAnotherPath(path: seq<nat>)
    requires path != [] && AreWords(path) && 10 <= path[|path| - 1] < HARDENED
    ensures var n, outLen := |path| - 1, |Text(path)|;
            var other := path[n := path[n] / 10];
            && other != path
            && |Text(path)| - |LastPiece(path)| + 1 < outLen
            && Read(Text(path)[..Min(|Text(path)|, outLen - 1)]) == Some(other)
  {
    hide NatText, Read;
    var n := |path| - 1;
    var w := path[n];
    var other := path[n := w / 10];
    Format.NextDigits(10, w);
    ReadsBack(other);
    assert other[..n] == path[..n];
    assert Component(w) == Number(w) && Component(w / 10) == Number(w / 10);
    assert Number(w) == Number(w / 10) + [DigitChar(w % 10)];
    OneCharLess(if n == 0 then "" else Text(path[..n]) + "/", Number(w / 10), DigitChar(w % 10));
    assert "" + Number(w) == Number(w) && "" + Number(w / 10) == Number(w / 10);
  }

  lemma OneCharLess(front: string, number: string, c: char)
    ensures (front + (number + [c]))[..|front + (number + [c])| - 1] == front + number
  {
  }

  /** From screen to device and back: the words a client reads from a printed path, sent
      length-prefixed, are read as that path exactly if it is within the limits. */
  lemma PrintedPathIsAccepted(path: seq<nat>, tail: seq<byte>)
    requires 1 <= |path| <= Prelude.MAX_BIP32_PATH && AreWords(path)
    ensures Read(Text(path)) == Some(path)
    ensures Prelude.ReadPath([|path|] + Prelude.EncodeWords(path) + tail)
         == if Prelude.WithinLimits(path) then Some(path) else None
  {
    hide Text, Read;
    ReadsBack(path);
    Prelude.ReadEncodedPath(path, tail);
  }
}
