/** BIP32 paths on the wire (src/common/bip32.c) and what a first chunk carries before the
    transaction body: change information and header (src/handler/sign_tx.c). */
module Prelude {
  import opened Bytes
  import opened Decoder

  const MAX_BIP32_PATH := 5
  const MAX_DERIVATION_INDEX := 0x10_0000

  const SW_OK := 0x9000
  const SW_DENY := 0x6985
  const SW_WRONG_DATA_LENGTH := 0x6A87
  const SW_BAD_STATE := 0xB007
  const SW_SIGNATURE_FAIL := 0xB008
  const SW_INVALID_TX := 0xB009

  /** The path levels this application refuses to go beyond. */
  predicate WithinLimits(path: Path) {
    (|path| > 4 ==> path[4] <= MAX_DERIVATION_INDEX) && (|path| > 3 ==> path[3] <= 1)
  }

  predicate IsPath(path: Path) {
    |path| <= MAX_BIP32_PATH && (forall i :: 0 <= i < |path| ==> path[i] < 0x1_0000_0000)
  }

  /** `n` big-endian words starting at `offset`. */
  function Words(bytes: seq<byte>, offset: nat, n: nat): (path: Path)
    requires offset + 4 * n <= |bytes|
    ensures |path| == n && (forall i :: 0 <= i < n ==> path[i] < 0x1_0000_0000)
    decreases n
  {
    OctetPowers();
    if n == 0 then []
    else [BigEndian(bytes[offset..offset + 4])] + Words(bytes, offset + 4, n - 1)
  }

  /** `bip32_path_read`. */
  function ReadPath(bytes: seq<byte>): (r: Option<Path>)
    ensures r.Some? ==> |bytes| > 0 && |r.value| == bytes[0] && 4 * |r.value| + 1 <= |bytes|
    ensures r.Some? ==> IsPath(r.value) && WithinLimits(r.value)
  {
    if |bytes| < 1 || bytes[0] > MAX_BIP32_PATH || bytes[0] as int * 4 + 1 > |bytes| then None
    else
      var path := Words(bytes, 1, bytes[0]);
      if WithinLimits(path) then Some(path) else None
  }

  /** Outcome of `read_change_info`: the status word thrown, or the entries and the cursor. */
  datatype ChangeInfo = Refused(sw: nat) | Accepted(changes: seq<Change>, used: nat)

  /** The entry loop of `read_change_info_v1`. */
  function ReadEntries(bytes: seq<byte>, offset: nat, n: nat): (r: ChangeInfo)
    requires offset <= |bytes|
    ensures r.Accepted? ==> |r.changes| == n && offset <= r.used <= |bytes|
    decreases n
  {
    if n == 0 then Accepted([], offset)
    else if offset == |bytes| then Refused(SW_WRONG_DATA_LENGTH)
    else
      var path := ReadPath(bytes[offset + 1..]);
      if path.None? then Refused(SW_WRONG_DATA_LENGTH)
      else
        match ReadEntries(bytes, offset + 2 + 4 * |path.value|, n - 1)
        case Refused(sw) => Refused(sw)
        case Accepted(cs, used) => Accepted([Change(bytes[offset], path.value)] + cs, used)
  }

  /** `read_change_info_old_protocol`: one entry, the path length in the low half of the first byte. */
  function ReadOld(bytes: seq<byte>): (r: ChangeInfo)
    requires bytes != []
    ensures r.Accepted? ==> |r.changes| == 1 && r.used <= |bytes|
  {
    var len := bytes[0] % 16;
    if |bytes| < 2 || len > MAX_BIP32_PATH || |bytes| - 2 < 4 * len then Refused(SW_WRONG_DATA_LENGTH)
    else
      var padding := seq(4 * (MAX_BIP32_PATH - len), _ => 0);
      var path := ReadPath([len] + bytes[2..2 + 4 * len] + padding);
      if path.None? then Refused(SW_WRONG_DATA_LENGTH)
      else Accepted([Change(bytes[1], path.value)], 2 + 4 * len)
  }

  function ReadChangeInfo(bytes: seq<byte>): (r: ChangeInfo)
    ensures r.Accepted? ==> |r.changes| <= TX_MAX_TOKENS + 1 && 1 <= r.used <= |bytes|
  {
    if bytes == [] then Refused(SW_WRONG_DATA_LENGTH)
    else if bytes[0] == 0 then Accepted([], 1)
    else if bytes[0] >= 0x80 then ReadOld(bytes)
    else if bytes[0] == 1 then
      if |bytes| < 2 || bytes[1] > TX_MAX_TOKENS + 1 then Refused(SW_WRONG_DATA_LENGTH)
      else ReadEntries(bytes, 2, bytes[1])
    else Refused(SW_INVALID_TX)
  }

  // ---- the client's encodings ----

  function EncodeWords(path: Path): (s: seq<byte>)
    requires forall i :: 0 <= i < |path| ==> path[i] < 0x1_0000_0000
    ensures |s| == 4 * |path|
  {
    OctetPowers();
    if path == [] then [] else ToBytes(path[0], 4) + EncodeWords(path[1..])
  }

  predicate IsChange(c: Change) {
    IsPath(c.path) && WithinLimits(c.path)
  }

  predicate AreChanges(cs: seq<Change>) {
    forall i :: 0 <= i < |cs| ==> IsChange(cs[i])
  }

  function EncodeEntry(c: Change): (s: seq<byte>)
    requires IsChange(c)
    ensures |s| == 2 + 4 * |c.path|
  {
    [c.index] + ([|c.path|] + EncodeWords(c.path))
  }

  function EncodeEntries(cs: seq<Change>): (s: seq<byte>)
    requires AreChanges(cs)
    ensures 2 * |cs| <= |s| <= 22 * |cs|
  {
    if cs == [] then []
    else EncodeEntry(cs[0]) + EncodeEntries(cs[1..])
  }

  /** Protocol v1: a version byte, a count, and the entries. */
  function EncodeV1(cs: seq<Change>): seq<byte>
    requires AreChanges(cs) && |cs| <= TX_MAX_TOKENS + 1
  {
    [1, |cs|] + EncodeEntries(cs)
  }

  /** The old protocol: one entry, no count. */
  function EncodeOld(c: Change): seq<byte>
    requires IsChange(c)
  {
    [0x80 + |c.path|, c.index] + EncodeWords(c.path)
  }

  lemma {:induction false} WordsOfEncoded(a: seq<byte>, path: Path, b: seq<byte>)
    requires forall i :: 0 <= i < |path| ==> path[i] < 0x1_0000_0000
    ensures Words(a + EncodeWords(path) + b, |a|, |path|) == path
    decreases |path|
  {
    hide BigEndian, ToBytes, Numerals.Pow;
    if path == [] {
    } else {
      OctetPowers();
      var w := ToBytes(path[0], 4);
      var all := a + EncodeWords(path) + b;
      assert all[|a|..|a| + 4] == w;
      BigEndianToBytes(path[0], 4);
      assert all == (a + w) + EncodeWords(path[1..]) + b;
      WordsOfEncoded(a + w, path[1..], b);
    }
  }

  lemma {:induction false} EncodedOfWords(bytes: seq<byte>, offset: nat, n: nat)
    requires offset + 4 * n <= |bytes|
    ensures EncodeWords(Words(bytes, offset, n)) == bytes[offset..offset + 4 * n]
    decreases n
  {
    hide BigEndian, ToBytes, Numerals.Pow;
    if n == 0 {
    } else {
      OctetPowers();
      ToBytesBigEndian(bytes[offset..offset + 4]);
      EncodedOfWords(bytes, offset + 4, n - 1);
      assert bytes[offset..offset + 4 * n] == bytes[offset..offset + 4] + bytes[offset + 4..offset + 4 * n];
    }
  }

  /** Reading a length-prefixed path succeeds exactly on the paths within the limits, and returns them. */
  lemma ReadEncodedPath(path: Path, tail: seq<byte>)
    requires IsPath(path)
    ensures ReadPath([|path|] + EncodeWords(path) + tail)
         == if WithinLimits(path) then Some(path) else None
  {
    WordsOfEncoded([|path|], path, tail);
  }

  /** The limits in numbers: the fourth level is 0 or 1, the fifth at most 2^20. Shorter paths, hardened
      levels and any first three levels are read. */
  lemma LimitsAre(path: Path, tail: seq<byte>, r: Option<Path>)
    requires |path| <= 5 && forall i :: 0 <= i < |path| ==> path[i] < 0x1_0000_0000
    requires r == ReadPath([|path|] + EncodeWords(path) + tail)
    ensures r == Some(path)
       <==> (|path| >= 4 ==> path[3] == 0 || path[3] == 1) && (|path| == 5 ==> path[4] <= 1_048_576)
    ensures r.None? || r == Some(path)
  {
    ReadEncodedPath(path, tail);
    hide ReadPath, EncodeWords;
  }

  /** The `i`-th word behind the length byte. */
  function WordAt(bytes: seq<byte>, i: nat): nat
    requires 4 * i + 5 <= |bytes|
  {
    bytes[4 * i + 1] as int * 0x100_0000 + bytes[4 * i + 2] as int * 0x1_0000
    + bytes[4 * i + 3] as int * 0x100 + bytes[4 * i + 4]
  }

  lemma {:induction false} WordsAre(bytes: seq<byte>, k: nat, n: nat)
    requires 1 + 4 * (k + n) <= |bytes|
    ensures forall j :: k <= j < k + n ==> Words(bytes, 1 + 4 * k, n)[j - k] == WordAt(bytes, j)
    decreases n
  {
    if n == 0 {
    } else {
      ShiftForm32(bytes[1 + 4 * k..5 + 4 * k]);
      WordsAre(bytes, k + 1, n - 1);
      hide BigEndian;
      var path, rest := Words(bytes, 1 + 4 * k, n), Words(bytes, 5 + 4 * k, n - 1);
      forall j | k <= j < k + n ensures path[j - k] == WordAt(bytes, j) {
        if j > k { assert path[j - k] == rest[j - (k + 1)]; }
      }
    }
  }

  /** `bip32_path_read` on any bytes: up to five words are read, all of them there, the fourth 0 or 1 and
      the fifth at most 2^20. */
  lemma PathLayout(bytes: seq<byte>, r: Option<Path>)
    requires r == ReadPath(bytes)
    ensures r.Some? <==> && |bytes| > 0 && bytes[0] <= 5 && |bytes| >= 1 + 4 * bytes[0] as int
                         && (bytes[0] >= 4 ==> WordAt(bytes, 3) <= 1)
                         && (bytes[0] == 5 ==> WordAt(bytes, 4) <= 1_048_576)
    ensures r.Some? ==> |r.value| == bytes[0] && forall i :: 0 <= i < bytes[0] ==> r.value[i] == WordAt(bytes, i)
  {
    hide WordAt;
    if |bytes| > 0 && |bytes| >= 1 + 4 * bytes[0] as int { WordsAre(bytes, 0, bytes[0]); }
  }

  /** The words of a path as they stand on the wire, four bytes each. */
  lemma {:induction false} WordBytes(path: Path, i: nat)
    requires (forall j :: 0 <= j < |path| ==> path[j] < 0x1_0000_0000) && i < |path|
    ensures var w := EncodeWords(path)[4 * i..4 * i + 4];
            path[i] == w[0] as int * 0x100_0000 + w[1] as int * 0x1_0000 + w[2] as int * 0x100 + w[3]
    decreases |path|
  {
    hide BigEndian, ToBytes, Numerals.Pow;
    OctetPowers();
    var first, rest := ToBytes(path[0], 4), EncodeWords(path[1..]);
    assert EncodeWords(path) == first + rest;
    if i == 0 {
      BigEndianToBytes(path[0], 4);
      ShiftForm32(first);
      assert (first + rest)[..4] == first;
    } else {
      WordBytes(path[1..], i - 1);
      assert (first + rest)[4 * i..4 * i + 4] == rest[4 * (i - 1)..4 * (i - 1) + 4];
    }
  }

  /** Whatever path is read, its length-prefixed words are the bytes it was read from. */
  lemma ReadPathIsEncoded(bytes: seq<byte>)
    requires ReadPath(bytes).Some?
    ensures var path := ReadPath(bytes).value;
            bytes[..1 + 4 * |path|] == [|path|] + EncodeWords(path)
  {
    var path := ReadPath(bytes).value;
    EncodedOfWords(bytes, 1, |path|);
    assert bytes[..1 + 4 * |path|] == [bytes[0]] + bytes[1..1 + 4 * |path|];
  }

  lemma EntryRoundTrip(bytes: seq<byte>, offset: nat, c: Change)
    requires IsChange(c) && offset + 2 + 4 * |c.path| <= |bytes|
    requires bytes[offset..offset + 2 + 4 * |c.path|] == EncodeEntry(c)
    ensures bytes[offset] == c.index && ReadPath(bytes[offset + 1..]) == Some(c.path)
  {
    var next := offset + 2 + 4 * |c.path|;
    ReadEncodedPath(c.path, bytes[next..]);
    hide ReadPath, EncodeWords;
    var e := bytes[offset..next];
    assert e[0] == bytes[offset] && e[1..] == bytes[offset + 1..next];
    assert bytes[offset + 1..] == bytes[offset + 1..next] + bytes[next..];
  }

  lemma SplitSlice(s: seq<byte>, offset: nat, x: seq<byte>, y: seq<byte>)
    requires offset + |x| + |y| <= |s| && s[offset..offset + |x| + |y|] == x + y
    ensures s[offset..offset + |x|] == x && s[offset + |x|..offset + |x| + |y|] == y
  {
    var t := s[offset..offset + |x| + |y|];
    assert t[..|x|] == x && t[|x|..] == y;
  }

  lemma EntriesHead(cs: seq<Change>)
    requires AreChanges(cs)
    ensures EncodeEntries(cs) == if cs == [] then [] else EncodeEntry(cs[0]) + EncodeEntries(cs[1..])
  {
  }

  lemma NoEntries(bytes: seq<byte>, offset: nat)
    requires offset <= |bytes|
    ensures ReadEntries(bytes, offset, 0) == Accepted([], offset)
  {
  }

  lemma NextEntry(bytes: seq<byte>, offset: nat, n: nat, path: Path)
    requires n > 0 && offset + 2 + 4 * |path| <= |bytes| && ReadPath(bytes[offset + 1..]) == Some(path)
    ensures ReadEntries(bytes, offset, n)
         == match ReadEntries(bytes, offset + 2 + 4 * |path|, n - 1)
            case Refused(sw) => Refused(sw)
            case Accepted(cs, used) => Accepted([Change(bytes[offset], path)] + cs, used)
  {
    hide ReadPath;
  }

  lemma {:induction false} EntriesRoundTrip(bytes: seq<byte>, offset: nat, cs: seq<Change>)
    requires AreChanges(cs) && offset + |EncodeEntries(cs)| <= |bytes|
    requires bytes[offset..offset + |EncodeEntries(cs)|] == EncodeEntries(cs)
    ensures ReadEntries(bytes, offset, |cs|) == Accepted(cs, offset + |EncodeEntries(cs)|)
    decreases |cs|
  {
    hide ReadPath, ReadEntries, EncodeEntry, EncodeEntries, EncodeWords, IsChange;
    EntriesHead(cs);
    if cs == [] {
      NoEntries(bytes, offset);
    } else {
      var c := cs[0];
      SplitSlice(bytes, offset, EncodeEntry(c), EncodeEntries(cs[1..]));
      EntryRoundTrip(bytes, offset, c);
      EntriesRoundTrip(bytes, offset + 2 + 4 * |c.path|, cs[1..]);
      NextEntry(bytes, offset, |cs|, c.path);
      assert [c] + cs[1..] == cs;
    }
  }

  /** Protocol v1 delivers every list of up to 11 entries and stops exactly at the header. */
  lemma V1RoundTrip(cs: seq<Change>, encoded: seq<byte>, tail: seq<byte>)
    requires AreChanges(cs) && |cs| <= TX_MAX_TOKENS + 1 && encoded == EncodeV1(cs)
    ensures ReadChangeInfo(encoded + tail) == Accepted(cs, |encoded|)
    ensures |encoded| + 5 <= 249
  {
    hide ReadOld, EncodeEntries;
    var bytes := encoded + tail;
    assert bytes[2..2 + |EncodeEntries(cs)|] == EncodeEntries(cs);
    EntriesRoundTrip(bytes, 2, cs);
    hide ReadEntries;
  }

  /** The announcements, byte by byte: version 1, the count, then index, path length and words of each
      entry; or the length in the low bits of the first byte, index and words. */
  lemma {:induction false} EntriesGrow(cs: seq<Change>, c: Change)
    requires AreChanges(cs) && IsChange(c)
    ensures EncodeEntries(cs + [c]) == EncodeEntries(cs) + [c.index, |c.path|] + EncodeWords(c.path)
    decreases |cs|
  {
    hide EncodeWords;
    if cs == [] {
      assert [c][1..] == [];
    } else {
      assert (cs + [c])[1..] == cs[1..] + [c];
      EntriesGrow(cs[1..], c);
    }
  }

  /** The old encoding of an entry is read to the same change state as its v1 encoding, and
      both leave the cursor at the header that follows. */
  lemma OldEqualsV1(c: Change, header: seq<byte>)
    requires IsChange(c)
    ensures var legacy, v1 := EncodeOld(c) + header, EncodeV1([c]) + header;
            && ReadChangeInfo(legacy) == Accepted([c], |EncodeOld(c)|)
            && ReadChangeInfo(v1) == Accepted([c], |EncodeV1([c])|)
            && legacy[|EncodeOld(c)|..] == v1[|EncodeV1([c])|..] == header
  {
    V1RoundTrip([c], EncodeV1([c]), header);
    OldRoundTrip(c, header);
    hide ReadChangeInfo, ReadOld, ReadEntries, EncodeWords, EncodeEntries;
  }

  lemma OldRoundTrip(c: Change, header: seq<byte>)
    requires IsChange(c)
    ensures ReadOld(EncodeOld(c) + header) == Accepted([c], |EncodeOld(c)|)
  {
    hide ReadPath, EncodeWords;
    var bytes := EncodeOld(c) + header;
    var len := |c.path|;
    assert bytes[0] % 16 == len;
    var padding: seq<byte> := seq(4 * (MAX_BIP32_PATH - len), _ => 0);
    assert bytes[2..2 + 4 * len] == EncodeWords(c.path);
    ReadEncodedPath(c.path, padding);
  }

  lemma EntryIsEncoded(bytes: seq<byte>, offset: nat)
    requires offset < |bytes| && ReadPath(bytes[offset + 1..]).Some?
    ensures var c := Change(bytes[offset], ReadPath(bytes[offset + 1..]).value);
            IsChange(c) && EncodeEntry(c) == bytes[offset..offset + 2 + 4 * |c.path|]
  {
    ReadPathIsEncoded(bytes[offset + 1..]);
    hide EncodeWords;
    var path := ReadPath(bytes[offset + 1..]).value;
    var next := offset + 2 + 4 * |path|;
    assert bytes[offset..next] == [bytes[offset]] + bytes[offset + 1..][..1 + 4 * |path|];
  }

  lemma {:induction false} ReadEntriesIsEncoded(bytes: seq<byte>, offset: nat, n: nat)
    requires offset <= |bytes| && ReadEntries(bytes, offset, n).Accepted?
    ensures var r := ReadEntries(bytes, offset, n);
            AreChanges(r.changes) && bytes[offset..r.used] == EncodeEntries(r.changes)
    decreases n
  {
    hide *;
    if n == 0 {
      NoEntries(bytes, offset);
      NoChanges();
    } else {
      EntryRead(bytes, offset, n);
      var path := ReadPath(bytes[offset + 1..]).value;
      var c, next := Change(bytes[offset], path), offset + 2 + 4 * |path|;
      EntryIsEncoded(bytes, offset);
      NextEntry(bytes, offset, n, path);
      ReadEntriesIsEncoded(bytes, next, n - 1);
      var tl := ReadEntries(bytes, next, n - 1);
      EntryThenRest(bytes, offset, c, next, tl.changes, tl.used);
    }
  }

  lemma NoChanges()
    ensures AreChanges([]) && EncodeEntries([]) == []
  {
  }

  lemma EntryThenRest(bytes: seq<byte>, offset: nat, c: Change, next: nat, cs: seq<Change>, used: nat)
    requires offset <= next <= used <= |bytes| && IsChange(c) && AreChanges(cs)
    requires bytes[offset..next] == EncodeEntry(c) && bytes[next..used] == EncodeEntries(cs)
    ensures AreChanges([c] + cs) && bytes[offset..used] == EncodeEntries([c] + cs)
  {
    hide IsChange, EncodeEntry, EncodeEntries;
    EntriesHead([c] + cs);
    assert ([c] + cs)[1..] == cs;
    assert bytes[offset..used] == bytes[offset..next] + bytes[next..used];
  }

  lemma EntryRead(bytes: seq<byte>, offset: nat, n: nat)
    requires n > 0 && offset <= |bytes| && ReadEntries(bytes, offset, n).Accepted?
    ensures offset < |bytes| && ReadPath(bytes[offset + 1..]).Some?
  {
    hide ReadPath;
  }

  lemma PaddedWords(len: byte, words: seq<byte>, padding: seq<byte>, path: Path)
    requires ReadPath([len] + words + padding) == Some(path) && |words| == 4 * len as int
    ensures |path| == len && IsPath(path) && WithinLimits(path) && EncodeWords(path) == words
  {
    var padded := [len] + words + padding;
    ReadPathIsEncoded(padded);
    hide ReadPath, EncodeWords;
    assert padded[..1 + 4 * len as int] == [len] + words;
    assert ([len] + words)[1..] == words && ([len] + EncodeWords(path))[1..] == EncodeWords(path);
  }

  /** What an accepted old entry was read from. */
  lemma OldFrom(bytes: seq<byte>, len: byte, c: Change)
    requires bytes != [] && ReadOld(bytes).Accepted?
    requires len as int == bytes[0] as int % 16 && c == ReadOld(bytes).changes[0]
    ensures len <= MAX_BIP32_PATH && 2 + 4 * len <= |bytes| && ReadOld(bytes).used == 2 + 4 * len
    ensures c.index == bytes[1]
    ensures ReadPath([len] + bytes[2..2 + 4 * len] + seq(4 * (MAX_BIP32_PATH - len), _ => 0)) == Some(c.path)
  {
    hide ReadPath;
  }

  lemma OldIsEncoded(bytes: seq<byte>)
    requires bytes != [] && ReadOld(bytes).Accepted?
    ensures var r := ReadOld(bytes);
            && IsChange(r.changes[0]) && bytes[0] % 16 == |r.changes[0].path|
            && bytes[1..r.used] == EncodeOld(r.changes[0])[1..]
  {
    hide ReadOld, ReadPath, EncodeWords;
    var len: byte, c := bytes[0] % 16, ReadOld(bytes).changes[0];
    OldFrom(bytes, len, c);
    var words := bytes[2..2 + 4 * len];
    PaddedWords(len, words, seq(4 * (MAX_BIP32_PATH - len), _ => 0), c.path);
    assert bytes[1..2 + 4 * len] == [bytes[1]] + words;
    assert EncodeOld(c)[1..] == [c.index] + EncodeWords(c.path);
  }

  /** Nothing else is accepted: change information is "none", a v1 list, or an old entry (whose
      first byte has three bits the device ignores). */
  lemma AcceptedIsEncoded(bytes: seq<byte>)
    requires ReadChangeInfo(bytes).Accepted?
    ensures var r := ReadChangeInfo(bytes);
            && AreChanges(r.changes)
            && (|| (bytes[..r.used] == [0] && r.changes == [])
                || bytes[..r.used] == EncodeV1(r.changes)
                || (|r.changes| == 1 && bytes[0] >= 0x80 && bytes[0] % 16 == |r.changes[0].path|
                    && bytes[1..r.used] == EncodeOld(r.changes[0])[1..]))
  {
    hide ReadOld, ReadEntries, EncodeWords, EncodeEntries;
    var r := ReadChangeInfo(bytes);
    if bytes[0] == 1 {
      ReadEntriesIsEncoded(bytes, 2, bytes[1]);
      assert bytes[..r.used] == [1, bytes[1]] + bytes[2..r.used];
    } else if bytes[0] >= 0x80 {
      OldIsEncoded(bytes);
    }
  }

  /** Change information that is refused, with what: an unknown protocol byte, or too few bytes, too many
      entries or a path that cannot be read. */
  lemma InfoRefused(bytes: seq<byte>, r: ChangeInfo)
    requires r == ReadChangeInfo(bytes)
    ensures r.Refused? ==>
              r.sw == if bytes != [] && 2 <= bytes[0] < 0x80 then SW_INVALID_TX else SW_WRONG_DATA_LENGTH
    ensures bytes == [] || 2 <= bytes[0] < 0x80 ==> r.Refused?
    ensures bytes != [] && bytes[0] == 0 ==> r == Accepted([], 1)
  {
    hide ReadPath;
    if |bytes| >= 2 && bytes[0] == 1 { EntriesRefused(bytes, 2, bytes[1]); }
  }

  lemma {:induction false} EntriesRefused(bytes: seq<byte>, offset: nat, n: nat)
    requires offset <= |bytes|
    ensures var r := ReadEntries(bytes, offset, n);
            r.Refused? ==> r.sw == SW_WRONG_DATA_LENGTH
    decreases n
  {
    hide ReadPath;
    if n == 0 {
    } else if offset < |bytes| {
      var path := ReadPath(bytes[offset + 1..]);
      if path.Some? { EntriesRefused(bytes, offset + 2 + 4 * |path.value|, n - 1); }
    }
  }
}
