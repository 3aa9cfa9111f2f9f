/** The read cursor `buffer_t` of src/common/buffer.c. */
module CursorModule {
  import opened Bytes
  import opened Decoder
  import opened Prelude

  /** size_t of the device. */
  const SIZE_LIMIT := 0x1_0000_0000

  class Cursor {
    const ptr: array<byte>
    const size: nat
    var offset: nat

    ghost predicate Valid()
      reads this
    {
      offset <= size <= ptr.Length && size < SIZE_LIMIT
    }

    /** The bytes not read yet. */
    ghost function Rest(): seq<byte>
      requires Valid()
      reads this, ptr
    {
      ptr[offset..size]
    }

    constructor (ptr: array<byte>, size: nat)
      requires size <= ptr.Length && size < SIZE_LIMIT
      ensures Valid() && this.ptr == ptr && this.size == size && offset == 0
    {
      this.ptr, this.size, offset := ptr, size, 0;
    }

    predicate CanRead(n: nat)
      requires Valid()
      reads this
    {
      size - offset >= n
    }

    /** Moves forward, unless that would leave the buffer; the wrap-around test makes the
        32-bit sum as good as the true one. */
    method SeekCur(n: nat) returns (ok: bool)
      requires Valid() && n < SIZE_LIMIT
      modifies this`offset
      ensures Valid()
      ensures ok <==> n <= |old(Rest())|
      ensures offset == if ok then old(offset) + n else old(offset)
      ensures ok ==> Rest() == old(Rest())[n..]
    {
      var sum := (offset + n) % SIZE_LIMIT;
      if sum < offset || sum > size {
        return false;
      }
      offset := sum;
      return true;
    }

    method ReadU8() returns (ok: bool, value: byte)
      requires Valid()
      modifies this`offset
      ensures Valid()
      ensures ok <==> |old(Rest())| >= 1
      ensures if ok then value == old(Rest())[0] && offset == old(offset) + 1 && Rest() == old(Rest())[1..]
              else value == 0 && offset == old(offset)
    {
      if !CanRead(1) {
        return false, 0;
      }
      value := ptr[offset];
      var _ := SeekCur(1);
      ok := true;
    }

    method ReadU16() returns (ok: bool, value: nat)
      requires Valid()
      modifies this`offset
      ensures Valid()
      ensures ok <==> |old(Rest())| >= 2
      ensures if ok then value == BigEndian(old(Rest())[..2]) && offset == old(offset) + 2 && Rest() == old(Rest())[2..]
              else value == 0 && offset == old(offset)
    {
      if !CanRead(2) {
        return false, 0;
      }
      value := ptr[offset] as int * 0x100 + ptr[offset + 1];
      ghost var field := Rest()[..2];
      ShiftForms(field);
      var _ := SeekCur(2);
      ok := true;
    }

    method ReadU32() returns (ok: bool, value: nat)
      requires Valid()
      modifies this`offset
      ensures Valid()
      ensures ok <==> |old(Rest())| >= 4
      ensures if ok then value == BigEndian(old(Rest())[..4]) && offset == old(offset) + 4 && Rest() == old(Rest())[4..]
              else value == 0 && offset == old(offset)
    {
      if !CanRead(4) {
        return false, 0;
      }
      value := Word(ptr, offset);
      assert Rest()[..4] == ptr[offset..offset + 4];
      var _ := SeekCur(4);
      ok := true;
    }

    method ReadU64() returns (ok: bool, value: nat)
      requires Valid()
      modifies this`offset
      ensures Valid()
      ensures ok <==> |old(Rest())| >= 8
      ensures if ok then value == BigEndian(old(Rest())[..8]) && offset == old(offset) + 8 && Rest() == old(Rest())[8..]
              else value == 0 && offset == old(offset)
    {
      if !CanRead(8) {
        return false, 0;
      }
      value := Word(ptr, offset) * 0x1_0000_0000 + Word(ptr, offset + 4);
      ghost var field := Rest()[..8];
      assert field[..4] == ptr[offset..offset + 4] && field[4..] == ptr[offset + 4..offset + 8];
      ShiftForm64(field);
      var _ := SeekCur(8);
      ok := true;
    }

    /** `buffer_copy`: all unread bytes to `out[at..]`, of which `outLen` bytes are available. */
    method Copy(out: array<byte>, at: nat, outLen: nat) returns (ok: bool)
      requires Valid() && at + outLen <= out.Length && out != ptr
      modifies out
      ensures ok <==> |old(Rest())| <= outLen
      ensures ok ==> out[at..at + |old(Rest())|] == old(Rest())
      ensures forall i :: 0 <= i < out.Length && !(ok && at <= i < at + |old(Rest())|) ==> out[i] == old(out[i])
    {
      if size - offset > outLen {
        return false;
      }
      forall i | 0 <= i < size - offset {
        out[at + i] := ptr[offset + i];
      }
      ok := true;
    }

    /** The word loop of `bip32_path_read`. */
    method ReadWords(length: nat) returns (path: Path)
      requires Valid() && 4 * length + 1 <= |Rest()|
      ensures path == Words(Rest(), 1, length)
    {
      path := [];
      var at: nat := 1;
      var i: nat := 0;
      while i < length
        invariant 0 <= i <= length && at == 1 + 4 * i && |path| == i
        invariant path + Words(Rest(), at, length - i) == Words(Rest(), 1, length)
      {
        SliceOfSlice(ptr[..], offset, size, at);
        assert ptr[offset + at..offset + at + 4] == Rest()[at..at + 4];
        hide BigEndian;
        var word := Word(ptr, offset + at);
        WordsStep(path, word, Rest(), at, length - i);
        path := path + [word];
        at := at + 4;
        i := i + 1;
      }
    }

    /** `buffer_read_bip32_path`. */
    method ReadBip32Path() returns (ok: bool, path: Path)
      requires Valid()
      modifies this`offset
      ensures Valid()
      ensures ok <==> ReadPath(old(Rest())).Some?
      ensures if ok then path == ReadPath(old(Rest())).value && offset == old(offset) + 1 + 4 * |path|
                       && Rest() == old(Rest())[1 + 4 * |path|..]
              else offset == old(offset)
    {
      hide Words;
      if size - offset < 1 || ptr[offset] > MAX_BIP32_PATH || ptr[offset] as int * 4 + 1 > size - offset {
        return false, [];
      }
      var length: nat := ptr[offset];
      path := ReadWords(length);
      if length > 4 && path[4] > MAX_DERIVATION_INDEX {
        return false, [];
      }
      if length > 3 && path[3] > 1 {
        return false, [];
      }
      var _ := SeekCur(1 + 4 * length);
      ok := true;
    }
  }

  lemma WordsStep(path: Path, word: nat, rest: seq<byte>, at: nat, n: nat)
    requires 0 < n && at + 4 * n <= |rest| && word == BigEndian(rest[at..at + 4])
    ensures path + Words(rest, at, n) == (path + [word]) + Words(rest, at + 4, n - 1)
  {
    hide BigEndian;
  }

  lemma SliceOfSlice(s: seq<byte>, lo: nat, hi: nat, at: nat)
    requires lo <= hi <= |s| && at + 4 <= hi - lo
    ensures s[lo..hi][at..at + 4] == s[lo + at..lo + at + 4]
  {
    var t, u := s[lo..hi][at..at + 4], s[lo + at..lo + at + 4];
    assert t[0] == u[0] && t[1] == u[1] && t[2] == u[2] && t[3] == u[3];
    assert t == u;
  }

  /** `read_u32_be`. */
  function Word(ptr: array<byte>, at: nat): (w: nat)
    requires at + 4 <= ptr.Length
    reads ptr
    ensures w == BigEndian(ptr[at..at + 4]) && w < 0x1_0000_0000
  {
    ShiftForm32(ptr[at..at + 4]);
    OctetPowers();
    ptr[at] as int * 0x100_0000 + ptr[at + 1] as int * 0x1_0000 + ptr[at + 2] as int * 0x100 + ptr[at + 3]
  }
}
