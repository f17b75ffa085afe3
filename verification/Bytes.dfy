/** Disk blocks as byte sequences, and the 32-bit little-endian words the C code
    reads out of them by casting a block buffer to `uint32_t *`. */
module Bytes {
  type byte = b: int | 0 <= b < 256

  type u32 = n: nat | n < 0x1_0000_0000

  const BLOCK_SIZE: nat := 4096
  // OSCDFS_INDIRECT_POINTERS
  const PTRS: nat := 1024
  const WORD_LIMIT: nat := 0x1_0000_0000

  type Block = b: seq<byte> | |b| == BLOCK_SIZE witness seq(BLOCK_SIZE, _ => 0)

  const ZERO: Block := seq(BLOCK_SIZE, _ => 0)

  datatype Option<+T> = None | Some(value: T)

  /** 32-bit wrap-around of an unsigned C addition or subtraction. */
  function U32(x: int): (r: nat)
    ensures r < WORD_LIMIT
    ensures 0 <= x < WORD_LIMIT ==> r == x
  {
    x % WORD_LIMIT
  }

  function Word(b: Block, i: nat): u32
    requires i < PTRS
  {
    var b0: int, b1: int, b2: int, b3: int := b[4 * i], b[4 * i + 1], b[4 * i + 2], b[4 * i + 3];
    b0 + 0x100 * b1 + 0x1_0000 * b2 + 0x100_0000 * b3
  }

  function LittleEndian(w: nat): (s: seq<byte>)
    requires w < WORD_LIMIT
    ensures |s| == 4
  {
    [w % 0x100, (w / 0x100) % 0x100, (w / 0x1_0000) % 0x100, w / 0x100_0000]
  }

  function SetWord(b: Block, i: nat, w: nat): Block
    requires i < PTRS && w < WORD_LIMIT
  {
    b[..4 * i] + LittleEndian(w) + b[4 * i + 4..]
  }

  /** Storing a word is a point update of the block read as an array of words. */
  lemma WordAfterSet(b: Block, i: nat, w: nat, j: nat)
    requires i < PTRS && w < WORD_LIMIT && j < PTRS
    ensures Word(SetWord(b, i, w), j) == if i == j then w else Word(b, j)
  {
    var c := SetWord(b, i, w);
    if i == j {
      assert c[4 * i..4 * i + 4] == LittleEndian(w);
      RejoinWord(w);
    } else {
      assert forall k :: 4 * j <= k < 4 * j + 4 ==> c[k] == b[k];
    }
  }

  lemma RejoinWord(w: nat)
    requires w < WORD_LIMIT
    ensures w == w % 0x100 + 0x100 * ((w / 0x100) % 0x100)
                 + 0x1_0000 * ((w / 0x1_0000) % 0x100) + 0x100_0000 * (w / 0x100_0000)
  {
    assert w / 0x1_0000 == (w / 0x100) / 0x100;
    assert w / 0x100_0000 == (w / 0x1_0000) / 0x100;
  }

  lemma ZeroWord(j: nat)
    requires j < PTRS
    ensures Word(ZERO, j) == 0
  {
  }

  /** Any finite list of distinct numbers from [lo, hi) has at most hi - lo members. */
  lemma {:induction false} Pigeonhole(s: seq<nat>, lo: nat, hi: nat)
    requires lo <= hi
    requires forall i :: 0 <= i < |s| ==> lo <= s[i] < hi
    requires forall i, j :: 0 <= i < j < |s| ==> s[i] != s[j]
    ensures |s| <= hi - lo
    decreases hi
  {
    if s == [] {
      return;
    }
    assert lo <= s[0] < hi;
    if hi - 1 in s {
      var k :| 0 <= k < |s| && s[k] == hi - 1;
      var t := s[..k] + s[k + 1..];
      forall i | 0 <= i < |t|
        ensures lo <= t[i] < hi - 1
      {
        var i' := if i < k then i else i + 1;
        assert t[i] == s[i'] && i' != k;
        assert s[i'] != s[k];
      }
      Pigeonhole(t, lo, hi - 1);
    } else {
      forall i | 0 <= i < |s|
        ensures lo <= s[i] < hi - 1
      {
        assert s[i] in s;
      }
      Pigeonhole(s, lo, hi - 1);
    }
  }
}
