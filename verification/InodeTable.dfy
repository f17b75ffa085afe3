/** The inode table: four blocks of fixed-size records, addressed by byte offset. */
module InodeTable {
  import opened Bytes
  import opened Layout

  const TABLE_BLOCKS: nat := 4
  // The record size that the table is laid out for: 32 words.
  const RECORD: nat := 128
  const RECORD_WORDS: nat := RECORD / 4
  // sizeof(struct oscdfs_inode) as declared: 34 words.
  const COMPILED_RECORD: nat := 136

  const S_IFDIR: u32 := 0x4000
  const DIR_MODE: u32 := 0x41ED
  const FILE_MODE: u32 := 0x81A4

  // ---- where the records lie ----

  /** Index in the table of the block that record `i` begins in, for records of `size` bytes. */
  function SlotBlock(size: nat, i: nat): nat {
    (i * size) / BLOCK_SIZE
  }

  function SlotOffset(size: nat, i: nat): (o: nat)
    ensures o < BLOCK_SIZE
  {
    (i * size) % BLOCK_SIZE
  }

  /** Record `i` lies in one block, and that block is part of the table. */
  predicate InOneBlock(size: nat, i: nat) {
    SlotBlock(size, i) < TABLE_BLOCKS && SlotOffset(size, i) + size <= BLOCK_SIZE
  }

  /** Records that lie in one block each do not overlap, whatever their size. */
  lemma SlotsAreDisjoint(size: nat, i: nat, j: nat)
    requires i < j && InOneBlock(size, i) && SlotBlock(size, i) == SlotBlock(size, j)
    ensures SlotOffset(size, i) + size <= SlotOffset(size, j)
  {
    assert i * size == SlotBlock(size, i) * BLOCK_SIZE + SlotOffset(size, i);
    assert j * size == SlotBlock(size, j) * BLOCK_SIZE + SlotOffset(size, j);
    Monotone(size, i + 1, j);
    assert (i + 1) * size == i * size + size;
  }

  lemma Monotone(size: nat, a: nat, b: nat)
    requires a <= b
    ensures a * size <= b * size
  {
  }

  /** With 128-byte records all 128 inodes lie in the table, 32 to a block. */
  lemma IntendedSlots(i: nat)
    requires i < TOTAL_INODES
    ensures InOneBlock(RECORD, i) && SlotBlock(RECORD, i) == i / 32 && SlotOffset(RECORD, i) == RECORD * (i % 32)
  {
    assert i * RECORD == BLOCK_SIZE * (i / 32) + RECORD * (i % 32);
  }

  /** With the 136 bytes that the declared fields take, exactly these inode numbers are stored and read back
      within the table: records 30, 60, 90 and 120 run over the end of their block, and record 121 on begin
      behind the table, in the block of the user table. */
  lemma CompiledSlots(i: nat)
    requires i < TOTAL_INODES
    ensures InOneBlock(COMPILED_RECORD, i) <==> i < 121 && i != 30 && i != 60 && i != 90 && i != 120
    ensures SlotBlock(COMPILED_RECORD, i) < TABLE_BLOCKS <==> i < 121
    ensures SlotBlock(COMPILED_RECORD, 30) == 0 && SlotOffset(COMPILED_RECORD, 30) + COMPILED_RECORD > BLOCK_SIZE
    ensures SlotBlock(COMPILED_RECORD, 121) == TABLE_BLOCKS
  {
    var q := SlotBlock(COMPILED_RECORD, i);
    assert i * COMPILED_RECORD == q * BLOCK_SIZE + SlotOffset(COMPILED_RECORD, i);
    assert q <= 4;
  }

  // ---- the words of a record ----

  function KindOf(mode: u32): Kind {
    if (mode / S_IFDIR) % 2 == 1 then Dir else File
  }

  lemma ModesAreRight()
    ensures KindOf(DIR_MODE) == Dir && KindOf(FILE_MODE) == File && KindOf(0) == File
  {
  }

  /** Word `f` of the record of an inode. Words that the model does not keep (owner, times, permission bits,
      reserved words) stay as they are. */
  function RecordWord(inode: Inode, f: nat, was: u32): u32 {
    if f == 0 then
      (if KindOf(was) == inode.kind then was else if inode.kind == Dir then DIR_MODE else FILE_MODE)
    else if f == 3 then inode.size
    else if 7 <= f < 19 then inode.blocks[f - 7]
    else if f == 19 then inode.indirect
    else if f == 20 then inode.doubleIndirect
    else if f == 21 then inode.tripleIndirect
    else was
  }

  function Words(buf: Block, from: nat, n: nat): (ws: seq<u32>)
    requires from + n <= PTRS
    ensures |ws| == n && forall k :: 0 <= k < n ==> ws[k] == Word(buf, from + k)
  {
    if n == 0 then [] else Words(buf, from, n - 1) + [Word(buf, from + n - 1)]
  }

  /** The inode in the record that begins at word `base` of a block. */
  function InodeAt(buf: Block, base: nat): Inode
    requires base + RECORD_WORDS <= PTRS
  {
    RawInode.Inode(KindOf(Word(buf, base)), Word(buf, base + 3), Words(buf, base + 7, 12),
                   Word(buf, base + 19), Word(buf, base + 20), Word(buf, base + 21))
  }

  function Base(i: nat): (b: nat)
    ensures b + RECORD_WORDS <= PTRS
  {
    RECORD_WORDS * (i % 32)
  }

  /** Of the words of a block exactly those of the record at `base` have become those of the inode. */
  ghost predicate RecordIn(before: Block, after: Block, base: nat, inode: Inode)
    requires base + RECORD_WORDS <= PTRS
  {
    forall x :: 0 <= x < PTRS ==>
      Word(after, x) == if base <= x < base + RECORD_WORDS then RecordWord(inode, x - base, Word(before, x))
                        else Word(before, x)
  }

  /** `memcpy` of an inode over its record in a block buffer. */
  method StoreRecord(old_: Block, base: nat, inode: Inode) returns (buf: Block)
    requires base + RECORD_WORDS <= PTRS
    ensures InodeAt(buf, base) == inode && RecordIn(old_, buf, base, inode)
  {
    hide Word, SetWord, KindOf;
    buf := old_;
    for f := 0 to RECORD_WORDS
      invariant forall x :: 0 <= x < PTRS ==>
        Word(buf, x) == if base <= x < base + f then RecordWord(inode, x - base, Word(old_, x)) else Word(old_, x)
    {
      ghost var was := buf;
      buf := SetWord(buf, base + f, RecordWord(inode, f, Word(buf, base + f)));
      forall x | 0 <= x < PTRS
        ensures Word(buf, x) == if x == base + f then RecordWord(inode, f, Word(was, base + f)) else Word(was, x)
      {
        WordAfterSet(was, base + f, RecordWord(inode, f, Word(was, base + f)), x);
      }
    }
    ModesAreRight();
    StoredRecord(old_, buf, base, inode);
  }

  lemma StoredRecord(old_: Block, buf: Block, base: nat, inode: Inode)
    requires base + RECORD_WORDS <= PTRS
    requires forall x :: base <= x < base + RECORD_WORDS ==> Word(buf, x) == RecordWord(inode, x - base, Word(old_, x))
    ensures InodeAt(buf, base) == inode
  {
    hide Word, KindOf;
    ModesAreRight();
    var got := InodeAt(buf, base);
    assert Word(buf, base) == RecordWord(inode, 0, Word(old_, base));
    assert got.kind == inode.kind && got.size == inode.size;
    forall k | 0 <= k < 12
      ensures got.blocks[k] == inode.blocks[k]
    {
      assert Word(buf, base + 7 + k) == RecordWord(inode, 7 + k, Word(old_, base + 7 + k));
    }
    assert got.blocks == inode.blocks;
  }

  // ---- the table as a list of inodes ----

  /** The table blocks hold the records of `inodes`. */
  ghost predicate TableReads(table: seq<Block>, inodes: seq<Inode>) {
    && |table| == TABLE_BLOCKS && |inodes| == TOTAL_INODES
    && forall i :: 0 <= i < TOTAL_INODES ==> inodes[i] == InodeAt(table[i / 32], Base(i))
  }

  /** Nothing but the record of inode `i` has changed in the table, and in it no word that an inode does not hold. */
  ghost predicate RecordStored(table: seq<Block>, table': seq<Block>, i: nat, inode: Inode) {
    && |table'| == |table| == TABLE_BLOCKS && i < TOTAL_INODES
    && (forall b :: 0 <= b < TABLE_BLOCKS && b != i / 32 ==> table'[b] == table[b])
    && RecordIn(table[i / 32], table'[i / 32], Base(i), inode)
  }

  lemma SameWordsSameInode(a: Block, b: Block, base: nat)
    requires base + RECORD_WORDS <= PTRS
    requires forall x :: base <= x < base + RECORD_WORDS ==> Word(b, x) == Word(a, x)
    ensures InodeAt(b, base) == InodeAt(a, base)
  {
    hide Word, KindOf;
    assert InodeAt(b, base).blocks == InodeAt(a, base).blocks;
  }

  /** Rewriting one record in its block is a point update of the list of inodes. */
  lemma RecordIsPoint(table: seq<Block>, inodes: seq<Inode>, i: nat, inode: Inode, buf: Block)
    requires TableReads(table, inodes) && i < TOTAL_INODES
    requires InodeAt(buf, Base(i)) == inode && RecordIn(table[i / 32], buf, Base(i), inode)
    ensures TableReads(table[i / 32 := buf], inodes[i := inode])
    ensures RecordStored(table, table[i / 32 := buf], i, inode)
  {
    hide Word, InodeAt;
    var table' := table[i / 32 := buf];
    forall j | 0 <= j < TOTAL_INODES
      ensures inodes[i := inode][j] == InodeAt(table'[j / 32], Base(j))
    {
      if j != i && j / 32 == i / 32 {
        BasesApart(i, j);
        SameWordsSameInode(table[i / 32], buf, Base(j));
      }
    }
  }

  lemma BasesApart(i: nat, j: nat)
    requires i != j && i / 32 == j / 32
    ensures Base(i) + RECORD_WORDS <= Base(j) || Base(j) + RECORD_WORDS <= Base(i)
  {
  }

  lemma ZeroTable()
    ensures TableReads(seq(TABLE_BLOCKS, _ => ZERO), seq(TOTAL_INODES, _ => FreshInode(File)))
  {
    hide Word, KindOf;
    ModesAreRight();
    forall i | 0 <= i < TOTAL_INODES
      ensures InodeAt(ZERO, Base(i)) == FreshInode(File)
    {
      forall x | 0 <= x < PTRS
        ensures Word(ZERO, x) == 0
      {
        ZeroWord(x);
      }
      assert InodeAt(ZERO, Base(i)).blocks == FreshInode(File).blocks;
    }
  }
}
