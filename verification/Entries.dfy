/** Directory blocks: 128 slots of a 32-bit inode number and a 28-byte C string. */
module Entries {
  import opened Bytes
  import opened Layout
  import opened BlockMap

  /** A C string without its terminator. */
  type Str = s: seq<byte> | 0 !in s

  const SLOTS: nat := 128
  const NAME_FIELD: nat := 28
  const DOT: Str := [46]
  const DOTDOT: Str := [46, 46]

  datatype Entry = Entry(ino: nat, name: Str)

  const FREE: Entry := Entry(0, [])

  /** The string stored in a character field: everything before the first NUL. */
  function CStr(raw: seq<byte>): Str {
    if raw == [] || raw[0] == 0 then [] else [raw[0]] + CStr(raw[1..])
  }

  /** `strncpy` into a field of 27 characters and a NUL. */
  function Cut(name: Str): (s: Str)
    ensures |s| <= 27 && s <= name && |s| == if |name| <= 27 then |name| else 27
  {
    if |name| <= 27 then name else name[..27]
  }

  function Pad(name: Str): (raw: seq<byte>)
    requires |name| <= 27
    ensures |raw| == NAME_FIELD
  {
    name + seq(NAME_FIELD - |name|, _ => 0)
  }

  function EntryAt(b: Block, i: nat): Entry
    requires i < SLOTS
  {
    Entry(Word(b, 8 * i), CStr(b[32 * i + 4..32 * i + 32]))
  }

  function SetEntry(b: Block, i: nat, e: Entry): Block
    requires i < SLOTS && e.ino < WORD_LIMIT && |e.name| <= 27
  {
    b[..32 * i] + LittleEndian(e.ino) + Pad(e.name) + b[32 * i + 32..]
  }

  lemma {:induction false} CStrOfPadded(name: Str, raw: seq<byte>)
    requires |name| < |raw| && raw[..|name|] == name && raw[|name|] == 0
    ensures CStr(raw) == name
  {
    if name == [] {
    } else {
      assert raw[0] == name[0] && raw[0] in name;
      var rest := name[1..];
      assert raw[1..][..|rest|] == rest;
      CStrOfPadded(rest, raw[1..]);
    }
  }

  /** Storing an entry is a point update of the block read as an array of entries. */
  lemma EntryAfterSet(b: Block, i: nat, e: Entry, j: nat)
    requires i < SLOTS && e.ino < WORD_LIMIT && |e.name| <= 27 && j < SLOTS
    ensures EntryAt(SetEntry(b, i, e), j) == if i == j then e else EntryAt(b, j)
  {
    hide Word, CStr, SetEntry, Pad, LittleEndian;
    var c := SetEntry(b, i, e);
    if i == j {
      SetBytes(b, i, e);
      PaddedName(e.name);
      WordOfBytes(c, 8 * i, e.ino);
    } else {
      SetElsewhere(b, i, e, j);
      WordSame(b, c, 8 * j);
    }
  }

  lemma SetBytes(b: Block, i: nat, e: Entry)
    requires i < SLOTS && e.ino < WORD_LIMIT && |e.name| <= 27
    ensures var c := SetEntry(b, i, e);
            c[32 * i..32 * i + 4] == LittleEndian(e.ino) && c[32 * i + 4..32 * i + 32] == Pad(e.name)
  {
    hide LittleEndian, Pad;
  }

  lemma SetElsewhere(b: Block, i: nat, e: Entry, j: nat)
    requires i < SLOTS && e.ino < WORD_LIMIT && |e.name| <= 27 && j < SLOTS && i != j
    ensures var c := SetEntry(b, i, e);
            && c[32 * j + 4..32 * j + 32] == b[32 * j + 4..32 * j + 32]
            && forall k :: 32 * j <= k < 32 * j + 4 ==> c[k] == b[k]
  {
    hide LittleEndian, Pad;
    var c := SetEntry(b, i, e);
    forall k | 32 * j <= k < 32 * j + 32
      ensures c[k] == b[k]
    {
    }
  }

  lemma PaddedName(name: Str)
    requires |name| <= 27
    ensures CStr(Pad(name)) == name
  {
    hide CStr;
    assert Pad(name)[..|name|] == name;
    CStrOfPadded(name, Pad(name));
  }

  lemma WordOfBytes(c: Block, i: nat, w: nat)
    requires i < PTRS && w < WORD_LIMIT && c[4 * i..4 * i + 4] == LittleEndian(w)
    ensures Word(c, i) == w
  {
    RejoinWord(w);
  }

  lemma WordSame(b: Block, c: Block, i: nat)
    requires i < PTRS && forall k :: 4 * i <= k < 4 * i + 4 ==> c[k] == b[k]
    ensures Word(c, i) == Word(b, i)
  {
  }

  lemma ZeroEntries(i: nat)
    requires i < SLOTS
    ensures EntryAt(ZERO, i) == FREE
  {
    hide Word;
    ZeroWord(8 * i);
    CStrOfPadded([], ZERO[32 * i + 4..32 * i + 32]);
  }

  // ---- a directory as one flat list of entries ----

  ghost function BlocksFrom(d: Disk, t: Table, i: nat, lb: nat): (s: seq<Block>)
    ensures lb <= TRIPLE_END ==> lb + |s| <= TRIPLE_END
    decreases TRIPLE_END - lb
  {
    if lb >= TRIPLE_END then []
    else match Img(d, t, i, lb)
         case None => []
         case Some(b) => [b] + BlocksFrom(d, t, i, lb + 1)
  }

  /** The entries of a list of blocks, slot by slot. */
  ghost function Flat(blocks: seq<Block>): (es: seq<Entry>)
    ensures |es| == SLOTS * |blocks|
  {
    seq(SLOTS * |blocks|, (j: nat) requires j < SLOTS * |blocks| => EntryAt(blocks[j / SLOTS], j % SLOTS))
  }

  ghost function Ents(d: Disk, t: Table, i: nat): seq<Entry> {
    Flat(BlocksFrom(d, t, i, 0))
  }

  lemma {:induction false} BlocksFromImage(d: Disk, t: Table, i: nat, lb: nat, k: nat)
    requires lb <= k <= lb + |BlocksFrom(d, t, i, lb)| && k < TRIPLE_END
    ensures Img(d, t, i, k)
            == if k < lb + |BlocksFrom(d, t, i, lb)| then Some(BlocksFrom(d, t, i, lb)[k - lb]) else None
    decreases k - lb
  {
    hide Img;
    if k > lb {
      BlocksFromImage(d, t, i, lb + 1, k);
    }
  }

  /** A list of blocks that the image agrees with is a prefix of the directory. */
  lemma {:induction false} BlocksFromPrefix(d: Disk, t: Table, i: nat, lb: nat, bs: seq<Block>)
    requires lb + |bs| < TRIPLE_END
    requires forall k: nat :: lb <= k < lb + |bs| ==> Img(d, t, i, k) == Some(bs[k - lb])
    ensures BlocksFrom(d, t, i, lb) == bs + BlocksFrom(d, t, i, lb + |bs|)
    decreases |bs|
  {
    hide Img;
    if bs == [] {
    } else {
      assert Img(d, t, i, lb) == Some(bs[0]);
      forall k: nat | lb + 1 <= k < lb + |bs|
        ensures Img(d, t, i, k) == Some(bs[1..][k - (lb + 1)])
      {
      }
      BlocksFromPrefix(d, t, i, lb + 1, bs[1..]);
    }
  }

  lemma {:induction false} BlocksFromSameAbove(d: Disk, t: Table, d': Disk, t': Table, i: nat, lb: nat)
    requires forall k: nat :: lb <= k < TRIPLE_END ==> Img(d', t', i, k) == Img(d, t, i, k)
    ensures BlocksFrom(d', t', i, lb) == BlocksFrom(d, t, i, lb)
    decreases TRIPLE_END - lb
  {
    hide Img;
    if lb < TRIPLE_END {
      BlocksFromSameAbove(d, t, d', t', i, lb + 1);
    }
  }

  lemma EntsSame(d: Disk, t: Table, d': Disk, t': Table, i: nat)
    requires SameImg(d, t, d', t', i)
    ensures Ents(d', t', i) == Ents(d, t, i)
  {
    hide Img;
    BlocksFromSameAbove(d, t, d', t', i, 0);
  }

  lemma FlatUpdate(bs: seq<Block>, k: nat, i: nat, e: Entry)
    requires k < |bs| && i < SLOTS && e.ino < WORD_LIMIT && |e.name| <= 27
    ensures Flat(bs[k := SetEntry(bs[k], i, e)]) == Flat(bs)[SLOTS * k + i := e]
  {
    hide EntryAt, SetEntry;
    var f, g := Flat(bs[k := SetEntry(bs[k], i, e)]), Flat(bs)[SLOTS * k + i := e];
    forall j | 0 <= j < |f|
      ensures f[j] == g[j]
    {
      if j / SLOTS == k {
        EntryAfterSet(bs[k], i, e, j % SLOTS);
      }
    }
  }

  lemma FlatConcat(a: seq<Block>, b: seq<Block>)
    ensures Flat(a + b) == Flat(a) + Flat(b)
  {
    hide EntryAt;
    var f, g := Flat(a + b), Flat(a) + Flat(b);
    forall j | 0 <= j < |f|
      ensures f[j] == g[j]
    {
      if j >= SLOTS * |a| {
        var k := j - SLOTS * |a|;
        assert j / SLOTS == |a| + k / SLOTS && j % SLOTS == k % SLOTS;
      }
    }
  }

  /** A fresh directory block holding one entry. */
  lemma FlatFresh(e: Entry)
    requires e.ino < WORD_LIMIT && |e.name| <= 27
    ensures Flat([SetEntry(ZERO, 0, e)]) == [e] + seq(SLOTS - 1, _ => FREE)
  {
    hide EntryAt, SetEntry;
    var f, g := Flat([SetEntry(ZERO, 0, e)]), [e] + seq(SLOTS - 1, _ => FREE);
    forall j | 0 <= j < SLOTS
      ensures f[j] == g[j]
    {
      EntryAfterSet(ZERO, 0, e, j);
      ZeroEntries(j);
    }
  }

  // ---- searching ----

  /** What a scan over the slots of a directory looks for. */
  datatype Query = ByName(name: Str) | ByIno(ino: nat) | FreeSlot | NotDots

  /** `strncmp(stored, name, 28) == 0` */
  predicate Matches(stored: Str, name: Str) {
    stored == if |name| <= NAME_FIELD then name else name[..NAME_FIELD]
  }

  predicate Hits(q: Query, e: Entry) {
    match q
    case ByName(name) => e.ino != 0 && Matches(e.name, name)
    case ByIno(n) => e.ino == n
    case FreeSlot => e.ino == 0
    case NotDots => e.ino != 0 && e.name != DOT && e.name != DOTDOT
  }

  /** The first slot from `k` on that the query hits, |es| when there is none. */
  ghost function FirstHit(es: seq<Entry>, q: Query, k: nat): (j: nat)
    requires k <= |es|
    ensures k <= j <= |es|
    ensures forall x :: k <= x < j ==> !Hits(q, es[x])
    ensures j < |es| ==> Hits(q, es[j])
    decreases |es| - k
  {
    if k == |es| || Hits(q, es[k]) then k else FirstHit(es, q, k + 1)
  }

  lemma FirstHitIs(es: seq<Entry>, q: Query, j: nat)
    requires j <= |es| && (j < |es| ==> Hits(q, es[j])) && forall x :: 0 <= x < j ==> !Hits(q, es[x])
    ensures FirstHit(es, q, 0) == j
  {
  }

  /** The inode a name stands for in a list of entries. */
  ghost function Lookup(es: seq<Entry>, name: Str): Option<nat> {
    var j := FirstHit(es, ByName(name), 0);
    if j < |es| then Some(es[j].ino) else None
  }
}
