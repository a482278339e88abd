/** The bytes of a ListFS image: little-endian words, index blocks and file headers, as
    make_listfs writes them and the boot loader reads them. */
module ListFsFormat {

  type Byte = b: int | 0 <= b < 256
  type Sector = seq<Byte>
  type Image = seq<Sector>

  /** (uint64)-1, and the same read through two 16-bit registers. */
  const NO_BLOCK: nat := 0xFFFF_FFFF_FFFF_FFFF
  const NO_BLOCK32: nat := 0xFFFF_FFFF
  const TWO32: nat := 0x1_0000_0000
  const TWO64: nat := 0x1_0000_0000_0000_0000

  // ------------------------------------------------------------ words

  /** Byte j of v, least significant first. */
  function Le(v: nat, j: nat): Byte {
    if j == 0 then v % 256 else Le(v / 256, j - 1)
  }

  /** Four bytes at `off`: dx:ax after lodsw and a word load. */
  function Read32(s: Sector, off: nat): (r: nat)
    requires off + 4 <= |s|
    ensures r < TWO32
  {
    Word32(s[off], s[off+1], s[off+2], s[off+3])
  }

  function Word32(b0: int, b1: int, b2: int, b3: int): int {
    b0 + 256 * (b1 + 256 * (b2 + 256 * b3))
  }

  function Read64(s: Sector, off: nat): nat
    requires off + 8 <= |s|
  {
    Read32(s, off) + TWO32 * Read32(s, off + 4)
  }

  ghost predicate HasWord(s: Sector, off: nat, v: nat) {
    off + 8 <= |s| && forall j :: 0 <= j < 8 ==> s[off + j] == Le(v, j)
  }

  lemma LeWords(v: nat)
    ensures Word32(Le(v, 0), Le(v, 1), Le(v, 2), Le(v, 3)) == v % TWO32
    ensures v < TWO64 ==> Word32(Le(v, 4), Le(v, 5), Le(v, 6), Le(v, 7)) == v / TWO32
  {
    var q := LowWord(v);
    var q2 := LowWord(q);
    DivMod(v, q, Word32(Le(v, 0), Le(v, 1), Le(v, 2), Le(v, 3)));
  }

  /** Four bytes off the bottom. */
  lemma LowWord(v: nat) returns (q: nat)
    ensures v == TWO32 * q + Word32(Le(v, 0), Le(v, 1), Le(v, 2), Le(v, 3))
    ensures 0 <= Word32(Le(v, 0), Le(v, 1), Le(v, 2), Le(v, 3)) < TWO32
    ensures forall j: nat :: Le(v, j + 4) == Le(q, j)
  {
    var v1 := v / 256;
    var v2 := v1 / 256;
    var v3 := v2 / 256;
    q := v3 / 256;
    LeNext(v, 1);
    LeNext(v, 2);
    LeNext(v1, 1);
    LeNext(v, 3);
    LeNext(v1, 2);
    LeNext(v2, 1);
    forall j: nat
      ensures Le(v, j + 4) == Le(q, j)
    {
      LeNext(v, j + 4);
      LeNext(v1, j + 3);
      LeNext(v2, j + 2);
      LeNext(v3, j + 1);
    }
  }

  lemma LeNext(v: nat, j: nat)
    requires j >= 1
    ensures Le(v, j) == Le(v / 256, j - 1)
  {
  }

  lemma DivMod(v: nat, q: nat, r: nat)
    requires v == TWO32 * q + r && r < TWO32
    ensures v / TWO32 == q && v % TWO32 == r
  {
  }

  /** A stored word reads back: its low half through 32 bits, all of it through 64. */
  lemma WordReadsBack(s: Sector, off: nat, v: nat)
    requires HasWord(s, off, v)
    ensures Read32(s, off) == v % TWO32
    ensures v < TWO64 ==> Read64(s, off) == v
  {
    LeWords(v);
    assert s[off + 0] == Le(v, 0) && s[off + 1] == Le(v, 1) && s[off + 2] == Le(v, 2) && s[off + 3] == Le(v, 3);
    assert s[off + 4] == Le(v, 4) && s[off + 5] == Le(v, 5) && s[off + 6] == Le(v, 6) && s[off + 7] == Le(v, 7);
  }

  function Word64(b0: int, b1: int, b2: int, b3: int, b4: int, b5: int, b6: int, b7: int): int {
    b0 + 0x100 * b1 + 0x1_0000 * b2 + 0x100_0000 * b3
    + 0x1_0000_0000 * b4 + 0x100_0000_0000 * b5 + 0x1_0000_0000_0000 * b6 + 0x100_0000_0000_0000 * b7
  }

  /** Eight bytes of a stored word, the least significant first. */
  lemma WordBytes(s: Sector, off: nat, v: nat)
    requires HasWord(s, off, v) && v < TWO64
    ensures v == Word64(s[off], s[off+1], s[off+2], s[off+3], s[off+4], s[off+5], s[off+6], s[off+7])
  {
    hide HasWord;
    WordReadsBack(s, off, v);
  }

  /** A number of 64 bits stored at an offset, least significant byte first. */
  ghost predicate StoredAt(s: Sector, off: nat, v: nat) {
    off + 8 <= |s| && (v < TWO64 ==> Read64(s, off) == v)
  }

  lemma StoredWord(s: Sector, off: nat, v: nat)
    requires HasWord(s, off, v)
    ensures StoredAt(s, off, v)
  {
    WordReadsBack(s, off, v);
  }

  // ------------------------------------------------------------ index blocks

  /** block_list: `bs / 8` words. */
  function IndexSector(entries: seq<nat>): (s: Sector)
    ensures |s| == 8 * |entries|
  {
    seq(8 * |entries|, k requires 0 <= k < 8 * |entries| => Le(entries[k / 8], k % 8))
  }

  lemma IndexEntry(entries: seq<nat>, i: nat)
    requires i < |entries|
    ensures HasWord(IndexSector(entries), 8 * i, entries[i])
  {
    forall j | 0 <= j < 8
      ensures IndexSector(entries)[8 * i + j] == Le(entries[i], j)
    {
      assert (8 * i + j) / 8 == i && (8 * i + j) % 8 == j;
    }
  }

  // ------------------------------------------------------------ file headers

  const NAME_SIZE: nat := 256
  const NEXT_AT: nat := 256
  const PREV_AT: nat := 264
  const PARENT_AT: nat := 272
  const FLAGS_AT: nat := 280
  const DATA_AT: nat := 288
  const SIZE_AT: nat := 296
  const HEADER_SIZE: nat := 328

  /** listfs_file_header; the three times are kept together. */
  datatype Header = Header(name: seq<Byte>, next: nat, prev: nat, parent: nat, flags: nat, data: nat, size: nat,
      times: seq<nat>)

  function Fields(h: Header): seq<nat> {
    [h.next, h.prev, h.parent, h.flags, h.data, h.size] + h.times
  }

  /** The block that holds a header: the name zero-padded to 256 bytes, the words, zeros. */
  function HeaderSector(h: Header, bs: nat): (s: Sector)
    requires |h.name| < NAME_SIZE && |h.times| == 3 && bs >= HEADER_SIZE
    ensures |s| == bs
  {
    seq(bs, k requires 0 <= k < bs => HeaderByte(h, k))
  }

  function HeaderByte(h: Header, k: nat): Byte
    requires |h.name| < NAME_SIZE && |h.times| == 3
  {
    if k < |h.name| then h.name[k]
    else if k < NAME_SIZE then 0
    else if k < HEADER_SIZE then Le(Fields(h)[(k - NAME_SIZE) / 8], (k - NAME_SIZE) % 8)
    else 0
  }

  lemma HeaderWord(h: Header, bs: nat, i: nat)
    requires |h.name| < NAME_SIZE && |h.times| == 3 && bs >= HEADER_SIZE && i < 9
    ensures HasWord(HeaderSector(h, bs), NAME_SIZE + 8 * i, Fields(h)[i])
  {
    forall j | 0 <= j < 8
      ensures HeaderSector(h, bs)[NAME_SIZE + 8 * i + j] == Le(Fields(h)[i], j)
    {
      assert (8 * i + j) / 8 == i && (8 * i + j) % 8 == j;
    }
  }

  /** listfs_file_header byte by byte: the name, then at eight bytes each next, prev, parent, flags,
      data, size, and the times of creation, modification and access. */
  lemma HeaderLayout(h: Header, bs: nat)
    requires |h.name| < 256 && |h.times| == 3 && bs >= 328
    ensures var s := HeaderSector(h, bs);
            && s[..|h.name|] == h.name && (forall k :: |h.name| <= k < 256 ==> s[k] == 0)
            && StoredAt(s, 256, h.next) && StoredAt(s, 264, h.prev) && StoredAt(s, 272, h.parent)
            && StoredAt(s, 280, h.flags) && StoredAt(s, 288, h.data) && StoredAt(s, 296, h.size)
            && StoredAt(s, 304, h.times[0]) && StoredAt(s, 312, h.times[1]) && StoredAt(s, 320, h.times[2])
            && (forall k :: 328 <= k < bs ==> s[k] == 0)
  {
    hide HeaderSector, StoredAt, Fields;
    NameAndRest(h, bs);
    NineFields(h);
    FieldStored(h, bs, 0);
    FieldStored(h, bs, 1);
    FieldStored(h, bs, 2);
    FieldStored(h, bs, 3);
    FieldStored(h, bs, 4);
    FieldStored(h, bs, 5);
    FieldStored(h, bs, 6);
    FieldStored(h, bs, 7);
    FieldStored(h, bs, 8);
  }

  lemma NameAndRest(h: Header, bs: nat)
    requires |h.name| < NAME_SIZE && |h.times| == 3 && bs >= HEADER_SIZE
    ensures var s := HeaderSector(h, bs);
            && |s| == bs && s[..|h.name|] == h.name && (forall k :: |h.name| <= k < NAME_SIZE ==> s[k] == 0)
            && (forall k :: HEADER_SIZE <= k < bs ==> s[k] == 0)
  {
  }

  lemma NineFields(h: Header)
    requires |h.times| == 3
    ensures |Fields(h)| == 9 && Fields(h)[0] == h.next && Fields(h)[1] == h.prev && Fields(h)[2] == h.parent
    ensures Fields(h)[3] == h.flags && Fields(h)[4] == h.data && Fields(h)[5] == h.size
    ensures Fields(h)[6] == h.times[0] && Fields(h)[7] == h.times[1] && Fields(h)[8] == h.times[2]
  {
  }

  lemma FieldStored(h: Header, bs: nat, i: nat)
    requires |h.name| < NAME_SIZE && |h.times| == 3 && bs >= HEADER_SIZE && i < 9
    ensures StoredAt(HeaderSector(h, bs), NAME_SIZE + 8 * i, Fields(h)[i])
  {
    hide HasWord, Read64, Read32, HeaderSector, Fields;
    HeaderWord(h, bs, i);
    NineFields(h);
    StoredWord(HeaderSector(h, bs), NAME_SIZE + 8 * i, Fields(h)[i]);
  }

  /** strlen from the front of a sector. */
  function NameLength(s: Sector, from: nat): (n: nat)
    requires from <= |s|
    ensures from <= n <= |s|
    decreases |s| - from
  {
    if from == |s| || s[from] == 0 then from else NameLength(s, from + 1)
  }

  function ReadName(s: Sector): seq<Byte> {
    s[..NameLength(s, 0)]
  }

  lemma {:induction false} NameLengthIs(s: Sector, from: nat, n: nat)
    requires from <= n < |s| && s[n] == 0 && forall k :: from <= k < n ==> s[k] != 0
    ensures NameLength(s, from) == n
    decreases n - from
  {
    if from < n { NameLengthIs(s, from + 1, n); }
  }

  /** A name without zero bytes reads back. */
  lemma NameReadsBack(h: Header, bs: nat)
    requires |h.name| < NAME_SIZE && |h.times| == 3 && bs >= HEADER_SIZE && 0 !in h.name
    ensures ReadName(HeaderSector(h, bs)) == h.name
    ensures NameLength(HeaderSector(h, bs), 0) == |h.name|
  {
    var s := HeaderSector(h, bs);
    forall k | 0 <= k < |h.name|
      ensures s[k] != 0
    {
      assert h.name[k] in h.name;
    }
    NameLengthIs(s, 0, |h.name|);
  }

  // ------------------------------------------------------------ data blocks

  /** A chunk in a block that was cleared first. */
  function DataSector(chunk: seq<Byte>, bs: nat): (s: Sector)
    requires |chunk| <= bs
    ensures |s| == bs && s[..|chunk|] == chunk
  {
    chunk + Zeros(bs - |chunk|)
  }

  function Zeros(n: nat): (s: Sector)
    ensures |s| == n && forall k :: 0 <= k < n ==> s[k] == 0
  {
    seq(n, _ => 0)
  }

  /** Bytes zero-padded to whole blocks. */
  function Padded(bytes: seq<Byte>, bs: nat): (s: seq<Byte>)
    requires bs >= 1
    decreases |bytes|
  {
    if bytes == [] then []
    else if |bytes| <= bs then DataSector(bytes, bs)
    else bytes[..bs] + Padded(bytes[bs..], bs)
  }

  /** The number of blocks that hold so many bytes. */
  function Blocks(n: nat, bs: nat): nat
    requires bs >= 1
  {
    if n == 0 then 0 else if n <= bs then 1 else 1 + Blocks(n - bs, bs)
  }

  lemma {:induction false} PaddedStartsWith(bytes: seq<Byte>, bs: nat)
    requires bs >= 1
    ensures |bytes| <= |Padded(bytes, bs)| == Blocks(|bytes|, bs) * bs
    ensures Padded(bytes, bs)[..|bytes|] == bytes
    ensures forall k :: |bytes| <= k < |Padded(bytes, bs)| ==> Padded(bytes, bs)[k] == 0
    decreases |bytes|
  {
    if |bytes| > bs {
      PaddedStartsWith(bytes[bs..], bs);
      var p := Padded(bytes[bs..], bs);
      assert Padded(bytes, bs) == bytes[..bs] + p;
      Distribute(Blocks(|bytes| - bs, bs), bs);
    }
  }

  lemma Distribute(n: nat, bs: nat)
    ensures (1 + n) * bs == bs + n * bs
  {
  }
}
