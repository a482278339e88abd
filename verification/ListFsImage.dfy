/** The whole run of make_listfs: loader blocks, bitmap, directory tree, header block. */
module ListFsImage {
  import opened ListFsFormat
  import opened ListFsLayout
  import opened ListFsBuilder
  import Bits

  // ------------------------------------------------------------ loader accounting

  /** Rounds of the loop of lines 143-148 with r bytes left: the last one comes up short. */
  function LoopRounds(r: nat, bs: nat): nat
    requires bs >= 1
  {
    if r < bs then 1 else 1 + LoopRounds(r - bs, bs)
  }

  /** boot_loader_extra_blocks after lines 133-150 for a loader of n bytes. */
  function ExtraBlocks(n: nat, bs: nat): nat
    requires bs >= 1
  {
    if n < bs then 0 else LoopRounds(n - bs, bs)
  }

  /** n is a whole number of blocks. */
  predicate Whole(n: nat, bs: nat)
    requires bs >= 1
  {
    n == 0 || (n >= bs && Whole(n - bs, bs))
  }

  lemma {:induction false} RoundsAgainstBlocks(r: nat, bs: nat)
    requires bs >= 1
    ensures LoopRounds(r, bs) == if Whole(r, bs) then 1 + Blocks(r, bs) else Blocks(r, bs)
  {
    if r >= bs {
      RoundsAgainstBlocks(r - bs, bs);
    }
  }

  /** Line 188 as written starts the map behind the header block and the loader exactly when
      the loader is a positive number of whole blocks. */
  lemma MapBaseIff(n: nat, bs: nat)
    requires bs >= 1
    ensures ExtraBlocks(n, bs) >= 1 && ExtraBlocks(n, bs) >= Blocks(n, bs) <==> n >= 1 && Whole(n, bs)
  {
    if n >= bs { RoundsAgainstBlocks(n - bs, bs); }
  }

  /** A loader one byte over a block: the map would start in the loader's second block. */
  lemma MapBaseFailure()
    ensures ExtraBlocks(513, 512) == 1 && Blocks(513, 512) == 2
  {
  }

  // ------------------------------------------------------------ bitmap size

  /** Lines 189-192. */
  function MapBlocks(bs: nat, blockCount: nat): nat
    requires bs >= 1
  {
    var m := blockCount / 8;
    (if m % bs != 0 then m + bs else m) / bs
  }

  /** Bits in a map of so many blocks. */
  function MapBits(bs: nat, mapSize: nat): nat {
    8 * (mapSize * bs)
  }

  lemma MapBlocksIs(bs: nat, m: nat, q: nat, r: nat)
    requires bs >= 1 && m == q * bs + r && r < bs
    ensures m / bs == q && m % bs == r && (m + bs) / bs == q + 1
  {
    Bits.Quotient(m, bs, q, r);
    assert m + bs == (q + 1) * bs + r;
    Bits.Quotient(m + bs, bs, q + 1, r);
  }

  /** It is the least number of blocks for an eighth of the block count, rounded down, in bytes. */
  lemma MapBlocksExact(bs: nat, blockCount: nat)
    requires bs >= 1
    ensures blockCount / 8 <= MapBlocks(bs, blockCount) * bs < blockCount / 8 + bs
  {
    var m := blockCount / 8;
    var q, r := m / bs, m % bs;
    MapBlocksIs(bs, m, q, r);
    assert (q + 1) * bs == q * bs + bs;
  }

  /** The bitmap as sized there has a bit for every block exactly when the block count is a
      multiple of 8 or its eighth is not a whole number of blocks. */
  lemma MapRoomIff(bs: nat, blockCount: nat)
    requires bs >= 1
    ensures MapBits(bs, MapBlocks(bs, blockCount)) >= blockCount <==> blockCount % 8 == 0 || (blockCount / 8) % bs != 0
  {
    var m := blockCount / 8;
    var q, r := m / bs, m % bs;
    assert m == q * bs + r;
    MapBlocksIs(bs, m, q, r);
    assert (q + 1) * bs == q * bs + bs;
  }

  // ------------------------------------------------------------ the header block

  const MAGIC: nat := 0x84837376
  const VERSION: nat := 1
  const FIRST_FILE_AT: nat := 48

  /** The listfs_header fields laid over the first block of the loader. */
  function FsHeaderByte(first: Sector, words: seq<nat>, bs: nat, k: nat): Byte
    requires |words| == 6 && k < |first|
  {
    if 4 <= k < 8 then Le(MAGIC, k - 4)
    else if 8 <= k < 12 then Le(VERSION, k - 8)
    else if 12 <= k < 16 then 0
    else if 16 <= k < 64 then Le(words[(k - 16) / 8], (k - 16) % 8)
    else if 64 <= k < 68 then Le(bs, k - 64)
    else first[k]
  }

  /** `words`: base, size, map_base, map_size, first_file, uid. */
  function FsHeader(first: Sector, words: seq<nat>, bs: nat): (s: Sector)
    requires |words| == 6
    ensures |s| == |first|
  {
    seq(|first|, k requires 0 <= k < |first| => FsHeaderByte(first, words, bs, k))
  }

  /** Every field of the header block reads back, and the rest of it is still the loader. */
  lemma FsHeaderReadsBack(first: Sector, words: seq<nat>, bs: nat)
    requires |words| == 6 && |first| >= HEADER_SIZE
    ensures var s := FsHeader(first, words, bs);
            && Read32(s, 4) == 0x8483_7376 && Read32(s, 8) == 1 && Read32(s, 12) == 0
            && (bs < TWO32 ==> Read32(s, 64) == bs)
            && (forall i :: 0 <= i < 6 && words[i] < TWO64 ==> Read64(s, 16 + 8 * i) == words[i])
            && s[..4] == first[..4] && s[68..] == first[68..]
  {
    hide FsHeaderByte, Read32, Read64;
    var s := FsHeader(first, words, bs);
    SmallFields(first, words, bs);
    ReadsLe(s, 4, MAGIC);
    ReadsLe(s, 8, VERSION);
    ReadsLe(s, 12, 0);
    if bs < TWO32 { ReadsLe(s, 64, bs); }
    forall i | 0 <= i < 6 && words[i] < TWO64
      ensures Read64(s, 16 + 8 * i) == words[i]
    {
      FsHeaderWord(first, words, bs, i);
      WordReadsBack(s, 16 + 8 * i, words[i]);
    }
  }

  /** The first block is the first of the loader with the fields of listfs_header in it. */
  ghost predicate HeaderIs(image: Image, first: Sector, size: nat, mapBase: nat, mapSize: nat, firstFile: nat,
                           uid: nat, bs: nat) {
    && image != [] && |image[0]| == |first| >= 328
    && Read32(image[0], 4) == 0x8483_7376 && Read32(image[0], 8) == 1 && Read32(image[0], 12) == 0
    && StoredAt(image[0], 16, 0) && StoredAt(image[0], 24, size) && StoredAt(image[0], 32, mapBase)
    && StoredAt(image[0], 40, mapSize) && StoredAt(image[0], 48, firstFile) && StoredAt(image[0], 56, uid)
    && (bs < TWO32 ==> Read32(image[0], 64) == bs)
    && image[0][..4] == first[..4] && image[0][68..] == first[68..]
  }

  lemma HeaderWritten(image: Image, first: Sector, size: nat, mapBase: nat, mapSize: nat, firstFile: nat, uid: nat,
                      bs: nat)
    requires image != [] && |first| == bs >= HEADER_SIZE
    requires image[0] == FsHeader(first, [0, size, mapBase, mapSize, firstFile, uid], bs)
    ensures HeaderIs(image, first, size, mapBase, mapSize, firstFile, uid, bs)
  {
    hide FsHeader, Read32, Read64;
    var words := [0, size, mapBase, mapSize, firstFile, uid];
    FsHeaderReadsBack(first, words, bs);
    FsWord(first, words, bs, 0);
    FsWord(first, words, bs, 1);
    FsWord(first, words, bs, 2);
    FsWord(first, words, bs, 3);
    FsWord(first, words, bs, 4);
    FsWord(first, words, bs, 5);
  }

  lemma FsWord(first: Sector, words: seq<nat>, bs: nat, i: nat)
    requires |words| == 6 && |first| >= HEADER_SIZE && i < 6
    ensures StoredAt(FsHeader(first, words, bs), 16 + 8 * i, words[i])
  {
    FsHeaderWord(first, words, bs, i);
    WordReadsBack(FsHeader(first, words, bs), 16 + 8 * i, words[i]);
  }

  lemma SmallFields(first: Sector, words: seq<nat>, bs: nat)
    requires |words| == 6 && |first| >= HEADER_SIZE
    ensures var s := FsHeader(first, words, bs);
            && (forall j :: 0 <= j < 4 ==>
                  && s[4 + j] == Le(MAGIC, j) && s[8 + j] == Le(VERSION, j)
                  && s[12 + j] == Le(0, j) && s[64 + j] == Le(bs, j))
            && s[..4] == first[..4] && s[68..] == first[68..]
  {
    LeZero(0);
    LeZero(1);
    LeZero(2);
    LeZero(3);
  }

  lemma {:induction false} LeZero(j: nat)
    ensures Le(0, j) == 0
  {
    if j > 0 { LeZero(j - 1); }
  }

  lemma ReadsLe(s: Sector, off: nat, v: nat)
    requires off + 4 <= |s| && v < TWO32 && forall j :: 0 <= j < 4 ==> s[off + j] == Le(v, j)
    ensures Read32(s, off) == v
  {
    LeWords(v);
    assert s[off + 0] == Le(v, 0) && s[off + 1] == Le(v, 1) && s[off + 2] == Le(v, 2) && s[off + 3] == Le(v, 3);
  }

  lemma FsHeaderWord(first: Sector, words: seq<nat>, bs: nat, i: nat)
    requires |words| == 6 && |first| >= HEADER_SIZE && i < 6
    ensures HasWord(FsHeader(first, words, bs), 16 + 8 * i, words[i])
  {
    var s := FsHeader(first, words, bs);
    forall j | 0 <= j < 8
      ensures s[16 + 8 * i + j] == Le(words[i], j)
    {
      assert (8 * i + j) / 8 == i && (8 * i + j) % 8 == j;
    }
  }

  /** The boot loader finds the first file through the header block. */
  lemma FirstFileReadsBack(first: Sector, words: seq<nat>, bs: nat)
    requires |words| == 6 && |first| >= HEADER_SIZE
    ensures Read32(FsHeader(first, words, bs), FIRST_FILE_AT) == words[4] % TWO32
  {
    FsHeaderWord(first, words, bs, 4);
    WordReadsBack(FsHeader(first, words, bs), FIRST_FILE_AT, words[4]);
  }

  // ------------------------------------------------------------ the run

  /** Blocks 0..n of the image hold the loader, as far as it reaches. */
  ghost predicate LoaderStored(image: Image, bs: nat, loader: seq<Byte>, from: nat, n: nat)
    requires bs >= 1
    decreases n - from
  {
    from < n ==>
      && from < |image| && loader != [] && image[from] == DataSector(Take(loader, bs), bs)
      && LoaderStored(image, bs, Drop(loader, bs), from + 1, n)
  }

  lemma {:induction false} LoaderStays(image: Image, image': Image, bs: nat, loader: seq<Byte>, from: nat, n: nat)
    requires bs >= 1 && LoaderStored(image, bs, loader, from, n)
    requires |image'| == |image| && forall b :: from <= b < n && b < |image| ==> image'[b] == image[b]
    ensures LoaderStored(image', bs, loader, from, n)
    decreases n - from
  {
    if from < n { LoaderStays(image, image', bs, Drop(loader, bs), from + 1, n); }
  }

  /** One more whole block at the end. */
  lemma {:induction false} LoaderNext(image: Image, bs: nat, loader: seq<Byte>, from: nat, n: nat, sector: Sector)
    requires bs >= 1 && LoaderStored(image, bs, loader, from, n) && from <= n < |image|
    requires Left(loader, bs, n - from) != [] && sector == DataSector(Take(Left(loader, bs, n - from), bs), bs)
    ensures LoaderStored(image[n := sector], bs, loader, from, n + 1)
    decreases n - from
  {
    if from < n { LoaderNext(image, bs, Drop(loader, bs), from + 1, n, sector); }
  }

  lemma {:induction false} WholeLeft(bytes: seq<Byte>, bs: nat, n: nat)
    requires bs >= 1 && Whole(|bytes|, bs)
    ensures Whole(|Left(bytes, bs, n)|, bs)
    ensures Drop(Left(bytes, bs, n), bs) == Left(bytes, bs, n + 1)
    decreases n
  {
    if n > 0 { WholeLeft(Drop(bytes, bs), bs, n - 1); }
  }

  ghost predicate Shaped(image: Image, size: nat, bs: nat) {
    |image| == size && forall b :: 0 <= b < size ==> |image[b]| == bs
  }

  /** Lines 144-146: a read, and a write of the buffer whether or not the read got anything. */
  method LoaderRound(image: Image, bs: nat, file: HostFile, buffer: Sector, i: nat, ghost rest: seq<Byte>)
    returns (image': Image, buffer': Sector)
    requires bs >= 1 && file.Valid() && !file.eof && |buffer| == bs && 1 <= i < |image|
    requires Whole(|rest|, bs) && file.Rest() == Left(rest, bs, i - 1)
    requires LoaderStored(image, bs, rest, 1, i)
    modifies file
    ensures file.Valid() && |buffer'| == bs && image' == image[i := buffer']
    ensures file.Rest() == Left(rest, bs, i) &&
              |file.Rest()| == (if |old(file.Rest())| < bs then 0 else |old(file.Rest())| - bs)
    ensures file.eof <==> |old(file.Rest())| < bs
    ensures LoaderStored(image', bs, rest, 1, if file.eof then i else i + 1)
  {
    WholeLeft(rest, bs, i - 1);
    ghost var left := file.Rest();
    var chunk := file.Read(bs);
    buffer' := buffer;
    if chunk != [] {
      buffer' := chunk;
      assert DataSector(Take(left, bs), bs) == chunk;
      LoaderNext(image, bs, rest, 1, i, buffer');
    }
    image' := image[i := buffer'];
    LoaderStays(image, image', bs, rest, 1, i);
  }

  lemma RoundsStep(n: nat, bs: nat)
    requires bs >= 1
    ensures LoopRounds(n, bs) == 1 + (if n < bs then 0 else LoopRounds(n - bs, bs))
  {
  }

  /** Lines 143-148. */
  method LoaderLoop(blank: Image, bs: nat, file: HostFile) returns (image: Image, extra: nat)
    requires bs >= 1 && file.Valid() && !file.eof && Whole(|file.Rest()|, bs) && LoopRounds(|file.Rest()|, bs) < |blank|
    requires Shaped(blank, |blank|, bs)
    modifies file
    ensures Shaped(image, |blank|, bs)
    ensures extra == LoopRounds(|old(file.Rest())|, bs)
    ensures LoaderStored(image, bs, old(file.Rest()), 1, extra)
  {
    ghost var rest := file.Rest();
    image, extra := blank, 0;
    var i, buffer := 1, Zeros(bs);
    assert file.Rest() == Left(rest, bs, 0) && LoaderStored(image, bs, rest, 1, 1);
    hide LoaderStored, Whole, Left, LoopRounds, Drop, Take, Shaped;
    while !file.eof
      invariant file.Valid() && i == extra + 1 && |buffer| == bs && file.Rest() == Left(rest, bs, extra)
      invariant Shaped(image, |blank|, bs)
      invariant extra + (if file.eof then 0 else LoopRounds(|file.Rest()|, bs)) == LoopRounds(|rest|, bs) < |blank|
      invariant LoaderStored(image, bs, rest, 1, if file.eof then extra else i)
      decreases !file.eof, |file.Rest()|
    {
      RoundsStep(|file.Rest()|, bs);
      ShapedPut(image, |blank|, bs, i);
      image, buffer := LoaderRound(image, bs, file, buffer, i, rest);
      i := i + 1;
      extra := extra + 1;
    }
  }

  lemma ShapedPut(image: Image, size: nat, bs: nat, i: nat)
    requires Shaped(image, size, bs) && i < size
    ensures |image| == size && forall sector: Sector :: |sector| == bs ==> Shaped(image[i := sector], size, bs)
  {
  }

  /** Lines 133-151 for a loader of whole blocks: its first block, its other blocks from block
      1 on, and the number of rounds of the loop. The block after the loader is written too. */
  method ReadLoader(blank: Image, bs: nat, loader: seq<Byte>) returns (image: Image, first: Sector, extra: nat)
    requires bs >= 1 && loader != [] && Whole(|loader|, bs) && Blocks(|loader|, bs) < |blank|
    requires forall b :: 0 <= b < |blank| ==> |blank[b]| == bs
    ensures |image| == |blank| && forall b :: 0 <= b < |image| ==> |image[b]| == bs
    ensures first == loader[..bs] && extra == ExtraBlocks(|loader|, bs)
    ensures LoaderStored(image, bs, loader[bs..], 1, extra)
  {
    var file := new HostFile(loader);
    assert file.Rest() == loader;
    RoundsAgainstBlocks(|loader| - bs, bs);
    first := file.Read(bs);
    image, extra := LoaderLoop(blank, bs, file);
  }

  // ------------------------------------------------------------ the bitmap on disk

  function Bit(b: bool, v: nat): nat { if b then v else 0 }

  /** Eight bits of the map, lowest block in the lowest bit. */
  function MapByte(bits: seq<bool>, k: nat): Byte
    requires 8 * k + 8 <= |bits|
  {
    Bit(bits[8*k], 1) + Bit(bits[8*k+1], 2) + Bit(bits[8*k+2], 4) + Bit(bits[8*k+3], 8)
    + Bit(bits[8*k+4], 16) + Bit(bits[8*k+5], 32) + Bit(bits[8*k+6], 64) + Bit(bits[8*k+7], 128)
  }

  function MapSector(bits: seq<bool>, bs: nat): (s: Sector)
    requires 8 * bs <= |bits|
    ensures |s| == bs
  {
    seq(bs, k requires 0 <= k < bs => MapByte(bits, k))
  }

  /** So many bits, lowest first, as a number. */
  function Value(bits: seq<bool>, at: nat, n: nat): nat
    requires at + n <= |bits|
    decreases n
  {
    if n == 0 then 0 else Bit(bits[at], 1) + 2 * Value(bits, at + 1, n - 1)
  }

  lemma {:induction false} ValueBit(bits: seq<bool>, at: nat, n: nat, i: nat)
    requires at + n <= |bits| && i < n
    ensures (Value(bits, at, n) / Bits.Pow2(i)) % 2 == 1 <==> bits[at + i]
    decreases n
  {
    if i > 0 {
      ValueBit(bits, at + 1, n - 1, i - 1);
      Bits.HalfThenRest(Value(bits, at, n), Bits.Pow2(i - 1));
    }
  }

  lemma OneMore(bits: seq<bool>, at: nat, n: nat, y: nat)
    requires at + n + 1 <= |bits| && y == Value(bits, at + 1, n)
    ensures Value(bits, at, n + 1) == if bits[at] then 2 * y + 1 else 2 * y
  {
  }

  lemma FourMore(bits: seq<bool>, at: nat, n: nat)
    requires at + n + 4 <= |bits|
    ensures Value(bits, at, n + 4) ==
              Bit(bits[at], 1) + Bit(bits[at + 1], 2) + Bit(bits[at + 2], 4) + Bit(bits[at + 3], 8)
              + 16 * Value(bits, at + 4, n)
  {
    hide Value;
    OneMore(bits, at + 3, n, Value(bits, at + 4, n));
    OneMore(bits, at + 2, n + 1, Value(bits, at + 3, n + 1));
    OneMore(bits, at + 1, n + 2, Value(bits, at + 2, n + 2));
    OneMore(bits, at, n + 3, Value(bits, at + 1, n + 3));
  }

  lemma MapByteIs(bits: seq<bool>, k: nat)
    requires 8 * k + 8 <= |bits|
    ensures MapByte(bits, k) == Value(bits, 8 * k, 8)
  {
    hide Value;
    var at, n := 8 * k, 4;
    FourMore(bits, at, n);
    FourMore(bits, at + 4, n - 4);
    Nothing(bits, at + 8);
  }

  lemma Nothing(bits: seq<bool>, at: nat)
    requires at <= |bits|
    ensures Value(bits, at, 0) == 0
  {
  }

  lemma MapByteBit(bits: seq<bool>, k: nat, i: nat)
    requires 8 * k + 8 <= |bits| && i < 8
    ensures (MapByte(bits, k) / Bits.Pow2(i)) % 2 == 1 <==> bits[8 * k + i]
  {
    hide Value, Bits.Pow2, MapByte;
    MapByteIs(bits, k);
    ValueBit(bits, 8 * k, 8, i);
  }

  /** Block b has its bit on disk, in a map that starts at block `base`: eight blocks to a byte, the
      lowest in the lowest bit, as many bytes to a block of the map as a block has. */
  ghost predicate BitOnDisk(image: Image, bs: nat, base: nat, b: nat, bit: bool)
    requires bs >= 1
  {
    BitAt(image, base + b / (8 * bs), (b / 8) % bs, b % 8, bit)
  }

  /** Bit i of a byte of a block. */
  predicate BitAt(image: Image, block: int, byte: int, i: nat, bit: bool) {
    && 0 <= block < |image| && 0 <= byte < |image[block]|
    && (bit <==> (image[block][byte] / Bits.Pow2(i)) % 2 == 1)
  }

  ghost predicate MapStored(image: Image, bs: nat, bits: seq<bool>, from: nat, n: nat)
    decreases n - from
  {
    from < n ==>
      && from < |image| && 8 * bs <= |bits| && image[from] == MapSector(bits, bs)
      && MapStored(image, bs, bits[8 * bs..], from + 1, n)
  }

  lemma ZeroTimes(n: nat, bs: nat)
    ensures n == 0 ==> n * bs == 0
  {
  }

  lemma FirstSectorBit(image: Image, bs: nat, bits: seq<bool>, from: nat, b: nat)
    requires bs >= 1 && from < |image| && 8 * bs <= |bits| && image[from] == MapSector(bits, bs) && b < 8 * bs
    ensures BitOnDisk(image, bs, from, b, bits[b])
  {
    Bits.Quotient(b, 8 * bs, 0, b);
    Bits.Quotient(b / 8, bs, 0, b / 8);
    MapByteBit(bits, b / 8, b % 8);
  }

  lemma NextSectorIndex(bs: nat, b: nat)
    requires bs >= 1 && b >= 8 * bs
    ensures (b - 8 * bs) / (8 * bs) == b / (8 * bs) - 1
    ensures ((b - 8 * bs) / 8) % bs == (b / 8) % bs && (b - 8 * bs) % 8 == b % 8
  {
    var d := 8 * bs;
    var q, r := (b - d) / d, (b - d) % d;
    assert b - d == q * d + r;
    assert b == (q + 1) * d + r;
    Bits.Quotient(b, d, q + 1, r);
    var k, i := b / 8, b % 8;
    Bits.Quotient(b - d, 8, k - bs, i);
    var h, l := (k - bs) / bs, (k - bs) % bs;
    assert k - bs == h * bs + l;
    assert k == (h + 1) * bs + l;
    Bits.Quotient(k, bs, h + 1, l);
  }

  /** The bit of every block is where it belongs. */
  lemma {:induction false} MapHasBit(image: Image, bs: nat, bits: seq<bool>, from: nat, n: nat, b: nat)
    requires bs >= 1 && from <= n && |bits| == 8 * ((n - from) * bs) && MapStored(image, bs, bits, from, n)
    requires b < |bits|
    ensures BitOnDisk(image, bs, from, b, bits[b])
    decreases n - from
  {
    ZeroTimes(n - from, bs);
    if b < 8 * bs {
      FirstSectorBit(image, bs, bits, from, b);
    } else {
      MapSlice(|bits|, bs, n - from);
      NextSectorIndex(bs, b);
      MapHasBit(image, bs, bits[8 * bs..], from + 1, n, b - 8 * bs);
    }
  }

  lemma MapHasBits(image: Image, bs: nat, bits: seq<bool>, from: nat, n: nat)
    requires bs >= 1 && from <= n && |bits| == 8 * ((n - from) * bs) && MapStored(image, bs, bits, from, n)
    ensures forall b :: 0 <= b < |bits| ==> BitOnDisk(image, bs, from, b, bits[b])
  {
    forall b | 0 <= b < |bits|
      ensures BitOnDisk(image, bs, from, b, bits[b])
    {
      MapHasBit(image, bs, bits, from, n, b);
    }
  }

  lemma {:induction false} MapStays(image: Image, image': Image, bs: nat, bits: seq<bool>, from: nat, n: nat)
    requires MapStored(image, bs, bits, from, n)
    requires |image'| == |image| && forall b :: from <= b < n && b < |image| ==> image'[b] == image[b]
    ensures MapStored(image', bs, bits, from, n)
    decreases n - from
  {
    if from < n { MapStays(image, image', bs, bits[8 * bs..], from + 1, n); }
  }

  lemma MapSlice(bits: nat, bs: nat, k: nat)
    requires k >= 1 && bits == 8 * (k * bs)
    ensures bits - 8 * bs == 8 * ((k - 1) * bs) && bits >= 8 * bs
  {
    assert k * bs == bs + (k - 1) * bs;
  }

  /** Lines 199-202. */
  method StoreDiskMap(image: Image, bs: nat, bits: seq<bool>, from: nat, n: nat) returns (image': Image)
    requires bs >= 1 && from <= n <= |image| && |bits| == 8 * ((n - from) * bs)
    requires forall b :: 0 <= b < |image| ==> |image[b]| == bs
    decreases n - from
    ensures |image'| == |image| && forall b :: 0 <= b < |image| ==> |image'[b]| == bs
    ensures MapStored(image', bs, bits, from, n)
    ensures forall b :: 0 <= b < |bits| ==> BitOnDisk(image', bs, from, b, bits[b])
    ensures forall b :: 0 <= b < |image| && !(from <= b < n) ==> image'[b] == image[b]
  {
    image' := image;
    if from < n {
      MapSlice(|bits|, bs, n - from);
      image' := StoreDiskMap(image[from := MapSector(bits, bs)], bs, bits[8 * bs..], from + 1, n);
    }
    MapHasBits(image', bs, bits, from, n);
  }

  /** Lines 193-196: a cleared map with the blocks before the directory tree taken. */
  method InitDiskMap(bits: nat, taken: nat) returns (diskMap: seq<bool>)
    requires taken <= bits
    ensures |diskMap| == bits && forall b :: 0 <= b < bits ==> (diskMap[b] <==> b < taken)
  {
    diskMap := seq(bits, _ => false);
    var i := 0;
    while i < taken
      invariant i <= taken && |diskMap| == bits
      invariant forall b :: 0 <= b < bits ==> (diskMap[b] <==> b < i)
    {
      diskMap := diskMap[i := true];
      i := i + 1;
    }
  }

  // ------------------------------------------------------------ main

  /** The parameters for which the sizes computed as written are right (see MapBaseIff and
      MapRoomIff), and a tree the builder can store. */
  ghost predicate GoodInput(bs: nat, blockCount: nat, loader: seq<Byte>, root: seq<Node>) {
    && bs % 8 == 0 && bs >= HEADER_SIZE
    && loader != [] && Whole(|loader|, bs)
    && (blockCount % 8 == 0 || (blockCount / 8) % bs != 0)
    && ExtraBlocks(|loader|, bs) + MapBlocks(bs, blockCount) <= blockCount && 1 <= blockCount < NO_BLOCK32
    && root != [] && forall k :: k in root ==> Buildable(k)
  }

  /** An image with the tree of `root` at `locs`: every block before `taken` belongs to header,
      loader or map, every other block in use to exactly one place in the tree. */
  ghost predicate Built(image: Image, bs: nat, loader: seq<Byte>, root: seq<Node>, locs: seq<Loc>, diskMap: seq<bool>,
                        mapBase: nat, taken: nat)
    requires bs % 8 == 0 && bs >= HEADER_SIZE
  {
    && DirStored(image, bs, NO_BLOCK, root, locs) && locs != []
    && 1 <= |image| < NO_BLOCK32 && |image[0]| == bs && Read32(image[0], FIRST_FILE_AT) == locs[0].header
    && NoDup(LocsBlocks(locs)) && (forall b :: b in LocsBlocks(locs) ==> taken <= b < |image|)
    && 1 <= mapBase < taken <= |image| <= |diskMap|
    && LoaderStored(image, bs, Drop(loader, bs), 1, mapBase)
    && MapStored(image, bs, diskMap, mapBase, taken)
    && (forall b :: 0 <= b < |diskMap| ==> (diskMap[b] <==> b < taken || b in LocsBlocks(locs)))
  }

  /** Lines 199-202 and 164-167: map and header go to disk last. */
  method Finish(image: Image, bs: nat, first: Sector, diskMap: seq<bool>, mapBase: nat, mapSize: nat, words: seq<nat>)
    returns (image': Image)
    requires |words| == 6 && |first| == bs >= HEADER_SIZE && |diskMap| == MapBits(bs, mapSize)
    requires 1 <= mapBase && mapBase + mapSize <= |image|
    requires forall b :: 0 <= b < |image| ==> |image[b]| == bs
    ensures |image'| == |image| && image'[0] == FsHeader(first, words, bs)
    ensures MapStored(image', bs, diskMap, mapBase, mapBase + mapSize)
    ensures forall b :: 0 < b < |image| && !(mapBase <= b < mapBase + mapSize) ==> image'[b] == image[b]
  {
    var m := StoreDiskMap(image, bs, diskMap, mapBase, mapBase + mapSize);
    image' := m[0 := FsHeader(first, words, bs)];
    MapStays(m, image', bs, diskMap, mapBase, mapBase + mapSize);
  }

  /** The tree, and so the image, after the last two writes. */
  lemma FinishedIsBuilt(i0: Image, i1: Image, image: Image, bs: nat, loader: seq<Byte>, root: seq<Node>, locs: seq<Loc>,
                        u0: set<nat>, diskMap: seq<bool>, mapBase: nat, taken: nat, first: Sector, words: seq<nat>)
    requires bs % 8 == 0 && bs >= HEADER_SIZE && |words| == 6 && |first| == bs && locs != []
    requires 1 <= mapBase < taken <= |i1| <= |diskMap| && |i1| < NO_BLOCK32
    requires LoaderStored(i0, bs, Drop(loader, bs), 1, mapBase) && Kept(i0, i1, u0)
    requires forall b :: b in u0 <==> 0 <= b < taken
    requires forall b :: |i1| <= b < |diskMap| ==> !diskMap[b]
    requires Claimed(u0, Used(diskMap), LocsBlocks(locs)) && DirStored(i1, bs, NO_BLOCK, root, locs)
    requires |image| == |i1| && image[0] == FsHeader(first, words, bs) && words[4] == locs[0].header
    requires MapStored(image, bs, diskMap, mapBase, taken)
    requires forall b :: 0 < b < |i1| && !(mapBase <= b < taken) ==> image[b] == i1[b]
    ensures Built(image, bs, loader, root, locs, diskMap, mapBase, taken)
  {
    TreeAboveTaken(u0, diskMap, locs, taken, |i1|);
    hide *;
    TreeUntouched(i1, image, locs, mapBase, taken);
    DirStays(i1, image, bs, NO_BLOCK, root, locs);
    LoaderUntouched(i0, i1, image, bs, Drop(loader, bs), mapBase, taken, u0);
    FirstFileReadsBack(first, words, bs);
    LocsBlocksAt(locs, 0);
    BuiltFromParts(image, bs, loader, root, locs, diskMap, mapBase, taken);
  }

  lemma TreeAboveTaken(u0: set<nat>, diskMap: seq<bool>, locs: seq<Loc>, taken: nat, size: nat)
    requires forall b :: b in u0 <==> 0 <= b < taken
    requires taken <= size <= |diskMap| && forall b :: size <= b < |diskMap| ==> !diskMap[b]
    requires Claimed(u0, Used(diskMap), LocsBlocks(locs))
    ensures NoDup(LocsBlocks(locs)) && forall b :: b in LocsBlocks(locs) ==> taken <= b < size
    ensures forall b :: 0 <= b < |diskMap| ==> (diskMap[b] <==> b < taken || b in LocsBlocks(locs))
  {
    forall b | b in LocsBlocks(locs)
      ensures taken <= b < size
    {
      assert b in Used(diskMap) && b !in u0;
    }
    forall b | 0 <= b < |diskMap|
      ensures diskMap[b] <==> b < taken || b in LocsBlocks(locs)
    {
      assert b in Used(diskMap) <==> b in u0 || b in LocsBlocks(locs);
    }
  }

  lemma TreeUntouched(i1: Image, image: Image, locs: seq<Loc>, mapBase: nat, taken: nat)
    requires |image| == |i1| && forall b :: 0 < b < |i1| && !(mapBase <= b < taken) ==> image[b] == i1[b]
    requires 0 < taken && forall b :: b in LocsBlocks(locs) ==> taken <= b < |i1|
    ensures Same(i1, image, LocsBlocks(locs))
  {
  }

  lemma LoaderUntouched(i0: Image, i1: Image, image: Image, bs: nat, rest: seq<Byte>, mapBase: nat, taken: nat,
                        u0: set<nat>)
    requires bs >= 1 && LoaderStored(i0, bs, rest, 1, mapBase) && Kept(i0, i1, u0)
    requires mapBase < taken && forall b :: b in u0 <==> 0 <= b < taken
    requires |image| == |i1| && forall b :: 0 < b < |i1| && !(mapBase <= b < taken) ==> image[b] == i1[b]
    ensures LoaderStored(image, bs, rest, 1, mapBase)
  {
    LoaderStays(i0, i1, bs, rest, 1, mapBase);
    LoaderStays(i1, image, bs, rest, 1, mapBase);
  }

  lemma BuiltFromParts(image: Image, bs: nat, loader: seq<Byte>, root: seq<Node>, locs: seq<Loc>, diskMap: seq<bool>,
                       mapBase: nat, taken: nat)
    requires bs % 8 == 0 && bs >= HEADER_SIZE && DirStored(image, bs, NO_BLOCK, root, locs) && locs != []
    requires 1 <= |image| < NO_BLOCK32 && |image[0]| == bs && Read32(image[0], FIRST_FILE_AT) == locs[0].header % TWO32
    requires locs[0].header in LocsBlocks(locs)
    requires NoDup(LocsBlocks(locs)) && (forall b :: b in LocsBlocks(locs) ==> taken <= b < |image|)
    requires 1 <= mapBase < taken <= |image| <= |diskMap|
    requires LoaderStored(image, bs, Drop(loader, bs), 1, mapBase) && MapStored(image, bs, diskMap, mapBase, taken)
    requires forall b :: 0 <= b < |diskMap| ==> (diskMap[b] <==> b < taken || b in LocsBlocks(locs))
    ensures Built(image, bs, loader, root, locs, diskMap, mapBase, taken)
  {
    hide LocsBlocks, DirStored, LoaderStored, MapStored, Read32, NoDup, Drop;
    SmallBlock(locs[0].header, |image|);
  }

  lemma SmallBlock(b: nat, size: nat)
    requires size < NO_BLOCK32
    ensures b < size ==> b % TWO32 == b
  {
  }

  lemma SizesFit(bs: nat, blockCount: nat, loader: seq<Byte>, root: seq<Node>)
    requires GoodInput(bs, blockCount, loader, root)
    ensures 1 <= ExtraBlocks(|loader|, bs) && Blocks(|loader|, bs) < blockCount && 1 <= MapBlocks(bs, blockCount)
    ensures blockCount <= MapBits(bs, MapBlocks(bs, blockCount))
    ensures bs % 8 == 0 && bs >= HEADER_SIZE >= 1 && loader != [] && Whole(|loader|, bs) && 1 <= blockCount < NO_BLOCK32
    ensures |loader| >= bs && loader[bs..] == Drop(loader, bs) && loader[..bs] == Take(loader, bs)
    ensures ExtraBlocks(|loader|, bs) + MapBlocks(bs, blockCount) <= blockCount
    ensures root != [] && forall k :: k in root ==> Buildable(k)
  {
    MapBaseIff(|loader|, bs);
    MapRoomIff(bs, blockCount);
    ZeroTimes(MapBlocks(bs, blockCount), bs);
  }

  /** Lines 301-302: the loader on disk, and the map with loader and map blocks taken. */
  method PrepareDisk(bs: nat, blockCount: nat, loader: seq<Byte>)
    returns (i0: Image, first: Sector, mapBase: nat, mapSize: nat, map0: seq<bool>)
    requires bs >= HEADER_SIZE && loader != [] && Whole(|loader|, bs) && |loader| >= bs
    requires Blocks(|loader|, bs) < blockCount <= MapBits(bs, MapBlocks(bs, blockCount))
    requires 1 <= ExtraBlocks(|loader|, bs) && ExtraBlocks(|loader|, bs) + MapBlocks(bs, blockCount) <= blockCount
    ensures |i0| == blockCount && (forall b :: 0 <= b < |i0| ==> |i0[b]| == bs)
    ensures first == loader[..bs] && |first| == bs && mapBase == ExtraBlocks(|loader|, bs) &&
              mapSize == MapBlocks(bs, blockCount)
    ensures LoaderStored(i0, bs, loader[bs..], 1, mapBase)
    ensures |map0| == MapBits(bs, mapSize) && forall b :: 0 <= b < |map0| ==> (map0[b] <==> b < mapBase + mapSize)
  {
    hide Whole, ExtraBlocks, Blocks, MapBlocks, MapBits, LoaderStored;
    i0, first, mapBase := ReadLoader(seq(blockCount, _ => Zeros(bs)), bs, loader);
    mapSize := MapBlocks(bs, blockCount);
    map0 := InitDiskMap(MapBits(bs, mapSize), mapBase + mapSize);
  }

  lemma {:induction false} FreeAbove(map_: seq<bool>, taken: nat, n: nat)
    requires n <= |map_| && forall b :: 0 <= b < |map_| ==> (map_[b] <==> b < taken)
    ensures CountFree(map_, n) == if n <= taken then 0 else n - taken
  {
    if n > 0 { FreeAbove(map_, taken, n - 1); }
  }

  /** Lines 301-306: loader, map, tree, map and header to disk. The program completes exactly
      when the disk has room for header, loader, map and tree, and then the tree is on it. */
  method BuildImage(bs: nat, blockCount: nat, loader: seq<Byte>, root: seq<Node>, uid: nat)
    returns (ok: bool, image: Image, ghost locs: seq<Loc>, ghost diskMap: seq<bool>)
    requires GoodInput(bs, blockCount, loader, root)
    ensures ok ==>
              && |image| == blockCount >= 1 && locs != []
              && HeaderIs(image, Take(loader, bs), blockCount, ExtraBlocks(|loader|, bs), MapBlocks(bs, blockCount),
                   locs[0].header, uid, bs)
    ensures ok ==>
              && |diskMap| == 8 * (MapBlocks(bs, blockCount) * bs)
              && forall b :: 0 <= b < |diskMap| ==>
                   BitOnDisk(image, bs, ExtraBlocks(|loader|, bs), b, diskMap[b])
    ensures ok ==>
              && |image| == blockCount
              && Built(image, bs, loader, root, locs, diskMap, ExtraBlocks(|loader|, bs),
                   ExtraBlocks(|loader|, bs) + MapBlocks(bs, blockCount))
    ensures ok <==> ExtraBlocks(|loader|, bs) + MapBlocks(bs, blockCount) + Needs(root, bs) <= blockCount
  {
    hide *;
    SizesFit(bs, blockCount, loader, root);
    var i0, first, mapBase, mapSize, map0 := PrepareDisk(bs, blockCount, loader);
    FreeAbove(map0, mapBase + mapSize, |i0|);
    var map1, firstFile;
    ok, image, map1, firstFile, locs := BuildTree(i0, bs, map0, root);
    diskMap := map1;
    if ok {
      var words := [0, blockCount, mapBase, mapSize, firstFile, uid];
      ghost var i1 := image;
      image := Finish(image, bs, first, map1, mapBase, mapSize, words);
      HeaderWritten(image, first, blockCount, mapBase, mapSize, firstFile, uid, bs);
      MapBitsThere(image, bs, map1, mapBase, mapSize);
      FinishedIsBuilt(i0, i1, image, bs, loader, root, locs, Used(map0), map1, mapBase, mapBase + mapSize, first,
          words);
    }
  }

  lemma MapBitsThere(image: Image, bs: nat, diskMap: seq<bool>, mapBase: nat, mapSize: nat)
    requires bs >= HEADER_SIZE && |diskMap| == MapBits(bs, mapSize)
    requires MapStored(image, bs, diskMap, mapBase, mapBase + mapSize)
    ensures |diskMap| == 8 * (mapSize * bs)
    ensures forall b :: 0 <= b < |diskMap| ==> BitOnDisk(image, bs, mapBase, b, diskMap[b])
  {
    MapHasBits(image, bs, diskMap, mapBase, mapBase + mapSize);
  }

  /** Line 304 on a disk whose first blocks are taken. */
  method BuildTree(i0: Image, bs: nat, map0: seq<bool>, root: seq<Node>)
    returns (ok: bool, i1: Image, map1: seq<bool>, firstFile: nat, ghost locs: seq<Loc>)
    requires bs >= HEADER_SIZE && bs % 8 == 0 && 1 <= |i0| <= |map0| && |i0| < NO_BLOCK32
    requires forall b :: 0 <= b < |i0| ==> |i0[b]| == bs
    requires forall b :: |i0| <= b < |map0| ==> !map0[b]
    requires root != [] && forall k :: k in root ==> Buildable(k)
    ensures |i1| == |i0| && |map1| == |map0| && Kept(i0, i1, Used(map0))
    ensures forall b :: 0 <= b < |i1| ==> |i1[b]| == bs
    ensures forall b :: |i1| <= b < |map1| ==> !map1[b]
    ensures ok ==>
              && locs != [] && firstFile == locs[0].header
              && Claimed(Used(map0), Used(map1), LocsBlocks(locs)) && DirStored(i1, bs, NO_BLOCK, root, locs)
    ensures ok <==> CountFree(map0, |i0|) >= Needs(root, bs)
  {
    var b := new ImageBuilder(bs, i0, map0);
    ok, firstFile, locs := b.ProcessDir(NO_BLOCK, root);
    i1, map1 := b.image, b.diskMap;
  }
}
