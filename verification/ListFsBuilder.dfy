/** The image builder of make_listfs.c: block allocation from the bitmap, chained index
    blocks, header chains, and the accounting of loader and map blocks. */
module ListFsBuilder {
  import opened ListFsFormat
  import opened ListFsLayout

  /** A host FILE open for reading: a position and an end-of-file flag. */
  class HostFile {
    const bytes: seq<Byte>
    var pos: nat
    var eof: bool

    constructor (bytes: seq<Byte>)
      ensures this.bytes == bytes && pos == 0 && !eof
    {
      this.bytes, pos, eof := bytes, 0, false;
    }

    ghost predicate Valid()
      reads this
    {
      pos <= |bytes| && (eof ==> pos == |bytes|)
    }

    /** What has not been read yet. */
    function Rest(): seq<Byte>
      requires Valid()
      reads this
    {
      bytes[pos..]
    }

    /** fread(buffer, 1, n, file): the flag is raised by a read that comes up short. */
    method Read(n: nat) returns (chunk: seq<Byte>)
      requires Valid()
      modifies this
      ensures Valid() && chunk == Take(old(Rest()), n) && Rest() == Drop(old(Rest()), n)
      ensures eof <==> old(eof) || |old(Rest())| < n
    {
      var got := if |bytes| - pos < n then |bytes| - pos else n;
      chunk := bytes[pos..pos + got];
      assert chunk == Take(Rest(), n);
      assert bytes[pos + got..] == Drop(Rest(), n);
      pos := pos + got;
      if got < n { eof := true; }
    }
  }

  function Used(map_: seq<bool>): (u: set<nat>)
    ensures forall b :: b in u <==> 0 <= b < |map_| && map_[b]
  {
    set b | 0 <= b < |map_| && map_[b]
  }

  // ------------------------------------------------------------ room

  /** Blocks before n that are not in use. */
  function CountFree(map_: seq<bool>, n: nat): nat
    requires n <= |map_|
  {
    if n == 0 then 0 else CountFree(map_, n - 1) + (if map_[n-1] then 0 else 1)
  }

  lemma {:induction false} TakeOne(map_: seq<bool>, n: nat, i: nat)
    requires n <= |map_| && i < |map_| && !map_[i]
    ensures CountFree(map_[i := true], n) == CountFree(map_, n) - if i < n then 1 else 0
  {
    if n > 0 { TakeOne(map_, n - 1, i); }
  }

  lemma {:induction false} NoneFree(map_: seq<bool>, n: nat)
    requires n <= |map_| && forall b :: 0 <= b < n ==> map_[b]
    ensures CountFree(map_, n) == 0
  {
    if n > 0 { NoneFree(map_, n - 1); }
  }

  /** k reads of bs bytes with n bytes to come: the bytes left, the reads that got something,
      and whether one came up short. */
  function Reads(n: nat, bs: nat, k: nat): (r: (nat, nat, bool))
    requires bs >= 1
    ensures !r.2 ==> r.0 + k <= n
    decreases k
  {
    if k == 0 then (n, 0, false)
    else if n < bs then (0, if n == 0 then 0 else 1, true)
    else var t := Reads(n - bs, bs, k - 1); (t.0, t.1 + 1, t.2)
  }

  /** The same when d reads have got something already. */
  function ReadsSoFar(d: nat, ended: bool, n: nat, bs: nat, k: nat): (nat, nat, bool)
    requires bs >= 1
  {
    if ended then (n, d, true)
    else var t := Reads(n, bs, k); (t.0, d + t.1, t.2)
  }

  lemma ReadsStep(d: nat, ended: bool, n: nat, bs: nat, k: nat)
    requires bs >= 1 && k >= 1 && (ended ==> n == 0)
    ensures ended ==> ReadsSoFar(d, ended, n, bs, k) == ReadsSoFar(d, ended, n, bs, k - 1)
    ensures !ended ==> ReadsSoFar(d, ended, n, bs, k)
                       == ReadsSoFar(if n == 0 then d else d + 1, n < bs, if n < bs then 0 else n - bs, bs, k - 1)
    ensures !ended && n > 0 ==> ReadsSoFar(d, ended, n, bs, k).1 >= d + 1
  {
  }

  lemma ReadsDone(d: nat, ended: bool, n: nat, bs: nat)
    requires bs >= 1
    ensures ReadsSoFar(d, ended, n, bs, 0) == (n, d, ended)
  {
  }

  lemma ReadsStart(n: nat, bs: nat, k: nat)
    requires bs >= 1
    ensures ReadsSoFar(0, false, n, bs, k) == Reads(n, bs, k)
  {
  }

  /** Blocks that a file of n bytes takes, index blocks included. */
  function ChainNeed(n: nat, bs: nat): nat
    requires bs >= 16 && bs % 8 == 0
  {
    var r := Reads(n, bs, PerList(bs));
    1 + r.1 + if r.2 then 0 else ChainNeed(r.0, bs)
  }

  lemma ChainNeedIs(n: nat, bs: nat)
    requires bs >= 16 && bs % 8 == 0
    ensures var r := Reads(n, bs, bs / 8 - 1);
            ChainNeed(n, bs) == 1 + r.1 + if r.2 then 0 else ChainNeed(r.0, bs)
  {
  }

  /** Blocks that a node takes besides its header. */
  function PayloadNeed(n: Node, bs: nat): nat
    requires bs >= 16 && bs % 8 == 0
    decreases n, 0
  {
    match n
    case FileNode(_, _, bytes) => ChainNeed(|bytes|, bs)
    case DirNode(_, _, kids) => Needs(kids, bs)
  }

  /** Blocks that the entries of a directory take. */
  function Needs(kids: seq<Node>, bs: nat): nat
    requires bs >= 16 && bs % 8 == 0
    decreases kids, 1
  {
    if kids == [] then 0 else Needs(kids[..|kids|-1], bs) + 1 + PayloadNeed(kids[|kids|-1], bs)
  }

  lemma {:induction false} NeedsGrow(kids: seq<Node>, bs: nat, i: nat)
    requires bs >= 16 && bs % 8 == 0 && i < |kids|
    ensures Needs(kids[..i+1], bs) == Needs(kids[..i], bs) + 1 + PayloadNeed(kids[i], bs)
    ensures Needs(kids[..i+1], bs) <= Needs(kids, bs)
    decreases |kids| - i
  {
    var p := kids[..i+1];
    assert p[..|p|-1] == kids[..i] && p[|p|-1] == kids[i];
    if i + 1 < |kids| {
      NeedsGrow(kids, bs, i + 1);
    } else {
      assert p == kids;
    }
  }

  lemma NeedsEnds(kids: seq<Node>, bs: nat)
    requires bs >= 16 && bs % 8 == 0
    ensures Needs(kids[..0], bs) == 0 && kids[..|kids|] == kids
  {
  }

  class ImageBuilder {
    const bs: nat
    /** block_count, fs_header->size */
    const size: nat
    /** Bits in the map; those past the last block stay clear. */
    const mapBits: nat
    var image: Image
    /** disk_map, one bit a block */
    var diskMap: seq<bool>

    ghost predicate Valid()
      reads this
    {
      && bs >= 16 && bs % 8 == 0 && 1 <= size <= mapBits == |diskMap| && size < NO_BLOCK32
      && |image| == size
      && (forall b :: 0 <= b < size ==> |image[b]| == bs)
      && (forall b :: size <= b < |diskMap| ==> !diskMap[b])
    }

    /** Blocks not in use. */
    function Free(): nat
      reads this`diskMap
    {
      if size <= |diskMap| then CountFree(diskMap, size) else 0
    }

    constructor (bs: nat, image: Image, diskMap: seq<bool>)
      requires bs >= 16 && bs % 8 == 0 && 1 <= |image| <= |diskMap| && |image| < NO_BLOCK32
      requires forall b :: 0 <= b < |image| ==> |image[b]| == bs
      requires forall b :: |image| <= b < |diskMap| ==> !diskMap[b]
      ensures Valid() && this.bs == bs && size == |image| && this.image == image && this.diskMap == diskMap &&
                mapBits == |diskMap|
    {
      this.bs, this.size, this.mapBits, this.image, this.diskMap := bs, |image|, |diskMap|, image, diskMap;
    }

    lemma BlockSize()
      requires Valid()
      ensures bs >= 16 && bs % 8 == 0
    {
    }

    /** Lines 169-180. `ok` is false where the program exits because the disk is full. */
    method AllocDiskBlock() returns (ok: bool, index: nat)
      requires Valid()
      modifies this`diskMap
      ensures Valid()
      ensures ok ==> index < size && !old(diskMap)[index] && diskMap == old(diskMap)[index := true]
      ensures ok ==> forall b :: 0 <= b < index ==> old(diskMap)[b]
      ensures ok ==> Claimed(Used(old(diskMap)), Used(diskMap), [index])
      ensures !ok ==> diskMap == old(diskMap) && forall b :: 0 <= b < size ==> diskMap[b]
      ensures (ok <==> old(Free()) >= 1) && (ok ==> Free() == old(Free()) - 1)
    {
      index := 0;
      while diskMap[index]
        invariant index < size
        invariant forall b :: 0 <= b < index ==> diskMap[b]
        decreases size - index
      {
        index := index + 1;
        if index >= size {
          NoneFree(diskMap, size);
          return false, index;
        }
      }
      TakeOne(diskMap, size, index);
      diskMap := diskMap[index := true];
      ok := true;
    }

    /** Lines 128-131, one block. */
    method WriteBlock(index: nat, sector: Sector)
      requires Valid() && index < size && |sector| == bs
      modifies this`image
      ensures Valid() && image == old(image)[index := sector]
    {
      image := image[index := sector];
    }

    /** Lines 218-220: one data block. */
    method StoreChunk(chunk: seq<Byte>, ghost data: seq<nat>, ghost bytes: seq<Byte>, ghost u0: set<nat>)
      returns (ok: bool, index: nat)
      requires Valid() && |chunk| <= bs && Claimed(u0, Used(diskMap), data)
      requires DataStored(image, bs, data, bytes) && Left(bytes, bs, |data|) != [] &&
                 chunk == Take(Left(bytes, bs, |data|), bs)
      modifies this`image, this`diskMap
      ensures Valid() && Kept(old(image), image, Used(old(diskMap)))
      ensures ok ==>
                && Claimed(u0, Used(diskMap), data + [index])
                && DataStored(image, bs, data + [index], bytes)
                && Left(bytes, bs, |data| + 1) == Drop(Left(bytes, bs, |data|), bs)
      ensures (ok <==> old(Free()) >= 1) && (ok ==> Free() == old(Free()) - 1)
    {
      hide Free;
      ghost var u1 := Used(diskMap);
      ok, index := AllocDiskBlock();
      if ok {
        ghost var i1 := image;
        WriteBlock(index, DataSector(chunk, bs));
        DataStays(i1, image, bs, data, bytes);
        DataAppend(image, bs, data, bytes, index);
        ClaimedTrans(u0, u1, Used(diskMap), data, [index]);
      }
    }

    /** Lines 212-222 while the file has not ended: the next block, or NO_BLOCK at its end. */
    method NextBlock(file: HostFile, ghost data: seq<nat>, ghost r0: seq<Byte>, ghost i0: Image, ghost u0: set<nat>)
      returns (ok: bool, entry: nat, ghost data': seq<nat>)
      requires Valid() && file.Valid() && Kept(i0, image, u0) && Claimed(u0, Used(diskMap), data)
      requires DataStored(image, bs, data, r0) && file.Rest() == Left(r0, bs, |data|)
      modifies this`image, this`diskMap, file
      ensures Valid() && file.Valid() && Kept(i0, image, u0)
      ensures ok ==>
                && Claimed(u0, Used(diskMap), data') && DataStored(image, bs, data', r0)
                && file.Rest() == Left(r0, bs, |data'|)
                && (if data' == data then entry == NO_BLOCK && file.eof && |file.Rest()| == |old(file.Rest())|
                    else data' == data + [entry] && |file.Rest()| < |old(file.Rest())|)
      ensures ok ==> |file.Rest()| == if |old(file.Rest())| < bs then 0 else |old(file.Rest())| - bs
      ensures ok ==>
                && (data' == data <==> old(file.Rest()) == [])
                && (file.eof <==> old(file.eof) || |old(file.Rest())| < bs)
      ensures ok <==> old(file.Rest()) == [] || old(Free()) >= 1
      ensures ok ==> Free() == if data' == data then old(Free()) else old(Free()) - 1
    {
      hide Free, Claimed, DataStored, Left, Take, Drop, Used, Kept;
      ghost var u1, i1 := Used(diskMap), image;
      TakeAndDrop(file.Rest(), bs);
      var chunk := file.Read(bs);
      ok, entry, data' := true, NO_BLOCK, data;
      if |chunk| > 0 {
        ClaimedGrows(u0, u1, data);
        ok, entry := StoreChunk(chunk, data, r0, u0);
        KeptTrans(i0, i1, image, u0, u1);
        data' := data + [entry];
      }
    }

    /** Lines 211-224: up to a list's worth of blocks, `data`, then entries without a block. */
    method StoreBlocks(file: HostFile, k: nat) returns (ok: bool, list: seq<nat>, ghost data: seq<nat>)
      requires Valid() && file.Valid() && !file.eof
      modifies this`image, this`diskMap, file
      ensures Valid() && file.Valid()
      ensures Kept(old(image), image, Used(old(diskMap)))
      ensures ok ==>
                && |data| <= k && list == data + NoneEntries(k - |data|)
                && Claimed(Used(old(diskMap)), Used(diskMap), data)
                && DataStored(image, bs, data, old(file.Rest()))
                && file.Rest() == Left(old(file.Rest()), bs, |data|)
                && (|data| < k ==> file.eof)
                && (data != [] ==> |file.Rest()| < |old(file.Rest())|)
                && Reads(|old(file.Rest())|, bs, k) == (|file.Rest()|, |data|, file.eof)
      ensures ok <==> old(Free()) >= Reads(|old(file.Rest())|, bs, k).1
      ensures ok ==> Free() == old(Free()) - |data|
    {
      hide Valid, HostFile.Valid, Claimed, DataStored, Left, Take, Drop, Used, Kept, Free, Reads, ReadsSoFar,
           NoneEntries, HostFile.Rest;
      BlockSize();
      ghost var r0, u0 := file.Rest(), Used(diskMap);
      list, data := [], [];
      NothingStored(image, bs, r0, u0);
      ReadsStart(|r0|, bs, k);
      for i := 0 to k
        invariant Valid() && file.Valid()
        invariant Kept(old(image), image, u0)
        invariant |data| <= i && list == data + NoneEntries(i - |data|)
        invariant Claimed(u0, Used(diskMap), data)
        invariant DataStored(image, bs, data, r0) && file.Rest() == Left(r0, bs, |data|)
        invariant |data| < i ==> file.eof
        invariant data != [] ==> |file.Rest()| < |r0|
        invariant |data| <= old(Free()) && Free() == old(Free()) - |data|
        invariant Reads(|r0|, bs, k) == ReadsSoFar(|data|, file.eof, |file.Rest()|, bs, k - i)
        invariant file.eof ==> |file.Rest()| == 0
      {
        NoneEntriesNext(data, i - |data|);
        ReadsStep(|data|, file.eof, |file.Rest()|, bs, k - i);
        var entry := NO_BLOCK;
        if !file.eof {
          ok, entry, data := NextBlock(file, data, r0, old(image), u0);
          if !ok { return; }
        }
        list := list + [entry];
      }
      ReadsDone(|data|, file.eof, |file.Rest()|, bs);
      ok := true;
    }

    /** Lines 204-230. The chain stored holds exactly what was left to read. */
    method StoreFileData(file: HostFile) returns (ok: bool, index: nat, ghost c: Chain)
      requires Valid() && file.Valid()
      modifies this`image, this`diskMap, file
      decreases if file.eof then 0 else 1, |file.Rest()|
      ensures Valid() && file.Valid()
      ensures Kept(old(image), image, Used(old(diskMap)))
      ensures ok ==>
                && index == Head(c) && (old(file.eof) ==> c == End)
                && Claimed(Used(old(diskMap)), Used(diskMap), ChainBlocks(c))
                && ChainStored(image, bs, c, old(file.Rest()))
      ensures var need := if old(file.eof) then 0 else ChainNeed(|old(file.Rest())|, bs);
              (ok <==> old(Free()) >= need) && (ok ==> Free() == old(Free()) - need)
    {
      hide Valid, HostFile.Valid, Claimed, DataStored, ChainStored, Free, ChainNeed, Reads, NoneEntries, Used, Left,
           Kept, HostFile.Rest;
      BlockSize();
      c := End;
      ghost var i0, u0, r0 := image, Used(diskMap), file.Rest();
      NothingStored(image, bs, r0, u0);
      ChainNeedIs(|r0|, bs);
      if file.eof {
        AtEof(file, image, bs);
        return true, NO_BLOCK, End;
      }
      ok, index := AllocDiskBlock();
      if !ok { return; }
      ghost var i1, u1 := image, Used(diskMap);
      ClaimedGrows(u0, u1, [index]);
      var list;
      ghost var data;
      ok, list, data := StoreBlocks(file, bs / 8 - 1);
      KeptTrans(i0, i1, image, u0, u1);
      if !ok { return; }
      ghost var i2, u2 := image, Used(diskMap);
      ClaimedGrows(u1, u2, data);
      var next;
      ghost var rest;
      ok, next, rest := StoreFileData(file);
      KeptTrans(i0, i2, image, u0, u2);
      if !ok { return; }
      c := Link(index, data, rest);
      ListWords(data, next, bs);
      ghost var i3 := image;
      FinishList(index, list + [next], c, i2, u0, u1, u2, r0);
      KeptTrans(i0, i3, image, u0, u0);
    }

    /** Line 226: the index block, written after everything it leads to. */
    method FinishList(index: nat, entries: seq<nat>, ghost c: Chain, ghost i2: Image,
                      ghost u0: set<nat>, ghost u1: set<nat>, ghost u2: set<nat>, ghost bytes: seq<Byte>)
      requires Valid() && c.Link? && index == c.list && index < size
      requires |c.data| <= PerList(bs) && entries == ListEntries(c.data, Head(c.rest), PerList(bs))
      requires Claimed(u0, u1, [index]) && Claimed(u1, u2, c.data) && Claimed(u2, Used(diskMap), ChainBlocks(c.rest))
      requires Kept(i2, image, u2)
      requires DataStored(i2, bs, c.data, bytes) && ChainStored(image, bs, c.rest, Left(bytes, bs, |c.data|))
      requires |c.data| < PerList(bs) ==> c.rest.End?
      modifies this`image
      ensures Valid() && Kept(old(image), image, u0)
      ensures Claimed(u0, Used(diskMap), ChainBlocks(c)) && ChainStored(image, bs, c, bytes)
    {
      ghost var i3 := image;
      ListApart(u0, u1, u2, Used(diskMap), c);
      assert Same(i2, i3, c.data);
      hide Claimed;
      WriteBlock(index, IndexSector(entries));
      ClaimedTrans(u0, u1, u2, [index], c.data);
      ClaimedTrans(u0, u2, Used(diskMap), [index] + c.data, ChainBlocks(c.rest));
      LinkStored(i2, i3, image, bs, c, bytes);
    }

    /** Lines 268-283: the data of one entry, its children or its chain. */
    method StorePayload(cur: nat, n: Node) returns (ok: bool, data: nat, ghost l: Loc)
      requires Valid() && bs >= HEADER_SIZE && Buildable(n)
      modifies this`image, this`diskMap
      decreases n, 0
      ensures Valid() && Kept(old(image), image, Used(old(diskMap)))
      ensures ok ==>
                && l.header == cur && data == DataOf(l)
                && Claimed(Used(old(diskMap)), Used(diskMap), PayloadBlocks(l))
                && PayloadStored(image, bs, n, l)
      ensures (ok <==> old(Free()) >= PayloadNeed(n, bs)) && (ok ==> Free() == old(Free()) - PayloadNeed(n, bs))
    {
      match n {
        case DirNode(_, _, kids) =>
          ghost var locs;
          ok, data, locs := ProcessDir(cur, kids);
          l := DirLoc(cur, locs);
        case FileNode(_, _, bytes) =>
          var file := new HostFile(bytes);
          assert file.Rest() == bytes;
          ghost var c;
          ok, data, c := StoreFileData(file);
          l := FileLoc(cur, c);
      }
    }

    /** Line 252 or 286: the buffered header goes to its block. */
    method WriteHeader(prev: nat, header: Header, ghost parent: nat, ghost kids: seq<Node>, ghost locs: seq<Loc>,
                       ghost last: nat, ghost u0: set<nat>, ghost u1: set<nat>)
      requires Valid() && bs >= HEADER_SIZE && locs != []
      requires Pending(image, bs, parent, kids, locs) && Claimed(u0, u1, LocsBlocks(locs))
      requires prev == locs[|locs|-1].header < size && |kids[|locs|-1].times| == 3
      requires header == HeaderOf(kids[|locs|-1], locs[|locs|-1], parent, PrevOf(locs, |locs| - 1), last)
      modifies this`image
      ensures Valid() && Chained(image, bs, parent, kids, locs, last) && Kept(old(image), image, u0)
    {
      ghost var i0 := image;
      WriteBlock(prev, HeaderSector(header, bs));
      LastHeaderWritten(i0, bs, parent, kids, locs, last, image);
      LocsBlocksAt(locs, |locs| - 1);
    }

    /** Lines 268-284 for the entry whose header block is `cur`: its payload, after which it is
        the last entry, with its header in the buffer. */
    method AddEntry(cur: nat, header: Header, parent: nat, kids: seq<Node>, ghost locs: seq<Loc>, i: nat,
                    ghost u0: set<nat>, ghost u1: set<nat>)
      returns (ok: bool, header': Header, ghost l: Loc)
      requires Valid() && bs >= HEADER_SIZE && |locs| == i < |kids| && Buildable(kids[i]) && cur < size
      requires header == Header(Cut(kids[i].name), NO_BLOCK, PrevOf(locs, i), parent, if kids[i].DirNode? then 1
                 else 0, 0,
                                SizeOf(kids[i]), kids[i].times)
      requires Claimed(u0, u1, LocsBlocks(locs)) && Claimed(u1, Used(diskMap), [cur])
      requires Chained(image, bs, parent, kids, locs, cur)
      modifies this`image, this`diskMap
      decreases kids, 0
      ensures Valid() && Kept(old(image), image, u0)
      ensures ok ==>
                && l.header == cur && header' == HeaderOf(kids[i], l, parent, PrevOf(locs, i), NO_BLOCK)
                && Claimed(u0, Used(diskMap), LocsBlocks(locs + [l]))
                && Pending(image, bs, parent, kids, locs + [l])
      ensures (ok <==> old(Free()) >= PayloadNeed(kids[i], bs)) &&
                (ok ==> Free() == old(Free()) - PayloadNeed(kids[i], bs))
    {
      ghost var i1, u2 := image, Used(diskMap);
      var data;
      ok, data, l := StorePayload(cur, kids[i]);
      header' := header.(data := data);
      UsedByNow(u0, u1, u2, LocsBlocks(locs), cur);
      if ok {
        hide Claimed, Chained, Pending, PayloadStored, LocsBlocks, PayloadBlocks;
        ChainedStays(i1, image, bs, parent, kids, locs, cur);
        PendingNext(image, bs, parent, kids, locs, l);
        EntryClaimed(u0, u1, u2, Used(diskMap), locs, l);
      }
    }

    /** Lines 249-254: the block of the next header, and the link to it from the last one. */
    method NextHeader(prev: nat, header: Header, ghost parent: nat, ghost kids: seq<Node>, ghost locs: seq<Loc>,
                      ghost u0: set<nat>)
      returns (ok: bool, cur: nat)
      requires Valid() && bs >= HEADER_SIZE && (forall k :: k in kids ==> Buildable(k))
      requires Underway(image, bs, size, parent, kids, locs, prev, header) &&
                 Claimed(u0, Used(diskMap), LocsBlocks(locs))
      modifies this`image, this`diskMap
      ensures Valid() && Kept(old(image), image, u0)
      ensures ok ==>
                && cur < size && Claimed(Used(old(diskMap)), Used(diskMap), [cur])
                && Chained(image, bs, parent, kids, locs, cur)
      ensures (ok <==> old(Free()) >= 1) && (ok ==> Free() == old(Free()) - 1)
    {
      ghost var u1 := Used(diskMap);
      ok, cur := AllocDiskBlock();
      if ok && prev != NO_BLOCK {
        BuildableHas(kids, |locs| - 1);
        WriteHeader(prev, header.(next := cur), parent, kids, locs, cur, u0, u1);
      }
    }

    /** Lines 246-285: one turn of the loop over the entries. */
    method OneEntry(parent: nat, kids: seq<Node>, ghost locs: seq<Loc>, i: nat, prev: nat, header: Header,
                    ghost u0: set<nat>)
      returns (ok: bool, cur: nat, header': Header, ghost l: Loc)
      requires Valid() && bs >= HEADER_SIZE && (forall k :: k in kids ==> Buildable(k)) && |locs| == i < |kids|
      requires Underway(image, bs, size, parent, kids, locs, prev, header) &&
                 Claimed(u0, Used(diskMap), LocsBlocks(locs))
      modifies this`image, this`diskMap
      decreases kids, 1
      ensures Valid() && Kept(old(image), image, u0)
      ensures ok ==>
                && l.header == cur && cur < size
                && Underway(image, bs, size, parent, kids, locs + [l], cur, header')
                && Claimed(u0, Used(diskMap), LocsBlocks(locs + [l]))
      ensures (ok <==> old(Free()) >= 1 + PayloadNeed(kids[i], bs)) &&
                (ok ==> Free() == old(Free()) - 1 - PayloadNeed(kids[i], bs))
    {
      ghost var i0, u1 := image, Used(diskMap);
      header', l := header, FileLoc(NO_BLOCK, End);
      BuildableHas(kids, i);
      assert prev == PrevOf(locs, i);
      hide Claimed, Chained, Pending, LocsBlocks, Buildable, HeaderOf, Underway, Kept, Free, PayloadNeed;
      ok, cur := NextHeader(prev, header, parent, kids, locs, u0);
      if ok {
        ghost var i1 := image;
        var n := kids[i];
        header' := Header(Cut(n.name), NO_BLOCK, prev, parent, if n.DirNode? then 1 else 0, 0, SizeOf(n), n.times);
        ok, header', l := AddEntry(cur, header', parent, kids, locs, i, u0, u1);
        KeptTrans(i0, i1, image, u0, u0);
        if ok {
          UnderwayNext(image, bs, size, parent, kids, locs, l, header');
        }
      }
    }

    /** Lines 232-290: the entries of one directory, none of which may be empty. */
    method ProcessDir(parent: nat, kids: seq<Node>) returns (ok: bool, first: nat, ghost locs: seq<Loc>)
      requires Valid() && bs >= HEADER_SIZE && kids != [] && forall k :: k in kids ==> Buildable(k)
      modifies this`image, this`diskMap
      decreases kids, 2
      ensures Valid() && Kept(old(image), image, Used(old(diskMap)))
      ensures ok ==>
                && |locs| == |kids| && first == locs[0].header
                && Claimed(Used(old(diskMap)), Used(diskMap), LocsBlocks(locs))
                && DirStored(image, bs, parent, kids, locs)
      ensures (ok <==> old(Free()) >= Needs(kids, bs)) && (ok ==> Free() == old(Free()) - Needs(kids, bs))
    {
      hide Valid, Free, Needs, PayloadNeed, Claimed, Underway, LocsBlocks, Buildable, Kept, Chained, Pending,
           DirStored, HeaderOf, Used;
      BlockSize();
      NeedsEnds(kids, bs);
      ghost var i0, u0 := image, Used(diskMap);
      var prev := NO_BLOCK;
      first := NO_BLOCK;
      locs := [];
      var header := Header([], NO_BLOCK, NO_BLOCK, NO_BLOCK, 0, 0, 0, [0, 0, 0]);
      NothingYet(image, u0, bs, size, parent, kids, header);
      for i := 0 to |kids|
        invariant Valid() && Kept(i0, image, u0)
        invariant |locs| == i && Claimed(u0, Used(diskMap), LocsBlocks(locs))
        invariant Underway(image, bs, size, parent, kids, locs, prev, header)
        invariant i > 0 ==> first == locs[0].header
        invariant Needs(kids[..i], bs) <= old(Free()) && Free() == old(Free()) - Needs(kids[..i], bs)
      {
        NeedsGrow(kids, bs, i);
        ghost var i1 := image;
        ghost var l;
        var ok', cur, header' := false, 0, header;
        ok', cur, header', l := OneEntry(parent, kids, locs, i, prev, header, u0);
        KeptTrans(i0, i1, image, u0, u0);
        if !ok' { return false, first, locs; }
        if i == 0 { first := cur; }
        prev, header := cur, header';
        locs := locs + [l];
      }
      BuildableHas(kids, |kids| - 1);
      LastUnderway(image, bs, size, parent, kids, locs, prev, header);
      ghost var i2 := image;
      WriteHeader(prev, header, parent, kids, locs, NO_BLOCK, u0, Used(diskMap));
      KeptTrans(i0, i2, image, u0, u0);
      ChainedIsStored(image, bs, parent, kids, locs);
      ok := true;
    }
  }

  /** The loop over the entries between two turns: `prev` and the buffer belong to the last
      entry so far. */
  ghost predicate Underway(image: Image, bs: nat, size: nat, parent: nat, kids: seq<Node>, locs: seq<Loc>, prev: nat,
                           header: Header)
    requires bs >= HEADER_SIZE && bs % 8 == 0
  {
    && Pending(image, bs, parent, kids, locs)
    && prev == PrevOf(locs, |locs|)
    && (locs != [] ==>
          && prev < size && prev != NO_BLOCK
          && header == HeaderOf(kids[|locs|-1], locs[|locs|-1], parent, PrevOf(locs, |locs| - 1), NO_BLOCK))
  }

  lemma NothingYet(image: Image, u0: set<nat>, bs: nat, size: nat, parent: nat, kids: seq<Node>, header: Header)
    requires bs >= HEADER_SIZE && bs % 8 == 0
    ensures Underway(image, bs, size, parent, kids, [], NO_BLOCK, header)
    ensures Claimed(u0, u0, LocsBlocks([])) && Kept(image, image, u0)
  {
    ClaimedNothing(u0);
    assert LocsBlocks([]) == [];
  }

  lemma UnderwayNext(image: Image, bs: nat, size: nat, parent: nat, kids: seq<Node>, locs: seq<Loc>, l: Loc,
                     header: Header)
    requires bs >= HEADER_SIZE && bs % 8 == 0 && |locs| < |kids| && Pending(image, bs, parent, kids, locs + [l])
    requires l.header < size < NO_BLOCK32 && header == HeaderOf(kids[|locs|], l, parent, PrevOf(locs, |locs|), NO_BLOCK)
    ensures Underway(image, bs, size, parent, kids, locs + [l], l.header, header)
  {
    MoreAt(locs, l, |locs|);
  }

  lemma LastUnderway(image: Image, bs: nat, size: nat, parent: nat, kids: seq<Node>, locs: seq<Loc>, prev: nat,
                     header: Header)
    requires bs >= HEADER_SIZE && bs % 8 == 0 && Underway(image, bs, size, parent, kids, locs, prev, header) &&
               locs != []
    ensures Pending(image, bs, parent, kids, locs) && prev == locs[|locs|-1].header < size && |locs| <= |kids|
    ensures header == HeaderOf(kids[|locs|-1], locs[|locs|-1], parent, PrevOf(locs, |locs| - 1), NO_BLOCK)
  {
  }

  lemma BuildableHas(kids: seq<Node>, i: nat)
    requires i < |kids| && forall k :: k in kids ==> Buildable(k)
    ensures Buildable(kids[i]) && |kids[i].times| == 3
  {
  }

  lemma UsedByNow(u0: set<nat>, u1: set<nat>, u2: set<nat>, blocks: seq<nat>, cur: nat)
    requires Claimed(u0, u1, blocks) && Claimed(u1, u2, [cur])
    ensures u0 <= u2 && forall b :: b in blocks ==> b in u2
  {
  }

  lemma EntryClaimed(u0: set<nat>, u1: set<nat>, u2: set<nat>, u3: set<nat>, locs: seq<Loc>, l: Loc)
    requires Claimed(u0, u1, LocsBlocks(locs)) && Claimed(u1, u2, [l.header]) && Claimed(u2, u3, PayloadBlocks(l))
    ensures Claimed(u0, u3, LocsBlocks(locs + [l]))
  {
    ClaimedTrans(u1, u2, u3, [l.header], PayloadBlocks(l));
    ClaimedTrans(u0, u1, u3, LocsBlocks(locs), LocBlocks(l));
    assert (locs + [l])[..|locs|] == locs;
  }

  lemma TakeAndDrop(bytes: seq<Byte>, bs: nat)
    requires bs >= 1
    ensures |Take(bytes, bs)| <= bs && |Drop(bytes, bs)| <= |bytes|
    ensures bytes == [] <==> Take(bytes, bs) == []
    ensures bytes == [] ==> Drop(bytes, bs) == []
    ensures bytes != [] ==> |Drop(bytes, bs)| < |bytes|
    ensures |Drop(bytes, bs)| == if |bytes| < bs then 0 else |bytes| - bs
  {
  }

  lemma AtEof(file: HostFile, image: Image, bs: nat)
    requires file.Valid() && file.eof && bs >= 16 && bs % 8 == 0
    ensures ChainBlocks(End) == [] && ChainStored(image, bs, End, file.Rest())
  {
  }

  lemma ListWords(data: seq<nat>, next: nat, bs: nat)
    requires bs >= 16 && bs % 8 == 0 && |data| <= PerList(bs)
    ensures data + NoneEntries(bs / 8 - 1 - |data|) + [next] == ListEntries(data, next, PerList(bs))
  {
  }

  lemma NothingStored(image: Image, bs: nat, r0: seq<Byte>, u0: set<nat>)
    ensures Claimed(u0, u0, []) && Kept(image, image, u0)
    ensures DataStored(image, bs, [], r0) && Left(r0, bs, 0) == r0
  {
    ClaimedNothing(u0);
  }

  lemma NoneEntriesNext(data: seq<nat>, n: nat)
    ensures data + NoneEntries(n) + [NO_BLOCK] == data + NoneEntries(n + 1)
    ensures data + NoneEntries(0) == data
  {
  }

  lemma ClaimedGrows(u0: set<nat>, u1: set<nat>, blocks: seq<nat>)
    requires Claimed(u0, u1, blocks)
    ensures u0 <= u1
  {
  }

  lemma {:induction false} DataAppend(image: Image, bs: nat, data: seq<nat>, bytes: seq<Byte>, b: nat)
    requires DataStored(image, bs, data, bytes) && Left(bytes, bs, |data|) != [] && b < |image|
    requires image[b] == DataSector(Take(Left(bytes, bs, |data|), bs), bs)
    ensures DataStored(image, bs, data + [b], bytes)
    ensures Left(bytes, bs, |data| + 1) == Drop(Left(bytes, bs, |data|), bs)
  {
    if data != [] {
      DataAppend(image, bs, data[1..], Drop(bytes, bs), b);
      assert (data + [b])[1..] == data[1..] + [b];
    } else {
      assert (data + [b])[1..] == [];
    }
  }

  /** The index block was claimed first, so none of the rest is it. */
  lemma ListApart(u0: set<nat>, u1: set<nat>, u2: set<nat>, u3: set<nat>, c: Chain)
    requires c.Link? && Claimed(u0, u1, [c.list]) && Claimed(u1, u2, c.data) && Claimed(u2, u3, ChainBlocks(c.rest))
    ensures c.list !in c.data && c.list !in ChainBlocks(c.rest) && c.list !in u0
    ensures forall b :: b in c.data ==> b in u2
  {
    assert c.list in [c.list];
    assert c.list in u1 && c.list in u2;
  }

  /** The index block is written last, after everything it leads to. */
  lemma LinkStored(i2: Image, i3: Image, image: Image, bs: nat, c: Chain, bytes: seq<Byte>)
    requires bs >= 16 && bs % 8 == 0 && c.Link? && |c.data| <= PerList(bs) && c.list < |i3|
    requires image == i3[c.list := IndexSector(ListEntries(c.data, Head(c.rest), PerList(bs)))]
    requires c.list !in c.data && c.list !in ChainBlocks(c.rest) && Same(i2, i3, c.data)
    requires DataStored(i2, bs, c.data, bytes) && ChainStored(i3, bs, c.rest, Left(bytes, bs, |c.data|))
    requires |c.data| < PerList(bs) ==> c.rest.End?
    ensures ChainStored(image, bs, c, bytes)
  {
    DataStays(i2, i3, bs, c.data, bytes);
    DataStays(i3, image, bs, c.data, bytes);
    ChainStays(i3, image, bs, c.rest, Left(bytes, bs, |c.data|));
  }
}
