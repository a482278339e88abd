/** The ListFS reader of boot.asm: loading a file through its chain of index blocks, and the
    walk over header chains, with the round trip through the builder's image. */
module ListFsReader {
  import opened Options
  import opened ListFsFormat
  import opened ListFsLayout

  // ------------------------------------------------------------ file data

  /** Lines 158-174: the blocks named by entries i..k of an index block, and whether an empty
      entry was met. None for a block off the disk. */
  function LoadEntries(image: Image, list: Sector, i: nat, k: nat): Option<(seq<Byte>, bool)>
    requires 8 * k <= |list|
    decreases k - i
  {
    if i >= k then Some(([], false))
    else
      var e := Read32(list, 8 * i);
      if e == NO_BLOCK32 then Some(([], true))
      else if e >= |image| then None
      else
        var rest := LoadEntries(image, list, i + 1, k);
        if rest.None? then None else Some((image[e] + rest.value.0, rest.value.1))
  }

  /** load_file_data: lists are followed until one of them or an entry is empty. `fuel` bounds
      the number of lists, for images on which the loader would not stop. */
  function Load(image: Image, bs: nat, idx: nat, fuel: nat): Option<seq<Byte>>
    requires bs >= 16 && bs % 8 == 0
    decreases fuel
  {
    if idx == NO_BLOCK32 then Some([])
    else if fuel == 0 || idx >= |image| || |image[idx]| != bs then None
    else
      var here := LoadEntries(image, image[idx], 0, PerList(bs));
      if here.None? then None
      else if here.value.1 then Some(here.value.0)
      else
        var rest := Load(image, bs, Read32(image[idx], 8 * PerList(bs)), fuel - 1);
        if rest.None? then None else Some(here.value.0 + rest.value)
  }

  function Concat(image: Image, data: seq<nat>): seq<Byte> {
    if data == [] then []
    else (if data[0] < |image| then image[data[0]] else []) + Concat(image, data[1..])
  }

  function Lists(c: Chain): nat {
    if c.End? then 0 else 1 + Lists(c.rest)
  }

  lemma {:induction false} ConcatIsPadded(image: Image, bs: nat, data: seq<nat>, bytes: seq<Byte>)
    requires bs >= 1 && DataStored(image, bs, data, bytes)
    ensures Concat(image, data) + Padded(Left(bytes, bs, |data|), bs) == Padded(bytes, bs)
  {
    if data != [] {
      ConcatIsPadded(image, bs, data[1..], Drop(bytes, bs));
      assert Padded(bytes, bs) == DataSector(Take(bytes, bs), bs) + Padded(Drop(bytes, bs), bs);
    }
  }

  /** Word i of an index block, read through 32 bits. */
  lemma EntryReadsBack(data: seq<nat>, next: nat, k: nat, i: nat)
    requires |data| <= k && i <= k
    ensures Read32(IndexSector(ListEntries(data, next, k)), 8 * i)
         == (if i < |data| then data[i] else if i < k then NO_BLOCK else next) % TWO32
  {
    var entries := ListEntries(data, next, k);
    IndexEntry(entries, i);
    WordReadsBack(IndexSector(entries), 8 * i, entries[i]);
  }

  /** One turn of the inner loop. */
  lemma EntriesStep(image: Image, list: Sector, i: nat, k: nat, e: nat)
    requires 8 * k <= |list| && i < k && Read32(list, 8 * i) == e
    ensures e == NO_BLOCK32 ==> LoadEntries(image, list, i, k) == Some(([], true))
    ensures e != NO_BLOCK32 && e < |image| && LoadEntries(image, list, i + 1, k).Some? ==>
              LoadEntries(image, list, i, k)
              == Some((image[e] + LoadEntries(image, list, i + 1, k).value.0,
                  LoadEntries(image, list, i + 1, k).value.1))
    ensures LoadEntries(image, list, i, k).Some? && e != NO_BLOCK32 ==>
              e < |image| && LoadEntries(image, list, i + 1, k).Some?
  {
  }

  lemma ConcatStep(image: Image, data: seq<nat>, i: nat)
    requires i < |data| && data[i] < |image|
    ensures Concat(image, data[i..]) == image[data[i]] + Concat(image, data[i+1..])
  {
    assert data[i..][1..] == data[i+1..];
  }

  lemma EntriesEnd(image: Image, list: Sector, k: nat)
    requires 8 * k <= |list|
    ensures LoadEntries(image, list, k, k) == Some(([], false))
  {
  }

  lemma SmallEntry(e: nat)
    ensures e < NO_BLOCK32 ==> e % TWO32 == e
    ensures NO_BLOCK % TWO32 == NO_BLOCK32
  {
  }

  lemma {:induction false} EntriesLoad(image: Image, data: seq<nat>, next: nat, i: nat, k: nat)
    requires |data| <= k && i <= |data| && |image| < NO_BLOCK32
    requires forall j :: 0 <= j < |data| ==> data[j] < |image|
    ensures LoadEntries(image, IndexSector(ListEntries(data, next, k)), i, k) ==
              Some((Concat(image, data[i..]), |data| < k))
    decreases |data| - i
  {
    hide *;
    var list := IndexSector(ListEntries(data, next, k));
    if i < k {
      EntryReadsBack(data, next, k, i);
      SmallEntry(if i < |data| then data[i] else 0);
      EntriesStep(image, list, i, k, Read32(list, 8 * i));
      if i < |data| {
        EntriesLoad(image, data, next, i + 1, k);
        ConcatStep(image, data, i);
      } else {
        ConcatNone(image, data[i..]);
      }
    } else {
      EntriesEnd(image, list, k);
      ConcatNone(image, data[i..]);
    }
  }

  lemma ConcatNone(image: Image, data: seq<nat>)
    requires data == []
    ensures Concat(image, data) == []
  {
  }

  lemma {:induction false} DataOnDisk(image: Image, bs: nat, data: seq<nat>, bytes: seq<Byte>)
    requires DataStored(image, bs, data, bytes)
    ensures forall j :: 0 <= j < |data| ==> data[j] < |image|
  {
    if data != [] {
      DataOnDisk(image, bs, data[1..], Drop(bytes, bs));
      assert forall j :: 1 <= j < |data| ==> data[j] == data[1..][j-1];
    }
  }

  lemma EndStored(image: Image, bs: nat, c: Chain, bytes: seq<Byte>, fuel: nat)
    requires bs >= 16 && bs % 8 == 0 && c.End? && ChainStored(image, bs, c, bytes)
    ensures Load(image, bs, Head(c) % TWO32, fuel) == Some(Padded(bytes, bs))
  {
  }

  lemma RestStored(image: Image, bs: nat, c: Chain, bytes: seq<Byte>)
    requires bs >= 16 && bs % 8 == 0 && c.Link? && ChainStored(image, bs, c, bytes)
    ensures ChainStored(image, bs, c.rest, Left(bytes, bs, |c.data|)) && Lists(c) == 1 + Lists(c.rest)
    ensures Head(c) == c.list < |image|
  {
  }

  /** Round trip of file data: what was stored loads as the bytes zero-padded to whole blocks. */
  lemma {:induction false} StoredLoads(image: Image, bs: nat, c: Chain, bytes: seq<Byte>, fuel: nat)
    requires bs >= 16 && bs % 8 == 0 && |image| < NO_BLOCK32
    requires ChainStored(image, bs, c, bytes) && fuel >= Lists(c)
    ensures Load(image, bs, Head(c) % TWO32, fuel) == Some(Padded(bytes, bs))
    decreases c
  {
    hide *;
    if c.Link? {
      RestStored(image, bs, c, bytes);
      SmallEntry(c.list);
      StoredLoads(image, bs, c.rest, Left(bytes, bs, |c.data|), fuel - 1);
      LinkLoads(image, bs, c, bytes, fuel);
    } else {
      EndStored(image, bs, c, bytes, fuel);
    }
  }

  /** One turn of the outer loop. */
  lemma LoadStep(image: Image, bs: nat, idx: nat, fuel: nat, here: seq<Byte>, short: bool, next: nat)
    requires bs >= 16 && bs % 8 == 0 && fuel >= 1 && idx != NO_BLOCK32 && idx < |image| && |image[idx]| == bs
    requires LoadEntries(image, image[idx], 0, PerList(bs)) == Some((here, short))
    requires Read32(image[idx], 8 * PerList(bs)) == next
    ensures short ==> Load(image, bs, idx, fuel) == Some(here)
    ensures !short ==> Load(image, bs, idx, fuel).Some? == Load(image, bs, next, fuel - 1).Some?
    ensures !short && Load(image, bs, idx, fuel).Some? ==>
              Load(image, bs, idx, fuel).value == here + Load(image, bs, next, fuel - 1).value
  {
  }

  lemma LinkParts(image: Image, bs: nat, c: Chain, bytes: seq<Byte>)
    requires bs >= 16 && bs % 8 == 0 && c.Link? && ChainStored(image, bs, c, bytes)
    ensures c.list < |image| && image[c.list] == IndexSector(ListEntries(c.data, Head(c.rest), PerList(bs)))
    ensures |image[c.list]| == bs && |c.data| <= PerList(bs) && DataStored(image, bs, c.data, bytes)
    ensures |c.data| < PerList(bs) ==> Padded(Left(bytes, bs, |c.data|), bs) == []
  {
  }

  lemma LinkLoads(image: Image, bs: nat, c: Chain, bytes: seq<Byte>, fuel: nat)
    requires bs >= 16 && bs % 8 == 0 && |image| < NO_BLOCK32 && fuel >= 1
    requires c.Link? && ChainStored(image, bs, c, bytes)
    requires Load(image, bs, Head(c.rest) % TWO32, fuel - 1) == Some(Padded(Left(bytes, bs, |c.data|), bs))
    ensures Load(image, bs, c.list, fuel) == Some(Padded(bytes, bs))
  {
    hide *;
    LinkParts(image, bs, c, bytes);
    var k := PerList(bs);
    DataOnDisk(image, bs, c.data, bytes);
    EntriesLoad(image, c.data, Head(c.rest), 0, k);
    assert c.data[0..] == c.data;
    ConcatIsPadded(image, bs, c.data, bytes);
    EntryReadsBack(c.data, Head(c.rest), k, k);
    LoadStep(image, bs, c.list, fuel, Concat(image, c.data), |c.data| < k, Head(c.rest) % TWO32);
    assert Concat(image, c.data) + [] == Concat(image, c.data);
  }

  /** Lines 158-174 as a loop: `done` when an empty entry ended the file. */
  method LoadList(image: Image, si: Sector, bs: nat, buffer: seq<Byte>) returns (buffer': seq<Byte>, done: bool)
    requires bs >= 16 && bs % 8 == 0 && |si| == bs && LoadEntries(image, si, 0, PerList(bs)).Some?
    ensures LoadEntries(image, si, 0, PerList(bs)).value.1 == done
    ensures buffer' == buffer + LoadEntries(image, si, 0, PerList(bs)).value.0
  {
    buffer' := buffer;
    var k := bs / 8 - 1;
    ghost var here := LoadEntries(image, si, 0, PerList(bs));
    for cx := 0 to k
      invariant LoadEntries(image, si, cx, PerList(bs)).Some?
      invariant buffer' + LoadEntries(image, si, cx, PerList(bs)).value.0 == buffer + here.value.0
      invariant LoadEntries(image, si, cx, PerList(bs)).value.1 == here.value.1
    {
      hide LoadEntries, Read32;
      var block := Read32(si, 8 * cx);
      EntriesStep(image, si, cx, k, block);
      if block == NO_BLOCK32 {
        assert buffer' + [] == buffer';
        return buffer', true;
      }
      ghost var rest := LoadEntries(image, si, cx + 1, PerList(bs));
      assert buffer' + (image[block] + rest.value.0) == (buffer' + image[block]) + rest.value.0;
      buffer' := buffer' + image[block];
    }
    assert buffer' + [] == buffer';
    done := false;
  }

  lemma LoadParts(image: Image, bs: nat, list: nat, fuel: nat)
    requires bs >= 16 && bs % 8 == 0 && Load(image, bs, list, fuel).Some?
    ensures list == NO_BLOCK32 ==> Load(image, bs, list, fuel).value == []
    ensures list != NO_BLOCK32 ==>
              && fuel >= 1 && list < |image| && |image[list]| == bs
              && LoadEntries(image, image[list], 0, PerList(bs)).Some?
  {
  }

  /** load_file_data: the register holds the list or block number, the buffer grows. */
  method LoadFileData(image: Image, bs: nat, first: nat, ghost fuel: nat) returns (buffer: seq<Byte>)
    requires bs >= 16 && bs % 8 == 0 && Load(image, bs, first, fuel).Some?
    ensures Load(image, bs, first, fuel) == Some(buffer)
  {
    hide *;
    var list := first;
    ghost var n := fuel;
    buffer := [];
    LoadParts(image, bs, first, fuel);
    while list != NO_BLOCK32
      invariant Load(image, bs, list, n).Some?
      invariant buffer + Load(image, bs, list, n).value == Load(image, bs, first, fuel).value
      decreases n
    {
      LoadParts(image, bs, list, n);
      var si := image[list];
      PerListFits(bs);
      ghost var here := LoadEntries(image, si, 0, PerList(bs));
      ghost var before := buffer;
      var done;
      buffer, done := LoadList(image, si, bs, buffer);
      var next := Read32(si, bs - 8);
      LoadStep(image, bs, list, n, here.value.0, here.value.1, next);
      if done { return; }
      ghost var rest := Load(image, bs, next, n - 1);
      assert before + (here.value.0 + rest.value) == (before + here.value.0) + rest.value;
      list, n := next, n - 1;
    }
    LoadParts(image, bs, list, n);
    assert buffer + [] == buffer;
  }

  lemma PerListFits(bs: nat)
    requires bs >= 16 && bs % 8 == 0
    ensures 8 * PerList(bs) == bs - 8
  {
  }

  // ------------------------------------------------------------ the directory tree

  /** What is found on an image. */
  datatype Entry = FileEntry(name: seq<Byte>, bytes: seq<Byte>) | DirEntry(name: seq<Byte>, kids: seq<Entry>)

  /** The walk over a header chain, descending through `data` where bit 0 of the flags is set.
      `fuel` bounds the depth of the recursion, for images whose links run in a circle. */
  function ReadDir(image: Image, bs: nat, idx: nat, fuel: nat): Option<seq<Entry>>
    requires bs >= HEADER_SIZE && bs % 8 == 0
    decreases fuel, 1
  {
    if idx == NO_BLOCK32 then Some([])
    else if fuel == 0 || idx >= |image| || |image[idx]| != bs then None
    else
      var here := ReadEntry(image, bs, image[idx], fuel - 1);
      var rest := ReadDir(image, bs, Read32(image[idx], NEXT_AT), fuel - 1);
      if here.None? || rest.None? then None else Some([here.value] + rest.value)
  }

  function ReadEntry(image: Image, bs: nat, h: Sector, fuel: nat): Option<Entry>
    requires bs >= HEADER_SIZE && bs % 8 == 0 && |h| == bs
    decreases fuel, 2
  {
    if Read32(h, FLAGS_AT) % 2 == 1 then
      var kids := ReadDir(image, bs, Read32(h, DATA_AT), fuel);
      if kids.None? then None else Some(DirEntry(ReadName(h), kids.value))
    else
      var bytes := Load(image, bs, Read32(h, DATA_AT), fuel);
      if bytes.None? || Read64(h, SIZE_AT) > |bytes.value| then None
      else Some(FileEntry(ReadName(h), bytes.value[..Read64(h, SIZE_AT)]))
  }

  /** What the input tree should look like on the image. */
  function View(n: Node): Entry
    decreases n, 0
  {
    match n
    case FileNode(name, _, bytes) => FileEntry(Cut(name), bytes)
    case DirNode(name, _, kids) => DirEntry(Cut(name), Views(kids))
  }

  function Views(kids: seq<Node>): seq<Entry>
    decreases kids, 1
  {
    if kids == [] then [] else [View(kids[0])] + Views(kids[1..])
  }

  /** The header chain starting at `idx` is doubly linked below `parent`, and so are the chains
      of the directories it names. */
  ghost predicate WellLinked(image: Image, bs: nat, idx: nat, parent: nat, prev: nat, fuel: nat)
    requires bs >= HEADER_SIZE
    decreases fuel
  {
    idx == NO_BLOCK ||
    (&& fuel >= 1 && idx < |image| && |image[idx]| == bs
     && Read64(image[idx], PARENT_AT) == parent
     && Read64(image[idx], PREV_AT) == prev
     && WellLinked(image, bs, Read64(image[idx], NEXT_AT), parent, idx, fuel - 1)
     && (Read32(image[idx], FLAGS_AT) % 2 == 1 ==>
          WellLinked(image, bs, Read64(image[idx], DATA_AT), idx, NO_BLOCK, fuel - 1)))
  }

  /** A stored header reads back, field by field. */
  lemma HeaderReads(image: Image, bs: nat, n: Node, l: Loc, parent: nat, prev: nat, next: nat)
    requires HeaderStored(image, bs, n, l, parent, prev, next) && 0 !in n.name
    ensures l.header < |image| && |image[l.header]| == bs >= HEADER_SIZE
    ensures ReadName(image[l.header]) == Cut(n.name)
    ensures Read32(image[l.header], NEXT_AT) == next % TWO32
    ensures Read32(image[l.header], DATA_AT) == DataOf(l) % TWO32
    ensures Read32(image[l.header], FLAGS_AT) % 2 == 1 <==> n.DirNode?
    ensures SizeOf(n) < TWO64 ==> Read64(image[l.header], SIZE_AT) == SizeOf(n)
    ensures next < TWO64 ==> Read64(image[l.header], NEXT_AT) == next
    ensures prev < TWO64 ==> Read64(image[l.header], PREV_AT) == prev
    ensures parent < TWO64 ==> Read64(image[l.header], PARENT_AT) == parent
    ensures DataOf(l) < TWO64 ==> Read64(image[l.header], DATA_AT) == DataOf(l)
  {
    hide Read32, Read64, ReadName, HeaderSector, HeaderByte, Fields, Cut, DataOf, NameLength;
    var h := HeaderOf(n, l, parent, prev, next);
    HeaderIs(image, bs, n, l, parent, prev, next);
    NameReadsBack(h, bs);
    HeaderFieldReads(h, bs, 0);
    HeaderFieldReads(h, bs, 1);
    HeaderFieldReads(h, bs, 2);
    HeaderFieldReads(h, bs, 3);
    HeaderFieldReads(h, bs, 4);
    HeaderFieldReads(h, bs, 5);
    FieldsAre(h);
  }

  lemma HeaderIs(image: Image, bs: nat, n: Node, l: Loc, parent: nat, prev: nat, next: nat)
    requires HeaderStored(image, bs, n, l, parent, prev, next) && 0 !in n.name
    ensures var h := HeaderOf(n, l, parent, prev, next);
            && bs >= HEADER_SIZE && l.header < |image| && image[l.header] == HeaderSector(h, bs)
            && |h.name| < NAME_SIZE && |h.times| == 3 && 0 !in h.name
  {
  }

  lemma HeaderFieldReads(h: Header, bs: nat, i: nat)
    requires |h.name| < NAME_SIZE && |h.times| == 3 && bs >= HEADER_SIZE && i < 9
    ensures Read32(HeaderSector(h, bs), NAME_SIZE + 8 * i) == Fields(h)[i] % TWO32
    ensures Fields(h)[i] < TWO64 ==> Read64(HeaderSector(h, bs), NAME_SIZE + 8 * i) == Fields(h)[i]
  {
    hide HeaderSector, HeaderByte, HasWord, Read32, Read64, Le;
    HeaderWord(h, bs, i);
    WordReadsBack(HeaderSector(h, bs), NAME_SIZE + 8 * i, Fields(h)[i]);
  }

  lemma FieldsAre(h: Header)
    requires |h.times| == 3
    ensures Fields(h)[0] == h.next && Fields(h)[1] == h.prev && Fields(h)[2] == h.parent
    ensures Fields(h)[3] == h.flags && Fields(h)[4] == h.data && Fields(h)[5] == h.size
  {
  }

  function StartAt(locs: seq<Loc>, i: nat): nat
    requires i <= |locs|
  {
    if i == |locs| then NO_BLOCK else locs[i].header
  }

  /** Blocks from entry i on; enough fuel for them. */
  function BlocksFrom(locs: seq<Loc>, i: nat): int
    requires i <= |locs|
  {
    |LocsBlocks(locs)| - |LocsBlocks(locs[..i])|
  }

  lemma {:induction false} BlocksFromStep(locs: seq<Loc>, i: nat)
    requires i < |locs|
    ensures BlocksFrom(locs, i) == 1 + |PayloadBlocks(locs[i])| + BlocksFrom(locs, i + 1)
    ensures BlocksFrom(locs, i + 1) >= 0
    decreases |locs| - i
  {
    var ls := locs[..i+1];
    assert ls[..|ls|-1] == locs[..i] && ls[|ls|-1] == locs[i];
    assert LocsBlocks(ls) == LocsBlocks(locs[..i]) + LocBlocks(locs[i]);
    if i + 1 < |locs| {
      BlocksFromStep(locs, i + 1);
    } else {
      assert locs[..i+1] == locs;
    }
  }

  lemma {:induction false} ListsAreBlocks(c: Chain)
    ensures Lists(c) <= |ChainBlocks(c)|
  {
    if c.Link? { ListsAreBlocks(c.rest); }
  }

  /** One header of a chain that reads. */
  lemma ReadDirStep(image: Image, bs: nat, idx: nat, fuel: nat, e: Entry, rest: seq<Entry>)
    requires bs >= HEADER_SIZE && bs % 8 == 0 && fuel >= 1 && idx < |image| && idx < NO_BLOCK32 && |image[idx]| == bs
    requires ReadEntry(image, bs, image[idx], fuel - 1) == Some(e)
    requires ReadDir(image, bs, Read32(image[idx], NEXT_AT), fuel - 1) == Some(rest)
    ensures ReadDir(image, bs, idx, fuel) == Some([e] + rest)
  {
  }

  lemma ReadDirEnd(image: Image, bs: nat, fuel: nat)
    requires bs >= HEADER_SIZE && bs % 8 == 0
    ensures ReadDir(image, bs, NO_BLOCK32, fuel) == Some([])
  {
  }

  lemma ReadFile(image: Image, bs: nat, h: Sector, fuel: nat, bytes: seq<Byte>)
    requires bs >= HEADER_SIZE && bs % 8 == 0 && |h| == bs && Read32(h, FLAGS_AT) % 2 != 1
    requires Load(image, bs, Read32(h, DATA_AT), fuel) == Some(Padded(bytes, bs)) && Read64(h, SIZE_AT) == |bytes|
    ensures ReadEntry(image, bs, h, fuel) == Some(FileEntry(ReadName(h), bytes))
  {
    PaddedStartsWith(bytes, bs);
  }

  lemma ReadSubdir(image: Image, bs: nat, h: Sector, fuel: nat, kids: seq<Entry>)
    requires bs >= HEADER_SIZE && bs % 8 == 0 && |h| == bs && Read32(h, FLAGS_AT) % 2 == 1
    requires ReadDir(image, bs, Read32(h, DATA_AT), fuel) == Some(kids)
    ensures ReadEntry(image, bs, h, fuel) == Some(DirEntry(ReadName(h), kids))
  {
  }

  lemma DirAt(image: Image, bs: nat, parent: nat, kids: seq<Node>, locs: seq<Loc>, i: nat)
    requires bs >= HEADER_SIZE && bs % 8 == 0 && DirStored(image, bs, parent, kids, locs) && i < |kids|
    ensures |locs| == |kids| && PayloadStored(image, bs, kids[i], locs[i])
    ensures HeaderStored(image, bs, kids[i], locs[i], parent, PrevOf(locs, i), StartAt(locs, i + 1))
  {
  }

  lemma ViewsFrom(kids: seq<Node>, i: nat)
    requires i <= |kids|
    ensures i < |kids| ==> Views(kids[i..]) == [View(kids[i])] + Views(kids[i+1..])
    ensures i == |kids| ==> Views(kids[i..]) == []
  {
    if i < |kids| { assert kids[i..][1..] == kids[i+1..]; }
  }

  lemma BuildableParts(n: Node)
    requires Buildable(n)
    ensures 0 !in n.name && SizeOf(n) < TWO64
    ensures n.DirNode? ==> n.kids != [] && forall k :: k in n.kids ==> Buildable(k)
  {
  }

  lemma FileParts(image: Image, bs: nat, n: Node, l: Loc)
    requires bs >= HEADER_SIZE && bs % 8 == 0 && PayloadStored(image, bs, n, l) && n.FileNode?
    ensures l.FileLoc? && ChainStored(image, bs, l.chain, n.bytes) && DataOf(l) == Head(l.chain)
    ensures bs >= 16 && PayloadBlocks(l) == ChainBlocks(l.chain) && View(n) == FileEntry(Cut(n.name), n.bytes) &&
              SizeOf(n) == |n.bytes|
  {
  }

  lemma SubdirParts(image: Image, bs: nat, n: Node, l: Loc)
    requires bs >= HEADER_SIZE && bs % 8 == 0 && PayloadStored(image, bs, n, l) && n.DirNode? && n.kids != []
    ensures l.DirLoc? && DirStored(image, bs, l.header, n.kids, l.kids) && DataOf(l) == StartAt(l.kids, 0)
    ensures |l.kids| == |n.kids| && BlocksFrom(l.kids, 0) == |PayloadBlocks(l)|
    ensures View(n) == DirEntry(Cut(n.name), Views(n.kids)) && n.kids[0..] == n.kids
  {
    assert l.kids[..0] == [];
  }

  /** Entry i reads back: a file with its bytes, a directory with everything below it. */
  lemma {:induction false} EntryReads(image: Image, bs: nat, n: Node, l: Loc, h: Sector, fuel: nat)
    requires bs >= HEADER_SIZE && bs % 8 == 0 && |image| < NO_BLOCK32 && PayloadStored(image, bs, n, l) && Buildable(n)
    requires |h| == bs && ReadName(h) == Cut(n.name) && Read32(h, DATA_AT) == DataOf(l) % TWO32
    requires (Read32(h, FLAGS_AT) % 2 == 1 <==> n.DirNode?) && Read64(h, SIZE_AT) == SizeOf(n)
    requires fuel >= |PayloadBlocks(l)|
    ensures ReadEntry(image, bs, h, fuel) == Some(View(n))
    decreases n, 0
  {
    hide *;
    BuildableParts(n);
    if n.FileNode? {
      FileParts(image, bs, n, l);
      ListsAreBlocks(l.chain);
      StoredLoads(image, bs, l.chain, n.bytes, fuel);
      ReadFile(image, bs, h, fuel, n.bytes);
    } else {
      SubdirParts(image, bs, n, l);
      DirReads(image, bs, l.header, n.kids, l.kids, 0, fuel);
      ReadSubdir(image, bs, h, fuel, Views(n.kids));
    }
  }

  lemma {:induction false} DirReads(image: Image, bs: nat, parent: nat, kids: seq<Node>, locs: seq<Loc>, i: nat,
                                    fuel: nat)
    requires bs >= HEADER_SIZE && bs % 8 == 0 && |image| < NO_BLOCK32 && DirStored(image, bs, parent, kids, locs)
    requires forall k :: k in kids ==> Buildable(k)
    requires i <= |kids| == |locs| && fuel >= BlocksFrom(locs, i)
    ensures ReadDir(image, bs, StartAt(locs, i) % TWO32, fuel) == Some(Views(kids[i..]))
    decreases kids, 1, |kids| - i
  {
    hide *;
    StartIs(image, locs, i);
    ViewsFrom(kids, i);
    if i < |kids| {
      DirAt(image, bs, parent, kids, locs, i);
      BuildableParts(kids[i]);
      HeaderReads(image, bs, kids[i], locs[i], parent, PrevOf(locs, i), StartAt(locs, i + 1));
      BlocksFromStep(locs, i);
      SmallEntry(locs[i].header);
      var h := image[locs[i].header];
      EntryReads(image, bs, kids[i], locs[i], h, fuel - 1);
      DirReads(image, bs, parent, kids, locs, i + 1, fuel - 1);
      ReadDirStep(image, bs, locs[i].header, fuel, View(kids[i]), Views(kids[i+1..]));
    } else {
      SmallEntry(0);
      ReadDirEnd(image, bs, fuel);
    }
  }

  /** Distinct numbers below n. */
  lemma {:induction false} Pigeonhole(s: seq<nat>, n: nat)
    requires NoDup(s) && forall b :: b in s ==> b < n
    ensures |s| <= n
  {
    if s != [] {
      assert s[0] in s;
      if i :| 0 <= i < |s| && s[i] == n - 1 {
        WithoutLast(s, i, n);
        Pigeonhole(s[..i] + s[i+1..], n - 1);
      } else {
        Pigeonhole(s, n - 1);
      }
    }
  }

  lemma WithoutLast(s: seq<nat>, i: nat, n: nat)
    requires NoDup(s) && (forall b :: b in s ==> b < n) && i < |s| && s[i] == n - 1
    ensures var t := s[..i] + s[i+1..]; NoDup(t) && forall b :: b in t ==> b < n - 1
  {
    var t := s[..i] + s[i+1..];
    forall k | 0 <= k < |t|
      ensures t[k] == s[if k < i then k else k + 1] && t[k] < n - 1
    {
      assert s[if k < i then k else k + 1] in s;
    }
  }

  /** Round trip of a directory tree: the reader finds the names (cut to 255 bytes), the order,
      the nesting and the contents the builder was given. */
  lemma TreeReadsBack(image: Image, bs: nat, parent: nat, root: seq<Node>, locs: seq<Loc>)
    requires bs >= HEADER_SIZE && bs % 8 == 0 && |image| < NO_BLOCK32 && DirStored(image, bs, parent, root, locs)
    requires (forall k :: k in root ==> Buildable(k)) && NoDup(LocsBlocks(locs)) &&
               (forall b :: b in LocsBlocks(locs) ==> b < |image|)
    ensures ReadDir(image, bs, StartAt(locs, 0) % TWO32, |image|) == Some(Views(root))
  {
    Pigeonhole(LocsBlocks(locs), |image|);
    assert locs[..0] == [] && root[0..] == root;
    DirReads(image, bs, parent, root, locs, 0, |image|);
  }

  /** prev inverts next and parent names the enclosing header, at every depth. */
  lemma {:induction false} DirLinks(image: Image, bs: nat, parent: nat, kids: seq<Node>, locs: seq<Loc>, i: nat,
                                    fuel: nat)
    requires bs >= HEADER_SIZE && bs % 8 == 0 && |image| < NO_BLOCK32 && DirStored(image, bs, parent, kids, locs)
    requires (forall k :: k in kids ==> Buildable(k)) && parent < TWO64
    requires i <= |kids| == |locs| && fuel >= BlocksFrom(locs, i)
    ensures WellLinked(image, bs, StartAt(locs, i), parent, PrevOf(locs, i), fuel)
    decreases kids, 1, |kids| - i
  {
    hide *;
    StartIs(image, locs, i);
    if i < |kids| {
      DirAt(image, bs, parent, kids, locs, i);
      BuildableParts(kids[i]);
      LinksSmall(image, bs, parent, kids, locs, i);
      HeaderReads(image, bs, kids[i], locs[i], parent, PrevOf(locs, i), StartAt(locs, i + 1));
      BlocksFromStep(locs, i);
      DirLinks(image, bs, parent, kids, locs, i + 1, fuel - 1);
      if kids[i].DirNode? {
        SubdirParts(image, bs, kids[i], locs[i]);
        LinksSmall(image, bs, locs[i].header, kids[i].kids, locs[i].kids, 0);
        StartIs(image, locs[i].kids, 0);
        DirLinks(image, bs, locs[i].header, kids[i].kids, locs[i].kids, 0, fuel - 1);
      }
      LinkedStep(image, bs, locs[i].header, parent, PrevOf(locs, i), fuel);
    } else {
      LinkedEnd(image, bs, parent, PrevOf(locs, i), fuel);
    }
  }

  lemma LinksSmall(image: Image, bs: nat, parent: nat, kids: seq<Node>, locs: seq<Loc>, i: nat)
    requires bs >= HEADER_SIZE && bs % 8 == 0 && |image| < NO_BLOCK32 && DirStored(image, bs, parent, kids, locs) &&
               i < |kids|
    ensures |locs| == |kids| && locs[i].header < |image| && locs[i].header < TWO64
    ensures PrevOf(locs, i) < TWO64 && StartAt(locs, i + 1) < TWO64
    ensures i == 0 ==> PrevOf(locs, i) == NO_BLOCK
    ensures PrevOf(locs, i + 1) == locs[i].header
  {
    if i > 0 { DirAt(image, bs, parent, kids, locs, i - 1); }
    if i + 1 < |kids| { DirAt(image, bs, parent, kids, locs, i + 1); }
  }

  lemma LinkedStep(image: Image, bs: nat, idx: nat, parent: nat, prev: nat, fuel: nat)
    requires bs >= HEADER_SIZE && fuel >= 1 && idx < |image| && |image[idx]| == bs
    requires Read64(image[idx], PARENT_AT) == parent && Read64(image[idx], PREV_AT) == prev
    requires WellLinked(image, bs, Read64(image[idx], NEXT_AT), parent, idx, fuel - 1)
    requires Read32(image[idx], FLAGS_AT) % 2 == 1 ==>
               WellLinked(image, bs, Read64(image[idx], DATA_AT), idx, NO_BLOCK, fuel - 1)
    ensures WellLinked(image, bs, idx, parent, prev, fuel)
  {
  }

  lemma LinkedEnd(image: Image, bs: nat, parent: nat, prev: nat, fuel: nat)
    requires bs >= HEADER_SIZE
    ensures WellLinked(image, bs, NO_BLOCK, parent, prev, fuel)
  {
  }

  lemma StartIs(image: Image, locs: seq<Loc>, i: nat)
    requires i <= |locs|
    ensures StartAt(locs, i) == if i == |locs| then NO_BLOCK else locs[i].header
  {
  }

}
