/** Where the parts of a directory tree lie on a ListFS image, and what it means that they
    are stored there. */
module ListFsLayout {
  import opened ListFsFormat

  /** A file, or a directory of entries. `times` are the three stamps of its header. */
  datatype Node =
    | FileNode(name: seq<Byte>, times: seq<nat>, bytes: seq<Byte>)
    | DirNode(name: seq<Byte>, times: seq<nat>, kids: seq<Node>)

  /** The chain of index blocks of a file: the block of each list, the data blocks it names,
      and the next list. */
  datatype Chain = End | Link(list: nat, data: seq<nat>, rest: Chain)

  /** Where a node lies: its header, and its chain or its entries. */
  datatype Loc = FileLoc(header: nat, chain: Chain) | DirLoc(header: nat, kids: seq<Loc>)

  // ------------------------------------------------------------ file data

  /** Data blocks named by one index block. */
  function PerList(bs: nat): nat
    requires bs >= 16 && bs % 8 == 0
  {
    bs / 8 - 1
  }

  function Head(c: Chain): nat {
    if c.End? then NO_BLOCK else c.list
  }

  function NoneEntries(n: nat): (s: seq<nat>)
    ensures |s| == n && forall i :: 0 <= i < n ==> s[i] == NO_BLOCK
  {
    seq(n, _ => NO_BLOCK)
  }

  /** The words of an index block. */
  function ListEntries(data: seq<nat>, next: nat, k: nat): (s: seq<nat>)
    requires |data| <= k
    ensures |s| == k + 1
  {
    data + NoneEntries(k - |data|) + [next]
  }

  function Take(bytes: seq<Byte>, bs: nat): seq<Byte> {
    if |bytes| <= bs then bytes else bytes[..bs]
  }

  function Drop(bytes: seq<Byte>, bs: nat): seq<Byte> {
    if |bytes| <= bs then [] else bytes[bs..]
  }

  /** What is left of the bytes after n blocks. */
  function Left(bytes: seq<Byte>, bs: nat, n: nat): seq<Byte>
    decreases n
  {
    if n == 0 then bytes else Left(Drop(bytes, bs), bs, n - 1)
  }

  /** The data blocks hold the first |data| blocks of bytes, none of them empty. */
  ghost predicate DataStored(image: Image, bs: nat, data: seq<nat>, bytes: seq<Byte>) {
    data == [] ||
    (&& bytes != [] && data[0] < |image|
     && image[data[0]] == DataSector(Take(bytes, bs), bs)
     && DataStored(image, bs, data[1..], Drop(bytes, bs)))
  }

  ghost predicate ChainStored(image: Image, bs: nat, c: Chain, bytes: seq<Byte>)
    requires bs >= 16 && bs % 8 == 0
    decreases c
  {
    match c
    case End => bytes == []
    case Link(list, data, rest) =>
      && |data| <= PerList(bs) && list < |image|
      && image[list] == IndexSector(ListEntries(data, Head(rest), PerList(bs)))
      && DataStored(image, bs, data, bytes)
      && (|data| < PerList(bs) ==> rest.End?)
      && ChainStored(image, bs, rest, Left(bytes, bs, |data|))
  }

  function ChainBlocks(c: Chain): seq<nat> {
    match c
    case End => []
    case Link(list, data, rest) => [list] + data + ChainBlocks(rest)
  }

  // ------------------------------------------------------------ headers and directories

  /** strncpy to 255 characters. */
  function Cut(name: seq<Byte>): (r: seq<Byte>)
    ensures |r| < NAME_SIZE && r <= name
    ensures |r| == if |name| <= 255 then |name| else 255
  {
    if |name| < NAME_SIZE then name else name[..NAME_SIZE - 1]
  }

  function DataOf(l: Loc): nat {
    match l
    case FileLoc(_, chain) => Head(chain)
    case DirLoc(_, kids) => if kids == [] then NO_BLOCK else kids[0].header
  }

  function SizeOf(n: Node): nat {
    if n.FileNode? then |n.bytes| else 0
  }

  function HeaderOf(n: Node, l: Loc, parent: nat, prev: nat, next: nat): Header {
    Header(Cut(n.name), next, prev, parent, if n.DirNode? then 1 else 0, DataOf(l), SizeOf(n), n.times)
  }

  ghost predicate HeaderStored(image: Image, bs: nat, n: Node, l: Loc, parent: nat, prev: nat, next: nat) {
    && bs >= HEADER_SIZE && |n.times| == 3
    && l.header < |image| && image[l.header] == HeaderSector(HeaderOf(n, l, parent, prev, next), bs)
  }

  /** What is on disk for a file or directory: name, links, flags, data, size and times. */
  lemma EntryLayout(image: Image, bs: nat, n: Node, l: Loc, parent: nat, prev: nat, next: nat)
    requires HeaderStored(image, bs, n, l, parent, prev, next)
    ensures var s := image[l.header];
            && |s| == bs >= 328 && (forall k :: 0 <= k < |n.name| && k < 255 ==> s[k] == n.name[k])
            && (forall k :: |n.name| <= k < 256 || k == 255 ==> s[k] == 0)
            && StoredAt(s, 256, next) && StoredAt(s, 264, prev) && StoredAt(s, 272, parent)
            && StoredAt(s, 280, if n.DirNode? then 1 else 0) && StoredAt(s, 288, DataOf(l))
            && StoredAt(s, 296, if n.FileNode? then |n.bytes| else 0)
            && StoredAt(s, 304, n.times[0]) && StoredAt(s, 312, n.times[1]) && StoredAt(s, 320, n.times[2])
  {
    hide HeaderSector, StoredAt;
    HeaderLayout(HeaderOf(n, l, parent, prev, next), bs);
    var s, name := image[l.header], Cut(n.name);
    assert s[..|name|] == name;
    assert forall k :: 0 <= k < |name| ==> s[k] == s[..|name|][k];
  }

  /** An index block: the data blocks it names, -1 in the entries that are left, and in the last
      eight bytes the next list. */
  lemma IndexLayout(data: seq<nat>, next: nat, bs: nat)
    requires bs >= 16 && bs % 8 == 0 && |data| <= PerList(bs)
    ensures var s := IndexSector(ListEntries(data, next, PerList(bs)));
            && |s| == bs && StoredAt(s, bs - 8, next)
            && (forall i :: 0 <= i < |data| ==> StoredAt(s, 8 * i, data[i]))
            && (forall i :: |data| <= i < bs / 8 - 1 ==> StoredAt(s, 8 * i, 0xFFFF_FFFF_FFFF_FFFF))
  {
    hide IndexSector, StoredAt, HasWord;
    var entries := ListEntries(data, next, PerList(bs));
    forall i | 0 <= i < |data|
      ensures StoredAt(IndexSector(entries), 8 * i, data[i])
    {
      IndexEntry(entries, i);
      StoredWord(IndexSector(entries), 8 * i, entries[i]);
    }
    forall i | |data| <= i < bs / 8 - 1
      ensures StoredAt(IndexSector(entries), 8 * i, 0xFFFF_FFFF_FFFF_FFFF)
    {
      IndexEntry(entries, i);
      StoredWord(IndexSector(entries), 8 * i, entries[i]);
    }
    IndexEntry(entries, PerList(bs));
    StoredWord(IndexSector(entries), 8 * PerList(bs), next);
  }

  function PrevOf(locs: seq<Loc>, i: nat): nat
    requires i <= |locs|
  {
    if i == 0 then NO_BLOCK else locs[i-1].header
  }

  /** The header after entry i; `last` for the last one. */
  function Following(locs: seq<Loc>, i: nat, last: nat): nat
    requires i < |locs|
  {
    if i + 1 == |locs| then last else locs[i+1].header
  }

  /** The chain or the directory behind a header. */
  ghost predicate PayloadStored(image: Image, bs: nat, n: Node, l: Loc)
    requires bs >= HEADER_SIZE && bs % 8 == 0
    decreases n, 0
  {
    match n
    case FileNode(_, _, bytes) => l.FileLoc? && ChainStored(image, bs, l.chain, bytes)
    case DirNode(_, _, kids) => l.DirLoc? && DirStored(image, bs, l.header, kids, l.kids)
  }

  /** The entries of one directory: headers chained both ways under the same parent. */
  ghost predicate DirStored(image: Image, bs: nat, parent: nat, kids: seq<Node>, locs: seq<Loc>)
    requires bs >= HEADER_SIZE && bs % 8 == 0
    decreases kids, 1
  {
    && |locs| == |kids|
    && (forall i :: 0 <= i < |kids| ==>
         HeaderStored(image, bs, kids[i], locs[i], parent, PrevOf(locs, i), Following(locs, i, NO_BLOCK)))
    && (forall i :: 0 <= i < |kids| ==> PayloadStored(image, bs, kids[i], locs[i]))
  }

  function PayloadBlocks(l: Loc): seq<nat>
    decreases l, 0
  {
    match l
    case FileLoc(_, chain) => ChainBlocks(chain)
    case DirLoc(_, kids) => LocsBlocks(kids)
  }

  function LocBlocks(l: Loc): seq<nat>
    decreases l, 1
  {
    [l.header] + PayloadBlocks(l)
  }

  function LocsBlocks(ls: seq<Loc>): seq<nat>
    decreases ls, 2
  {
    if ls == [] then [] else LocsBlocks(ls[..|ls|-1]) + LocBlocks(ls[|ls|-1])
  }

  /** What the builder needs of its input: names without zero bytes, three time stamps, sizes
      of 64 bits, and no empty directory. */
  ghost predicate Buildable(n: Node) {
    && 0 !in n.name && |n.times| == 3 && SizeOf(n) < TWO64
    && (n.DirNode? ==> n.kids != [] && forall k :: k in n.kids ==> Buildable(k))
  }

  // ------------------------------------------------------------ ownership

  ghost predicate NoDup(s: seq<nat>) {
    forall i, j :: 0 <= i < j < |s| ==> s[i] != s[j]
  }

  /** Blocks of the list were free and are in use now, and nothing else has changed hands. */
  ghost predicate Claimed(used: set<nat>, used': set<nat>, blocks: seq<nat>) {
    && NoDup(blocks)
    && (forall b :: b in blocks ==> b !in used)
    && (forall b :: b in used' <==> b in used || b in blocks)
  }

  lemma ClaimedNothing(used: set<nat>)
    ensures Claimed(used, used, [])
  {
  }

  lemma ClaimedTrans(u0: set<nat>, u1: set<nat>, u2: set<nat>, a: seq<nat>, b: seq<nat>)
    requires Claimed(u0, u1, a) && Claimed(u1, u2, b)
    ensures Claimed(u0, u2, a + b)
  {
    var s := a + b;
    forall i, j | 0 <= i < j < |s|
      ensures s[i] != s[j]
    {
      if i < |a| <= j {
        assert s[i] in a && s[j] in b && s[i] in u1;
      } else if j < |a| {
        assert s[i] == a[i] && s[j] == a[j];
      } else {
        assert s[i] == b[i - |a|] && s[j] == b[j - |a|];
      }
    }
  }

  /** Blocks in use keep their contents. */
  ghost predicate Kept(image: Image, image': Image, used: set<nat>) {
    && |image'| == |image|
    && forall b :: b in used && b < |image| ==> image'[b] == image[b]
  }

  lemma KeptTrans(i0: Image, i1: Image, i2: Image, u0: set<nat>, u1: set<nat>)
    requires Kept(i0, i1, u0) && Kept(i1, i2, u1) && u0 <= u1
    ensures Kept(i0, i2, u0)
  {
  }

  // ------------------------------------------------------------ stored things stay stored

  ghost predicate Same(image: Image, image': Image, blocks: seq<nat>) {
    && |image'| == |image|
    && forall b :: b in blocks && b < |image| ==> image'[b] == image[b]
  }

  lemma {:induction false} DataStays(image: Image, image': Image, bs: nat, data: seq<nat>, bytes: seq<Byte>)
    requires DataStored(image, bs, data, bytes) && Same(image, image', data)
    ensures DataStored(image', bs, data, bytes)
  {
    if data != [] {
      assert data[0] in data;
      DataStays(image, image', bs, data[1..], Drop(bytes, bs));
    }
  }

  lemma {:induction false} ChainStays(image: Image, image': Image, bs: nat, c: Chain, bytes: seq<Byte>)
    requires bs >= 16 && bs % 8 == 0 && ChainStored(image, bs, c, bytes) && Same(image, image', ChainBlocks(c))
    ensures ChainStored(image', bs, c, bytes)
    decreases c
  {
    if c.Link? {
      assert c.list in ChainBlocks(c);
      assert forall b :: b in c.data ==> b in ChainBlocks(c);
      assert forall b :: b in ChainBlocks(c.rest) ==> b in ChainBlocks(c);
      DataStays(image, image', bs, c.data, bytes);
      ChainStays(image, image', bs, c.rest, Left(bytes, bs, |c.data|));
    }
  }

  lemma {:induction false} LocBlockIn(ls: seq<Loc>, i: nat, b: nat)
    requires i < |ls| && b in LocBlocks(ls[i])
    ensures b in LocsBlocks(ls)
  {
    if i < |ls| - 1 { LocBlockIn(ls[..|ls|-1], i, b); }
  }

  lemma {:induction false} PayloadStays(image: Image, image': Image, bs: nat, n: Node, l: Loc)
    requires bs >= HEADER_SIZE && bs % 8 == 0 && PayloadStored(image, bs, n, l) && Same(image, image', PayloadBlocks(l))
    ensures PayloadStored(image', bs, n, l)
    decreases n, 0
  {
    match n {
      case FileNode(_, _, bytes) =>
        ChainStays(image, image', bs, l.chain, bytes);
      case DirNode(_, _, kids) =>
        DirStays(image, image', bs, l.header, kids, l.kids);
    }
  }

  lemma {:induction false} DirStays(image: Image, image': Image, bs: nat, parent: nat, kids: seq<Node>, locs: seq<Loc>)
    requires bs >= HEADER_SIZE && bs % 8 == 0 && DirStored(image, bs, parent, kids, locs) &&
               Same(image, image', LocsBlocks(locs))
    ensures DirStored(image', bs, parent, kids, locs)
    decreases kids, 1
  {
    forall i | 0 <= i < |kids|
      ensures HeaderStored(image', bs, kids[i], locs[i], parent, PrevOf(locs, i), Following(locs, i, NO_BLOCK))
      ensures PayloadStored(image', bs, kids[i], locs[i])
    {
      forall b | b in LocBlocks(locs[i])
        ensures b in LocsBlocks(locs)
      {
        LocBlockIn(locs, i, b);
      }
      assert locs[i].header in LocBlocks(locs[i]);
      assert HeaderStored(image, bs, kids[i], locs[i], parent, PrevOf(locs, i), Following(locs, i, NO_BLOCK));
      PayloadStays(image, image', bs, kids[i], locs[i]);
    }
  }

  // ------------------------------------------------------------ a directory in the making

  /** The first |locs| entries with their headers chained, the last one pointing to `last`. */
  ghost predicate Chained(image: Image, bs: nat, parent: nat, kids: seq<Node>, locs: seq<Loc>, last: nat)
    requires bs >= HEADER_SIZE && bs % 8 == 0
  {
    && |locs| <= |kids|
    && (forall i :: 0 <= i < |locs| ==>
          HeaderStored(image, bs, kids[i], locs[i], parent, PrevOf(locs, i), Following(locs, i, last)))
    && (forall i :: 0 <= i < |locs| ==> PayloadStored(image, bs, kids[i], locs[i]))
  }

  /** The same while the last header is still in the buffer. */
  ghost predicate Pending(image: Image, bs: nat, parent: nat, kids: seq<Node>, locs: seq<Loc>)
    requires bs >= HEADER_SIZE && bs % 8 == 0
  {
    && |locs| <= |kids|
    && (forall i :: 0 <= i < |locs| - 1 ==>
          HeaderStored(image, bs, kids[i], locs[i], parent, PrevOf(locs, i), locs[i+1].header))
    && (forall i :: 0 <= i < |locs| ==> PayloadStored(image, bs, kids[i], locs[i]))
  }

  lemma ChainedIsStored(image: Image, bs: nat, parent: nat, kids: seq<Node>, locs: seq<Loc>)
    requires bs >= HEADER_SIZE && bs % 8 == 0 && Chained(image, bs, parent, kids, locs, NO_BLOCK) && |locs| == |kids|
    ensures DirStored(image, bs, parent, kids, locs)
  {
  }

  lemma ChainedStays(image: Image, image': Image, bs: nat, parent: nat, kids: seq<Node>, locs: seq<Loc>, last: nat)
    requires bs >= HEADER_SIZE && bs % 8 == 0 && Chained(image, bs, parent, kids, locs, last) &&
               Same(image, image', LocsBlocks(locs))
    ensures Chained(image', bs, parent, kids, locs, last)
  {
    forall i | 0 <= i < |locs|
      ensures HeaderStored(image', bs, kids[i], locs[i], parent, PrevOf(locs, i), Following(locs, i, last))
      ensures PayloadStored(image', bs, kids[i], locs[i])
    {
      LocsBlocksAt(locs, i);
      PayloadStays(image, image', bs, kids[i], locs[i]);
    }
  }

  lemma LocsBlocksAt(locs: seq<Loc>, i: nat)
    requires i < |locs|
    ensures locs[i].header in LocsBlocks(locs)
    ensures forall b :: b in PayloadBlocks(locs[i]) ==> b in LocsBlocks(locs)
  {
    forall b | b in LocBlocks(locs[i])
      ensures b in LocsBlocks(locs)
    {
      LocBlockIn(locs, i, b);
    }
    assert LocBlocks(locs[i])[0] == locs[i].header;
  }

  /** One entry more, its header still in the buffer. */
  lemma PendingNext(image: Image, bs: nat, parent: nat, kids: seq<Node>, locs: seq<Loc>, l: Loc)
    requires bs >= HEADER_SIZE && bs % 8 == 0 && |locs| < |kids|
    requires Chained(image, bs, parent, kids, locs, l.header) && PayloadStored(image, bs, kids[|locs|], l)
    ensures Pending(image, bs, parent, kids, locs + [l])
  {
    var more := locs + [l];
    forall i | 0 <= i < |more|
      ensures PayloadStored(image, bs, kids[i], more[i])
      ensures i < |more| - 1 ==> HeaderStored(image, bs, kids[i], more[i], parent, PrevOf(more, i), more[i+1].header)
    {
      MoreAt(locs, l, i);
      hide HeaderStored, PayloadStored;
      if i < |locs| {
        assert PayloadStored(image, bs, kids[i], locs[i]);
        assert HeaderStored(image, bs, kids[i], locs[i], parent, PrevOf(locs, i), Following(locs, i, l.header));
      }
    }
  }

  lemma MoreAt(locs: seq<Loc>, l: Loc, i: nat)
    requires i <= |locs|
    ensures (locs + [l])[i] == if i < |locs| then locs[i] else l
    ensures PrevOf(locs + [l], i) == PrevOf(locs, i)
    ensures i < |locs| ==> (locs + [l])[i+1].header == Following(locs, i, l.header)
  {
  }

  lemma {:induction false} LastHeaderApart(locs: seq<Loc>, j: nat)
    requires locs != [] && NoDup(LocsBlocks(locs)) && j < |locs|
    ensures locs[|locs|-1].header !in PayloadBlocks(locs[j])
    ensures j < |locs| - 1 ==> locs[|locs|-1].header != locs[j].header
  {
    var n := |locs| - 1;
    var before, h, after := LocsBlocks(locs[..n]), locs[n].header, PayloadBlocks(locs[n]);
    assert LocsBlocks(locs) == before + ([h] + after);
    NoDupSplit(before, h, after);
    if j < n {
      LocsBlocksAt(locs[..n], j);
    }
  }

  lemma NoDupSplit(a: seq<nat>, h: nat, b: seq<nat>)
    requires NoDup(a + ([h] + b))
    ensures h !in a && h !in b
  {
    var s := a + ([h] + b);
    assert s[|a|] == h;
    forall i | 0 <= i < |a|
      ensures a[i] != h
    {
      assert s[i] == a[i];
    }
    forall i | 0 <= i < |b|
      ensures b[i] != h
    {
      assert s[|a| + 1 + i] == b[i];
    }
  }

  /** Writing the buffered header of the last entry disturbs nothing stored before. */
  lemma LastHeaderWritten(image: Image, bs: nat, parent: nat, kids: seq<Node>, locs: seq<Loc>, last: nat, image': Image)
    requires bs >= HEADER_SIZE && bs % 8 == 0 && locs != []
    requires Pending(image, bs, parent, kids, locs) && NoDup(LocsBlocks(locs))
    requires |kids[|locs|-1].times| == 3 && locs[|locs|-1].header < |image|
    requires image' == image[locs[|locs|-1].header :=
               HeaderSector(HeaderOf(kids[|locs|-1], locs[|locs|-1], parent, PrevOf(locs, |locs| - 1), last), bs)]
    ensures Chained(image', bs, parent, kids, locs, last)
  {
    hide *;
    var n := |locs| - 1;
    PendingAt(image, bs, parent, kids, locs, n);
    forall i | 0 <= i < |locs|
      ensures HeaderStored(image', bs, kids[i], locs[i], parent, PrevOf(locs, i), Following(locs, i, last))
      ensures PayloadStored(image', bs, kids[i], locs[i])
    {
      LastHeaderApart(locs, i);
      PendingAt(image, bs, parent, kids, locs, i);
      OneBlockWritten(image, locs[n].header, image', PayloadBlocks(locs[i]));
      PayloadStays(image, image', bs, kids[i], locs[i]);
      if i < n {
        OneBlockWritten(image, locs[n].header, image', [locs[i].header]);
        HeaderStays(image, image', bs, kids[i], locs[i], parent, PrevOf(locs, i), Following(locs, i, last));
      } else {
        HeaderJustWritten(image, image', bs, kids[n], locs[n], parent, PrevOf(locs, n), last);
        assert Following(locs, n, last) == last by { LastFollowing(locs, last); }
      }
    }
    ChainedFromParts(image', bs, parent, kids, locs, last);
  }

  lemma LastFollowing(locs: seq<Loc>, last: nat)
    requires locs != []
    ensures Following(locs, |locs| - 1, last) == last
  {
  }

  lemma PendingAt(image: Image, bs: nat, parent: nat, kids: seq<Node>, locs: seq<Loc>, i: nat)
    requires bs >= HEADER_SIZE && bs % 8 == 0 && Pending(image, bs, parent, kids, locs) && i < |locs|
    ensures |locs| <= |kids| && PayloadStored(image, bs, kids[i], locs[i])
    ensures forall last :: i < |locs| - 1 ==>
              HeaderStored(image, bs, kids[i], locs[i], parent, PrevOf(locs, i), Following(locs, i, last))
  {
  }

  lemma ChainedFromParts(image: Image, bs: nat, parent: nat, kids: seq<Node>, locs: seq<Loc>, last: nat)
    requires bs >= HEADER_SIZE && bs % 8 == 0 && |locs| <= |kids|
    requires forall i :: 0 <= i < |locs| ==>
               && HeaderStored(image, bs, kids[i], locs[i], parent, PrevOf(locs, i), Following(locs, i, last))
               && PayloadStored(image, bs, kids[i], locs[i])
    ensures Chained(image, bs, parent, kids, locs, last)
  {
  }

  lemma OneBlockWritten(image: Image, h: nat, image': Image, blocks: seq<nat>)
    requires h < |image| && |image'| == |image| && image' == image[h := image'[h]] && h !in blocks
    ensures Same(image, image', blocks)
  {
  }

  lemma HeaderJustWritten(image: Image, image': Image, bs: nat, n: Node, l: Loc, parent: nat, prev: nat, next: nat)
    requires bs >= HEADER_SIZE && |n.times| == 3 && l.header < |image|
    requires image' == image[l.header := HeaderSector(HeaderOf(n, l, parent, prev, next), bs)]
    ensures HeaderStored(image', bs, n, l, parent, prev, next)
  {
  }

  lemma HeaderStays(image: Image, image': Image, bs: nat, n: Node, l: Loc, parent: nat, prev: nat, next: nat)
    requires HeaderStored(image, bs, n, l, parent, prev, next) && Same(image, image', [l.header])
    ensures HeaderStored(image', bs, n, l, parent, prev, next)
  {
    assert l.header in [l.header];
  }
}
