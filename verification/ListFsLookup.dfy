/** Name lookup over a header chain: the boot loader's comparison of length plus one bytes, the
    kernel's strcmp and recursion, and what both return on a stored directory. */
module ListFsLookup {
  import opened Options
  import opened ListFsFormat
  import opened ListFsLayout
  import opened ListFsBuilder
  import opened ListFsImage
  import opened ListFsReader

  // ------------------------------------------------------------ comparing names

  lemma {:induction false} LengthFacts(s: Sector, from: nat)
    requires from <= |s| && exists k :: from <= k < |s| && s[k] == 0
    ensures NameLength(s, from) < |s| && s[NameLength(s, from)] == 0
    ensures forall k :: from <= k < NameLength(s, from) ==> s[k] != 0
    decreases |s| - from
  {
    if s[from] != 0 { LengthFacts(s, from + 1); }
  }

  /** A zero-terminated string in memory, with whatever follows it. */
  ghost predicate Terminated(s: seq<Byte>) {
    exists k :: 0 <= k < |s| && s[k] == 0
  }

  /** Strings that agree up to and including a terminator are the same string; strings that
      differ before one are not. */
  lemma SameString(a: seq<Byte>, b: seq<Byte>, n: nat)
    requires Terminated(a) && Terminated(b)
    requires n < |a| && n < |b| && (forall k :: 0 <= k < n ==> a[k] == b[k] != 0)
    ensures a[n] == b[n] == 0 ==> ReadName(a) == ReadName(b)
    ensures a[n] != b[n] ==> ReadName(a) != ReadName(b)
  {
    LengthFacts(a, 0);
    LengthFacts(b, 0);
    var la, lb := NameLength(a, 0), NameLength(b, 0);
    assert la >= n && lb >= n;
    if a[n] == b[n] == 0 {
      assert la == n && lb == n;
      assert a[..n] == b[..n];
    } else if a[n] != b[n] && la == lb {
      assert n < la;
      assert a[..la][n] != b[..lb][n];
    }
  }

  /** A signed char. */
  function Char(b: Byte): int {
    if b < 128 then b else b - 256
  }

  /** Up to n the strings are equal and go on; there they end or differ, by d. */
  predicate DiffersAt(a: seq<Byte>, b: seq<Byte>, n: nat, d: int)
    requires n < |a| && n < |b|
  {
    && (forall k :: 0 <= k < n ==> a[k] == b[k] != 0)
    && (a[n] == 0 || a[n] != b[n]) && d == Char(a[n]) - Char(b[n])
  }

  /** strcmp of stdlib.c, which gives 0 exactly for equal strings. */
  method StrCmp(str1: seq<Byte>, str2: seq<Byte>) returns (d: int)
    requires Terminated(str1) && Terminated(str2)
    ensures d == 0 <==> ReadName(str1) == ReadName(str2)
    ensures exists n :: 0 <= n < |str1| && n < |str2| && DiffersAt(str1, str2, n, d)
  {
    LengthFacts(str1, 0);
    LengthFacts(str2, 0);
    ghost var l1, l2 := NameLength(str1, 0), NameLength(str2, 0);
    hide NameLength;
    var n := 0;
    while true
      invariant 0 <= n <= l1 && n <= l2
      invariant forall k :: 0 <= k < n ==> str1[k] == str2[k] != 0
      decreases l1 - n
    {
      var c1, c2 := Char(str1[n]), Char(str2[n]);
      SameString(str1, str2, n);
      if c1 == 0 || c1 != c2 {
        assert DiffersAt(str1, str2, n, c1 - c2);
        return c1 - c2;
      }
      n := n + 1;
    }
  }

  /** Lines 117-126 of boot.asm. The length is counted down from 0xFFFF in a 16-bit register,
      then as many bytes and the terminator are compared. */
  method BootCompare(si: seq<Byte>, info: Sector) returns (equal: bool)
    requires Terminated(si) && Terminated(info) && |info| < 0xFFFF
    ensures equal <==> ReadName(si) == ReadName(info)
  {
    LengthFacts(si, 0);
    LengthFacts(info, 0);
    ghost var l1, l2 := NameLength(si, 0), NameLength(info, 0);
    hide NameLength;
    var di, cx := 0, 0xFFFF;
    while info[di] != 0
      invariant 0 <= di <= l2 && cx == 0xFFFF - di
      decreases l2 - di
    {
      di, cx := di + 1, cx - 1;
    }
    cx := cx - 1;
    cx := (0x1_0000 - cx) % 0x1_0000;
    cx := (cx - 1) % 0x1_0000;
    assert cx == l2 + 1;
    var n := 0;
    equal := true;
    while cx != 0 && equal
      invariant 0 <= n <= l2 + 1 && n <= l1 + 1 && cx == l2 + 1 - n
      invariant equal ==> forall k :: 0 <= k < n ==> si[k] == info[k]
      invariant equal ==> n <= l1 || n == l2 + 1
      invariant !equal ==> ReadName(si) != ReadName(info)
      decreases cx
    {
      equal := si[n] == info[n];
      if !equal { SameString(si, info, n); }
      n, cx := n + 1, cx - 1;
    }
    if equal { SameString(si, info, l2); }
  }

  // ------------------------------------------------------------ walking the chain

  /** The header a lookup must return: that of the first entry whose name, as cut, is the one
      searched for. */
  ghost predicate Selected(kids: seq<Node>, locs: seq<Loc>, name: seq<Byte>, found: bool, header: nat)
    requires |kids| == |locs|
  {
    if found then exists i: nat :: FirstNamed(kids, name, i) && header == locs[i].header
    else forall i :: 0 <= i < |kids| ==> Cut(kids[i].name) != name
  }

  ghost predicate FirstNamed(kids: seq<Node>, name: seq<Byte>, i: nat) {
    i < |kids| && Cut(kids[i].name) == name && forall j :: 0 <= j < i ==> Cut(kids[j].name) != name
  }

  /** It is determined by the directory. */
  lemma SelectedIsUnique(kids: seq<Node>, locs: seq<Loc>, name: seq<Byte>, f1: bool, h1: nat, f2: bool, h2: nat)
    requires |kids| == |locs| && Selected(kids, locs, name, f1, h1) && Selected(kids, locs, name, f2, h2)
    ensures f1 == f2 && (f1 ==> h1 == h2)
  {
    if f1 && f2 {
      var i: nat :| FirstNamed(kids, name, i) && h1 == locs[i].header;
      var j: nat :| FirstNamed(kids, name, j) && h2 == locs[j].header;
      assert i == j;
    }
  }

  /** A directory on disk with the entries it holds. */
  ghost predicate OnDisk(image: Image, bs: nat, parent: nat, kids: seq<Node>, locs: seq<Loc>) {
    && HEADER_SIZE <= bs < 0xFFFF && bs % 8 == 0 && |image| < NO_BLOCK32
    && DirStored(image, bs, parent, kids, locs)
    && |kids| == |locs|
    && forall k :: k in kids ==> Buildable(k)
  }

  lemma EntryFacts(image: Image, bs: nat, parent: nat, kids: seq<Node>, locs: seq<Loc>, i: nat)
    requires OnDisk(image, bs, parent, kids, locs) && i < |kids|
    ensures StartAt(locs, i) == locs[i].header < |image| && locs[i].header < NO_BLOCK32
    ensures |image[locs[i].header]| == bs < 0xFFFF && bs >= HEADER_SIZE && Terminated(image[locs[i].header])
    ensures ReadName(image[locs[i].header]) == Cut(kids[i].name)
    ensures Read32(image[locs[i].header], NEXT_AT) == StartAt(locs, i + 1) % TWO32
    ensures Read64(image[locs[i].header], NEXT_AT) == StartAt(locs, i + 1)
    ensures NEXT_AT + 8 <= bs
  {
    DirAt(image, bs, parent, kids, locs, i);
    BuildableParts(kids[i]);
    LinksSmall(image, bs, parent, kids, locs, i);
    hide DirStored, PayloadStored, HeaderStored, HeaderSector, Read32, Read64, ReadName;
    HeaderReads(image, bs, kids[i], locs[i], parent, PrevOf(locs, i), StartAt(locs, i + 1));
    NameEnds(image, bs, kids[i], locs[i], parent, PrevOf(locs, i), StartAt(locs, i + 1));
  }

  lemma NameEnds(image: Image, bs: nat, n: Node, l: Loc, parent: nat, prev: nat, next: nat)
    requires HeaderStored(image, bs, n, l, parent, prev, next)
    ensures Terminated(image[l.header])
  {
    var h := HeaderOf(n, l, parent, prev, next);
    assert HeaderSector(h, bs)[|h.name|] == 0;
  }

  lemma NotYet(kids: seq<Node>, name: seq<Byte>, i: nat, locs: seq<Loc>)
    requires i <= |kids| == |locs| && forall j :: 0 <= j < i ==> Cut(kids[j].name) != name
    ensures i == |kids| ==> Selected(kids, locs, name, false, 0)
    ensures i < |kids| && Cut(kids[i].name) == name ==> Selected(kids, locs, name, true, locs[i].header)
  {
    if i < |kids| && Cut(kids[i].name) == name { assert FirstNamed(kids, name, i); }
  }

  /** StartAt is the end mark exactly at the end. */
  lemma AtEnd(image: Image, bs: nat, parent: nat, kids: seq<Node>, locs: seq<Loc>, i: nat)
    requires OnDisk(image, bs, parent, kids, locs) && i <= |kids|
    ensures |kids| == |locs| && i <= |locs|
    ensures StartAt(locs, i) % TWO32 == NO_BLOCK32 <==> i == |kids|
    ensures StartAt(locs, i) == NO_BLOCK <==> i == |kids|
    ensures i < |kids| ==> StartAt(locs, i) % TWO32 == locs[i].header
  {
    if i < |kids| {
      EntryFacts(image, bs, parent, kids, locs, i);
      SmallEntry(locs[i].header);
    }
  }

  /** find_file of boot.asm: DX:AX holds the block of the next header. */
  method BootFind(image: Image, bs: nat, si: seq<Byte>, first: nat,
                  ghost parent: nat, ghost kids: seq<Node>, ghost locs: seq<Loc>) returns (found: bool, header: nat)
    requires OnDisk(image, bs, parent, kids, locs) && first == StartAt(locs, 0) % TWO32 && Terminated(si)
    ensures Selected(kids, locs, ReadName(si), found, header)
  {
    hide *;
    header := first;
    ghost var i := 0;
    AtEnd(image, bs, parent, kids, locs, 0);
    NotYet(kids, ReadName(si), 0, locs);
    while header != NO_BLOCK32
      invariant 0 <= i <= |kids| == |locs| && (i < |kids| ==> header == locs[i].header)
      invariant header == NO_BLOCK32 <==> i == |kids|
      invariant forall j :: 0 <= j < i ==> Cut(kids[j].name) != ReadName(si)
      decreases |kids| - i
    {
      EntryFacts(image, bs, parent, kids, locs, i);
      AtEnd(image, bs, parent, kids, locs, i);
      var equal := BootCompare(si, image[header]);
      NotYet(kids, ReadName(si), i, locs);
      if equal {
        return true, header;
      }
      header := Read32(image[header], NEXT_AT);
      i := i + 1;
      AtEnd(image, bs, parent, kids, locs, i);
    }
    NotYet(kids, ReadName(si), i, locs);
    return false, 0;
  }

  /** find_file of kernel.c, which recurs on the next header; `file` is never the end mark. */
  method KernelFind(image: Image, bs: nat, file: nat, fileName: seq<Byte>,
                    ghost parent: nat, ghost kids: seq<Node>, ghost locs: seq<Loc>, ghost i: nat)
                      returns (found: bool, header: nat)
    requires OnDisk(image, bs, parent, kids, locs) && i < |kids| && file == locs[i].header && Terminated(fileName)
    requires forall j :: 0 <= j < i ==> Cut(kids[j].name) != ReadName(fileName)
    ensures Selected(kids, locs, ReadName(fileName), found, header)
    decreases |kids| - i
  {
    hide *;
    EntryFacts(image, bs, parent, kids, locs, i);
    AtEnd(image, bs, parent, kids, locs, i + 1);
    var d := StrCmp(fileName, image[file]);
    NotYet(kids, ReadName(fileName), i, locs);
    if d == 0 {
      return true, file;
    }
    NotYet(kids, ReadName(fileName), i + 1, locs);
    if Read64(image[file], NEXT_AT) == NO_BLOCK {
      return false, 0;
    }
    found, header := KernelFind(image, bs, Read64(image[file], NEXT_AT) % TWO32, fileName, parent, kids, locs, i + 1);
  }

  /** On a stored directory both lookups terminate with the same answer: the first header with
      that name, or none exactly when no entry has it. */
  method FindBothWays(image: Image, bs: nat, name: seq<Byte>, first: nat,
                      ghost parent: nat, ghost kids: seq<Node>, ghost locs: seq<Loc>)
    returns (boot: (bool, nat), kernel: (bool, nat))
    requires OnDisk(image, bs, parent, kids, locs) && kids != [] && first == locs[0].header && Terminated(name)
    ensures boot.0 == kernel.0 && (boot.0 ==> boot.1 == kernel.1)
    ensures boot.0 <==> exists k :: k in kids && Cut(k.name) == ReadName(name)
    ensures boot.0 ==> exists i: nat :: FirstNamed(kids, ReadName(name), i) && boot.1 == locs[i].header
  {
    AtEnd(image, bs, parent, kids, locs, 0);
    var found, header := BootFind(image, bs, name, first, parent, kids, locs);
    boot := (found, header);
    found, header := KernelFind(image, bs, first, name, parent, kids, locs, 0);
    kernel := (found, header);
    SelectedIsUnique(kids, locs, ReadName(name), boot.0, boot.1, kernel.0, kernel.1);
  }

  // ------------------------------------------------------------ the whole way

  /** Every tree for which the disk has room is built, and the image reads back as that tree, its
      links are right at every depth, and the walk goes nowhere deeper than the disk has blocks. */
  method BuildAndRead(bs: nat, blockCount: nat, loader: seq<Byte>, root: seq<Node>, uid: nat)
    returns (ok: bool, image: Image)
    requires GoodInput(bs, blockCount, loader, root)
    ensures ok ==> |image| == blockCount >= 1 && |image[0]| == bs >= HEADER_SIZE && bs % 8 == 0
    ensures ok ==> ReadDir(image, bs, Read32(image[0], FIRST_FILE_AT), |image|) == Some(Views(root))
    ensures ok ==> WellLinked(image, bs, Read32(image[0], FIRST_FILE_AT), NO_BLOCK, NO_BLOCK, |image|)
    ensures ok <==> ExtraBlocks(|loader|, bs) + MapBlocks(bs, blockCount) + Needs(root, bs) <= blockCount
  {
    hide *;
    SizesFit(bs, blockCount, loader, root);
    ghost var locs, diskMap;
    ok, image, locs, diskMap := BuildImage(bs, blockCount, loader, root, uid);
    if ok {
      BuiltReads(image, bs, loader, root, locs, diskMap, ExtraBlocks(|loader|, bs),
                 ExtraBlocks(|loader|, bs) + MapBlocks(bs, blockCount));
    }
  }

  lemma BuiltReads(image: Image, bs: nat, loader: seq<Byte>, root: seq<Node>, locs: seq<Loc>, diskMap: seq<bool>,
                   mapBase: nat, taken: nat)
    requires bs % 8 == 0 && bs >= HEADER_SIZE && Built(image, bs, loader, root, locs, diskMap, mapBase, taken)
    requires forall k :: k in root ==> Buildable(k)
    ensures |image| >= 1 && |image[0]| == bs
    ensures ReadDir(image, bs, Read32(image[0], FIRST_FILE_AT), |image|) == Some(Views(root))
    ensures WellLinked(image, bs, Read32(image[0], FIRST_FILE_AT), NO_BLOCK, NO_BLOCK, |image|)
  {
    LocsBlocksAt(locs, 0);
    SmallEntry(locs[0].header);
    StartIs(image, locs, 0);
    hide LocsBlocks, DirStored, ReadDir, WellLinked, Read32;
    TreeReadsBack(image, bs, NO_BLOCK, root, locs);
    TreeLinked(image, bs, root, locs);
  }

  lemma TreeLinked(image: Image, bs: nat, root: seq<Node>, locs: seq<Loc>)
    requires bs >= HEADER_SIZE && bs % 8 == 0 && |image| < NO_BLOCK32 && DirStored(image, bs, NO_BLOCK, root, locs)
    requires (forall k :: k in root ==> Buildable(k)) && NoDup(LocsBlocks(locs)) &&
               (forall b :: b in LocsBlocks(locs) ==> b < |image|)
    ensures WellLinked(image, bs, StartAt(locs, 0), NO_BLOCK, NO_BLOCK, |image|)
  {
    Pigeonhole(LocsBlocks(locs), |image|);
    assert locs[..0] == [];
    DirLinks(image, bs, NO_BLOCK, root, locs, 0, |image|);
  }

  /** On every image built, a name looked up from the first file of the header block is found by
      both loader and kernel at the first entry of the root that has it, or by neither when none
      has it. */
  method BuildAndFind(bs: nat, blockCount: nat, loader: seq<Byte>, root: seq<Node>, uid: nat, name: seq<Byte>)
    returns (ok: bool, boot: (bool, nat), kernel: (bool, nat), ghost locs: seq<Loc>)
    requires GoodInput(bs, blockCount, loader, root) && bs < 0xFFFF && Terminated(name)
    ensures ok <==> ExtraBlocks(|loader|, bs) + MapBlocks(bs, blockCount) + Needs(root, bs) <= blockCount
    ensures ok ==> boot.0 == kernel.0 && (boot.0 ==> boot.1 == kernel.1) && |locs| == |root|
    ensures ok ==> (boot.0 <==> exists k :: k in root && Cut(k.name) == ReadName(name))
    ensures ok && boot.0 ==> exists i: nat :: FirstNamed(root, ReadName(name), i) && boot.1 == locs[i].header
  {
    hide *;
    SizesFit(bs, blockCount, loader, root);
    var image;
    ghost var diskMap;
    boot, kernel := (false, 0), (false, 0);
    ok, image, locs, diskMap := BuildImage(bs, blockCount, loader, root, uid);
    if ok {
      ghost var mapBase := ExtraBlocks(|loader|, bs);
      BuiltOnDisk(image, bs, loader, root, locs, diskMap, mapBase, mapBase + MapBlocks(bs, blockCount));
      boot, kernel := FindBothWays(image, bs, name, Read32(image[0], FIRST_FILE_AT), NO_BLOCK, root, locs);
    }
  }

  lemma BuiltOnDisk(image: Image, bs: nat, loader: seq<Byte>, root: seq<Node>, locs: seq<Loc>, diskMap: seq<bool>,
                    mapBase: nat, taken: nat)
    requires bs % 8 == 0 && HEADER_SIZE <= bs < 0xFFFF && Built(image, bs, loader, root, locs, diskMap, mapBase, taken)
    requires forall k :: k in root ==> Buildable(k)
    ensures OnDisk(image, bs, NO_BLOCK, root, locs) && root != [] && |locs| == |root|
    ensures FIRST_FILE_AT + 4 <= HEADER_SIZE
    ensures image != [] && |image[0]| == bs && Read32(image[0], FIRST_FILE_AT) == locs[0].header
  {
    hide LocsBlocks, PayloadStored, HeaderStored, Read32, LoaderStored, MapStored;
  }
}
