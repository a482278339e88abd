/** Physical memory as frames of 32-bit words. Frames are named by page number: every
    physical address the memory manager keeps is page aligned. */
module Frames {

  const PAGE_SIZE: nat := 4096
  const WORDS_PER_FRAME: nat := 1024

  /** frame number -> word index -> word */
  type Mem = seq<seq<int>>

  ghost predicate WellShaped(m: Mem) {
    forall p :: 0 <= p < |m| ==> |m[p]| == WORDS_PER_FRAME
  }

  predicate InMem(m: Mem, p: int, i: int) {
    0 <= p < |m| && 0 <= i < |m[p]|
  }

  function Word(m: Mem, p: int, i: int): int {
    if InMem(m, p, i) then m[p][i] else 0
  }

  function Put(m: Mem, p: int, i: int, v: int): (r: Mem)
    ensures |r| == |m|
    ensures WellShaped(m) ==> WellShaped(r)
    ensures forall q, j :: Word(r, q, j) == if q == p && j == i && InMem(m, p, i) then v else Word(m, q, j)
  {
    if InMem(m, p, i) then m[p := m[p][i := v]] else m
  }

  /** Frame `p` filled with zeros. */
  function Zero(m: Mem, p: int): (r: Mem)
    ensures |r| == |m|
    ensures WellShaped(m) ==> WellShaped(r)
    ensures forall q, j :: Word(r, q, j) == if q == p then 0 else Word(m, q, j)
  {
    if 0 <= p < |m| then m[p := seq(|m[p]|, _ => 0)] else m
  }
}
