/** Positions in a ring of `n` frame slots, and the walk of the ring pointer over slot addresses. */
module Ring {

  const SLOT_SIZE: nat := 0x800

  /** The DMA window: 128 KiB, hence at most 64 slots. */
  const CCAT_ALIGNMENT: nat := 128 * 1024
  const MAX_SLOTS: nat := 64

  function Succ(n: nat, i: nat): (r: nat)
    requires i < n
  {
    if i + 1 == n then 0 else i + 1
  }

  /** The slot `k` places after slot `i`; one full turn (`k == n`) leads back to `i`. */
  function Plus(n: nat, i: nat, k: nat): (r: nat)
    requires i < n && k <= n
    ensures r < n
  {
    if i + k < n then i + k else i + k - n
  }

  /** How far after slot `i` slot `x` lies. */
  function Distance(n: nat, i: nat, x: nat): (k: nat)
    requires i < n && x < n
    ensures k < n && Plus(n, i, k) == x
  {
    if i <= x then x - i else x + n - i
  }

  /** fifo_set_end: address of the last slot of a region of `size` bytes. */
  function RingEnd(start: int, size: nat): int {
    start + size - SLOT_SIZE
  }

  function SlotCount(size: nat): (n: nat)
    ensures n >= 1
  {
    if size < SLOT_SIZE then 1 else size / SLOT_SIZE
  }

  /** ccat_eth_fifo_inc */
  function Inc(start: int, end: int, next: int): int {
    if next + SLOT_SIZE > end then start else next + SLOT_SIZE
  }

  /** Advancing the pointer is Succ on slot numbers, for every region size. */
  lemma IncIsSucc(start: int, size: nat, i: nat)
    requires i < SlotCount(size)
    ensures Inc(start, RingEnd(start, size), start + SLOT_SIZE * i)
         == start + SLOT_SIZE * Succ(SlotCount(size), i)
  {
    if size >= SLOT_SIZE {
      assert size == SLOT_SIZE * (size / SLOT_SIZE) + size % SLOT_SIZE;
    }
  }

  /** The do-while of ccat_eth_fifo_reset, recording the address each `add` is applied to. */
  method WalkRing(start: int, size: nat) returns (visited: seq<int>, next: int)
    ensures next == start
    ensures |visited| == SlotCount(size)
    ensures forall i :: 0 <= i < |visited| ==> visited[i] == start + SLOT_SIZE * i
  {
    var end := RingEnd(start, size);
    ghost var n := SlotCount(size);
    next := start;
    visited := [next];
    IncIsSucc(start, size, 0);
    next := Inc(start, end, next);
    while next != start
      invariant 1 <= |visited| <= n
      invariant forall i :: 0 <= i < |visited| ==> visited[i] == start + SLOT_SIZE * i
      invariant next == if |visited| == n then start else start + SLOT_SIZE * |visited|
      decreases n - |visited|
    {
      IncIsSucc(start, size, |visited|);
      visited := visited + [next];
      next := Inc(start, end, next);
    }
  }
}
