/** The arena as a sequence of adjacent blocks, and what allocating and freeing do to it. */
module ArenaLayout {

  const ARENA: nat := 131072
  const MIN_PAYLOAD: nat := 8

  /** A header at `addr`, followed by `size` bytes of payload. */
  datatype Block = Block(addr: nat, size: nat, free: bool)

  type Layout = seq<Block>

  predicate Aligned(n: nat) {
    n % 8 == 0
  }

  lemma {:induction false} AlignedSum(a: nat, b: nat)
    requires Aligned(a) && Aligned(b)
    ensures Aligned(a + b) && (a >= b ==> Aligned(a - b))
  {
  }

  /** The size of a block header: any positive multiple of the alignment that leaves room for a payload. */
  predicate HeaderSize(h: nat) {
    0 < h && Aligned(h) && h + MIN_PAYLOAD <= ARENA
  }

  /** Where the block after `b` starts. */
  function End(b: Block, h: nat): nat {
    b.addr + h + b.size
  }

  predicate GoodSize(b: Block) {
    b.size >= MIN_PAYLOAD && Aligned(b.size)
  }

  /** Block `i` starts where the one before it ends. */
  predicate Adjoins(l: Layout, h: nat, i: nat)
    requires 0 < i < |l|
  {
    l[i].addr == End(l[i - 1], h)
  }

  /** Block `i` and the one before it are not both free. */
  predicate Coalesced(l: Layout, i: nat)
    requires 0 < i < |l|
  {
    !(l[i - 1].free && l[i].free)
  }

  /** The blocks tile the arena exactly, with sizes that are positive multiples of 8. */
  predicate Contiguous(l: Layout, h: nat) {
    && HeaderSize(h)
    && |l| > 0 && l[0].addr == 0 && End(l[|l| - 1], h) == ARENA
    && (forall i {:trigger l[i]} :: 0 <= i < |l| ==> GoodSize(l[i]))
    && (forall i {:trigger Adjoins(l, h, i)} :: 0 < i < |l| ==> Adjoins(l, h, i))
  }

  /** Contiguous, and no two neighbours are both free. */
  predicate Tiling(l: Layout, h: nat) {
    Contiguous(l, h) && forall i {:trigger Coalesced(l, i)} :: 0 < i < |l| ==> Coalesced(l, i)
  }

  function Initial(h: nat): Layout
    requires HeaderSize(h)
  {
    [Block(0, ARENA - h, true)]
  }

  lemma {:induction false} InitialTiling(h: nat)
    requires HeaderSize(h)
    ensures Tiling(Initial(h), h)
  {
    AlignedSum(ARENA, h);
  }

  // ----- blocks lie one behind the other

  lemma {:induction false} Ordered(l: Layout, h: nat, i: nat, j: nat)
    requires Contiguous(l, h) && i < j < |l|
    ensures End(l[i], h) <= l[j].addr
    decreases j
  {
    hide Aligned;
    assert Adjoins(l, h, j);
    if i + 1 < j {
      Ordered(l, h, i, j - 1);
    }
  }

  lemma {:induction false} AddressesDistinct(l: Layout, h: nat)
    requires Contiguous(l, h)
    ensures forall i, j :: 0 <= i < j < |l| ==> l[i].addr < l[j].addr
  {
    hide Aligned;
    forall i, j | 0 <= i < j < |l|
      ensures l[i].addr < l[j].addr
    {
      Ordered(l, h, i, j);
    }
  }

  lemma {:induction false} AlignedAt(l: Layout, h: nat, i: nat)
    requires Contiguous(l, h) && i < |l|
    ensures Aligned(l[i].addr) && Aligned(l[i].addr + h)
    decreases i
  {
    hide Aligned;
    assert GoodSize(l[i]);
    if i == 0 {
      AlignedSum(h, h);
    } else {
      AlignedAt(l, h, i - 1);
      assert Adjoins(l, h, i) && GoodSize(l[i - 1]);
      AlignedSum(l[i - 1].addr + h, l[i - 1].size);
    }
    AlignedSum(l[i].addr, h);
  }

  lemma {:induction false} InsideArena(l: Layout, h: nat, i: nat)
    requires Contiguous(l, h) && i < |l|
    ensures End(l[i], h) <= ARENA
  {
    if i < |l| - 1 {
      Ordered(l, h, i, |l| - 1);
    }
  }

  /** The payload of `b` and the stretch of `n` bytes at `at` have no byte in common. */
  predicate Clear(b: Block, h: nat, at: nat, n: nat) {
    at + n <= b.addr + h || End(b, h) <= at
  }

  /** Payloads are aligned and inside the arena, do not overlap each other, and hold no block's header. */
  lemma {:induction false} PayloadsDisjoint(l: Layout, h: nat, i: nat, j: nat)
    requires Contiguous(l, h) && i < |l| && j < |l|
    ensures (l[i].addr + h) % 8 == 0 && l[i].addr + h + l[i].size <= 131072
    ensures i != j ==> Clear(l[i], h, l[j].addr + h, l[j].size)
    ensures Clear(l[i], h, l[j].addr, h)
  {
    AlignedAt(l, h, i);
    hide Aligned;
    InsideArena(l, h, i);
    if i < j {
      Ordered(l, h, i, j);
    } else if j < i {
      Ordered(l, h, j, i);
    }
  }

  // ----- allocation

  function Align(n: nat): (r: nat)
    ensures Aligned(r) && r % 8 == 0 && n <= r < n + 8
  {
    (n + 7) / 8 * 8
  }

  predicate Fits(b: Block, need: nat) {
    b.free && b.size >= need
  }

  lemma {:induction false} FitsIs(l: Layout, need: nat)
    ensures forall k {:trigger l[k]} :: 0 <= k < |l| ==> (Fits(l[k], need) <==> l[k].free && need <= l[k].size)
  {
  }

  /** The first free block that is large enough. */
  predicate FirstFit(l: Layout, need: nat, i: nat) {
    i < |l| && Fits(l[i], need) && forall j {:trigger l[j]} :: 0 <= j < i ==> !Fits(l[j], need)
  }

  /** Enough is left over for another header and a smallest payload. */
  predicate Splits(b: Block, h: nat, need: nat) {
    b.size >= need + h + MIN_PAYLOAD
  }

  function Allocated(b: Block, h: nat, need: nat): Block {
    Block(b.addr, if Splits(b, h, need) then need else b.size, false)
  }

  function Remainder(b: Block, h: nat, need: nat): Block
    requires Splits(b, h, need)
  {
    Block(b.addr + h + need, b.size - need - h, true)
  }

  /** The list with the free block `i` cut in two. */
  function SplitLayout(l: Layout, h: nat, i: nat, need: nat): (r: Layout)
    requires i < |l| && Splits(l[i], h, need)
    ensures |r| == |l| + 1 && r[i] == Block(l[i].addr, need, true) && r[i + 1] == Remainder(l[i], h, need)
    ensures forall k {:trigger r[k]} :: 0 <= k < |r| && k != i && k != i + 1 ==>
            r[k] == if k < i then l[k] else l[k - 1]
  {
    l[..i] + [Block(l[i].addr, need, true), Remainder(l[i], h, need)] + l[i + 1..]
  }

  function Cut(l: Layout, h: nat, i: nat, need: nat): (r: Layout)
    requires i < |l|
    ensures |r| >= |l|
  {
    if Splits(l[i], h, need) then SplitLayout(l, h, i, need) else l
  }

  function Allocate(l: Layout, h: nat, i: nat, need: nat): Layout
    requires i < |l|
  {
    var r := Cut(l, h, i, need);
    r[i := r[i].(free := false)]
  }

  /** Block `i` is replaced by the allocated block, followed by what is left over, if anything is split off. */
  lemma {:induction false} AllocateShape(l: Layout, h: nat, i: nat, need: nat)
    requires i < |l|
    ensures Allocate(l, h, i, need) ==
            l[..i] + (if Splits(l[i], h, need) then [Allocated(l[i], h, need), Remainder(l[i], h, need)]
                      else [Allocated(l[i], h, need)]) + l[i + 1..]
  {
  }

  /** Exactly when a header and eight bytes are left over, the rest of the block becomes one free block. */
  lemma {:induction false} AllocatedBlocks(l: Layout, h: nat, i: nat, need: nat)
    requires i < |l| && Fits(l[i], need)
    ensures var r, b := Allocate(l, h, i, need), l[i];
            if b.size >= need + h + 8
            then r == l[..i] + [Block(b.addr, need, false), Block(b.addr + h + need, b.size - need - h, true)]
                      + l[i + 1..]
            else r == l[i := Block(b.addr, b.size, false)]
  {
    hide Allocate;
    AllocateShape(l, h, i, need);
    assert l[i := Block(l[i].addr, l[i].size, false)] == l[..i] + [Block(l[i].addr, l[i].size, false)] + l[i + 1..];
  }

  // ----- what was asked for

  /** A live block is as large as was asked for it, rounded up, and by less than a header and eight bytes larger. */
  predicate FairBlock(b: Block, asked: map<nat, nat>, h: nat) {
    && b.addr + h in asked
    && var n := (asked[b.addr + h] + 7) / 8 * 8;
    n <= b.size < n + h + 8
  }

  predicate Fair(l: Layout, asked: map<nat, nat>, h: nat) {
    forall i {:trigger l[i]} :: 0 <= i < |l| && !l[i].free ==> FairBlock(l[i], asked, h)
  }

  /** The sum, over the live blocks, of what was asked for, rounded up, a header and eight bytes. */
  function AskedTotal(l: Layout, asked: map<nat, nat>, h: nat): nat {
    if l == [] then 0
    else
      var b := l[|l| - 1];
      AskedTotal(l[..|l| - 1], asked, h)
      + if !b.free && b.addr + h in asked then (asked[b.addr + h] + 7) / 8 * 8 + h + 8 else 0
  }

  /** Used bytes stay below that sum as long as anything is live. */
  lemma {:induction false} UsedBelowAsked(l: Layout, asked: map<nat, nat>, h: nat)
    requires Fair(l, asked, h)
    ensures Used(l) <= AskedTotal(l, asked, h)
    ensures (exists i :: 0 <= i < |l| && !l[i].free) ==> Used(l) < AskedTotal(l, asked, h)
    decreases |l|
  {
    if l != [] {
      var front := l[..|l| - 1];
      assert Fair(front, asked, h) by {
        forall i | 0 <= i < |front| && !front[i].free
          ensures FairBlock(front[i], asked, h)
        {
          assert front[i] == l[i];
        }
      }
      UsedBelowAsked(front, asked, h);
      var b := l[|l| - 1];
      if b.free {
        if i :| 0 <= i < |l| && !l[i].free {
          assert front[i] == l[i];
        }
      }
    }
  }

  lemma {:induction false} AllocateFair(l: Layout, h: nat, i: nat, size: nat, asked: map<nat, nat>)
    requires Contiguous(l, h) && Fair(l, asked, h) && i < |l| && Fits(l[i], Align(size))
    ensures Fair(Allocate(l, h, i, Align(size)), asked[l[i].addr + h := size], h)
  {
    hide Contiguous, Allocate, Allocated, Align, Fits;
    var need, asked' := Align(size), asked[l[i].addr + h := size];
    var r, b := Allocate(l, h, i, need), Allocated(l[i], h, need);
    FitIsFree(l[i], need);
    AllocateLive(l, h, i, need);
    AddressesDistinct(l, h);
    AllocatedFair(l[i], h, size, asked');
    forall k | 0 <= k < |r| && !r[k].free
      ensures FairBlock(r[k], asked', h)
    {
      assert r[k] in Live(r);
      if r[k] != b {
        var j :| 0 <= j < |l| && l[j] == r[k];
        assert FairBlock(l[j], asked, h) && j != i;
      }
    }
  }

  lemma {:induction false} FitIsFree(b: Block, need: nat)
    requires Fits(b, need)
    ensures b.free
  {
  }

  lemma {:induction false} AllocatedFair(b: Block, h: nat, size: nat, asked: map<nat, nat>)
    requires Fits(b, Align(size)) && b.addr + h in asked && asked[b.addr + h] == size
    ensures FairBlock(Allocated(b, h, Align(size)), asked, h)
  {
    AlignIs(size);
  }

  lemma {:induction false} AlignIs(n: nat)
    ensures Align(n) == (n + 7) / 8 * 8
  {
  }

  lemma {:induction false} ReleaseFair(l: Layout, h: nat, i: nat, asked: map<nat, nat>)
    requires Contiguous(l, h) && Fair(l, asked, h) && i < |l| && !l[i].free
    ensures Fair(Release(l, h, i), asked - {l[i].addr + h}, h)
  {
    hide Contiguous, Release;
    ReleaseLive(l, h, i);
    AddressesDistinct(l, h);
    var r := Release(l, h, i);
    forall k | 0 <= k < |r| && !r[k].free
      ensures FairBlock(r[k], asked - {l[i].addr + h}, h)
    {
      assert r[k] in Live(r);
      var j :| 0 <= j < |l| && l[j] == r[k];
      assert FairBlock(l[j], asked, h) && j != i;
    }
  }

  lemma {:induction false} SplitContiguous(l: Layout, h: nat, i: nat, need: nat)
    requires Contiguous(l, h) && i < |l| && Splits(l[i], h, need) && need >= MIN_PAYLOAD && Aligned(need)
    ensures Contiguous(SplitLayout(l, h, i, need), h)
  {
    hide Aligned;
    var r := SplitLayout(l, h, i, need);
    assert GoodSize(l[i]);
    AlignedSum(l[i].size, need);
    AlignedSum(l[i].size - need, h);
    forall k | 0 < k < |r|
      ensures Adjoins(r, h, k)
    {
      if k <= i {
        assert Adjoins(l, h, k);
      } else if k > i + 1 {
        assert Adjoins(l, h, k - 1);
      }
    }
  }

  lemma {:induction false} MarkContiguous(l: Layout, h: nat, i: nat, free: bool)
    requires Contiguous(l, h) && i < |l|
    ensures Contiguous(l[i := l[i].(free := free)], h)
  {
    hide Aligned;
    var r := l[i := l[i].(free := free)];
    forall k | 0 < k < |r|
      ensures Adjoins(r, h, k)
    {
      assert Adjoins(l, h, k);
    }
  }

  lemma {:induction false} AllocateTiling(l: Layout, h: nat, i: nat, need: nat)
    requires Tiling(l, h) && i < |l| && Fits(l[i], need)
    requires need >= MIN_PAYLOAD && Aligned(need)
    ensures Contiguous(Cut(l, h, i, need), h) && Tiling(Allocate(l, h, i, need), h)
  {
    if Splits(l[i], h, need) {
      SplitContiguous(l, h, i, need);
    }
    var c := Cut(l, h, i, need);
    MarkContiguous(c, h, i, false);
    var r := Allocate(l, h, i, need);
    forall k | 0 < k < |r|
      ensures Coalesced(r, k)
    {
      if k <= i {
        assert Coalesced(l, k);
      } else {
        if |c| == |l| {
          assert Coalesced(l, k);
        } else if k > i + 1 {
          assert Coalesced(l, k - 1);
        }
      }
    }
  }

  // ----- freeing

  function Merge(a: Block, b: Block, h: nat): Block {
    Block(a.addr, a.size + h + b.size, true)
  }

  /** Joins block `i` with the one behind it. */
  function Join(l: Layout, h: nat, i: nat): (r: Layout)
    requires i + 1 < |l|
    ensures |r| == |l| - 1 && r[i] == Merge(l[i], l[i + 1], h)
    ensures forall k {:trigger r[k]} :: 0 <= k < |r| && k != i ==> r[k] == if k < i then l[k] else l[k + 1]
  {
    l[..i] + [Merge(l[i], l[i + 1], h)] + l[i + 2..]
  }

  function JoinForward(l: Layout, h: nat, i: nat): Layout
    requires i < |l|
  {
    if i + 1 < |l| && l[i + 1].free then Join(l, h, i) else l
  }

  function JoinBackward(l: Layout, h: nat, i: nat): Layout
    requires i < |l|
  {
    if i > 0 && l[i - 1].free then Join(l, h, i - 1) else l
  }

  function Release(l: Layout, h: nat, i: nat): Layout
    requires i < |l|
  {
    JoinBackward(JoinForward(l[i := l[i].(free := true)], h, i), h, i)
  }

  lemma {:induction false} JoinContiguous(l: Layout, h: nat, i: nat)
    requires Contiguous(l, h) && i + 1 < |l|
    ensures Contiguous(Join(l, h, i), h)
  {
    hide Aligned;
    var r := Join(l, h, i);
    assert Adjoins(l, h, i + 1) && GoodSize(l[i]) && GoodSize(l[i + 1]);
    AlignedSum(l[i].size, h);
    AlignedSum(l[i].size + h, l[i + 1].size);
    forall k | 0 < k < |r|
      ensures Adjoins(r, h, k)
    {
      if k <= i {
        assert Adjoins(l, h, k);
      } else {
        assert Adjoins(l, h, k + 1);
      }
    }
  }

  /** Coalesced everywhere except perhaps around block `i`. */
  predicate CoalescedBut(l: Layout, i: nat, before: bool, after: bool) {
    forall k {:trigger Coalesced(l, k)} :: 0 < k < |l| && (k != i || before) && (k != i + 1 || after) ==>
      Coalesced(l, k)
  }

  lemma {:induction false} JoinForwardCoalesced(l: Layout, h: nat, i: nat)
    requires i < |l| && l[i].free && CoalescedBut(l, i, false, false)
    requires i + 2 < |l| ==> Coalesced(l, i + 2)
    ensures CoalescedBut(JoinForward(l, h, i), i, false, true)
  {
    var r := JoinForward(l, h, i);
    forall k | 0 < k < |r| && k != i
      ensures Coalesced(r, k)
    {
      if |r| == |l| {
        assert k != i + 1 ==> Coalesced(l, k);
      } else if k < i {
        assert Coalesced(l, k);
      } else {
        assert Coalesced(l, k + 1);
      }
    }
  }

  lemma {:induction false} JoinBackwardCoalesced(l: Layout, h: nat, i: nat)
    requires i < |l| && l[i].free && CoalescedBut(l, i, false, true)
    ensures CoalescedBut(JoinBackward(l, h, i), i, true, true)
  {
    var r := JoinBackward(l, h, i);
    forall k | 0 < k < |r|
      ensures Coalesced(r, k)
    {
      if |r| == |l| {
        assert k != i ==> Coalesced(l, k);
      } else if k < i {
        assert Coalesced(l, k);
      } else {
        assert Coalesced(l, k + 1);
      }
    }
  }

  lemma {:induction false} ReleaseTiling(l: Layout, h: nat, i: nat)
    requires Tiling(l, h) && i < |l| && !l[i].free
    ensures Tiling(Release(l, h, i), h)
  {
    hide Aligned;
    var l1 := l[i := l[i].(free := true)];
    MarkContiguous(l, h, i, true);
    forall k | 0 < k < |l1| && k != i && k != i + 1
      ensures Coalesced(l1, k)
    {
      assert Coalesced(l, k);
    }
    var l2 := JoinForward(l1, h, i);
    JoinForwardCoalesced(l1, h, i);
    if i + 1 < |l1| && l1[i + 1].free {
      JoinContiguous(l1, h, i);
    }
    JoinBackwardCoalesced(l2, h, i);
    if i > 0 && l2[i - 1].free {
      JoinContiguous(l2, h, i - 1);
    }
  }

  // ----- who is live

  function Live(l: Layout): set<Block> {
    set b | b in l && !b.free
  }

  lemma {:induction false} LiveConcat(a: Layout, b: Layout)
    ensures Live(a + b) == Live(a) + Live(b)
  {
  }

  /** Replacing a stretch of free blocks adds the live blocks that take its place. */
  lemma {:induction false} LiveReplace(l: Layout, i: nat, j: nat, mid: Layout)
    requires i <= j <= |l| && Live(l[i..j]) == {}
    ensures Live(l[..i] + mid + l[j..]) == Live(l) + Live(mid)
  {
    hide Live;
    LiveConcat(l[..i] + mid, l[j..]);
    LiveConcat(l[..i], mid);
    LiveConcat(l[..i] + l[i..j], l[j..]);
    LiveConcat(l[..i], l[i..j]);
    assert l == l[..i] + l[i..j] + l[j..];
  }

  /** Allocating adds one live block, carved out of free space, and leaves every other one where it was. */
  lemma {:induction false} AllocateLive(l: Layout, h: nat, i: nat, need: nat)
    requires i < |l| && l[i].free
    ensures Live(Allocate(l, h, i, need)) == Live(l) + {Allocated(l[i], h, need)}
  {
    hide Allocate, Allocated;
    AllocateShape(l, h, i, need);
    AllocatedIsLive(l[i], h, need);
    var b := Allocated(l[i], h, need);
    assert l[i..i + 1] == [l[i]];
    if Splits(l[i], h, need) {
      LiveReplace(l, i, i + 1, [b, Remainder(l[i], h, need)]);
    } else {
      LiveReplace(l, i, i + 1, [b]);
    }
  }

  lemma {:induction false} AllocatedIsLive(b: Block, h: nat, need: nat)
    ensures !Allocated(b, h, need).free
  {
  }

  lemma {:induction false} JoinLive(l: Layout, h: nat, i: nat)
    requires i + 1 < |l| && l[i].free && l[i + 1].free
    ensures Live(Join(l, h, i)) == Live(l)
  {
    assert l == l[..i] + [l[i], l[i + 1]] + l[i + 2..];
  }

  lemma {:induction false} MarkFreeLive(l: Layout, h: nat, i: nat)
    requires Contiguous(l, h) && i < |l| && !l[i].free
    ensures Live(l[i := l[i].(free := true)]) == Live(l) - {l[i]}
  {
    hide Contiguous;
    AddressesDistinct(l, h);
    var l1 := l[i := l[i].(free := true)];
    assert l == l[..i] + [l[i]] + l[i + 1..] && l1 == l[..i] + [l1[i]] + l[i + 1..];
  }

  /** Freeing removes that one live block and leaves every other one where it was. */
  lemma {:induction false} ReleaseLive(l: Layout, h: nat, i: nat)
    requires Contiguous(l, h) && i < |l| && !l[i].free
    ensures Live(Release(l, h, i)) == Live(l) - {l[i]}
  {
    MarkFreeLive(l, h, i);
    hide Contiguous, Live;
    var l1 := l[i := l[i].(free := true)];
    if i + 1 < |l1| && l1[i + 1].free {
      JoinLive(l1, h, i);
    }
    var l2 := JoinForward(l1, h, i);
    if i > 0 && l2[i - 1].free {
      JoinLive(l2, h, i - 1);
    }
  }

  // ----- freeing undoes allocating

  /** Freeing a block straight after allocating it restores the previous list of blocks. */
  lemma {:induction false} ReleaseUndoesAllocate(l: Layout, h: nat, i: nat, need: nat)
    requires Tiling(l, h) && i < |l| && Fits(l[i], need)
    ensures Release(Allocate(l, h, i, need), h, i) == l
  {
    assert i > 0 ==> Coalesced(l, i);
    assert i + 1 < |l| ==> Coalesced(l, i + 1);
    hide Tiling, Allocate, Contiguous, HeaderSize, Join;
    AllocateShape(l, h, i, need);
    var r := Allocate(l, h, i, need);
    var r1 := r[i := r[i].(free := true)];
    if Splits(l[i], h, need) {
      assert r1[i + 1] == Remainder(l[i], h, need);
      JoinRestores(l, r1, h, i);
    } else {
      assert r1 == l;
    }
  }

  lemma {:induction false} JoinRestores(l: Layout, r: Layout, h: nat, i: nat)
    requires i < |l| && i + 1 < |r| && r[..i] == l[..i] && r[i + 2..] == l[i + 1..]
    requires Merge(r[i], r[i + 1], h) == l[i]
    ensures Join(r, h, i) == l
  {
    assert l == l[..i] + [l[i]] + l[i + 1..];
  }

  // ----- freeing everything

  /** The pointers handed out for the live blocks. */
  ghost function Pointers(l: Layout, h: nat): set<nat> {
    set b | b in l && !b.free :: b.addr + h
  }

  ghost predicate IsLiveAt(l: Layout, h: nat, ptr: int, i: nat) {
    i < |l| && !l[i].free && l[i].addr + h == ptr
  }

  lemma {:induction false} PointersAre(l: Layout, h: nat, ptr: int)
    ensures ptr in Pointers(l, h) <==> exists k :: 0 <= k < |l| && !l[k].free && l[k].addr + h == ptr
  {
  }

  lemma {:induction false} PointerHasIndex(l: Layout, h: nat, ptr: nat)
    requires ptr in Pointers(l, h)
    ensures exists i :: IsLiveAt(l, h, ptr, i)
  {
    var b :| b in l && !b.free && b.addr + h == ptr;
    var i :| 0 <= i < |l| && l[i] == b;
    assert IsLiveAt(l, h, ptr, i);
  }

  /** Frees the live block that `ptr` points to. */
  ghost function ReleasePtr(l: Layout, h: nat, ptr: nat): Layout
    requires ptr in Pointers(l, h)
  {
    PointerHasIndex(l, h, ptr);
    var i :| IsLiveAt(l, h, ptr, i);
    Release(l, h, i)
  }

  lemma {:induction false} PointersFromLive(l: Layout, h: nat, p: nat)
    ensures p in Pointers(l, h) <==> exists b :: b in Live(l) && b.addr + h == p
  {
  }

  lemma {:induction false} ReleasePointer(l: Layout, h: nat, i: nat, p: nat)
    requires Contiguous(l, h) && i < |l| && !l[i].free
    ensures p in Pointers(Release(l, h, i), h) <==> p in Pointers(l, h) && p != l[i].addr + h
  {
    ReleaseLive(l, h, i);
    AddressesDistinct(l, h);
    hide Contiguous, Release, Pointers;
    PointersFromLive(Release(l, h, i), h, p);
    PointersFromLive(l, h, p);
  }

  lemma {:induction false} ReleasePointers(l: Layout, h: nat, i: nat)
    requires Contiguous(l, h) && i < |l| && !l[i].free
    ensures Pointers(Release(l, h, i), h) == Pointers(l, h) - {l[i].addr + h}
  {
    hide Contiguous, Release, Pointers;
    forall p: nat
      ensures p in Pointers(Release(l, h, i), h) <==> p in Pointers(l, h) && p != l[i].addr + h
    {
      ReleasePointer(l, h, i, p);
    }
  }

  lemma {:induction false} ReleasePtrLive(l: Layout, h: nat, ptr: nat)
    requires Tiling(l, h) && ptr in Pointers(l, h)
    ensures Tiling(ReleasePtr(l, h, ptr), h)
    ensures Pointers(ReleasePtr(l, h, ptr), h) == Pointers(l, h) - {ptr}
  {
    hide Contiguous, Release, Pointers;
    var i := ReleasePtrIndex(l, h, ptr);
    ReleaseTiling(l, h, i);
    ReleasePointers(l, h, i);
  }

  lemma {:induction false} ReleasePtrIndex(l: Layout, h: nat, ptr: nat) returns (i: nat)
    requires ptr in Pointers(l, h)
    ensures IsLiveAt(l, h, ptr, i) && ReleasePtr(l, h, ptr) == Release(l, h, i)
  {
    PointerHasIndex(l, h, ptr);
    i :| IsLiveAt(l, h, ptr, i) && ReleasePtr(l, h, ptr) == Release(l, h, i);
  }

  ghost predicate ExactlyThese(l: Layout, h: nat, ptrs: seq<nat>) {
    && (forall i, j :: 0 <= i < j < |ptrs| ==> ptrs[i] != ptrs[j])
    && Pointers(l, h) == set p | p in ptrs
  }

  ghost function ReleaseAll(l: Layout, h: nat, ptrs: seq<nat>): Layout
    decreases |ptrs|
  {
    if ptrs == [] then l
    else if ptrs[0] in Pointers(l, h) then ReleaseAll(ReleasePtr(l, h, ptrs[0]), h, ptrs[1..])
    else ReleaseAll(l, h, ptrs[1..])
  }

  /** Freeing all live allocations, in any order, returns the arena to one free block of full capacity. */
  lemma {:induction false} ReleaseEverything(l: Layout, h: nat, ptrs: seq<nat>)
    requires Tiling(l, h) && ExactlyThese(l, h, ptrs)
    ensures ReleaseAll(l, h, ptrs) == Initial(h)
    decreases |ptrs|
  {
    if ptrs == [] {
      NothingLive(l, h);
    } else {
      assert ptrs[0] in ptrs;
      ReleasePtrLive(l, h, ptrs[0]);
      var rest := ptrs[1..];
      forall p: nat
        ensures p in rest <==> p in ptrs && p != ptrs[0]
      {
      }
      ReleaseEverything(ReleasePtr(l, h, ptrs[0]), h, rest);
    }
  }

  lemma {:induction false} LiveHavePointers(l: Layout, h: nat)
    ensures forall i {:trigger l[i]} :: 0 <= i < |l| && !l[i].free ==> l[i].addr + h in Pointers(l, h)
  {
  }

  lemma {:induction false} NothingLive(l: Layout, h: nat)
    requires Tiling(l, h) && Pointers(l, h) == {}
    ensures l == Initial(h)
  {
    LiveHavePointers(l, h);
    assert |l| > 1 ==> Coalesced(l, 1);
  }

  // ----- byte counts

  function Used(l: Layout): nat {
    if l == [] then 0 else Used(l[..|l| - 1]) + if l[|l| - 1].free then 0 else l[|l| - 1].size
  }

  function FreeTotal(l: Layout): nat {
    if l == [] then 0 else FreeTotal(l[..|l| - 1]) + if l[|l| - 1].free then l[|l| - 1].size else 0
  }

  lemma {:induction false} TotalsConcat(a: Layout, b: Layout)
    ensures Used(a + b) == Used(a) + Used(b) && FreeTotal(a + b) == FreeTotal(a) + FreeTotal(b)
    decreases |b|
  {
    if b == [] {
      assert a + b == a;
    } else {
      assert (a + b)[..|a + b| - 1] == a + b[..|b| - 1];
      TotalsConcat(a, b[..|b| - 1]);
    }
  }

  /** Replacing a stretch of blocks changes the totals by the difference between the stretches. */
  lemma {:induction false} TotalsReplace(l: Layout, i: nat, j: nat, mid: Layout)
    requires i <= j <= |l|
    ensures var r := l[..i] + mid + l[j..];
            && Used(r) - Used(l) == Used(mid) - Used(l[i..j])
            && FreeTotal(r) - FreeTotal(l) == FreeTotal(mid) - FreeTotal(l[i..j])
  {
    hide Used, FreeTotal;
    TotalsConcat(l[..i], mid);
    TotalsConcat(l[..i] + mid, l[j..]);
    TotalsConcat(l[..i], l[i..j]);
    TotalsConcat(l[..i] + l[i..j], l[j..]);
    assert l == l[..i] + l[i..j] + l[j..];
  }

  lemma {:induction false} TotalsOfOne(b: Block)
    ensures Used([b]) == (if b.free then 0 else b.size) && FreeTotal([b]) == if b.free then b.size else 0
  {
    assert [b][..0] == [];
  }

  lemma {:induction false} TotalsOfTwo(a: Block, b: Block)
    ensures Used([a, b]) == Used([a]) + Used([b]) && FreeTotal([a, b]) == FreeTotal([a]) + FreeTotal([b])
  {
    assert [a, b] == [a] + [b];
    TotalsConcat([a], [b]);
  }

  lemma {:induction false} AllocateTotals(l: Layout, h: nat, i: nat, need: nat)
    requires i < |l| && Fits(l[i], need)
    ensures var r, b := Allocate(l, h, i, need), Allocated(l[i], h, need);
            && Used(r) == Used(l) + b.size
            && FreeTotal(r) == FreeTotal(l) - b.size - if Splits(l[i], h, need) then h else 0
  {
    AllocateShape(l, h, i, need);
    hide Allocate;
    var b := Allocated(l[i], h, need);
    assert l[i..i + 1] == [l[i]];
    TotalsOfOne(l[i]);
    TotalsOfOne(b);
    if Splits(l[i], h, need) {
      TotalsOfTwo(b, Remainder(l[i], h, need));
      TotalsOfOne(Remainder(l[i], h, need));
      TotalsReplace(l, i, i + 1, [b, Remainder(l[i], h, need)]);
    } else {
      TotalsReplace(l, i, i + 1, [b]);
    }
  }

  lemma {:induction false} JoinTotals(l: Layout, h: nat, i: nat)
    requires i + 1 < |l| && l[i].free && l[i + 1].free
    ensures Used(Join(l, h, i)) == Used(l) && FreeTotal(Join(l, h, i)) == FreeTotal(l) + h
  {
    assert l[i..i + 2] == [l[i], l[i + 1]];
    TotalsOfTwo(l[i], l[i + 1]);
    TotalsOfOne(l[i]);
    TotalsOfOne(l[i + 1]);
    TotalsOfOne(Merge(l[i], l[i + 1], h));
    TotalsReplace(l, i, i + 2, [Merge(l[i], l[i + 1], h)]);
  }

  lemma {:induction false} MarkTotals(l: Layout, i: nat)
    requires i < |l| && !l[i].free
    ensures var l1 := l[i := l[i].(free := true)];
            Used(l1) == Used(l) - l[i].size && FreeTotal(l1) == FreeTotal(l) + l[i].size
  {
    hide Used, FreeTotal;
    var l1 := l[i := l[i].(free := true)];
    assert l[i..i + 1] == [l[i]];
    TotalsOfOne(l[i]);
    TotalsOfOne(l1[i]);
    TotalsReplace(l, i, i + 1, [l1[i]]);
    assert l1 == l[..i] + [l1[i]] + l[i + 1..];
  }

  /** The headers that disappear when a released block is joined with its free neighbours. */
  function JoinedBytes(l: Layout, h: nat, i: nat): nat
    requires i < |l|
  {
    (if i + 1 < |l| && l[i + 1].free then h else 0) + (if i > 0 && l[i - 1].free then h else 0)
  }

  lemma {:induction false} ReleaseTotals(l: Layout, h: nat, i: nat)
    requires i < |l| && !l[i].free
    ensures Used(Release(l, h, i)) == Used(l) - l[i].size
    ensures FreeTotal(Release(l, h, i)) == FreeTotal(l) + l[i].size
              + JoinedBytes(l, h, i)
  {
    hide Join, Used, FreeTotal;
    var l1 := l[i := l[i].(free := true)];
    MarkTotals(l, i);
    var l2 := JoinForward(l1, h, i);
    if i + 1 < |l1| && l1[i + 1].free {
      JoinTotals(l1, h, i);
    }
    if i > 0 && l2[i - 1].free {
      JoinTotals(l2, h, i - 1);
    }
  }

  /** What the allocator's free-byte counter becomes: the header of a split-off block is never charged. */
  function FreeCounterAfter(counter: nat, size: nat, h: nat): nat {
    if counter >= size + h then counter - size else 0
  }

  /** From an exact free-byte counter, allocating keeps it exact if and only if the block is not split, and either the
      arena has a header's worth of other free space or none at all. */
  lemma {:induction false} FreeCounterExactIff(l: Layout, h: nat, i: nat, need: nat)
    requires HeaderSize(h) && i < |l| && Fits(l[i], need)
    ensures var b := Allocated(l[i], h, need);
            FreeCounterAfter(FreeTotal(l), b.size, h) == FreeTotal(Allocate(l, h, i, need))
            <==> !Splits(l[i], h, need) && (FreeTotal(l) == l[i].size || FreeTotal(l) >= l[i].size + h)
  {
    hide Allocate, FreeTotal, Splits, Aligned;
    AllocateTotals(l, h, i, need);
    TotalsAtLeast(l, i);
  }

  lemma {:induction false} TotalsAtLeast(l: Layout, i: nat)
    requires i < |l|
    ensures if l[i].free then FreeTotal(l) >= l[i].size else Used(l) >= l[i].size
  {
    hide Used, FreeTotal;
    TotalsConcat(l[..i], [l[i]]);
    TotalsConcat(l[..i] + [l[i]], l[i + 1..]);
    assert l == l[..i] + [l[i]] + l[i + 1..];
    TotalsOfOne(l[i]);
  }

  /** Headers, live payloads and free payloads fill the arena. */
  lemma {:induction false} TotalsFillArena(l: Layout, h: nat)
    requires Contiguous(l, h)
    ensures FreeTotal(l) + Used(l) + h * |l| == ARENA
  {
    TotalsUpTo(l, h, |l|);
    assert l[..|l|] == l;
  }

  lemma {:induction false} TotalsUpTo(l: Layout, h: nat, n: nat)
    requires Contiguous(l, h) && 0 < n <= |l|
    ensures FreeTotal(l[..n]) + Used(l[..n]) + h * n == End(l[n - 1], h)
    decreases n
  {
    assert l[..n][..n - 1] == l[..n - 1];
    if n > 1 {
      TotalsUpTo(l, h, n - 1);
      assert Adjoins(l, h, n - 1);
      assert h * n == h * (n - 1) + h;
    } else {
      assert l[..0] == [];
    }
  }

  /** A free-byte counter that was never cut to zero is above the free payload bytes by every header there is but one,
      and by every header joined away: it is exact if and only if there is one block and nothing was ever joined. */
  lemma {:induction false} CounterExactIff(counter: nat, joined: nat, l: Layout, h: nat)
    requires Contiguous(l, h) && 0 < h <= ARENA && counter + Used(l) == ARENA - h + joined
    ensures counter == FreeTotal(l) + h * (|l| - 1) + joined
    ensures counter == FreeTotal(l) <==> |l| == 1 && joined == 0
  {
    TotalsFillArena(l, h);
    assert h * |l| == h * (|l| - 1) + h;
    assert |l| > 1 ==> h * (|l| - 1) > 0;
  }

  /** What an allocation followed by freeing the same block makes of the free-byte counter. */
  function CounterAfterCycle(counter: nat, l: Layout, h: nat, i: nat, need: nat): nat
    requires i < |l| && Fits(l[i], need)
  {
    var r, size := Allocate(l, h, i, need), Allocated(l[i], h, need).size;
    AllocateShape(l, h, i, need);
    FreeCounterAfter(counter, size, h) + size + JoinedBytes(r, h, i)
  }

  /** Allocating a block and freeing it again restores the list of blocks, but the counter only if the block is not
      split and the counter is at least a header above the block's size, or exactly at it. */
  lemma {:induction false} CycleKeepsCounterIff(counter: nat, l: Layout, h: nat, i: nat, need: nat)
    requires Tiling(l, h) && HeaderSize(h) && i < |l| && Fits(l[i], need)
    ensures Release(Allocate(l, h, i, need), h, i) == l
    ensures CounterAfterCycle(counter, l, h, i, need) == counter <==>
              !Splits(l[i], h, need) && (counter >= l[i].size + h || counter == l[i].size)
    ensures Splits(l[i], h, need) && counter >= need + h ==> CounterAfterCycle(counter, l, h, i, need) == counter + h
  {
    ReleaseUndoesAllocate(l, h, i, need);
    JoinedAfterAllocate(l, h, i, need);
  }

  lemma {:induction false} JoinedAfterAllocate(l: Layout, h: nat, i: nat, need: nat)
    requires Tiling(l, h) && i < |l| && Fits(l[i], need)
    ensures i < |Allocate(l, h, i, need)|
    ensures JoinedBytes(Allocate(l, h, i, need), h, i) == if Splits(l[i], h, need) then h else 0
  {
    assert i > 0 ==> Coalesced(l, i);
    assert i + 1 < |l| ==> Coalesced(l, i + 1);
    hide Tiling, Allocate;
    AllocateShape(l, h, i, need);
    var r := Allocate(l, h, i, need);
    assert i > 0 ==> r[i - 1] == l[i - 1];
    if Splits(l[i], h, need) {
      assert r[i + 1] == Remainder(l[i], h, need);
    } else {
      assert i + 1 < |l| ==> r[i + 1] == l[i + 1];
    }
  }

  /** The smallest request from a fresh arena, freed again, leaves the counter a header above the arena's capacity. */
  lemma {:induction false} FreshCycleExceedsCapacity(h: nat)
    requires HeaderSize(h) && 2 * h + 2 * MIN_PAYLOAD <= ARENA
    ensures Fits(Initial(h)[0], MIN_PAYLOAD)
    ensures CounterAfterCycle(ARENA - h, Initial(h), h, 0, MIN_PAYLOAD) == ARENA
  {
    InitialTiling(h);
    CycleKeepsCounterIff(ARENA - h, Initial(h), h, 0, MIN_PAYLOAD);
  }
}
