/** The fixed-size pools: five classes of slots, each with a free list threaded through its unused slots. */
module Pool {
  import opened Bytes

  const CLASSES: nat := 5
  const SLOTS: nat := 120

  function BlockSize(c: nat): nat {
    if c == 0 then 16 else if c == 1 then 32 else if c == 2 then 64 else if c == 3 then 128 else 256
  }

  function Total(c: nat): nat {
    if c <= 2 then 32 else if c == 3 then 16 else 8
  }

  /** The first slot of class `c`; the classes lie one behind the other. */
  function Base(c: nat): nat {
    if c == 0 then 0 else if c == 1 then 32 else if c == 2 then 64
    else if c == 3 then 96 else if c == 4 then 112 else SLOTS
  }

  function ClassOf(slot: nat): (c: nat)
    ensures c < CLASSES
  {
    if slot < 32 then 0 else if slot < 64 then 1 else if slot < 96 then 2 else if slot < 112 then 3 else 4
  }

  lemma {:induction false} ClassRange(slot: nat, c: nat)
    requires slot < SLOTS && c < CLASSES
    ensures ClassOf(slot) == c <==> Base(c) <= slot < Base(c) + Total(c)
    ensures Base(c + 1) == Base(c) + Total(c)
  {
  }

  /** The smallest class whose blocks hold `size` bytes, if any. */
  predicate SmallestFit(size: nat, c: nat) {
    c < CLASSES && size <= BlockSize(c) && forall d :: 0 <= d < c ==> size > BlockSize(d)
  }

  /** Block sizes double from 16 to 256 bytes, so the smallest fit is the smallest such size. */
  lemma {:induction false} FitIff(size: nat, c: nat)
    requires c < 5
    ensures SmallestFit(size, c) <==> size <= BlockSize(c) && (c == 0 || 2 * size > BlockSize(c))
    ensures BlockSize(0) == 16 && BlockSize(4) == 256 && (c < 4 ==> BlockSize(c + 1) == 2 * BlockSize(c))
    ensures !SmallestFit(size, 5)
  {
    if SmallestFit(size, c) && c > 0 {
      assert size > BlockSize(c - 1);
    }
    if c > 0 && 2 * size > BlockSize(c) {
      forall d | 0 <= d < c
        ensures size > BlockSize(d)
      {
      }
    }
  }

  /** Five classes with 32, 32, 32, 16 and 8 slots, one behind the other, in 7680 bytes of blocks. */
  lemma {:induction false} Capacities(slot: nat)
    requires slot < 120
    ensures Total(0) == Total(1) == Total(2) == 32 && Total(3) == 16 && Total(4) == 8
    ensures Total(0) * BlockSize(0) + Total(1) * BlockSize(1) + Total(2) * BlockSize(2) + Total(3) * BlockSize(3)
            + Total(4) * BlockSize(4) == 7680
    ensures ClassOf(slot) == if slot < 96 then slot / 32 else if slot < 112 then 3 else 4
  {
  }

  datatype Magic = MagicFree | MagicAlloc

  datatype Node = Node(magic: Magic, class_: nat, inUse: bool, nextFree: Option<nat>)

  type FreeLists = seq<seq<nat>>

  function Head(list: seq<nat>): Option<nat> {
    if list == [] then None else Some(list[0])
  }

  /** The nodes in `list` are free and each points to the next. */
  predicate Threaded(nodes: seq<Node>, list: seq<nat>, c: nat)
  {
    forall k {:trigger list[k]} :: 0 <= k < |list| ==>
      list[k] < |nodes| && nodes[list[k]] == Node(MagicFree, c, false, Head(list[k + 1..]))
  }

  /** A list of distinct slots of class `c`. */
  predicate ProperList(list: seq<nat>, c: nat) {
    && (forall k {:trigger list[k]} :: 0 <= k < |list| ==> list[k] < SLOTS && ClassOf(list[k]) == c)
    && forall j, k :: 0 <= j < k < |list| ==> list[j] != list[k]
  }

  /** The free lists are acyclic and hold exactly the unused slots of their classes. */
  predicate Accounted(nodes: seq<Node>, free: FreeLists) {
    && |nodes| == SLOTS && |free| == CLASSES
    && (forall c {:trigger free[c]} :: 0 <= c < CLASSES ==> ProperList(free[c], c) && Threaded(nodes, free[c], c))
    && forall s {:trigger nodes[s]} :: 0 <= s < SLOTS && s !in free[ClassOf(s)] ==>
         nodes[s] == Node(MagicAlloc, ClassOf(s), true, None)
  }

  /** The slots handed out and not given back. */
  function Live(free: FreeLists): set<nat>
    requires |free| == CLASSES
  {
    set s | 0 <= s < SLOTS && s !in free[ClassOf(s)]
  }

  // ----- counting

  function Range(lo: nat, n: nat): (r: set<nat>)
    ensures |r| == n && forall s :: s in r <==> lo <= s < lo + n
  {
    if n == 0 then {} else Range(lo, n - 1) + {lo + n - 1}
  }

  function Elements(list: seq<nat>): (r: set<nat>)
    ensures forall s :: s in r <==> s in list
  {
    set s | s in list
  }

  lemma {:induction false} DistinctSize(list: seq<nat>)
    requires forall j, k :: 0 <= j < k < |list| ==> list[j] != list[k]
    ensures |Elements(list)| == |list|
    decreases |list|
  {
    if list != [] {
      DistinctSize(list[1..]);
      assert Elements(list) == Elements(list[1..]) + {list[0]};
    }
  }

  /** The live slots of class `c`. */
  function LiveIn(free: FreeLists, c: nat): set<nat>
    requires |free| == CLASSES && c < CLASSES
  {
    set s | s in Range(Base(c), Total(c)) && s !in free[c]
  }

  lemma {:induction false} ListedInRange(list: seq<nat>, c: nat)
    requires c < CLASSES && ProperList(list, c)
    ensures Elements(list) <= Range(Base(c), Total(c))
  {
    forall s | s in list
      ensures s in Range(Base(c), Total(c))
    {
      var k :| 0 <= k < |list| && list[k] == s;
      ClassRange(s, c);
    }
  }

  lemma {:induction false} LiveByClass(free: FreeLists, c: nat, s: nat)
    requires |free| == CLASSES && c < CLASSES
    ensures s in LiveIn(free, c) <==> s in Live(free) && ClassOf(s) == c
  {
    if s < SLOTS {
      ClassRange(s, c);
    }
  }

  /** Of the slots of a class, those that are live and those on the free list make up the total. */
  lemma {:induction false} LivePlusFree(free: FreeLists, c: nat)
    requires |free| == CLASSES && c < CLASSES && ProperList(free[c], c)
    ensures |LiveIn(free, c)| + |free[c]| == Total(c)
    ensures forall s :: s in LiveIn(free, c) <==> s in Live(free) && ClassOf(s) == c
  {
    DistinctSize(free[c]);
    ListedInRange(free[c], c);
    forall s: nat
      ensures s in LiveIn(free, c) <==> s in Live(free) && ClassOf(s) == c
    {
      LiveByClass(free, c, s);
    }
    hide Live, ProperList, ClassOf;
    assert Range(Base(c), Total(c)) == LiveIn(free, c) + Elements(free[c]);
  }

  /** A live slot of a class leaves room on its free list. */
  lemma {:induction false} LiveLeavesRoom(free: FreeLists, slot: nat)
    requires |free| == CLASSES && slot in Live(free) && ProperList(free[ClassOf(slot)], ClassOf(slot))
    ensures |free[ClassOf(slot)]| < Total(ClassOf(slot))
  {
    LivePlusFree(free, ClassOf(slot));
    assert slot in LiveIn(free, ClassOf(slot));
  }

  // ----- taking a slot from, and giving one back to, the front of a list

  lemma {:induction false} PopThreaded(nodes: seq<Node>, list: seq<nat>, c: nat, node: Node)
    requires |nodes| == SLOTS && list != [] && ProperList(list, c) && Threaded(nodes, list, c)
    ensures ProperList(list[1..], c) && Threaded(nodes[list[0] := node], list[1..], c)
    ensures list[0] !in list[1..] && nodes[list[0]].nextFree == Head(list[1..])
  {
    var rest := list[1..];
    forall k | 0 <= k < |rest|
      ensures rest[k] == list[k + 1] && rest[k + 1..] == list[k + 2..]
    {
    }
  }

  lemma {:induction false} PushThreaded(nodes: seq<Node>, list: seq<nat>, slot: nat, c: nat)
    requires |nodes| == SLOTS && slot < SLOTS && ClassOf(slot) == c && slot !in list
    requires ProperList(list, c) && Threaded(nodes, list, c)
    ensures ProperList([slot] + list, c)
    ensures Threaded(nodes[slot := Node(MagicFree, c, false, Head(list))], [slot] + list, c)
  {
    var list' := [slot] + list;
    forall k | 0 <= k < |list'|
      ensures list'[k + 1..] == if k == 0 then list else list[k..]
    {
    }
    assert forall k :: 0 < k < |list'| ==> list'[k] == list[k - 1];
  }

  lemma {:induction false} OtherThreaded(nodes: seq<Node>, list: seq<nat>, d: nat, slot: nat, node: Node)
    requires |nodes| == SLOTS && slot < SLOTS && ClassOf(slot) != d
    requires ProperList(list, d) && Threaded(nodes, list, d)
    ensures Threaded(nodes[slot := node], list, d)
  {
  }

  lemma {:induction false} AfterPop(nodes: seq<Node>, free: FreeLists, c: nat)
    requires Accounted(nodes, free) && c < CLASSES && free[c] != []
    ensures var slot, free' := free[c][0], free[c := free[c][1..]];
            && slot < SLOTS && ClassOf(slot) == c && slot !in Live(free)
            && nodes[slot].nextFree == Head(free[c][1..]) && nodes[slot].class_ == c
            && Accounted(nodes[slot := Node(MagicAlloc, c, true, None)], free')
            && Live(free') == Live(free) + {slot}
  {
    hide Threaded, ProperList, ClassOf;
    var slot, node := free[c][0], Node(MagicAlloc, c, true, None);
    var free' := free[c := free[c][1..]];
    assert ProperList(free[c], c) && Threaded(nodes, free[c], c);
    InClass(nodes, free[c], c);
    PopThreaded(nodes, free[c], c, node);
    forall d | 0 <= d < CLASSES
      ensures ProperList(free'[d], d) && Threaded(nodes[slot := node], free'[d], d)
    {
      assert ProperList(free[d], d) && Threaded(nodes, free[d], d);
      if d != c {
        OtherThreaded(nodes, free[d], d, slot, node);
      }
    }
    assert forall s :: s in free[c] <==> s == slot || s in free'[c];
  }

  lemma {:induction false} InClass(nodes: seq<Node>, list: seq<nat>, c: nat)
    requires |nodes| == SLOTS && ProperList(list, c) && Threaded(nodes, list, c) && list != []
    ensures list[0] < SLOTS && ClassOf(list[0]) == c && nodes[list[0]].class_ == c
  {
  }

  lemma {:induction false} AfterPush(nodes: seq<Node>, free: FreeLists, slot: nat)
    requires Accounted(nodes, free) && slot in Live(free)
    ensures var c := ClassOf(slot);
            && Accounted(nodes[slot := Node(MagicFree, c, false, Head(free[c]))], free[c := [slot] + free[c]])
            && Live(free[c := [slot] + free[c]]) == Live(free) - {slot}
  {
    var c := ClassOf(slot);
    var node, free' := Node(MagicFree, c, false, Head(free[c])), free[c := [slot] + free[c]];
    assert ProperList(free[c], c) && Threaded(nodes, free[c], c);
    PushThreaded(nodes, free[c], slot, c);
    forall d | 0 <= d < CLASSES
      ensures ProperList(free'[d], d) && Threaded(nodes[slot := node], free'[d], d)
    {
      assert ProperList(free[d], d) && Threaded(nodes, free[d], d);
      if d != c {
        OtherThreaded(nodes, free[d], d, slot, node);
      }
    }
    hide Threaded, ProperList;
    assert forall s :: s in free'[c] <==> s == slot || s in free[c];
  }

  /** The bytes in use, class by class. */
  function Weighted(blocks: seq<nat>): nat
    requires |blocks| == CLASSES
  {
    BlockSize(0) * blocks[0] + BlockSize(1) * blocks[1] + BlockSize(2) * blocks[2]
    + BlockSize(3) * blocks[3] + BlockSize(4) * blocks[4]
  }

  lemma {:induction false} WeightedUpdate(blocks: seq<nat>, c: nat)
    requires |blocks| == CLASSES && c < CLASSES
    ensures Weighted(blocks[c := blocks[c] + 1]) == Weighted(blocks) + BlockSize(c)
    ensures blocks[c] > 0 ==> Weighted(blocks) >= BlockSize(c)
                              && Weighted(blocks[c := blocks[c] - 1]) == Weighted(blocks) - BlockSize(c)
  {
  }

  /** Heads and counters match the lists: in every class, used and free blocks make up the total. */
  predicate Counted(heads: seq<Option<nat>>, blocks: seq<nat>, free: FreeLists) {
    && |heads| == |blocks| == |free| == CLASSES
    && forall c {:trigger free[c]} :: 0 <= c < CLASSES ==>
       heads[c] == Head(free[c]) && blocks[c] + |free[c]| == Total(c)
  }

  lemma {:induction false} CountedUpdate(heads: seq<Option<nat>>, blocks: seq<nat>, free: FreeLists, c: nat,
                                         n: nat, list: seq<nat>)
    requires Counted(heads, blocks, free) && c < CLASSES && n + |list| == Total(c)
    ensures Counted(heads[c := Head(list)], blocks[c := n], free[c := list])
    ensures heads[c] == Head(free[c]) && blocks[c] + |free[c]| == Total(c)
  {
    assert heads[c] == Head(free[c]);
  }

  lemma {:induction false} NoBlocks(blocks: seq<nat>)
    requires |blocks| == CLASSES && forall c :: 0 <= c < CLASSES ==> blocks[c] == 0
    ensures Weighted(blocks) == 0
  {
  }

  lemma {:induction false} EmptyLists(nodes: seq<Node>, free: FreeLists)
    requires |free| == CLASSES && forall d :: 0 <= d < CLASSES ==> free[d] == []
    ensures forall d {:trigger free[d]} :: 0 <= d < CLASSES ==> ProperList(free[d], d) && Threaded(nodes, free[d], d)
  {
  }

  lemma {:induction false} FrontSlot(heads: seq<Option<nat>>, blocks: seq<nat>, free: FreeLists, c: nat)
    requires Counted(heads, blocks, free) && c < CLASSES && heads[c].Some?
    ensures |blocks| == |free| == CLASSES && free[c] != [] && heads[c].value == free[c][0]
    ensures blocks[c] + 1 + |free[c][1..]| == Total(c)
  {
    assert heads[c] == Head(free[c]);
  }

  // ----- the code

  class Pool {
    const nodes: array<Node>
    const heads: array<Option<nat>>
    const usedBlocks: array<nat>
    var usedBytes: nat
    var failures: nat

    ghost var free: FreeLists

    ghost predicate Valid()
      reads this, nodes, heads, usedBlocks
    {
      && nodes.Length == SLOTS && heads.Length == CLASSES && usedBlocks.Length == CLASSES
      && Accounted(nodes[..], free)
      && Counted(heads[..], usedBlocks[..], free)
      && usedBytes == Weighted(usedBlocks[..])
    }

    constructor ()
      ensures Valid() && Live(free) == {} && usedBytes == failures == 0
      ensures fresh(nodes) && fresh(heads) && fresh(usedBlocks)
    {
      nodes := new Node[SLOTS](i => Node(MagicAlloc, 0, true, None));
      heads := new Option<nat>[CLASSES](i => None);
      usedBlocks := new nat[CLASSES](i => 0);
      usedBytes, failures := 0, 0;
      free := [[], [], [], [], []];
      new;
      hide Accounted, ProperList, Threaded, ClassOf, Live;
      NoBlocks(usedBlocks[..]);
      EmptyLists(nodes[..], free);
      BuildLists();
    }

    /** The lists are threaded and the heads point to them. */
    ghost predicate Lists()
      reads this, nodes, heads
    {
      && nodes.Length == SLOTS && heads.Length == CLASSES && |free| == CLASSES
      && (forall d {:trigger heads[d]} :: 0 <= d < CLASSES ==> heads[d] == Head(free[d]))
      && forall d {:trigger free[d]} :: 0 <= d < CLASSES ==> ProperList(free[d], d) && Threaded(nodes[..], free[d], d)
    }

    method BuildLists()
      requires Lists() && forall d :: 0 <= d < CLASSES ==> free[d] == []
      modifies this`free, nodes, heads
      ensures Lists() && Accounted(nodes[..], free) && Live(free) == {}
      ensures forall d :: 0 <= d < CLASSES ==> |free[d]| == Total(d)
    {
      hide ProperList, Threaded, ClassOf, Head;
      for c := 0 to CLASSES
        invariant Lists()
        invariant forall d :: 0 <= d < c ==> |free[d]| == Total(d)
        invariant forall d :: c <= d < CLASSES ==> free[d] == []
        invariant forall d, s :: 0 <= d < c && Base(d) <= s < Base(d) + Total(d) ==> s in free[d]
      {
        BuildList(c);
      }
      forall s: nat | s < SLOTS
        ensures s in free[ClassOf(s)]
      {
        ClassRange(s, ClassOf(s));
      }
    }

    /** Threads the slots of class `c` into its list, each in front of the one before. */
    method BuildList(c: nat)
      requires c < CLASSES && Lists() && free[c] == []
      modifies this`free, nodes, heads
      ensures Lists() && forall d :: 0 <= d < CLASSES && d != c ==> free[d] == old(free)[d]
      ensures |free[c]| == Total(c) && forall s :: Base(c) <= s < Base(c) + Total(c) ==> s in free[c]
    {
      heads[c] := None;
      for i := 0 to Total(c)
        invariant Lists() && forall d :: 0 <= d < CLASSES && d != c ==> free[d] == old(free)[d]
        invariant |free[c]| == i && forall s :: s in free[c] <==> Base(c) <= s < Base(c) + i
      {
        var slot := Base(c) + i;
        ClassRange(slot, c);
        ghost var before, list := nodes[..], free[c];
        nodes[slot] := Node(MagicFree, c, false, heads[c]);
        heads[c] := Some(slot);
        free := free[c := [slot] + list];
        PushThreaded(before, list, slot, c);
        assert nodes[..] == before[slot := Node(MagicFree, c, false, Head(list))];
        forall d | 0 <= d < CLASSES && d != c
          ensures Threaded(nodes[..], free[d], d)
        {
          OtherThreaded(before, free[d], d, slot, nodes[slot]);
        }
      }
    }

    /** Takes the first free slot of the smallest fitting class; fails exactly when the size fits no class or that class
        has no free slot left. */
    method Alloc(size: nat) returns (ptr: Option<nat>)
      requires Valid()
      modifies this, nodes, heads, usedBlocks
      ensures Valid()
      ensures ptr.None? <==> size == 0 || size > 256 || (exists c: nat :: SmallestFit(size, c) && old(free)[c] == [])
      ensures ptr.None? ==> free == old(free) && usedBytes == old(usedBytes)
      ensures failures == old(failures) + (if ptr.None? && 0 < size <= 256 then 1 else 0)
      ensures ptr.Some? ==>
                && ptr.value < SLOTS && ptr.value !in Live(old(free)) && Live(free) == Live(old(free)) + {ptr.value}
                && SmallestFit(size, ClassOf(ptr.value)) && usedBytes == old(usedBytes) + BlockSize(ClassOf(ptr.value))
                && old(free)[ClassOf(ptr.value)] == [ptr.value] + free[ClassOf(ptr.value)]
      ensures ptr.Some? ==>
                usedBytes - old(usedBytes) == if size <= 16 then 16 else if size <= 32 then 32
                                              else if size <= 64 then 64 else if size <= 128 then 128 else 256
    {
      if size == 0 || size > 256 {
        return None;
      }
      var c := 0;
      while size > BlockSize(c)
        invariant c < CLASSES && forall d :: 0 <= d < c ==> size > BlockSize(d)
        decreases CLASSES - c
      {
        c := c + 1;
      }
      FitUnique(size, c);
      if heads[c].None? {
        failures := failures + 1;
        return None;
      }
      var slot := Pop(c);
      return Some(slot);
    }

    method Pop(c: nat) returns (slot: nat)
      requires Valid() && c < CLASSES && heads[c].Some?
      modifies this, nodes, heads, usedBlocks
      ensures Valid() && slot < SLOTS && ClassOf(slot) == c && usedBytes == old(usedBytes) + BlockSize(c)
      ensures old(free)[c] == [slot] + free[c] && free == old(free)[c := free[c]]
      ensures slot !in Live(old(free)) && Live(free) == Live(old(free)) + {slot} && failures == old(failures)
    {
      hide Accounted, Live, Weighted, BlockSize, Total, ClassOf, Counted, Head;
      FrontSlot(heads[..], usedBlocks[..], free, c);
      AfterPop(nodes[..], free, c);
      WeightedUpdate(usedBlocks[..], c);
      CountedUpdate(heads[..], usedBlocks[..], free, c, usedBlocks[c] + 1, free[c][1..]);
      ghost var n, u, h := nodes[..], usedBlocks[..], heads[..];
      slot := heads[c].value;
      heads[c] := nodes[slot].nextFree;
      nodes[slot] := Node(MagicAlloc, nodes[slot].class_, true, None);
      free := free[c := free[c][1..]];
      usedBlocks[c] := usedBlocks[c] + 1;
      usedBytes := usedBytes + BlockSize(c);
      assert nodes[..] == n[slot := Node(MagicAlloc, c, true, None)];
      assert usedBlocks[..] == u[c := u[c] + 1];
      assert heads[..] == h[c := Head(free[c])];
    }

    /** Gives a slot back; a slot that is not live is refused and nothing changes. */
    method Free(slot: nat) returns (ok: bool)
      requires Valid() && slot < SLOTS
      modifies this, nodes, heads, usedBlocks
      ensures Valid()
      ensures ok <==> slot in Live(old(free))
      ensures failures == old(failures)
      ensures !ok ==> free == old(free) && usedBytes == old(usedBytes)
      ensures ok ==> Live(free) == Live(old(free)) - {slot} && free[ClassOf(slot)] == [slot] + old(free)[ClassOf(slot)]
                     && usedBytes == old(usedBytes) - BlockSize(ClassOf(slot))
    {
      var node := nodes[slot];
      FreeNodes(nodes[..], free, slot);
      if !node.magic.MagicAlloc? || !node.inUse {
        return false;
      }
      AfterPush(nodes[..], free, slot);
      LiveLeavesRoom(free, slot);
      WeightedUpdate(usedBlocks[..], ClassOf(slot));
      assert heads[ClassOf(slot)] == Head(free[ClassOf(slot)])
             && usedBlocks[ClassOf(slot)] + |free[ClassOf(slot)]| == Total(ClassOf(slot));
      CountedUpdate(
        heads[..], usedBlocks[..], free, ClassOf(slot), usedBlocks[ClassOf(slot)] - 1, [slot] + free[ClassOf(slot)]);
      hide Accounted, Live, Weighted, BlockSize, Total, ClassOf, Counted;
      ghost var n, u, h := nodes[..], usedBlocks[..], heads[..];
      var c := node.class_;
      nodes[slot] := Node(MagicFree, c, false, heads[c]);
      heads[c] := Some(slot);
      free := free[c := [slot] + free[c]];
      if usedBlocks[c] > 0 {
        usedBlocks[c] := usedBlocks[c] - 1;
      }
      if usedBytes >= BlockSize(c) {
        usedBytes := usedBytes - BlockSize(c);
      }
      assert nodes[..] == n[slot := Node(MagicFree, c, false, Head(old(free)[c]))];
      assert usedBlocks[..] == u[c := u[c] - 1];
      assert heads[..] == h[c := Head(free[c])];
      return true;
    }
  }

  lemma {:induction false} FitUnique(size: nat, c: nat)
    requires SmallestFit(size, c)
    ensures forall d :: SmallestFit(size, d) <==> d == c
  {
  }

  lemma {:induction false} FreeNodes(nodes: seq<Node>, free: FreeLists, slot: nat)
    requires Accounted(nodes, free) && slot < SLOTS
    ensures slot in Live(free) ==> ProperList(free[ClassOf(slot)], ClassOf(slot))
    ensures slot in Live(free) <==> nodes[slot].magic.MagicAlloc? && nodes[slot].inUse
    ensures slot in Live(free) ==> nodes[slot].class_ == ClassOf(slot)
  {
    var c := ClassOf(slot);
    assert Threaded(nodes, free[c], c);
    if slot in free[c] {
      var k :| 0 <= k < |free[c]| && free[c][k] == slot;
    }
  }
}
