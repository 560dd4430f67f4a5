/** The arena allocator: headers inside the arena, doubly linked in address order and relinked in place. */
module Arena {
  import opened Bytes
  import opened ArenaLayout

  datatype Magic = MagicFree | MagicAlloc

  /** A block header; the pointers are offsets of other headers in the arena. */
  datatype Header = Header(magic: Magic, size: nat, prev: Option<nat>, next: Option<nat>, isFree: bool)

  type Memory = map<nat, Header>

  /** The header that block `i` must have. */
  function HeaderOf(l: Layout, i: nat): Header
    requires i < |l|
  {
    Header(if l[i].free then MagicFree else MagicAlloc, l[i].size,
           if i == 0 then None else Some(l[i - 1].addr),
           if i + 1 == |l| then None else Some(l[i + 1].addr),
           l[i].free)
  }

  predicate LinkedAt(m: Memory, l: Layout, i: nat)
    requires i < |l|
  {
    l[i].addr in m && m[l[i].addr] == HeaderOf(l, i)
  }

  /** The headers in memory are exactly those of the blocks, linked in order. */
  predicate Linked(m: Memory, l: Layout) {
    forall i {:trigger LinkedAt(m, l, i)} :: 0 <= i < |l| ==> LinkedAt(m, l, i)
  }

  predicate IsBlock(l: Layout, a: nat) {
    exists i :: 0 <= i < |l| && l[i].addr == a
  }

  /** Headers that no longer belong to a block still say that they are free. */
  predicate StaleAreFree(m: Memory, l: Layout) {
    forall a {:trigger m[a]} :: a in m && !IsBlock(l, a) ==> m[a].isFree && m[a].magic.MagicFree?
  }

  /** Every header written lies outside the payload of `b`. */
  predicate Untouched(m: Memory, m': Memory, b: Block, h: nat) {
    forall a {:trigger m'[a]} :: a in m' && (a !in m || m'[a] != m[a]) ==> Clear(b, h, a, h)
  }

  // ----- the writes behind splitting, joining and marking

  function Relink(m: Memory, at: Option<nat>, prev: nat): Memory
    requires at.Some? ==> at.value in m
  {
    if at.Some? then m[at.value := m[at.value].(prev := Some(prev))] else m
  }

  /** Cutting the block at `a`: a new header behind its payload, linked in on both sides. */
  function SplitMemory(m: Memory, a: nat, h: nat, need: nat): Memory
    requires a in m && m[a].size >= need + h && (m[a].next.Some? ==> m[a].next.value in m)
  {
    var new_ := a + h + need;
    var m1 := m[new_ := Header(MagicFree, m[a].size - need - h, Some(a), m[a].next, true)];
    var m2 := Relink(m1, m[a].next, new_);
    m2[a := m2[a].(size := need, next := Some(new_))]
  }

  function MarkMemory(m: Memory, a: nat, free: bool): Memory
    requires a in m
  {
    m[a := m[a].(magic := if free then MagicFree else MagicAlloc, isFree := free)]
  }

  /** The block at `a` swallows the one at `b` behind it. */
  function JoinMemory(m: Memory, h: nat, a: nat, b: nat): Memory
    requires a in m && b in m && (m[b].next.Some? ==> m[b].next.value in m)
  {
    Relink(m[a := m[a].(size := m[a].size + h + m[b].size, next := m[b].next)], m[b].next, a)
  }

  lemma {:induction false} NextInMemory(m: Memory, l: Layout, i: nat)
    requires Linked(m, l) && i < |l|
    ensures LinkedAt(m, l, i)
    ensures i + 1 < |l| ==> LinkedAt(m, l, i + 1)
    ensures m[l[i].addr].next.Some? <==> i + 1 < |l|
    ensures i + 1 < |l| ==> m[l[i].addr].next.value == l[i + 1].addr && l[i + 1].addr in m
  {
    assert LinkedAt(m, l, i);
    if i + 1 < |l| {
      assert LinkedAt(m, l, i + 1);
    }
  }

  lemma {:induction false} SplitLinked(m: Memory, l: Layout, h: nat, i: nat, need: nat)
    requires Linked(m, l) && i < |l| && l[i].free && Splits(l[i], h, need)
    requires Contiguous(SplitLayout(l, h, i, need), h)
    ensures LinkedAt(m, l, i) && (m[l[i].addr].next.Some? ==> m[l[i].addr].next.value in m)
    ensures Linked(SplitMemory(m, l[i].addr, h, need), SplitLayout(l, h, i, need))
  {
    NextInMemory(m, l, i);
    var m', r := SplitMemory(m, l[i].addr, h, need), SplitLayout(l, h, i, need);
    AddressesDistinct(r, h);
    hide Contiguous;
    forall k | 0 <= k < |r|
      ensures LinkedAt(m', r, k)
    {
      if k < i {
        assert LinkedAt(m, l, k);
      } else if k > i + 1 {
        assert LinkedAt(m, l, k - 1);
      }
    }
  }

  lemma {:induction false} SplitWrites(m: Memory, l: Layout, h: nat, i: nat, need: nat)
    requires Linked(m, l) && StaleAreFree(m, l) && i < |l| && l[i].free && Splits(l[i], h, need)
    ensures LinkedAt(m, l, i) && (m[l[i].addr].next.Some? ==> m[l[i].addr].next.value in m)
    ensures var m', r := SplitMemory(m, l[i].addr, h, need), SplitLayout(l, h, i, need);
            StaleAreFree(m', r) && WritesOnly(m, m', r)
  {
    NextInMemory(m, l, i);
    var r := SplitLayout(l, h, i, need);
    assert r[i].addr == l[i].addr && r[i + 1].addr == l[i].addr + h + need;
    assert i + 1 < |l| ==> r[i + 2].addr == l[i + 1].addr;
    BlocksKept(l, r, i);
  }

  lemma {:induction false} BlocksKept(l: Layout, r: Layout, i: nat)
    requires |r| == |l| + 1 && i < |l| && r[i].addr == l[i].addr
    requires forall k {:trigger r[k]} :: 0 <= k < |r| && k != i && k != i + 1 ==>
             r[k] == if k < i then l[k] else l[k - 1]
    ensures forall a :: IsBlock(l, a) ==> IsBlock(r, a)
  {
    forall a | IsBlock(l, a)
      ensures IsBlock(r, a)
    {
      var k :| 0 <= k < |l| && l[k].addr == a;
      assert r[if k <= i then k else k + 1].addr == a;
    }
  }

  lemma {:induction false} MarkLinked(m: Memory, l: Layout, h: nat, i: nat, free: bool)
    requires Linked(m, l) && Contiguous(l, h) && i < |l|
    ensures LinkedAt(m, l, i)
    ensures Linked(MarkMemory(m, l[i].addr, free), l[i := l[i].(free := free)])
  {
    assert LinkedAt(m, l, i);
    var m', r := MarkMemory(m, l[i].addr, free), l[i := l[i].(free := free)];
    AddressesDistinct(l, h);
    hide Contiguous;
    forall k | 0 <= k < |r|
      ensures LinkedAt(m', r, k)
    {
      assert LinkedAt(m, l, k);
    }
  }

  lemma {:induction false} MarkWrites(m: Memory, l: Layout, i: nat, free: bool)
    requires Linked(m, l) && StaleAreFree(m, l) && i < |l|
    ensures LinkedAt(m, l, i)
    ensures var m', r := MarkMemory(m, l[i].addr, free), l[i := l[i].(free := free)];
            StaleAreFree(m', r) && WritesOnly(m, m', l) && WritesOnly(m, m', r)
  {
    assert LinkedAt(m, l, i);
    var r := l[i := l[i].(free := free)];
    SameBlocks(l, r);
    assert l[i].addr == r[i].addr && IsBlock(l, l[i].addr);
  }

  lemma {:induction false} SameBlocks(l: Layout, r: Layout)
    requires |r| == |l| && forall k :: 0 <= k < |l| ==> l[k].addr == r[k].addr
    ensures forall a :: IsBlock(l, a) <==> IsBlock(r, a)
  {
    forall a | IsBlock(l, a)
      ensures IsBlock(r, a)
    {
      var k :| 0 <= k < |l| && l[k].addr == a;
      assert r[k].addr == a;
    }
  }

  lemma {:induction false} JoinLinked(m: Memory, l: Layout, h: nat, i: nat)
    requires Linked(m, l) && Contiguous(l, h) && i + 1 < |l| && l[i].free && l[i + 1].free
    ensures LinkedAt(m, l, i) && LinkedAt(m, l, i + 1)
    ensures m[l[i + 1].addr].next.Some? ==> m[l[i + 1].addr].next.value in m
    ensures Linked(JoinMemory(m, h, l[i].addr, l[i + 1].addr), Join(l, h, i))
  {
    NextInMemory(m, l, i);
    NextInMemory(m, l, i + 1);
    var m', r := JoinMemory(m, h, l[i].addr, l[i + 1].addr), Join(l, h, i);
    AddressesDistinct(l, h);
    hide Contiguous, Join;
    forall k | 0 <= k < |r|
      ensures LinkedAt(m', r, k)
    {
      if k <= i {
        assert LinkedAt(m, l, k);
      } else {
        assert LinkedAt(m, l, k + 1);
      }
    }
  }

  lemma {:induction false} JoinWrites(m: Memory, l: Layout, h: nat, i: nat)
    requires Linked(m, l) && StaleAreFree(m, l) && Contiguous(l, h) && i + 1 < |l| && l[i].free && l[i + 1].free
    ensures LinkedAt(m, l, i) && LinkedAt(m, l, i + 1)
    ensures m[l[i + 1].addr].next.Some? ==> m[l[i + 1].addr].next.value in m
    ensures var m', r := JoinMemory(m, h, l[i].addr, l[i + 1].addr), Join(l, h, i);
            StaleAreFree(m', r) && WritesOnly(m, m', l)
  {
    NextInMemory(m, l, i);
    NextInMemory(m, l, i + 1);
    AddressesDistinct(l, h);
    hide Contiguous, Join;
    JoinBlocks(l, h, i);
    assert IsBlock(l, l[i].addr) && (i + 2 < |l| ==> IsBlock(l, l[i + 2].addr));
  }

  lemma {:induction false} JoinBlocks(l: Layout, h: nat, i: nat)
    requires i + 1 < |l|
    ensures forall a :: IsBlock(l, a) ==> IsBlock(Join(l, h, i), a) || a == l[i + 1].addr
  {
    var r := Join(l, h, i);
    forall a | IsBlock(l, a) && a != l[i + 1].addr
      ensures IsBlock(r, a)
    {
      var k :| 0 <= k < |l| && l[k].addr == a;
      assert r[if k <= i then k else k - 1].addr == a;
    }
  }

  // ----- what is written, and what is left behind

  /** Only headers of blocks in `l` differ between the two memories. */
  predicate WritesOnly(m: Memory, m': Memory, l: Layout) {
    m.Keys <= m'.Keys && forall a {:trigger m'[a]} :: a in m' && (a !in m || m'[a] != m[a]) ==> IsBlock(l, a)
  }

  lemma {:induction false} BlocksUntouched(m: Memory, m': Memory, l: Layout, h: nat, b: Block)
    requires Contiguous(l, h) && WritesOnly(m, m', l) && b in l
    ensures Untouched(m, m', b, h)
  {
    hide Contiguous;
    var i :| 0 <= i < |l| && l[i] == b;
    forall a | a in m' && (a !in m || m'[a] != m[a])
      ensures Clear(b, h, a, h)
    {
      var j :| 0 <= j < |l| && l[j].addr == a;
      PayloadsDisjoint(l, h, i, j);
    }
  }

  lemma {:induction false} WritesCompose(m: Memory, m1: Memory, m2: Memory, l: Layout)
    requires WritesOnly(m, m1, l) && WritesOnly(m1, m2, l)
    ensures WritesOnly(m, m2, l)
  {
  }

  class Arena {
    const h: nat
    var headers: Memory
    var usedBytes: nat
    var freeBytes: nat
    var peakUsed: nat
    var allocations: nat
    var frees: nat
    var failures: nat
    var doubleFrees: nat
    var invalidPointers: nat

    ghost var layout: Layout
    /** The headers joined away so far, and whether the free-byte counter was ever cut to zero. */
    ghost var joined: nat
    ghost var clamped: bool
    /** How many bytes were asked for behind each live pointer. */
    ghost var asked: map<nat, nat>

    ghost predicate Agrees()
      reads this
    {
      Contiguous(layout, h) && Linked(headers, layout) && StaleAreFree(headers, layout)
    }

    ghost predicate Valid()
      reads this
    {
      && Agrees() && Tiling(layout, h) && h <= ARENA && usedBytes == Used(layout) && usedBytes <= peakUsed
      && (!clamped ==> freeBytes + usedBytes == ARENA - h + joined)
      && Fair(layout, asked, h)
    }

    constructor (headerSize: nat)
      requires HeaderSize(headerSize)
      ensures Valid() && h == headerSize && layout == Initial(headerSize)
      ensures usedBytes == 0 && freeBytes == FreeTotal(layout) && failures == doubleFrees == invalidPointers == 0
      ensures joined == 0 && !clamped && asked == map[] && peakUsed == allocations == frees == 0
      ensures layout == [Block(0, 131072 - headerSize, true)] && freeBytes == 131072 - headerSize
    {
      h := headerSize;
      headers := map[0 := Header(MagicFree, ARENA - headerSize, None, None, true)];
      usedBytes, freeBytes, peakUsed := 0, ARENA - headerSize, 0;
      allocations, frees, failures, doubleFrees, invalidPointers := 0, 0, 0, 0, 0;
      layout, joined, clamped, asked := Initial(headerSize), 0, false, map[];
      new;
      InitialTiling(headerSize);
      TotalsOfOne(Block(0, ARENA - headerSize, true));
      assert IsBlock(layout, 0) by { assert layout[0].addr == 0; }
    }

    /** Used bytes never exceed what was asked for behind the live pointers, rounded up, with a header and eight bytes
        for each of them. */
    lemma {:induction false} UsedIsBounded()
      requires Valid()
      ensures usedBytes <= AskedTotal(layout, asked, h)
      ensures Live(layout) != {} ==> usedBytes < AskedTotal(layout, asked, h)
    {
      UsedBelowAsked(layout, asked, h);
      if b :| b in Live(layout) {
        var i :| 0 <= i < |layout| && layout[i] == b;
        assert !layout[i].free;
      }
    }

    /** As long as it was not cut to zero, the free-byte counter is exact only before the first split. */
    lemma {:induction false} CounterExact()
      requires Valid() && !clamped
      ensures freeBytes == FreeTotal(layout) <==> |layout| == 1 && joined == 0
    {
      assert h > 0;
      hide Contiguous, Linked, StaleAreFree, Used, FreeTotal;
      CounterExactIff(freeBytes, joined, layout, h);
    }

    /** Walks the list from the head to the first free block of at least `need` bytes. */
    method FindFit(need: nat) returns (curr: Option<nat>, ghost i: nat)
      requires Agrees()
      ensures curr.None? ==> forall k {:trigger layout[k]} :: 0 <= k < |layout| ==> !Fits(layout[k], need)
      ensures curr.Some? ==> FirstFit(layout, need, i) && curr.value == layout[i].addr && curr.value in headers
    {
      i := 0;
      curr := Some(0);
      assert |layout| > 0 && layout[0].addr == 0;
      hide Contiguous, StaleAreFree;
      while curr.Some?
        invariant i <= |layout|
        invariant curr == if i < |layout| then Some(layout[i].addr) else None
        invariant forall k {:trigger layout[k]} :: 0 <= k < i ==> !Fits(layout[k], need)
        decreases |layout| - i
      {
        assert LinkedAt(headers, layout, i);
        var header := headers[curr.value];
        if header.isFree && header.size >= need {
          return;
        }
        curr := header.next;
        i := i + 1;
      }
    }

    /** Cuts the free block `i` in two. */
    method Split(curr: nat, need: nat, ghost i: nat)
      requires Agrees() && i < |layout| && layout[i].addr == curr && layout[i].free
      requires Splits(layout[i], h, need) && need >= MIN_PAYLOAD && Aligned(need)
      modifies this`headers, this`layout
      ensures Agrees() && layout == SplitLayout(old(layout), h, i, need)
      ensures WritesOnly(old(headers), headers, layout)
    {
      SplitContiguous(layout, h, i, need);
      SplitLinked(headers, layout, h, i, need);
      SplitWrites(headers, layout, h, i, need);
      hide Contiguous, Linked, StaleAreFree, WritesOnly, SplitLayout;
      ghost var m := headers;
      var new_ := curr + h + need;
      var next := headers[curr].next;
      headers := headers[new_ := Header(MagicFree, headers[curr].size - need - h, Some(curr), next, true)];
      if next.Some? {
        headers := headers[next.value := headers[next.value].(prev := Some(new_))];
      }
      headers := headers[curr := headers[curr].(size := need, next := Some(new_))];
      assert headers == SplitMemory(m, curr, h, need);
      layout := SplitLayout(layout, h, i, need);
    }

    /** Flips block `i` between free and allocated. */
    method Mark(curr: nat, free: bool, ghost i: nat)
      requires Agrees() && i < |layout| && layout[i].addr == curr
      modifies this`headers, this`layout
      ensures Agrees() && layout == old(layout)[i := old(layout)[i].(free := free)]
      ensures WritesOnly(old(headers), headers, layout) && WritesOnly(old(headers), headers, old(layout))
    {
      MarkContiguous(layout, h, i, free);
      MarkLinked(headers, layout, h, i, free);
      MarkWrites(headers, layout, i, free);
      headers := headers[curr := headers[curr].(magic := if free then MagicFree else MagicAlloc, isFree := free)];
      layout := layout[i := layout[i].(free := free)];
    }

    /** The block at `a` absorbs the free block at `b` behind it. */
    method Absorb(a: nat, b: nat, ghost i: nat)
      requires Agrees() && i + 1 < |layout| && layout[i].addr == a && layout[i + 1].addr == b
      requires layout[i].free && layout[i + 1].free
      modifies this`headers, this`layout
      ensures Agrees() && layout == Join(old(layout), h, i)
      ensures WritesOnly(old(headers), headers, old(layout))
    {
      JoinContiguous(layout, h, i);
      JoinLinked(headers, layout, h, i);
      JoinWrites(headers, layout, h, i);
      hide Contiguous, Linked, StaleAreFree, WritesOnly, Join;
      ghost var m := headers;
      var next := headers[b].next;
      headers := headers[a := headers[a].(size := headers[a].size + h + headers[b].size, next := next)];
      if next.Some? {
        headers := headers[next.value := headers[next.value].(prev := Some(a))];
      }
      assert headers == JoinMemory(m, h, a, b);
      layout := Join(layout, h, i);
    }

    /** First fit. A request fails exactly when it is empty, larger than the arena, or no free block is large enough;
        otherwise one block is carved out of the first that is, and no live payload is moved or written to. */
    method Malloc(size: nat) returns (ptr: Option<nat>, ghost i: nat)
      requires Valid()
      modifies this
      ensures Valid()
      ensures ptr.None? <==> size == 0 || size > 131072 - h
                             || forall k {:trigger old(layout)[k]} :: 0 <= k < |old(layout)| && old(layout)[k].free ==>
                                old(layout)[k].size < (size + 7) / 8 * 8
      ensures ptr.None? ==> layout == old(layout) && headers == old(headers) && usedBytes == old(usedBytes)
                            && freeBytes == old(freeBytes) && clamped == old(clamped) && failures == old(failures) + 1
      ensures ptr.Some? ==> FirstFit(old(layout), Align(size), i) && ptr.value == old(layout)[i].addr + h
                            && layout == Allocate(old(layout), h, i, Align(size)) && failures == old(failures)
                            && freeBytes ==
                               FreeCounterAfter(old(freeBytes), Allocated(old(layout)[i], h, Align(size)).size, h)
                            && (clamped <==> old(clamped)
                                             || old(freeBytes) < Allocated(old(layout)[i], h, Align(size)).size + h)
      ensures ptr.Some? ==>
                var b, n := old(layout)[i], (size + 7) / 8 * 8;
                && b.free && n <= b.size
                && (forall k {:trigger old(layout)[k]} ::
                      0 <= k < |old(layout)| && old(layout)[k].free && n <= old(layout)[k].size ==> i <= k)
                && (if b.size >= n + h + 8
                    then layout == old(layout)[..i]
                                   + [Block(b.addr, n, false), Block(b.addr + h + n, b.size - n - h, true)]
                                   + old(layout)[i + 1..]
                    else layout == old(layout)[i := Block(b.addr, b.size, false)])
                && n <= layout[i].size < n + h + 8 && usedBytes == old(usedBytes) + layout[i].size
                && freeBytes == (if old(freeBytes) >= layout[i].size + h then old(freeBytes) - layout[i].size else 0)
                && peakUsed == (if usedBytes > old(peakUsed) then usedBytes else old(peakUsed))
                && allocations == old(allocations) + 1 && asked == old(asked)[ptr.value := size]
      ensures ptr.None? ==> peakUsed == old(peakUsed) && allocations == old(allocations) && asked == old(asked)
      ensures joined == old(joined) && frees == old(frees)
      ensures forall b :: b in Live(old(layout)) ==> b in Live(layout) && Untouched(old(headers), headers, b, h)
    {
      hide Contiguous, Tiling, Linked, StaleAreFree, Untouched, WritesOnly, Live, Used, Fair, Allocate, Allocated, Fits;
      hide FirstFit, Aligned;
      i := 0;
      ptr := None;
      NothingWritten(headers, layout, h);
      if size == 0 || size > ARENA - h {
        failures := failures + 1;
        return;
      }
      var need := Align(size);
      var curr: Option<nat>;
      curr, i := FindFit(need);
      AlignIs(size);
      FitsIs(layout, need);
      if curr.None? {
        failures := failures + 1;
        return;
      }
      ghost var l, m := layout, headers;
      MallocFacts(l, h, i, size, asked);
      Take(curr.value, need, i);
      LiveUntouched(m, headers, l, layout, h);
      asked := asked[curr.value + h := size];
      ptr := Some(curr.value + h);
    }

    /** Cuts block `i` to size if it is worth it, marks it allocated and counts it. */
    method Take(curr: nat, need: nat, ghost i: nat)
      requires Agrees() && i < |layout| && layout[i].addr == curr && Fits(layout[i], need)
      requires need >= MIN_PAYLOAD && Aligned(need)
      modifies this
      ensures Agrees() && layout == Allocate(old(layout), h, i, need)
      ensures WritesOnly(old(headers), headers, layout)
      ensures usedBytes == old(usedBytes) + Allocated(old(layout)[i], h, need).size
      ensures freeBytes == FreeCounterAfter(old(freeBytes), Allocated(old(layout)[i], h, need).size, h)
      ensures joined == old(joined) && asked == old(asked) && frees == old(frees) && allocations == old(allocations) + 1
      ensures clamped <==> old(clamped) || old(freeBytes) < Allocated(old(layout)[i], h, need).size + h
      ensures peakUsed == (if usedBytes > old(peakUsed) then usedBytes else old(peakUsed)) && failures == old(failures)
    {
      hide Contiguous, StaleAreFree, Aligned;
      ghost var m := headers;
      assert LinkedAt(headers, layout, i);
      if headers[curr].size - need >= h + MIN_PAYLOAD {
        Split(curr, need, i);
      } else {
        assert WritesOnly(m, headers, layout);
      }
      ghost var m1, cut := headers, layout;
      Mark(curr, false, i);
      TakeWrites(m, m1, headers, cut, i);
      assert LinkedAt(headers, layout, i);
      Charge(headers[curr].size);
    }

    /** The counters after an allocation of `size` bytes. */
    method Charge(size: nat)
      modifies this`usedBytes, this`freeBytes, this`clamped, this`peakUsed, this`allocations
      ensures usedBytes == old(usedBytes) + size && freeBytes == FreeCounterAfter(old(freeBytes), size, h)
      ensures clamped <==> old(clamped) || old(freeBytes) < size + h
      ensures peakUsed == (if usedBytes > old(peakUsed) then usedBytes else old(peakUsed))
      ensures allocations == old(allocations) + 1
    {
      usedBytes := usedBytes + size;
      clamped := clamped || freeBytes < size + h;
      freeBytes := if freeBytes >= size + h then freeBytes - size else 0;
      if usedBytes > peakUsed {
        peakUsed := usedBytes;
      }
      allocations := allocations + 1;
    }

    /** The pointer passes the range and alignment checks. */
    predicate Plausible(ptr: int) {
      h <= ptr < ARENA && ptr % 8 == 0
    }

    /** Frees a pointer the allocator once returned, or one it can recognise as bad: only a live block changes anything
        but a counter, and no other live payload is moved or written to. */
    method Free(ptr: int) returns (ghost i: nat)
      requires Valid()
      requires Plausible(ptr) ==> ptr - h in headers
      modifies this
      ensures Valid()
      ensures Plausible(ptr) && ptr in Pointers(old(layout), h) ==> Released(ptr, old(layout), old(headers), i)
      ensures !(Plausible(ptr) && ptr in Pointers(old(layout), h)) ==>
                layout == old(layout) && headers == old(headers) && usedBytes == old(usedBytes)
                && freeBytes == old(freeBytes) && joined == old(joined)
      ensures Plausible(ptr) && ptr in Pointers(old(layout), h) ==>
              Credited(old(layout), i, old(freeBytes), old(joined))
      ensures clamped == old(clamped)
      ensures Plausible(ptr) && ptr in Pointers(old(layout), h) ==>
                usedBytes == old(usedBytes) - old(layout)[i].size && frees == old(frees) + 1
                && asked == old(asked) - {ptr}
      ensures invalidPointers == old(invalidPointers) + if h <= ptr < 131072 && ptr % 8 == 0 then 0 else 1
      ensures doubleFrees == old(doubleFrees) + if Plausible(ptr) && ptr !in Pointers(old(layout), h) then 1 else 0
      ensures ptr in Pointers(old(layout), h) <==>
                exists k :: 0 <= k < |old(layout)| && !old(layout)[k].free && old(layout)[k].addr + h == ptr
    {
      hide Contiguous, Tiling, WritesOnly, Pointers, Release, Live, Untouched, Used, Linked, StaleAreFree;
      PointersAre(layout, h, ptr);
      i := 0;
      if ptr < h || ptr >= ARENA {
        invalidPointers := invalidPointers + 1;
        return;
      }
      if ptr % 8 != 0 {
        invalidPointers := invalidPointers + 1;
        return;
      }
      var a := ptr - h;
      if headers[a].magic.MagicFree? || headers[a].isFree {
        NotLive(headers, layout, h, a);
        doubleFrees := doubleFrees + 1;
        return;
      }
      i := BlockAt(headers, layout, a);
      LiveHavePointers(layout, h);
      assert layout[i].addr + h == ptr && ptr in Pointers(layout, h);
      FreeBlock(a, i);
    }

    /** Block `i` behind `ptr` is given back, and the other live blocks are where they were, their payloads intact. */
    ghost predicate Released(ptr: int, l: Layout, m: Memory, i: nat)
      reads this
    {
      && IsLiveAt(l, h, ptr, i) && layout == Release(l, h, i) && Live(layout) == Live(l) - {l[i]}
      && forall b :: b in Live(layout) ==> Untouched(m, headers, b, h)
    }

    /** The free-byte counter has grown by block `i` of `l` and by the headers joined away. */
    ghost predicate Credited(l: Layout, i: nat, counter: nat, before: nat)
      reads this
    {
      i < |l| && joined == before + JoinedBytes(l, h, i) && freeBytes == counter + l[i].size + JoinedBytes(l, h, i)
    }

    method FreeBlock(a: nat, ghost i: nat)
      requires Valid() && i < |layout| && layout[i].addr == a && !layout[i].free
      modifies this
      ensures Valid() && Released(a + h, old(layout), old(headers), i)
      ensures Credited(old(layout), i, old(freeBytes), old(joined))
      ensures usedBytes == old(usedBytes) - old(layout)[i].size && frees == old(frees) + 1
      ensures asked == old(asked) - {a + h}
      ensures unchanged(`peakUsed, `invalidPointers, `doubleFrees, `failures, `clamped)
    {
      hide Contiguous, WritesOnly, Release, Untouched, Linked, StaleAreFree, Tiling, Used, Fair, Live, JoinedBytes;
      ghost var l, m := layout, headers;
      ReleaseTiling(l, h, i);
      ReleaseTotals(l, h, i);
      ReleaseLive(l, h, i);
      ReleaseFair(l, h, i, asked);
      TotalsAtLeast(l, i);
      GiveBack(a, i);
      asked := asked - {a + h};
      OldBlocksUntouched(m, headers, l, Live(layout), h);
    }

    /** Marks block `i` free and joins it with free neighbours. */
    method GiveBack(a: nat, ghost i: nat)
      requires Agrees() && i < |layout| && layout[i].addr == a && !layout[i].free
      modifies this
      ensures Agrees() && layout == Release(old(layout), h, i)
      ensures WritesOnly(old(headers), headers, old(layout))
      ensures var size := old(layout)[i].size; usedBytes == if old(usedBytes) >= size then old(usedBytes) - size else 0
      ensures Credited(old(layout), i, old(freeBytes), old(joined))
      ensures frees == old(frees) + 1
      ensures unchanged(`peakUsed, `invalidPointers, `doubleFrees, `failures, `clamped, `asked)
    {
      hide Contiguous, StaleAreFree, WritesOnly, Linked, JoinForward, JoinBackward, Tiling, Used, Fair, FreeTotal;
      ghost var l, m := layout, headers;
      LinkedFacts(headers, layout, i);
      var size := headers[a].size;
      Mark(a, true, i);
      ghost var l1, m1 := layout, headers;
      usedBytes := if usedBytes >= size then usedBytes - size else 0;
      freeBytes := freeBytes + size;
      frees := frees + 1;
      JoinNext(a, i);
      ghost var l2, m2 := layout, headers;
      JoinForwardFacts(l1, h, i);
      JoinPrevious(a, i);
      GiveBackWrites(m, m1, m2, headers, l, l1, h, i);
    }

    /** Joins the free block `i` with the block behind it if that is free too. */
    method JoinNext(a: nat, ghost i: nat)
      requires Agrees() && i < |layout| && layout[i].addr == a && layout[i].free
      modifies this`headers, this`layout, this`freeBytes, this`joined
      ensures Agrees() && layout == JoinForward(old(layout), h, i) && WritesOnly(old(headers), headers, old(layout))
      ensures var more := if i + 1 < |old(layout)| && old(layout)[i + 1].free then h else 0;
              freeBytes == old(freeBytes) + more && joined == old(joined) + more
    {
      hide Contiguous, StaleAreFree;
      NextInMemory(headers, layout, i);
      var next := headers[a].next;
      if next.Some? && headers[next.value].isFree {
        Absorb(a, next.value, i);
        freeBytes := freeBytes + h;
        joined := joined + h;
      }
    }

    /** Joins the free block `i` with the block before it if that is free too. */
    method JoinPrevious(a: nat, ghost i: nat)
      requires Agrees() && i < |layout| && layout[i].addr == a && layout[i].free
      modifies this`headers, this`layout, this`freeBytes, this`joined
      ensures Agrees() && layout == JoinBackward(old(layout), h, i) && WritesOnly(old(headers), headers, old(layout))
      ensures var more := if i > 0 && old(layout)[i - 1].free then h else 0;
              freeBytes == old(freeBytes) + more && joined == old(joined) + more
    {
      hide Contiguous, StaleAreFree;
      assert LinkedAt(headers, layout, i);
      var prev := headers[a].prev;
      if i > 0 {
        assert LinkedAt(headers, layout, i - 1);
      }
      if prev.Some? && headers[prev.value].isFree {
        Absorb(prev.value, a, i - 1);
        freeBytes := freeBytes + h;
        joined := joined + h;
      }
    }
  }

  lemma {:induction false} GiveBackWrites(
      m: Memory, m1: Memory, m2: Memory, m3: Memory, l: Layout, l1: Layout, h: nat, i: nat)
    requires i < |l| && l1 == l[i := l[i].(free := true)]
    requires WritesOnly(m, m1, l) && WritesOnly(m1, m2, l1) && WritesOnly(m2, m3, JoinForward(l1, h, i))
    ensures WritesOnly(m, m3, l)
  {
    hide WritesOnly, JoinForward;
    JoinedBlocksOnly(m2, m3, l1, JoinForward(l1, h, i), h, i);
    SameAddressesWrite(m1, m2, l1, l);
    SameAddressesWrite(m2, m3, l1, l);
    WritesCompose(m, m1, m2, l);
    WritesCompose(m, m2, m3, l);
  }

  lemma {:induction false} LinkedFacts(m: Memory, l: Layout, i: nat)
    requires Linked(m, l) && i < |l|
    ensures l[i].addr in m && m[l[i].addr].size == l[i].size
  {
    assert LinkedAt(m, l, i);
  }

  lemma {:induction false} JoinForwardFacts(l: Layout, h: nat, i: nat)
    requires i < |l|
    ensures var r := JoinForward(l, h, i);
            i < |r| && r[i].addr == l[i].addr && (l[i].free ==> r[i].free) && (i > 0 ==> r[i - 1] == l[i - 1])
  {
  }

  /** What allocating does to the blocks, the totals and what was asked for. */
  lemma {:induction false} MallocFacts(l: Layout, h: nat, i: nat, size: nat, asked: map<nat, nat>)
    requires Tiling(l, h) && size > 0 && FirstFit(l, Align(size), i) && Fair(l, asked, h)
    ensures i < |l|
    ensures var r, b, n := Allocate(l, h, i, Align(size)), l[i], (size + 7) / 8 * 8;
            && Fits(b, Align(size)) && n >= MIN_PAYLOAD && Aligned(n) && n == Align(size)
            && Tiling(r, h) && Used(r) == Used(l) + Allocated(b, h, n).size
            && Live(r) == Live(l) + {Allocated(b, h, n)} && Fair(r, asked[b.addr + h := size], h)
            && i < |r| && r[i] == Allocated(b, h, n) && b.free && n <= b.size && n <= r[i].size < n + h + 8
            && (forall k {:trigger l[k]} :: 0 <= k < |l| && l[k].free && n <= l[k].size ==> i <= k)
            && (if b.size >= n + h + 8
                then r == l[..i] + [Block(b.addr, n, false), Block(b.addr + h + n, b.size - n - h, true)] + l[i + 1..]
                else r == l[i := Block(b.addr, b.size, false)])
  {
    hide Tiling, Allocate, Used, Live, Fair;
    var n := Align(size);
    NeedIsPayload(size);
    AlignIs(size);
    AllocateTiling(l, h, i, n);
    AllocateTotals(l, h, i, n);
    AllocateLive(l, h, i, n);
    AllocatedBlocks(l, h, i, n);
    TilingIsContiguous(l, h);
    AllocateFair(l, h, i, size, asked);
    FirstIsLeast(l, n, i);
  }

  lemma {:induction false} TilingIsContiguous(l: Layout, h: nat)
    requires Tiling(l, h)
    ensures Contiguous(l, h)
  {
  }

  lemma {:induction false} FirstIsLeast(l: Layout, n: nat, i: nat)
    requires FirstFit(l, n, i)
    ensures forall k {:trigger l[k]} :: 0 <= k < |l| && l[k].free && n <= l[k].size ==> i <= k
  {
    forall k | 0 <= k < |l| && l[k].free && n <= l[k].size
      ensures i <= k
    {
      assert Fits(l[k], n);
    }
  }

  lemma {:induction false} NothingWritten(m: Memory, l: Layout, h: nat)
    ensures forall b :: b in Live(l) ==> Untouched(m, m, b, h)
  {
  }

  lemma {:induction false} LiveUntouched(m: Memory, m': Memory, l: Layout, r: Layout, h: nat)
    requires Contiguous(r, h) && WritesOnly(m, m', r) && Live(l) <= Live(r)
    ensures forall b :: b in Live(l) ==> b in Live(r) && Untouched(m, m', b, h)
  {
    hide Contiguous, WritesOnly, Untouched;
    forall b | b in Live(l)
      ensures Untouched(m, m', b, h)
    {
      assert b in Live(r);
      BlocksUntouched(m, m', r, h, b);
    }
  }

  lemma {:induction false} OldBlocksUntouched(m: Memory, m': Memory, l: Layout, live: set<Block>, h: nat)
    requires Contiguous(l, h) && WritesOnly(m, m', l) && live <= Live(l)
    ensures forall b :: b in live ==> Untouched(m, m', b, h)
  {
    hide Contiguous, WritesOnly, Untouched;
    forall b | b in live
      ensures Untouched(m, m', b, h)
    {
      assert b in Live(l);
      BlocksUntouched(m, m', l, h, b);
    }
  }

  lemma {:induction false} NeedIsPayload(size: nat)
    requires size > 0
    ensures Align(size) >= MIN_PAYLOAD
  {
  }

  lemma {:induction false} TakeWrites(m: Memory, m1: Memory, m2: Memory, cut: Layout, i: nat)
    requires i < |cut| && WritesOnly(m, m1, cut)
    requires WritesOnly(m1, m2, cut[i := cut[i].(free := false)])
    ensures WritesOnly(m, m2, cut[i := cut[i].(free := false)])
  {
    SameBlocks(cut, cut[i := cut[i].(free := false)]);
  }

  lemma {:induction false} SameAddressesWrite(m: Memory, m': Memory, l1: Layout, l: Layout)
    requires WritesOnly(m, m', l1)
    requires |l| == |l1| && forall k :: 0 <= k < |l| ==> l[k].addr == l1[k].addr
    ensures WritesOnly(m, m', l)
  {
    SameBlocks(l, l1);
  }

  lemma {:induction false} JoinedBlocksOnly(m: Memory, m': Memory, l1: Layout, l2: Layout, h: nat, i: nat)
    requires i < |l1| && l2 == JoinForward(l1, h, i) && WritesOnly(m, m', l2)
    ensures WritesOnly(m, m', l1)
  {
    forall a | IsBlock(l2, a)
      ensures IsBlock(l1, a)
    {
      var k :| 0 <= k < |l2| && l2[k].addr == a;
      assert l1[if |l1| == |l2| || k <= i then k else k + 1].addr == a;
    }
  }

  /** A header that says it is free belongs to no live block. */
  lemma {:induction false} NotLive(m: Memory, l: Layout, h: nat, a: nat)
    requires Linked(m, l) && a in m && (m[a].isFree || m[a].magic.MagicFree?)
    ensures a + h !in Pointers(l, h)
  {
    forall i | 0 <= i < |l| && l[i].addr == a
      ensures l[i].free
    {
      assert LinkedAt(m, l, i);
    }
  }

  /** A header that does not say so belongs to a live block. */
  lemma {:induction false} BlockAt(m: Memory, l: Layout, a: nat) returns (i: nat)
    requires Linked(m, l) && StaleAreFree(m, l) && a in m && !m[a].isFree
    ensures i < |l| && l[i].addr == a && !l[i].free
  {
    i :| 0 <= i < |l| && l[i].addr == a;
    assert LinkedAt(m, l, i);
  }
}
