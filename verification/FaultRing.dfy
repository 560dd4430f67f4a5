/** The fault log: the last 32 fault records, newest first. */
module FaultRing {
  import opened Bytes

  const RING: nat := 32
  const SOURCES: nat := 10
  const SYSTEM: nat := 9

  datatype Record = Record(id: nat, tick: nat, code: int, source: nat, severity: int, errorCode: nat, context: nat)

  const BLANK := Record(0, 0, 0, 0, 0, 0, 0)

  /** The last 32 records are in their slots. */
  predicate Kept(ring: seq<Record>, history: seq<Record>) {
    && |ring| == RING
    && forall k {:trigger history[k]} :: 0 <= k < |history| && |history| - RING <= k ==> ring[k % RING] == history[k]
  }

  predicate Numbered(history: seq<Record>) {
    forall k {:trigger history[k]} :: 0 <= k < |history| ==> history[k].id == (k + 1) % WORD32
  }

  class FaultRing {
    const ring: array<Record>
    var writeIndex: nat
    var total: nat

    /** Every record ever made, oldest first. */
    ghost var history: seq<Record>

    ghost predicate Valid()
      reads this, ring
    {
      && ring.Length == RING
      && writeIndex == |history| % RING
      && total == |history| % WORD32
      && Kept(ring[..], history) && Numbered(history)
    }

    constructor ()
      ensures Valid() && history == [] && fresh(ring)
    {
      ring := new Record[RING](i => BLANK);
      writeIndex, total := 0, 0;
      history := [];
    }

    method RecordFull(code: int, source: nat, severity: int, errorCode: nat, context: nat, tick: nat)
      requires Valid()
      modifies this, ring
      ensures Valid()
      ensures history == old(history) + [Record((|old(history)| + 1) % 0x1_0000_0000, tick, code,
                                                if source < 10 then source else 9,
                                                severity, errorCode, context)]
    {
      ghost var n := |history|;
      total := (total + 1) % WORD32;
      var record := Record(
        total, tick, code, if source < SOURCES then source else SYSTEM, severity, errorCode, context);
      ghost var before := ring[..];
      hide Kept, Numbered;
      KeptNext(before, history, record);
      ring[writeIndex % RING] := record;
      assert ring[..] == before[n % RING := record];
      writeIndex := (writeIndex + 1) % RING;
      history := history + [record];
      Successor(n);
    }

    /** The newest record; none before the first fault, and again whenever the 32-bit total is back at zero. */
    method GetLatest() returns (record: Option<Record>)
      requires Valid()
      ensures record == if |history| % 0x1_0000_0000 == 0 then None else Some(history[|history| - 1])
    {
      if total == 0 {
        return None;
      }
      var last := if writeIndex == 0 then RING - 1 else writeIndex - 1;
      Previous(|history|, 0);
      return Some(ring[last]);
    }

    /** The record `offset` places before the newest, whose id is the total minus `offset`: exactly for the offsets
        below both the total and 32. */
    method GetAt(offset: nat) returns (record: Option<Record>)
      requires Valid()
      ensures record.Some? <==> offset < |history| % 0x1_0000_0000 && offset < 32
      ensures record.Some? ==> offset < |history| && record.value == history[|history| - 1 - offset]
                               && record.value.id == |history| % 0x1_0000_0000 - offset
    {
      if total == 0 {
        return None;
      }
      var entries := if total < RING then total else RING;
      if offset >= entries {
        return None;
      }
      var last := if writeIndex == 0 then RING - 1 else writeIndex - 1;
      var target := (last + RING - offset) % RING;
      TotalBound(|history|);
      Previous(|history|, offset);
      IdFromTotal(|history|, offset);
      return Some(ring[target]);
    }
  }

  lemma {:induction false} KeptNext(ring: seq<Record>, history: seq<Record>, record: Record)
    requires Kept(ring, history) && Numbered(history)
    ensures Kept(ring[|history| % RING := record], history + [record])
    ensures record.id == (|history| + 1) % WORD32 ==> Numbered(history + [record])
  {
    var n, history' := |history|, history + [record];
    forall k | 0 <= k < |history'| && |history'| - RING <= k
      ensures ring[n % RING := record][k % RING] == history'[k]
    {
      if k < n {
        RecentSlots(n, k);
        assert ring[k % RING] == history[k];
      }
    }
  }

  lemma {:induction false} RecentSlots(n: nat, k: nat)
    requires k < n && n < k + RING
    ensures k % RING != n % RING
  {
  }

  lemma {:induction false} Successor(n: nat)
    ensures (n % RING + 1) % RING == (n + 1) % RING && (n % WORD32 + 1) % WORD32 == (n + 1) % WORD32
  {
    NextSlot(n);
    NextTotal(n);
  }

  lemma {:induction false} NextSlot(n: nat)
    ensures (n % RING + 1) % RING == (n + 1) % RING
  {
  }

  lemma {:induction false} NextTotal(n: nat)
    ensures (n % WORD32 + 1) % WORD32 == (n + 1) % WORD32
  {
  }

  lemma {:induction false} TotalBound(n: nat)
    ensures n % WORD32 <= n
  {
  }

  lemma {:induction false} Previous(n: nat, offset: nat)
    requires offset < n && offset < RING
    ensures var last := if n % RING == 0 then RING - 1 else n % RING - 1;
            (last + RING - offset) % RING == (n - 1 - offset) % RING && (offset == 0 ==> last == (n - 1) % RING)
  {
    Before(n);
    Back(n - 1, offset);
  }

  lemma {:induction false} Before(n: nat)
    requires n > 0
    ensures (n - 1) % RING == if n % RING == 0 then RING - 1 else n % RING - 1
  {
  }

  lemma {:induction false} Back(m: nat, offset: nat)
    requires offset <= m && offset < RING
    ensures (m % RING + RING - offset) % RING == (m - offset) % RING
  {
    var q, r := m / RING, m % RING;
    assert m == RING * q + r;
    if offset <= r {
      assert (m - offset) / RING == q;
    } else {
      assert (m - offset) / RING == q - 1;
    }
  }

  lemma {:induction false} IdFromTotal(n: nat, offset: nat)
    requires offset < n % WORD32
    ensures (n - offset) % WORD32 == n % WORD32 - offset
  {
  }
}
