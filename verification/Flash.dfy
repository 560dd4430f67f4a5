/** NOR flash in sectors: erasing sets every bit, programming can only clear bits. */
module Flash {
  import opened Bytes
  import opened Bits8

  const SECTORS: nat := 64
  const SECTOR_SIZE: nat := 4096
  const ERASED_BYTE: Byte := 0xFF

  function Erased(): (s: seq<Byte>)
    ensures |s| == SECTOR_SIZE
  {
    Repeat(ERASED_BYTE, SECTOR_SIZE)
  }

  /** The host simulator overwrites. */
  function Overwrite(old_: seq<Byte>, data: seq<Byte>): (s: seq<Byte>)
    requires |data| <= |old_|
    ensures |s| == |old_|
  {
    data + old_[|data|..]
  }

  function And(a: Byte, b: Byte): Byte {
    FromBits(ToBits(a) & ToBits(b))
  }

  /** The device keeps a bit only if it was set and is written as set. */
  function Program(old_: seq<Byte>, data: seq<Byte>): (s: seq<Byte>)
    requires |data| <= |old_|
    ensures |s| == |old_|
  {
    seq(|data|, i requires 0 <= i < |data| => And(old_[i], data[i])) + old_[|data|..]
  }

  lemma {:induction false} AndErased(b: Byte)
    ensures And(ERASED_BYTE, b) == b
  {
    AllOnes();
    AndAllOnes(ToBits(b));
    FromToBits(b);
  }

  lemma {:induction false} AllOnes()
    ensures ToBits(0xFF) == 0xFF
  {
  }

  lemma {:induction false} AndAllOnes(x: bv8)
    ensures 0xFF & x == x
  {
  }

  /** On an erased sector the two ways of writing leave the same bytes. */
  lemma {:induction false} ProgramErased(data: seq<Byte>)
    requires |data| <= SECTOR_SIZE
    ensures Program(Erased(), data) == Overwrite(Erased(), data)
  {
    hide And;
    forall i | 0 <= i < |data|
      ensures And(Erased()[i], data[i]) == data[i]
    {
      AndErased(data[i]);
    }
  }

  class Flash {
    const sectors: array<seq<Byte>>
    /** Whether this is the real part or the simulator. */
    const nor: bool

    ghost predicate Valid()
      reads this, sectors
    {
      sectors.Length == SECTORS && forall i {:trigger sectors[i]} :: 0 <= i < SECTORS ==> |sectors[i]| == SECTOR_SIZE
    }

    constructor (isNor: bool)
      ensures Valid() && nor == isNor && fresh(sectors)
      ensures forall i {:trigger sectors[i]} :: 0 <= i < SECTORS ==> sectors[i] == Erased()
    {
      nor := isNor;
      sectors := new seq<Byte>[SECTORS](i => Erased());
    }

    method Erase(index: nat)
      requires Valid() && index < SECTORS
      modifies sectors
      ensures Valid() && sectors[..] == old(sectors[..])[index := Erased()]
    {
      sectors[index] := Erased();
    }

    method Write(index: nat, data: seq<Byte>)
      requires Valid() && index < SECTORS && |data| <= SECTOR_SIZE
      modifies sectors
      ensures Valid()
      ensures sectors[..] == old(sectors[..])[index := if nor then Program(old(sectors[index]), data)
                                                       else Overwrite(old(sectors[index]), data)]
    {
      sectors[index] := if nor then Program(sectors[index], data) else Overwrite(sectors[index], data);
    }

    /** Every write of the file system follows an erase of the same sector, so the part and the simulator agree. */
    method EraseAndWrite(index: nat, data: seq<Byte>)
      requires Valid() && index < SECTORS && |data| <= SECTOR_SIZE
      modifies sectors
      ensures Valid() && sectors[..] == old(sectors[..])[index := Overwrite(Erased(), data)]
    {
      Erase(index);
      ProgramErased(data);
      Write(index, data);
    }
  }
}
