/** The inode table and its image in the first sector. */
module VfsTable {
  import opened Bytes
  import opened Flash
  import Crc32

  const MAX_FILES: nat := 16
  const NAME_LEN: nat := 32
  const BLOCK_MAGIC: nat := 0x4F534653
  const INODE_SIZE: nat := 48

  /** A name is kept without its terminating zero. */
  datatype Inode = Inode(name: seq<Byte>, start: nat, size: nat, flags: nat, inUse: bool)

  type Inodes = seq<Inode>

  predicate CString(s: seq<Byte>) {
    0 !in s
  }

  // ----- names

  function CharAt(s: seq<Byte>, i: nat): Byte {
    if i < |s| then s[i] else 0
  }

  /** `strncmp(a, b, n) == 0` from position `i` on. */
  predicate StrnEqual(a: seq<Byte>, b: seq<Byte>, i: nat, n: nat)
    decreases n
  {
    n == 0 || (CharAt(a, i) == CharAt(b, i) && (CharAt(a, i) == 0 || StrnEqual(a, b, i + 1, n - 1)))
  }

  lemma {:induction false} StrnEqualFrom(a: seq<Byte>, b: seq<Byte>, i: nat, n: nat)
    requires CString(a) && CString(b) && i <= |a| && i <= |b| && |a| < i + n
    ensures StrnEqual(a, b, i, n) <==> a[i..] == b[i..]
    decreases n
  {
    if i == |a| || i == |b| {
      assert i < |a| ==> a[i] in a;
      assert i < |b| ==> b[i] in b;
    } else {
      assert a[i] in a && b[i] in b;
      assert a[i..] == [a[i]] + a[i + 1..] && b[i..] == [b[i]] + b[i + 1..];
      StrnEqualFrom(a, b, i + 1, n - 1);
    }
  }

  /** A stored name is shorter than the comparison, so comparing 32 characters compares the whole names. */
  lemma {:induction false} StoredNameMatches(stored: seq<Byte>, name: seq<Byte>)
    requires CString(stored) && CString(name) && |stored| < NAME_LEN
    ensures StrnEqual(stored, name, 0, NAME_LEN) <==> stored == name
  {
    StrnEqualFrom(stored, name, 0, NAME_LEN);
    assert stored[0..] == stored && name[0..] == name;
  }

  /** What `strncpy` keeps of a name. */
  function Stored(name: seq<Byte>): seq<Byte> {
    if |name| < NAME_LEN then name else name[..NAME_LEN - 1]
  }

  function StripSlash(path: seq<Byte>): seq<Byte> {
    if |path| > 0 && path[0] == 0x2F then path[1..] else path
  }

  // ----- looking up

  predicate IsFile(t: Inodes, i: nat, name: seq<Byte>) {
    i < |t| && t[i].inUse && t[i].name == name
  }

  /** The first file of that name from index `i` on. */
  function FindFrom(t: Inodes, name: seq<Byte>, i: nat): (r: Option<nat>)
    requires i <= |t|
    ensures r.Some? ==> i <= r.value && IsFile(t, r.value, name)
    ensures forall j: nat {:trigger IsFile(t, j, name)} :: i <= j < |t| && (r.Some? ==> j < r.value) ==>
            !IsFile(t, j, name)
    decreases |t| - i
  {
    if i == |t| then None else if IsFile(t, i, name) then Some(i) else FindFrom(t, name, i + 1)
  }

  function Find(t: Inodes, name: seq<Byte>): Option<nat> {
    FindFrom(t, name, 0)
  }

  /** No two files share a name. */
  predicate Unique(t: Inodes) {
    forall i, j :: 0 <= i < j < |t| && t[i].inUse && t[j].inUse ==> t[i].name != t[j].name
  }

  function Used(t: Inodes): nat
    decreases |t|
  {
    if t == [] then 0 else Used(t[..|t| - 1]) + if t[|t| - 1].inUse then 1 else 0
  }

  lemma {:induction false} UsedUpdate(t: Inodes, i: nat, n: Inode)
    requires i < |t|
    ensures Used(t[i := n]) == Used(t) - (if t[i].inUse then 1 else 0) + (if n.inUse then 1 else 0)
    decreases |t|
  {
    if i < |t| - 1 {
      assert t[i := n][..|t| - 1] == t[..|t| - 1][i := n];
      UsedUpdate(t[..|t| - 1], i, n);
    } else {
      assert t[i := n][..|t| - 1] == t[..|t| - 1];
    }
  }

  lemma {:induction false} UsedBound(t: Inodes)
    ensures Used(t) <= |t|
    decreases |t|
  {
    if t != [] {
      UsedBound(t[..|t| - 1]);
    }
  }

  /** The sector that file `i` may occupy: the two default files keep the sectors they were seeded in. */
  predicate StartOk(i: nat, start: nat) {
    start == 3 + i || (i == 0 && start == 1) || (i == 1 && start == 2)
  }

  /** An inode that has ever been used keeps its sector, also after its file is deleted. */
  predicate GoodInode(t: Inodes, i: nat)
    requires i < |t|
  {
    var n := t[i];
    && |n.name| < NAME_LEN && CString(n.name) && n.start < WORD32 && n.size < WORD32 && n.flags < WORD32
    && (n.inUse ==> n.start != 0) && (n.start != 0 ==> StartOk(i, n.start) && n.size <= SECTOR_SIZE)
  }

  predicate GoodTable(t: Inodes) {
    |t| == MAX_FILES && forall i {:trigger t[i]} :: 0 <= i < MAX_FILES ==> GoodInode(t, i)
  }

  /** Inodes that have ever been used have sectors of their own, none of them the first. */
  lemma {:induction false} SectorsDistinct(t: Inodes, i: nat, j: nat)
    requires GoodTable(t) && i < MAX_FILES && j < MAX_FILES
    requires t[i].start != 0 && t[j].start != 0
    ensures 0 < t[i].start < SECTORS
    ensures i != j ==> t[i].start != t[j].start
  {
    assert GoodInode(t, i) && GoodInode(t, j);
  }

  // ----- contents

  function Content(t: Inodes, sectors: seq<seq<Byte>>, i: nat): seq<Byte>
    requires i < |t| && t[i].start < |sectors| && t[i].size <= |sectors[t[i].start]|
  {
    sectors[t[i].start][..t[i].size]
  }

  /** The rest of a file's sector is erased. */
  predicate Backed(t: Inodes, sectors: seq<seq<Byte>>, i: nat)
    requires i < |t|
  {
    t[i].start != 0 ==>
      && t[i].start < |sectors| && t[i].size <= |sectors[t[i].start]| == SECTOR_SIZE
      && sectors[t[i].start] == Overwrite(Erased(), sectors[t[i].start][..t[i].size])
  }

  // ----- the image in the first sector

  function NameBytes(name: seq<Byte>): (s: seq<Byte>)
    ensures |s| == NAME_LEN
  {
    Stored(name) + Repeat(0, NAME_LEN - |Stored(name)|)
  }

  function InodeBytes(n: Inode): (s: seq<Byte>)
    ensures |s| == INODE_SIZE
  {
    NameBytes(n.name) + Le32(n.start) + Le32(n.size) + Le32(n.flags) + Le32(if n.inUse then 1 else 0)
  }

  function Flatten(t: Inodes): (s: seq<Byte>)
    ensures |s| == INODE_SIZE * |t|
    decreases |t|
  {
    if t == [] then [] else Flatten(t[..|t| - 1]) + InodeBytes(t[|t| - 1])
  }

  /** Everything before the checksum. */
  function TableBytes(count: nat, t: Inodes): (s: seq<Byte>)
    ensures |s| == 8 + INODE_SIZE * |t|
  {
    Le32(BLOCK_MAGIC) + Le32(count) + Flatten(t)
  }

  function Superblock(count: nat, t: Inodes): (s: seq<Byte>)
    ensures |s| == 12 + INODE_SIZE * |t|
  {
    TableBytes(count, t) + Crc32.WordBytes(Crc32.Crc(TableBytes(count, t)))
  }

  /** The first sector after a synchronisation. */
  function Image(count: nat, t: Inodes): (s: seq<Byte>)
    requires |t| == MAX_FILES
    ensures |s| == SECTOR_SIZE
  {
    Overwrite(Erased(), Superblock(count, t))
  }

  // ----- reading the image back

  function WordAt(s: seq<Byte>, i: nat): nat
    requires i + 4 <= |s|
  {
    FromLe32(s[i], s[i + 1], s[i + 2], s[i + 3])
  }

  function ParseInode(s: seq<Byte>): Inode
    requires |s| == INODE_SIZE
  {
    Inode(UpToZero(s[..NAME_LEN]), WordAt(s, 32), WordAt(s, 36), WordAt(s, 40), WordAt(s, 44) != 0)
  }

  function InodeAt(sector: seq<Byte>, i: nat): Inode
    requires |sector| == SECTOR_SIZE && i < MAX_FILES
  {
    ParseInode(sector[8 + INODE_SIZE * i..8 + INODE_SIZE * i + INODE_SIZE])
  }

  lemma {:induction false} UpToZeroOf(name: seq<Byte>, n: nat)
    requires CString(name) && n > 0
    ensures UpToZero(name + Repeat(0, n)) == name
    decreases |name|
  {
    if name != [] {
      assert name[0] in name;
      assert (name + Repeat(0, n))[1..] == name[1..] + Repeat(0, n);
      UpToZeroOf(name[1..], n);
    }
  }

  lemma {:induction false} WordAtOf(s: seq<Byte>, i: nat, n: nat)
    requires i + 4 <= |s| && s[i..i + 4] == Le32(n) && n < WORD32
    ensures WordAt(s, i) == n
  {
    Le32RoundTrip(n);
    assert s[i] == s[i..i + 4][0] && s[i + 1] == s[i..i + 4][1] && s[i + 2] == s[i..i + 4][2]
      && s[i + 3] == s[i..i + 4][3];
  }

  lemma {:induction false} ParseInodeBytes(n: Inode)
    requires |n.name| < NAME_LEN && CString(n.name) && n.start < WORD32 && n.size < WORD32 && n.flags < WORD32
    ensures ParseInode(InodeBytes(n)) == n
  {
    hide Le32, FromLe32;
    var s := InodeBytes(n);
    UpToZeroOf(n.name, NAME_LEN - |n.name|);
    assert s[..NAME_LEN] == NameBytes(n.name);
    assert s[32..36] == Le32(n.start) && s[36..40] == Le32(n.size) && s[40..44] == Le32(n.flags);
    assert s[44..48] == Le32(if n.inUse then 1 else 0);
    WordAtOf(s, 32, n.start);
    WordAtOf(s, 36, n.size);
    WordAtOf(s, 40, n.flags);
    WordAtOf(s, 44, if n.inUse then 1 else 0);
  }

  lemma {:induction false} FlattenSlice(t: Inodes, i: nat)
    requires i < |t|
    ensures Flatten(t)[INODE_SIZE * i..INODE_SIZE * i + INODE_SIZE] == InodeBytes(t[i])
    decreases |t|
  {
    hide InodeBytes;
    if i < |t| - 1 {
      var front := t[..|t| - 1];
      FlattenSlice(front, i);
      assert Flatten(t)[INODE_SIZE * i..INODE_SIZE * i + INODE_SIZE] ==
        Flatten(front)[INODE_SIZE * i..INODE_SIZE * i + INODE_SIZE];
    }
  }

  /** Where an inode lies in the image. */
  lemma {:induction false} ImageSlice(count: nat, t: Inodes, i: nat)
    requires |t| == MAX_FILES && i < MAX_FILES
    ensures var at := 8 + INODE_SIZE * i; Image(count, t)[at..at + INODE_SIZE] == InodeBytes(t[i])
  {
    hide InodeBytes, Le32, Crc32.Crc, Crc32.WordBytes, Flatten;
    var s, at := Image(count, t), INODE_SIZE * i;
    FlattenSlice(t, i);
    assert s[8..8 + INODE_SIZE * |t|] == Flatten(t);
    assert s[8 + at..8 + at + INODE_SIZE] == Flatten(t)[at..at + INODE_SIZE];
  }

  /** Mounting the image of a table gives back the table: magic, count and every inode. */
  lemma {:induction false} ImageRoundTrip(count: nat, t: Inodes, i: nat)
    requires GoodTable(t) && count < WORD32 && i < MAX_FILES
    ensures WordAt(Image(count, t), 0) == BLOCK_MAGIC && WordAt(Image(count, t), 4) == count
    ensures InodeAt(Image(count, t), i) == t[i]
  {
    hide Le32, FromLe32, InodeBytes, ParseInode, Crc32.Crc, Crc32.WordBytes, Flatten, GoodInode;
    var s := Image(count, t);
    assert s[0..4] == Le32(BLOCK_MAGIC) && s[4..8] == Le32(count);
    WordAtOf(s, 0, BLOCK_MAGIC);
    WordAtOf(s, 4, count);
    ImageSlice(count, t, i);
    GoodParses(t, i);
  }

  lemma {:induction false} GoodParses(t: Inodes, i: nat)
    requires GoodTable(t) && i < MAX_FILES
    ensures ParseInode(InodeBytes(t[i])) == t[i]
  {
    assert GoodInode(t, i);
    ParseInodeBytes(t[i]);
  }

  // ----- the layout of the image in numbers

  lemma {:induction false} WordAtIs(s: seq<Byte>, i: nat)
    requires i + 4 <= |s|
    ensures WordAt(s, i) ==
            s[i] as int + 256 * s[i + 1] as int + 65536 * s[i + 2] as int + 16777216 * s[i + 3] as int
  {
  }

  /** The first sector begins with "SFSO" and the count; the inode of file `i` lies at 8 + 48 * i: a name of 32 bytes
      filled up with zeros, then start, size, flags and use; the checksum of all that at 776, and erased bytes. */
  lemma {:induction false} ImageLayout(count: nat, t: Inodes, i: nat)
    requires GoodTable(t) && count < WORD32 && i < 16
    ensures var s, at, n := Image(count, t), 8 + 48 * i, t[i];
            && |s| == 4096 && s[..4] == [0x53, 0x46, 0x53, 0x4F] && WordAt(s, 4) == count
            && (forall k :: 0 <= k < 32 ==> s[at + k] == if k < |n.name| then n.name[k] else 0)
            && WordAt(s, at + 32) == n.start && WordAt(s, at + 36) == n.size && WordAt(s, at + 40) == n.flags
            && WordAt(s, at + 44) == (if n.inUse then 1 else 0)
    ensures var s := Image(count, t);
            s[776..780] == Crc32.WordBytes(Crc32.Crc(s[..776])) && forall k :: 780 <= k < 4096 ==> s[k] == 0xFF
  {
    hide GoodInode, Image, InodeBytes, WordAt, Crc32.Crc, Crc32.WordBytes;
    assert |t| == MAX_FILES;
    ImageSlice(count, t, i);
    ImageEnds(count, t);
    ImageRoundTrip(count, t, i);
    InodeLayout(t, i);
    SliceWords(Image(count, t), 8 + 48 * i, InodeBytes(t[i]));
  }

  lemma {:induction false} SliceWords(s: seq<Byte>, at: nat, b: seq<Byte>)
    requires at + 48 <= |s| && b == s[at..at + 48]
    ensures forall k :: 0 <= k < 32 ==> s[at + k] == b[k]
    ensures WordAt(s, at + 32) == WordAt(b, 32) && WordAt(s, at + 36) == WordAt(b, 36)
    ensures WordAt(s, at + 40) == WordAt(b, 40) && WordAt(s, at + 44) == WordAt(b, 44)
  {
    hide FromLe32;
    assert forall k :: 0 <= k < 48 ==> b[k] == s[at + k];
  }

  lemma {:induction false} ImageEnds(count: nat, t: Inodes)
    requires |t| == MAX_FILES
    ensures var s := Image(count, t);
            && s[..4] == [0x53, 0x46, 0x53, 0x4F] && s[776..780] == Crc32.WordBytes(Crc32.Crc(s[..776]))
            && forall k :: 780 <= k < 4096 ==> s[k] == 0xFF
  {
    hide Crc32.Crc, Crc32.WordBytes, Flatten;
    var s, bytes := Image(count, t), TableBytes(count, t);
    assert s[..776] == bytes;
    assert s[..4] == Le32(BLOCK_MAGIC);
  }

  lemma {:induction false} InodeLayout(t: Inodes, i: nat)
    requires GoodTable(t) && i < 16
    ensures var b, n := InodeBytes(t[i]), t[i];
            && (forall k :: 0 <= k < 32 ==> b[k] == if k < |n.name| then n.name[k] else 0)
            && WordAt(b, 32) == n.start && WordAt(b, 36) == n.size && WordAt(b, 40) == n.flags
            && WordAt(b, 44) == if n.inUse then 1 else 0
  {
    hide Le32, FromLe32;
    assert GoodInode(t, i);
    var n, b := t[i], InodeBytes(t[i]);
    assert b[..32] == NameBytes(n.name);
    assert forall k :: 0 <= k < 32 ==> b[k] == NameBytes(n.name)[k];
    assert b[32..36] == Le32(n.start) && b[36..40] == Le32(n.size) && b[40..44] == Le32(n.flags);
    assert b[44..48] == Le32(if n.inUse then 1 else 0);
    WordAtOf(b, 32, n.start);
    WordAtOf(b, 36, n.size);
    WordAtOf(b, 40, n.flags);
    WordAtOf(b, 44, if n.inUse then 1 else 0);
  }
}
