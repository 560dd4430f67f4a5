/** What mounting finds after the power was lost in the middle of a call. */
module VfsPowerLoss {
  import opened Bytes
  import opened Flash
  import opened VfsTable
  import opened VfsState
  import opened VfsFiles

  // ----- between calls

  /** Mounting what any sound file system has left on flash shows the same files. */
  lemma {:induction false} MountShowsSameFiles(v: State, name: seq<Byte>)
    requires Good(v)
    ensures Sized(v.s) && Good(Mount(v.s)) && (Unique(v.t) ==> Unique(Mount(v.s).t))
    ensures Lookup(Mount(v.s), name) == Lookup(v, name)
  {
    hide Image, GoodDescriptors, WordAt, LoadedTable;
    MountRestores(Used(v.t), v.t, v.s);
    NoneOpen(v.t, Mount(v.s).d);
  }

  // ----- inside a call

  /** A call that changes a file erases its sector, programs it, erases the first sector, and programs that; a write
      that does not grow its file stops half way. The power is lost after `k` bytes of one of the two programs. */
  datatype Cut = InFile(k: nat) | InTable(k: nat)

  const LAST: nat := MAX_FILES - 1
  /** Where the size field, the flags and the end of the last inode lie in the first sector. */
  const SIZE_END: nat := 8 + INODE_SIZE * LAST + 40
  const TABLE_END: nat := 8 + INODE_SIZE * MAX_FILES

  /** The first `k` bytes of a program, on an erased sector. */
  function Torn(data: seq<Byte>, k: nat): (s: seq<Byte>)
    requires k <= |data| <= SECTOR_SIZE
    ensures |s| == SECTOR_SIZE
  {
    Overwrite(Erased(), data[..k])
  }

  predicate CutFits(v: State, i: nat, n: Inode, data: seq<Byte>, cut: Cut) {
    CanRewrite(v, i, n, data) && match cut case InFile(k) => k <= |data| case InTable(k) => k <= TABLE_END + 4
  }

  /** The flash that is left. */
  function Left(v: State, i: nat, n: Inode, data: seq<Byte>, cut: Cut): Sectors
    requires CutFits(v, i, n, data, cut)
  {
    var t' := v.t[i := n];
    match cut
    case InFile(k) => v.s[n.start := Torn(data, k)]
    case InTable(k) => v.s[n.start := Overwrite(Erased(), data)][0 := Torn(Superblock(Used(t'), t'), k)]
  }

  /** Lost in the file's own sector: mounting shows the old table, and every other file with its content. */
  lemma {:induction false} CutInFile(v: State, i: nat, n: Inode, data: seq<Byte>, k: nat)
    requires CutFits(v, i, n, data, InFile(k))
    ensures var s := Left(v, i, n, data, InFile(k));
            && Sized(s) && WordAt(s[0], 0) == BLOCK_MAGIC && LoadedTable(s[0]) == v.t
            && OthersAlike(v, Mount(s), i)
  {
    hide Image, WordAt, LoadedTable, GoodDescriptors, Overwrite, ContentIn;
    var s := Left(v, i, n, data, InFile(k));
    MountRestores(Used(v.t), v.t, v.s);
    assert s[0] == v.s[0];
    OnlyItsSector(v, s, i, n);
  }

  lemma {:induction false} OnlyItsSector(v: State, s: Sectors, i: nat, n: Inode)
    requires Good(v) && i < MAX_FILES && GoodInode(v.t[i := n], i) && n.start != 0
    requires |s| == |v.s| && forall k :: 0 <= k < |s| && k != n.start ==> s[k] == v.s[k]
    ensures forall d :: OthersAlike(v, State(v.t, s, d), i)
  {
    hide Image, GoodDescriptors, Overwrite;
    forall d, j | 0 <= j < |v.t| && j != i
      ensures Alike(v, State(v.t, s, d), j)
    {
      assert GoodInode(v.t, j);
    }
  }

  /** The table that is read from a first sector of which `k` bytes, past the size of the last inode, were written. */
  function TornTable(t: Inodes, k: nat): Inodes
    requires |t| == MAX_FILES
  {
    if k >= TABLE_END then t else t[LAST := t[LAST].(flags := Partial(t[LAST].flags, k - SIZE_END), inUse := true)]
  }

  /** Lost in the first sector: without the magic the next mount formats; up to the size of the last inode it finds a
      table that no file system leaves; and from there on the new table, but for the last inode's flags and use. */
  lemma {:induction false} CutInTable(t: Inodes, count: nat, k: nat)
    requires GoodTable(t) && count < WORD32 && k <= 780
    ensures var s := Torn(Superblock(count, t), k);
            && (WordAt(s, 0) == BLOCK_MAGIC <==> k >= 4)
            && (4 <= k < 768 ==> !GoodTable(LoadedTable(s)))
            && (k >= 768 ==>
                  && LoadedTable(s) == TornTable(t, k)
                  && TornTable(t, k) == if k >= 776 then t
                                        else t[15 := t[15].(flags := Partial(t[15].flags, k - 768), inUse := true)])
  {
    assert |t| == MAX_FILES;
    hide InodeAt, WordAt, Superblock, GoodTable;
    var s, whole := Torn(Superblock(count, t), k), Image(count, t);
    TornBytes(t, count, k);
    TornMagic(s, k);
    if 4 <= k < SIZE_END {
      TornSize(s, LoadedTable(s));
    }
    if k >= SIZE_END {
      forall i | 0 <= i < MAX_FILES
        ensures LoadedTable(s)[i] == TornTable(t, k)[i]
      {
        ImageRoundTrip(count, t, i);
        if i < LAST || k >= TABLE_END {
          SameInode(s, whole, k, i);
        } else {
          TornLast(t, count, k);
        }
      }
    }
  }

  lemma {:induction false} TornBytes(t: Inodes, count: nat, k: nat)
    requires |t| == MAX_FILES && k <= TABLE_END + 4
    ensures var s, whole := Torn(Superblock(count, t), k), Image(count, t);
            forall j {:trigger s[j]} :: 0 <= j < SECTOR_SIZE ==> s[j] == if j < k then whole[j] else ERASED_BYTE
    ensures Image(count, t)[..4] == Le32(BLOCK_MAGIC)
  {
    hide TableBytes, Crc32.Crc, Crc32.WordBytes;
    MagicFirst(t, count);
  }

  lemma {:induction false} MagicFirst(t: Inodes, count: nat)
    ensures TableBytes(count, t)[..4] == Le32(BLOCK_MAGIC)
  {
    hide Flatten, Le32;
  }

  lemma {:induction false} TornMagic(s: seq<Byte>, k: nat)
    requires |s| == SECTOR_SIZE
    requires forall j {:trigger s[j]} :: 0 <= j < 4 ==> s[j] == if j < k then Le32(BLOCK_MAGIC)[j] else ERASED_BYTE
    ensures WordAt(s, 0) == BLOCK_MAGIC <==> k >= 4
  {
    PartialWord(BLOCK_MAGIC, k, s[0], s[1], s[2], s[3]);
  }

  /** Without the top byte of its size the last inode is in use and larger than a sector. */
  lemma {:induction false} TornSize(s: seq<Byte>, t: Inodes)
    requires |s| == SECTOR_SIZE && t == LoadedTable(s)
    requires forall j {:trigger s[j]} :: SIZE_END - 1 <= j < SECTOR_SIZE ==> s[j] == ERASED_BYTE
    ensures !GoodTable(t)
  {
    var at := 8 + INODE_SIZE * LAST;
    var b := s[at..at + INODE_SIZE];
    assert b[39] == s[at + 39] == ERASED_BYTE && b[47] == s[at + 47] == ERASED_BYTE;
    assert t[LAST].size >= 0xFF00_0000 && t[LAST].inUse;
    assert !GoodInode(t, LAST);
  }

  lemma {:induction false} SameInode(s: seq<Byte>, whole: seq<Byte>, k: nat, i: nat)
    requires |s| == |whole| == SECTOR_SIZE && i < MAX_FILES && 8 + INODE_SIZE * i + INODE_SIZE <= k
    requires forall j {:trigger s[j]} :: 0 <= j < SECTOR_SIZE ==> s[j] == if j < k then whole[j] else ERASED_BYTE
    ensures InodeAt(s, i) == InodeAt(whole, i)
  {
    var at := 8 + INODE_SIZE * i;
    assert s[at..at + INODE_SIZE] == whole[at..at + INODE_SIZE];
  }

  /** Without all of its last word the last inode is in use, under its name, start and size. */
  lemma {:induction false} TornLast(t: Inodes, count: nat, k: nat)
    requires GoodTable(t) && count < WORD32 && SIZE_END <= k < TABLE_END
    ensures InodeAt(Torn(Superblock(count, t), k), LAST) ==
            t[LAST].(flags := Partial(t[LAST].flags, k - SIZE_END), inUse := true)
  {
    hide Superblock, Image, Le32, FromLe32, Partial, UpToZero;
    var s, whole, at := Torn(Superblock(count, t), k), Image(count, t), 8 + INODE_SIZE * LAST;
    TornBytes(t, count, k);
    ImageSlice(count, t, LAST);
    var b, w := s[at..at + INODE_SIZE], whole[at..at + INODE_SIZE];
    assert forall j :: 0 <= j < 40 ==> b[j] == s[at + j] == whole[at + j] == w[j];
    assert b[..40] == w[..40];
    GoodParses(t, LAST);
    assert GoodInode(t, LAST);
    SameFront(b, w);
    FlagBytes(t[LAST], b, k - SIZE_END);
    InUseByte(b);
  }

  lemma {:induction false} SameFront(b: seq<Byte>, w: seq<Byte>)
    requires |b| == |w| == INODE_SIZE && b[..40] == w[..40]
    ensures ParseInode(b) == ParseInode(w).(flags := WordAt(b, 40), inUse := WordAt(b, 44) != 0)
  {
    hide UpToZero, FromLe32;
    assert b[..NAME_LEN] == b[..40][..NAME_LEN] == w[..40][..NAME_LEN] == w[..NAME_LEN];
    assert forall j :: 32 <= j < 40 ==> b[j] == b[..40][j] == w[..40][j] == w[j];
  }

  lemma {:induction false} FlagBytes(n: Inode, b: seq<Byte>, w: nat)
    requires n.flags < WORD32 && |n.name| < NAME_LEN && |b| == INODE_SIZE
    requires forall j {:trigger b[j]} :: 40 <= j < 44 ==> b[j] == if j - 40 < w then InodeBytes(n)[j] else ERASED_BYTE
    ensures WordAt(b, 40) == Partial(n.flags, w)
  {
    hide Le32, FromLe32, Partial;
    var f := InodeBytes(n);
    assert f[40..44] == Le32(n.flags);
    assert f[40] == f[40..44][0] && f[41] == f[40..44][1] && f[42] == f[40..44][2] && f[43] == f[40..44][3];
    PartialWord(n.flags, w, b[40], b[41], b[42], b[43]);
  }

  lemma {:induction false} InUseByte(b: seq<Byte>)
    requires |b| == INODE_SIZE && b[47] == ERASED_BYTE
    ensures WordAt(b, 44) != 0
  {
  }

  /** Lost behind the size of the last inode: mounting shows every file as after the call, but perhaps the last one. */
  lemma {:induction false} CutLate(v: State, i: nat, n: Inode, data: seq<Byte>, k: nat)
    requires CutFits(v, i, n, data, InTable(k)) && k >= 768
    ensures var s, v' := Left(v, i, n, data, InTable(k)), Rewrite(v, i, n, data);
            && Sized(s) && WordAt(s[0], 0) == BLOCK_MAGIC && |Mount(s).t| == |v'.t| == MAX_FILES
            && forall j {:trigger v'.t[j]} :: 0 <= j < MAX_FILES && (j != 15 || k >= 776) ==>
                 Alike(v', Mount(s), j)
  {
    hide Image, WordAt, LoadedTable, GoodDescriptors, Overwrite, Superblock, Used;
    var s, v' := Left(v, i, n, data, InTable(k)), Rewrite(v, i, n, data);
    RewriteGood(v, i, n, data);
    UsedBound(v'.t);
    CutInTable(v'.t, Used(v'.t), k);
    forall j | 0 <= j < MAX_FILES && (j != LAST || k >= TABLE_END)
      ensures Alike(v', Mount(s), j)
    {
      assert GoodInode(v'.t, j);
      assert TornTable(v'.t, k)[j] == v'.t[j];
    }
  }

  /** The new table is mounted if and only if all of it was written, or all but what reads the same when erased: the use
      of a last file that is in use, and flag bytes of it that are all ones. */
  lemma {:induction false} NewTableIff(t: Inodes, count: nat, k: nat)
    requires GoodTable(t) && count < WORD32 && k <= 780
    ensures var s := Torn(Superblock(count, t), k);
            WordAt(s, 0) == BLOCK_MAGIC && LoadedTable(s) == t <==>
              || k >= 776
              || (k >= 768 && t[15].inUse && Partial(t[15].flags, k - 768) == t[15].flags)
  {
    assert |t| == MAX_FILES;
    hide Torn, Superblock, LoadedTable, WordAt, GoodTable, Partial;
    CutInTable(t, count, k);
    if SIZE_END <= k < TABLE_END {
      LastOfTorn(t, k);
    }
  }

  lemma {:induction false} LastOfTorn(t: Inodes, k: nat)
    requires |t| == MAX_FILES && SIZE_END <= k < TABLE_END
    ensures TornTable(t, k) == t <==> t[LAST].inUse && Partial(t[LAST].flags, k - SIZE_END) == t[LAST].flags
  {
    hide Partial;
    var u := TornTable(t, k);
    if t[LAST].inUse && Partial(t[LAST].flags, k - SIZE_END) == t[LAST].flags {
      assert u[LAST] == t[LAST];
    }
  }

  /** The old table is mounted if and only if the new one is the same and was mounted, or differs from it only in what
      the last inode reads when its flags and use are torn. */
  lemma {:induction false} OldTableIff(old_: Inodes, t: Inodes, count: nat, k: nat)
    requires GoodTable(old_) && GoodTable(t) && count < WORD32 && k <= 780
    ensures var s := Torn(Superblock(count, t), k);
            WordAt(s, 0) == BLOCK_MAGIC && LoadedTable(s) == old_ <==> k >= 768 && TornTable(t, k) == old_
  {
    hide Torn, Superblock, LoadedTable, WordAt, GoodTable, TornTable;
    CutInTable(t, count, k);
  }
}
