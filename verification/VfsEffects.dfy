/** What each call of the file system's interface does to table, sectors and descriptors, in numbers: sixteen inodes,
    eight descriptors, sectors of 4096 bytes, and the bits of the open flags. */
module VfsEffects {
  import opened Bytes
  import opened Flash
  import opened VfsTable
  import opened VfsState
  import opened VfsLog
  import opened VfsCalls

  /** `path` is `name`, or `name` behind one slash. */
  predicate Names(path: seq<Byte>, name: seq<Byte>) {
    path == [0x2F] + name || (path == name && (name == [] || name[0] != 0x2F))
  }

  /** One leading slash is dropped, and nothing else. */
  lemma {:induction false} PathIsName(path: seq<Byte>)
    ensures path == [] || path[0] != 0x2F ==> StripSlash(path) == path
    ensures StripSlash([0x2F] + path) == path
  {
    assert ([0x2F] + path)[1..] == path;
  }

  lemma {:induction false} NameOf(path: seq<Byte>, name: seq<Byte>)
    requires Names(path, name)
    ensures StripSlash(path) == name
  {
    PathIsName(name);
  }

  // ----- opening

  lemma {:induction false} Found(t: Inodes, name: seq<Byte>)
    ensures Find(t, name).None? <==> forall i :: 0 <= i < |t| ==> !(t[i].inUse && t[i].name == name)
  {
    forall i: nat | i < |t|
      ensures IsFile(t, i, name) <==> t[i].inUse && t[i].name == name
    {
    }
  }

  /** Not found exactly if there is no such file and the create bit is not set; out of memory exactly if one had to be
      created and all sixteen inodes are in use; busy exactly if there is or could be a file and all eight descriptors
      are open. */
  lemma {:induction false} OpenStatusIff(v: State, path: seq<Byte>, name: seq<Byte>, flags: nat)
    requires Good(v) && Names(path, name)
    ensures |v.t| == 16 && |v.d| == 8
    ensures var status := StatusOf(v, Open(path, flags));
            var missing := forall i :: 0 <= i < 16 ==> !(v.t[i].inUse && v.t[i].name == name);
            var full := forall i :: 0 <= i < 16 ==> v.t[i].inUse;
            var taken := forall e :: 0 <= e < 8 ==> v.d[e].isOpen;
            && (status.NotFound? <==> missing && flags / 4 % 2 == 0)
            && (status.NoMemory? <==> missing && flags / 4 % 2 == 1 && full)
            && (status.Busy? <==> !(missing && (flags / 4 % 2 == 0 || full)) && taken)
            && (status.Ok? <==> !(missing && (flags / 4 % 2 == 0 || full)) && !taken)
  {
    hide Good, FindFrom;
    TableLength(v);
    NameOf(path, name);
    Found(v.t, name);
  }

  /** Descriptor `fd` is the lowest that is not open. */
  predicate LowestClosed(d: seq<Descriptor>, fd: nat) {
    fd < |d| && !d[fd].isOpen && forall e :: 0 <= e < fd ==> d[e].isOpen
  }

  lemma {:induction false} ClosedFirst(d: seq<Descriptor>, fd: nat, e: nat)
    requires e <= fd && LowestClosed(d, fd)
    ensures FirstClosed(d, e) == Some(fd)
    decreases fd - e
  {
    if e < fd {
      ClosedFirst(d, fd, e + 1);
    }
  }

  lemma {:induction false} UnusedFirst(t: Inodes, i: nat, j: nat)
    requires j <= i < |t| && !t[i].inUse && forall k :: 0 <= k < i ==> t[k].inUse
    ensures FirstUnused(t, j) == Some(i)
    decreases i - j
  {
    if j < i {
      UnusedFirst(t, i, j + 1);
    }
  }

  lemma {:induction false} FileFirst(t: Inodes, name: seq<Byte>, i: nat)
    requires i < |t| && t[i].inUse && t[i].name == name
    requires forall j :: 0 <= j < i ==> !(t[j].inUse && t[j].name == name)
    ensures Find(t, name) == Some(i)
  {
    assert IsFile(t, i, name);
    var found := Find(t, name);
    if found.Some? {
      assert IsFile(t, found.value, name);
    }
  }

  /** Every byte of the sector is erased. */
  predicate AllErased(sector: seq<Byte>) {
    |sector| == 4096 && forall k :: 0 <= k < 4096 ==> sector[k] == 0xFF
  }

  lemma {:induction false} ErasedAll()
    ensures AllErased(Overwrite(Erased(), []))
  {
  }

  /** Opening an existing file puts the lowest closed descriptor on it: at its end if the append bit is set and the
      truncate bit is not, at its beginning otherwise. Truncating erases its sector; without it nothing else changes. */
  lemma {:induction false} OpenExisting(
      v: State, path: seq<Byte>, name: seq<Byte>, flags: nat, i: nat, fd: nat)
    requires Good(v) && Proper(Open(path, flags)) && Names(path, name)
    requires i < |v.t| && v.t[i].inUse && v.t[i].name == name
    requires forall j :: 0 <= j < i ==> !(v.t[j].inUse && v.t[j].name == name)
    requires fd < |v.d| && !v.d[fd].isOpen && forall e :: 0 <= e < fd ==> v.d[e].isOpen
    ensures var v', n := After(v, Open(path, flags)), v.t[i];
            && StatusOf(v, Open(path, flags)).Ok?
            && v'.d == v.d[fd := Descriptor(i, if flags / 8 % 2 == 1 && flags / 16 % 2 == 0 then n.size else 0,
                                            flags, true)]
            && (flags / 16 % 2 == 0 ==> v'.t == v.t && v'.s == v.s)
            && (flags / 16 % 2 == 1 ==>
                  && v'.t == v.t[i := n.(size := 0)] && |v'.s| == |v.s| == 64 && 0 < n.start < 64
                  && AllErased(v'.s[n.start]) && forall k :: 0 < k < 64 && k != n.start ==> v'.s[k] == v.s[k])
  {
    hide Good, FindFrom, FirstClosed, FirstUnused, Overwrite, Image, Erased;
    TableLength(v);
    NameOf(path, name);
    FileFirst(v.t, name, i);
    ClosedFirst(v.d, fd, 0);
    assert !AllOpen(v.d);
    InodeHasSector(v, i);
    ErasedAll();
  }

  lemma {:induction false} InodeHasSector(v: State, i: nat)
    requires Good(v) && i < |v.t| && v.t[i].inUse
    ensures 0 < v.t[i].start < 64
  {
    FileFacts(Used(v.t), v.t, v.s, i);
  }

  /** Creating a file takes the lowest unused inode and the sector three behind its number, which is erased; the name is
      kept up to 31 bytes, the flags are recorded, and the descriptor stands at the beginning. */
  lemma {:induction false} OpenNew(v: State, path: seq<Byte>, name: seq<Byte>, flags: nat, i: nat, fd: nat)
    requires Good(v) && Proper(Open(path, flags)) && Names(path, name) && flags / 4 % 2 == 1
    requires forall j :: 0 <= j < |v.t| ==> !(v.t[j].inUse && v.t[j].name == name)
    requires i < |v.t| && !v.t[i].inUse && forall j :: 0 <= j < i ==> v.t[j].inUse
    requires fd < |v.d| && !v.d[fd].isOpen && forall e :: 0 <= e < fd ==> v.d[e].isOpen
    ensures var v' := After(v, Open(path, flags));
            && StatusOf(v, Open(path, flags)).Ok?
            && v'.d == v.d[fd := Descriptor(i, 0, flags, true)]
            && v'.t == v.t[i := Inode(if |name| <= 31 then name else name[..31], 3 + i, 0, flags, true)]
            && |v'.s| == |v.s| == 64 && i < 16 && AllErased(v'.s[3 + i])
            && forall k :: 0 < k < 64 && k != 3 + i ==> v'.s[k] == v.s[k]
  {
    hide Good, FindFrom, FirstClosed, FirstUnused, Overwrite, Image, Erased;
    TableLength(v);
    NameOf(path, name);
    Found(v.t, name);
    ClosedFirst(v.d, fd, 0);
    UnusedFirst(v.t, i, 0);
    assert !AllOpen(v.d) && !AllInUse(v.t);
    ErasedAll();
  }

  // ----- reading, writing, closing, deleting

  /** What an open descriptor stands on. */
  lemma {:induction false} StandsOn(v: State, fd: nat)
    requires Good(v) && fd < |v.d| && v.d[fd].isOpen
    ensures |v.t| == 16 && |v.s| == 64 && v.d[fd].inode < 16
    ensures var n := v.t[v.d[fd].inode];
            0 < n.start < 64 && n.size <= 4096 && |v.s[n.start]| == 4096
            && ContentIn(v.t, v.s, v.d[fd].inode) == v.s[n.start][..n.size]
  {
    hide Sound, ContentIn;
    TableLength(v);
    OpenIsGood(v, fd);
    FileFacts(Used(v.t), v.t, v.s, v.d[fd].inode);
  }

  /** Reading returns the bytes of the sector from the descriptor's position up to the size of the file, at most as many
      as asked for; only that position changes, by as much as was read. */
  lemma {:induction false} ReadIs(v: State, fd: nat, size: nat)
    requires Good(v)
    ensures StatusOf(v, Read(fd, size)) ==
            if fd >= 8 then InvalidArg else if !v.d[fd].isOpen then InvalidState else Ok
    ensures !StatusOf(v, Read(fd, size)).Ok? ==> After(v, Read(fd, size)) == v && ReadData(v, fd, size) == []
    ensures StatusOf(v, Read(fd, size)).Ok? ==>
              var d, data := v.d[fd], ReadData(v, fd, size);
              && After(v, Read(fd, size)) == v.(d := v.d[fd := d.(cursor := d.cursor + |data|)])
              && d.inode < |v.t| && v.t[d.inode].start < |v.s|
              && var n, sector := v.t[d.inode], v.s[v.t[d.inode].start];
              && n.size <= |sector|
              && data == if d.cursor >= n.size then []
                         else if d.cursor + size > n.size then sector[d.cursor..n.size]
                         else sector[d.cursor..d.cursor + size]
  {
    hide Good, ContentIn;
    TableLength(v);
    if fd < 8 && v.d[fd].isOpen {
      StandsOn(v, fd);
    }
  }

  /** What the sector holds after a write: its old beginning, the buffer, and erased bytes. */
  predicate WrittenSector(before: seq<Byte>, cursor: nat, buffer: seq<Byte>, after: seq<Byte>) {
    && |before| == |after| == 4096
    && forall k {:trigger after[k]} :: 0 <= k < 4096 ==>
       after[k] == if k < cursor then before[k] else if k < cursor + |buffer| then buffer[k - cursor] else 0xFF
  }

  lemma {:induction false} SectorIsWritten(sector: seq<Byte>, cursor: nat, buffer: seq<Byte>)
    requires |sector| == 4096 && cursor + |buffer| <= 4096
    ensures WrittenSector(sector, cursor, buffer, Overwrite(Erased(), sector[..cursor] + buffer))
  {
  }

  /** A write is refused by a closed descriptor, by one with the read-only bit, and where it would leave the sector.
      Otherwise the file ends where the buffer does, if it was not longer before, and so does what its sector keeps. */
  lemma {:induction false} WriteIs(v: State, fd: nat, buffer: seq<Byte>)
    requires Good(v)
    ensures StatusOf(v, Write(fd, buffer)) ==
            if fd >= 8 then InvalidArg
            else if !v.d[fd].isOpen || v.d[fd].flags % 2 == 1 then InvalidState
            else if v.d[fd].cursor + |buffer| > 4096 then NoMemory else Ok
    ensures !StatusOf(v, Write(fd, buffer)).Ok? ==> After(v, Write(fd, buffer)) == v
    ensures StatusOf(v, Write(fd, buffer)).Ok? ==>
              var v', i, end := After(v, Write(fd, buffer)), v.d[fd].inode, v.d[fd].cursor + |buffer|;
              && v'.d == v.d[fd := v.d[fd].(cursor := end)] && i < |v.t|
              && v'.t == v.t[i := v.t[i].(size := if end > v.t[i].size then end else v.t[i].size)]
              && |v'.s| == |v.s| == 64 && 0 < v.t[i].start < 64
              && WrittenSector(v.s[v.t[i].start], v.d[fd].cursor, buffer, v'.s[v.t[i].start])
              && forall k :: 0 < k < 64 && k != v.t[i].start ==> v'.s[k] == v.s[k]
  {
    hide Good, ContentIn, Overwrite, Image, Erased, WrittenSector;
    TableLength(v);
    if StatusOf(v, Write(fd, buffer)).Ok? {
      StandsOn(v, fd);
      SectorIsWritten(v.s[v.t[v.d[fd].inode].start], v.d[fd].cursor, buffer);
    }
  }

  /** Closing changes nothing but that the descriptor is closed. */
  lemma {:induction false} CloseIs(v: State, fd: nat)
    requires Good(v)
    ensures StatusOf(v, Close(fd)) == if fd < 8 && v.d[fd].isOpen then Ok else InvalidArg
    ensures After(v, Close(fd)) ==
            if fd < 8 && v.d[fd].isOpen then v.(d := v.d[fd := v.d[fd].(isOpen := false)]) else v
  {
    hide Sound;
    TableLength(v);
  }

  /** Deleting marks the first file of that name unused and erases its sector; without such a file nothing changes. */
  lemma {:induction false} DeleteIs(v: State, path: seq<Byte>, name: seq<Byte>)
    requires Good(v) && Proper(Delete(path)) && Names(path, name)
    ensures var missing := forall j :: 0 <= j < |v.t| ==> !(v.t[j].inUse && v.t[j].name == name);
            && StatusOf(v, Delete(path)) == (if missing then NotFound else Ok)
            && (missing ==> After(v, Delete(path)) == v)
    ensures forall i :: 0 <= i < |v.t| && v.t[i].inUse && v.t[i].name == name
                        && (forall j :: 0 <= j < i ==> !(v.t[j].inUse && v.t[j].name == name)) ==>
              var v', n := After(v, Delete(path)), v.t[i];
              && v'.t == v.t[i := n.(inUse := false)] && v'.d == v.d
              && |v'.s| == |v.s| == 64 && 0 < n.start < 64 && AllErased(v'.s[n.start])
              && forall k :: 0 < k < 64 && k != n.start ==> v'.s[k] == v.s[k]
  {
    hide Good, FindFrom, Overwrite, Image, Erased;
    TableLength(v);
    NameOf(path, name);
    Found(v.t, name);
    forall i | 0 <= i < |v.t| && v.t[i].inUse && v.t[i].name == name
               && forall j :: 0 <= j < i ==> !(v.t[j].inUse && v.t[j].name == name)
      ensures Find(v.t, name) == Some(i) && 0 < v.t[i].start < 64
    {
      FileFirst(v.t, name, i);
      InodeHasSector(v, i);
    }
    ErasedAll();
  }

  /** Appending is opening with the bits for creating, writing and appending, a write, and closing again. */
  lemma {:induction false} AppendIs(v: State, path: seq<Byte>, entry: seq<Byte>, fd: nat)
    requires Good(v) && Proper(Append(path, entry))
    requires StatusOf(v, Open(path, 14)).Ok? ==> LowestClosed(v.d, fd)
    ensures var v1 := After(v, Open(path, 14));
            if StatusOf(v, Open(path, 14)).Ok?
            then && StatusOf(v, Append(path, entry)) == StatusOf(v1, Write(fd, entry))
                 && After(v, Append(path, entry)) == After(After(v1, Write(fd, entry)), Close(fd))
            else StatusOf(v, Append(path, entry)) == StatusOf(v, Open(path, 14)) && After(v, Append(path, entry)) == v1
  {
    hide Good, FirstClosed, OpenStatus, WriteStatus, VfsState.Open, VfsState.Write, VfsState.Close, LogContent;
    var name := StripSlash(path);
    StripKeepsCString(path);
    if OpenStatus(v, name, 14).Ok? {
      ClosedFirst(v.d, fd, 0);
      AppendWriteStatus(v, name, entry);
    }
  }
}
