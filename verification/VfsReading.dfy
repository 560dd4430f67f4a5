/** Reading through descriptors: piece by piece, and back what was written. */
module VfsReading {
  import opened Bytes
  import opened Flash
  import opened VfsTable
  import opened VfsState
  import opened VfsFiles
  import opened VfsRuns
  import opened VfsLog
  import opened VfsCalls
  import Vfs

  // ----- piece by piece

  /** Reading twice is reading once the sum. */
  lemma {:induction false} ReadTwice(v: State, fd: nat, a: nat, b: nat)
    requires Good(v)
    ensures VfsState.Read(VfsState.Read(v, fd, a), fd, b) == VfsState.Read(v, fd, a + b)
    ensures ReadData(v, fd, a) + ReadData(VfsState.Read(v, fd, a), fd, b) == ReadData(v, fd, a + b)
  {
    hide Good, ContentIn;
    if ReadStatus(v, fd).Ok? {
      var d := v.d[fd];
      var content := ContentIn(v.t, v.s, d.inode);
      if d.cursor <= |content| {
        ReadInTwo(content, d.cursor, a, b);
      }
      assert v.d[fd := d.(cursor := d.cursor + |ReadData(v, fd, a)|)][fd := d] == v.d;
    }
  }

  lemma {:induction false} SumSnoc(sizes: seq<nat>, n: nat)
    ensures Sum(sizes + [n]) == Sum(sizes) + n
    decreases |sizes|
  {
    if sizes != [] {
      assert (sizes + [n])[1..] == sizes[1..] + [n];
      SumSnoc(sizes[1..], n);
    }
  }

  /** Successive reads of any sizes return what one read of their sum would, and leave the descriptor where it would. */
  method ReadPieces(fs: Vfs.Vfs, fd: nat, sizes: seq<nat>) returns (data: seq<Byte>)
    requires fs.Valid()
    modifies fs`view, fs.files
    ensures fs.Valid() && fs.view == VfsState.Read(old(fs.view), fd, Sum(sizes))
    ensures data == ReadData(old(fs.view), fd, Sum(sizes))
  {
    hide Good, VfsState.Read, ReadData;
    ghost var v := fs.view;
    data := [];
    ReadNone(v, fd);
    for i := 0 to |sizes|
      invariant fs.Valid() && Good(v) && fs.view == VfsState.Read(v, fd, Sum(sizes[..i]))
      invariant data == ReadData(v, fd, Sum(sizes[..i]))
    {
      ReadTwice(v, fd, Sum(sizes[..i]), sizes[i]);
      SumSnoc(sizes[..i], sizes[i]);
      assert sizes[..i + 1] == sizes[..i] + [sizes[i]];
      var status, piece := fs.Read(fd, sizes[i]);
      data := data + piece;
    }
    assert sizes[..|sizes|] == sizes;
  }

  lemma {:induction false} ReadNone(v: State, fd: nat)
    ensures VfsState.Read(v, fd, 0) == v && ReadData(v, fd, 0) == []
  {
    if ReadStatus(v, fd).Ok? {
      assert v.d[fd := v.d[fd].(cursor := v.d[fd].cursor + 0)] == v.d;
    }
  }

  // ----- back what was written

  lemma {:induction false} ClosedIsFirst(d: seq<Descriptor>, d': seq<Descriptor>, fd: nat, e: nat)
    requires e <= |d| && FirstClosed(d, e) == Some(fd) && |d'| == |d| && !d'[fd].isOpen && d' == d[fd := d'[fd]]
    ensures FirstClosed(d', e) == Some(fd)
    decreases |d| - e
  {
    if e < fd {
      ClosedIsFirst(d, d', fd, e + 1);
    }
  }

  /** Opening a file for writing anew, writing, closing and opening it for reading gives back what was written. */
  lemma {:induction false} WrittenIsReadBack(v: State, path: seq<Byte>, buffer: seq<Byte>, n: nat)
    requires Good(v) && Unique(v.t) && CString(path) && |StripSlash(path)| < NAME_LEN && |buffer| <= SECTOR_SIZE
    requires OpenStatus(v, StripSlash(path), FOR_CLEAR).Ok?
    ensures FirstClosed(v.d, 0).Some?
    ensures var fd := FirstClosed(v.d, 0).value;
            var v1 := After(v, Open(path, FOR_CLEAR));
            var v2 := After(v1, Write(fd, buffer));
            var v3 := After(v2, Close(fd));
            var v4 := After(v3, Open(path, RDONLY));
            && StatusOf(v1, Write(fd, buffer)).Ok? && StatusOf(v3, Open(path, RDONLY)).Ok?
            && FirstClosed(v3.d, 0) == Some(fd)
            && ReadData(v4, fd, n) == if n < |buffer| then buffer[..n] else buffer
  {
    hide Good, Unique, OpenStatus, Find, FirstClosed, ReadStatus, WriteStatus, CloseStatus;
    hide VfsState.Open, VfsState.Write, VfsState.Read, VfsState.Close, ReadData;
    var name := StripSlash(path);
    StripKeepsCString(path);
    OpenedAnew(v, name);
    var fd := FirstClosed(v.d, 0).value;
    var v1 := After(v, Open(path, FOR_CLEAR));
    WrittenAnew(v1, fd, name, buffer);
    var v2 := After(v1, Write(fd, buffer));
    ReadAnew(v.d, v2, fd, name, buffer, n);
  }

  lemma {:induction false} OpenedAnew(v: State, name: seq<Byte>)
    requires Good(v) && Unique(v.t) && CString(name) && |name| < NAME_LEN && OpenStatus(v, name, FOR_CLEAR).Ok?
    ensures FirstClosed(v.d, 0).Some?
    ensures var fd, v1 := FirstClosed(v.d, 0).value, VfsState.Open(v, name, FOR_CLEAR);
            && Unique(v1.t) && fd < |v1.d| == |v.d| && v1.d == v.d[fd := v1.d[fd]]
            && StandsAt(v1, fd, name, 0, FOR_CLEAR, [])
  {
    hide Good, Unique, ContentIn, OnlyFile, Find, EntryStatus, VfsState.Open;
    OpenFacts(v, name, FOR_CLEAR);
    OpenRuns(v, name, FOR_CLEAR);
    IndependentFiles(v, VfsState.Open(v, name, FOR_CLEAR), Opening(v, name, FOR_CLEAR), name);
    EnteredIsFile(v, Enter(v, name, FOR_CLEAR), name, Entry(v, name));
  }

  /** Descriptor `fd` is open on the file of that name and content, at `cursor`. */
  predicate StandsAt(v: State, fd: nat, name: seq<Byte>, cursor: nat, flags: nat, content: seq<Byte>) {
    && fd < |v.d| && v.d[fd].isOpen && v.d[fd].cursor == cursor && v.d[fd].flags == flags
    && IsFile(v.t, v.d[fd].inode, name) && ContentIn(v.t, v.s, v.d[fd].inode) == content
  }

  lemma {:induction false} WrittenAnew(v: State, fd: nat, name: seq<Byte>, buffer: seq<Byte>)
    requires Good(v) && Unique(v.t) && StandsAt(v, fd, name, 0, FOR_CLEAR, []) && |buffer| <= SECTOR_SIZE
    ensures WriteStatus(v, fd, buffer).Ok?
    ensures var v' := VfsState.Write(v, fd, buffer);
            && Unique(v'.t) && |v'.d| == |v.d| && v'.d == v.d[fd := v'.d[fd]]
            && StandsAt(v', fd, name, |buffer|, FOR_CLEAR, buffer)
  {
    hide Good, Unique, ContentIn, Written, OnlyFile, VfsState.Write;
    var v', i := VfsState.Write(v, fd, buffer), v.d[fd].inode;
    WriteGood(v, fd, buffer);
    OnlyFileAlike(v, v', i);
    SameNamesUnique(v, v', i);
    WriteToEnd([], 0, buffer);
  }

  lemma {:induction false} ReadAnew(d: seq<Descriptor>, v: State, fd: nat, name: seq<Byte>, buffer: seq<Byte>, n: nat)
    requires Good(v) && Unique(v.t) && CString(name) && FirstClosed(d, 0) == Some(fd)
    requires fd < |d| == |v.d| && v.d == d[fd := v.d[fd]] && StandsAt(v, fd, name, |buffer|, FOR_CLEAR, buffer)
    ensures Good(VfsState.Close(v, fd))
    ensures var v3 := VfsState.Close(v, fd);
            var v4 := VfsState.Open(v3, name, RDONLY);
            && OpenStatus(v3, name, RDONLY).Ok? && FirstClosed(v3.d, 0) == Some(fd)
            && ReadData(v4, fd, n) == if n < |buffer| then buffer[..n] else buffer
  {
    hide Good, Unique, ContentIn, OnlyFile, Find, EntryStatus, VfsState.Open;
    var v3 := VfsState.Close(v, fd);
    CloseGood(v, fd);
    ClosedIsFirst(d, v3.d, fd, 0);
    FoundUnderItsName(v3, v.d[fd].inode);
    FoundOpens(v3, name);
    OpenFacts(v3, name, RDONLY);
  }

  lemma {:induction false} FoundOpens(v: State, name: seq<Byte>)
    requires Find(v.t, name).Some? && FirstClosed(v.d, 0).Some?
    ensures OpenStatus(v, name, RDONLY).Ok?
  {
  }
}
