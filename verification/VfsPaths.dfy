/** What callers see through paths: a leading slash makes no difference, and different paths name different files. */
module VfsPaths {
  import opened Bytes
  import opened Flash
  import opened VfsTable
  import opened VfsState
  import opened VfsFiles
  import opened VfsRuns
  import opened VfsLog
  import opened VfsCalls
  import opened VfsEffects

  // ----- a leading slash

  /** Every call that names a file by a path does the same with a slash in front of it. */
  lemma {:induction false} SlashMakesNoDifference(v: State, path: seq<Byte>, flags: nat, entry: seq<Byte>)
    requires Good(v) && CString(path) && flags < WORD32 && (path == [] || path[0] != 0x2F)
    ensures CString([0x2F] + path)
    ensures StatusOf(v, Open([0x2F] + path, flags)) == StatusOf(v, Open(path, flags))
    ensures After(v, Open([0x2F] + path, flags)) == After(v, Open(path, flags))
    ensures StatusOf(v, Delete([0x2F] + path)) == StatusOf(v, Delete(path))
    ensures After(v, Delete([0x2F] + path)) == After(v, Delete(path))
    ensures StatusOf(v, Append([0x2F] + path, entry)) == StatusOf(v, Append(path, entry))
    ensures After(v, Append([0x2F] + path, entry)) == After(v, Append(path, entry))
  {
    hide Good, OpenStatus, AppendStatus, DeleteStatus, VfsState.Open, VfsState.Delete, VfsLog.Append;
    PathIsName(path);
  }

  // ----- reading a whole file

  /** What a caller gets who opens `path` for reading and reads up to `n` bytes. */
  function ReadBack(v: State, path: seq<Byte>, n: nat): Option<seq<Byte>>
    requires Good(v) && CString(path)
  {
    if StatusOf(v, Open(path, 1)).Ok? && FirstClosed(v.d, 0).Some?
    then Some(ReadData(After(v, Open(path, 1)), FirstClosed(v.d, 0).value, n)) else None
  }

  lemma {:induction false} ReadStart(content: seq<Byte>, n: nat)
    ensures ReadAt(content, 0, n) == if n < |content| then content[..n] else content
  {
  }

  /** That is the beginning of the content of the file, as long as a descriptor is free. */
  lemma {:induction false} ReadBackIsContent(v: State, path: seq<Byte>, n: nat)
    requires Good(v) && CString(path) && (path == [] || path[0] != 0x2F)
    requires exists e :: 0 <= e < |v.d| && !v.d[e].isOpen
    ensures ReadBack(v, path, n) ==
            var c := Lookup(v, path);
            if c.None? then None else if n < |c.value| then Some(c.value[..n]) else c
  {
    hide Good, ContentIn, FindFrom, FirstClosed, VfsState.Open;
    PathIsName(path);
    TableLength(v);
    var e :| 0 <= e < |v.d| && !v.d[e].isOpen;
    assert FirstClosed(v.d, 0).Some?;
    OpenFacts(v, path, 1);
    if Find(v.t, path).Some? {
      ReadStart(Lookup(v, path).value, n);
    }
  }

  // ----- different paths

  /** No open descriptor stands on the file of that name. */
  predicate NoneOn(v: State, name: seq<Byte>) {
    forall e {:trigger v.d[e]} :: 0 <= e < |v.d| && v.d[e].isOpen ==>
      v.d[e].inode < |v.t| && !(v.t[v.d[e].inode].inUse && v.t[v.d[e].inode].name == name)
  }

  /** The call names no file, or one of another name of at most 31 bytes. */
  predicate Elsewhere(r: Request, name: seq<Byte>) {
    match r
    case Read(_, _) => true
    case Write(_, _) => true
    case Close(_) => true
    case _ => (r.path == [] || r.path[0] != 0x2F) && |r.path| <= 31 && r.path != name
  }

  /** One file's inode may change if it does not get that name, and one descriptor may be put on it. */
  lemma {:induction false} StaysNoneOn(v: State, v': State, name: seq<Byte>, i: nat)
    requires NoneOn(v, name) && |v.t| == |v'.t| && |v.d| == |v'.d|
    requires forall j :: 0 <= j < |v.t| && j != i ==> v'.t[j] == v.t[j]
    requires i < |v.t| ==> !(v'.t[i].inUse && v'.t[i].name == name)
    requires forall e :: 0 <= e < |v.d| && v'.d[e].isOpen ==>
               (v.d[e].isOpen && v'.d[e].inode == v.d[e].inode) || (v'.d[e].inode == i && i < |v.t|)
    ensures NoneOn(v', name)
  {
    forall e | 0 <= e < |v'.d| && v'.d[e].isOpen
      ensures v'.d[e].inode < |v'.t| && !(v'.t[v'.d[e].inode].inUse && v'.t[v'.d[e].inode].name == name)
    {
    }
  }

  lemma {:induction false} OpenStaysOff(v: State, path: seq<Byte>, flags: nat, name: seq<Byte>)
    requires Good(v) && CString(path) && flags < WORD32 && |path| <= 31 && path != name && NoneOn(v, name)
    ensures NoneOn(VfsState.Open(v, path, flags), name)
  {
    hide Good, ContentIn, FindFrom, FirstClosed, NoneOn, VfsState.Open;
    OpenFacts(v, path, flags);
    var v1, v2, i := Enter(v, path, flags), VfsState.Open(v, path, flags), Entry(v, path);
    if OpenStatus(v, path, flags).Ok? {
      EnterStaysOff(v, v1, path, i, name);
      assert forall j :: 0 <= j < |v1.t| && j != i ==> SameFile(v1.t, v1.s, v2.t, v2.s, j);
      StaysNoneOn(v1, v2, name, i);
    } else if OpenStatus(v, path, flags).Busy? {
      EnterStaysOff(v, v2, path, i, name);
    } else {
      NotBusy(v, path, flags);
    }
  }

  lemma {:induction false} EnterStaysOff(v: State, v': State, path: seq<Byte>, i: nat, name: seq<Byte>)
    requires Entered(v, v', path, i) && v'.d == v.d && |path| <= 31 && path != name && NoneOn(v, name)
    ensures NoneOn(v', name) && i < |v'.t| && v'.t[i].name == path
  {
    hide ContentIn, NoneOn;
    if Find(v.t, path).None? {
      assert forall j :: 0 <= j < |v.t| && j != i ==> SameFile(v.t, v.s, v'.t, v'.s, j);
      StaysNoneOn(v, v', name, i);
    }
  }

  lemma {:induction false} WriteStaysOff(v: State, fd: nat, buffer: seq<Byte>, name: seq<Byte>)
    requires Good(v) && NoneOn(v, name)
    ensures NoneOn(VfsState.Write(v, fd, buffer), name)
  {
    hide Good, ContentIn, Written, VfsState.Write;
    WriteGood(v, fd, buffer);
    var v' := VfsState.Write(v, fd, buffer);
    if WriteStatus(v, fd, buffer).Ok? {
      var i := v.d[fd].inode;
      assert forall j :: 0 <= j < |v.t| && j != i ==> SameFile(v.t, v.s, v'.t, v'.s, j);
      StaysNoneOn(v, v', name, i);
    } else {
      RefusedWrite(v, fd, buffer);
    }
  }

  lemma {:induction false} CloseStaysOff(v: State, fd: nat, name: seq<Byte>)
    requires NoneOn(v, name)
    ensures NoneOn(VfsState.Close(v, fd), name)
  {
  }

  lemma {:induction false} ReadStaysOff(v: State, fd: nat, size: nat, name: seq<Byte>)
    requires NoneOn(v, name)
    ensures NoneOn(VfsState.Read(v, fd, size), name)
  {
    hide ContentIn;
  }

  lemma {:induction false} DeleteStaysOff(v: State, path: seq<Byte>, name: seq<Byte>)
    requires Good(v) && NoneOn(v, name)
    ensures NoneOn(VfsState.Delete(v, path), name)
  {
    hide Good, FindFrom;
    TableLength(v);
    if Find(v.t, path).Some? {
      StaysNoneOn(v, VfsState.Delete(v, path), name, Find(v.t, path).value);
    }
  }

  lemma {:induction false} AppendStaysOff(v: State, path: seq<Byte>, entry: seq<Byte>, name: seq<Byte>)
    requires Good(v) && CString(path) && |path| <= 31 && path != name && NoneOn(v, name)
    ensures NoneOn(VfsLog.Append(v, path, entry), name)
  {
    hide Good, NoneOn, VfsState.Open, VfsState.Write, VfsState.Close, OpenStatus;
    OpenFacts(v, path, FOR_APPEND);
    OpenStaysOff(v, path, FOR_APPEND, name);
    if OpenStatus(v, path, FOR_APPEND).Ok? {
      var v2, fd := VfsState.Open(v, path, FOR_APPEND), FirstClosed(v.d, 0).value;
      WriteStaysOff(v2, fd, entry, name);
      CloseStaysOff(VfsState.Write(v2, fd, entry), fd, name);
    }
  }

  /** A call that names other files puts no descriptor on this one. */
  lemma {:induction false} StaysOff(v: State, r: Request, name: seq<Byte>)
    requires Good(v) && Proper(r) && Elsewhere(r, name) && NoneOn(v, name)
    ensures NoneOn(After(v, r), name)
  {
    hide Good, NoneOn, VfsState.Open, VfsState.Read, VfsState.Write, VfsState.Close, VfsState.Delete, VfsLog.Append;
    match r
    case Open(path, flags) =>
      PathIsName(path);
      OpenStaysOff(v, path, flags, name);
    case Read(fd, size) => ReadStaysOff(v, fd, size, name);
    case Write(fd, buffer) => WriteStaysOff(v, fd, buffer, name);
    case Close(fd) => CloseStaysOff(v, fd, name);
    case Delete(path) =>
      PathIsName(path);
      DeleteStaysOff(v, path, name);
    case Append(path, entry) =>
      PathIsName(path);
      AppendStaysOff(v, path, entry, name);
  }

  /** It changes nothing in it either. */
  lemma {:induction false} ChangesNothing(v: State, r: Request, name: seq<Byte>)
    requires Good(v) && Proper(r) && Elsewhere(r, name) && NoneOn(v, name)
    ensures Mine(Changes(v, r), name) == [] && StoredWhole(v, r)
  {
    hide Good, Mine, Changes, NoneOn;
    match r
    case Read(_, _) => NothingChanged(v, r, name);
    case Close(_) => NothingChanged(v, r, name);
    case Write(fd, buffer) =>
      OffIsNotFile(v, fd, buffer, name);
      WriteLeavesLogIff(v, fd, buffer, name);
    case _ =>
      PathIsName(r.path);
      OtherNamesLeaveLog(v, r, name);
  }

  lemma {:induction false} NothingChanged(v: State, r: Request, name: seq<Byte>)
    requires r.Read? || r.Close?
    ensures Mine(Changes(v, r), name) == []
  {
    NoEdits(None, name);
  }

  lemma {:induction false} OffIsNotFile(v: State, fd: nat, buffer: seq<Byte>, name: seq<Byte>)
    requires NoneOn(v, name)
    ensures WriteStatus(v, fd, buffer).Ok? ==> !IsFile(v.t, v.d[fd].inode, name)
  {
  }

  lemma {:induction false} Unchanged(v: State, r: Request, name: seq<Byte>)
    requires Good(v) && Proper(r) && Elsewhere(r, name) && NoneOn(v, name) && Unique(v.t)
    ensures NoneOn(After(v, r), name) && Unique(After(v, r).t) && Lookup(After(v, r), name) == Lookup(v, name)
  {
    hide Good, NoneOn, Mine, Changes, Unique, After, Lookup, Run;
    StaysOff(v, r, name);
    ChangesNothing(v, r, name);
    CallRuns(v, r);
    IndependentFiles(v, After(v, r), Changes(v, r), name);
    NoEdits(Lookup(v, name), name);
  }

  /** Whatever is opened, written, truncated, appended to or deleted through other paths, in any order, what is read
      through `path` is what would have been read before. */
  lemma {:induction false} PathsAreSeparate(v: State, rs: seq<Request>, path: seq<Byte>, n: nat)
    requires Good(v) && Unique(v.t) && AllProper(rs) && CString(path) && (path == [] || path[0] != 0x2F)
    requires forall k {:trigger rs[k]} :: 0 <= k < |rs| ==> Elsewhere(rs[k], path)
    requires NoneOn(v, path)
    requires exists e :: 0 <= e < |v.d| && !v.d[e].isOpen
    requires exists e :: 0 <= e < |AfterAll(v, rs).d| && !AfterAll(v, rs).d[e].isOpen
    ensures ReadBack(AfterAll(v, rs), path, n) == ReadBack(v, path, n)
  {
    hide Good, Unique, Lookup, ReadBack, AfterAll, NoneOn;
    ReadBackIsContent(v, path, n);
    ReadBackIsContent(AfterAll(v, rs), path, n);
    SeparateContent(v, rs, path);
  }

  lemma {:induction false} SeparateContent(v: State, rs: seq<Request>, name: seq<Byte>)
    requires Good(v) && Unique(v.t) && AllProper(rs) && NoneOn(v, name)
    requires forall k {:trigger rs[k]} :: 0 <= k < |rs| ==> Elsewhere(rs[k], name)
    ensures var v' := AfterAll(v, rs); NoneOn(v', name) && Unique(v'.t) && Lookup(v', name) == Lookup(v, name)
    decreases |rs|
  {
    hide Good, Unique, Lookup, NoneOn, Elsewhere, After, Proper;
    if rs != [] {
      var front, last := rs[..|rs| - 1], rs[|rs| - 1];
      SeparateContent(v, front, name);
      Unchanged(AfterAll(v, front), last, name);
    }
  }

  // ----- newly formatted flash

  /** Flash without the file system's magic number. */
  predicate Blank(s: Sectors) {
    && |s| == 64 && (forall k {:trigger s[k]} :: 0 <= k < 64 ==> |s[k]| == 4096)
    && s[0][..4] != [0x53, 0x46, 0x53, 0x4F]
  }

  lemma {:induction false} BlankIsFormatted(s: Sectors)
    requires Blank(s)
    ensures Sized(s) && WordAt(s[0], 0) != BLOCK_MAGIC
  {
    var w := s[0][..4];
    assert w == [s[0][0], s[0][1], s[0][2], s[0][3]];
    if WordAt(s[0], 0) == BLOCK_MAGIC {
      Digits(s[0][0], s[0][1], s[0][2], s[0][3]);
    }
  }

  lemma {:induction false} Digits(a: Byte, b: Byte, c: Byte, d: Byte)
    requires a as int + 256 * b as int + 65536 * c as int + 16777216 * d as int == 0x4F534653
    ensures a == 0x53 && b == 0x46 && c == 0x53 && d == 0x4F
  {
  }

  /** The names and the text that are seeded, byte by byte. */
  lemma {:induction false} SeededNames()
    ensures MacroName() == [0x6D, 0x61, 0x63, 0x72, 0x6F, 0x2E, 0x74, 0x78, 0x74]
    ensures AuditName() == [0x77, 0x69, 0x66, 0x69, 0x5F, 0x61, 0x75, 0x64, 0x69, 0x74, 0x2E, 0x6C, 0x6F, 0x67]
  {
  }

  lemma {:induction false} FirstLine()
    ensures Ascii("STRING Hello MicroKernel\n") ==
            [83, 84, 82, 73, 78, 71, 32, 72, 101, 108, 108, 111, 32, 77, 105, 99, 114, 111, 75, 101, 114, 110, 101,
             108, 10]
  {
  }

  lemma {:induction false} OtherLines()
    ensures Ascii("DELAY 200\n") == [68, 69, 76, 65, 89, 32, 50, 48, 48, 10]
    ensures Ascii("ENTER\n") == [69, 78, 84, 69, 82, 10]
  {
  }

  lemma {:induction false} SeededText()
    ensures MacroText() ==
            [83, 84, 82, 73, 78, 71, 32, 72, 101, 108, 108, 111, 32, 77, 105, 99, 114, 111, 75, 101, 114, 110, 101,
             108, 10, 68, 69, 76, 65, 89, 32, 50, 48, 48, 10, 69, 78, 84, 69, 82, 10]
  {
    hide Ascii;
    FirstLine();
    OtherLines();
  }

  lemma {:induction false} FreshContent(s: Sectors, path: seq<Byte>)
    requires Sized(s) && WordAt(s[0], 0) != BLOCK_MAGIC
    ensures Unique(Mount(s).t)
    ensures Lookup(Mount(s), path) ==
            if path == MacroName() then Some(MacroText()) else if path == AuditName() then Some([]) else None
  {
    hide MacroName, MacroText, AuditName, Image, Erased, Overwrite, ContentIn, Sound;
    var v := Mount(s);
    DefaultsSound(v.t, s);
    Found(v.t, path);
    if path == v.t[0].name {
      FileFirst(v.t, path, 0);
    } else if path == v.t[1].name {
      FileFirst(v.t, path, 1);
    }
  }

  /** On newly formatted flash the macro file and the audit log can be opened, with and without a slash. The macro file
      reads back as the text it is seeded with, the log as empty, and nothing else is there. */
  lemma {:induction false} FreshFlash(s: Sectors, path: seq<Byte>, n: nat)
    requires Blank(s) && CString(path) && (path == [] || path[0] != 0x2F)
    ensures Sized(s) && Good(Mount(s)) && Unique(Mount(s).t)
    ensures ReadBack(Mount(s), path, n) ==
            var macro: seq<Byte> :=
              [83, 84, 82, 73, 78, 71, 32, 72, 101, 108, 108, 111, 32, 77, 105, 99, 114, 111, 75, 101, 114, 110, 101,
               108, 10, 68, 69, 76, 65, 89, 32, 50, 48, 48, 10, 69, 78, 84, 69, 82, 10];
            if path == [0x6D, 0x61, 0x63, 0x72, 0x6F, 0x2E, 0x74, 0x78, 0x74]
            then Some(if n < 41 then macro[..n] else macro)
            else if path == [0x77, 0x69, 0x66, 0x69, 0x5F, 0x61, 0x75, 0x64, 0x69, 0x74, 0x2E, 0x6C, 0x6F, 0x67]
            then Some([]) else None
  {
    hide Good, Unique, Mount, Lookup, ReadBack, Blank;
    BlankIsFormatted(s);
    MountGood(s);
    FreshContent(s, path);
    SeededNames();
    SeededText();
    hide MacroName, MacroText, AuditName;
    TableLength(Mount(s));
    assert !Mount(s).d[0].isOpen;
    ReadBackIsContent(Mount(s), path, n);
  }
}
