/** The append-only log: sequences of file system calls under one name. */
module VfsLog {
  import opened Bytes
  import opened Flash
  import opened VfsTable
  import opened VfsState
  import opened Vfs
  import opened VfsFiles
  import opened VfsRuns

  const FOR_APPEND: nat := CREAT + WRONLY + APPEND
  const FOR_CLEAR: nat := CREAT + WRONLY + TRUNC

  /** The name can be created without hiding another file: it is stored whole, or nothing has the name it is cut to. */
  predicate Whole(v: State, name: seq<Byte>) {
    |name| < NAME_LEN || Find(v.t, VfsTable.Stored(name)).None?
  }

  // ----- the changes that calls make

  /** Opening creates a file if it has to, and truncates it if it is asked to and there is a descriptor. */
  function Opening(v: State, name: seq<Byte>, flags: nat): seq<Change> {
    var stored := VfsTable.Stored(name);
    (if EntryStatus(v, name, flags).Ok? && Find(v.t, name).None? then [Change(stored, Create)] else [])
    + (if OpenStatus(v, name, flags).Ok? && Has(flags, TRUNC) then [Change(stored, Clear)] else [])
  }

  /** Writing changes the file that the descriptor is open on, unless that has been deleted. */
  function Writing(v: State, fd: nat, buffer: seq<Byte>): seq<Change> {
    if WriteStatus(v, fd, buffer).Ok? && v.d[fd].inode < |v.t| && v.t[v.d[fd].inode].inUse
    then [Change(v.t[v.d[fd].inode].name, Put(v.d[fd].cursor, buffer))] else []
  }

  /** What the log holds, empty if there is none yet. */
  function LogContent(v: State, name: seq<Byte>): seq<Byte> {
    var c := Lookup(v, name);
    if c.Some? then c.value else []
  }

  function AppendStatus(v: State, name: seq<Byte>, entry: seq<Byte>): Status {
    if !OpenStatus(v, name, FOR_APPEND).Ok? then OpenStatus(v, name, FOR_APPEND)
    else if |LogContent(v, name)| + |entry| > SECTOR_SIZE then NoMemory else Ok
  }

  function Appending(v: State, name: seq<Byte>, entry: seq<Byte>): seq<Change> {
    Opening(v, name, FOR_APPEND)
    + if AppendStatus(v, name, entry).Ok?
      then [Change(VfsTable.Stored(name), Put(|LogContent(v, name)|, entry))] else []
  }

  /** Opening for appending, writing the entry, and closing. */
  function Append(v: State, name: seq<Byte>, entry: seq<Byte>): State
    requires Good(v) && CString(name)
  {
    OpenFacts(v, name, FOR_APPEND);
    var v2 := VfsState.Open(v, name, FOR_APPEND);
    if !OpenStatus(v, name, FOR_APPEND).Ok? then v2
    else
      var fd := FirstClosed(v.d, 0).value;
      VfsState.Close(VfsState.Write(v2, fd, entry), fd)
  }

  /** Opening, and closing again. */
  function Touched(v: State, name: seq<Byte>, flags: nat): State
    requires Good(v) && CString(name) && flags < WORD32
  {
    OpenFacts(v, name, flags);
    var v2 := VfsState.Open(v, name, flags);
    if OpenStatus(v, name, flags).Ok? then VfsState.Close(v2, FirstClosed(v.d, 0).value) else v2
  }

  lemma {:induction false} FoundIsShort(v: State, name: seq<Byte>)
    requires Good(v) && Find(v.t, name).Some?
    ensures |name| < NAME_LEN
  {
    assert GoodInode(v.t, Find(v.t, name).value);
  }

  /** Looking up or creating a file is no change, or its creation. */
  lemma {:induction false} EnteringRuns(v: State, v': State, name: seq<Byte>, i: nat)
    requires Entered(v, v', name, i) && Whole(v, name)
    ensures Run(v, v', if Find(v.t, name).None? then [Change(VfsTable.Stored(name), Create)] else [])
  {
    var c := Change(VfsTable.Stored(name), Create);
    if Find(v.t, name).None? {
      OnlyFileAlike(v, v', i);
      OneChange(v, v', c, i);
    } else {
      NothingSeen(v, v');
    }
  }

  lemma {:induction false} AttachingRuns(v: State, v': State, name: seq<Byte>, fd: nat, i: nat, flags: nat)
    requires Attached(v, v', fd, i, flags) && IsFile(v.t, i, name)
    ensures Run(v, v', if Has(flags, TRUNC) then [Change(name, Clear)] else [])
  {
    var c := Change(name, Clear);
    if Has(flags, TRUNC) {
      OnlyFileAlike(v, v', i);
      OneChange(v, v', c, i);
    } else {
      NothingSeen(v, v');
    }
  }

  /** Opening is the run of changes of an opening. */
  lemma {:induction false} OpenRuns(v: State, name: seq<Byte>, flags: nat)
    requires Good(v) && CString(name) && flags < WORD32 && Whole(v, name)
    ensures Run(v, VfsState.Open(v, name, flags), Opening(v, name, flags))
  {
    hide Find, AllOpen, AllInUse, Run, Good, Entered, Attached, EntryStatus;
    var stored, status, i := VfsTable.Stored(name), OpenStatus(v, name, flags), Entry(v, name);
    var v1, v2 := Enter(v, name, flags), VfsState.Open(v, name, flags);
    OpenFacts(v, name, flags);
    if Find(v.t, name).Some? {
      FoundIsShort(v, name);
    }
    var create := if Find(v.t, name).None? then [Change(stored, Create)] else [];
    if status.Ok? {
      EnteredIsFile(v, v1, name, i);
      EnteringRuns(v, v1, name, i);
      AttachingRuns(v1, v2, stored, FirstClosed(v.d, 0).value, i, flags);
      RunConcat(v, v1, v2, create, if Has(flags, TRUNC) then [Change(stored, Clear)] else []);
    } else if status.Busy? {
      NotBusy(v, name, flags);
      EnteringRuns(v, v2, name, i);
      assert create + [] == create;
    } else {
      NotBusy(v, name, flags);
      assert Opening(v, name, flags) == [];
      NothingSeen(v, v);
    }
  }

  lemma {:induction false} NotBusy(v: State, name: seq<Byte>, flags: nat)
    ensures EntryStatus(v, name, flags) in {Status.Ok, NotFound, NoMemory}
  {
  }

  lemma {:induction false} EnteredIsFile(v: State, v': State, name: seq<Byte>, i: nat)
    requires Entered(v, v', name, i) && (Find(v.t, name).Some? ==> |name| < NAME_LEN)
    ensures IsFile(v'.t, i, VfsTable.Stored(name))
  {
  }

  /** Writing is the run of changes of a writing: none if it is refused or the descriptor's file has been deleted. */
  lemma {:induction false} WriteRuns(v: State, fd: nat, buffer: seq<Byte>)
    requires Good(v)
    ensures Run(v, VfsState.Write(v, fd, buffer), Writing(v, fd, buffer))
  {
    hide Good;
    WriteGood(v, fd, buffer);
    if WriteStatus(v, fd, buffer).Ok? {
      WroteRuns(v, VfsState.Write(v, fd, buffer), fd, buffer);
    } else {
      NothingSeen(v, v);
    }
  }

  lemma {:induction false} WroteRuns(v: State, v': State, fd: nat, buffer: seq<Byte>)
    requires WriteStatus(v, fd, buffer).Ok? && WroteAt(v, v', fd, buffer)
    ensures Run(v, v', Writing(v, fd, buffer))
  {
    var i, cs := v.d[fd].inode, Writing(v, fd, buffer);
    OnlyFileAlike(v, v', i);
    if v.t[i].inUse {
      OneChange(v, v', cs[0], i);
    } else {
      forall j | 0 <= j < |v.t|
        ensures Alike(v, v', j)
      {
      }
    }
  }

  /** Opening for appending puts the lowest free descriptor at the end of the log. */
  lemma {:induction false} OpenedAtEnd(v: State, name: seq<Byte>)
    requires Good(v) && CString(name) && OpenStatus(v, name, FOR_APPEND).Ok?
    ensures var v2 := VfsState.Open(v, name, FOR_APPEND);
            && Good(v2) && FirstClosed(v.d, 0).Some?
            && var fd := FirstClosed(v.d, 0).value;
            && fd < |v.d| && v2.d == v.d[fd := v2.d[fd]] && IsFile(v2.t, v2.d[fd].inode, VfsTable.Stored(name))
            && v2.d[fd] == Descriptor(v2.d[fd].inode, |LogContent(v, name)|, FOR_APPEND, true)
  {
    hide Good;
    OpenFacts(v, name, FOR_APPEND);
    if Find(v.t, name).Some? {
      FoundIsShort(v, name);
    }
    EnteredIsFile(v, Enter(v, name, FOR_APPEND), name, Entry(v, name));
  }

  /** The write of an append has the status of the append. */
  lemma {:induction false} AppendWriteStatus(v: State, name: seq<Byte>, entry: seq<Byte>)
    requires Good(v) && CString(name) && OpenStatus(v, name, FOR_APPEND).Ok?
    ensures var v2, fd := VfsState.Open(v, name, FOR_APPEND), FirstClosed(v.d, 0).value;
            WriteStatus(v2, fd, entry) == AppendStatus(v, name, entry)
            && Writing(v2, fd, entry) == if AppendStatus(v, name, entry).Ok?
               then [Change(VfsTable.Stored(name), Put(|LogContent(v, name)|, entry))] else []
  {
    hide Good, LogContent, OpenStatus, VfsState.Open;
    OpenedAtEnd(v, name);
  }

  /** An append is the run of its changes, and leaves all descriptors as they were. */
  lemma {:induction false} AppendFacts(v: State, name: seq<Byte>, entry: seq<Byte>)
    requires Good(v) && CString(name)
    ensures Good(Append(v, name, entry)) && SameOpen(v.d, Append(v, name, entry).d)
    ensures Whole(v, name) ==> Run(v, Append(v, name, entry), Appending(v, name, entry))
  {
    hide Good, Run, Writing, Opening, OpenStatus, VfsState.Open, VfsState.Write, SameOpen, WriteStatus;
    var v2 := VfsState.Open(v, name, FOR_APPEND);
    OpenFacts(v, name, FOR_APPEND);
    if Whole(v, name) {
      OpenRuns(v, name, FOR_APPEND);
    }
    if OpenStatus(v, name, FOR_APPEND).Ok? {
      OpenedAtEnd(v, name);
      AppendWriteStatus(v, name, entry);
      var fd := FirstClosed(v.d, 0).value;
      var v3 := VfsState.Write(v2, fd, entry);
      WriteGood(v2, fd, entry);
      WriteKeepsDescriptors(v2, fd, entry);
      ClosedAgain(v.d, v2.d, v3.d, fd);
      CloseGood(v3, fd);
      WriteRuns(v2, fd, entry);
      NothingSeen(v3, VfsState.Close(v3, fd));
      RunThenNothing(v2, v3, VfsState.Close(v3, fd), Writing(v2, fd, entry));
      if Whole(v, name) {
        RunConcat(v, v2, VfsState.Close(v3, fd), Opening(v, name, FOR_APPEND), Writing(v2, fd, entry));
      }
    } else {
      OpenKeepsDescriptors(v, name, FOR_APPEND);
      SameOpenRefl(v.d);
      NotOkNorPut(v, name, entry);
    }
  }

  lemma {:induction false} NotOkNorPut(v: State, name: seq<Byte>, entry: seq<Byte>)
    requires !OpenStatus(v, name, FOR_APPEND).Ok?
    ensures Appending(v, name, entry) == Opening(v, name, FOR_APPEND)
  {
    hide OpenStatus, Opening, LogContent;
    assert Opening(v, name, FOR_APPEND) + [] == Opening(v, name, FOR_APPEND);
  }

  lemma {:induction false} SameOpenRefl(d: seq<Descriptor>)
    ensures SameOpen(d, d)
  {
  }

  lemma {:induction false} ClosedAgain(d: seq<Descriptor>, d2: seq<Descriptor>, d3: seq<Descriptor>, fd: nat)
    requires fd < |d| && !d[fd].isOpen && |d2| == |d| && d2 == d[fd := d2[fd]] && d2[fd].isOpen
    requires |d3| == |d| && d3 == d2[fd := d3[fd]] && d3[fd].isOpen
    ensures SameOpen(d, d3[fd := d3[fd].(isOpen := false)])
  {
  }

  /** The open descriptors are the same, and where they stand. */
  predicate SameOpen(d: seq<Descriptor>, d': seq<Descriptor>) {
    |d| == |d'| && forall e {:trigger d[e]} {:trigger d'[e]} :: 0 <= e < |d| ==>
      d'[e].isOpen == d[e].isOpen && (d[e].isOpen ==> d'[e] == d[e])
  }

  lemma {:induction false} WriteKeepsDescriptors(v: State, fd: nat, buffer: seq<Byte>)
    requires Good(v) && fd < |v.d| && v.d[fd].isOpen
    ensures var d' := VfsState.Write(v, fd, buffer).d;
            |d'| == |v.d| && d' == v.d[fd := d'[fd]] && d'[fd].isOpen
  {
    hide Good, VfsState.Write;
    WriteGood(v, fd, buffer);
    if !WriteStatus(v, fd, buffer).Ok? {
      RefusedWrite(v, fd, buffer);
    }
  }

  lemma {:induction false} RefusedWrite(v: State, fd: nat, buffer: seq<Byte>)
    requires Good(v) && !WriteStatus(v, fd, buffer).Ok?
    ensures VfsState.Write(v, fd, buffer) == v
  {
  }

  lemma {:induction false} OpenKeepsDescriptors(v: State, name: seq<Byte>, flags: nat)
    requires Good(v) && CString(name) && flags < WORD32 && !OpenStatus(v, name, flags).Ok?
    ensures VfsState.Open(v, name, flags).d == v.d
  {
  }

  lemma {:induction false} RunThenNothing(v: State, w: State, v': State, cs: seq<Change>)
    requires Run(v, w, cs) && Run(w, v', [])
    ensures Run(v, v', cs)
  {
    hide Run;
    RunConcat(v, w, v', cs, []);
    assert cs + [] == cs;
  }

  /** Opening and closing again is the run of changes of an opening, and leaves all descriptors as they were. */
  lemma {:induction false} TouchFacts(v: State, name: seq<Byte>, flags: nat)
    requires Good(v) && CString(name) && flags < WORD32
    ensures Good(Touched(v, name, flags))
    ensures Whole(v, name) ==> Run(v, Touched(v, name, flags), Opening(v, name, flags))
    ensures SameOpen(v.d, Touched(v, name, flags).d)
  {
    hide Good, Run, EntryStatus, Find, AllOpen, Entered, Whole, Opening, VfsState.Open;
    var v2, v' := VfsState.Open(v, name, flags), Touched(v, name, flags);
    OpenFacts(v, name, flags);
    if OpenStatus(v, name, flags).Ok? {
      CloseGood(v2, FirstClosed(v.d, 0).value);
    } else {
      OpenKeepsDescriptors(v, name, flags);
    }
    NothingSeen(v2, v');
    if Whole(v, name) {
      OpenRuns(v, name, flags);
      RunThenNothing(v, v2, v', Opening(v, name, flags));
    }
  }

  // ----- the code

  /** The effect of one call on the log, under a name that can be stored whole. */
  ghost predicate Logged(v: State, v': State, name: seq<Byte>, added: seq<Byte>) {
    Unique(v.t) && |name| < NAME_LEN ==>
      && Unique(v'.t) && LogContent(v', name) == LogContent(v, name) + added
      && forall other {:trigger Lookup(v', other)} :: other != name ==> Lookup(v', other) == Lookup(v, other)
  }

  /** Appends an entry to the log, creating it if need be. Under a whole, unique name the log gains exactly the entry,
      or on any failure nothing; no other file changes, and no descriptor stays open. */
  method LogAppend(fs: Vfs, path: seq<Byte>, entry: seq<Byte>) returns (status: Status)
    requires fs.Valid() && CString(path)
    modifies fs, fs.flash.sectors, fs.crc, fs.crc.words, fs.inodes, fs.files
    ensures fs.Valid() && fs.view == Append(old(fs.view), StripSlash(path), entry)
    ensures status == AppendStatus(old(fs.view), StripSlash(path), entry)
    ensures Logged(old(fs.view), fs.view, StripSlash(path), if status.Ok? then entry else [])
    ensures SameOpen(old(fs.view).d, fs.view.d)
  {
    hide Good, Run, Unique, Logged, SameOpen, LogContent;
    ghost var v, name := fs.view, StripSlash(path);
    StripKeepsCString(path);
    AppendFacts(v, name, entry);
    if OpenStatus(v, name, FOR_APPEND).Ok? {
      AppendWriteStatus(v, name, entry);
    }
    AppendLogged(v, Append(v, name, entry), name, entry);
    var fd: nat;
    status, fd := fs.Open(path, CREAT + WRONLY + APPEND);
    if status != Ok {
      return;
    }
    status := fs.Write(fd, entry);
    var closed := fs.Close(fd);
  }

  /** An append under a name that is stored whole edits only that name. */
  lemma {:induction false} EditsOfAppend(v: State, name: seq<Byte>, entry: seq<Byte>, n: seq<Byte>)
    requires |name| < NAME_LEN
    ensures ApplyAll(Lookup(v, n), Mine(Appending(v, name, entry), n)) ==
            if n != name then Lookup(v, n)
            else if AppendStatus(v, name, entry).Ok? then Some(LogContent(v, name) + entry)
            else if EntryStatus(v, name, FOR_APPEND).Ok? then Some(LogContent(v, name))
            else Lookup(v, name)
  {
    hide ContentIn, Written, FindFrom, AllOpen, AllInUse, ApplyAll, Mine;
    var content := LogContent(v, name);
    var opening, put := Opening(v, name, FOR_APPEND), Change(name, Put(|content|, entry));
    var create := Change(name, Create);
    assert opening == [] || opening == [create];
    MineOfOne(create, n);
    MineOfOne(put, n);
    NoEdits(Lookup(v, n), n);
    ApplyOne(Lookup(v, n), Create);
    ApplyOne(Some(content), put.edit);
    MineConcat(opening, [put], n);
    ApplyConcat(Lookup(v, n), Mine(opening, n), Mine([put], n));
    WriteToEnd(content, |content|, entry);
    assert opening + [] == opening;
  }

  lemma {:induction false} NoEdits(content: Option<seq<Byte>>, name: seq<Byte>)
    ensures Mine([], name) == [] && ApplyAll(content, []) == content
  {
  }

  /** A run of the changes that an append makes adds the entry to the log, or nothing if it fails. */
  lemma {:induction false} AppendLogged(v: State, v': State, name: seq<Byte>, entry: seq<Byte>)
    requires Whole(v, name) ==> Run(v, v', Appending(v, name, entry))
    ensures Logged(v, v', name, if AppendStatus(v, name, entry).Ok? then entry else [])
  {
    hide Run, OpenStatus, AppendStatus, Unique, Find;
    if Unique(v.t) && |name| < NAME_LEN {
      var cs := Appending(v, name, entry);
      EditsOfAppend(v, name, entry, name);
      IndependentFiles(v, v', cs, name);
      forall other | other != name
        ensures Lookup(v', other) == Lookup(v, other)
      {
        EditsOfAppend(v, name, entry, other);
        IndependentFiles(v, v', cs, other);
      }
    }
  }

  // ----- creating and clearing the log

  /** Opens the log and closes it again. */
  method Touch(fs: Vfs, path: seq<Byte>, flags: nat) returns (status: Status)
    requires fs.Valid() && CString(path) && flags < WORD32
    modifies fs, fs.flash.sectors, fs.crc, fs.crc.words, fs.inodes, fs.files
    ensures fs.Valid() && fs.view == Touched(old(fs.view), StripSlash(path), flags)
    ensures status == OpenStatus(old(fs.view), StripSlash(path), flags)
  {
    hide Good;
    StripKeepsCString(path);
    var fd: nat;
    status, fd := fs.Open(path, flags);
    if status.Ok? {
      var closed := fs.Close(fd);
    }
  }

  /** Creates the log if there is none; an existing one, and every other file, stays as it is. */
  method LogInit(fs: Vfs, path: seq<Byte>) returns (status: Status)
    requires fs.Valid() && CString(path)
    modifies fs, fs.flash.sectors, fs.crc, fs.crc.words, fs.inodes, fs.files
    ensures fs.Valid() && status == OpenStatus(old(fs.view), StripSlash(path), CREAT + WRONLY)
    ensures Logged(old(fs.view), fs.view, StripSlash(path), []) && SameOpen(old(fs.view).d, fs.view.d)
    ensures status.Ok? && Unique(old(fs.view).t) && |StripSlash(path)| < NAME_LEN ==>
            Lookup(fs.view, StripSlash(path)).Some?
  {
    hide Run, Opening, EntryStatus, Good, Unique, Lookup, SameOpen, Touched, Whole;
    status := Touch(fs, path, CREAT + WRONLY);
    StripKeepsCString(path);
    TouchFacts(old(fs.view), StripSlash(path), CREAT + WRONLY);
    OpeningEdits(old(fs.view), fs.view, StripSlash(path), CREAT + WRONLY);
  }

  /** Empties the log; every other file stays as it is. */
  method LogClear(fs: Vfs, path: seq<Byte>) returns (status: Status)
    requires fs.Valid() && CString(path)
    modifies fs, fs.flash.sectors, fs.crc, fs.crc.words, fs.inodes, fs.files
    ensures fs.Valid() && status == OpenStatus(old(fs.view), StripSlash(path), FOR_CLEAR)
    ensures SameOpen(old(fs.view).d, fs.view.d)
    ensures var v, name := old(fs.view), StripSlash(path);
            Unique(v.t) && |name| < NAME_LEN ==>
              && Unique(fs.view.t) && LogContent(fs.view, name) == (if status.Ok? then [] else LogContent(v, name))
              && forall other {:trigger Lookup(fs.view, other)} :: other != name ==>
                 Lookup(fs.view, other) == Lookup(v, other)
  {
    hide Run, Opening, EntryStatus, Good, Unique, Lookup, SameOpen, Touched, Whole;
    status := Touch(fs, path, CREAT + WRONLY + TRUNC);
    StripKeepsCString(path);
    TouchFacts(old(fs.view), StripSlash(path), FOR_CLEAR);
    OpeningEdits(old(fs.view), fs.view, StripSlash(path), FOR_CLEAR);
  }

  /** What opening a file does to it: it exists afterwards, empty if it was truncated. */
  lemma {:induction false} OpeningEdits(v: State, v': State, name: seq<Byte>, flags: nat)
    requires Whole(v, name) ==> Run(v, v', Opening(v, name, flags))
    requires Has(flags, CREAT)
    ensures Unique(v.t) && |name| < NAME_LEN ==>
              && Unique(v'.t)
              && Lookup(v', name) == (if EntryStatus(v, name, flags) != Ok then Lookup(v, name)
                                      else if OpenStatus(v, name, flags).Ok? && Has(flags, TRUNC) then Some([])
                                      else Some(LogContent(v, name)))
              && forall other {:trigger Lookup(v', other)} :: other != name ==> Lookup(v', other) == Lookup(v, other)
  {
    hide Run, Unique, ContentIn, FindFrom, AllOpen, AllInUse;
    if Unique(v.t) && |name| < NAME_LEN {
      forall n
        ensures Unique(v'.t) && Lookup(v', n) == ApplyAll(Lookup(v, n), Mine(Opening(v, name, flags), n))
      {
        IndependentFiles(v, v', Opening(v, name, flags), n);
      }
      IndependentFiles(v, v', Opening(v, name, flags), name);
      forall n
        ensures ApplyAll(Lookup(v, n), Mine(Opening(v, name, flags), n)) ==
                if n != name || EntryStatus(v, name, flags) != Ok then Lookup(v, n)
                else if OpenStatus(v, name, flags).Ok? && Has(flags, TRUNC) then Some([])
                else Some(LogContent(v, name))
      {
        EditsOfOpening(v, name, flags, n);
      }
    }
  }

  lemma {:induction false} EditsOfOpening(v: State, name: seq<Byte>, flags: nat, n: seq<Byte>)
    requires |name| < NAME_LEN
    ensures ApplyAll(Lookup(v, n), Mine(Opening(v, name, flags), n)) ==
            if n != name || EntryStatus(v, name, flags) != Ok then Lookup(v, n)
            else if OpenStatus(v, name, flags).Ok? && Has(flags, TRUNC) then Some([])
            else Some(LogContent(v, name))
  {
    hide ContentIn, FindFrom, AllOpen, AllInUse, ApplyAll, Mine;
    var content, create, clear := Lookup(v, n), Change(name, Create), Change(name, Clear);
    MineOfOne(create, n);
    MineOfOne(clear, n);
    NoEdits(content, n);
    ApplyOne(content, Create);
    ApplyOne(content, Clear);
    MineConcat([create], [clear], n);
    ApplyConcat(content, Mine([create], n), Mine([clear], n));
    ApplyOne(Some([]), Clear);
    if Opening(v, name, flags) != [create] + [clear] {
      assert [create] + [] == [create] && [] + [clear] == [clear];
    }
  }
}
