/** Lists of calls of the file system's interface: what the code does is a function of the state before. */
module VfsCalls {
  import opened Bytes
  import opened Flash
  import opened VfsTable
  import opened VfsState
  import opened VfsFiles
  import opened VfsRuns
  import opened VfsLog
  import Vfs

  datatype Request =
    | Open(path: seq<Byte>, flags: nat)
    | Read(fd: nat, size: nat)
    | Write(fd: nat, buffer: seq<Byte>)
    | Close(fd: nat)
    | Delete(path: seq<Byte>)
    | Append(path: seq<Byte>, entry: seq<Byte>)

  /** Paths are C strings and flags are 32 bits wide. */
  predicate Proper(r: Request) {
    match r
    case Open(path, flags) => CString(path) && flags < WORD32
    case Delete(path) => CString(path)
    case Append(path, _) => CString(path)
    case _ => true
  }

  // ----- one call

  function StatusOf(v: State, r: Request): Status {
    match r
    case Open(path, flags) => OpenStatus(v, StripSlash(path), flags)
    case Read(fd, _) => ReadStatus(v, fd)
    case Write(fd, buffer) => WriteStatus(v, fd, buffer)
    case Close(fd) => CloseStatus(v, fd)
    case Delete(path) => DeleteStatus(v, StripSlash(path))
    case Append(path, entry) => AppendStatus(v, StripSlash(path), entry)
  }

  /** Table, sectors and descriptors after a call. */
  function After(v: State, r: Request): (v': State)
    requires Good(v) && Proper(r)
    ensures Good(v')
  {
    AfterGood(v, r);
    Step(v, r)
  }

  function Step(v: State, r: Request): State
    requires Good(v) && Proper(r)
  {
    match r
    case Open(path, flags) => StripKeepsCString(path); VfsState.Open(v, StripSlash(path), flags)
    case Read(fd, size) => VfsState.Read(v, fd, size)
    case Write(fd, buffer) => VfsState.Write(v, fd, buffer)
    case Close(fd) => VfsState.Close(v, fd)
    case Delete(path) => VfsState.Delete(v, StripSlash(path))
    case Append(path, entry) => StripKeepsCString(path); VfsLog.Append(v, StripSlash(path), entry)
  }

  lemma {:induction false} AfterGood(v: State, r: Request)
    requires Good(v) && Proper(r)
    ensures Good(Step(v, r))
  {
    hide Good;
    match r
    case Open(path, flags) =>
      StripKeepsCString(path);
      OpenFacts(v, StripSlash(path), flags);
    case Read(fd, size) => ReadGood(v, fd, size);
    case Write(fd, buffer) => WriteGood(v, fd, buffer);
    case Close(fd) => CloseGood(v, fd);
    case Delete(path) => DeleteGood(v, StripSlash(path));
    case Append(path, entry) =>
      StripKeepsCString(path);
      AppendFacts(v, StripSlash(path), entry);
  }

  /** Carries out one call: status, data, descriptor and the state behind it are functions of the state before. */
  method Perform(fs: Vfs.Vfs, r: Request) returns (status: Status, data: seq<Byte>, fd: nat)
    requires fs.Valid() && Proper(r)
    modifies fs, fs.flash.sectors, fs.crc, fs.crc.words, fs.inodes, fs.files
    ensures fs.Valid() && fs.view == After(old(fs.view), r) && status == StatusOf(old(fs.view), r)
    ensures r.Open? && status.Ok? ==> FirstClosed(old(fs.view).d, 0) == Some(fd)
    ensures data == if r.Read? then ReadData(old(fs.view), r.fd, r.size) else []
  {
    hide Good;
    data, fd := [], 0;
    match r
    case Open(path, flags) =>
      status, fd := fs.Open(path, flags);
    case Read(from, size) =>
      status, data := fs.Read(from, size);
    case Write(to, buffer) =>
      status := fs.Write(to, buffer);
    case Close(which) =>
      status := fs.Close(which);
    case Delete(path) =>
      status := fs.Delete(path);
    case Append(path, entry) =>
      status := LogAppend(fs, path, entry);
  }

  /** The changes that a call makes, in their order. */
  function Changes(v: State, r: Request): seq<Change> {
    match r
    case Open(path, flags) => Opening(v, StripSlash(path), flags)
    case Read(_, _) => []
    case Write(fd, buffer) => Writing(v, fd, buffer)
    case Close(_) => []
    case Delete(path) => if Find(v.t, StripSlash(path)).Some? then [Change(StripSlash(path), Remove)] else []
    case Append(path, entry) => Appending(v, StripSlash(path), entry)
  }

  /** The call creates no file whose stored name another file has. */
  predicate StoredWhole(v: State, r: Request) {
    match r
    case Open(path, flags) => Whole(v, StripSlash(path))
    case Append(path, _) => Whole(v, StripSlash(path))
    case _ => true
  }

  /** Every call is the run of its changes. */
  lemma {:induction false} CallRuns(v: State, r: Request)
    requires Good(v) && Proper(r) && StoredWhole(v, r)
    ensures Run(v, After(v, r), Changes(v, r))
  {
    hide Good, Run, Whole, Opening, Writing, Appending;
    match r
    case Open(path, flags) =>
      StripKeepsCString(path);
      OpenRuns(v, StripSlash(path), flags);
    case Read(fd, size) => NothingSeen(v, After(v, r));
    case Write(fd, buffer) => WriteRuns(v, fd, buffer);
    case Close(fd) => NothingSeen(v, After(v, r));
    case Delete(path) => DeleteRuns(v, StripSlash(path));
    case Append(path, entry) =>
      StripKeepsCString(path);
      AppendFacts(v, StripSlash(path), entry);
  }

  lemma {:induction false} DeleteRuns(v: State, name: seq<Byte>)
    requires Good(v)
    ensures Run(v, VfsState.Delete(v, name), if Find(v.t, name).Some? then [Change(name, Remove)] else [])
  {
    var v' := VfsState.Delete(v, name);
    DeleteGood(v, name);
    if Find(v.t, name).Some? {
      var i := Find(v.t, name).value;
      OnlyFileAlike(v, v', i);
      OneChange(v, v', Change(name, Remove), i);
    } else {
      NothingSeen(v, v');
    }
  }

  // ----- lists of calls

  predicate AllProper(rs: seq<Request>) {
    forall k {:trigger rs[k]} :: 0 <= k < |rs| ==> Proper(rs[k])
  }

  /** The state after a list of calls. */
  function AfterAll(v: State, rs: seq<Request>): (v': State)
    requires Good(v) && AllProper(rs)
    ensures Good(v')
    decreases |rs|
  {
    if rs == [] then v else After(AfterAll(v, rs[..|rs| - 1]), rs[|rs| - 1])
  }

  /** What the code does over any list of calls. */
  method PerformAll(fs: Vfs.Vfs, rs: seq<Request>) returns (statuses: seq<Status>)
    requires fs.Valid() && AllProper(rs)
    modifies fs, fs.flash.sectors, fs.crc, fs.crc.words, fs.inodes, fs.files
    ensures fs.Valid() && Good(old(fs.view)) && fs.view == AfterAll(old(fs.view), rs)
    ensures |statuses| == |rs|
    ensures forall k {:trigger statuses[k]} :: 0 <= k < |rs| ==>
              statuses[k] == StatusOf(AfterAll(old(fs.view), rs[..k]), rs[k])
  {
    hide Good, After, StatusOf, Proper;
    statuses := [];
    for n := 0 to |rs|
      invariant fs.Valid() && Good(old(fs.view)) && fs.view == AfterAll(old(fs.view), rs[..n]) && |statuses| == n
      invariant forall k {:trigger statuses[k]} :: 0 <= k < n ==>
                  statuses[k] == StatusOf(AfterAll(old(fs.view), rs[..k]), rs[k])
    {
      var status, data, fd := Perform(fs, rs[n]);
      assert rs[..n + 1][..n] == rs[..n];
      statuses := statuses + [status];
    }
    assert rs[..|rs|] == rs;
  }

  /** The same calls on NOR flash and on the overwriting simulator, from equal contents, leave the same sectors, tables
      and descriptors, and have the same statuses. */
  method PerformOnBoth(part: Flash, simulator: Flash, rs: seq<Request>)
    returns (statuses: seq<Status>, others: seq<Status>, ghost v: State)
    requires part.Valid() && simulator.Valid() && part.nor && !simulator.nor && part.sectors != simulator.sectors
    requires part.sectors[..] == simulator.sectors[..] && AllProper(rs)
    requires WordAt(part.sectors[0], 0) == BLOCK_MAGIC ==>
               Sound(WordAt(part.sectors[0], 4), LoadedTable(part.sectors[0]), part.sectors[..])
    modifies part.sectors, simulator.sectors
    ensures part.Valid() && simulator.Valid()
    ensures part.sectors[..] == simulator.sectors[..] == v.s && statuses == others
    ensures Sized(old(part.sectors[..])) && Good(Mount(old(part.sectors[..])))
    ensures v == AfterAll(Mount(old(part.sectors[..])), rs)
  {
    hide Good, Sound, Mount, AfterAll, AllProper, Sized, WordAt, LoadedTable;
    ghost var s := part.sectors[..];
    assert s[0] == part.sectors[0];
    var a := new Vfs.Vfs(part);
    var b := new Vfs.Vfs(simulator);
    MountGood(s);
    statuses := PerformAll(a, rs);
    others := PerformAll(b, rs);
    v := AfterAll(Mount(s), rs);
  }

  // ----- changes over lists of calls

  /** No call creates a file whose stored name another file has. */
  predicate AllWhole(v: State, rs: seq<Request>)
    requires Good(v) && AllProper(rs)
    decreases |rs|
  {
    rs == [] || (AllWhole(v, rs[..|rs| - 1]) && StoredWhole(AfterAll(v, rs[..|rs| - 1]), rs[|rs| - 1]))
  }

  function AllChanges(v: State, rs: seq<Request>): seq<Change>
    requires Good(v) && AllProper(rs)
    decreases |rs|
  {
    if rs == [] then []
    else AllChanges(v, rs[..|rs| - 1]) + Changes(AfterAll(v, rs[..|rs| - 1]), rs[|rs| - 1])
  }

  /** The calls name files by at most 31 bytes. */
  predicate AllShort(rs: seq<Request>) {
    forall k {:trigger rs[k]} :: 0 <= k < |rs| && (rs[k].Open? || rs[k].Append?) ==> |StripSlash(rs[k].path)| < NAME_LEN
  }

  lemma {:induction false} ShortAreWhole(v: State, rs: seq<Request>)
    requires Good(v) && AllProper(rs) && AllShort(rs)
    ensures AllWhole(v, rs)
    decreases |rs|
  {
    hide Good, After, Proper;
    if rs != [] {
      ShortAreWhole(v, rs[..|rs| - 1]);
    }
  }

  lemma {:induction false} CallsRun(v: State, rs: seq<Request>)
    requires Good(v) && AllProper(rs) && AllWhole(v, rs)
    ensures Run(v, AfterAll(v, rs), AllChanges(v, rs))
    decreases |rs|
  {
    hide Run, Changes, Good, After, StoredWhole, Proper;
    if rs == [] {
      NothingSeen(v, v);
    } else {
      var front, last := rs[..|rs| - 1], rs[|rs| - 1];
      CallsRun(v, front);
      var w := AfterAll(v, front);
      CallRuns(w, last);
      RunConcat(v, w, After(w, last), AllChanges(v, front), Changes(w, last));
    }
  }

  /** After any list of calls, a file holds what the calls that changed it, by name or through a descriptor, have made
      of it; no other call matters. */
  lemma {:induction false} FilesAreIndependent(v: State, rs: seq<Request>, name: seq<Byte>)
    requires Good(v) && AllProper(rs) && AllWhole(v, rs) && Unique(v.t)
    ensures Unique(AfterAll(v, rs).t)
    ensures Lookup(AfterAll(v, rs), name) == ApplyAll(Lookup(v, name), Mine(AllChanges(v, rs), name))
  {
    hide Good, Run, AllProper, AllWhole, AfterAll, AllChanges, Mine, ApplyAll, Lookup, Unique;
    CallsRun(v, rs);
    IndependentFiles(v, AfterAll(v, rs), AllChanges(v, rs), name);
  }

  // ----- the log over lists of calls

  /** The entries that the calls appended to the log. */
  function Entries(v: State, rs: seq<Request>, name: seq<Byte>): seq<Byte>
    requires Good(v) && AllProper(rs)
    decreases |rs|
  {
    if rs == [] then []
    else
      Entries(v, rs[..|rs| - 1], name) + EntryOf(AfterAll(v, rs[..|rs| - 1]), rs[|rs| - 1], name)
  }

  function EntryOf(v: State, r: Request, name: seq<Byte>): seq<Byte> {
    if r.Append? && StripSlash(r.path) == name && StatusOf(v, r).Ok? then r.entry else []
  }

  /** The call appends to the log, or changes nothing under its name. */
  predicate LeavesLog(v: State, r: Request, name: seq<Byte>) {
    (r.Append? && StripSlash(r.path) == name) || Mine(Changes(v, r), name) == []
  }

  predicate AllLeaveLog(v: State, rs: seq<Request>, name: seq<Byte>)
    requires Good(v) && AllProper(rs)
    decreases |rs|
  {
    rs == []
    || (AllLeaveLog(v, rs[..|rs| - 1], name) && LeavesLog(AfterAll(v, rs[..|rs| - 1]), rs[|rs| - 1], name))
  }

  /** A log that is only appended to, whatever is done to other files meanwhile, holds its old content and then every
      accepted entry in order, also if it did not exist at first. */
  lemma {:induction false} AppendOnly(v: State, rs: seq<Request>, name: seq<Byte>)
    requires Good(v) && AllProper(rs) && AllWhole(v, rs) && AllLeaveLog(v, rs, name)
    requires Unique(v.t) && |name| < NAME_LEN
    ensures Unique(AfterAll(v, rs).t) && LogContent(AfterAll(v, rs), name) == LogContent(v, name) + Entries(v, rs, name)
    decreases |rs|
  {
    hide Run, Unique, LogContent, LeavesLog, StoredWhole, EntryOf, Good, After, Changes, Proper;
    if rs != [] {
      var front, last := rs[..|rs| - 1], rs[|rs| - 1];
      AppendOnly(v, front, name);
      var w := AfterAll(v, front);
      CallRuns(w, last);
      LogStep(w, After(w, last), last, name);
    }
  }

  lemma {:induction false} LogStep(v: State, v': State, r: Request, name: seq<Byte>)
    requires Unique(v.t) && |name| < NAME_LEN && LeavesLog(v, r, name) && Run(v, v', Changes(v, r))
    ensures Unique(v'.t) && LogContent(v', name) == LogContent(v, name) + EntryOf(v, r, name)
  {
    hide Run, Unique, Lookup, Opening, Writing, OpenStatus;
    if r.Append? && StripSlash(r.path) == name {
      AppendLogged(v, v', name, r.entry);
    } else {
      IndependentFiles(v, v', Changes(v, r), name);
      NoEdits(Lookup(v, name), name);
    }
  }

  /** The log's name is safe from every other call on another whole name. */
  lemma {:induction false} OtherNamesLeaveLog(v: State, r: Request, name: seq<Byte>)
    requires r.Open? || r.Append? || r.Delete?
    requires StripSlash(r.path) != name && |StripSlash(r.path)| < NAME_LEN
    ensures LeavesLog(v, r, name)
  {
    hide Opening, Appending, Mine;
    match r {
      case Open(path, flags) => OpeningNames(v, StripSlash(path), flags);
      case Append(path, entry) => AppendingNames(v, StripSlash(path), entry);
      case Delete(_) =>
    }
    NoneMine(Changes(v, r), name);
  }

  lemma {:induction false} OpeningNames(v: State, name: seq<Byte>, flags: nat)
    requires |name| < NAME_LEN
    ensures forall k {:trigger Opening(v, name, flags)[k]} ::
              0 <= k < |Opening(v, name, flags)| ==> Opening(v, name, flags)[k].name == name
  {
    hide OpenStatus, EntryStatus, FindFrom;
  }

  lemma {:induction false} AppendingNames(v: State, name: seq<Byte>, entry: seq<Byte>)
    requires |name| < NAME_LEN
    ensures forall k {:trigger Appending(v, name, entry)[k]} ::
              0 <= k < |Appending(v, name, entry)| ==> Appending(v, name, entry)[k].name == name
  {
    hide AppendStatus, Opening, LogContent;
    OpeningNames(v, name, FOR_APPEND);
  }

  /** A write leaves the log if and only if it is refused, or its descriptor is not on a file of that name. */
  lemma {:induction false} WriteLeavesLogIff(v: State, fd: nat, buffer: seq<Byte>, name: seq<Byte>)
    requires Good(v)
    ensures LeavesLog(v, Write(fd, buffer), name) <==>
              !WriteStatus(v, fd, buffer).Ok? || !IsFile(v.t, v.d[fd].inode, name)
  {
    hide Mine, Sound;
    if WriteStatus(v, fd, buffer).Ok? {
      OpenIsGood(v, fd);
      MineOfOne(Change(v.t[v.d[fd].inode].name, Put(v.d[fd].cursor, buffer)), name);
    }
    NoEdits(None, name);
  }
}
