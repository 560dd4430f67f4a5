/** The file system as values: sixteen inodes, one sector per file, and a mirror of the inode table in the first
    sector. */
module VfsState {
  import opened Bytes
  import opened Flash
  import opened VfsTable
  import Crc32

  const MAX_OPEN: nat := 8

  const RDONLY: nat := 1
  const WRONLY: nat := 2
  const RDWR: nat := 3
  const CREAT: nat := 4
  const APPEND: nat := 8
  const TRUNC: nat := 16

  predicate Has(flags: nat, bit: nat)
    requires bit > 0
  {
    flags / bit % 2 == 1
  }

  datatype Descriptor = Descriptor(inode: nat, cursor: nat, flags: nat, isOpen: bool)

  datatype Status = Ok | InvalidArg | NotFound | NoMemory | Busy | InvalidState

  // ----- the file system as values

  type Sectors = seq<seq<Byte>>

  /** The table is sound, the count and the first sector mirror it, and every file's sector is erased behind its end. */
  predicate Sound(count: nat, t: Inodes, s: Sectors) {
    && GoodTable(t) && count == Used(t)
    && |s| == SECTORS && (forall k {:trigger s[k]} :: 0 <= k < SECTORS ==> |s[k]| == SECTOR_SIZE)
    && s[0] == Image(count, t)
    && forall i {:trigger t[i]} :: 0 <= i < MAX_FILES ==> Backed(t, s, i)
  }

  /** Only file `i` differs: every other inode is the same and every other file has the same content. */
  predicate OnlyFile(t: Inodes, s: Sectors, t': Inodes, s': Sectors, i: nat) {
    && |t| == |t'|
    && (forall j {:trigger t[j]} {:trigger t'[j]} :: 0 <= j < |t| && j != i ==> SameFile(t, s, t', s', j))
  }

  predicate SameFile(t: Inodes, s: Sectors, t': Inodes, s': Sectors, j: nat)
    requires j < |t| && j < |t'|
  {
    t'[j] == t[j] && (t[j].start != 0 ==> t[j].start < |s| && t[j].start < |s'| && s'[t[j].start] == s[t[j].start])
  }

  /** The flash after the sector of file `i` has been rewritten and the table synchronised. */
  function Rewritten(s: Sectors, t': Inodes, i: nat, data: seq<Byte>): Sectors
    requires |s| == SECTORS && |t'| == MAX_FILES && i < MAX_FILES && t'[i].start < SECTORS && |data| <= SECTOR_SIZE
  {
    s[t'[i].start := Overwrite(Erased(), data)][0 := Image(Used(t'), t')]
  }

  /** Rewriting one file's sector and its inode keeps the file system sound and every other file untouched. */
  lemma {:induction false} StoreSound(count: nat, t: Inodes, s: Sectors, i: nat, n: Inode, data: seq<Byte>)
    requires Sound(count, t, s) && i < MAX_FILES && GoodInode(t[i := n], i) && n.start < SECTORS
    requires n.start != 0 && |data| <= n.size <= SECTOR_SIZE
    ensures var t' := t[i := n]; var s' := Rewritten(s, t', i, data);
            Sound(Used(t'), t', s') && OnlyFile(t, s, t', s', i)
  {
    hide Image, Erased;
    var t' := t[i := n];
    var s' := Rewritten(s, t', i, data);
    OverwriteErased(data, n.size);
    assert GoodInode(t, i);
    forall j | 0 <= j < MAX_FILES
      ensures GoodInode(t', j) && Backed(t', s', j)
      ensures j != i ==> SameFile(t, s, t', s', j)
    {
      assert GoodInode(t, j) && Backed(t, s, j);
    }
    UsedUpdate(t, i, n);
  }

  /** A sector written from the start is erased behind any later point. */
  lemma {:induction false} OverwriteErased(data: seq<Byte>, n: nat)
    requires |data| <= n <= SECTOR_SIZE
    ensures var w := Overwrite(Erased(), data); w == Overwrite(Erased(), w[..n])
  {
    var w := Overwrite(Erased(), data);
    assert w == w[..n] + w[n..] && w[n..] == Erased()[n..];
  }

  function Ascii(text: string): (s: seq<Byte>)
    requires forall c :: c in text ==> 0 < c as int < 128
    ensures CString(s) && |s| == |text|
  {
    assert forall i :: 0 <= i < |text| ==> text[i] in text;
    seq(|text|, i requires 0 <= i < |text| => Code(text[i]))
  }

  function Code(c: char): Byte {
    c as int % 256
  }

  /** The table and the count that mounting reads from the first sector. */
  function LoadedTable(sector: seq<Byte>): Inodes
    requires |sector| == SECTOR_SIZE
  {
    seq(MAX_FILES, i requires 0 <= i < MAX_FILES => InodeAt(sector, i))
  }

  /** Mounting a flash that a sound file system left behind restores its table and count. */
  lemma {:induction false} MountRestores(count: nat, t: Inodes, s: Sectors)
    requires Sound(count, t, s)
    ensures WordAt(s[0], 0) == BLOCK_MAGIC && WordAt(s[0], 4) == count && LoadedTable(s[0]) == t
  {
    UsedBound(t);
    ImageRoundTrip(count, t, 0);
    forall i | 0 <= i < MAX_FILES
      ensures LoadedTable(s[0])[i] == t[i]
    {
      ImageRoundTrip(count, t, i);
    }
  }

  /** Open descriptors stand inside the sector of an inode that has been used, if only by a file deleted since. */
  predicate GoodDescriptors(t: Inodes, d: seq<Descriptor>) {
    |d| == MAX_OPEN && forall e {:trigger d[e]} :: 0 <= e < MAX_OPEN && d[e].isOpen ==> GoodDescriptor(t, d[e])
  }

  predicate GoodDescriptor(t: Inodes, d: Descriptor) {
    d.inode < |t| == MAX_FILES && d.cursor <= SECTOR_SIZE && t[d.inode].start != 0
  }

  /** The content of the sector of inode `i`: that of its file, or of the last one it had. */
  function ContentIn(t: Inodes, s: Sectors, i: nat): seq<Byte> {
    if i < |t| && 0 < t[i].start < |s| && t[i].size <= |s[t[i].start]| then Content(t, s, i) else []
  }

  /** What a read of `size` bytes from position `cursor` returns. */
  function ReadAt(content: seq<Byte>, cursor: nat, size: nat): seq<Byte> {
    if cursor >= |content| then []
    else if cursor + size > |content| then content[cursor..] else content[cursor..cursor + size]
  }

  /** The content after writing `buffer` at `cursor`: the old prefix (erased bytes where the file was shorter), the
      buffer, and erased bytes up to the old length. */
  function Written(content: seq<Byte>, cursor: nat, buffer: seq<Byte>): seq<Byte> {
    var prefix := if cursor <= |content| then content[..cursor] else content + Repeat(ERASED_BYTE, cursor - |content|);
    var end := cursor + |buffer|;
    prefix + buffer + if end < |content| then Repeat(ERASED_BYTE, |content| - end) else []
  }

  /** Everything the file system holds: table, flash and descriptors. */
  datatype State = State(t: Inodes, s: Sectors, d: seq<Descriptor>)

  /** Descriptor `fd` is open on an inode that has been used. */
  predicate OpenOn(v: State, fd: nat) {
    fd < |v.d| && v.d[fd].isOpen && v.d[fd].inode < |v.t| && v.t[v.d[fd].inode].start != 0
  }

  predicate OnlyFileChanged(v: State, v': State, i: nat) {
    OnlyFile(v.t, v.s, v'.t, v'.s, i)
  }

  /** The file of that name: the one found, unchanged, or a new empty one. */
  predicate Entered(v: State, v': State, name: seq<Byte>, i: nat) {
    && i < |v.t| == |v'.t| && v'.t[i].inUse && OnlyFileChanged(v, v', i)
    && var found := Find(v.t, name);
       if found.Some? then i == found.value && v' == v
       else !v.t[i].inUse && v'.t[i].name == VfsTable.Stored(name) && ContentIn(v'.t, v'.s, i) == []
  }

  predicate AllInUse(t: Inodes) {
    forall i {:trigger t[i]} :: 0 <= i < |t| ==> t[i].inUse
  }

  predicate AllOpen(d: seq<Descriptor>) {
    forall e {:trigger d[e]} :: 0 <= e < |d| ==> d[e].isOpen
  }

  /** A descriptor on file `i`, at its end for appending and at its beginning otherwise; truncating empties the file. */
  predicate Attached(v: State, v': State, fd: nat, i: nat, flags: nat) {
    && fd < |v.d| && !v.d[fd].isOpen && OpenOn(v', fd) && i < |v.t| == |v'.t|
    && v'.d == v.d[fd := Descriptor(i, if Has(flags, APPEND) then |ContentIn(v'.t, v'.s, i)| else 0, flags, true)]
    && v'.t[i] == v.t[i].(size := v'.t[i].size) && OnlyFileChanged(v, v', i)
    && (if Has(flags, TRUNC) then ContentIn(v'.t, v'.s, i) == [] else v'.t == v.t && v'.s == v.s)
  }

  /** How far looking up or creating a file gets. */
  function EntryStatus(v: State, name: seq<Byte>, flags: nat): Status {
    if Find(v.t, name).Some? then Ok
    else if !Has(flags, CREAT) then NotFound
    else if AllInUse(v.t) then NoMemory else Ok
  }

  function ReadStatus(v: State, fd: nat): Status {
    if fd >= |v.d| then InvalidArg else if !v.d[fd].isOpen then InvalidState else Ok
  }

  /** Reading at a descriptor's position. */
  predicate ReadFrom(v: State, v': State, fd: nat, size: nat, data: seq<Byte>) {
    && OpenOn(v, fd)
    && var d := v.d[fd];
    && data == ReadAt(ContentIn(v.t, v.s, d.inode), d.cursor, size)
    && v' == v.(d := v.d[fd := d.(cursor := d.cursor + |data|)])
  }

  function WriteStatus(v: State, fd: nat, buffer: seq<Byte>): Status {
    if fd >= |v.d| then InvalidArg
    else if !v.d[fd].isOpen || Has(v.d[fd].flags, RDONLY) then InvalidState
    else if v.d[fd].cursor + |buffer| > SECTOR_SIZE then NoMemory else Ok
  }

  /** Writing at a descriptor's position. */
  predicate WroteAt(v: State, v': State, fd: nat, buffer: seq<Byte>) {
    && OpenOn(v, fd) && OpenOn(v', fd)
    && var d := v.d[fd];
    && v'.d == v.d[fd := d.(cursor := d.cursor + |buffer|)]
    && v'.t[d.inode] == v.t[d.inode].(size := v'.t[d.inode].size) && OnlyFileChanged(v, v', d.inode)
    && ContentIn(v'.t, v'.s, d.inode) == Written(ContentIn(v.t, v.s, d.inode), d.cursor, buffer)
  }

  // ----- the calls of the interface as functions

  /** What holds between calls. */
  predicate Good(v: State) {
    Sound(Used(v.t), v.t, v.s) && GoodDescriptors(v.t, v.d)
  }

  /** Inode `i` replaced, its sector rewritten, and the table synchronised. */
  function Rewrite(v: State, i: nat, n: Inode, data: seq<Byte>): State
    requires |v.s| == SECTORS && |v.t| == MAX_FILES && i < MAX_FILES && n.start < SECTORS && |data| <= SECTOR_SIZE
  {
    v.(t := v.t[i := n], s := Rewritten(v.s, v.t[i := n], i, data))
  }

  predicate CanRewrite(v: State, i: nat, n: Inode, data: seq<Byte>) {
    && Good(v) && i < MAX_FILES && GoodInode(v.t[i := n], i) && 0 < n.start < SECTORS
    && |data| <= n.size <= SECTOR_SIZE
  }

  lemma {:induction false} RewriteGood(v: State, i: nat, n: Inode, data: seq<Byte>)
    requires CanRewrite(v, i, n, data)
    ensures var v' := Rewrite(v, i, n, data);
            && Good(v') && OnlyFileChanged(v, v', i)
            && ContentIn(v'.t, v'.s, i) == data + Repeat(ERASED_BYTE, n.size - |data|)
  {
    hide GoodDescriptors, GoodInode, Overwrite, Image;
    StoreSound(Used(v.t), v.t, v.s, i, n, data);
    StoredContent(v.s, v.t[i := n], i, data);
    DescriptorsKept(v.t, i, n, v.d);
  }

  /** The lowest inode from `i` on that is not in use. */
  function FirstUnused(t: Inodes, i: nat): (r: Option<nat>)
    requires i <= |t|
    ensures r.None? ==> forall j :: i <= j < |t| ==> t[j].inUse
    ensures r.Some? ==> i <= r.value < |t| && !t[r.value].inUse && forall j :: i <= j < r.value ==> t[j].inUse
    decreases |t| - i
  {
    if i == |t| then None else if !t[i].inUse then Some(i) else FirstUnused(t, i + 1)
  }

  /** The lowest descriptor from `e` on that is not open. */
  function FirstClosed(d: seq<Descriptor>, e: nat): (r: Option<nat>)
    requires e <= |d|
    ensures r.None? ==> forall j :: e <= j < |d| ==> d[j].isOpen
    ensures r.Some? ==> e <= r.value < |d| && !d[r.value].isOpen && forall j :: e <= j < r.value ==> d[j].isOpen
    decreases |d| - e
  {
    if e == |d| then None else if !d[e].isOpen then Some(e) else FirstClosed(d, e + 1)
  }

  function OpenStatus(v: State, name: seq<Byte>, flags: nat): Status {
    if EntryStatus(v, name, flags) != Ok then EntryStatus(v, name, flags) else if AllOpen(v.d) then Busy else Ok
  }

  /** The inode of the file of that name, or the one in which it will be created. */
  function Entry(v: State, name: seq<Byte>): nat {
    if Find(v.t, name).Some? then Find(v.t, name).value
    else if FirstUnused(v.t, 0).Some? then FirstUnused(v.t, 0).value else 0
  }

  function NewInode(name: seq<Byte>, i: nat, flags: nat): Inode {
    Inode(VfsTable.Stored(name), 3 + i, 0, flags, true)
  }

  /** Looking up the file of that name, or creating it in the lowest free inode. */
  function Enter(v: State, name: seq<Byte>, flags: nat): State
    requires Good(v)
  {
    if EntryStatus(v, name, flags).Ok? && Find(v.t, name).None?
    then Rewrite(v, Entry(v, name), NewInode(name, Entry(v, name), flags), []) else v
  }

  lemma {:induction false} EnterGood(v: State, name: seq<Byte>, flags: nat)
    requires Good(v) && CString(name) && flags < WORD32
    ensures Good(Enter(v, name, flags))
    ensures EntryStatus(v, name, flags).Ok? ==>
              var i := Entry(v, name);
              i < MAX_FILES && Enter(v, name, flags).t[i].start != 0 && Entered(v, Enter(v, name, flags), name, i)
  {
    hide Sound, GoodDescriptors, OnlyFile, ContentIn;
    UnchangedTable(Used(v.t), v.t, v.s);
    TableLength(v);
    if EntryStatus(v, name, flags).Ok? {
      var i := Entry(v, name);
      if Find(v.t, name).None? {
        CreatedInodeGood(v.t, i, name, flags);
        RewriteGood(v, i, NewInode(name, i, flags), []);
      } else {
        FileFacts(Used(v.t), v.t, v.s, i);
      }
    }
  }

  lemma {:induction false} OpenIsGood(v: State, fd: nat)
    requires Good(v) && fd < |v.d| && v.d[fd].isOpen
    ensures GoodDescriptor(v.t, v.d[fd]) && OpenOn(v, fd)
  {
  }

  lemma {:induction false} TableLength(v: State)
    requires Good(v)
    ensures |v.t| == MAX_FILES && |v.s| == SECTORS && |v.d| == MAX_OPEN
  {
  }

  /** Setting up descriptor `fd` on inode `i`, truncating the file if asked to. */
  function Attach(v: State, fd: nat, i: nat, flags: nat): State
    requires Good(v) && fd < MAX_OPEN && i < MAX_FILES && v.t[i].start != 0
  {
    FileFacts(Used(v.t), v.t, v.s, i);
    var cursor := if Has(flags, APPEND) && !Has(flags, TRUNC) then v.t[i].size else 0;
    var attached := v.(d := v.d[fd := Descriptor(i, cursor, flags, true)]);
    if Has(flags, TRUNC) then Rewrite(attached, i, v.t[i].(size := 0), []) else attached
  }

  lemma {:induction false} AttachGood(v: State, fd: nat, i: nat, flags: nat)
    requires Good(v) && fd < MAX_OPEN && i < MAX_FILES && v.t[i].start != 0
    ensures Good(Attach(v, fd, i, flags))
    ensures !v.d[fd].isOpen ==> Attached(v, Attach(v, fd, i, flags), fd, i, flags)
  {
    hide Sound, GoodDescriptors, GoodInode, OnlyFile, ContentIn, Attached;
    TableLength(v);
    FileFacts(Used(v.t), v.t, v.s, i);
    UnchangedTable(Used(v.t), v.t, v.s);
    TruncatedInodeGood(v.t, i);
    var cursor := if Has(flags, APPEND) && !Has(flags, TRUNC) then v.t[i].size else 0;
    var n := Descriptor(i, cursor, flags, true);
    DescriptorUpdate(v.t, v.d, fd, n);
    if Has(flags, TRUNC) {
      RewriteGood(v.(d := v.d[fd := n]), i, v.t[i].(size := 0), []);
    }
    if !v.d[fd].isOpen {
      AttachedIntro(v, Attach(v, fd, i, flags), fd, i, flags);
    }
  }

  /** Opening takes the lowest free descriptor; a file created before none was found stays. */
  function Open(v: State, name: seq<Byte>, flags: nat): State
    requires Good(v) && CString(name) && flags < WORD32
  {
    EnterGood(v, name, flags);
    if OpenStatus(v, name, flags).Ok?
    then Attach(Enter(v, name, flags), FirstClosed(v.d, 0).value, Entry(v, name), flags) else Enter(v, name, flags)
  }

  /** What opening does, seen from outside. */
  lemma {:induction false} OpenFacts(v: State, name: seq<Byte>, flags: nat)
    requires Good(v) && CString(name) && flags < WORD32
    ensures Good(Open(v, name, flags))
    ensures var status, i, v1 := OpenStatus(v, name, flags), Entry(v, name), Enter(v, name, flags);
            && (status in {NotFound, NoMemory} ==> Open(v, name, flags) == v)
            && (status.Busy? ==> Entered(v, Open(v, name, flags), name, i) && Open(v, name, flags).d == v.d)
            && (status.Ok? ==>
                  && FirstClosed(v.d, 0).Some? && Entered(v, v1, name, i) && v1.d == v.d
                  && Attached(v1, Open(v, name, flags), FirstClosed(v.d, 0).value, i, flags))
  {
    hide Good, Entered, Attached, Rewrite;
    TableLength(v);
    EnterGood(v, name, flags);
    EnterKeepsDescriptors(v, name, flags);
    if OpenStatus(v, name, flags).Ok? {
      AttachGood(Enter(v, name, flags), FirstClosed(v.d, 0).value, Entry(v, name), flags);
    }
  }

  lemma {:induction false} EnterKeepsDescriptors(v: State, name: seq<Byte>, flags: nat)
    requires Good(v)
    ensures Enter(v, name, flags).d == v.d && (!EntryStatus(v, name, flags).Ok? ==> Enter(v, name, flags) == v)
  {
  }

  /** What reading through descriptor `fd` returns. */
  function ReadData(v: State, fd: nat, size: nat): seq<Byte> {
    if ReadStatus(v, fd).Ok? then ReadAt(ContentIn(v.t, v.s, v.d[fd].inode), v.d[fd].cursor, size) else []
  }

  function Read(v: State, fd: nat, size: nat): State {
    if ReadStatus(v, fd).Ok?
    then v.(d := v.d[fd := v.d[fd].(cursor := v.d[fd].cursor + |ReadData(v, fd, size)|)]) else v
  }

  lemma {:induction false} ReadGood(v: State, fd: nat, size: nat)
    requires Good(v)
    ensures Good(Read(v, fd, size)) && |ReadData(v, fd, size)| <= size
    ensures ReadStatus(v, fd).Ok? ==> ReadFrom(v, Read(v, fd, size), fd, size, ReadData(v, fd, size))
  {
    hide Sound, ContentIn, GoodInode, GoodDescriptors;
    if ReadStatus(v, fd).Ok? {
      TableLength(v);
      OpenIsGood(v, fd);
      var d := v.d[fd];
      FileFacts(Used(v.t), v.t, v.s, d.inode);
      DescriptorUpdate(v.t, v.d, fd, d.(cursor := d.cursor + |ReadData(v, fd, size)|));
    }
  }

  /** Writing replaces the sector by its beginning up to the descriptor, and the buffer. */
  function Write(v: State, fd: nat, buffer: seq<Byte>): State
    requires Good(v)
  {
    if !WriteStatus(v, fd, buffer).Ok? then v
    else
      var d := v.d[fd];
      assert GoodDescriptor(v.t, d);
      FileFacts(Used(v.t), v.t, v.s, d.inode);
      var n, end := v.t[d.inode], d.cursor + |buffer|;
      Rewrite(v, d.inode, n.(size := if end > n.size then end else n.size), v.s[n.start][..d.cursor] + buffer)
        .(d := v.d[fd := d.(cursor := end)])
  }

  lemma {:induction false} WriteGood(v: State, fd: nat, buffer: seq<Byte>)
    requires Good(v)
    ensures Good(Write(v, fd, buffer))
    ensures WriteStatus(v, fd, buffer).Ok? ==> WroteAt(v, Write(v, fd, buffer), fd, buffer)
  {
    hide Sound, GoodInode, GoodDescriptors, ContentIn, Written, OnlyFile, WroteAt, Overwrite, Rewritten;
    if WriteStatus(v, fd, buffer).Ok? {
      TableLength(v);
      OpenIsGood(v, fd);
      var d := v.d[fd];
      FileFacts(Used(v.t), v.t, v.s, d.inode);
      WriteFacts(Used(v.t), v, fd, buffer);
      var n, end := v.t[d.inode], d.cursor + |buffer|;
      var n' := n.(size := if end > n.size then end else n.size);
      RewriteGood(v, d.inode, n', v.s[n.start][..d.cursor] + buffer);
      DescriptorUpdate(v.t[d.inode := n'], v.d, fd, d.(cursor := end));
      WroteAtIntro(v, Write(v, fd, buffer), fd, buffer, n');
    }
  }

  function CloseStatus(v: State, fd: nat): Status {
    if fd < |v.d| && v.d[fd].isOpen then Ok else InvalidArg
  }

  function Close(v: State, fd: nat): State {
    if CloseStatus(v, fd).Ok? then v.(d := v.d[fd := v.d[fd].(isOpen := false)]) else v
  }

  lemma {:induction false} CloseGood(v: State, fd: nat)
    requires Good(v)
    ensures Good(Close(v, fd))
  {
  }

  function DeleteStatus(v: State, name: seq<Byte>): Status {
    if Find(v.t, name).Some? then Ok else NotFound
  }

  /** Deleting marks the inode unused and erases the sector. */
  function Delete(v: State, name: seq<Byte>): State
    requires Good(v)
  {
    if Find(v.t, name).None? then v
    else
      var i := Find(v.t, name).value;
      FileFacts(Used(v.t), v.t, v.s, i);
      Rewrite(v, i, v.t[i].(inUse := false), [])
  }

  lemma {:induction false} DeleteGood(v: State, name: seq<Byte>)
    requires Good(v)
    ensures Good(Delete(v, name))
    ensures Find(v.t, name).Some? ==> OnlyFileChanged(v, Delete(v, name), Find(v.t, name).value)
  {
    hide Sound, GoodDescriptors, OnlyFile, ContentIn;
    TableLength(v);
    if Find(v.t, name).Some? {
      var i := Find(v.t, name).value;
      FileFacts(Used(v.t), v.t, v.s, i);
      RewriteGood(v, i, v.t[i].(inUse := false), []);
    }
  }

  /** What writing through descriptor `fd` needs, and the content it leads to. */
  lemma {:induction false} WriteFacts(count: nat, v: State, fd: nat, buffer: seq<Byte>)
    requires Sound(count, v.t, v.s) && GoodDescriptors(v.t, v.d) && OpenOn(v, fd)
             && v.d[fd].cursor + |buffer| <= SECTOR_SIZE
    ensures var d := v.d[fd];
            && d.inode < MAX_FILES == |v.t|
            && var n := v.t[d.inode];
            && n.start < SECTORS == |v.s| && |v.s[n.start]| == SECTOR_SIZE
            && var size := if d.cursor + |buffer| > n.size then d.cursor + |buffer| else n.size;
            && size <= SECTOR_SIZE && GoodInode(v.t[d.inode := n.(size := size)], d.inode)
            && var data := v.s[n.start][..d.cursor] + buffer;
            data + Repeat(ERASED_BYTE, size - |data|) == Written(ContentIn(v.t, v.s, d.inode), d.cursor, buffer)
  {
    hide Sound, ContentIn, Overwrite, Written;
    var d := v.d[fd];
    var n := v.t[d.inode];
    FileFacts(count, v.t, v.s, d.inode);
    FileSector(count, v.t, v.s, d.inode);
    assert d.cursor <= SECTOR_SIZE;
    WrittenContent(ContentIn(v.t, v.s, d.inode), v.s[n.start], d.cursor, buffer);
    GrownInodeGood(v.t, d.inode, if d.cursor + |buffer| > n.size then d.cursor + |buffer| else n.size);
  }

  lemma {:induction false} WroteAtIntro(v: State, v': State, fd: nat, buffer: seq<Byte>, n: Inode)
    requires OpenOn(v, fd)
    requires var d := v.d[fd];
             && v'.t == v.t[d.inode := n] && n == v.t[d.inode].(size := n.size)
             && v'.d == v.d[fd := d.(cursor := d.cursor + |buffer|)] && OnlyFileChanged(v, v', d.inode)
             && ContentIn(v'.t, v'.s, d.inode) == Written(ContentIn(v.t, v.s, d.inode), d.cursor, buffer)
    ensures WroteAt(v, v', fd, buffer)
  {
    hide ContentIn, OnlyFileChanged, Written;
  }

  lemma {:induction false} AttachedIntro(v: State, v': State, fd: nat, i: nat, flags: nat)
    requires fd < |v.d| && !v.d[fd].isOpen && i < |v.t| == |v'.t| && v.t[i].start != 0
    requires v'.t[i] == v.t[i].(size := v'.t[i].size) && OnlyFileChanged(v, v', i)
    requires if Has(flags, TRUNC) then ContentIn(v'.t, v'.s, i) == [] else v'.t == v.t && v'.s == v.s
    requires v'.d == v.d[fd := Descriptor(i, if Has(flags, APPEND) then |ContentIn(v'.t, v'.s, i)| else 0, flags, true)]
    ensures Attached(v, v', fd, i, flags)
  {
    hide ContentIn, OnlyFileChanged;
  }

  /** What the invariant says about one inode that has been used. */
  lemma {:induction false} FileFacts(count: nat, t: Inodes, s: Sectors, i: nat)
    requires Sound(count, t, s) && i < MAX_FILES && |t| == MAX_FILES && (t[i].inUse || t[i].start != 0)
    ensures var n := t[i];
            && 0 < n.start < SECTORS && |ContentIn(t, s, i)| == n.size <= SECTOR_SIZE && GoodInode(t, i)
            && |t| == MAX_FILES && |s| == SECTORS && |s[n.start]| == SECTOR_SIZE
               && ContentIn(t, s, i) == s[n.start][..n.size]
  {
    assert Backed(t, s, i) && GoodInode(t, i);
    SectorsDistinct(t, i, i);
  }

  /** The sector of a file is its content, then erased bytes. */
  lemma {:induction false} FileSector(count: nat, t: Inodes, s: Sectors, i: nat)
    requires Sound(count, t, s) && i < MAX_FILES && t[i].start != 0
    ensures t[i].start < |s| && s[t[i].start] == Overwrite(Erased(), ContentIn(t, s, i))
  {
    SectorsDistinct(t, i, i);
    assert Backed(t, s, i) && GoodInode(t, i);
  }

  lemma {:induction false} UnchangedTable(count: nat, t: Inodes, s: Sectors)
    requires Sound(count, t, s)
    ensures forall i :: OnlyFile(t, s, t, s, i)
  {
    forall i
      ensures OnlyFile(t, s, t, s, i)
    {
      UnchangedFiles(t, s, i);
    }
  }

  const NO_DESCRIPTOR := Descriptor(0, 0, 0, false)
  const UNUSED_INODE := Inode([], 0, 0, 0, false)

  /** The two default files in an otherwise empty table. */
  function DefaultTable(): Inodes {
    [Inode(MacroName(), 1, |MacroText()|, 0, true), Inode(AuditName(), 2, 0, 0, true)]
    + seq(MAX_FILES - 2, i => UNUSED_INODE)
  }

  predicate Sized(s: Sectors) {
    |s| == SECTORS && forall k {:trigger s[k]} :: 0 <= k < SECTORS ==> |s[k]| == SECTOR_SIZE
  }

  /** What mounting finds: the table on flash, or a newly formatted file system. */
  function Mount(s: Sectors): State
    requires Sized(s)
  {
    var d := seq(MAX_OPEN, i => NO_DESCRIPTOR);
    if WordAt(s[0], 0) == BLOCK_MAGIC then State(LoadedTable(s[0]), s, d)
    else
      var t := DefaultTable();
      State(t, s[1 := Overwrite(Erased(), MacroText())][2 := Overwrite(Erased(), [])][0 := Image(2, t)], d)
  }

  lemma {:induction false} MountLoads(s: Sectors, t: Inodes)
    requires Sized(s) && WordAt(s[0], 0) == BLOCK_MAGIC
    requires |t| == MAX_FILES && forall i {:trigger t[i]} :: 0 <= i < MAX_FILES ==> t[i] == InodeAt(s[0], i)
    ensures t == LoadedTable(s[0]) && Mount(s) == State(t, s, seq(MAX_OPEN, i => NO_DESCRIPTOR))
  {
    hide InodeAt, WordAt;
  }

  lemma {:induction false} NoneOpen(t: Inodes, d: seq<Descriptor>)
    requires |d| == MAX_OPEN && forall e :: 0 <= e < MAX_OPEN ==> !d[e].isOpen
    ensures GoodDescriptors(t, d)
  {
  }

  /** Mounting sound flash, or formatting any other, leaves a sound file system. */
  lemma {:induction false} MountGood(s: Sectors)
    requires Sized(s)
    requires WordAt(s[0], 0) == BLOCK_MAGIC ==> Sound(WordAt(s[0], 4), LoadedTable(s[0]), s)
    ensures Good(Mount(s)) && forall e :: 0 <= e < MAX_OPEN ==> !Mount(s).d[e].isOpen
  {
    hide MacroName, MacroText, AuditName, Image, Erased, Overwrite, Sound;
    if WordAt(s[0], 0) == BLOCK_MAGIC {
      CountIsUsed(WordAt(s[0], 4), LoadedTable(s[0]), s);
    } else {
      DefaultsSound(DefaultTable(), s);
      DefaultsCounted(DefaultTable());
    }
  }

  lemma {:induction false} CountIsUsed(count: nat, t: Inodes, s: Sectors)
    requires Sound(count, t, s)
    ensures count == Used(t)
  {
  }

  lemma {:induction false} DefaultsSound(t: Inodes, s: Sectors)
    requires |t| == MAX_FILES && t[0] == Inode(MacroName(), 1, |MacroText()|, 0, true)
    requires t[1] == Inode(AuditName(), 2, 0, 0, true)
    requires forall i :: 2 <= i < MAX_FILES ==> t[i] == Inode([], 0, 0, 0, false)
    requires |s| == SECTORS && (forall k {:trigger s[k]} :: 0 <= k < SECTORS ==> |s[k]| == SECTOR_SIZE)
    ensures var s' := s[1 := Overwrite(Erased(), MacroText())][2 := Overwrite(Erased(), [])][0 := Image(2, t)];
            Sound(2, t, s') && Unique(t) && ContentIn(t, s', 0) == MacroText() && ContentIn(t, s', 1) == []
  {
    hide MacroName, MacroText, AuditName, Image, Erased;
    DefaultsCounted(t);
    var s' := s[1 := Overwrite(Erased(), MacroText())][2 := Overwrite(Erased(), [])][0 := Image(2, t)];
    assert s'[1][..|MacroText()|] == MacroText() && s'[2][..0] == [];
    forall i | 0 <= i < MAX_FILES
      ensures GoodInode(t, i) && Backed(t, s', i)
    {
    }
  }

  function MacroName(): (s: seq<Byte>)
    ensures CString(s) && |s| == 9
  {
    Ascii("macro.txt")
  }

  function AuditName(): (s: seq<Byte>)
    ensures CString(s) && |s| == 14
  {
    Ascii("wifi_audit.log")
  }

  function MacroText(): (s: seq<Byte>)
    ensures |s| == 41
  {
    Ascii("STRING Hello MicroKernel\n") + Ascii("DELAY 200\n") + Ascii("ENTER\n")
  }

  lemma {:induction false} DefaultsCounted(t: Inodes)
    requires |t| == MAX_FILES && t[0].inUse && t[1].inUse
    requires forall i :: 2 <= i < MAX_FILES ==> !t[i].inUse
    ensures Used(t) == 2
  {
    NoneUsed(t, MAX_FILES);
    assert t[..MAX_FILES] == t;
    assert t[..2][..1] == t[..1] && t[..1][..0] == [];
    assert Used(t[..1]) == 1 && Used(t[..2]) == 2;
  }

  lemma {:induction false} NoneUsed(t: Inodes, n: nat)
    requires 2 <= n <= |t| && forall i :: 2 <= i < |t| ==> !t[i].inUse
    ensures Used(t[..n]) == Used(t[..2])
    decreases n
  {
    if n > 2 {
      assert t[..n][..n - 1] == t[..n - 1];
      NoneUsed(t, n - 1);
    }
  }

  lemma {:induction false} StripKeepsCString(path: seq<Byte>)
    requires CString(path)
    ensures CString(StripSlash(path))
  {
  }

  lemma {:induction false} CreatedInodeGood(t: Inodes, i: nat, name: seq<Byte>, flags: nat)
    requires i < |t| && CString(name) && flags < WORD32 && i < MAX_FILES
    ensures GoodInode(t[i := Inode(VfsTable.Stored(name), 3 + i, 0, flags, true)], i)
  {
  }

  lemma {:induction false} DescriptorUpdate(t: Inodes, d: seq<Descriptor>, fd: nat, n: Descriptor)
    requires GoodDescriptors(t, d) && fd < MAX_OPEN && (n.isOpen ==> GoodDescriptor(t, n))
    ensures GoodDescriptors(t, d[fd := n])
  {
  }

  lemma {:induction false} DescriptorsKept(t: Inodes, i: nat, n: Inode, d: seq<Descriptor>)
    requires GoodDescriptors(t, d) && i < |t| && n.start != 0
    ensures GoodDescriptors(t[i := n], d)
  {
    forall e | 0 <= e < MAX_OPEN && d[e].isOpen
      ensures GoodDescriptor(t[i := n], d[e])
    {
      assert GoodDescriptor(t, d[e]);
    }
  }

  lemma {:induction false} TruncatedInodeGood(t: Inodes, i: nat)
    requires i < |t| && GoodInode(t, i)
    ensures GoodInode(t[i := t[i].(size := 0)], i)
  {
  }

  lemma {:induction false} GrownInodeGood(t: Inodes, i: nat, size: nat)
    requires i < |t| && GoodInode(t, i) && size <= SECTOR_SIZE
    ensures GoodInode(t[i := t[i].(size := size)], i)
  {
  }

  lemma {:induction false} UnchangedFiles(t: Inodes, s: Sectors, i: nat)
    requires GoodTable(t) && |s| == SECTORS
    ensures OnlyFile(t, s, t, s, i)
  {
    forall j | 0 <= j < |t|
      ensures SameFile(t, s, t, s, j)
    {
      assert GoodInode(t, j);
    }
  }

  lemma {:induction false} StoredContent(s: Sectors, t: Inodes, i: nat, data: seq<Byte>)
    requires |s| == SECTORS && |t| == MAX_FILES && i < MAX_FILES && 0 < t[i].start < SECTORS
    requires |data| <= t[i].size <= SECTOR_SIZE
    ensures ContentIn(t, Rewritten(s, t, i, data), i) == data + Repeat(ERASED_BYTE, t[i].size - |data|)
  {
  }

  lemma {:induction false} WrittenContent(content: seq<Byte>, sector: seq<Byte>, cursor: nat, buffer: seq<Byte>)
    requires |content| <= SECTOR_SIZE && sector == Overwrite(Erased(), content) && cursor + |buffer| <= SECTOR_SIZE
    ensures var size := if cursor + |buffer| > |content| then cursor + |buffer| else |content|;
            sector[..cursor] + buffer + Repeat(ERASED_BYTE, size - cursor - |buffer|) ==
              Written(content, cursor, buffer)
  {
  }
}
