/** The code of the file system. */
module Vfs {
  import opened Bytes
  import opened Flash
  import opened VfsTable
  import opened VfsState
  import Crc32

  class Vfs {
    const flash: Flash
    const crc: Crc32.Table
    const inodes: array<Inode>
    const files: array<Descriptor>
    var fileCount: nat

    ghost var view: State

    ghost function Footprint(): set<object>
    {
      {this, flash.sectors, crc, crc.words, inodes, files}
    }

    ghost predicate Shape()
      reads Footprint(), flash
    {
      inodes.Length == MAX_FILES && files.Length == MAX_OPEN && flash.Valid() && crc.Valid()
    }

    /** The arrays hold the view, and the view is sound. */
    ghost predicate Valid()
      reads Footprint(), flash
    {
      && Shape()
      && inodes[..] == view.t && flash.sectors[..] == view.s && files[..] == view.d
      && fileCount == Used(view.t) && Good(view)
    }

    /** Writes the table to the first sector. */
    method Sync()
      requires inodes.Length == MAX_FILES && flash.Valid() && crc.Valid()
      modifies flash.sectors, crc, crc.words
      ensures flash.Valid() && crc.Valid()
      ensures flash.sectors[..] == old(flash.sectors[..])[0 := Image(fileCount, inodes[..])]
    {
      hide Crc32.Crc, Crc32.WordBytes, TableBytes, Overwrite;
      var table := TableBytes(fileCount, inodes[..]);
      var word := crc.Calc(table);
      flash.EraseAndWrite(0, table + Crc32.WordBytes(word));
    }

    /** Mounts the flash: takes over the table it finds, or formats it with two default files. */
    constructor (f: Flash)
      requires f.Valid()
      modifies f.sectors
      ensures flash == f && inodes.Length == MAX_FILES && files.Length == MAX_OPEN && f.Valid()
      ensures fresh(crc) && fresh(crc.words) && fresh(inodes) && fresh(files)
      ensures forall d {:trigger files[d]} :: 0 <= d < MAX_OPEN ==> !files[d].isOpen
      ensures Sized(old(f.sectors[..])) && view == Mount(old(f.sectors[..]))
      ensures inodes[..] == view.t && f.sectors[..] == view.s && files[..] == view.d
      ensures WordAt(old(f.sectors[0]), 0) == BLOCK_MAGIC ==>
                && inodes[..] == LoadedTable(old(f.sectors[0])) && fileCount == WordAt(old(f.sectors[0]), 4)
                && f.sectors[..] == old(f.sectors[..])
                && (Sound(fileCount, inodes[..], f.sectors[..]) ==> Valid())
      ensures WordAt(old(f.sectors[0]), 0) != BLOCK_MAGIC ==>
                && Valid() && Unique(view.t) && fileCount == 2
                && inodes[0] == Inode(MacroName(), 1, |MacroText()|, 0, true)
                   && ContentIn(inodes[..], f.sectors[..], 0) == MacroText()
                && inodes[1] == Inode(AuditName(), 2, 0, 0, true) && ContentIn(inodes[..], f.sectors[..], 1) == []
    {
      flash := f;
      crc := new Crc32.Table();
      inodes := new Inode[MAX_FILES](i => Inode([], 0, 0, 0, false));
      files := new Descriptor[MAX_OPEN](i => Descriptor(0, 0, 0, false));
      fileCount := 0;
      view := State([], [], []);
      new;
      hide Good, Mount, LoadedTable, Used, WordAt, MacroText, MacroName, AuditName, Unique;
      if WordAt(f.sectors[0], 0) == BLOCK_MAGIC {
        LoadTable();
      } else {
        CreateDefaults();
      }
    }

    /** Takes over the table on flash. */
    method LoadTable()
      requires inodes.Length == MAX_FILES && files.Length == MAX_OPEN && flash.Valid() && crc.Valid()
      requires forall d {:trigger files[d]} :: 0 <= d < MAX_OPEN ==> files[d] == NO_DESCRIPTOR
      requires WordAt(flash.sectors[0], 0) == BLOCK_MAGIC
      modifies this, inodes
      ensures Sized(flash.sectors[..]) && view == Mount(flash.sectors[..])
      ensures inodes[..] == LoadedTable(flash.sectors[0]) && fileCount == WordAt(flash.sectors[0], 4)
      ensures inodes[..] == view.t && flash.sectors[..] == view.s && files[..] == view.d
      ensures Sound(fileCount, inodes[..], flash.sectors[..]) ==> Valid()
    {
      hide Sound, Used, WordAt, InodeAt, LoadedTable, Mount, GoodDescriptors;
      fileCount := WordAt(flash.sectors[0], 4);
      forall i | 0 <= i < MAX_FILES {
        inodes[i] := InodeAt(flash.sectors[0], i);
      }
      MountLoads(flash.sectors[..], inodes[..]);
      view := State(inodes[..], flash.sectors[..], files[..]);
      assert files[..] == seq(MAX_OPEN, i => NO_DESCRIPTOR);
      NoneOpen(view.t, view.d);
      if Sound(fileCount, view.t, view.s) {
        CountIsUsed(fileCount, view.t, view.s);
      }
    }

    /** Seeds the macro file and the audit log. */
    method CreateDefaults()
      requires inodes.Length == MAX_FILES && files.Length == MAX_OPEN && flash.Valid() && crc.Valid()
      requires forall i {:trigger inodes[i]} :: 0 <= i < MAX_FILES ==> inodes[i] == UNUSED_INODE
      requires forall d {:trigger files[d]} :: 0 <= d < MAX_OPEN ==> files[d] == NO_DESCRIPTOR
      modifies this, flash.sectors, crc, crc.words, inodes
      ensures Valid() && Unique(view.t) && fileCount == 2
      ensures Sized(old(flash.sectors[..]))
      ensures WordAt(old(flash.sectors[0]), 0) != BLOCK_MAGIC ==> view == Mount(old(flash.sectors[..]))
      ensures inodes[0] == Inode(MacroName(), 1, |MacroText()|, 0, true)
              && ContentIn(inodes[..], flash.sectors[..], 0) == MacroText()
      ensures inodes[1] == Inode(AuditName(), 2, 0, 0, true) && ContentIn(inodes[..], flash.sectors[..], 1) == []
    {
      hide MacroName, MacroText, AuditName, Image, Erased, Overwrite;
      ghost var s := flash.sectors[..];
      inodes[0] := Inode(MacroName(), 1, |MacroText()|, 0, true);
      flash.EraseAndWrite(1, MacroText());
      inodes[1] := Inode(AuditName(), 2, 0, 0, true);
      flash.EraseAndWrite(2, []);
      fileCount := 2;
      Sync();
      DefaultsSound(inodes[..], s);
      assert inodes[..] == DefaultTable() && files[..] == seq(MAX_OPEN, i => NO_DESCRIPTOR);
      view := State(inodes[..], flash.sectors[..], files[..]);
    }

    // ----- looking up

    method FindFile(name: seq<Byte>) returns (r: Option<nat>)
      requires Valid() && CString(name)
      ensures r == Find(view.t, name)
    {
      for i := 0 to MAX_FILES
        invariant Find(view.t, name) == FindFrom(view.t, name, i)
      {
        assert GoodInode(view.t, i);
        StoredNameMatches(inodes[i].name, name);
        if inodes[i].inUse && StrnEqual(inodes[i].name, name, 0, NAME_LEN) {
          return Some(i);
        }
      }
      return None;
    }

    /** The lowest inode that is not in use. */
    method FreeInode() returns (r: Option<nat>)
      requires inodes.Length == MAX_FILES
      ensures r == FirstUnused(inodes[..], 0)
    {
      for i := 0 to MAX_FILES
        invariant FirstUnused(inodes[..], 0) == FirstUnused(inodes[..], i)
      {
        if !inodes[i].inUse {
          return Some(i);
        }
      }
      return None;
    }

    /** The lowest descriptor that is not open. */
    method FreeDescriptor() returns (r: Option<nat>)
      requires files.Length == MAX_OPEN
      ensures r == FirstClosed(files[..], 0)
    {
      for d := 0 to MAX_OPEN
        invariant FirstClosed(files[..], 0) == FirstClosed(files[..], d)
      {
        if !files[d].isOpen {
          return Some(d);
        }
      }
      return None;
    }

    // ----- changing one file

    /** Replaces inode `i`, erases its sector and synchronises the table. */
    method Store(i: nat, n: Inode)
      requires Valid() && CanRewrite(view, i, n, [])
      modifies this, flash.sectors, crc, crc.words, inodes
      ensures Valid() && view == Rewrite(old(view), i, n, [])
    {
      hide Image, Erased, Overwrite, GoodInode, Sound, GoodDescriptors;
      ghost var v := view;
      TableLength(v);
      RewriteGood(v, i, n, []);
      UsedUpdate(v.t, i, n);
      UsedBound(v.t);
      if !inodes[i].inUse && n.inUse {
        fileCount := fileCount + 1;
      } else if inodes[i].inUse && !n.inUse {
        fileCount := fileCount - 1;
      }
      inodes[i] := n;
      flash.EraseAndWrite(n.start, []);
      Sync();
      view := Rewrite(v, i, n, []);
      assert inodes[..] == view.t && flash.sectors[..] == view.s;
    }

    /** Replaces one descriptor. */
    method SetDescriptor(fd: nat, n: Descriptor)
      requires Valid() && fd < MAX_OPEN && (n.isOpen ==> GoodDescriptor(view.t, n))
      modifies this`view, files
      ensures Valid() && view == old(view).(d := old(view).d[fd := n])
    {
      hide Sound, GoodDescriptors;
      DescriptorUpdate(view.t, view.d, fd, n);
      files[fd] := n;
      view := view.(d := view.d[fd := n]);
      assert files[..] == view.d;
    }

    // ----- the interface

    /** Opens the file of that name, creating it in the lowest free inode if asked to, on the lowest free descriptor.
        Nothing else changes, and nothing at all on failure except that a file may have been created for which there was
        no descriptor. */
    method Open(path: seq<Byte>, flags: nat) returns (status: Status, fd: nat)
      requires Valid() && CString(path) && flags < WORD32
      modifies this, flash.sectors, crc, crc.words, inodes, files
      ensures Valid() && view == VfsState.Open(old(view), StripSlash(path), flags)
      ensures status == OpenStatus(old(view), StripSlash(path), flags)
      ensures status.Ok? ==> FirstClosed(old(view).d, 0) == Some(fd)
    {
      hide Good, Rewrite, Find, FirstUnused;
      ghost var v := view;
      var name := StripSlash(path);
      StripKeepsCString(path);
      fd := 0;
      EnterGood(v, name, flags);
      EnterKeepsDescriptors(v, name, flags);
      var target: nat;
      status, target := FindOrCreate(name, flags);
      if status != Ok {
        return status, 0;
      }
      var free := FreeDescriptor();
      assert files[..] == v.d;
      if free.None? {
        return Busy, 0;
      }
      fd := free.value;
      Attach(fd, target, flags);
      return Ok, fd;
    }

    /** The inode of that name, created if it does not exist and may be. */
    method FindOrCreate(name: seq<Byte>, flags: nat) returns (status: Status, target: nat)
      requires Valid() && CString(name) && flags < WORD32
      modifies this, flash.sectors, crc, crc.words, inodes
      ensures Valid() && view == Enter(old(view), name, flags) && status == EntryStatus(old(view), name, flags)
      ensures status.Ok? ==> target == Entry(old(view), name)
    {
      hide Sound, GoodDescriptors, GoodInode, Rewrite;
      TableLength(view);
      var found := FindFile(name);
      if found.Some? {
        return Ok, found.value;
      }
      if !Has(flags, CREAT) {
        return NotFound, 0;
      }
      var slot := FreeInode();
      assert inodes[..] == view.t;
      if slot.None? {
        return NoMemory, 0;
      }
      target := slot.value;
      CreatedInodeGood(view.t, target, name, flags);
      Store(target, Inode(VfsTable.Stored(name), 3 + target, 0, flags, true));
      return Ok, target;
    }

    /** Sets up a free descriptor, and truncates the file if asked to. */
    method Attach(fd: nat, target: nat, flags: nat)
      requires Valid() && target < MAX_FILES && inodes[target].start != 0 && fd < MAX_OPEN
      modifies this, flash.sectors, crc, crc.words, inodes, files
      ensures Valid() && view == VfsState.Attach(old(view), fd, target, flags)
    {
      hide Sound, GoodDescriptors, GoodInode, Rewrite;
      ghost var v := view;
      TableLength(v);
      FileFacts(fileCount, v.t, v.s, target);
      TruncatedInodeGood(v.t, target);
      SetDescriptor(fd, Descriptor(target, if Has(flags, APPEND) then inodes[target].size else 0, flags, true));
      if Has(flags, TRUNC) {
        SetDescriptor(fd, files[fd].(cursor := 0));
        assert v.d[fd := view.d[fd]] == view.d;
        Store(target, inodes[target].(size := 0));
      }
    }

    /** Reads on from the descriptor's position; nothing but the position changes. */
    method Read(fd: nat, size: nat) returns (status: Status, data: seq<Byte>)
      requires Valid()
      modifies this`view, files
      ensures Valid() && view == VfsState.Read(old(view), fd, size)
      ensures status == ReadStatus(old(view), fd) && data == ReadData(old(view), fd, size)
    {
      if fd >= MAX_OPEN {
        return InvalidArg, [];
      }
      if !files[fd].isOpen {
        return InvalidState, [];
      }
      data := ReadOpen(fd, size);
      return Ok, data;
    }

    method ReadOpen(fd: nat, size: nat) returns (data: seq<Byte>)
      requires Valid() && fd < MAX_OPEN && view.d[fd].isOpen
      modifies this`view, files
      ensures Valid() && view == VfsState.Read(old(view), fd, size) && data == ReadData(old(view), fd, size)
    {
      hide Sound, GoodDescriptors, GoodInode, ContentIn, Used, ReadAt;
      ghost var v := view;
      OpenIsGood(v, fd);
      FileFacts(fileCount, v.t, v.s, v.d[fd].inode);
      ReadOfSector(v.s[v.t[v.d[fd].inode].start], v.t[v.d[fd].inode].size, v.d[fd].cursor, size);
      var d := files[fd];
      var n := inodes[d.inode];
      if d.cursor >= n.size {
        assert v.d == v.d[fd := d.(cursor := d.cursor + 0)];
        return [];
      }
      var toRead := if d.cursor + size > n.size then n.size - d.cursor else size;
      data := flash.sectors[n.start][d.cursor..d.cursor + toRead];
      SetDescriptor(fd, d.(cursor := d.cursor + toRead));
    }

    /** Writes the buffer at the descriptor's position; what the file held behind it is erased, not kept. */
    method Write(fd: nat, buffer: seq<Byte>) returns (status: Status)
      requires Valid()
      modifies this, flash.sectors, crc, crc.words, inodes, files
      ensures Valid() && view == VfsState.Write(old(view), fd, buffer) && status == WriteStatus(old(view), fd, buffer)
    {
      if fd >= MAX_OPEN {
        return InvalidArg;
      }
      if !files[fd].isOpen || Has(files[fd].flags, RDONLY) {
        return InvalidState;
      }
      if files[fd].cursor + |buffer| > SECTOR_SIZE {
        return NoMemory;
      }
      WriteOpen(fd, buffer);
      return Ok;
    }

    /** The table is synchronised only if the file has grown. */
    method WriteOpen(fd: nat, buffer: seq<Byte>)
      requires Valid() && WriteStatus(view, fd, buffer).Ok?
      modifies this, flash.sectors, crc, crc.words, inodes, files
      ensures Valid() && view == VfsState.Write(old(view), fd, buffer)
    {
      hide Sound, GoodDescriptors, GoodInode, ContentIn, Image, Overwrite, Erased;
      ghost var v := view;
      TableLength(v);
      OpenIsGood(v, fd);
      FileFacts(fileCount, v.t, v.s, v.d[fd].inode);
      WriteGood(v, fd, buffer);
      WriteSteps(v, fd, buffer);
      var d := files[fd];
      var n := inodes[d.inode];
      flash.EraseAndWrite(n.start, flash.sectors[n.start][..d.cursor] + buffer);
      files[fd] := d.(cursor := d.cursor + |buffer|);
      if d.cursor + |buffer| > n.size {
        inodes[d.inode] := n.(size := d.cursor + |buffer|);
        UsedUpdate(v.t, d.inode, n.(size := d.cursor + |buffer|));
        assert inodes[..] == v.t[d.inode := n.(size := d.cursor + |buffer|)];
        Sync();
      }
      view := VfsState.Write(v, fd, buffer);
      assert inodes[..] == view.t && flash.sectors[..] == view.s && files[..] == view.d;
    }

    method Close(fd: nat) returns (status: Status)
      requires Valid()
      modifies this`view, files
      ensures Valid() && view == VfsState.Close(old(view), fd) && status == CloseStatus(old(view), fd)
    {
      if fd >= MAX_OPEN || !files[fd].isOpen {
        return InvalidArg;
      }
      var d := files[fd].(isOpen := false);
      assert view.d[fd] == files[fd];
      SetDescriptor(fd, d);
      return Ok;
    }

    /** Removes the first file of that name. */
    method Delete(path: seq<Byte>) returns (status: Status)
      requires Valid() && CString(path)
      modifies this, flash.sectors, crc, crc.words, inodes
      ensures Valid() && view == VfsState.Delete(old(view), StripSlash(path))
      ensures status == DeleteStatus(old(view), StripSlash(path))
    {
      hide Sound, GoodDescriptors, Rewrite;
      var name := StripSlash(path);
      StripKeepsCString(path);
      TableLength(view);
      var found := FindFile(name);
      if found.None? {
        return NotFound;
      }
      FileFacts(fileCount, view.t, view.s, found.value);
      Store(found.value, inodes[found.value].(inUse := false));
      return Ok;
    }
  }

  lemma {:induction false} ReadOfSector(sector: seq<Byte>, n: nat, cursor: nat, size: nat)
    requires n <= |sector|
    ensures ReadAt(sector[..n], cursor, size) ==
            if cursor >= n then [] else sector[cursor..if cursor + size > n then n else cursor + size]
  {
  }

  /** A write that does not grow the file leaves the table and its image as they were. */
  lemma {:induction false} WriteSteps(v: State, fd: nat, buffer: seq<Byte>)
    requires Good(v) && WriteStatus(v, fd, buffer).Ok?
    ensures OpenOn(v, fd) && |v.t| == MAX_FILES && |v.s| == SECTORS
    ensures var d := v.d[fd];
            && d.inode < MAX_FILES
            && var n := v.t[d.inode];
            && 0 < n.start < SECTORS && d.cursor + |buffer| <= SECTOR_SIZE && d.cursor <= |v.s[n.start]|
            && var s := v.s[n.start := Overwrite(Erased(), v.s[n.start][..d.cursor] + buffer)];
               var v' := VfsState.Write(v, fd, buffer);
            && v'.d == v.d[fd := d.(cursor := d.cursor + |buffer|)]
            && if d.cursor + |buffer| > n.size
               then v'.t == v.t[d.inode := n.(size := d.cursor + |buffer|)] && v'.s == s[0 := Image(Used(v'.t), v'.t)]
               else v'.t == v.t && v'.s == s
  {
    hide GoodDescriptors, GoodInode, ContentIn, Image, Overwrite, Erased;
    TableLength(v);
    OpenIsGood(v, fd);
    FileFacts(Used(v.t), v.t, v.s, v.d[fd].inode);
  }
}
