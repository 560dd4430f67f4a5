/** Files as independent byte strings under their names. */
module VfsFiles {
  import opened Bytes
  import opened Flash
  import opened VfsTable
  import opened VfsState

  /** The content of the file of that name. */
  function Lookup(v: State, name: seq<Byte>): Option<seq<Byte>> {
    var found := Find(v.t, name);
    if found.Some? then Some(ContentIn(v.t, v.s, found.value)) else None
  }

  // ----- one file's changes are invisible under every other name

  lemma {:induction false} FindAgrees(t: Inodes, t': Inodes, name: seq<Byte>, i: nat)
    requires |t| == |t'| && i <= |t|
    requires forall j: nat {:trigger IsFile(t, j, name)} {:trigger IsFile(t', j, name)} ::
               j < |t| ==> (IsFile(t, j, name) <==> IsFile(t', j, name))
    ensures FindFrom(t, name, i) == FindFrom(t', name, i)
    decreases |t| - i
  {
    if i < |t| {
      FindAgrees(t, t', name, i + 1);
    }
  }

  lemma {:induction false} FindFirst(t: Inodes, name: seq<Byte>, i: nat, k: nat)
    requires i <= k && IsFile(t, k, name) && forall j: nat {:trigger IsFile(t, j, name)} :: i <= j < k ==>
             !IsFile(t, j, name)
    ensures FindFrom(t, name, i) == Some(k)
    decreases k - i
  {
    if i < k {
      FindFirst(t, name, i + 1, k);
    }
  }

  /** Inode `j` holds the same file as before, or still none. */
  predicate Alike(v: State, v': State, j: nat)
    requires j < |v.t| && j < |v'.t|
  {
    && v'.t[j].inUse == v.t[j].inUse
    && (v.t[j].inUse ==> v'.t[j] == v.t[j] && ContentIn(v'.t, v'.s, j) == ContentIn(v.t, v.s, j))
  }

  predicate OthersAlike(v: State, v': State, i: nat) {
    |v.t| == |v'.t| && forall j {:trigger v.t[j]} {:trigger v'.t[j]} :: 0 <= j < |v.t| && j != i ==> Alike(v, v', j)
  }

  lemma {:induction false} OnlyFileAlike(v: State, v': State, i: nat)
    requires OnlyFileChanged(v, v', i)
    ensures OthersAlike(v, v', i)
  {
    forall j | 0 <= j < |v.t| && j != i
      ensures Alike(v, v', j)
    {
      assert SameFile(v.t, v.s, v'.t, v'.s, j);
    }
  }

  /** Whatever happens to file `i`, a file of any other name keeps its content, and a missing one stays missing. */
  lemma {:induction false} OtherNamesUnaffected(v: State, v': State, i: nat, name: seq<Byte>)
    requires i < |v.t| && OthersAlike(v, v', i)
    requires !IsFile(v.t, i, name) && !IsFile(v'.t, i, name)
    ensures Lookup(v', name) == Lookup(v, name)
  {
    hide ContentIn;
    forall j: nat | j < |v.t|
      ensures IsFile(v.t, j, name) <==> IsFile(v'.t, j, name)
    {
      if j != i {
        assert Alike(v, v', j);
      }
    }
    FindAgrees(v.t, v'.t, name, 0);
    var found := Find(v.t, name);
    if found.Some? {
      assert Alike(v, v', found.value);
    }
  }

  lemma {:induction false} FoundUnderItsName(v: State, i: nat)
    requires i < |v.t| && v.t[i].inUse && Unique(v.t)
    ensures Find(v.t, v.t[i].name) == Some(i) && Lookup(v, v.t[i].name) == Some(ContentIn(v.t, v.s, i))
  {
    FindFirst(v.t, v.t[i].name, 0, i);
  }

  // ----- names stay unique

  lemma {:induction false} SameNamesUnique(v: State, v': State, i: nat)
    requires i < |v.t| && OthersAlike(v, v', i) && Unique(v.t)
    requires v'.t[i].inUse ==> v.t[i].inUse && v'.t[i].name == v.t[i].name
    ensures Unique(v'.t)
  {
    forall j | 0 <= j < |v.t| && j != i
      ensures v'.t[j].inUse ==> v.t[j].inUse && v'.t[j] == v.t[j]
    {
      assert Alike(v, v', j);
    }
  }

  /** Creating a file keeps names unique if and only if no file has the name as it is stored. */
  lemma {:induction false} CreatedKeepsUniqueIff(v: State, v': State, name: seq<Byte>, i: nat)
    requires Unique(v.t) && Entered(v, v', name, i) && Find(v.t, name).None?
    ensures Unique(v'.t) <==> Find(v.t, VfsTable.Stored(name)).None?
  {
    OnlyFileAlike(v, v', i);
    var stored := VfsTable.Stored(name);
    forall j | 0 <= j < |v.t| && j != i
      ensures v'.t[j].inUse == v.t[j].inUse && (v.t[j].inUse ==> v'.t[j] == v.t[j])
    {
      assert Alike(v, v', j);
    }
    if Find(v.t, stored).Some? {
      var j := Find(v.t, stored).value;
      assert IsFile(v.t, j, stored) && j != i;
      assert v'.t[j].name == v'.t[i].name;
    } else {
      forall j: nat | j < |v.t| && j != i && v'.t[j].inUse
        ensures v'.t[j].name != stored
      {
        assert !IsFile(v.t, j, stored);
      }
    }
  }

  /** A newly created file is found under its name if and only if the name has at most 31 bytes: a longer one is cut
      when it is stored, but compared whole. */
  lemma {:induction false} CreatedIsFoundIff(v: State, v': State, name: seq<Byte>, i: nat)
    requires Entered(v, v', name, i) && Find(v.t, name).None?
    ensures Find(v'.t, name) == Some(i) <==> |name| <= 31
  {
    forall j: nat | j < |v.t| && j != i
      ensures !IsFile(v'.t, j, name)
    {
      assert SameFile(v.t, v.s, v'.t, v'.s, j);
      assert !IsFile(v.t, j, name);
    }
    if |name| <= 31 {
      FindFirst(v'.t, name, 0, i);
    }
  }

  /** Deleting a file under a unique name leaves no file of that name, and every other file as it was. */
  lemma {:induction false} DeletedIsGone(v: State, v': State, name: seq<Byte>, i: nat, other: seq<Byte>)
    requires Unique(v.t) && Find(v.t, name) == Some(i) && i < |v.t|
    requires v'.t == v.t[i := v.t[i].(inUse := false)] && OnlyFileChanged(v, v', i)
    ensures Unique(v'.t) && Lookup(v', name) == None
    ensures other != name ==> Lookup(v', other) == Lookup(v, other)
  {
    OnlyFileAlike(v, v', i);
    SameNamesUnique(v, v', i);
    assert forall j: nat :: j < |v.t| ==> !IsFile(v'.t, j, name);
    if other != name {
      OtherNamesUnaffected(v, v', i, other);
    }
  }

  // ----- what a write does to a file

  /** The content with the buffer written over it in place. */
  function Spliced(content: seq<Byte>, cursor: nat, buffer: seq<Byte>): seq<Byte>
    requires cursor <= |content|
  {
    content[..cursor] + buffer + if cursor + |buffer| < |content| then content[cursor + |buffer|..] else []
  }

  /** A write changes just the bytes written if and only if it reaches the end of the file, or everything behind it was
      erased already. */
  lemma {:induction false} WriteIsInPlaceIff(content: seq<Byte>, cursor: nat, buffer: seq<Byte>)
    requires cursor <= |content|
    ensures Written(content, cursor, buffer) == Spliced(content, cursor, buffer)
            <==> cursor + |buffer| >= |content| || forall k :: cursor + |buffer| <= k < |content| ==>
              content[k] == 0xFF
  {
    var end := cursor + |buffer|;
    var w, p := Written(content, cursor, buffer), Spliced(content, cursor, buffer);
    if end < |content| {
      assert forall k :: end <= k < |content| ==> w[k] == ERASED_BYTE && p[k] == content[k];
      assert forall k :: 0 <= k < end ==> w[k] == p[k];
    }
  }

  /** A write that reaches the end leaves the old prefix and the buffer; at the end, it appends. */
  lemma {:induction false} WriteToEnd(content: seq<Byte>, cursor: nat, buffer: seq<Byte>)
    requires cursor <= |content| <= cursor + |buffer|
    ensures Written(content, cursor, buffer) == content[..cursor] + buffer
    ensures cursor == |content| ==> Written(content, cursor, buffer) == content + buffer
  {
  }

  /** Writing under one name: that file gets the new content, every other one keeps its own, and names stay unique. */
  lemma {:induction false} WriteUnderName(v: State, v': State, fd: nat, buffer: seq<Byte>, other: seq<Byte>)
    requires WroteAt(v, v', fd, buffer) && Unique(v.t) && v.t[v.d[fd].inode].inUse
    ensures var d := v.d[fd]; var name := v.t[d.inode].name;
            && Unique(v'.t)
            && Lookup(v, name) == Some(ContentIn(v.t, v.s, d.inode))
            && Lookup(v', name) == Some(Written(Lookup(v, name).value, d.cursor, buffer))
            && (other != name ==> Lookup(v', other) == Lookup(v, other))
  {
    var i := v.d[fd].inode;
    OnlyFileAlike(v, v', i);
    SameNamesUnique(v, v', i);
    FoundUnderItsName(v, i);
    FoundUnderItsName(v', i);
    if other != v.t[i].name {
      OtherNamesUnaffected(v, v', i, other);
    }
  }

  /** Writing through a descriptor whose file has been deleted is seen under no name. */
  lemma {:induction false} StaleWriteUnseen(v: State, v': State, fd: nat, buffer: seq<Byte>, name: seq<Byte>)
    requires WroteAt(v, v', fd, buffer) && Unique(v.t) && !v.t[v.d[fd].inode].inUse
    ensures Unique(v'.t) && Lookup(v', name) == Lookup(v, name)
  {
    var i := v.d[fd].inode;
    OnlyFileAlike(v, v', i);
    SameNamesUnique(v, v', i);
    OtherNamesUnaffected(v, v', i, name);
  }

  /** A descriptor opened for reading and writing carries the read-only bit, and so refuses every write; writing needs
      flags without that bit. */
  lemma {:induction false} WritableIff(v: State, fd: nat, buffer: seq<Byte>)
    requires fd < |v.d| && v.d[fd].isOpen && v.d[fd].cursor + |buffer| <= SECTOR_SIZE
    ensures WriteStatus(v, fd, buffer) == Ok <==> v.d[fd].flags % 2 == 0
    ensures v.d[fd].flags % 4 == RDWR ==> WriteStatus(v, fd, buffer) == InvalidState
  {
  }

  // ----- reading a file piece by piece

  function Sum(sizes: seq<nat>): nat {
    if sizes == [] then 0 else sizes[0] + Sum(sizes[1..])
  }

  /** What successive reads of the given sizes return, put together. */
  function Reads(content: seq<Byte>, cursor: nat, sizes: seq<nat>): seq<Byte>
    decreases |sizes|
  {
    if sizes == [] then []
    else
      var data := ReadAt(content, cursor, sizes[0]);
      data + Reads(content, cursor + |data|, sizes[1..])
  }

  lemma {:induction false} ReadInTwo(content: seq<Byte>, cursor: nat, a: nat, b: nat)
    requires cursor <= |content|
    ensures var data := ReadAt(content, cursor, a);
            cursor + |data| <= |content| && data + ReadAt(content, cursor + |data|, b) == ReadAt(content, cursor, a + b)
  {
  }

  lemma {:induction false} ReadNothing(content: seq<Byte>, cursor: nat)
    ensures ReadAt(content, cursor, 0) == []
  {
  }

  /** Reads of any sizes put together are the content from the starting position on, as far as their sum reaches. */
  lemma {:induction false} ReadsConcatenate(content: seq<Byte>, cursor: nat, sizes: seq<nat>)
    requires cursor <= |content|
    ensures Reads(content, cursor, sizes) == ReadAt(content, cursor, Sum(sizes))
    decreases |sizes|
  {
    hide ReadAt;
    if sizes == [] {
      ReadNothing(content, cursor);
    } else {
      var data := ReadAt(content, cursor, sizes[0]);
      ReadInTwo(content, cursor, sizes[0], Sum(sizes[1..]));
      ReadsConcatenate(content, cursor + |data|, sizes[1..]);
    }
  }
}
