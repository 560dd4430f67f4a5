/** Runs of changes: a file's content is a function of the changes under its own name. */
module VfsRuns {
  import opened Bytes
  import opened VfsTable
  import opened VfsState
  import opened VfsFiles

  /** What can happen to a file. */
  datatype Edit = Create | Clear | Put(cursor: nat, buffer: seq<Byte>) | Remove

  datatype Change = Change(name: seq<Byte>, edit: Edit)

  function Apply(content: Option<seq<Byte>>, e: Edit): Option<seq<Byte>> {
    match e
    case Create => if content.None? then Some([]) else content
    case Clear => if content.None? then None else Some([])
    case Put(cursor, buffer) => if content.None? then None else Some(Written(content.value, cursor, buffer))
    case Remove => None
  }

  function ApplyAll(content: Option<seq<Byte>>, edits: seq<Edit>): Option<seq<Byte>> {
    if edits == [] then content else Apply(ApplyAll(content, edits[..|edits| - 1]), edits[|edits| - 1])
  }

  /** The edits under one name. */
  function Mine(changes: seq<Change>, name: seq<Byte>): seq<Edit> {
    if changes == [] then []
    else
      var c := changes[|changes| - 1];
      Mine(changes[..|changes| - 1], name) + if c.name == name then [c.edit] else []
  }

  // ----- one change

  /** Change `c` happened to inode `i`, and no other file is different. */
  predicate Changed(v: State, v': State, c: Change, i: nat) {
    && i < |v.t| && OthersAlike(v, v', i)
    && match c.edit
       case Create =>
         Find(v.t, c.name).None? && !v.t[i].inUse && IsFile(v'.t, i, c.name) && ContentIn(v'.t, v'.s, i) == []
       case Clear =>
         IsFile(v.t, i, c.name) && IsFile(v'.t, i, c.name) && ContentIn(v'.t, v'.s, i) == []
       case Put(cursor, buffer) =>
         && IsFile(v.t, i, c.name) && IsFile(v'.t, i, c.name)
         && ContentIn(v'.t, v'.s, i) == Written(ContentIn(v.t, v.s, i), cursor, buffer)
       case Remove =>
         IsFile(v.t, i, c.name) && !v'.t[i].inUse
  }

  /** Every file is as it was; descriptors, and sectors of deleted files, may differ. */
  predicate Unseen(v: State, v': State) {
    |v.t| == |v'.t| && forall j {:trigger v.t[j]} {:trigger v'.t[j]} :: 0 <= j < |v.t| ==> Alike(v, v', j)
  }

  /** The file of that name is edited, and no other. */
  ghost predicate Edits(v: State, v': State, c: Change) {
    && Unique(v'.t) && Lookup(v', c.name) == Apply(Lookup(v, c.name), c.edit)
    && forall other {:trigger Lookup(v', other)} :: other != c.name ==> Lookup(v', other) == Lookup(v, other)
  }

  lemma {:induction false} CreateKeepsUnique(v: State, v': State, name: seq<Byte>, i: nat)
    requires Unique(v.t) && Changed(v, v', Change(name, Create), i)
    ensures Unique(v'.t)
  {
    hide ContentIn, Find;
    forall j: nat | j < |v.t| && j != i
      ensures v'.t[j].inUse ==> v.t[j].inUse && v'.t[j] == v.t[j] && v.t[j].name != name
    {
      assert Alike(v, v', j);
      NotFound(v.t, name, j);
    }
  }

  lemma {:induction false} NotFound(t: Inodes, name: seq<Byte>, j: nat)
    requires Find(t, name).None? && j < |t|
    ensures !IsFile(t, j, name)
  {
  }

  /** Every change edits the file of its name as its edit says, leaves every other file alone, and keeps names
      unique. */
  lemma {:induction false} ChangeEdits(v: State, v': State, c: Change, i: nat)
    requires Unique(v.t) && Changed(v, v', c, i)
    ensures Edits(v, v', c)
  {
    hide ContentIn, Written;
    if c.edit.Create? {
      CreateKeepsUnique(v, v', c.name, i);
    } else {
      SameNamesUnique(v, v', i);
      FoundUnderItsName(v, i);
    }
    if c.edit.Remove? {
      forall j: nat | j < |v.t|
        ensures !IsFile(v'.t, j, c.name)
      {
        if j != i {
          assert Alike(v, v', j);
        }
      }
    } else {
      FoundUnderItsName(v', i);
    }
    forall other | other != c.name
      ensures Lookup(v', other) == Lookup(v, other)
    {
      OtherNamesUnaffected(v, v', i, other);
    }
  }

  /** What is unseen is seen under no name. */
  lemma {:induction false} UnseenLookup(v: State, v': State, name: seq<Byte>)
    requires Unseen(v, v') && Unique(v.t)
    ensures Unique(v'.t) && Lookup(v', name) == Lookup(v, name)
  {
    hide ContentIn;
    forall j: nat | j < |v.t|
      ensures (IsFile(v.t, j, name) <==> IsFile(v'.t, j, name)) && (v'.t[j].inUse ==> v.t[j].inUse && v'.t[j] == v.t[j])
    {
      assert Alike(v, v', j);
    }
    FindAgrees(v.t, v'.t, name, 0);
    var found := Find(v.t, name);
    if found.Some? {
      assert Alike(v, v', found.value);
    }
  }

  // ----- runs

  ghost predicate Call(v: State, v': State, c: Change) {
    exists i: nat :: Changed(v, v', c, i)
  }

  lemma {:induction false} CallEdits(v: State, v': State, c: Change)
    requires Unique(v.t) && Call(v, v', c)
    ensures Edits(v, v', c)
  {
    hide Changed, Edits, Unique;
    var i: nat :| Changed(v, v', c, i);
    ChangeEdits(v, v', c, i);
  }

  lemma {:induction false} NothingSeen(v: State, v': State)
    requires v'.t == v.t && v'.s == v.s
    ensures Run(v, v', [])
  {
    forall j | 0 <= j < |v.t|
      ensures Alike(v, v', j)
    {
    }
  }

  /** One change is a run. */
  lemma {:induction false} OneChange(v: State, v': State, c: Change, i: nat)
    requires Changed(v, v', c, i)
    ensures Run(v, v', [c])
  {
    NothingSeen(v, v);
    assert [c][..0] == [] && Call(v, v', [c][0]);
  }

  /** The changes `cs`, in their order, lead from one state to the other; nothing else has been seen to happen. */
  ghost predicate Run(v: State, v': State, cs: seq<Change>)
    decreases |cs|
  {
    if cs == [] then Unseen(v, v')
    else
      var front, last := cs[..|cs| - 1], cs[|cs| - 1];
      exists mid: State :: Run(v, mid, front) && Call(mid, v', last)
  }

  lemma {:induction false} UnseenTrans(v: State, w: State, v': State)
    requires Unseen(v, w) && Unseen(w, v')
    ensures Unseen(v, v')
  {
    hide ContentIn;
    forall j | 0 <= j < |v.t|
      ensures Alike(v, v', j)
    {
      assert Alike(v, w, j) && Alike(w, v', j);
    }
  }

  lemma {:induction false} CallUnseen(v: State, w: State, v': State, c: Change)
    requires Call(v, w, c) && Unseen(w, v')
    ensures Call(v, v', c)
  {
    hide ContentIn, Written, Find;
    var i: nat :| Changed(v, w, c, i);
    forall j | 0 <= j < |v.t| && j != i
      ensures Alike(v, v', j)
    {
      assert Alike(v, w, j) && Alike(w, v', j);
    }
    assert Alike(w, v', i);
    assert Changed(v, v', c, i);
  }

  lemma {:induction false} RunThenUnseen(v: State, w: State, v': State, cs: seq<Change>)
    requires Run(v, w, cs) && Unseen(w, v')
    ensures Run(v, v', cs)
  {
    hide Call, Unseen;
    if cs == [] {
      UnseenTrans(v, w, v');
    } else {
      var mid: State :| Run(v, mid, cs[..|cs| - 1]) && Call(mid, w, cs[|cs| - 1]);
      CallUnseen(mid, w, v', cs[|cs| - 1]);
    }
  }

  lemma {:induction false} RunThenCall(v: State, w: State, v': State, cs: seq<Change>, c: Change)
    requires Run(v, w, cs) && Call(w, v', c)
    ensures Run(v, v', cs + [c])
  {
    hide Call, Unseen;
    assert (cs + [c])[..|cs|] == cs;
  }

  lemma {:induction false} RunConcat(v: State, w: State, v': State, a: seq<Change>, b: seq<Change>)
    requires Run(v, w, a) && Run(w, v', b)
    ensures Run(v, v', a + b)
    decreases |b|
  {
    hide Call, Unseen;
    if b == [] {
      assert a + b == a;
      RunThenUnseen(v, w, v', a);
    } else {
      var mid: State :| Run(w, mid, b[..|b| - 1]) && Call(mid, v', b[|b| - 1]);
      RunConcat(v, w, mid, a, b[..|b| - 1]);
      RunThenCall(v, mid, v', a + b[..|b| - 1], b[|b| - 1]);
      assert a + b[..|b| - 1] + [b[|b| - 1]] == a + b;
    }
  }

  /** Over any run of changes, in any order and under any names, the content of a file is what the changes under its own
      name make of it: files are independent of each other. */
  lemma {:induction false} IndependentFiles(v: State, v': State, cs: seq<Change>, name: seq<Byte>)
    requires Run(v, v', cs) && Unique(v.t)
    ensures Unique(v'.t) && Lookup(v', name) == ApplyAll(Lookup(v, name), Mine(cs, name))
    decreases |cs|
  {
    hide Unique, Lookup, Call, Unseen, Apply;
    if cs == [] {
      UnseenLookup(v, v', name);
    } else {
      var front, c := cs[..|cs| - 1], cs[|cs| - 1];
      var mid: State :| Run(v, mid, front) && Call(mid, v', c);
      IndependentFiles(v, mid, front, name);
      CallEdits(mid, v', c);
      var before := Mine(front, name);
      assert (before + [c.edit])[..|before|] == before;
      if c.name == name {
        assert Mine(cs, name) == before + [c.edit];
      } else {
        assert Mine(cs, name) == before;
      }
    }
  }

  lemma {:induction false} MineConcat(a: seq<Change>, b: seq<Change>, name: seq<Byte>)
    ensures Mine(a + b, name) == Mine(a, name) + Mine(b, name)
    decreases |b|
  {
    if b == [] {
      assert a + b == a;
    } else {
      assert (a + b)[..|a + b| - 1] == a + b[..|b| - 1];
      MineConcat(a, b[..|b| - 1], name);
    }
  }

  lemma {:induction false} ApplyConcat(content: Option<seq<Byte>>, a: seq<Edit>, b: seq<Edit>)
    ensures ApplyAll(content, a + b) == ApplyAll(ApplyAll(content, a), b)
    decreases |b|
  {
    hide Apply;
    if b == [] {
      assert a + b == a;
    } else {
      assert (a + b)[..|a + b| - 1] == a + b[..|b| - 1];
      ApplyConcat(content, a, b[..|b| - 1]);
    }
  }

  lemma {:induction false} NoneMine(cs: seq<Change>, name: seq<Byte>)
    requires forall k {:trigger cs[k]} :: 0 <= k < |cs| ==> cs[k].name != name
    ensures Mine(cs, name) == []
    decreases |cs|
  {
    if cs != [] {
      NoneMine(cs[..|cs| - 1], name);
    }
  }

  lemma {:induction false} MineOfOne(c: Change, name: seq<Byte>)
    ensures Mine([c], name) == if c.name == name then [c.edit] else []
  {
    assert [c][..0] == [];
  }

  lemma {:induction false} ApplyOne(content: Option<seq<Byte>>, e: Edit)
    ensures ApplyAll(content, [e]) == Apply(content, e)
  {
    assert [e][..0] == [];
  }
}
