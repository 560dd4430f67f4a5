/** The keyboard application's descriptors in the file system's table. */
module BleFiles {
  import opened Bytes
  import opened VfsTable
  import opened VfsState
  import opened VfsCalls
  import opened BleHid
  import opened BlePlayback

  // ----- how many descriptors are open

  function OpenCount(d: seq<Descriptor>): (n: nat)
    ensures n <= |d|
    decreases |d|
  {
    if d == [] then 0 else OpenCount(d[..|d| - 1]) + if d[|d| - 1].isOpen then 1 else 0
  }

  lemma {:induction false} OpenCountUpdate(d: seq<Descriptor>, fd: nat, n: Descriptor)
    requires fd < |d|
    ensures OpenCount(d[fd := n]) == OpenCount(d) - (if d[fd].isOpen then 1 else 0) + (if n.isOpen then 1 else 0)
    decreases |d|
  {
    var front := d[..|d| - 1];
    if fd < |d| - 1 {
      assert d[fd := n][..|d| - 1] == front[fd := n];
      OpenCountUpdate(front, fd, n);
    } else {
      assert d[fd := n][..|d| - 1] == front;
    }
  }

  lemma {:induction false} FullIffAllOpen(d: seq<Descriptor>)
    ensures OpenCount(d) == |d| <==> AllOpen(d)
    decreases |d|
  {
    if d != [] {
      var front := d[..|d| - 1];
      FullIffAllOpen(front);
      if AllOpen(front) && d[|d| - 1].isOpen {
        forall e | 0 <= e < |d|
          ensures d[e].isOpen
        {
          assert e < |front| ==> front[e].isOpen;
        }
      }
      if AllOpen(d) {
        forall e | 0 <= e < |front|
          ensures front[e].isOpen
        {
          assert front[e] == d[e];
        }
      }
    }
  }

  // ----- opening again and again

  function Opens(path: seq<Byte>, n: nat): (rs: seq<Request>)
    ensures |rs| == n
    decreases n
  {
    if n == 0 then [] else Opens(path, n - 1) + [Request.Open(path, RDONLY)]
  }

  lemma {:induction false} OpensProper(path: seq<Byte>, n: nat)
    requires CString(path)
    ensures AllProper(Opens(path, n))
    decreases n
  {
    if n > 0 {
      OpensProper(path, n - 1);
    }
  }

  /** Each opening of an existing file takes one descriptor more, until all are taken. */
  lemma {:induction false} OpensTake(v: VfsState.State, path: seq<Byte>, n: nat)
    requires Good(v) && CString(path) && Find(v.t, StripSlash(path)).Some? && OpenCount(v.d) + n <= MAX_OPEN
    ensures AllProper(Opens(path, n))
    ensures var v' := AfterAll(v, Opens(path, n));
            v'.t == v.t && v'.s == v.s && |v'.d| == MAX_OPEN && OpenCount(v'.d) == OpenCount(v.d) + n
    decreases n
  {
    hide Good, VfsCalls.After, Proper;
    OpensProper(path, n);
    TableLength(v);
    if n > 0 {
      OpensTake(v, path, n - 1);
      var rs := Opens(path, n);
      assert rs[..n - 1] == Opens(path, n - 1) && rs[n - 1] == Request.Open(path, RDONLY);
      OpenTakes(AfterAll(v, Opens(path, n - 1)), path);
    }
  }

  lemma {:induction false} OpenTakes(v: VfsState.State, path: seq<Byte>)
    requires Good(v) && CString(path) && Find(v.t, StripSlash(path)).Some? && OpenCount(v.d) < |v.d| == MAX_OPEN
    ensures OpenStatus(v, StripSlash(path), RDONLY).Ok?
    ensures var v' := VfsCalls.After(v, Request.Open(path, RDONLY));
            v'.t == v.t && v'.s == v.s && |v'.d| == MAX_OPEN && OpenCount(v'.d) == OpenCount(v.d) + 1
  {
    hide Good, VfsState.Open, ContentIn, OnlyFile;
    var name := StripSlash(path);
    StripKeepsCString(path);
    FullIffAllOpen(v.d);
    OpenFacts(v, name, RDONLY);
    var fd := FirstClosed(v.d, 0).value;
    OpenCountUpdate(v.d, fd, VfsState.Open(v, name, RDONLY).d[fd]);
  }

  // ----- losing the link again and again

  /** The link comes up, the file is opened, and the link goes down. */
  function Round(text: seq<Byte>): seq<Action> {
    [Tick(Input(true, None)), Tick(Input(true, Some(text))), Disconnected]
  }

  function Rounds(b: App, text: seq<Byte>, n: nat): App
    decreases n
  {
    if n == 0 then b else AfterActions(Rounds(b, text, n - 1), Round(text))
  }

  lemma {:induction false} RoundLoses(b: App, text: seq<Byte>)
    requires b.state == WaitConnection
    ensures var b' := AfterActions(b, Round(text));
            b'.state == WaitConnection && b'.holds && Forgotten(b') == Forgotten(b) + 1
  {
    var opening := [Round(text)[0], Round(text)[1]];
    var o := Act(b, Round(text)[0]);
    var p := Act(o, Round(text)[1]);
    assert Round(text)[1..][1..] == [Disconnected];
    assert AfterActions(o, Round(text)[1..]) == AfterActions(p, [Disconnected]);
    assert [Disconnected][1..] == [];
    assert AfterActions(p, [Disconnected]) == Act(p, Disconnected);
  }

  lemma {:induction false} RoundsLose(b: App, text: seq<Byte>, n: nat)
    requires b.state == WaitConnection
    ensures var b' := Rounds(b, text, n);
            b'.state == WaitConnection && Forgotten(b') == Forgotten(b) + n && (n > 0 ==> b'.holds)
    decreases n
  {
    hide AfterActions, Forgotten;
    if n > 0 {
      RoundsLose(b, text, n - 1);
      RoundLoses(Rounds(b, text, n - 1), text);
    }
  }

  /** With no descriptor open, eight disconnections during playback leave the table full: from then on opening any file
      that exists, or that could be created, is refused to every caller, and the application has lost all but one. */
  lemma {:induction false} EightDisconnections(v: VfsState.State, b: App, path: seq<Byte>, other: seq<Byte>, flags: nat)
    requires Good(v) && CString(path) && Find(v.t, StripSlash(path)).Some? && OpenCount(v.d) == 0
    requires b.state == WaitConnection && Forgotten(b) == 0
    ensures AllProper(Opens(path, MAX_OPEN))
    ensures var v' := AfterAll(v, Opens(path, MAX_OPEN));
            var b' := Rounds(b, ContentIn(v.t, v.s, Find(v.t, StripSlash(path)).value), MAX_OPEN);
            && Forgotten(b') == OpenCount(v'.d) == MAX_OPEN && b'.lost == MAX_OPEN - 1
            && (EntryStatus(v', other, flags).Ok? ==> OpenStatus(v', other, flags) == Busy)
  {
    hide Good, AfterAll, EntryStatus;
    OpensTake(v, path, MAX_OPEN);
    RoundsLose(b, ContentIn(v.t, v.s, Find(v.t, StripSlash(path)).value), MAX_OPEN);
    FullIffAllOpen(AfterAll(v, Opens(path, MAX_OPEN)).d);
  }
}
