/** The keyboard application: it plays a macro file as key reports, one task call at a time. */
module BleHid {
  import opened Bytes
  import opened MacroText
  import opened MacroParser

  datatype State = Uninit | WaitConnection | OpenFile | Parse | Release | Delaying | Cooldown

  datatype Report = Silent | KeyDown(modifier: nat, keycode: nat) | Released

  /** What a task call finds outside: the link, and the text of the macro file if it can be opened. */
  datatype Input = Input(connected: bool, file: Option<seq<Byte>>)

  /** `holds` says that a descriptor is kept; `lost` counts those forgotten while they were open. */
  datatype App = App(state: State, parser: Parser, holds: bool, lost: nat, remaining: nat)

  datatype Action = Tick(input: Input) | Connected | Disconnected | OtherEvent | Init | Start(advertising: bool) | Stop

  const COOLDOWN_FAILED: nat := 50
  const COOLDOWN_DONE: nat := 100

  predicate Reading(s: State) {
    s == Parse || s == Release || s == Delaying
  }

  // ----- one task call

  function Forgotten(b: App): nat {
    b.lost + if b.holds then 1 else 0
  }

  function Opening(b: App, file: Option<seq<Byte>>): App {
    match file
    case Some(text) => b.(state := Parse, parser := Parser(text, []), lost := Forgotten(b), holds := true)
    case None => b.(state := Cooldown, remaining := COOLDOWN_FAILED)
  }

  function Press(b: App, modifier: nat, keycode: nat): (App, Report) {
    if keycode != KEY_NONE then (b.(state := Release), KeyDown(modifier, keycode)) else (b, Silent)
  }

  function Perform(b: App, event: Event): (App, Report) {
    match event
    case EndOfFile => (b.(state := Cooldown, holds := false, remaining := COOLDOWN_DONE), Silent)
    case NoCommand => (b, Silent)
    case Character(_, m, k, _) => Press(b, m, k)
    case Enter(m, k, _) => Press(b, m, k)
    case Delay(ms) => (b.(state := Delaying, remaining := ms / 10 + 1), Silent)
  }

  function CountDown(b: App, next: State): App {
    if b.remaining > 0 then b.(remaining := b.remaining - 1) else b.(state := next)
  }

  function Step(b: App, i: Input): (App, Report) {
    match b.state
    case WaitConnection => (if i.connected then b.(state := OpenFile) else b, Silent)
    case OpenFile => (Opening(b, i.file), Silent)
    case Parse => Perform(b.(parser := Next(b.parser).parser), Next(b.parser).event)
    case Release => (b.(state := Parse), Released)
    case Delaying => (CountDown(b, Parse), Silent)
    case Cooldown => (CountDown(b, WaitConnection), Silent)
    case Uninit => (b.(state := WaitConnection), Silent)
  }

  /** Task calls and everything else that reaches the application. */
  function Act(b: App, a: Action): App {
    match a
    case Tick(i) => Step(b, i).0
    case Connected => b.(state := OpenFile)
    case Disconnected => b.(state := WaitConnection)
    case OtherEvent => b
    case Init => b.(state := WaitConnection, lost := Forgotten(b), holds := false, remaining := 0)
    case Start(advertising) => if advertising then b.(state := WaitConnection) else b
    case Stop => b.(state := WaitConnection, holds := false)
  }

  class BleHid {
    var state: State
    var parser: MacroParser?
    var holds: bool
    ghost var lost: nat
    var remaining: nat

    ghost function Footprint(): set<object>
      reads this
    {
      if parser == null then {} else {parser, parser.file, parser.buffer, parser.currentStr}
    }

    ghost predicate Valid()
      reads this, Footprint()
    {
      this !in Footprint() && (Reading(state) ==> parser != null) && (parser != null ==> parser.Valid())
    }

    ghost function View(): App
      requires Valid()
      reads this, Footprint()
    {
      App(state, if parser == null then Parser([], []) else parser.State(), holds, lost, remaining)
    }

    constructor ()
      ensures Valid() && View() == App(Uninit, Parser([], []), false, 0, 0)
    {
      state, parser, holds, lost, remaining := Uninit, null, false, 0, 0;
    }

    method Open(file: Option<seq<Byte>>)
      requires Valid()
      modifies this
      ensures Valid() && View() == Opening(old(View()), file) && fresh(Footprint() - old(Footprint()))
    {
      match file
      case Some(text) =>
        lost := if holds then lost + 1 else lost;
        var reader := new Reader(text);
        parser := new MacroParser(reader);
        assert text[0..] == text;
        holds := true;
        state := Parse;
      case None =>
        remaining := 50;
        state := Cooldown;
    }

    method SendKey(modifier: nat, keycode: nat) returns (report: Report)
      requires Valid() && parser != null
      modifies this`state
      ensures Valid() && (View(), report) == Press(old(View()), modifier, keycode)
    {
      if keycode != 0 {
        state := Release;
        report := KeyDown(modifier, keycode);
      } else {
        report := Silent;
      }
    }

    method ParseNext() returns (report: Report)
      requires Valid() && parser != null
      modifies this, Footprint()
      ensures Valid() && Footprint() == old(Footprint())
      ensures var b := old(View());
              (View(), report) == Perform(b.(parser := Next(b.parser).parser), Next(b.parser).event)
    {
      hide Next;
      var event := parser.NextEvent();
      report := Silent;
      match event
      case EndOfFile =>
        holds := false;
        remaining := 100;
        state := Cooldown;
      case NoCommand =>
      case Character(_, m, k, _) =>
        report := SendKey(m, k);
      case Enter(m, k, _) =>
        report := SendKey(m, k);
      case Delay(ms) =>
        remaining := ms / 10 + 1;
        state := Delaying;
    }

    /** One task call: the descriptor, the parser, the delay counter and the key report, in every state. */
    method Task(connected: bool, file: Option<seq<Byte>>) returns (report: Report)
      requires Valid()
      modifies this, Footprint()
      ensures Valid() && fresh(Footprint() - old(Footprint()))
      ensures (View(), report) == Step(old(View()), Input(connected, file))
    {
      hide Next, Opening, Perform;
      report := Silent;
      match state
      case WaitConnection =>
        if connected {
          state := OpenFile;
        }
      case OpenFile =>
        Open(file);
      case Parse =>
        report := ParseNext();
      case Release =>
        report := Released;
        state := Parse;
      case Delaying =>
        if remaining > 0 {
          remaining := remaining - 1;
        } else {
          state := Parse;
        }
      case Cooldown =>
        if remaining > 0 {
          remaining := remaining - 1;
        } else {
          state := WaitConnection;
        }
      case Uninit =>
        state := WaitConnection;
    }

    method HandleEvent(event: Action)
      requires Valid() && (event.Connected? || event.Disconnected? || event.OtherEvent?)
      modifies this`state
      ensures Valid() && View() == Act(old(View()), event)
      ensures state == if event.Connected? then OpenFile else if event.Disconnected? then WaitConnection else old(state)
    {
      if event.Connected? {
        state := OpenFile;
      } else if event.Disconnected? {
        state := WaitConnection;
      }
    }

    method Initialise()
      requires Valid()
      modifies this
      ensures Valid() && Footprint() == old(Footprint()) && View() == Act(old(View()), Init)
      ensures state == WaitConnection && !holds && remaining == 0 && lost == old(lost) + if old(holds) then 1 else 0
    {
      state := WaitConnection;
      lost := if holds then lost + 1 else lost;
      holds := false;
      remaining := 0;
    }

    method StartUp(advertising: bool)
      requires Valid()
      modifies this`state
      ensures Valid() && View() == Act(old(View()), Start(advertising))
      ensures state == if advertising then WaitConnection else old(state)
    {
      if advertising {
        state := WaitConnection;
      }
    }

    method ShutDown()
      requires Valid()
      modifies this`state, this`holds
      ensures Valid() && View() == Act(old(View()), Stop)
      ensures state == WaitConnection && !holds
    {
      if holds {
        holds := false;
      }
      state := WaitConnection;
    }
  }
}

/** What whole runs of the keyboard application send. */
module BlePlayback {
  import opened Bytes
  import opened MacroText
  import opened BleHid

  function After(b: App, inputs: seq<Input>): App
    decreases |inputs|
  {
    if inputs == [] then b else After(Step(b, inputs[0]).0, inputs[1..])
  }

  /** The reports of a run of task calls, one for each call. */
  function Reports(b: App, inputs: seq<Input>): (r: seq<Report>)
    ensures |r| == |inputs|
    decreases |inputs|
  {
    if inputs == [] then [] else [Step(b, inputs[0]).1] + Reports(Step(b, inputs[0]).0, inputs[1..])
  }

  lemma {:induction false} RunConcat(b: App, xs: seq<Input>, ys: seq<Input>)
    ensures After(b, xs + ys) == After(After(b, xs), ys)
    ensures Reports(b, xs + ys) == Reports(b, xs) + Reports(After(b, xs), ys)
    decreases |xs|
  {
    hide Step;
    if xs == [] {
      assert xs + ys == ys;
    } else {
      assert (xs + ys)[1..] == xs[1..] + ys;
      RunConcat(Step(b, xs[0]).0, xs[1..], ys);
    }
  }

  // ----- keys

  /** A key goes up in the very task call behind the one that pressed it, and only then: two keys are never down. */
  lemma {:induction false} ReleasedAtOnce(b: App, inputs: seq<Input>, k: nat)
    requires k + 1 < |inputs|
    ensures Reports(b, inputs)[k].KeyDown? <==> Reports(b, inputs)[k + 1] == Released
    decreases k
  {
    hide Next;
    var next := Step(b, inputs[0]).0;
    assert Reports(b, inputs)[k + 1] == Reports(next, inputs[1..])[k];
    if k > 0 {
      ReleasedAtOnce(next, inputs[1..], k - 1);
    } else {
      PressLeadsToRelease(b, inputs[0]);
      assert Reports(next, inputs[1..])[0] == Step(next, inputs[1]).1;
      OnlyReleaseReleases(next, inputs[1]);
    }
  }

  lemma {:induction false} PressLeadsToRelease(b: App, i: Input)
    ensures Step(b, i).1.KeyDown? <==> Step(b, i).0.state == Release
  {
    hide Next;
  }

  lemma {:induction false} OnlyReleaseReleases(b: App, i: Input)
    ensures Step(b, i).1 == Released <==> b.state == Release
  {
    hide Next;
  }

  // ----- the timeline of a macro

  function Silence(n: nat): (r: seq<Report>)
    ensures |r| == n
  {
    seq(n, i => Silent)
  }

  function Stroke(modifier: nat, keycode: nat): seq<Report> {
    if keycode == KEY_NONE then [Silent] else [KeyDown(modifier, keycode), Released]
  }

  /** The reports an event stands for. */
  function Beats(e: Event): seq<Report> {
    match e
    case EndOfFile => []
    case NoCommand => [Silent]
    case Character(_, m, k, _) => Stroke(m, k)
    case Enter(m, k, _) => Stroke(m, k)
    case Delay(ms) => Silence(ms / 10 + 3)
  }

  function Timeline(events: seq<Event>): seq<Report>
    decreases |events|
  {
    if events == [] then [] else Beats(events[0]) + Timeline(events[1..])
  }

  lemma {:induction false} Wait(b: App, inputs: seq<Input>)
    requires b.state == Delaying || b.state == Cooldown
    requires |inputs| == b.remaining + 1
    ensures Reports(b, inputs) == Silence(|inputs|)
    ensures After(b, inputs) == b.(remaining := 0, state := if b.state == Delaying then Parse else WaitConnection)
    decreases |inputs|
  {
    var next := Step(b, inputs[0]).0;
    if b.remaining > 0 {
      Wait(next, inputs[1..]);
      assert Silence(|inputs|) == [Silent] + Silence(|inputs| - 1);
    } else {
      assert After(b, inputs) == next && inputs[1..] == [];
    }
  }

  ghost predicate Resumed(b: App, a: App) {
    a.state == Parse && a.parser == Next(b.parser).parser && a.holds == b.holds && a.lost == b.lost
  }

  /** One event: its reports take exactly its beats, and then the next event is parsed. */
  lemma {:induction false} PlayEvent(b: App, inputs: seq<Input>)
    requires b.state == Parse && Next(b.parser).event != EndOfFile
    requires |inputs| == |Beats(Next(b.parser).event)|
    ensures Reports(b, inputs) == Beats(Next(b.parser).event) && Resumed(b, After(b, inputs))
  {
    hide Next;
    var e, next := Next(b.parser).event, Step(b, inputs[0]).0;
    if e.Delay? {
      Wait(next, inputs[1..]);
      assert Beats(e) == [Silent] + Silence(|inputs| - 1);
    } else if next.state == Release {
      assert After(b, inputs) == After(Step(next, inputs[1]).0, inputs[2..]);
      assert inputs[2..] == [];
      assert Reports(next, inputs[1..]) == [Released] + Reports(Step(next, inputs[1]).0, inputs[2..]);
    } else {
      assert inputs[1..] == [];
      assert After(b, inputs) == next;
    }
  }

  /** The whole file: every event in its order, each at its own task call, and then the descriptor is closed. */
  lemma {:induction false} PlayText(b: App, inputs: seq<Input>)
    requires b.state == Parse && |inputs| == |Timeline(Events(b.parser))| + 1
    ensures Reports(b, inputs) == Timeline(Events(b.parser)) + [Silent]
    ensures After(b, inputs) == App(Cooldown, Parser([], []), false, b.lost, 100)
    decreases Size(b.parser)
  {
    hide Next, Events, Size, Beats;
    var r := Next(b.parser);
    NextShrinks(b.parser);
    if r.event == EndOfFile {
      EventsEnd(b.parser);
      assert inputs[1..] == [];
      assert After(b, inputs) == Step(b, inputs[0]).0;
      assert Reports(b, inputs) == [Step(b, inputs[0]).1];
    } else {
      EventsStep(b.parser);
      var n := |Beats(r.event)|;
      assert Timeline(Events(b.parser)) == Beats(r.event) + Timeline(Events(r.parser));
      assert inputs == inputs[..n] + inputs[n..];
      PlayEvent(b, inputs[..n]);
      RunConcat(b, inputs[..n], inputs[n..]);
      PlayText(After(b, inputs[..n]), inputs[n..]);
    }
  }

  /** From waiting for a connection and back: a session's length and every report in it. */
  lemma {:induction false} Session(b: App, inputs: seq<Input>, text: seq<Byte>)
    requires b.state == WaitConnection
    requires var script := Timeline(Events(Parser(text, []))); |inputs| == 2 + |script| + 102
    requires inputs[0].connected && inputs[1].file == Some(text)
    ensures var script := Timeline(Events(Parser(text, [])));
            Reports(b, inputs) == Silence(2) + script + Silence(102)
    ensures After(b, inputs) == App(WaitConnection, Parser([], []), false, Forgotten(b), 0)
  {
    hide Events, Timeline, Next;
    var script := Timeline(Events(Parser(text, [])));
    var n := 2 + |script| + 1;
    var opening, playing, resting := inputs[..2], inputs[2..n], inputs[n..];
    assert inputs == opening + (playing + resting);
    RunConcat(b, opening, playing + resting);
    OpenSession(b, opening, text);
    var p := After(b, opening);
    RunConcat(p, playing, resting);
    PlayText(p, playing);
    Wait(After(p, playing), resting);
    assert Silence(102) == [Silent] + Silence(101);
  }

  lemma {:induction false} OpenSession(b: App, inputs: seq<Input>, text: seq<Byte>)
    requires b.state == WaitConnection && |inputs| == 2 && inputs[0].connected && inputs[1].file == Some(text)
    ensures Reports(b, inputs) == Silence(2)
    ensures After(b, inputs) == App(Parse, Parser(text, []), true, Forgotten(b), b.remaining)
  {
    var next := Step(b, inputs[0]).0;
    assert inputs[1..][1..] == [];
    assert After(next, inputs[1..]) == After(Step(next, inputs[1]).0, inputs[1..][1..]);
    assert Reports(next, inputs[1..]) == [Step(next, inputs[1]).1];
  }

  // ----- what the host sees

  /** The character a host with a US layout shows for a report. */
  function Shown(r: Report): seq<Byte> {
    if !r.KeyDown? then []
    else if KEY_A <= r.keycode < KEY_A + 26
      then [(if r.modifier == MOD_LSHIFT then 0x41 else 0x61) + (r.keycode - KEY_A)]
    else if r.keycode == KEY_SPACE then [SPACE]
    else if r.keycode == KEY_ENTER then [NEWLINE]
    else []
  }

  function Transcript(reports: seq<Report>): seq<Byte>
    decreases |reports|
  {
    if reports == [] then [] else Shown(reports[0]) + Transcript(reports[1..])
  }

  predicate Typable(c: Byte) {
    0x61 <= c <= 0x7A || 0x41 <= c <= 0x5A || c == SPACE
  }

  /** The letters and spaces of a text. */
  function Letters(text: seq<Byte>): seq<Byte>
    decreases |text|
  {
    if text == [] then [] else (if Typable(text[0]) then [text[0]] else []) + Letters(text[1..])
  }

  /** What a command makes the host show. */
  function Shows(c: Command): seq<Byte> {
    match c
    case Type(text) => Letters(Truncated(text))
    case Wait(_) => []
    case Return => [NEWLINE]
  }

  function Document(script: seq<Command>): seq<Byte>
    decreases |script|
  {
    if script == [] then []
    else Shows(script[0]) + Document(script[1..])
  }

  lemma {:induction false} TranscriptConcat(xs: seq<Report>, ys: seq<Report>)
    ensures Transcript(xs + ys) == Transcript(xs) + Transcript(ys)
    decreases |xs|
  {
    if xs == [] {
      assert xs + ys == ys;
    } else {
      assert (xs + ys)[1..] == xs[1..] + ys;
      TranscriptConcat(xs[1..], ys);
    }
  }

  lemma {:induction false} TimelineConcat(xs: seq<Event>, ys: seq<Event>)
    ensures Timeline(xs + ys) == Timeline(xs) + Timeline(ys)
    decreases |xs|
  {
    if xs == [] {
      assert xs + ys == ys;
    } else {
      assert (xs + ys)[1..] == xs[1..] + ys;
      TimelineConcat(xs[1..], ys);
    }
  }

  lemma {:induction false} SilenceShowsNothing(n: nat)
    ensures Transcript(Silence(n)) == []
  {
    if n > 0 {
      assert Silence(n)[1..] == Silence(n - 1);
      SilenceShowsNothing(n - 1);
    }
  }

  lemma {:induction false} StrokeShows(modifier: nat, keycode: nat)
    ensures Transcript(Stroke(modifier, keycode)) ==
            if keycode == KEY_NONE then [] else Shown(KeyDown(modifier, keycode))
  {
    if keycode != KEY_NONE {
      assert Stroke(modifier, keycode)[1..] == [Released];
      assert [Released][1..] == [];
      assert Transcript([Released]) == [];
    }
  }

  lemma {:induction false} CharacterShows(c: Byte)
    requires !EndsLine(c)
    ensures Transcript(Beats(CharacterEvent(c))) == if Typable(c) then [c] else []
  {
    StrokeShows(CharToHid(c).1, CharToHid(c).0);
  }

  lemma {:induction false} TextShows(text: seq<Byte>)
    requires forall i {:trigger text[i]} :: 0 <= i < |text| ==> !EndsLine(text[i])
    ensures Transcript(Timeline(CharacterEvents(text))) == Letters(text)
    decreases |text|
  {
    hide Beats;
    if text != [] {
      var events := CharacterEvents(text);
      assert events[1..] == CharacterEvents(text[1..]);
      assert events[0] == CharacterEvent(text[0]);
      CharacterShows(text[0]);
      TranscriptConcat(Beats(events[0]), Timeline(events[1..]));
      TextShows(text[1..]);
    }
  }

  lemma {:induction false} CommandShows(c: Command)
    requires Writable(c)
    ensures Transcript(Timeline(Meaning(c))) ==
            Shows(c)
  {
    match c
    case Type(text) => TextShows(Truncated(text));
    case Wait(ms) =>
      assert Timeline(Meaning(c)) == Silence(ms / 10 + 3);
      SilenceShowsNothing(ms / 10 + 3);
    case Return =>
      assert Timeline(Meaning(c)) == Stroke(MOD_NONE, KEY_ENTER);
      StrokeShows(MOD_NONE, KEY_ENTER);
  }

  lemma {:induction false} ScriptShows(script: seq<Command>)
    requires forall i {:trigger script[i]} :: 0 <= i < |script| ==> Writable(script[i])
    ensures Transcript(Timeline(MeaningAll(script))) == Document(script)
    decreases |script|
  {
    hide Meaning, Writable;
    if script == [] {
      assert MeaningAll(script) == [];
    } else {
      CommandShows(script[0]);
      TimelineConcat(Meaning(script[0]), MeaningAll(script[1..]));
      TranscriptConcat(Timeline(Meaning(script[0])), Timeline(MeaningAll(script[1..])));
      ScriptShows(script[1..]);
    }
  }

  /** A session over a written script makes the host show the document the script stands for, and nothing else. */
  lemma {:induction false} ScriptIsTyped(b: App, inputs: seq<Input>, script: seq<Command>)
    requires forall i {:trigger script[i]} :: 0 <= i < |script| ==> Writable(script[i])
    requires b.state == WaitConnection
    requires |inputs| == 2 + |Timeline(MeaningAll(script))| + 102
    requires inputs[0].connected && inputs[1].file == Some(WriteAll(script))
    ensures Transcript(Reports(b, inputs)) == Document(script)
  {
    hide *;
    ScriptRoundTrip(script);
    Session(b, inputs, WriteAll(script));
    ScriptShows(script);
    var played, rest := Timeline(MeaningAll(script)), Silence(102);
    TranscriptConcat(Silence(2) + played, rest);
    TranscriptConcat(Silence(2), played);
    SilenceShowsNothing(2);
    SilenceShowsNothing(102);
  }

  // ----- descriptors

  /** A descriptor is held exactly while a file is being played. */
  predicate Neat(b: App) {
    b.holds <==> Reading(b.state)
  }

  predicate Interrupts(a: Action) {
    a == Connected || a == Disconnected || a == Init || a == Start(true)
  }

  /** Which actions keep the descriptor accounted for: all but those that leave a file while it is being played. */
  lemma {:induction false} NeatIff(b: App, a: Action)
    requires Neat(b)
    ensures Neat(Act(b, a)) && Act(b, a).lost == b.lost <==> !(Interrupts(a) && b.holds)
  {
    hide Next;
  }

  function AfterActions(b: App, actions: seq<Action>): App
    decreases |actions|
  {
    if actions == [] then b else AfterActions(Act(b, actions[0]), actions[1..])
  }

  predicate Undisturbed(b: App, actions: seq<Action>)
    decreases |actions|
  {
    actions == [] || (!(Interrupts(actions[0]) && b.holds) && Undisturbed(Act(b, actions[0]), actions[1..]))
  }

  lemma {:induction false} NeatThroughout(b: App, actions: seq<Action>)
    requires Neat(b) && Undisturbed(b, actions)
    ensures Neat(AfterActions(b, actions)) && AfterActions(b, actions).lost == b.lost
    decreases |actions|
  {
    hide Act, Neat, Interrupts;
    if actions != [] {
      NeatIff(b, actions[0]);
      NeatThroughout(Act(b, actions[0]), actions[1..]);
    }
  }

  /** Task calls alone never disturb: over any run of them the descriptor is open exactly in the reading states. */
  lemma {:induction false} NeatOverTasks(b: App, inputs: seq<Input>)
    requires Neat(b)
    ensures Neat(After(b, inputs)) && After(b, inputs).lost == b.lost
    decreases |inputs|
  {
    hide Step, Neat;
    if inputs != [] {
      NeatIff(b, Tick(inputs[0]));
      assert Act(b, Tick(inputs[0])) == Step(b, inputs[0]).0;
      NeatOverTasks(Step(b, inputs[0]).0, inputs[1..]);
    }
  }

  /** A link lost while a file is played costs its descriptor at the next opening, unless the application is stopped
      first. */
  lemma {:induction false} DisconnectLoses(b: App, connected: Input, opens: Input)
    requires Neat(b) && Reading(b.state) && connected.connected && opens.file.Some?
    ensures AfterActions(b, [Disconnected, Tick(connected), Tick(opens)]).lost == b.lost + 1
    ensures var s := AfterActions(b, [Disconnected, Stop, Tick(connected), Tick(opens)]); s.lost == b.lost && Neat(s)
  {
    var w := Act(b, Disconnected);
    var openings := [Tick(connected), Tick(opens)];
    OpenedBy(w, openings);
    OpenedBy(Act(w, Stop), openings);
    assert [Disconnected, Tick(connected), Tick(opens)][1..] == openings;
    var more := [Stop, Tick(connected), Tick(opens)];
    assert more[1..] == openings;
    assert [Disconnected, Stop, Tick(connected), Tick(opens)][1..] == more;
  }

  lemma {:induction false} OpenedBy(w: App, actions: seq<Action>)
    requires w.state == WaitConnection && |actions| == 2 && actions[0].Tick? && actions[1].Tick?
    requires actions[0].input.connected && actions[1].input.file.Some?
    ensures var s := AfterActions(w, actions); s.lost == Forgotten(w) && Neat(s)
  {
    var o := Act(w, actions[0]);
    assert actions[1..][1..] == [];
    assert AfterActions(o, actions[1..]) == AfterActions(Act(o, actions[1]), actions[1..][1..]);
  }
}
