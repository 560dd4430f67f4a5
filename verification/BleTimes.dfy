/** How long playback takes, in task calls, and what the macro that new flash is seeded with types. */
module BleTimes {
  import opened Bytes
  import opened MacroText
  import opened BleHid
  import opened BlePlayback

  // ----- waiting

  lemma {:induction false} StillWaiting(b: App, inputs: seq<Input>)
    requires (b.state == Delaying || b.state == Cooldown) && |inputs| <= b.remaining
    ensures After(b, inputs) == b.(remaining := b.remaining - |inputs|)
    decreases |inputs|
  {
    if inputs != [] {
      StillWaiting(Step(b, inputs[0]).0, inputs[1..]);
    }
  }

  /** A delay lasts for as many task calls as it has tenths of its milliseconds, and three: the one that reads it, and
      those that count down past zero. */
  lemma {:induction false} DelayTakes(b: App, inputs: seq<Input>, ms: nat)
    requires b.state == Parse && Next(b.parser).event == Delay(ms) && 0 < |inputs| <= ms / 10 + 3
    ensures After(b, inputs).state == if |inputs| < ms / 10 + 3 then Delaying else Parse
  {
    hide Next;
    var next := Step(b, inputs[0]).0;
    if |inputs| < ms / 10 + 3 {
      StillWaiting(next, inputs[1..]);
    } else {
      BlePlayback.Wait(next, inputs[1..]);
    }
  }

  /** Where the file cannot be opened, the application rests for 51 task calls before it looks for a link again. */
  lemma {:induction false} FailedOpening(b: App, inputs: seq<Input>)
    requires b.state == OpenFile && 0 < |inputs| <= 52 && inputs[0].file.None?
    ensures After(b, inputs).state == if |inputs| <= 51 then Cooldown else WaitConnection
    ensures After(b, inputs).holds == b.holds && After(b, inputs).lost == b.lost
  {
    var next := Step(b, inputs[0]).0;
    if |inputs| <= 51 {
      StillWaiting(next, inputs[1..]);
    } else {
      BlePlayback.Wait(next, inputs[1..]);
    }
  }

  /** Behind the end of the file it rests for 101. */
  lemma {:induction false} AfterTheEnd(b: App, inputs: seq<Input>)
    requires b.state == Parse && Next(b.parser).event == EndOfFile && 0 < |inputs| <= 102
    ensures After(b, inputs).state == (if |inputs| <= 101 then Cooldown else WaitConnection) && !After(b, inputs).holds
  {
    hide Next;
    var next := Step(b, inputs[0]).0;
    if |inputs| <= 101 {
      StillWaiting(next, inputs[1..]);
    } else {
      BlePlayback.Wait(next, inputs[1..]);
    }
  }

  // ----- the seeded macro

  lemma {:induction false} TypingTakes(text: seq<Byte>)
    requires forall i {:trigger text[i]} :: 0 <= i < |text| ==> Typable(text[i])
    ensures |Timeline(CharacterEvents(text))| == 2 * |text| && Letters(text) == text
    decreases |text|
  {
    if text != [] {
      var events := CharacterEvents(text);
      assert events[1..] == CharacterEvents(text[1..]);
      TypingTakes(text[1..]);
    }
  }

  const HELLO: seq<Byte> := [72, 101, 108, 108, 111, 32, 77, 105, 99, 114, 111, 75, 101, 114, 110, 101, 108]

  function Hello(): seq<Command> {
    [Type(HELLO), Command.Wait(200), Return]
  }

  lemma {:induction false} HelloWritable()
    ensures forall i {:trigger Hello()[i]} :: 0 <= i < 3 ==> Writable(Hello()[i])
    ensures forall i {:trigger HELLO[i]} :: 0 <= i < |HELLO| ==> Typable(HELLO[i])
  {
  }

  lemma {:induction false} TwoHundred()
    ensures Numeral(200) == [50, 48, 48]
  {
    assert Numeral(2) == [50];
    assert Numeral(20) == [50, 48];
  }

  lemma {:induction false} HelloWritten()
    ensures WriteAll(Hello()) ==
            [83, 84, 82, 73, 78, 71, 32, 72, 101, 108, 108, 111, 32, 77, 105, 99, 114, 111, 75, 101, 114, 110, 101,
             108, 10, 68, 69, 76, 65, 89, 32, 50, 48, 48, 10, 69, 78, 84, 69, 82, 10]
  {
    WriteThree(Type(HELLO), Command.Wait(200), Return);
    HelloLine();
    OtherLines();
    hide *;
  }

  lemma {:induction false} HelloLine()
    ensures Write(Type(HELLO)) ==
            [83, 84, 82, 73, 78, 71, 32, 72, 101, 108, 108, 111, 32, 77, 105, 99, 114, 111, 75, 101, 114, 110, 101,
             108, 10]
  {
  }

  lemma {:induction false} OtherLines()
    ensures Write(Command.Wait(200)) == [68, 69, 76, 65, 89, 32, 50, 48, 48, 10]
    ensures Write(Return) == [69, 78, 84, 69, 82, 10]
  {
    TwoHundred();
  }

  lemma {:induction false} WriteThree(a: Command, b: Command, c: Command)
    ensures WriteAll([a, b, c]) == Write(a) + Write(b) + Write(c)
  {
    hide Write;
    assert [a, b, c][1..] == [b, c] && [b, c][1..] == [c] && [c][1..] == [];
    assert WriteAll([c]) == Write(c);
    assert WriteAll([b, c]) == Write(b) + Write(c);
  }

  /** Its events take 59 task calls: two for each of the seventeen characters and for the last key, 23 for the delay. */
  lemma {:induction false} HelloTakes()
    ensures |Timeline(MeaningAll(Hello()))| == 59
    ensures Document(Hello()) == HELLO + [10]
  {
    HelloWritable();
    ThreeCommands();
    hide *;
    TypeWaitReturn(HELLO);
    TypingTakes(HELLO);
    var typed, waited, entered := CharacterEvents(HELLO), [Delay(200)], [Enter(0, 40, 50)];
    TimelineConcat(typed + waited, entered);
    TimelineConcat(typed, waited);
    OneTakes();
  }

  lemma {:induction false} OneTakes()
    ensures |Timeline([Delay(200)])| == 23 && |Timeline([Enter(0, 40, 50)])| == 2
  {
    assert [Delay(200)][1..] == [] && [Enter(0, 40, 50)][1..] == [];
  }

  lemma {:induction false} TypeWaitReturn(text: seq<Byte>)
    requires |text| <= 31
    ensures var script := [Type(text), Command.Wait(200), Return];
            && MeaningAll(script) == CharacterEvents(text) + [Delay(200)] + [Enter(0, 40, 50)]
            && Document(script) == Letters(text) + [10]
  {
    MeaningThree(Type(text), Command.Wait(200), Return);
    assert Truncated(text) == text;
    hide MeaningAll, Document, CharacterEvents, Letters, Truncated;
    assert Meaning(Type(text)) == CharacterEvents(text) && Shows(Type(text)) == Letters(text);
  }

  lemma {:induction false} MeaningThree(a: Command, b: Command, c: Command)
    ensures MeaningAll([a, b, c]) == Meaning(a) + Meaning(b) + Meaning(c)
    ensures Document([a, b, c]) == Shows(a) + Shows(b) + Shows(c)
  {
    hide Meaning, Shows;
    assert [a, b, c][1..] == [b, c] && [b, c][1..] == [c] && [c][1..] == [];
    assert MeaningAll([c]) == Meaning(c) && Document([c]) == Shows(c);
    assert MeaningAll([b, c]) == Meaning(b) + Meaning(c) && Document([b, c]) == Shows(b) + Shows(c);
  }

  /** The macro file that new flash is seeded with makes the host show "Hello MicroKernel" and a line end, within 163
      task calls from one connection to the wait for the next. */
  lemma {:induction false} HelloIsTyped(b: App, inputs: seq<Input>)
    requires b.state == WaitConnection && |inputs| == 163 && inputs[0].connected
    requires inputs[1].file ==
             Some([83, 84, 82, 73, 78, 71, 32, 72, 101, 108, 108, 111, 32, 77, 105, 99, 114, 111, 75, 101, 114, 110,
                   101, 108, 10, 68, 69, 76, 65, 89, 32, 50, 48, 48, 10, 69, 78, 84, 69, 82, 10])
    ensures Transcript(Reports(b, inputs)) ==
            [72, 101, 108, 108, 111, 32, 77, 105, 99, 114, 111, 75, 101, 114, 110, 101, 108, 10]
    ensures After(b, inputs).state == WaitConnection && !After(b, inputs).holds && After(b, inputs).remaining == 0
  {
    HelloEnds();
    hide *;
    HelloWritten();
    HelloTakes();
    HelloWritable();
    assert |Hello()| == 3 by {
      ThreeCommands();
    }
    ScriptRoundTrip(Hello());
    ScriptIsTyped(b, inputs, Hello());
    Session(b, inputs, WriteAll(Hello()));
  }

  lemma {:induction false} ThreeCommands()
    ensures |Hello()| == 3 && |HELLO| == 17 && Hello() == [Type(HELLO), Command.Wait(200), Return]
  {
  }

  lemma {:induction false} HelloEnds()
    ensures HELLO + [10] == [72, 101, 108, 108, 111, 32, 77, 105, 99, 114, 111, 75, 101, 114, 110, 101, 108, 10]
  {
  }
}
