/** The streaming macro parser: text arrives through a buffer of 64 bytes. */
module MacroParser {
  import opened Bytes
  import opened MacroText
  import VfsState

  const BUFFER: nat := 64

  /** An open, unchanging file, read from its cursor on. */
  class Reader {
    const text: seq<Byte>
    var cursor: nat

    constructor (content: seq<Byte>)
      ensures text == content && cursor == 0
    {
      text := content;
      cursor := 0;
    }

    method Read(size: nat) returns (data: seq<Byte>)
      requires cursor <= |text|
      modifies this
      ensures data == VfsState.ReadAt(text, old(cursor), size) && cursor == old(cursor) + |data|
      ensures old(cursor) <= cursor <= |text| && data == text[old(cursor)..cursor] && |data| <= size
      ensures cursor == old(cursor) <==> size == 0 || old(cursor) == |text|
    {
      var n := if cursor + size > |text| then |text| - cursor else size;
      data := text[cursor..cursor + n];
      cursor := cursor + n;
    }
  }

  /** In the middle of line `s`: `taken` has been read behind `first`, then `c`, and `rest` is left. */
  ghost predicate Midway(first: Byte, s: seq<Byte>, taken: seq<Byte>, c: Option<Byte>, rest: seq<Byte>) {
    match c
    case None => rest == [] && [first] + Line(s) == taken && AfterLine(s) == []
    case Some(v) => [first] + Line(s) == taken + Line([v] + rest) && AfterLine(s) == AfterLine([v] + rest)
  }

  function Head(s: seq<Byte>): Option<Byte> {
    if s == [] then None else Some(s[0])
  }

  function Tail(s: seq<Byte>): seq<Byte> {
    if s == [] then [] else s[1..]
  }

  lemma {:induction false} ShortEnough(first: Byte)
    ensures Truncated([first]) == [first]
  {
  }

  lemma {:induction false} MidwayStart(first: Byte, s: seq<Byte>)
    ensures Midway(first, s, [first], Head(s), Tail(s))
  {
    if s != [] {
      assert s == [s[0]] + s[1..];
    }
  }

  lemma {:induction false} MidwayStep(first: Byte, s: seq<Byte>, taken: seq<Byte>, c: Byte, rest: seq<Byte>)
    requires Midway(first, s, taken, Some(c), rest) && !EndsLine(c)
    ensures Midway(first, s, taken + [c], Head(rest), Tail(rest))
  {
    LineStep(c, rest);
    assert taken + ([c] + Line(rest)) == (taken + [c]) + Line(rest);
    if rest != [] {
      assert rest == [rest[0]] + rest[1..];
    }
  }

  lemma {:induction false} MidwayEnd(first: Byte, s: seq<Byte>, taken: seq<Byte>, c: Option<Byte>, rest: seq<Byte>)
    requires Midway(first, s, taken, c, rest) && (c.Some? ==> EndsLine(c.value))
    ensures taken == [first] + Line(s) && rest == AfterLine(s)
  {
    if c.Some? {
      LineStep(c.value, rest);
    }
  }

  class MacroParser {
    const file: Reader
    const buffer: array<Byte>
    var bufLen: nat
    var bufPos: nat
    var eofReached: bool
    var lineNumber: nat
    const currentStr: array<Byte>
    var strPos: nat
    var strLen: nat

    /** The text still to be read. */
    ghost var unread: seq<Byte>

    /** The buffer and the file behind it hold the unread text. */
    ghost predicate Input()
      reads this, file, buffer
    {
      && buffer.Length == BUFFER && buffer != currentStr
      && bufPos <= bufLen <= BUFFER && file.cursor <= |file.text|
      && (eofReached ==> bufPos == bufLen && file.cursor == |file.text|)
      && unread == buffer[bufPos..bufLen] + file.text[file.cursor..]
    }

    ghost predicate Valid()
      reads this, file, buffer, currentStr
    {
      Input() && currentStr.Length == MAX_STRING + 1 && strPos <= strLen <= MAX_STRING
    }

    /** The unread text, and the string characters still to be delivered. */
    ghost function State(): Parser
      requires Valid()
      reads this, file, buffer, currentStr
    {
      Parser(unread, currentStr[strPos..strLen])
    }

    constructor (f: Reader)
      requires f.cursor <= |f.text|
      ensures Valid() && file == f && fresh(buffer) && fresh(currentStr)
      ensures State() == Parser(f.text[f.cursor..], [])
    {
      file := f;
      buffer := new Byte[BUFFER](i => 0);
      currentStr := new Byte[MAX_STRING + 1](i => 0);
      bufLen, bufPos, strPos, strLen := 0, 0, 0, 0;
      eofReached, lineNumber := false, 1;
      unread := f.text[f.cursor..];
    }

    method Refill() returns (ok: bool)
      requires Input() && bufPos == bufLen
      modifies this`bufLen, this`bufPos, this`eofReached, file, buffer
      ensures Input() && ok == (unread != []) && (ok ==> bufPos < bufLen)
    {
      assert buffer[bufPos..bufLen] == [];
      assert unread == file.text[file.cursor..];
      if eofReached {
        return false;
      }
      ghost var at := file.cursor;
      var data := file.Read(BUFFER);
      assert file.text[at..] == data + file.text[file.cursor..];
      if |data| == 0 {
        eofReached := true;
        bufLen, bufPos := 0, 0;
        return false;
      }
      CopyInto(buffer, 0, data);
      bufLen, bufPos := |data|, 0;
      assert buffer[0..|data|] == data;
      return true;
    }

    /** The next byte of the file, wherever the buffer ends; None at the end of the file. */
    method GetNextChar() returns (c: Option<Byte>)
      requires Input()
      modifies this`bufLen, this`bufPos, this`eofReached, this`unread, file, buffer
      ensures Input()
      ensures c == if old(unread) == [] then None else Some(old(unread)[0])
      ensures unread == if old(unread) == [] then [] else old(unread)[1..]
      ensures c.Some? ==> old(unread) == [c.value] + unread
    {
      if bufPos >= bufLen {
        var ok := Refill();
        if !ok {
          return None;
        }
      }
      c := Some(buffer[bufPos]);
      bufPos := bufPos + 1;
      unread := unread[1..];
    }

    method CountLine(c: Byte)
      modifies this`lineNumber
    {
      if c == 0x0A {
        lineNumber := lineNumber + 1;
      }
    }

    /** Skips white space and takes the character behind it. */
    method FirstChar() returns (c: Option<Byte>)
      requires Input()
      modifies this`bufLen, this`bufPos, this`eofReached, this`unread, this`lineNumber, file, buffer
      ensures Input()
      ensures var s := SkipSpace(old(unread));
              if s == [] then c == None && unread == [] else c.Some? && s == [c.value] + unread
    {
      c := GetNextChar();
      while c.Some? && IsSpace(c.value)
        invariant Input()
        invariant c.None? ==> unread == [] && SkipSpace(old(unread)) == []
        invariant c.Some? ==> SkipSpace(old(unread)) == SkipSpace([c.value] + unread)
        decreases |unread| + if c.Some? then 1 else 0
      {
        CountLine(c.value);
        assert ([c.value] + unread)[1..] == unread;
        c := GetNextChar();
      }
    }

    method FirstNonBlank() returns (c: Option<Byte>)
      requires Input()
      modifies this`bufLen, this`bufPos, this`eofReached, this`unread, file, buffer
      ensures Input()
      ensures var s := SkipBlank(old(unread));
              if s == [] then c == None && unread == [] else c.Some? && s == [c.value] + unread
    {
      c := GetNextChar();
      while c.Some? && (c.value == SPACE || c.value == TAB)
        invariant Input()
        invariant c.None? ==> unread == [] && SkipBlank(old(unread)) == []
        invariant c.Some? ==> SkipBlank(old(unread)) == SkipBlank([c.value] + unread)
        decreases |unread| + if c.Some? then 1 else 0
      {
        assert ([c.value] + unread)[1..] == unread;
        c := GetNextChar();
      }
    }

    /** Reads on from the first character of a word. */
    method Word(first: Byte) returns (word: seq<Byte>)
      requires Input()
      modifies this`bufLen, this`bufPos, this`eofReached, this`unread, this`lineNumber, file, buffer
      ensures Input()
      ensures word == [first] + WordRest(old(unread), 1) && unread == AfterWord(old(unread), 1)
    {
      word := [first];
      var more := true;
      while more
        invariant Input() && |word| >= 1
        invariant more ==> [first] + WordRest(old(unread), 1) == word + WordRest(unread, |word|)
        invariant more ==> AfterWord(old(unread), 1) == AfterWord(unread, |word|)
        invariant !more ==> word == [first] + WordRest(old(unread), 1) && unread == AfterWord(old(unread), 1)
        decreases more, |unread|
      {
        var c := GetNextChar();
        if c.None? || |word| >= 15 {
          more := false;
        } else if IsSpace(c.value) {
          CountLine(c.value);
          more := false;
        } else {
          word := word + [c.value];
        }
      }
    }

    /** Appends a character to the string buffer unless that is full. */
    method Keep(c: Byte, ghost taken: seq<Byte>)
      requires Valid() && strPos == 0 && currentStr[..strLen] == Truncated(taken)
      modifies this`strLen, currentStr
      ensures Valid() && currentStr[..strLen] == Truncated(taken + [c])
    {
      ghost var kept := currentStr[..strLen];
      if strLen < 31 {
        currentStr[strLen] := c;
        strLen := strLen + 1;
        assert currentStr[..strLen] == kept + [c];
      } else {
        assert (taken + [c])[..MAX_STRING] == taken[..MAX_STRING];
      }
    }

    /** Reads to the end of the line, keeping at most 31 characters; the character that ended it is returned. */
    method RestOfLine(first: Byte) returns (c: Option<Byte>)
      requires Valid() && strLen == 1 && strPos == 0 && currentStr[0] == first
      modifies this`bufLen, this`bufPos, this`eofReached, this`unread, this`strLen, file, buffer, currentStr
      ensures Valid() && strPos == 0 && unread == AfterLine(old(unread))
      ensures currentStr[..strLen] == Truncated([first] + Line(old(unread)))
    {
      hide Midway, Truncated, Line, AfterLine;
      ghost var s, taken := unread, [first];
      ShortEnough(first);
      assert currentStr[..1] == [first];
      c := GetNextChar();
      MidwayStart(first, s);
      while c.Some? && !EndsLine(c.value)
        invariant Valid() && strPos == 0 && currentStr[..strLen] == Truncated(taken)
        invariant Midway(first, s, taken, c, unread)
        decreases |unread| + if c.Some? then 1 else 0
      {
        MidwayStep(first, s, taken, c.value, unread);
        Keep(c.value, taken);
        taken := taken + [c.value];
        c := GetNextChar();
      }
      MidwayEnd(first, s, taken, c, unread);
    }

    /** The STRING command: the rest of the line goes into the string buffer, and its first character is delivered. */
    method StringCommand() returns (event: Event)
      requires Valid() && strPos == strLen
      modifies this, file, buffer, currentStr
      ensures Valid() && Result(event, State()) == StringResult(old(unread))
    {
      hide Truncated, SkipBlank, Line, AfterLine;
      NoLine();
      strLen, strPos := 0, 0;
      var c := FirstNonBlank();
      ghost var rest := unread;
      if c.Some? && !EndsLine(c.value) {
        LineStep(c.value, rest);
        currentStr[0] := c.value;
        strLen := 1;
        c := RestOfLine(c.value);
      } else if c.Some? {
        LineStep(c.value, rest);
      }
      if c.Some? {
        CountLine(c.value);
      }
      if strLen > 0 {
        event := TakePending();
      } else {
        event := NoCommand;
      }
    }

    method TakePending() returns (event: Event)
      requires Valid() && strPos < strLen
      modifies this`strPos
      ensures Valid() && event == CharacterEvent(old(State()).pending[0])
      ensures State() == old(State()).(pending := old(State()).pending[1..])
    {
      var ch := currentStr[strPos];
      strPos := strPos + 1;
      event := CharacterEvent(ch);
    }

    /** The DELAY command: a number of at most nine characters, converted as the C library does. */
    method DelayCommand() returns (event: Event)
      requires Valid() && strPos == strLen
      modifies this`bufLen, this`bufPos, this`eofReached, this`unread, this`lineNumber, file, buffer
      ensures Valid() && Result(event, State()) == DelayResult(old(unread))
    {
      var c := FirstChar();
      var num: seq<Byte> := [];
      if c.Some? {
        ghost var rest := unread;
        assert ([c.value] + rest)[1..] == rest;
        num := Number(c.value);
      }
      event := Delay(Atoi(num) % WORD32);
    }

    method Number(first: Byte) returns (num: seq<Byte>)
      requires Input()
      modifies this`bufLen, this`bufPos, this`eofReached, this`unread, file, buffer
      ensures Input()
      ensures num == [first] + DigitsRest(old(unread), 1) && unread == AfterDigits(old(unread), 1)
    {
      num := [first];
      var more := true;
      while more
        invariant Input() && |num| >= 1
        invariant more ==> [first] + DigitsRest(old(unread), 1) == num + DigitsRest(unread, |num|)
        invariant more ==> AfterDigits(old(unread), 1) == AfterDigits(unread, |num|)
        invariant !more ==> num == [first] + DigitsRest(old(unread), 1) && unread == AfterDigits(old(unread), 1)
        decreases more, |unread|
      {
        var c := GetNextChar();
        if c.None? || !IsDigit(c.value) || |num| >= 9 {
          more := false;
        } else {
          num := num + [c.value];
        }
      }
    }

    /** One call: a pending character, or the next command of the text, wherever the refills fall. */
    method NextEvent() returns (event: Event)
      requires Valid()
      modifies this, file, buffer, currentStr
      ensures Valid() && Result(event, State()) == Next(old(State()))
    {
      if strPos < strLen {
        event := TakePending();
        return;
      }
      assert currentStr[strPos..strLen] == [];
      var c := FirstChar();
      if c.None? {
        return EndOfFile;
      }
      ghost var rest := unread;
      assert ([c.value] + rest)[1..] == rest;
      var token := Word(c.value);
      var word := UpToZero(token);
      if word == STRING_WORD {
        event := StringCommand();
      } else if word == DELAY_WORD {
        event := DelayCommand();
      } else if word == ENTER_WORD {
        event := ENTER_EVENT;
      } else {
        event := NoCommand;
      }
    }
  }

  /** Calling the parser until the end of the file delivers the events of the text: they depend on nothing else. */
  method ReadAll(text: seq<Byte>) returns (events: seq<Event>)
    ensures events == Events(Parser(text, []))
  {
    hide Next, Events;
    var file := new Reader(text);
    assert text[0..] == text;
    var parser := new MacroParser(file);
    events := [];
    var more := true;
    while more
      invariant parser.Valid() && fresh(parser) && fresh(parser.file) && fresh(parser.buffer)
                && fresh(parser.currentStr)
      invariant more ==> Events(Parser(text, [])) == events + Events(parser.State())
      invariant !more ==> Events(Parser(text, [])) == events
      decreases more, Size(parser.State())
    {
      ghost var before := parser.State();
      NextShrinks(before);
      var event := parser.NextEvent();
      if event == EndOfFile {
        EventsEnd(before);
        more := false;
      } else {
        EventsStep(before);
        events := events + [event];
      }
    }
  }
}
