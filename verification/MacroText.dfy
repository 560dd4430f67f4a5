/** The macro language as a function of the file text: what each call of the parser recognises. */
module MacroText {
  import opened Bytes

  const MAX_WORD: nat := 15
  const MAX_STRING: nat := 31
  const MAX_DIGITS: nat := 9

  const NEWLINE: Byte := 0x0A
  const RETURN: Byte := 0x0D
  const SPACE: Byte := 0x20
  const TAB: Byte := 0x09
  const MINUS: Byte := 0x2D
  const PLUS: Byte := 0x2B

  const KEY_NONE: nat := 0x00
  const KEY_A: nat := 0x04
  const KEY_ENTER: nat := 0x28
  const KEY_SPACE: nat := 0x2C
  const MOD_NONE: nat := 0x00
  const MOD_LSHIFT: nat := 0x02

  datatype Event =
    | EndOfFile
    | NoCommand
    | Character(ch: Byte, modifier: nat, keycode: nat, delayMs: nat)
    | Delay(delayMs: nat)
    | Enter(modifier: nat, keycode: nat, delayMs: nat)

  predicate IsSpace(c: Byte) {
    c == SPACE || 0x09 <= c <= 0x0D
  }

  predicate IsDigit(c: Byte) {
    0x30 <= c <= 0x39
  }

  predicate EndsLine(c: Byte) {
    c == NEWLINE || c == RETURN
  }

  /** The key and modifier that type a character. */
  function CharToHid(c: Byte): (nat, nat) {
    if 0x61 <= c <= 0x7A then (KEY_A + (c - 0x61), MOD_NONE)
    else if 0x41 <= c <= 0x5A then (KEY_A + (c - 0x41), MOD_LSHIFT)
    else if c == SPACE then (KEY_SPACE, MOD_NONE)
    else if EndsLine(c) then (KEY_ENTER, MOD_NONE)
    else (KEY_NONE, MOD_NONE)
  }

  function CharacterEvent(c: Byte): Event {
    Character(c, CharToHid(c).1, CharToHid(c).0, 20)
  }

  const ENTER_EVENT := Enter(MOD_NONE, KEY_ENTER, 50)

  // ----- pieces of text

  function SkipSpace(s: seq<Byte>): (r: seq<Byte>)
    ensures |r| <= |s|
    ensures r == [] || !IsSpace(r[0])
    decreases |s|
  {
    if s == [] || !IsSpace(s[0]) then s else SkipSpace(s[1..])
  }

  function SkipBlank(s: seq<Byte>): (r: seq<Byte>)
    ensures |r| <= |s|
    decreases |s|
  {
    if s == [] || (s[0] != SPACE && s[0] != TAB) then s else SkipBlank(s[1..])
  }

  /** The rest of a word of which `n` characters have been read: up to white space, or until it is full. */
  function WordRest(s: seq<Byte>, n: nat): seq<Byte>
    decreases |s|
  {
    if s == [] || n >= MAX_WORD || IsSpace(s[0]) then [] else [s[0]] + WordRest(s[1..], n + 1)
  }

  /** The text behind it: the character that ended the word is lost. */
  function AfterWord(s: seq<Byte>, n: nat): (r: seq<Byte>)
    ensures |r| <= |s|
    ensures |r| + |WordRest(s, n)| <= |s|
    decreases |s|
  {
    if s == [] then [] else if n >= MAX_WORD || IsSpace(s[0]) then s[1..] else AfterWord(s[1..], n + 1)
  }

  function Line(s: seq<Byte>): (r: seq<Byte>)
    decreases |s|
  {
    if s == [] || EndsLine(s[0]) then [] else [s[0]] + Line(s[1..])
  }

  function AfterLine(s: seq<Byte>): (r: seq<Byte>)
    ensures |Line(s)| + |r| <= |s|
    decreases |s|
  {
    if s == [] then [] else if EndsLine(s[0]) then s[1..] else AfterLine(s[1..])
  }

  lemma {:induction false} NoLine()
    ensures Line([]) == [] && AfterLine([]) == [] && Truncated([]) == []
  {
  }

  lemma {:induction false} LineStep(c: Byte, rest: seq<Byte>)
    ensures Line([c] + rest) == if EndsLine(c) then [] else [c] + Line(rest)
    ensures AfterLine([c] + rest) == if EndsLine(c) then rest else AfterLine(rest)
  {
    assert ([c] + rest)[1..] == rest;
  }

  /** The rest of a number of which `n` characters have been read. */
  function DigitsRest(s: seq<Byte>, n: nat): seq<Byte>
    decreases |s|
  {
    if s == [] || !IsDigit(s[0]) || n >= MAX_DIGITS then [] else [s[0]] + DigitsRest(s[1..], n + 1)
  }

  function AfterDigits(s: seq<Byte>, n: nat): (r: seq<Byte>)
    ensures |r| <= |s|
    decreases |s|
  {
    if s == [] then [] else if !IsDigit(s[0]) || n >= MAX_DIGITS then s[1..] else AfterDigits(s[1..], n + 1)
  }

  /** The value of the digits at the front of `s`, behind `acc`. */
  function Decimal(s: seq<Byte>, acc: nat): nat
    decreases |s|
  {
    if s == [] || !IsDigit(s[0]) then acc else Decimal(s[1..], acc * 10 + (s[0] - 0x30) as int)
  }

  /** The C library's conversion, for text without leading white space. */
  function Atoi(s: seq<Byte>): int {
    if s == [] then 0
    else if s[0] == MINUS then -(Decimal(s[1..], 0) as int)
    else if s[0] == PLUS then Decimal(s[1..], 0)
    else Decimal(s, 0)
  }

  function Truncated(s: seq<Byte>): (r: seq<Byte>)
    ensures |r| <= |s| && |r| <= MAX_STRING
  {
    if |s| <= MAX_STRING then s else s[..MAX_STRING]
  }

  const STRING_WORD: seq<Byte> := [0x53, 0x54, 0x52, 0x49, 0x4E, 0x47]
  const DELAY_WORD: seq<Byte> := [0x44, 0x45, 0x4C, 0x41, 0x59]
  const ENTER_WORD: seq<Byte> := [0x45, 0x4E, 0x54, 0x45, 0x52]

  // ----- one call

  /** The unread text, and the characters of a string still to be delivered. */
  datatype Parser = Parser(unread: seq<Byte>, pending: seq<Byte>)

  datatype Result = Result(event: Event, parser: Parser)

  function StringResult(s: seq<Byte>): Result {
    var line := SkipBlank(s);
    var text := Truncated(Line(line));
    if text == [] then Result(NoCommand, Parser(AfterLine(line), []))
    else Result(CharacterEvent(text[0]), Parser(AfterLine(line), text[1..]))
  }

  function DelayResult(s: seq<Byte>): Result {
    var number := SkipSpace(s);
    if number == [] then Result(Delay(0), Parser([], []))
    else
      var digits := [number[0]] + DigitsRest(number[1..], 1);
      Result(Delay(Atoi(digits) % WORD32), Parser(AfterDigits(number[1..], 1), []))
  }

  function Next(p: Parser): Result {
    if p.pending != [] then Result(CharacterEvent(p.pending[0]), p.(pending := p.pending[1..]))
    else
      var s := SkipSpace(p.unread);
      if s == [] then Result(EndOfFile, Parser([], []))
      else
        var word, rest := UpToZero([s[0]] + WordRest(s[1..], 1)), AfterWord(s[1..], 1);
        if word == STRING_WORD then StringResult(rest)
        else if word == DELAY_WORD then DelayResult(rest)
        else Result(if word == ENTER_WORD then ENTER_EVENT else NoCommand, Parser(rest, []))
  }

  function Size(p: Parser): nat {
    |p.unread| + |p.pending|
  }

  /** Every call that does not report the end of the file uses up text or pending characters. */
  lemma {:induction false} NextShrinks(p: Parser)
    ensures Next(p).event != EndOfFile ==> Size(Next(p).parser) < Size(p)
    ensures Next(p).event == EndOfFile ==> Next(p).parser == Parser([], [])
  {
  }

  /** All events of a text, up to its end. */
  function Events(p: Parser): seq<Event>
    decreases Size(p)
  {
    NextShrinks(p);
    var r := Next(p);
    if r.event == EndOfFile then [] else [r.event] + Events(r.parser)
  }

  // ----- a reference: scripts of commands and the events they stand for

  datatype Command = Type(text: seq<Byte>) | Wait(ms: nat) | Return

  /** Text for a STRING line: not empty, no line end, and no leading blank. */
  predicate Writable(c: Command) {
    match c
    case Type(text) => text != [] && text[0] != SPACE && text[0] != TAB
                       && forall i {:trigger text[i]} :: 0 <= i < |text| ==> !EndsLine(text[i])
    case Wait(ms) => ms < 1_000_000_000
    case Return => true
  }

  function Numeral(n: nat): (s: seq<Byte>)
    ensures s != []
    ensures forall i {:trigger s[i]} :: 0 <= i < |s| ==> IsDigit(s[i])
    decreases n
  {
    if n < 10 then [0x30 + n] else Numeral(n / 10) + [0x30 + n % 10]
  }

  function Write(c: Command): seq<Byte> {
    match c
    case Type(text) => STRING_WORD + [SPACE] + text + [NEWLINE]
    case Wait(ms) => DELAY_WORD + [SPACE] + Numeral(ms) + [NEWLINE]
    case Return => ENTER_WORD + [NEWLINE]
  }

  function WriteAll(script: seq<Command>): seq<Byte>
    decreases |script|
  {
    if script == [] then [] else Write(script[0]) + WriteAll(script[1..])
  }

  function CharacterEvents(text: seq<Byte>): seq<Event> {
    seq(|text|, i requires 0 <= i < |text| => CharacterEvent(text[i]))
  }

  /** Of a longer text, the first 31 characters are typed. */
  function Meaning(c: Command): seq<Event> {
    match c
    case Type(text) => CharacterEvents(Truncated(text))
    case Wait(ms) => [Delay(ms)]
    case Return => [ENTER_EVENT]
  }

  function MeaningAll(script: seq<Command>): seq<Event>
    decreases |script|
  {
    if script == [] then [] else Meaning(script[0]) + MeaningAll(script[1..])
  }

  // ----- reading a script back

  lemma {:induction false} WordThen(word: seq<Byte>, n: nat, rest: seq<Byte>)
    requires n + |word| < MAX_WORD && (rest == [] || IsSpace(rest[0]))
    requires forall i {:trigger word[i]} :: 0 <= i < |word| ==> !IsSpace(word[i])
    ensures WordRest(word + rest, n) == word
    ensures AfterWord(word + rest, n) == if rest == [] then [] else rest[1..]
    decreases |word|
  {
    if word == [] {
      assert word + rest == rest;
    } else {
      assert (word + rest)[1..] == word[1..] + rest;
      WordThen(word[1..], n + 1, rest);
    }
  }

  lemma {:induction false} LineThen(text: seq<Byte>, rest: seq<Byte>)
    requires forall i {:trigger text[i]} :: 0 <= i < |text| ==> !EndsLine(text[i])
    ensures Line(text + [NEWLINE] + rest) == text && AfterLine(text + [NEWLINE] + rest) == rest
    decreases |text|
  {
    var s := text + [NEWLINE] + rest;
    if text == [] {
      assert s[1..] == rest;
    } else {
      assert s[1..] == text[1..] + [NEWLINE] + rest;
      LineThen(text[1..], rest);
    }
  }

  lemma {:induction false} DigitsThen(digits: seq<Byte>, n: nat, rest: seq<Byte>)
    requires n + |digits| <= MAX_DIGITS
    requires forall i {:trigger digits[i]} :: 0 <= i < |digits| ==> IsDigit(digits[i])
    ensures DigitsRest(digits + [NEWLINE] + rest, n) == digits && AfterDigits(digits + [NEWLINE] + rest, n) == rest
    decreases |digits|
  {
    var s := digits + [NEWLINE] + rest;
    if digits == [] {
      assert s[1..] == rest;
    } else {
      assert s[1..] == digits[1..] + [NEWLINE] + rest;
      DigitsThen(digits[1..], n + 1, rest);
    }
  }

  function Power10(k: nat): nat {
    if k == 0 then 1 else 10 * Power10(k - 1)
  }

  lemma {:induction false} NumeralLength(n: nat, k: nat)
    requires k > 0 && n < Power10(k)
    ensures |Numeral(n)| <= k
    decreases k
  {
    if n >= 10 {
      NumeralLength(n / 10, k - 1);
    }
  }

  lemma {:induction false} DecimalSnoc(s: seq<Byte>, d: Byte, acc: nat)
    requires IsDigit(d) && forall i {:trigger s[i]} :: 0 <= i < |s| ==> IsDigit(s[i])
    ensures Decimal(s + [d], acc) == Decimal(s, acc) * 10 + (d - 0x30) as int
    decreases |s|
  {
    if s == [] {
      assert (s + [d])[1..] == [];
    } else {
      assert (s + [d])[1..] == s[1..] + [d];
      DecimalSnoc(s[1..], d, acc * 10 + (s[0] - 0x30) as int);
    }
  }

  lemma {:induction false} DecimalNumeral(n: nat)
    ensures Decimal(Numeral(n), 0) == n
    decreases n
  {
    if n >= 10 {
      DecimalNumeral(n / 10);
      DecimalSnoc(Numeral(n / 10), 0x30 + n % 10, 0);
    }
  }

  /** A word in front of white space is what the parser reads as its command. */
  lemma {:induction false} ReadWord(word: seq<Byte>, tail: seq<Byte>)
    requires 0 < |word| < MAX_WORD && tail != [] && IsSpace(tail[0])
    requires 0 !in word && forall i {:trigger word[i]} :: 0 <= i < |word| ==> !IsSpace(word[i])
    ensures var s := word + tail;
            && SkipSpace(s) == s && s[1..] == word[1..] + tail
            && UpToZero([s[0]] + WordRest(s[1..], 1)) == word && AfterWord(s[1..], 1) == tail[1..]
  {
    hide WordRest, AfterWord;
    var s := word + tail;
    assert s[1..] == word[1..] + tail && s[0] == word[0];
    WordThen(word[1..], 1, tail);
    assert [word[0]] + word[1..] == word;
    NoZero(word);
  }

  lemma {:induction false} ReadType(text: seq<Byte>, rest: seq<Byte>)
    requires Writable(Type(text))
    ensures Next(Parser(Write(Type(text)) + rest, [])) ==
            Result(CharacterEvent(text[0]), Parser(rest, Truncated(text)[1..]))
  {
    hide WordRest, AfterWord, UpToZero, SkipSpace;
    var tail := [SPACE] + (text + [NEWLINE] + rest);
    assert Write(Type(text)) + rest == STRING_WORD + tail;
    ReadWord(STRING_WORD, tail);
    assert tail[1..] == text + [NEWLINE] + rest;
    LineThen(text, rest);
  }

  lemma {:induction false} NumeralFits(ms: nat)
    requires ms < 1_000_000_000
    ensures |Numeral(ms)| <= MAX_DIGITS
  {
    assert Power10(3) == 1000;
    assert Power10(6) == 1_000_000;
    assert Power10(9) == 1_000_000_000;
    NumeralLength(ms, MAX_DIGITS);
  }

  lemma {:induction false} NoSpaceToSkip(s: seq<Byte>)
    ensures s != [] && IsDigit(s[0]) ==> SkipSpace(s) == s
  {
  }

  lemma {:induction false} AtoiOfDigits(digits: seq<Byte>)
    requires digits != [] && IsDigit(digits[0])
    ensures Atoi(digits) == Decimal(digits, 0)
  {
  }

  /** A number read from its first digit on. */
  lemma {:induction false} DelayFrom(number: seq<Byte>, digits: seq<Byte>, rest: seq<Byte>)
    requires number != [] && IsDigit(number[0])
    requires DigitsRest(number[1..], 1) == digits && AfterDigits(number[1..], 1) == rest
    ensures DelayResult(number) == Result(Delay(Decimal([number[0]] + digits, 0) % WORD32), Parser(rest, []))
  {
    hide Decimal, DigitsRest, AfterDigits, Atoi, SkipSpace;
    NoSpaceToSkip(number);
    AtoiOfDigits([number[0]] + digits);
  }

  lemma {:induction false} ReadNumber(digits: seq<Byte>, rest: seq<Byte>)
    requires 0 < |digits| <= MAX_DIGITS && forall i {:trigger digits[i]} :: 0 <= i < |digits| ==> IsDigit(digits[i])
    ensures DelayResult(digits + [NEWLINE] + rest) == Result(Delay(Decimal(digits, 0) % WORD32), Parser(rest, []))
  {
    hide *;
    var number, more := digits + [NEWLINE] + rest, digits[1..];
    assert number[1..] == more + [NEWLINE] + rest;
    assert IsDigit(digits[0]) && number[0] == digits[0];
    DigitsThen(more, 1, rest);
    assert [number[0]] + more == digits;
    DelayFrom(number, more, rest);
  }

  lemma {:induction false} ReadWait(ms: nat, rest: seq<Byte>)
    requires Writable(Wait(ms))
    ensures Next(Parser(Write(Wait(ms)) + rest, [])) == Result(Delay(ms), Parser(rest, []))
  {
    hide Numeral, DelayResult, StringResult, Decimal, WordRest, AfterWord, UpToZero, SkipSpace;
    var digits := Numeral(ms);
    NumeralFits(ms);
    DecimalNumeral(ms);
    ReadNumber(digits, rest);
    var tail := [SPACE] + (digits + [NEWLINE] + rest);
    assert Write(Wait(ms)) + rest == DELAY_WORD + tail;
    ReadWord(DELAY_WORD, tail);
    assert tail[1..] == digits + [NEWLINE] + rest;
  }

  lemma {:induction false} ReadReturn(rest: seq<Byte>)
    ensures Next(Parser(Write(Return) + rest, [])) == Result(ENTER_EVENT, Parser(rest, []))
  {
    hide WordRest, AfterWord, UpToZero, SkipSpace;
    var tail := [NEWLINE] + rest;
    assert Write(Return) + rest == ENTER_WORD + tail;
    ReadWord(ENTER_WORD, tail);
  }

  lemma {:induction false} DeliverPending(unread: seq<Byte>, pending: seq<Byte>)
    ensures Events(Parser(unread, pending)) == CharacterEvents(pending) + Events(Parser(unread, []))
    decreases |pending|
  {
    if pending != [] {
      DeliverPending(unread, pending[1..]);
      assert CharacterEvents(pending) == [CharacterEvent(pending[0])] + CharacterEvents(pending[1..]);
    } else {
      assert CharacterEvents(pending) == [];
    }
  }

  lemma {:induction false} EventsStep(p: Parser)
    requires Next(p).event != EndOfFile
    ensures Events(p) == [Next(p).event] + Events(Next(p).parser)
  {
    hide Next;
    NextShrinks(p);
  }

  lemma {:induction false} EventsEnd(p: Parser)
    requires Next(p).event == EndOfFile
    ensures Events(p) == []
  {
    hide Next;
  }

  lemma {:induction false} ReadCommand(c: Command, rest: seq<Byte>)
    requires Writable(c)
    ensures Events(Parser(Write(c) + rest, [])) == Meaning(c) + Events(Parser(rest, []))
  {
    hide Next, Events, Write;
    var p := Parser(Write(c) + rest, []);
    match c
    case Type(text) =>
      ReadType(text, rest);
      EventsStep(p);
      var typed := Truncated(text);
      DeliverPending(rest, typed[1..]);
      assert CharacterEvents(typed) == [CharacterEvent(text[0])] + CharacterEvents(typed[1..]);
    case Wait(ms) =>
      ReadWait(ms, rest);
      EventsStep(p);
    case Return =>
      ReadReturn(rest);
      EventsStep(p);
  }

  /** A STRING line types its whole text if and only if that has at most 31 characters. */
  lemma {:induction false} TypedWholeIff(text: seq<Byte>)
    requires Writable(Type(text))
    ensures Events(Parser(Write(Type(text)), [])) == CharacterEvents(text) <==> |text| <= 31
  {
    hide Next, Write, Writable;
    assert Write(Type(text)) + [] == Write(Type(text));
    ReadCommand(Type(text), []);
    EventsOfNothing();
    assert |CharacterEvents(Truncated(text))| == |Truncated(text)|;
  }

  lemma {:induction false} EventsOfNothing()
    ensures Events(Parser([], [])) == []
  {
  }

  /** A script written out as text is read back as exactly the events its commands stand for. */
  lemma {:induction false} ScriptRoundTrip(script: seq<Command>)
    requires forall i {:trigger script[i]} :: 0 <= i < |script| ==> Writable(script[i])
    ensures Events(Parser(WriteAll(script), [])) == MeaningAll(script)
    decreases |script|
  {
    if script != [] {
      ReadCommand(script[0], WriteAll(script[1..]));
      ScriptRoundTrip(script[1..]);
    }
  }
}
