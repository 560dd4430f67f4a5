/** The macro language line by line, in characters: which text leads to which event, and what is left to read. */
module MacroLines {
  import opened Bytes
  import opened MacroText

  /** Space, tab, line feed, vertical tab, form feed or carriage return. */
  predicate White(c: Byte) {
    c in {32, 9, 10, 11, 12, 13}
  }

  predicate AllWhite(s: seq<Byte>) {
    forall i {:trigger s[i]} :: 0 <= i < |s| ==> White(s[i])
  }

  predicate NoneWhite(s: seq<Byte>) {
    forall i {:trigger s[i]} :: 0 <= i < |s| ==> !White(s[i]) && s[i] != 0
  }

  /** Key and modifier of a character as HID usages, with a delay of 20: letters from 4 on, with shift for capitals,
      44 for a space, 40 for either line end, and no key for anything else. */
  lemma {:induction false} KeyOfCharacter(c: Byte)
    ensures CharacterEvent(c) ==
            if 97 <= c <= 122 then Character(c, 0, c - 93, 20)
            else if 65 <= c <= 90 then Character(c, 2, c - 61, 20)
            else if c == 32 then Character(c, 0, 44, 20)
            else if c == 10 || c == 13 then Character(c, 0, 40, 20)
            else Character(c, 0, 0, 20)
  {
  }

  lemma {:induction false} WhiteIsSpace(c: Byte)
    ensures IsSpace(c) <==> White(c)
  {
  }

  // ----- words

  lemma {:induction false} SkipsWhite(space: seq<Byte>, s: seq<Byte>)
    requires AllWhite(space) && (s == [] || !White(s[0]))
    ensures SkipSpace(space + s) == s
    decreases |space|
  {
    if space == [] {
      assert space + s == s;
      if s != [] {
        WhiteIsSpace(s[0]);
      }
    } else {
      WhiteIsSpace(space[0]);
      assert (space + s)[1..] == space[1..] + s;
      SkipsWhite(space[1..], s);
    }
  }

  /** A word ends at white space or at its fifteenth character; the character behind it is lost. */
  lemma {:induction false} WordEnds(word: seq<Byte>, n: nat, end: Byte, rest: seq<Byte>)
    requires NoneWhite(word) && n + |word| <= 15 && (White(end) || n + |word| == 15)
    ensures WordRest(word + [end] + rest, n) == word && AfterWord(word + [end] + rest, n) == rest
    decreases |word|
  {
    var s := word + [end] + rest;
    WhiteIsSpace(s[0]);
    if word == [] {
      assert s[1..] == rest;
    } else {
      assert s[1..] == word[1..] + [end] + rest;
      WordEnds(word[1..], n + 1, end, rest);
    }
  }

  lemma {:induction false} WordAtEnd(word: seq<Byte>, n: nat)
    requires NoneWhite(word) && n + |word| <= 15
    ensures WordRest(word, n) == word && AfterWord(word, n) == []
    decreases |word|
  {
    if word != [] {
      WhiteIsSpace(word[0]);
      WordAtEnd(word[1..], n + 1);
    }
  }

  /** What a command word leads to. */
  function Obeyed(word: seq<Byte>, rest: seq<Byte>): Result {
    if word == [83, 84, 82, 73, 78, 71] then StringResult(rest)
    else if word == [68, 69, 76, 65, 89] then DelayResult(rest)
    else if word == [69, 78, 84, 69, 82] then Result(Enter(0, 40, 50), Parser(rest, []))
    else Result(NoCommand, Parser(rest, []))
  }

  /** Behind any white space, a call reads a word of at most fifteen characters and the one that ended it: STRING,
      DELAY and ENTER are obeyed, and every other word is passed over. */
  lemma {:induction false} ReadsWord(space: seq<Byte>, word: seq<Byte>, end: Byte, rest: seq<Byte>)
    requires AllWhite(space) && NoneWhite(word) && 0 < |word| <= 15 && (White(end) || |word| == 15)
    ensures Next(Parser(space + word + [end] + rest, [])) == Obeyed(word, rest)
  {
    hide SkipSpace, WordRest, AfterWord, UpToZero, StringResult, DelayResult, NoneWhite, AllWhite, White;
    var s := word + [end] + rest;
    assert space + word + [end] + rest == space + s;
    FirstOfWord(word);
    assert s[0] == word[0];
    SkipsWhite(space, s);
    assert s[1..] == word[1..] + [end] + rest;
    WordEnds(word[1..], 1, end, rest);
    assert [word[0]] + word[1..] == word;
    NoZero(word);
  }

  lemma {:induction false} FirstOfWord(word: seq<Byte>)
    requires NoneWhite(word) && word != []
    ensures !White(word[0]) && NoneWhite(word[1..]) && 0 !in word
  {
  }

  /** The last word of a file needs nothing behind it. */
  lemma {:induction false} ReadsLastWord(space: seq<Byte>, word: seq<Byte>)
    requires AllWhite(space) && NoneWhite(word) && 0 < |word| <= 15
    ensures Next(Parser(space + word, [])) == Obeyed(word, [])
  {
    hide SkipSpace, WordRest, AfterWord, UpToZero, StringResult, DelayResult, NoneWhite, AllWhite, White;
    FirstOfWord(word);
    SkipsWhite(space, word);
    WordAtEnd(word[1..], 1);
    assert [word[0]] + word[1..] == word;
    NoZero(word);
  }

  /** White space alone is the end of the file. */
  lemma {:induction false} ReadsEnd(space: seq<Byte>)
    requires AllWhite(space)
    ensures Next(Parser(space, [])) == Result(EndOfFile, Parser([], []))
  {
    SkipsWhite(space, []);
    assert space + [] == space;
  }

  // ----- strings

  predicate NoLineEnd(text: seq<Byte>) {
    forall i {:trigger text[i]} :: 0 <= i < |text| ==> text[i] != 10 && text[i] != 13
  }

  predicate Blanks(s: seq<Byte>) {
    forall i {:trigger s[i]} :: 0 <= i < |s| ==> s[i] == 32 || s[i] == 9
  }

  lemma {:induction false} SkipsBlanks(blanks: seq<Byte>, s: seq<Byte>)
    requires Blanks(blanks) && (s == [] || (s[0] != 32 && s[0] != 9))
    ensures SkipBlank(blanks + s) == s
    decreases |blanks|
  {
    if blanks == [] {
      assert blanks + s == s;
    } else {
      assert (blanks + s)[1..] == blanks[1..] + s;
      SkipsBlanks(blanks[1..], s);
    }
  }

  lemma {:induction false} LineEnds(text: seq<Byte>, end: Byte, rest: seq<Byte>)
    requires NoLineEnd(text) && (end == 10 || end == 13)
    ensures Line(text + [end] + rest) == text && AfterLine(text + [end] + rest) == rest
    decreases |text|
  {
    var s := text + [end] + rest;
    if text == [] {
      assert s[1..] == rest;
    } else {
      assert s[1..] == text[1..] + [end] + rest;
      LineEnds(text[1..], end, rest);
    }
  }

  lemma {:induction false} LineAtEnd(text: seq<Byte>)
    requires NoLineEnd(text)
    ensures Line(text) == text && AfterLine(text) == []
    decreases |text|
  {
    if text != [] {
      LineAtEnd(text[1..]);
    }
  }

  /** What a string command delivers: its first character at once and up to thirty more in the calls to come. */
  function Delivered(text: seq<Byte>, rest: seq<Byte>): Result {
    if text == [] then Result(NoCommand, Parser(rest, []))
    else Result(CharacterEvent(text[0]), Parser(rest, if |text| <= 31 then text[1..] else text[1..31]))
  }

  /** Behind spaces and tabs, a string reaches to the next line feed or carriage return, which is lost, or to the end of
      the file; of more than 31 characters the rest is dropped. */
  lemma {:induction false} ReadsString(blanks: seq<Byte>, text: seq<Byte>, end: Byte, rest: seq<Byte>)
    requires Blanks(blanks) && NoLineEnd(text) && (text == [] || (text[0] != 32 && text[0] != 9))
    requires end == 10 || end == 13
    ensures StringResult(blanks + text + [end] + rest) == Delivered(text, rest)
    ensures StringResult(blanks + text) == Delivered(text, [])
  {
    hide SkipBlank, Line, AfterLine, CharacterEvent, Blanks, NoLineEnd;
    var s := text + [end] + rest;
    assert blanks + text + [end] + rest == blanks + s;
    SkipsBlanks(blanks, s);
    LineEnds(text, end, rest);
    SkipsBlanks(blanks, text);
    LineAtEnd(text);
    assert |text| > 31 ==> text[..31][1..] == text[1..31];
  }

  // ----- numbers

  predicate Digits(s: seq<Byte>) {
    forall i {:trigger s[i]} :: 0 <= i < |s| ==> 48 <= s[i] <= 57
  }

  /** The number that decimal digits stand for. */
  function Amount(digits: seq<Byte>): int
    decreases |digits|
  {
    if digits == [] then 0 else 10 * Amount(digits[..|digits| - 1]) + (digits[|digits| - 1] as int - 48)
  }

  lemma {:induction false} DecimalIsAmount(digits: seq<Byte>)
    requires Digits(digits)
    ensures Decimal(digits, 0) == Amount(digits)
    decreases |digits|
  {
    if digits != [] {
      var front, last := digits[..|digits| - 1], digits[|digits| - 1];
      DecimalIsAmount(front);
      DecimalSnoc(front, last, 0);
      assert front + [last] == digits;
    }
  }

  lemma {:induction false} DigitsEnd(digits: seq<Byte>, n: nat, end: Byte, rest: seq<Byte>)
    requires Digits(digits) && n + |digits| <= 9 && (!(48 <= end <= 57) || n + |digits| == 9)
    ensures DigitsRest(digits + [end] + rest, n) == digits && AfterDigits(digits + [end] + rest, n) == rest
    decreases |digits|
  {
    var s := digits + [end] + rest;
    if digits == [] {
      assert s[1..] == rest;
    } else {
      assert s[1..] == digits[1..] + [end] + rest;
      DigitsEnd(digits[1..], n + 1, end, rest);
    }
  }

  /** Behind white space, a delay is a number of at most nine digits, or a sign and at most eight; what follows it, also
      a tenth digit, is lost. A negative number wraps round at 2^32. */
  lemma {:induction false} ReadsDelay(space: seq<Byte>, sign: seq<Byte>, digits: seq<Byte>, end: Byte, rest: seq<Byte>)
    requires AllWhite(space) && sign in {[], [43], [45]} && Digits(digits) && 0 < |sign| + |digits| <= 9
    requires !(48 <= end <= 57) || |sign| + |digits| == 9
    ensures DelayResult(space + sign + digits + [end] + rest) ==
            var n := Amount(digits);
            Result(Delay((if sign == [45] then -n else n) % 0x1_0000_0000), Parser(rest, []))
  {
    hide SkipSpace, DigitsRest, AfterDigits, Decimal, Amount, AllWhite, Digits, White;
    var number, s := sign + digits, sign + digits + [end] + rest;
    assert space + sign + digits + [end] + rest == space + s;
    FirstOfNumber(sign, digits);
    assert s[0] == number[0];
    SkipsWhite(space, s);
    assert s[1..] == number[1..] + [end] + rest;
    DigitsEnd(number[1..], 1, end, rest);
    assert [s[0]] + number[1..] == number;
    NumberIs(sign, digits);
  }

  lemma {:induction false} FirstOfNumber(sign: seq<Byte>, digits: seq<Byte>)
    requires sign in {[], [43], [45]} && Digits(digits) && 0 < |sign| + |digits|
    ensures !White((sign + digits)[0]) && Digits((sign + digits)[1..])
  {
    if sign != [] {
      assert (sign + digits)[1..] == digits;
    } else {
      assert sign + digits == digits;
    }
  }

  lemma {:induction false} NumberIs(sign: seq<Byte>, digits: seq<Byte>)
    requires sign in {[], [43], [45]} && Digits(digits) && 0 < |sign| + |digits|
    ensures Atoi(sign + digits) == if sign == [45] then -Amount(digits) else Amount(digits)
  {
    hide Decimal, Amount;
    DecimalIsAmount(digits);
    if sign != [] {
      assert (sign + digits)[1..] == digits;
    } else {
      assert sign + digits == digits;
      assert 48 <= digits[0] <= 57;
    }
  }

  /** Anything else behind white space is no number, and lost. */
  lemma {:induction false} ReadsNoDelay(space: seq<Byte>, c: Byte, end: Byte, rest: seq<Byte>)
    requires AllWhite(space) && !White(c) && !(48 <= c <= 57) && c != 43 && c != 45 && !(48 <= end <= 57)
    ensures DelayResult(space + [c, end] + rest) == Result(Delay(0), Parser(rest, []))
    ensures DelayResult(space) == Result(Delay(0), Parser([], []))
  {
    hide SkipSpace, AllWhite, White;
    var s := [c, end] + rest;
    assert space + [c, end] + rest == space + s;
    SkipsWhite(space, s);
    SkipsWhite(space, []);
    assert space + [] == space;
    assert s[1..] == [end] + rest && ([end] + rest)[1..] == rest;
  }
}
