/**
 * The token reader's input buffer, refilled by reads of any length, and the
 * string token it delivers through buffers of any size.
 */
module MtLexer {
  import opened StringToken

  const BUFSIZ: nat := 2048

  /** Where the data comes from; a read delivers some of what remains, and nothing only at the end. */
  class Source {
    var remaining: string

    constructor (data: string)
      ensures remaining == data
    {
      remaining := data;
    }

    method Read(max: nat) returns (data: string)
      modifies this
      ensures data + remaining == old(remaining) && |data| <= max
      ensures max > 0 && old(remaining) != "" ==> data != ""
    {
      var n :| 0 <= n <= |remaining| && n <= max && (max > 0 && remaining != "" ==> n > 0);
      data := remaining[..n];
      remaining := remaining[n..];
    }
  }

  class Session {
    const inpBuf: array<char>
    const tokString: array<char>
    const source: Source
    var inpPtr: nat
    var inpCnt: nat
    var endOfFile: bool
    var tokStrCnt: nat
    var inString: bool
    var delimiter: char
    var error: bool

    ghost predicate Valid()
      reads this, inpBuf, source
    {
      && inpBuf.Length == BUFSIZ + 1
      && tokString.Length == STRVAL
      && inpBuf != tokString
      && inpPtr + inpCnt <= inpBuf.Length
      && tokStrCnt < STRVAL
      && (endOfFile ==> source.remaining == "")
    }

    /** All the input there still is: what is buffered, and what has not been read. */
    ghost function Input(): string
      requires Valid()
      reads this, inpBuf, source
    {
      inpBuf[inpPtr..inpPtr + inpCnt] + source.remaining
    }

    ghost function Held(): (h: string)
      requires Valid()
      ensures |h| == tokStrCnt
      reads this, inpBuf, source, tokString
    {
      tokString[..tokStrCnt]
    }

    ghost function ToToken(): Token
      requires Valid()
      reads this, inpBuf, source, tokString
    {
      Token(Held(), inString, Input())
    }

    constructor (data: string)
      ensures Valid() && Input() == data && Held() == "" && !inString && !error
      ensures fresh(inpBuf) && fresh(tokString) && fresh(source)
    {
      inpBuf := new char[BUFSIZ + 1](_ => ' ');
      tokString := new char[STRVAL](_ => ' ');
      source := new Source(data);
      inpPtr := 0;
      inpCnt := 0;
      endOfFile := false;
      tokStrCnt := 0;
      inString := false;
      delimiter := ' ';
      error := false;
    }

    /** Moves what is buffered to the front, so that a read can go after it. */
    method Shift()
      requires Valid()
      modifies this`inpPtr, inpBuf
      ensures Valid() && inpPtr == 0 && inpBuf[..inpCnt] == old(inpBuf[inpPtr..inpPtr + inpCnt])
    {
      var i := 0;
      while i < inpCnt
        invariant 0 <= i <= inpCnt && inpPtr == old(inpPtr)
        invariant inpBuf[..i] == old(inpBuf[inpPtr..inpPtr + i])
        invariant forall j :: inpPtr + i <= j < inpBuf.Length ==> inpBuf[j] == old(inpBuf[j])
      {
        ghost var c := inpBuf[inpPtr + i];
        inpBuf[i] := inpBuf[inpPtr + i];
        assert inpBuf[..i + 1] == inpBuf[..i] + [c];
        assert old(inpBuf[inpPtr..inpPtr + i + 1]) == old(inpBuf[inpPtr..inpPtr + i]) + [old(inpBuf[inpPtr + i])];
        i := i + 1;
      }
      inpPtr := 0;
    }

    /** Puts newly read data after what is buffered. */
    method Store(data: string)
      requires Valid() && inpPtr == 0 && inpCnt + |data| <= inpBuf.Length
      modifies this`inpCnt, inpBuf
      ensures Valid() && inpCnt == old(inpCnt) + |data|
      ensures inpBuf[..inpCnt] == old(inpBuf[..inpCnt]) + data
    {
      var i := 0;
      while i < |data|
        invariant 0 <= i <= |data| && inpCnt == old(inpCnt)
        invariant inpBuf[..inpCnt] == old(inpBuf[..inpCnt])
        invariant inpBuf[inpCnt..inpCnt + i] == data[..i]
      {
        inpBuf[inpCnt + i] := data[i];
        i := i + 1;
      }
      assert inpBuf[..inpCnt + |data|] == inpBuf[..inpCnt] + inpBuf[inpCnt..inpCnt + |data|];
      assert data[..i] == data;
      inpCnt := inpCnt + |data|;
    }

    /** Loads more input when the character at an offset is not buffered: one read, however short. */
    method CheckBuffer(offset: nat) returns (n: nat)
      requires Valid() && offset < BUFSIZ
      modifies this`inpPtr, this`inpCnt, this`endOfFile, inpBuf, source
      ensures Valid() && Input() == old(Input()) && n == inpCnt >= old(inpCnt)
      ensures n <= offset ==> n > old(inpCnt) || source.remaining == ""
    {
      if inpCnt <= offset {
        Shift();
        if !endOfFile {
          ghost var buffered := inpBuf[..inpCnt];
          var data := source.Read(inpBuf.Length - inpCnt);
          if |data| == 0 {
            endOfFile := true;
          } else {
            assert buffered + (data + source.remaining) == (buffered + data) + source.remaining;
            Store(data);
          }
        }
      }
      n := inpCnt;
    }

    /**
     * The character at an offset, without consuming it. Everything before it
     * being buffered, the end is reported only at the end; further on it is
     * also reported when the one read comes short.
     */
    method PeekChar(offset: nat) returns (ch: int)
      requires Valid() && offset < BUFSIZ
      modifies this`inpPtr, this`inpCnt, this`endOfFile, inpBuf, source
      ensures Valid() && Input() == old(Input())
      ensures ch == if inpCnt <= offset then -1 else PeekOf(Input()[offset..])
      ensures offset <= old(inpCnt) ==> ch == PeekOf(Input()[offset..])
      ensures inpCnt <= offset ==> inpCnt > old(inpCnt) || source.remaining == ""
      ensures offset == 0 ==> ch == PeekOf(Input()) && (ch >= 0 ==> inpCnt > 0)
    {
      var v := CheckBuffer(offset);
      if v <= offset {
        return -1;
      }
      ch := inpBuf[inpPtr + offset] as int;
      if ch == 0 {
        return -2;
      }
    }

    /** The next character. */
    method CurrentChar() returns (ch: int)
      requires Valid()
      modifies this`inpPtr, this`inpCnt, this`endOfFile, inpBuf, source
      ensures Valid() && Input() == old(Input())
      ensures ch == PeekOf(Input()) && (ch >= 0 ==> inpCnt > 0) && (inpCnt == 0 ==> Input() == "")
    {
      ch := PeekChar(0);
    }

    /** Consumes one buffered character, if there is one. */
    method SkipChar()
      requires Valid() && (inpCnt == 0 ==> Input() == "")
      modifies this`inpPtr, this`inpCnt
      ensures Valid() && Input() == Skip(old(Input()))
    {
      if inpCnt > 0 {
        inpCnt := inpCnt - 1;
        inpPtr := inpPtr + 1;
      }
    }

    /** The character a backslash and the next one stand for; the end and a NUL store their codes. */
    method NextEscaped() returns (c: char)
      requires Valid()
      modifies this`inpPtr, this`inpCnt, this`endOfFile, inpBuf, source
      ensures Valid() && c == AfterBackslash(old(Input())) && Input() == Skip(old(Input()))
    {
      hide PeekOf;
      var ch := CurrentChar();
      PeekIs(Input());
      if ch == 'n' as int {
        c := '\n';
      } else if ch == 't' as int {
        c := '\t';
      } else if ch == 'r' as int {
        c := '\r';
      } else if ch == -1 {
        c := '\U{ff}';
      } else if ch == -2 {
        c := '\U{fe}';
      } else {
        c := ch as char;
      }
      SkipChar();
    }

    /** One character of the string, unescaped, consumed. */
    method TakeChar(ch: int) returns (c: char)
      requires Valid() && Input() != "" && ch == PeekOf(Input()) && ch >= 0 && inpCnt > 0
      modifies this`inpPtr, this`inpCnt, this`endOfFile, inpBuf, source
      ensures Valid()
      ensures old(Input())[0] == '\\' ==> c == AfterBackslash(old(Input())[1..]) && Input() == Skip(old(Input())[1..])
      ensures old(Input())[0] != '\\' ==> c == old(Input())[0] && Input() == old(Input())[1..]
      ensures |Input()| < |old(Input())|
    {
      if ch == '\\' as int {
        SkipChar();
        c := NextEscaped();
      } else {
        c := ch as char;
        SkipChar();
      }
    }

    /** The copying loop: characters until the delimiter, the end, or no more room. */
    method CopyLoop(buf: array<char>, off: nat, bufsize: nat) returns (len: nat, found: bool, ch: int)
      requires Valid() && buf != inpBuf && bufsize >= 1 && off + bufsize <= buf.Length
      modifies this`inpPtr, this`inpCnt, this`endOfFile, inpBuf, source, buf
      ensures Valid() && len < bufsize && ch == PeekOf(Input()) && (ch >= 0 ==> inpCnt > 0)
      ensures Copied(buf[off..off + len], Input(), found) == CopyString(old(Input()), delimiter, bufsize - 1)
      ensures buf[..off] == old(buf[..off])
    {
      hide *;
      ghost var c0 := CopyString(Input(), delimiter, bufsize - 1);
      len, found := 0, true;
      ch := CurrentChar();
      GoingStart(c0);
      assert buf[off..off + len] == "";
      while ch >= 0 && ch != delimiter as int
        invariant Valid() && ch == PeekOf(Input()) && (ch >= 0 ==> inpCnt > 0)
        invariant len < bufsize && found && buf[..off] == old(buf[..off])
        invariant Going(c0, buf[off..off + len], CopyString(Input(), delimiter, bufsize - 1 - len))
        decreases |Input()|
      {
        PeekIs(Input());
        CopyStep(Input(), delimiter, bufsize - 1 - len);
        if len >= bufsize - 1 {
          found := false;
          break;
        }
        ghost var done, input := buf[off..off + len], Input();
        var c := TakeChar(ch);
        GoingOn(c0, done, c, CopyString(Input(), delimiter, bufsize - 2 - len));
        buf[off + len] := c;
        assert buf[off..off + len + 1] == done + [c];
        len := len + 1;
        ch := CurrentChar();
      }
      PeekIs(Input());
      CopyStops(Input(), delimiter, bufsize - 1 - len);
      GoingEnds(c0, buf[off..off + len], Input(), found);
    }

    /** Copies the string to a buffer up to its delimiter or the buffer's size, and ends it with a NUL. */
    method Copy(buf: array<char>, off: nat, bufsize: nat) returns (len: nat, found: bool)
      requires Valid() && buf != inpBuf && bufsize >= 1 && off + bufsize <= buf.Length
      modifies this`inpPtr, this`inpCnt, this`endOfFile, inpBuf, source, buf
      ensures Valid() && len < bufsize
      ensures var c := TakeString(old(Input()), delimiter, bufsize - 1);
              buf[off..off + len] == c.text && found == c.found && Input() == c.rest
      ensures buf[..off] == old(buf[..off]) && buf[off + len] == '\0'
    {
      hide CopyString;
      var ch;
      len, found, ch := CopyLoop(buf, off, bufsize);
      if found && ch == delimiter as int {
        SkipChar();
      }
      ghost var text := buf[off..off + len];
      buf[off + len] := '\0';
      assert buf[off..off + len] == text;
    }

    /** Starts a string token at its opening quote: as much of it as the token buffer holds. */
    method NextString()
      requires Valid() && PeekOf(Input()) >= 0 && PeekOf(Input()) in {'"' as int, '\'' as int}
      modifies this, inpBuf, source, tokString
      ensures Valid() && ToToken() == Open(old(Input())) && delimiter == old(Input())[0]
      ensures error == (old(error) || (inString && PeekOf(Input()) < 0))
    {
      hide *;
      OpenIs(Input());
      AtQuote();
      SkipChar();
      FillToken();
      NoteError();
    }

    /** Looks at the opening quote, which will be the delimiter. */
    method AtQuote()
      requires Valid() && PeekOf(Input()) in {'"' as int, '\'' as int}
      modifies this`inpPtr, this`inpCnt, this`endOfFile, this`delimiter, inpBuf, source
      ensures Valid() && Input() == old(Input()) && inpCnt > 0 && Input() != "" && delimiter == Input()[0]
    {
      var ch := PeekChar(0);
      delimiter := ch as char;
    }

    /** Copies the start of the string to the token buffer. */
    method FillToken()
      requires Valid()
      modifies this`inpPtr, this`inpCnt, this`endOfFile, this`tokStrCnt, this`inString, inpBuf, source, tokString
      ensures Valid()
      ensures var c := TakeString(old(Input()), delimiter, STRVAL - 1);
              ToToken() == Token(c.text, !c.found, c.rest)
    {
      hide TakeString, PeekOf;
      var len, found := Copy(tokString, 0, STRVAL);
      assert tokString[0..0 + len] == tokString[..len];
      tokStrCnt := len;
      inString := !found;
    }

    /** A string that should go on where the input does not is an error. */
    method NoteError()
      requires Valid()
      modifies this`inpPtr, this`inpCnt, this`endOfFile, this`error, inpBuf, source
      ensures Valid() && ToToken() == old(ToToken())
      ensures error == (old(error) || (inString && PeekOf(Input()) < 0))
    {
      hide PeekOf;
      if inString {
        var ch := PeekChar(0);
        error := error || ch < 0;
      }
    }

    /** Delivers up to maxlen - 1 characters of the token: those held first, then more from the input. */
    method CopyToken(buffer: array<char>, maxlen: nat) returns (len: nat)
      requires Valid() && 1 <= maxlen <= buffer.Length && buffer != inpBuf && buffer != tokString
      modifies this, inpBuf, source, tokString, buffer
      ensures Valid() && len < maxlen && buffer[len] == '\0' && delimiter == old(delimiter)
      ensures (buffer[..len], ToToken()) == Chunk(old(ToToken()), delimiter, maxlen)
      ensures error == (old(error) || (inString && PeekOf(Input()) < 0))
    {
      hide TakeString, PeekOf, Input, Chunk, Held;
      ghost var t := ToToken();
      ChunkIs(t, delimiter, maxlen);
      len := if maxlen - 1 < tokStrCnt then maxlen - 1 else tokStrCnt;
      TakeHeld(buffer, len);
      ghost var first := buffer[..len];
      buffer[len] := '\0';
      assert Input() == t.input && Held() == t.held[len..];
      if inString && len < maxlen - 1 {
        var cnt := CopyOn(buffer, len, maxlen - len);
        assert buffer[..len + cnt] == first + buffer[len..len + cnt];
        len := len + cnt;
      }
      NoteError();
    }

    /** Copies more of the string from the input to a buffer. */
    method CopyOn(buffer: array<char>, off: nat, bufsize: nat) returns (cnt: nat)
      requires Valid() && buffer != inpBuf && buffer != tokString && bufsize >= 1 && off + bufsize <= buffer.Length
      modifies this`inpPtr, this`inpCnt, this`endOfFile, this`inString, inpBuf, source, buffer
      ensures Valid() && cnt < bufsize && Held() == old(Held())
      ensures var c := TakeString(old(Input()), delimiter, bufsize - 1);
              buffer[off..off + cnt] == c.text && inString == !c.found && Input() == c.rest
      ensures buffer[..off] == old(buffer[..off]) && buffer[off + cnt] == '\0'
    {
      hide TakeString, PeekOf;
      var found;
      cnt, found := Copy(buffer, off, bufsize);
      inString := !found;
    }

    /** Moves the first characters held to a buffer, and the others up. */
    method TakeHeld(buffer: array<char>, n: nat)
      requires Valid() && n <= tokStrCnt && n <= buffer.Length && buffer != inpBuf && buffer != tokString
      modifies this`tokStrCnt, tokString, buffer
      ensures Valid() && buffer[..n] == old(Held())[..n] && Held() == old(Held())[n..] && Input() == old(Input())
    {
      var i := 0;
      while i < n
        invariant 0 <= i <= n && tokStrCnt == old(tokStrCnt)
        invariant buffer[..i] == tokString[..i] && tokString[..] == old(tokString[..])
      {
        buffer[i] := tokString[i];
        i := i + 1;
      }
      assert tokString[..n] == Held()[..n];
      MoveUp(n);
    }

    method MoveUp(n: nat)
      requires Valid() && n <= tokStrCnt
      modifies this`tokStrCnt, tokString
      ensures Valid() && Held() == old(Held())[n..] && Input() == old(Input())
    {
      ghost var held := Held();
      var i := 0;
      while i < tokStrCnt - n
        invariant 0 <= i <= tokStrCnt - n && tokStrCnt == |held|
        invariant tokString[..i] == held[n..n + i]
        invariant forall j :: i <= j < tokStrCnt ==> tokString[j] == held[j]
      {
        tokString[i] := tokString[n + i];
        i := i + 1;
      }
      tokStrCnt := tokStrCnt - n;
    }
  }

  /** What a copy in progress will have put out in the end. */
  predicate Going(whole: Copied, done: string, more: Copied) {
    whole == Copied(done + more.text, more.rest, more.found)
  }

  lemma GoingStart(c: Copied)
    ensures Going(c, "", c)
  {
    assert "" + c.text == c.text;
  }

  lemma GoingOn(whole: Copied, done: string, c: char, more: Copied)
    requires Going(whole, done, Copied([c] + more.text, more.rest, more.found))
    ensures Going(whole, done + [c], more)
  {
    assert done + ([c] + more.text) == (done + [c]) + more.text;
  }

  lemma GoingEnds(whole: Copied, done: string, rest: string, found: bool)
    requires Going(whole, done, Copied("", rest, found))
    ensures whole == Copied(done, rest, found)
  {
    assert done + "" == done;
  }

  lemma ChunkIs(t: Token, delim: char, max: nat)
    requires max >= 1
    ensures var n := if max - 1 < |t.held| then max - 1 else |t.held|;
            var c := TakeString(t.input, delim, max - 1 - n);
            Chunk(t, delim, max) ==
            if t.inString && n < max - 1 then (t.held[..n] + c.text, Token(t.held[n..], !c.found, c.rest))
            else (t.held[..n], Token(t.held[n..], t.inString, t.input))
  {
  }

  lemma OpenIs(input: string)
    requires PeekOf(input) >= 0
    ensures input != "" && Skip(input) == input[1..]
    ensures var c := TakeString(Skip(input), input[0], STRVAL - 1); Open(input) == Token(c.text, !c.found, c.rest)
  {
  }

  lemma PeekIs(input: string)
    ensures PeekOf(input) >= -2
    ensures PeekOf(input) >= 0 ==> input != "" && input[0] as int == PeekOf(input)
  {
  }

  lemma CopyStep(input: string, delim: char, room: nat)
    requires PeekOf(input) >= 0 && input[0] != delim
    ensures room == 0 ==> CopyString(input, delim, room) == Copied("", input, false)
    ensures room > 0 && input[0] == '\\' ==>
              var c := CopyString(Skip(input[1..]), delim, room - 1);
              CopyString(input, delim, room) == Copied([AfterBackslash(input[1..])] + c.text, c.rest, c.found)
    ensures room > 0 && input[0] != '\\' ==>
              var c := CopyString(input[1..], delim, room - 1);
              CopyString(input, delim, room) == Copied([input[0]] + c.text, c.rest, c.found)
  {
  }

  lemma CopyStops(input: string, delim: char, room: nat)
    ensures PeekOf(input) < 0 || input[0] == delim ==> CopyString(input, delim, room) == Copied("", input, true)
  {
  }
}
