/**
 * Reading a quoted string token in chunks: what one copy takes from the
 * input, and why any sequence of chunk sizes recovers the string that was
 * quoted. The buffered reader is in MtLexer.
 */
module StringToken {
  import opened QPrintf

  const STRVAL: nat := 256

  /** The next character, -1 at the end of the input, -2 for a NUL, which is an error. */
  function PeekOf(input: string): int {
    if input == "" then -1 else if input[0] == '\0' then -2 else input[0] as int
  }

  function Unescaped(c: char): char {
    if c == 'n' then '\n' else if c == 't' then '\t' else if c == 'r' then '\r' else c
  }

  /** What a backslash and the input after it stand for; the two error codes are stored as bytes. */
  function AfterBackslash(input: string): char {
    var p := PeekOf(input);
    if p >= 0 then Unescaped(input[0]) else if p == -1 then '\U{ff}' else '\U{fe}'
  }

  function Skip(input: string): string {
    if input == "" then "" else input[1..]
  }

  /** What a copy put out, what it left of the input, and whether the string ended. */
  datatype Copied = Copied(text: string, rest: string, found: bool)

  /** The copying loop, up to the delimiter, the end of the input, or room characters. */
  function CopyString(input: string, delim: char, room: nat): (c: Copied)
    ensures |c.rest| <= |input|
    decreases |input|, room
  {
    if PeekOf(input) < 0 || input[0] == delim then Copied("", input, true)
    else if room == 0 then Copied("", input, false)
    else if input[0] == '\\' then
      var c := CopyString(Skip(input[1..]), delim, room - 1);
      Copied([AfterBackslash(input[1..])] + c.text, c.rest, c.found)
    else
      var c := CopyString(input[1..], delim, room - 1);
      Copied([input[0]] + c.text, c.rest, c.found)
  }

  /** The delimiter that ends the string is consumed with it. */
  function TakeString(input: string, delim: char, room: nat): (c: Copied)
    ensures |c.rest| <= |input|
  {
    var c := CopyString(input, delim, room);
    if c.found && PeekOf(c.rest) >= 0 && c.rest[0] == delim then c.(rest := c.rest[1..]) else c
  }

  /** A string token being read: characters in hand, whether more are in the input, and the input. */
  datatype Token = Token(held: string, inString: bool, input: string)

  /** The start of a token at its opening quote. */
  function Open(input: string): Token
    requires input != ""
  {
    var c := TakeString(input[1..], input[0], STRVAL - 1);
    Token(c.text, !c.found, c.rest)
  }

  /** One chunk of up to max - 1 characters. */
  function Chunk(t: Token, delim: char, max: nat): (string, Token)
    requires max >= 1
  {
    var n := if max - 1 < |t.held| then max - 1 else |t.held|;
    if t.inString && n < max - 1 then
      var c := TakeString(t.input, delim, max - 1 - n);
      (t.held[..n] + c.text, Token(t.held[n..], !c.found, c.rest))
    else (t.held[..n], Token(t.held[n..], t.inString, t.input))
  }

  /** A chunk has room for a terminator at least. */
  predicate Sizes(sizes: seq<nat>) {
    forall i :: 0 <= i < |sizes| ==> sizes[i] >= 1
  }

  /** Several chunks, one after the other. */
  function Chunks(t: Token, delim: char, sizes: seq<nat>): (string, Token)
    requires Sizes(sizes)
    decreases |sizes|
  {
    if sizes == [] then ("", t)
    else
      var (a, u) := Chunk(t, delim, sizes[0]);
      var (b, v) := Chunks(u, delim, sizes[1..]);
      (a + b, v)
  }

  // ------------------------------------------------------------------ spellings

  /** How one character may be written in a string: as it is, after a backslash, or by a letter. */
  predicate Spells(piece: string, c: char, delim: char) {
    || (piece == [c] && c != delim && c != '\\' && c != '\0')
    || (piece == ['\\', c] && c != 'n' && c != 't' && c != 'r' && c != '\0')
    || (piece == "\\n" && c == '\n')
    || (piece == "\\t" && c == '\t')
    || (piece == "\\r" && c == '\r')
  }

  /** A character and how it is written. */
  datatype Glyph = Glyph(piece: string, c: char)

  predicate Spelled(w: seq<Glyph>, delim: char) {
    (delim == '"' || delim == '\'') && forall i :: 0 <= i < |w| ==> Spells(w[i].piece, w[i].c, delim)
  }

  /** What is written... */
  function Written(w: seq<Glyph>): string {
    if w == [] then "" else w[0].piece + Written(w[1..])
  }

  /** ...and what is meant. */
  function Text(w: seq<Glyph>): (s: string)
    ensures |s| == |w|
  {
    if w == [] then "" else [w[0].c] + Text(w[1..])
  }

  /** The input behind the opening quote: a string as it is written, the closing quote, and whatever follows. */
  function Body(w: seq<Glyph>, delim: char, tail: string): string {
    Written(w) + ([delim] + tail)
  }

  /** What is left of a string after its first n characters. */
  function Later(w: seq<Glyph>, n: nat): seq<Glyph> {
    if n >= |w| then [] else w[n..]
  }

  lemma LaterStep(w: seq<Glyph>, n: nat)
    requires w != []
    ensures Later(w, 0) == w && Later(w, n + 1) == Later(w[1..], n)
  {
  }

  lemma BodyStarts(w: seq<Glyph>, delim: char, tail: string)
    ensures w == [] ==> Body(w, delim, tail) == [delim] + tail
    ensures w != [] ==> Body(w, delim, tail) == w[0].piece + Body(w[1..], delim, tail)
  {
    var close := [delim] + tail;
    if w == [] {
      assert "" + close == close;
    } else {
      assert (w[0].piece + Written(w[1..])) + close == w[0].piece + (Written(w[1..]) + close);
    }
  }

  /** One character, however it is written, is copied as it is meant. */
  lemma PieceIsRead(piece: string, c: char, delim: char, more: string, room: nat)
    requires Spells(piece, c, delim) && (delim == '"' || delim == '\'')
    ensures CopyString(piece + more, delim, room) ==
            if room == 0 then Copied("", piece + more, false)
            else
              var r := CopyString(more, delim, room - 1);
              Copied([c] + r.text, r.rest, r.found)
  {
    var input := piece + more;
    if |piece| == 2 {
      assert input[1..] == [piece[1]] + more && Skip(input[1..]) == more;
      assert input[0] == '\\' && AfterBackslash(input[1..]) == c;
    } else {
      assert input[1..] == more && input[0] == c;
    }
  }

  /** A backslash at the end of the input, or in front of a NUL, gives the character that the code of that condition has as a byte. */
  lemma BrokenEscape(delim: char, rest: string, room: nat)
    requires delim != '\\' && room > 0
    ensures CopyString("\\", delim, room) == Copied("\U{ff}", "", true)
    ensures CopyString("\\\0" + rest, delim, room).text == "\U{fe}" + CopyString(rest, delim, room - 1).text
  {
    assert "\\"[1..] == "";
    var input := "\\\0" + rest;
    assert input[1..] == ['\0'] + rest && Skip(input[1..]) == rest;
  }

  function Min(a: nat, b: nat): nat {
    if a <= b then a else b
  }

  /** A string taken in part: whole characters, as many as there is room for, and the rest is still there. */
  predicate TakenOff(c: Copied, w: seq<Glyph>, delim: char, tail: string, room: nat, after: string) {
    var r := Later(w, room);
    && c.text + Text(r) == Text(w)
    && |c.text| == Min(room, |w|)
    && (c.found <==> |w| <= room)
    && c.rest == if c.found then after else Body(r, delim, tail)
  }

  /** Copying takes as much as there is room for; no escape is cut in two. */
  lemma {:induction false} CopiesPrefix(w: seq<Glyph>, delim: char, tail: string, room: nat)
    requires Spelled(w, delim)
    ensures TakenOff(CopyString(Body(w, delim, tail), delim, room), w, delim, tail, room, [delim] + tail)
    decreases |w|
  {
    hide *;
    var close := [delim] + tail;
    BodyStarts(w, delim, tail);
    SpelledStep(w, delim);
    if w == [] {
      QuoteEnds(delim, tail, room);
      TakenNone(w, delim, tail, room, close);
    } else {
      var more := Body(w[1..], delim, tail);
      PieceIsRead(w[0].piece, w[0].c, delim, more, room);
      if room == 0 {
        TakenNone(w, delim, tail, room, close);
      } else {
        CopiesPrefix(w[1..], delim, tail, room - 1);
        TakenMore(CopyString(more, delim, room - 1), w, delim, tail, room, close);
      }
    }
  }

  lemma SpelledStep(w: seq<Glyph>, delim: char)
    requires Spelled(w, delim)
    ensures delim == '"' || delim == '\''
    ensures w != [] ==> Spells(w[0].piece, w[0].c, delim) && Spelled(w[1..], delim)
  {
  }

  lemma QuoteEnds(delim: char, tail: string, room: nat)
    requires delim != '\0'
    ensures CopyString([delim] + tail, delim, room) == Copied("", [delim] + tail, true)
  {
  }

  lemma TakenNone(w: seq<Glyph>, delim: char, tail: string, room: nat, after: string)
    requires w == [] || room == 0
    ensures TakenOff(Copied("", if w == [] then after else Body(w, delim, tail), w == []), w, delim, tail, room, after)
  {
    hide Body;
    assert Later(w, room) == w;
    assert "" + Text(w) == Text(w);
  }

  lemma TakenMore(c: Copied, w: seq<Glyph>, delim: char, tail: string, room: nat, after: string)
    requires w != [] && room > 0 && TakenOff(c, w[1..], delim, tail, room - 1, after)
    ensures TakenOff(Copied([w[0].c] + c.text, c.rest, c.found), w, delim, tail, room, after)
  {
    hide Body, Later;
    LaterStep(w, room - 1);
    assert ([w[0].c] + c.text) + Text(Later(w, room)) == [w[0].c] + (c.text + Text(Later(w, room)));
  }

  lemma TakesPrefix(w: seq<Glyph>, delim: char, tail: string, room: nat)
    requires Spelled(w, delim)
    ensures TakenOff(TakeString(Body(w, delim, tail), delim, room), w, delim, tail, room, tail)
  {
    hide Body, CopyString, Text, Later;
    CopiesPrefix(w, delim, tail, room);
    assert ([delim] + tail)[1..] == tail;
  }

  // ------------------------------------------------------------------ recovery

  /** A token with some characters in hand, and w behind them in the input. */
  predicate Behind(t: Token, w: seq<Glyph>, delim: char, tail: string) {
    && Spelled(w, delim)
    && (t.inString <==> w != [])
    && t.input == if t.inString then Body(w, delim, tail) else tail
  }

  /** What the token still owes. */
  function Owed(t: Token, w: seq<Glyph>): string {
    t.held + Text(w)
  }

  lemma SpelledLater(w: seq<Glyph>, delim: char, n: nat)
    requires Spelled(w, delim)
    ensures Spelled(Later(w, n), delim) && |Later(w, n)| == if n >= |w| then 0 else |w| - n
  {
  }

  /** A token starts with as much of its string in hand as its buffer holds, 255 characters. */
  lemma OpenHolds(w: seq<Glyph>, delim: char, tail: string)
    requires Spelled(w, delim)
    ensures var t, r := Open([delim] + Body(w, delim, tail)), Later(w, 255);
            Behind(t, r, delim, tail) && Owed(t, r) == Text(w) && |t.held| == Min(255, |w|)
  {
    hide Body, TakeString, Text;
    var input := [delim] + Body(w, delim, tail);
    assert input[1..] == Body(w, delim, tail);
    TakesPrefix(w, delim, tail, 255);
    SpelledLater(w, delim, 255);
    hide Later, Spelled;
  }

  /** The next characters owed were delivered, as many as asked for and there are. */
  predicate Delivered(read: (string, Token), w: seq<Glyph>, owed: string, delim: char, tail: string, asked: nat) {
    && Behind(read.1, w, delim, tail)
    && read.0 + Owed(read.1, w) == owed
    && |read.0| == Min(asked, |owed|)
  }

  /** One chunk delivers. */
  lemma ChunkDelivers(t: Token, w: seq<Glyph>, delim: char, tail: string, max: nat) returns (w': seq<Glyph>)
    requires Behind(t, w, delim, tail) && max >= 1
    ensures Delivered(Chunk(t, delim, max), w', Owed(t, w), delim, tail, max - 1)
  {
    hide Body, TakeString, Text;
    if t.inString && |t.held| < max - 1 {
      var room := max - 1 - |t.held|;
      w' := Later(w, room);
      TakesPrefix(w, delim, tail, room);
      SpelledLater(w, delim, room);
      hide Later, Spelled;
      var c := TakeString(t.input, delim, room);
      assert t.held[..|t.held|] == t.held && t.held[|t.held|..] == "";
      assert (t.held + c.text) + ("" + Text(w')) == t.held + (c.text + Text(w'));
    } else {
      w' := w;
      hide Spelled;
      var n := if max - 1 < |t.held| then max - 1 else |t.held|;
      assert t.held[..n] + (t.held[n..] + Text(w)) == t.held + Text(w);
    }
  }

  /** The most a sequence of chunks can deliver. */
  function Capacity(sizes: seq<nat>): nat
    requires Sizes(sizes)
  {
    if sizes == [] then 0 else sizes[0] - 1 + Capacity(sizes[1..])
  }

  /** Chunks of any sizes deliver the string in order, without loss, as far as their sizes go. */
  lemma {:induction false} ChunksDeliver(t: Token, w: seq<Glyph>, delim: char, tail: string, sizes: seq<nat>) returns (w': seq<Glyph>)
    requires Behind(t, w, delim, tail) && Sizes(sizes)
    ensures Delivered(Chunks(t, delim, sizes), w', Owed(t, w), delim, tail, Capacity(sizes))
    decreases |sizes|
  {
    hide Behind, Owed, Chunk;
    if sizes == [] {
      w' := w;
      assert "" + Owed(t, w) == Owed(t, w);
    } else {
      var u := ChunkDelivers(t, w, delim, tail, sizes[0]);
      var c := Chunk(t, delim, sizes[0]);
      w' := ChunksDeliver(c.1, u, delim, tail, sizes[1..]);
      var d := Chunks(c.1, delim, sizes[1..]);
      assert c.0 + (d.0 + Owed(d.1, w')) == (c.0 + d.0) + Owed(d.1, w');
    }
  }

  /** However it is written, a string is read back exactly, by chunks of any sizes that suffice, and the input then stands after it. */
  lemma SpellingIsRecovered(w: seq<Glyph>, delim: char, tail: string, sizes: seq<nat>)
    requires Spelled(w, delim) && Sizes(sizes) && Capacity(sizes) >= |w|
    ensures Chunks(Open([delim] + Written(w) + [delim] + tail), delim, sizes) == (Text(w), Token("", false, tail))
  {
    hide Chunks, Open, Spelled, Written, Text, Later;
    assert [delim] + Written(w) + [delim] + tail == [delim] + Body(w, delim, tail);
    OpenHolds(w, delim, tail);
    var t := Open([delim] + Body(w, delim, tail));
    var w' := ChunksDeliver(t, Later(w, 255), delim, tail, sizes);
    var r := Chunks(t, delim, sizes);
    assert Owed(r.1, w') == "";
    assert r.0 + "" == r.0;
  }

  // ------------------------------------------------------------------ what the print library writes

  predicate NulFree(s: string) {
    forall i :: 0 <= i < |s| ==> s[i] != '\0'
  }

  /** Between double quotes this conversion writes characters so that they are read as they are meant. */
  ghost predicate Readable(t: Table) {
    forall c :: c != '\0' ==> Spells(Piece(t, c), c, '"')
  }

  function Glyphs(t: Table, s: string): (w: seq<Glyph>)
    ensures |w| == |s| && forall i :: 0 <= i < |s| ==> w[i] == Glyph(Piece(t, s[i]), s[i])
  {
    if s == "" then [] else [Glyph(Piece(t, s[0]), s[0])] + Glyphs(t, s[1..])
  }

  lemma {:induction false} GlyphsAre(t: Table, s: string)
    ensures Written(Glyphs(t, s)) == Translated(t, s) && Text(Glyphs(t, s)) == s
  {
    if s != "" {
      GlyphsAre(t, s[1..]);
      assert Glyphs(t, s)[1..] == Glyphs(t, s[1..]);
      assert [s[0]] + s[1..] == s;
    }
  }

  /** Whatever was escaped by such a conversion is read back exactly. */
  lemma EscapedIsRecovered(t: Table, s: string, tail: string, sizes: seq<nat>)
    requires Readable(t) && NulFree(s) && Sizes(sizes) && Capacity(sizes) >= |s|
    ensures Chunks(Open(['"'] + Translated(t, s) + ['"'] + tail), '"', sizes) == (s, Token("", false, tail))
  {
    hide Chunks, Open, Spells, Piece;
    GlyphsAre(t, s);
    SpellingIsRecovered(Glyphs(t, s), '"', tail, sizes);
  }

  /** So is whatever was quoted, with white space escaped or without. */
  lemma QuotedIsRecovered(s: string, tail: string, sizes: seq<nat>)
    requires NulFree(s) && Sizes(sizes) && Capacity(sizes) >= |s|
    ensures Chunks(Open(Quoted(s) + tail), '"', sizes) == (s, Token("", false, tail))
    ensures Chunks(Open(['"'] + Translated(QUOTE_WS, s) + ['"'] + tail), '"', sizes) == (s, Token("", false, tail))
  {
    hide Chunks, Open;
    EscapedIsRecovered(QUOTE, s, tail, sizes);
    EscapedIsRecovered(QUOTE_WS, s, tail, sizes);
  }

  /** Every chunk of two or more makes progress, so asking often enough suffices. */
  lemma {:induction false} TwoSuffices(sizes: seq<nat>)
    requires forall i :: 0 <= i < |sizes| ==> sizes[i] >= 2
    ensures Capacity(sizes) >= |sizes|
  {
    if sizes != [] {
      TwoSuffices(sizes[1..]);
    }
  }
}
