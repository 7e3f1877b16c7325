/**
 * Base 64 (section 4 of RFC 4648) as the print library encodes and decodes
 * it, into a buffer at offset 0. Shifts and masks of the program are written
 * as divisions and remainders by powers of two.
 */
module Base64 {
  import opened Options
  import QPrintf

  type Byte = x: int | 0 <= x < 256

  /** The alphabet: A-Z, a-z, 0-9, + and /. */
  function Digit(i: int): char
    requires 0 <= i < 64
  {
    if i < 26 then ('A' as int + i) as char
    else if i < 52 then ('a' as int + i - 26) as char
    else if i < 62 then ('0' as int + i - 52) as char
    else if i == 62 then '+' else '/'
  }

  function ValueOf(c: char): Option<int> {
    if 'A' <= c <= 'Z' then Some(c as int - 'A' as int)
    else if 'a' <= c <= 'z' then Some(c as int - 'a' as int + 26)
    else if '0' <= c <= '9' then Some(c as int - '0' as int + 52)
    else if c == '+' then Some(62)
    else if c == '/' then Some(63)
    else None
  }

  lemma DigitValue(i: int)
    requires 0 <= i < 64
    ensures ValueOf(Digit(i)) == Some(i) && Digit(i) != '='
  {
  }

  lemma ValueDigit(c: char)
    ensures ValueOf(c).Some? ==> 0 <= ValueOf(c).value < 64 && Digit(ValueOf(c).value) == c
  {
  }

  // ------------------------------------------------------------------ as functions

  /** Four characters for every three bytes, the last group padded. */
  function Encode(src: seq<Byte>): seq<char> {
    if src == [] then []
    else if |src| == 1 then
      [Digit(src[0] / 4), Digit(src[0] % 4 * 16), '=', '=']
    else if |src| == 2 then
      [Digit(src[0] / 4), Digit(src[0] % 4 * 16 + src[1] / 16), Digit(src[1] % 16 * 4), '=']
    else
      [Digit(src[0] / 4), Digit(src[0] % 4 * 16 + src[1] / 16), Digit(src[1] % 16 * 4 + src[2] / 64), Digit(src[2] % 64)]
      + Encode(src[3..])
  }

  /** The bytes of one group, and whether padding ends the text there. */
  datatype Group = Bad | Last(bytes: seq<Byte>) | Full(bytes: seq<Byte>)

  function DecodeGroup(a: char, b: char, c: char, d: char): (g: Group)
    ensures g.Full? ==> |g.bytes| == 3
    ensures g.Last? ==> 1 <= |g.bytes| <= 2
  {
    var v, w := ValueOf(a), ValueOf(b);
    if v.None? || w.None? then Bad
    else if c == '=' && d == '=' then Last([v.value * 4 + w.value / 16])
    else
      var x := ValueOf(c);
      if x.None? then Bad
      else if d == '=' then Last([v.value * 4 + w.value / 16, w.value % 16 * 16 + x.value / 4])
      else
        var y := ValueOf(d);
        if y.None? then Bad
        else Full([v.value * 4 + w.value / 16, w.value % 16 * 16 + x.value / 4, x.value % 4 * 64 + y.value])
  }

  /** The text ends, or what comes next would be a group that starts with a NUL. */
  predicate AtEnd(src: seq<char>) {
    src == [] || src[0] == '\0'
  }

  /** Whole groups only; whatever follows a padded group, or a NUL where a group should start, is ignored. */
  function Decode(src: seq<char>): Option<seq<Byte>> {
    if |src| % 4 != 0 then None
    else if AtEnd(src) then Some([])
    else
      match DecodeGroup(src[0], src[1], src[2], src[3])
      case Bad => None
      case Last(bytes) => Some(bytes)
      case Full(bytes) =>
        var rest := Decode(src[4..]);
        if rest.Some? then Some(bytes + rest.value) else None
  }

  // ------------------------------------------------------------------ round trip

  lemma {:induction false} EncodedLength(src: seq<Byte>)
    ensures |Encode(src)| == (|src| + 2) / 3 * 4
  {
    if |src| >= 3 {
      EncodedLength(src[3..]);
    }
  }

  /** Six-bit pieces put the bytes together again. */
  lemma FullGroup(p: Byte, q: Byte, r: Byte)
    ensures DecodeGroup(Digit(p / 4), Digit(p % 4 * 16 + q / 16), Digit(q % 16 * 4 + r / 64), Digit(r % 64)) == Full([p, q, r])
  {
    hide Digit, ValueOf;
    DigitValue(p / 4);
    DigitValue(p % 4 * 16 + q / 16);
    DigitValue(q % 16 * 4 + r / 64);
    DigitValue(r % 64);
  }

  lemma PairGroup(p: Byte, q: Byte)
    ensures DecodeGroup(Digit(p / 4), Digit(p % 4 * 16 + q / 16), Digit(q % 16 * 4), '=') == Last([p, q])
  {
    hide Digit, ValueOf;
    DigitValue(p / 4);
    DigitValue(p % 4 * 16 + q / 16);
    DigitValue(q % 16 * 4);
  }

  lemma SingleGroup(p: Byte)
    ensures DecodeGroup(Digit(p / 4), Digit(p % 4 * 16), '=', '=') == Last([p])
  {
    hide Digit, ValueOf;
    DigitValue(p / 4);
    DigitValue(p % 4 * 16);
  }

  lemma NoNul(d: nat)
    requires d < 64
    ensures Digit(d) != '\0'
  {
  }

  /** Decoding undoes encoding, for every byte sequence. */
  lemma {:induction false} DecodeInvertsEncode(src: seq<Byte>)
    ensures Decode(Encode(src)) == Some(src)
  {
    hide DecodeGroup, Digit;
    EncodedLength(src);
    if src != [] {
      NoNul(src[0] / 4);
    }
    if |src| == 1 {
      SingleGroup(src[0]);
      assert src == [src[0]];
    } else if |src| == 2 {
      PairGroup(src[0], src[1]);
      assert src == [src[0], src[1]];
    } else if |src| >= 3 {
      FullGroup(src[0], src[1], src[2]);
      DecodeInvertsEncode(src[3..]);
      assert Encode(src)[4..] == Encode(src[3..]);
      assert src == [src[0], src[1], src[2]] + src[3..];
    }
  }

  // ------------------------------------------------------------------ in place

  /** The buffer cannot be made large enough. */
  predicate TooSmall(size: nat, need: nat, g: QPrintf.Grower) {
    size < need && (g.NoGrow? || g.f(size, need).None?)
  }

  /** A buffer of the size needed, grown if necessary and possible. */
  method Grown<T(0)>(dst: array<T>, need: nat, g: QPrintf.Grower) returns (out: array?<T>)
    requires QPrintf.Honest(g)
    ensures out == null <==> TooSmall(dst.Length, need, g)
    ensures out != null ==> need <= out.Length && (out == dst || fresh(out)) && (need <= dst.Length ==> out == dst)
  {
    if need <= dst.Length {
      return dst;
    }
    if g.NoGrow? || g.f(dst.Length, need).None? {
      return null;
    }
    out := new T[g.f(dst.Length, need).value];
  }

  /** Encodes up to three bytes to dst[d..d + 4]: how many it took. */
  method EncodeStep(src: seq<Byte>, s: nat, dst: array<char>, d: nat) returns (n: nat)
    requires s < |src| && d + 4 <= dst.Length
    modifies dst
    ensures 1 <= n <= 3 && s + n <= |src|
    ensures dst[..d] == old(dst[..d])
    ensures dst[..d + 4] + Encode(src[s + n..]) == dst[..d] + Encode(src[s..])
  {
    hide Digit;
    ghost var rest := src[s..];
    dst[d] := Digit(src[s] / 4);
    if s + 1 >= |src| {
      dst[d + 1] := Digit(src[s] % 4 * 16);
      dst[d + 2] := '=';
      dst[d + 3] := '=';
      Extended(dst, d, Encode(rest), []);
      return 1;
    }
    dst[d + 1] := Digit(src[s] % 4 * 16 + src[s + 1] / 16);
    if s + 2 >= |src| {
      dst[d + 2] := Digit(src[s + 1] % 16 * 4);
      dst[d + 3] := '=';
      Extended(dst, d, Encode(rest), []);
      return 2;
    }
    dst[d + 2] := Digit(src[s + 1] % 16 * 4 + src[s + 2] / 64);
    dst[d + 3] := Digit(src[s + 2] % 64);
    assert rest[3..] == src[s + 3..];
    Extended(dst, d, Encode(rest), Encode(rest[3..]));
    n := 3;
  }

  /** Encodes into the buffer, grown if necessary and possible, four characters at a time. */
  method Base64Encode(src: seq<Byte>, buffer: array<char>, g: QPrintf.Grower) returns (r: int, dst: array<char>)
    requires QPrintf.Honest(g)
    modifies buffer
    ensures dst == buffer || fresh(dst)
    ensures r == if TooSmall(buffer.Length, (|src| + 2) / 3 * 4, g) then -1 else |Encode(src)|
    ensures r >= 0 ==> r <= dst.Length && dst[..r] == Encode(src)
  {
    hide Digit, Encode, TooSmall;
    EncodedLength(src);
    var out := Grown(buffer, (|src| + 2) / 3 * 4, g);
    if out == null {
      return -1, buffer;
    }
    dst := out;
    var s, d := 0, 0;
    assert src[0..] == src && dst[..0] + Encode(src) == Encode(src);
    while s < |src|
      invariant 0 <= s <= |src| && 0 <= d <= dst.Length
      invariant dst == out && dst[..d] + Encode(src[s..]) == Encode(src)
    {
      EncodedLength(src[s..]);
      assert |dst[..d] + Encode(src[s..])| == |Encode(src)|;
      var n := EncodeStep(src, s, dst, d);
      d := d + 4;
      s := s + n;
    }
    EncodedLength(src[s..]);
    assert dst[..d] + Encode(src[s..]) == dst[..d];
    r := d;
  }

  /** Four characters more. */
  lemma Extended(dst: array<char>, d: nat, more: seq<char>, after: seq<char>)
    requires d + 4 <= dst.Length && |more| >= 4
    requires dst[d] == more[0] && dst[d + 1] == more[1] && dst[d + 2] == more[2] && dst[d + 3] == more[3]
    requires after == more[4..]
    ensures dst[..d + 4] + after == dst[..d] + more
  {
  }

  /** Searches the alphabet. */
  method Find(c: char) returns (i: int)
    ensures i == if ValueOf(c).Some? then ValueOf(c).value else -1
  {
    i := 0;
    while i < 64 && Digit(i) != c
      invariant 0 <= i <= 64
      invariant forall j :: 0 <= j < i ==> Digit(j) != c
    {
      i := i + 1;
    }
    ValueDigit(c);
    if i == 64 {
      i := -1;
    } else {
      DigitValue(i);
    }
  }

  /** Decodes one group to dst[d..], a byte at a time; the byte after the last whole one may be scribbled on. */
  method DecodeStep(a: char, b: char, c: char, e: char, dst: array<Byte>, d: nat) returns (n: int)
    requires d + 3 <= dst.Length
    modifies dst
    ensures var g := DecodeGroup(a, b, c, e);
            && (n == -1 <==> g.Bad?)
            && (!g.Bad? ==> n == |g.bytes| && dst[d..d + n] == g.bytes)
    ensures dst[..d] == old(dst[..d])
  {
    hide Digit, ValueOf;
    ValueDigit(a);
    ValueDigit(b);
    ValueDigit(c);
    ValueDigit(e);
    var v := Find(a);
    if v < 0 {
      return -1;
    }
    dst[d] := v * 4;
    var w := Find(b);
    if w < 0 {
      return -1;
    }
    dst[d] := dst[d] + w / 16;
    dst[d + 1] := w % 16 * 16;
    if c == '=' && e == '=' {
      return 1;
    }
    var x := Find(c);
    if x < 0 {
      return -1;
    }
    dst[d + 1] := dst[d + 1] + x / 4;
    dst[d + 2] := x % 4 * 64;
    if e == '=' {
      return 2;
    }
    var y := Find(e);
    if y < 0 {
      return -1;
    }
    dst[d + 2] := dst[d + 2] + y;
    n := 3;
  }

  /** Decodes the group at s, with what was decoded so far before it. */
  method DecodeNext(src: seq<char>, s: nat, dst: array<Byte>, d: nat) returns (n: int)
    requires s + 4 <= |src| && d + 3 <= dst.Length && |src| % 4 == 0 && s % 4 == 0 && src[s] != '\0'
    requires Pending(dst[..d], Decode(src[s..])) == Decode(src)
    modifies dst
    ensures n == -1 || 1 <= n <= 3
    ensures n == -1 ==> Decode(src) == None
    ensures 1 <= n < 3 ==> Decode(src) == Some(dst[..d + n])
    ensures n == 3 ==> Pending(dst[..d + 3], Decode(src[s + 4..])) == Decode(src)
  {
    hide *;
    ghost var rest, before := src[s..], dst[..d];
    DecodeUnfolds(rest);
    assert rest[4..] == src[s + 4..];
    n := DecodeStep(src[s], src[s + 1], src[s + 2], src[s + 3], dst, d);
    if n < 0 {
      PendingFound(before, []);
      return;
    }
    assert dst[..d + n] == before + dst[d..d + n];
    PendingFound(before, dst[d..d + n]);
    PendingMore(before, dst[d..d + n], Decode(rest[4..]));
  }

  /** Decodes into the buffer, grown if necessary and possible: -1 for a bad length, too small a buffer or a bad character. */
  method Base64Decode(src: seq<char>, buffer: array<Byte>, g: QPrintf.Grower) returns (r: int, dst: array<Byte>)
    requires QPrintf.Honest(g)
    modifies buffer
    ensures dst == buffer || fresh(dst)
    ensures r == if Decode(src).None? || TooSmall(buffer.Length, |src| * 3 / 4 + 1, g) then -1 else |Decode(src).value|
    ensures r >= 0 ==> r <= dst.Length && dst[..r] == Decode(src).value
  {
    hide *;
    dst := buffer;
    if |src| % 4 != 0 {
      DecodeUnfolds(src);
      return -1, buffer;
    }
    var out := Grown(buffer, |src| * 3 / 4 + 1, g);
    if out == null {
      return -1, buffer;
    }
    dst := out;
    var s, d := 0, 0;
    PendingNone(Decode(src));
    assert src[0..] == src && dst[..0] == [];
    while s < |src| && src[s] != '\0'
      invariant 0 <= s <= |src| && s % 4 == 0 && 4 * d == 3 * s && dst == out
      invariant Pending(dst[..d], Decode(src[s..])) == Decode(src)
    {
      var n := DecodeNext(src, s, dst, d);
      if n < 0 {
        return -1, dst;
      }
      if n < 3 {
        return d + n, dst;
      }
      s := s + 4;
      d := d + 3;
    }
    DecodeUnfolds(src[s..]);
    PendingFound(dst[..d], []);
    assert dst[..d] + [] == dst[..d];
    r := d;
  }

  lemma PendingFound(done: seq<Byte>, more: seq<Byte>)
    ensures Pending(done, None) == None && Pending(done, Some(more)) == Some(done + more)
  {
  }

  lemma DecodeUnfolds(src: seq<char>)
    ensures |src| % 4 != 0 ==> Decode(src) == None
    ensures |src| % 4 == 0 && AtEnd(src) ==> Decode(src) == Some([])
    ensures AtEnd(src) <==> src == [] || src[0] == '\0'
    ensures |src| % 4 == 0 && !AtEnd(src) ==>
              var g := DecodeGroup(src[0], src[1], src[2], src[3]);
              Decode(src) == if g.Bad? then None else if g.Last? then Some(g.bytes) else Pending(g.bytes, Decode(src[4..]))
  {
    hide DecodeGroup;
  }

  lemma PendingNone(r: Option<seq<Byte>>)
    ensures Pending([], r) == r
  {
    if r.Some? {
      assert [] + r.value == r.value;
    }
  }

  function Pending(done: seq<Byte>, rest: Option<seq<Byte>>): Option<seq<Byte>> {
    if rest.Some? then Some(done + rest.value) else None
  }

  lemma PendingMore(done: seq<Byte>, group: seq<Byte>, rest: Option<seq<Byte>>)
    ensures Pending(done + group, rest) == Pending(done, Pending(group, rest))
  {
    if rest.Some? {
      assert done + group + rest.value == done + (group + rest.value);
    }
  }

  // ------------------------------------------------------------------ the alphabet and the groups

  /** From A to Z, from a to z, from 0 to 9, and the two signs. */
  lemma AlphabetIs(i: nat)
    requires i < 63
    ensures Digit(0) == 'A' && Digit(25) == 'Z' && Digit(26) == 'a' && Digit(51) == 'z'
    ensures Digit(52) == '0' && Digit(61) == '9' && Digit(62) == '+' && Digit(63) == '/'
    ensures i != 25 && i != 51 && i != 61 && i != 62 ==> Digit(i + 1) as int == Digit(i) as int + 1
  {
  }

  /** A group is the number that its three bytes make, in base 64... */
  lemma GroupsAreNumbers(p: Byte, q: Byte, r: Byte, rest: seq<Byte>)
    ensures var n := p * 65536 + q * 256 + r;
            Encode([p, q, r] + rest) ==
            [Digit(n / 262144), Digit(n / 4096 % 64), Digit(n / 64 % 64), Digit(n % 64)] + Encode(rest)
  {
    SixBitPieces(p, q, r);
    hide Digit;
    assert ([p, q, r] + rest)[3..] == rest;
  }

  /** ...where bytes that are missing count as zero, and digits of nothing else are padding. */
  lemma ShortGroupsArePadded(p: Byte, q: Byte)
    ensures var n := p * 65536 + q * 256;
            Encode([p, q]) == [Digit(n / 262144), Digit(n / 4096 % 64), Digit(n / 64 % 64), '=']
    ensures var n := p * 65536;
            Encode([p]) == [Digit(n / 262144), Digit(n / 4096 % 64), '=', '=']
  {
    SixBitPieces(p, q, 0);
    SixBitPieces(p, 0, 0);
    hide Digit;
  }

  lemma SixBitPieces(p: Byte, q: Byte, r: Byte)
    ensures var n := p * 65536 + q * 256 + r;
            && n / 262144 == p / 4
            && n / 4096 % 64 == p % 4 * 16 + q / 16
            && n / 64 % 64 == q % 16 * 4 + r / 64
            && n % 64 == r % 64
  {
    assert p == p / 4 * 4 + p % 4 && q == q / 16 * 16 + q % 16 && r == r / 64 * 64 + r % 64;
    DigitsOf(p / 4, p % 4 * 16 + q / 16, q % 16 * 4 + r / 64, r % 64);
  }

  lemma DigitsOf(a: nat, b: nat, c: nat, d: nat)
    requires b < 64 && c < 64 && d < 64
    ensures var n := a * 262144 + b * 4096 + c * 64 + d;
            n / 262144 == a && n / 4096 % 64 == b && n / 64 % 64 == c && n % 64 == d
  {
    var n := a * 262144 + b * 4096 + c * 64 + d;
    assert n / 64 == a * 4096 + b * 64 + c;
    assert n / 4096 == a * 64 + b;
  }

  predicate InAlphabet(c: char) {
    exists i :: 0 <= i < 64 && Digit(i) == c
  }

  lemma AlphabetHasValues(c: char)
    ensures ValueOf(c).Some? <==> InAlphabet(c)
    ensures ValueOf(c).Some? ==> 0 <= ValueOf(c).value < 64 && Digit(ValueOf(c).value) == c
  {
    ValueDigit(c);
    if InAlphabet(c) {
      var i :| 0 <= i < 64 && Digit(i) == c;
      DigitValue(i);
    }
  }

  /** Whole groups of the alphabet, and after k of them the end, a NUL, or padding. */
  predicate EndsAfter(src: seq<char>, k: nat) {
    var n := 4 * k;
    && n <= |src|
    && (forall i :: 0 <= i < n ==> InAlphabet(src[i]))
    && (n == |src| || src[n] == '\0'
        || (n + 4 <= |src| && InAlphabet(src[n]) && InAlphabet(src[n + 1])
            && (src[n + 2] == '=' || InAlphabet(src[n + 2])) && src[n + 3] == '='))
  }

  /** A text is decoded if and only if it consists of groups and ends so somewhere. */
  lemma {:induction false} DecodeTells(src: seq<char>)
    ensures Decode(src).Some? <==> |src| % 4 == 0 && exists k :: EndsAfter(src, k)
    decreases |src|
  {
    hide Digit, ValueOf, InAlphabet;
    if |src| % 4 == 0 {
      if AtEnd(src) {
        assert EndsAfter(src, 0);
      } else {
        forall i | 0 <= i < 4
          ensures ValueOf(src[i]).Some? <==> InAlphabet(src[i])
        {
          AlphabetHasValues(src[i]);
        }
        AlphabetHasValues('=');
        NoPadding();
        GroupEnds(src);
        DecodeTells(src[4..]);
      }
    }
  }

  lemma NoPadding()
    ensures ValueOf('=') == None && ValueOf('\0') == None
  {
  }

  /** Where a text ends, by its first group. */
  lemma GroupEnds(src: seq<char>)
    requires |src| % 4 == 0 && !AtEnd(src) && !InAlphabet('=')
    requires forall i :: 0 <= i < 4 ==> (ValueOf(src[i]).Some? <==> InAlphabet(src[i]))
    ensures var g := DecodeGroup(src[0], src[1], src[2], src[3]);
            (exists k :: EndsAfter(src, k)) <==> g.Last? || (g.Full? && exists k :: EndsAfter(src[4..], k))
  {
    hide Digit, ValueOf, InAlphabet;
    var g := DecodeGroup(src[0], src[1], src[2], src[3]);
    if k: nat :| EndsAfter(src, k) && k > 0 {
      assert InAlphabet(src[0]) && InAlphabet(src[1]) && InAlphabet(src[2]) && InAlphabet(src[3]);
      assert forall i :: 0 <= i < 4 * (k - 1) ==> src[4..][i] == src[i + 4];
      assert EndsAfter(src[4..], k - 1);
    }
    if g.Last? {
      assert EndsAfter(src, 0);
    }
    if g.Full? && exists k :: EndsAfter(src[4..], k) {
      var k: nat :| EndsAfter(src[4..], k);
      forall i | 0 <= i < 4 * (k + 1)
        ensures InAlphabet(src[i])
      {
        assert i >= 4 ==> src[i] == src[4..][i - 4];
      }
      assert EndsAfter(src, k + 1);
    }
  }

  /** And text without padding is what its bytes are encoded as. */
  lemma {:induction false} EncodeInvertsDecode(src: seq<char>)
    requires |src| % 4 == 0 && forall i :: 0 <= i < |src| ==> InAlphabet(src[i])
    ensures Decode(src).Some? && Encode(Decode(src).value) == src
    decreases |src|
  {
    hide Digit, ValueOf, InAlphabet;
    if src != [] {
      forall i | 0 <= i < 4
        ensures ValueOf(src[i]).Some? && 0 <= ValueOf(src[i]).value < 64 && Digit(ValueOf(src[i]).value) == src[i]
      {
        AlphabetHasValues(src[i]);
      }
      NoPadding();
      var rest := src[4..];
      EncodeInvertsDecode(rest);
      var v, w, x, y := ValueOf(src[0]).value, ValueOf(src[1]).value, ValueOf(src[2]).value, ValueOf(src[3]).value;
      var bytes := [v * 4 + w / 16, w % 16 * 16 + x / 4, x % 4 * 64 + y];
      PiecesAgain(v, w, x, y);
      assert DecodeGroup(src[0], src[1], src[2], src[3]) == Full(bytes);
      assert (bytes + Decode(rest).value)[3..] == Decode(rest).value;
      assert src == [src[0], src[1], src[2], src[3]] + rest;
    }
  }

  lemma PiecesAgain(v: nat, w: nat, x: nat, y: nat)
    requires v < 64 && w < 64 && x < 64 && y < 64
    ensures var p, q, r := v * 4 + w / 16, w % 16 * 16 + x / 4, x % 4 * 64 + y;
            p < 256 && q < 256 && r < 256
            && p / 4 == v && p % 4 * 16 + q / 16 == w && q % 16 * 4 + r / 64 == x && r % 64 == y
  {
  }
}
