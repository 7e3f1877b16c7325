/**
 * The print library's table-driven escaping: every character a table maps is
 * replaced, and text that does not fit stops at a whole character.
 */
module QPrintf {
  import opened Ints
  import opened Options

  const SIZE_MAX: nat := 0xFFFF_FFFF_FFFF_FFFF

  /** A conversion table and the longest replacement in it. */
  datatype Table = Table(matrix: map<char, string>, maxExpand: nat)

  predicate SetUp(t: Table) {
    t.maxExpand >= 1 && forall c :: c in t.matrix ==> |t.matrix[c]| <= t.maxExpand
  }

  /** Quotes and backslashes get a backslash. */
  const QUOTE: Table := Table(map['\'' := "\\'", '"' := "\\\"", '\\' := "\\\\"], 2)

  /** These, and white space by its letter. */
  const QUOTE_WS: Table :=
    Table(map['\'' := "\\'", '"' := "\\\"", '\\' := "\\\\", '\n' := "\\n", '\t' := "\\t", '\r' := "\\r"], 2)

  function Piece(t: Table, c: char): string {
    if c in t.matrix then t.matrix[c] else [c]
  }

  /** Every other character stays as it is. */
  lemma QuotePieces(c: char)
    ensures Piece(QUOTE, c) == if c == '\'' || c == '"' || c == '\\' then ['\\', c] else [c]
    ensures Piece(QUOTE_WS, c) ==
            if c == '\n' then "\\n" else if c == '\t' then "\\t" else if c == '\r' then "\\r"
            else Piece(QUOTE, c)
  {
  }

  function Translated(t: Table, s: string): string {
    if s == "" then "" else Piece(t, s[0]) + Translated(t, s[1..])
  }

  // ------------------------------------------------------------------ the hard route

  /** A growth function: a new size for the request, or none. */
  datatype Grower = NoGrow | Grow(f: (nat, nat) -> Option<nat>)

  /** A buffer that grows is as large as was asked for. */
  ghost predicate Honest(g: Grower) {
    g.Grow? ==> forall size, req :: g.f(size, req).Some? ==> g.f(size, req).value >= req && g.f(size, req).value >= size
  }

  /** Text added so far, the buffer's size, and whether an overflow has stopped the copying. */
  datatype Out = Out(text: string, size: nat, stopped: bool)

  /** Adds one character's replacement if there is room for it and min room more, after growing if need be. */
  function Emit(o: Out, base: nat, piece: string, room: nat, g: Grower): Out {
    var need := base + |o.text| + |piece| + room;
    if o.stopped || g.NoGrow? then o.(stopped := true)
    else if need <= o.size then o.(text := o.text + piece)
    else
      match g.f(o.size, need)
      case None => o.(stopped := true)
      case Some(n) => Out(o.text + piece, n, false)
  }

  function Hard(o: Out, base: nat, t: Table, s: string, room: nat, g: Grower): Out
    decreases s
  {
    if s == "" then o else Hard(Emit(o, base, Piece(t, s[0]), room, g), base, t, s[1..], room, g)
  }

  /** What a translation gives: by the easy route when the longest possible text fits, else by the hard one. */
  function Routed(size: nat, base: nat, t: Table, s: string, room: nat, g: Grower): Out {
    if base + |s| * t.maxExpand + room <= size then Out(Translated(t, s), size, false)
    else Hard(Out("", size, false), base, t, s, room, g)
  }

  lemma {:induction false} TranslatedConcat(t: Table, a: string, b: string)
    ensures Translated(t, a + b) == Translated(t, a) + Translated(t, b)
  {
    if a == "" {
      assert a + b == b;
    } else {
      assert (a + b)[1..] == a[1..] + b;
      TranslatedConcat(t, a[1..], b);
    }
  }

  lemma {:induction false} TranslatedLength(t: Table, s: string)
    requires SetUp(t)
    ensures |Translated(t, s)| <= |s| * t.maxExpand
  {
    if s != "" {
      TranslatedLength(t, s[1..]);
      assert |s| * t.maxExpand == t.maxExpand + |s[1..]| * t.maxExpand;
    }
  }

  lemma {:induction false} StoppedStays(o: Out, base: nat, t: Table, s: string, room: nat, g: Grower)
    requires o.stopped
    ensures Hard(o, base, t, s, room, g) == o
    decreases s
  {
    if s != "" {
      StoppedStays(o, base, t, s[1..], room, g);
    }
  }

  /** What the hard route writes is the translation of a whole-character prefix, with the room left that was asked for. */
  lemma {:induction false} HardIsPrefix(o: Out, base: nat, t: Table, s: string, room: nat, g: Grower) returns (k: nat)
    requires Honest(g) && !o.stopped
    ensures k <= |s|
    ensures var h := Hard(o, base, t, s, room, g);
            && h.text == o.text + Translated(t, s[..k])
            && (h.stopped <==> k < |s|)
            && (k > 0 ==> base + |h.text| + room <= h.size)
            && h.size >= o.size
    decreases s
  {
    if s == "" {
      k := 0;
    } else {
      var e := Emit(o, base, Piece(t, s[0]), room, g);
      if e.stopped {
        StoppedStays(e, base, t, s[1..], room, g);
        k := 0;
      } else {
        var j := HardIsPrefix(e, base, t, s[1..], room, g);
        k := j + 1;
        assert s[..k][0] == s[0] && s[..k][1..] == s[1..][..j];
      }
    }
  }

  /** With room for the longest possible text the hard route never grows or stops: the easy route is the same. */
  lemma {:induction false} EasyIsHard(o: Out, base: nat, t: Table, s: string, room: nat, g: Grower)
    requires SetUp(t) && g.Grow? && !o.stopped
    requires base + |o.text| + |s| * t.maxExpand + room <= o.size
    ensures Hard(o, base, t, s, room, g) == o.(text := o.text + Translated(t, s))
    decreases s
  {
    if s != "" {
      assert |s| * t.maxExpand == t.maxExpand + |s[1..]| * t.maxExpand;
      assert |s[1..]| * t.maxExpand >= 0;
      EasyIsHard(Emit(o, base, Piece(t, s[0]), room, g), base, t, s[1..], room, g);
    }
  }

  /** So the two routes agree wherever the easy one is taken and the buffer could have grown. */
  lemma RoutesAgree(size: nat, base: nat, t: Table, s: string, room: nat, g: Grower)
    requires SetUp(t) && g.Grow?
    ensures Routed(size, base, t, s, room, g) == Hard(Out("", size, false), base, t, s, room, g)
  {
    if base + |s| * t.maxExpand + room <= size {
      EasyIsHard(Out("", size, false), base, t, s, room, g);
    }
  }

  /** All of the text is there exactly when as much as the returned length was written. */
  lemma RoutedComplete(size: nat, base: nat, t: Table, s: string, room: nat, g: Grower)
    requires Honest(g) && SetUp(t)
    ensures var r := Routed(size, base, t, s, room, g);
            |r.text| == |Translated(t, s)| <==> r.text == Translated(t, s)
  {
    if base + |s| * t.maxExpand + room > size {
      var k := HardIsPrefix(Out("", size, false), base, t, s, room, g);
      assert s == s[..k] + s[k..];
      TranslatedConcat(t, s[..k], s[k..]);
      assert "" + Translated(t, s[..k]) == Translated(t, s[..k]);
    }
  }

  /** A growth function that never gives up. */
  ghost predicate Willing(g: Grower) {
    g.Grow? && forall size, req :: g.f(size, req).Some?
  }

  lemma {:induction false} WillingGoesOn(o: Out, base: nat, t: Table, s: string, room: nat, g: Grower)
    requires Willing(g) && !o.stopped
    ensures !Hard(o, base, t, s, room, g).stopped
    decreases s
  {
    if s != "" {
      WillingGoesOn(Emit(o, base, Piece(t, s[0]), room, g), base, t, s[1..], room, g);
    }
  }

  /** Once an overflow has stopped the copying, a string that need not fit gets nothing at all, even if it would. */
  lemma StoppedGetsNothing(size: nat, base: nat, t: Table, s: string, room: nat)
    requires base + |s| * t.maxExpand + room > size && s != ""
    ensures Routed(size, base, t, s, room, NoGrow).text == ""
  {
    var o := Emit(Out("", size, false), base, Piece(t, s[0]), room, NoGrow);
    StoppedStays(o, base, t, s[1..], room, NoGrow);
  }

  // ------------------------------------------------------------------ limits

  /** A translation under way that may not exceed a limit: what is left of it, and the length counted so far. */
  datatype Limited = Limited(out: Out, left: nat, counted: nat)

  /** A replacement longer than what is left of the limit is skipped; the length of any other counts, copied or not. */
  function EmitWithin(c: Limited, base: nat, piece: string, room: nat, g: Grower): Limited {
    if c.left < |piece| then c
    else
      var o := Emit(c.out, base, piece, room, g);
      Limited(o, if o.stopped then c.left else c.left - |piece|, c.counted + |piece|)
  }

  function HardWithin(c: Limited, base: nat, t: Table, s: string, room: nat, g: Grower): Limited
    decreases s
  {
    if s == "" then c else HardWithin(EmitWithin(c, base, Piece(t, s[0]), room, g), base, t, s[1..], room, g)
  }

  /** A translation under a limit, by either route: the text, and the length reported. */
  function RoutedWithin(size: nat, base: nat, t: Table, s: string, limit: nat, room: nat, g: Grower): (Out, nat) {
    if |s| * t.maxExpand <= limit && base + |s| * t.maxExpand + room <= size
    then (Out(Translated(t, s), size, false), |Translated(t, s)|)
    else
      var h := HardWithin(Limited(Out("", size, false), limit, 0), base, t, s, room, g);
      (h.out, h.counted)
  }

  /** The same with the length in an int, and -1 for sources so long that the longest text overflows the arithmetic. */
  function Translation(size: nat, base: nat, t: Table, s: string, limit: nat, room: nat, g: Grower): (Out, int)
    requires t.maxExpand >= 1
  {
    if |s| >= SIZE_MAX / 2 / t.maxExpand then (Out("", size, false), -1)
    else
      var r := RoutedWithin(size, base, t, s, limit, room, g);
      (r.0, Wrap32(r.1))
  }

  /** A limit that the translation keeps within changes nothing. */
  lemma {:induction false} HardUnlimited(c: Limited, base: nat, t: Table, s: string, room: nat, g: Grower)
    requires |Translated(t, s)| <= c.left
    ensures var h := HardWithin(c, base, t, s, room, g);
            h.out == Hard(c.out, base, t, s, room, g) && h.counted == c.counted + |Translated(t, s)|
    decreases s
  {
    hide Emit;
    if s != "" {
      HardUnlimited(EmitWithin(c, base, Piece(t, s[0]), room, g), base, t, s[1..], room, g);
    }
  }

  lemma RoutedUnlimited(size: nat, base: nat, t: Table, s: string, limit: nat, room: nat, g: Grower)
    requires SetUp(t) && |Translated(t, s)| <= limit && (g.Grow? || |s| * t.maxExpand <= limit)
    ensures RoutedWithin(size, base, t, s, limit, room, g) == (Routed(size, base, t, s, room, g), |Translated(t, s)|)
  {
    if |s| * t.maxExpand > limit || base + |s| * t.maxExpand + room > size {
      HardUnlimited(Limited(Out("", size, false), limit, 0), base, t, s, room, g);
      if base + |s| * t.maxExpand + room <= size {
        EasyIsHard(Out("", size, false), base, t, s, room, g);
        assert "" + Translated(t, s) == Translated(t, s);
      }
    }
  }

  /** With a buffer that grows on request, the full length is reported exactly when the limit allows it. */
  lemma {:induction false} LimitBinds(c: Limited, base: nat, t: Table, s: string, room: nat, g: Grower)
    requires Willing(g) && !c.out.stopped
    ensures var h := HardWithin(c, base, t, s, room, g);
            && h.counted <= c.counted + |Translated(t, s)|
            && (h.counted == c.counted + |Translated(t, s)| <==> |Translated(t, s)| <= c.left)
            && |h.out.text| == |c.out.text| + h.counted - c.counted
    decreases s
  {
    if s != "" {
      LimitBinds(EmitWithin(c, base, Piece(t, s[0]), room, g), base, t, s[1..], room, g);
    }
  }

  /** What is copied under a limit that nothing else stops: every replacement that fits in what is left. */
  function Picked(t: Table, s: string, left: nat): (x: string)
    ensures |x| <= left
  {
    if s == "" then ""
    else
      var p := Piece(t, s[0]);
      if |p| > left then Picked(t, s[1..], left) else p + Picked(t, s[1..], left - |p|)
  }

  /** How many characters are copied before the first replacement that is longer than what is left... */
  function Fit(t: Table, s: string, left: nat): (n: nat)
    ensures n <= |s|
  {
    if s == "" || |Piece(t, s[0])| > left then 0 else 1 + Fit(t, s[1..], left - |Piece(t, s[0])|)
  }

  /** ...and what is left then. */
  function Rest(t: Table, s: string, left: nat): nat {
    if s == "" || |Piece(t, s[0])| > left then left else Rest(t, s[1..], left - |Piece(t, s[0])|)
  }

  predicate AllLonger(t: Table, s: string, left: nat) {
    forall i :: 0 <= i < |s| ==> |Piece(t, s[i])| > left
  }

  /** No replacement is empty. */
  predicate Solid(t: Table) {
    forall c :: c in t.matrix ==> t.matrix[c] != ""
  }

  /** A text that is the translation of a prefix. */
  ghost predicate IsPrefix(text: string, t: Table, s: string) {
    exists j :: 0 <= j <= |s| && text == Translated(t, s[..j])
  }

  /** Up to where an overflow stops the copying, everything that fits is copied. */
  lemma {:induction false} HardPicks(c: Limited, base: nat, t: Table, s: string, room: nat, g: Grower) returns (m: nat)
    requires !c.out.stopped
    ensures m <= |s|
    ensures var h := HardWithin(c, base, t, s, room, g);
            h.out.text == c.out.text + Picked(t, s[..m], c.left) && (h.out.stopped <==> m < |s|)
    ensures Willing(g) ==> m == |s|
    decreases s
  {
    if s == "" {
      m := 0;
    } else {
      var d := EmitWithin(c, base, Piece(t, s[0]), room, g);
      EmitPicks(c, base, Piece(t, s[0]), room, g);
      hide EmitWithin, Emit, Piece;
      if d.out.stopped {
        m := 0;
        StoppedPicks(d, base, t, s[1..], room, g);
      } else {
        var n := HardPicks(d, base, t, s[1..], room, g);
        m := n + 1;
        assert s[..m][0] == s[0] && s[..m][1..] == s[1..][..n];
        assert c.out.text + Piece(t, s[0]) + Picked(t, s[1..][..n], d.left) ==
               c.out.text + (Piece(t, s[0]) + Picked(t, s[1..][..n], d.left));
      }
    }
  }

  lemma EmitPicks(c: Limited, base: nat, piece: string, room: nat, g: Grower)
    requires !c.out.stopped
    ensures var d := EmitWithin(c, base, piece, room, g);
            && (|piece| > c.left ==> d == c)
            && (d.out.stopped ==> |piece| <= c.left && d.out.text == c.out.text && !Willing(g))
            && (|piece| <= c.left && !d.out.stopped ==> d.out.text == c.out.text + piece && d.left == c.left - |piece|)
  {
  }

  lemma {:induction false} StoppedPicks(c: Limited, base: nat, t: Table, s: string, room: nat, g: Grower)
    requires c.out.stopped
    ensures HardWithin(c, base, t, s, room, g).out == c.out
    decreases s
  {
    if s != "" {
      StoppedPicks(EmitWithin(c, base, Piece(t, s[0]), room, g), base, t, s[1..], room, g);
    }
  }

  lemma PrefixTail(text: string, t: Table, s: string)
    requires Solid(t) && s != ""
    ensures IsPrefix(Piece(t, s[0]) + text, t, s) <==> IsPrefix(text, t, s[1..])
  {
    var p := Piece(t, s[0]);
    if IsPrefix(p + text, t, s) {
      var j :| 0 <= j <= |s| && p + text == Translated(t, s[..j]);
      assert j > 0 && s[..j][0] == s[0] && s[..j][1..] == s[1..][..j - 1];
      assert text == (p + text)[|p|..] && Translated(t, s[1..][..j - 1]) == (p + Translated(t, s[1..][..j - 1]))[|p|..];
    }
    if IsPrefix(text, t, s[1..]) {
      var j :| 0 <= j <= |s[1..]| && text == Translated(t, s[1..][..j]);
      assert s[..j + 1][0] == s[0] && s[..j + 1][1..] == s[1..][..j];
      assert p + text == Translated(t, s[..j + 1]);
    }
  }

  /** What is picked is a prefix exactly when nothing behind the first replacement that is too long is short enough. */
  lemma {:induction false} PickedTells(t: Table, s: string, left: nat)
    requires Solid(t)
    ensures IsPrefix(Picked(t, s, left), t, s) <==> AllLonger(t, s[Fit(t, s, left)..], Rest(t, s, left))
    decreases s
  {
    if s == "" {
      assert Picked(t, s, left) == Translated(t, s[..0]);
    } else if |Piece(t, s[0])| > left {
      PickedNothing(t, s, left);
      FirstTooLong(t, s, left, Picked(t, s, left));
      assert s[0..] == s;
    } else {
      var less := left - |Piece(t, s[0])|;
      PickedTells(t, s[1..], less);
      PrefixTail(Picked(t, s[1..], less), t, s);
      assert s[1..][Fit(t, s[1..], less)..] == s[Fit(t, s, left)..];
    }
  }

  lemma {:induction false} PickedNothing(t: Table, s: string, left: nat)
    requires Solid(t)
    ensures Picked(t, s, left) == "" <==> AllLonger(t, s, left)
    decreases s
  {
    if s != "" {
      PickedNothing(t, s[1..], left);
      if AllLonger(t, s[1..], left) && |Piece(t, s[0])| > left {
        forall i | 0 <= i < |s|
          ensures |Piece(t, s[i])| > left
        {
          assert i > 0 ==> s[i] == s[1..][i - 1];
        }
      }
      if AllLonger(t, s, left) {
        forall i | 0 <= i < |s[1..]|
          ensures |Piece(t, s[1..][i])| > left
        {
          assert s[1..][i] == s[i + 1];
        }
      }
    }
  }

  lemma FirstTooLong(t: Table, s: string, left: nat, text: string)
    requires s != "" && |Piece(t, s[0])| > left >= |text|
    ensures IsPrefix(text, t, s) <==> text == ""
  {
    if IsPrefix(text, t, s) {
      var j :| 0 <= j <= |s| && text == Translated(t, s[..j]);
      if j > 0 {
        StartsWithFirst(t, s, j);
        assert false;
      }
    }
    assert Translated(t, s[..0]) == "";
  }

  lemma StartsWithFirst(t: Table, s: string, j: nat)
    requires 0 < j <= |s|
    ensures |Translated(t, s[..j])| >= |Piece(t, s[0])|
  {
    assert s[..j][0] == s[0];
  }

  /** A prefix of what comes before an overflow is one of all. */
  lemma PrefixOfPart(text: string, t: Table, s: string, m: nat)
    requires Solid(t) && m <= |s| && |text| <= |Translated(t, s[..m])|
    ensures IsPrefix(text, t, s[..m]) <==> IsPrefix(text, t, s)
  {
    if IsPrefix(text, t, s[..m]) {
      var j :| 0 <= j <= |s[..m]| && text == Translated(t, s[..m][..j]);
      assert s[..m][..j] == s[..j];
    }
    if IsPrefix(text, t, s) {
      var j :| 0 <= j <= |s| && text == Translated(t, s[..j]);
      if j > m {
        LongerIsLonger(t, s, m, j);
      } else {
        assert s[..m][..j] == s[..j];
      }
    }
  }

  lemma LongerIsLonger(t: Table, s: string, m: nat, j: nat)
    requires Solid(t) && m < j <= |s|
    ensures |Translated(t, s[..m])| < |Translated(t, s[..j])|
  {
    assert s[..j] == s[..m] + s[m..j];
    TranslatedConcat(t, s[..m], s[m..j]);
  }

  lemma {:induction false} PickedAtMost(t: Table, s: string, left: nat)
    ensures |Picked(t, s, left)| <= |Translated(t, s)|
    decreases s
  {
    if s != "" {
      var p := Piece(t, s[0]);
      PickedAtMost(t, s[1..], if |p| > left then left else left - |p|);
    }
  }

  /**
   * A translation under a limit is that of a prefix exactly when, behind the
   * first replacement longer than what is left of the limit, every other is
   * longer as well; m is how far the copying came before the buffer overflowed.
   */
  lemma LimitCuts(size: nat, base: nat, t: Table, s: string, limit: nat, room: nat, g: Grower) returns (m: nat)
    requires SetUp(t) && Solid(t)
    ensures m <= |s| && (Willing(g) ==> m == |s|)
    ensures RoutedWithin(size, base, t, s, limit, room, g).0.stopped <==> m < |s|
    ensures IsPrefix(RoutedWithin(size, base, t, s, limit, room, g).0.text, t, s) <==>
            AllLonger(t, s[..m][Fit(t, s[..m], limit)..], Rest(t, s[..m], limit))
  {
    if |s| * t.maxExpand <= limit && base + |s| * t.maxExpand + room <= size {
      m := |s|;
      assert s[..m] == s;
      TranslatedLength(t, s);
      PickedAll(t, s, limit);
    } else {
      m := HardPicks(Limited(Out("", size, false), limit, 0), base, t, s, room, g);
      assert "" + Picked(t, s[..m], limit) == Picked(t, s[..m], limit);
    }
    PickedTells(t, s[..m], limit);
    PickedAtMost(t, s[..m], limit);
    PrefixOfPart(Picked(t, s[..m], limit), t, s, m);
  }

  lemma {:induction false} PickedAll(t: Table, s: string, left: nat)
    requires |Translated(t, s)| <= left
    ensures Picked(t, s, left) == Translated(t, s)
    decreases s
  {
    if s != "" {
      PickedAll(t, s[1..], left - |Piece(t, s[0])|);
    }
  }

  /** A limit that cuts does not leave a prefix: an escape that is too long is skipped, and what follows is copied. */
  lemma LimitSkips(size: nat, room: nat, g: Grower)
    requires g.Grow? && 1 + room <= size
    ensures RoutedWithin(size, 0, QUOTE, "\"a", 1, room, g) == (Out("a", size, false), 1)
  {
    var s := "\"a";
    var c := Limited(Out("", size, false), 1, 0);
    assert Piece(QUOTE, s[0]) == "\\\"" && EmitWithin(c, 0, Piece(QUOTE, s[0]), room, g) == c;
    assert s[1..] == "a" && "a"[1..] == "" && Piece(QUOTE, 'a') == "a" && "" + "a" == "a";
    assert HardWithin(c, 0, QUOTE, "a", room, g) == HardWithin(EmitWithin(c, 0, "a", room, g), 0, QUOTE, "", room, g);
  }

  // ------------------------------------------------------------------ in place

  /** A destination buffer and how far it is filled. */
  class Buffer {
    var str: array<char>
    var offs: nat

    ghost predicate Valid()
      reads this
    {
      offs <= str.Length
    }

    ghost function Text(): string
      requires Valid()
      reads this, str
    {
      str[..offs]
    }

    constructor (size: nat)
      ensures Valid() && fresh(str) && str.Length == size && offs == 0
    {
      str := new char[size](_ => ' ');
      offs := 0;
    }

    /** Makes the buffer as large as the growth function says, keeping what it holds. */
    method Resize(n: nat)
      requires Valid() && n >= str.Length
      modifies this
      ensures Valid() && fresh(str) && str.Length == n && offs == old(offs) && Text() == old(Text())
    {
      var bigger := new char[n](i reads this, str requires Valid() => if 0 <= i < str.Length then str[i] else ' ');
      str := bigger;
    }

    /** Copies characters to the end; there is room for them. */
    method Put(piece: string)
      requires Valid() && offs + |piece| <= str.Length
      modifies this`offs, str
      ensures Valid() && Text() == old(Text()) + piece
    {
      var i := 0;
      while i < |piece|
        invariant 0 <= i <= |piece| && offs == old(offs) + i && Valid()
        invariant Text() == old(Text()) + piece[..i]
      {
        str[offs] := piece[i];
        offs := offs + 1;
        assert piece[..i + 1] == piece[..i] + [piece[i]];
        assert Text() == str[..offs - 1] + [str[offs - 1]];
        i := i + 1;
      }
      assert piece[..i] == piece;
    }

    /** One character of the hard route: whether copying goes on. */
    method EmitPiece(piece: string, room: nat, g: Grower, stopped: bool) returns (stops: bool)
      requires Valid() && Honest(g)
      modifies this, str
      ensures Valid() && (str == old(str) || fresh(str))
      ensures var before := old(Out(Text(), str.Length, stopped));
              Out(Text(), str.Length, stops) == Emit(before, 0, piece, room, g)
    {
      stops := stopped || g.NoGrow?;
      if stops {
        return;
      }
      var need := offs + |piece| + room;
      if need > str.Length {
        var n := g.f(str.Length, need);
        if n.None? {
          return true;
        }
        Resize(n.value);
      }
      Put(piece);
    }

    /**
     * Appends the translation of s, leaving min room and keeping within the
     * limit, and returns the length it would have had with room for everything.
     * The length is counted in an int.
     */
    method Translate(s: string, limit: nat, t: Table, g: Grower, room: nat) returns (rval: int)
      requires Valid() && Honest(g) && SetUp(t)
      modifies this, str
      ensures Valid() && (str == old(str) || fresh(str))
      ensures var r := Translation(old(str.Length), old(offs), t, s, limit, room, g);
              Text() == old(Text()) + r.0.text && str.Length == r.0.size && rval == r.1
    {
      hide Emit, HardWithin, Wrap32;
      if |s| >= SIZE_MAX / 2 / t.maxExpand {
        assert Text() + "" == Text();
        return -1;
      }
      var length;
      if |s| * t.maxExpand <= limit && |s| * t.maxExpand + room + offs <= str.Length {
        length := EasyRoute(s, t);
      } else {
        length := HardRoute(s, limit, t, g, room);
      }
      rval := Wrap32(length);
    }

    /** Definitely enough space. */
    method EasyRoute(s: string, t: Table) returns (rval: int)
      requires Valid() && SetUp(t) && offs + |s| * t.maxExpand <= str.Length
      modifies this`offs, str
      ensures Valid() && rval == |Translated(t, s)| && Text() == old(Text()) + Translated(t, s)
    {
      TranslatedLength(t, s);
      rval := |s|;
      var i := 0;
      assert s[..0] == "" && s[0..] == s;
      while i < |s|
        invariant 0 <= i <= |s| && Valid()
        invariant offs == old(offs) + |Translated(t, s[..i])|
        invariant Text() == old(Text()) + Translated(t, s[..i])
        invariant rval == |s| - i + |Translated(t, s[..i])|
      {
        Stepped(t, s, i);
        TranslatedLength(t, s[..i]);
        Budget(|s|, i, t.maxExpand);
        if s[i] in t.matrix {
          Put(t.matrix[s[i]]);
          rval := rval + (|t.matrix[s[i]]| - 1);
        } else {
          Put([s[i]]);
        }
        i := i + 1;
      }
      assert s[..i] == s;
    }

    /** May or may not be enough space. */
    method HardRoute(s: string, limit: nat, t: Table, g: Grower, room: nat) returns (rval: int)
      requires Valid() && Honest(g)
      modifies this, str
      ensures Valid() && (str == old(str) || fresh(str))
      ensures var h := HardWithin(Limited(Out("", old(str.Length), false), limit, 0), old(offs), t, s, room, g);
              Text() == old(Text()) + h.out.text && str.Length == h.out.size && rval == h.counted
    {
      hide *;
      rval := |s|;
      var left, stopped := limit, g.NoGrow?;
      ghost var before, c := Text(), Limited(Out("", str.Length, false), limit, 0);
      ghost var base, cur := |before|, c.(out := c.out.(stopped := stopped));
      ghost var whole := HardWithin(c, base, t, s, room, g);
      TextIs();
      WithinStart(c, base, t, s, room, g);
      var i := 0;
      assert s[0..] == s && before + "" == before;
      while i < |s|
        invariant 0 <= i <= |s| && Valid() && (str == old(str) || fresh(str))
        invariant rval == |s| - i + cur.counted && left == cur.left
        invariant Text() == before + cur.out.text && cur.out.size == str.Length && cur.out.stopped == stopped
        invariant Tracks(cur, base, whole, t, s[i..], room, g)
      {
        var piece := if s[i] in t.matrix then t.matrix[s[i]] else [s[i]];
        assert s[i..][0] == s[i] && s[i..][1..] == s[i + 1..];
        PieceIs(t, s[i]);
        TrackStep(cur, base, whole, t, s[i..], room, g);
        EmitShift(before, cur.out, piece, room, g);
        WithinIs(cur, base, piece, room, g);
        if left >= |piece| {
          rval := rval + (|piece| - 1);
          stopped := EmitPiece(piece, room, g, stopped);
          if !stopped {
            left := left - |piece|;
          }
        } else {
          rval := rval - 1;
        }
        cur := EmitWithin(cur, base, piece, room, g);
        i := i + 1;
      }
      TrackEnd(cur, base, whole, t, s[i..], room, g);
    }

    lemma TextIs()
      requires Valid()
      ensures |Text()| == offs
    {
    }
  }

  /** A string between double quotes, its quotes and backslashes escaped. */
  function Quoted(s: string): string {
    ['"'] + Translated(QUOTE, s) + ['"']
  }

  /** What a quoting that may have been cut short leaves: either quote may be missing. */
  predicate PartlyQuoted(added: string, s: string, k: nat)
    requires k <= |s|
  {
    var t := Translated(QUOTE, s[..k]);
    added == t || added == ['"'] + t || added == t + ['"'] || added == ['"'] + t + ['"']
  }

  /** What the quoting of a string leaves in a buffer; when it fails the print gives up. */
  datatype QuoteOut = QuoteOut(text: string, size: nat, complete: bool, failed: bool)

  /** The closing quote, if there is room for it or can be made. */
  function Close(text: string, base: nat, size: nat, whole: bool, g: Grower): QuoteOut
    requires g.Grow?
  {
    var need := base + |text| + 2;
    if need <= size then QuoteOut(text + ['"'], size, whole, false)
    else
      match g.f(size, need)
      case None => QuoteOut(text, size, false, false)
      case Some(n) => QuoteOut(text + ['"'], n, whole, false)
  }

  /**
   * An opening quote if nothing has overflowed yet and there is room for both,
   * the escaped string, and a closing quote if there is room for it. The limit
   * is for the quotes as well.
   */
  function QuotedInto(size: nat, base: nat, s: string, limit: nat, g: Grower, nogrow: bool): QuoteOut
    requires g.Grow?
  {
    if limit < 2 then QuoteOut([], size, false, true)
    else
      var o := Emit(Out([], size, nogrow), base, ['"'], 1, g);
      var r := Translation(o.size, base + |o.text|, QUOTE, s, limit - 2, 2, if o.stopped then NoGrow else g);
      if r.1 < 0 then QuoteOut(o.text + r.0.text, r.0.size, false, true)
      else Close(o.text + r.0.text, base, r.0.size, !o.stopped && r.1 == |r.0.text|, g)
  }

  /** A limit that holds the text, both quotes included. */
  predicate Holds(s: string, limit: nat) {
    |Translated(QUOTE, s)| + 2 <= limit <= INT_MAX
  }

  /**
   * Within a limit that holds it, a quoting is reported complete exactly when it
   * is; a buffer that grows on request makes it so, and otherwise whole
   * characters come out.
   */
  lemma QuotedIntoIs(size: nat, base: nat, s: string, limit: nat, g: Grower, nogrow: bool) returns (k: nat)
    requires g.Grow? && Honest(g) && Holds(s, limit)
    ensures var q := QuotedInto(size, base, s, limit, g, nogrow);
            && !q.failed
            && (q.complete <==> q.text == Quoted(s))
            && (Willing(g) && !nogrow ==> q.complete)
            && k <= |s| && PartlyQuoted(q.text, s, k)
  {
    hide *;
    HeldLimit(s, limit);
    QuoteSetUp();
    var o := Emit(Out([], size, nogrow), base, ['"'], 1, g);
    var grow := if o.stopped then NoGrow else g;
    var r := Translation(o.size, base + |o.text|, QUOTE, s, limit - 2, 2, grow);
    var q := QuotedInto(size, base, s, limit, g, nogrow);
    OpensOrNot(size, base, g, nogrow);
    HonestNoGrow();
    k := TranslationPrefix(o.size, base + |o.text|, s, limit - 2, 2, grow);
    QuotedIntoUnfolds(size, base, s, limit, g, nogrow);
    ClosesOrNot(o.text + r.0.text, base, r.0.size, !o.stopped && r.1 == |r.0.text|, g);
    Assembled(o.text, r.0.text, q.text, s, k);
  }

  lemma HeldLimit(s: string, limit: nat)
    requires Holds(s, limit)
    ensures |Translated(QUOTE, s)| <= limit - 2 && 2 <= limit <= INT_MAX
  {
  }

  /** Within the limit it is a whole-character prefix, and its length tells whether it is all. */
  lemma TranslationPrefix(size: nat, base: nat, s: string, limit: nat, room: nat, g: Grower) returns (k: nat)
    requires Honest(g) && |Translated(QUOTE, s)| <= limit <= INT_MAX
    ensures var r := Translation(size, base, QUOTE, s, limit, room, g);
            && r.1 == |Translated(QUOTE, s)| >= 0
            && k <= |s| && r.0.text == Translated(QUOTE, s[..k]) && (k == |s| ==> s[..k] == s)
            && (r.1 == |r.0.text| <==> r.0.text == Translated(QUOTE, s))
            && (Willing(g) ==> r.1 == |r.0.text|)
  {
    hide Hard, HardWithin, Translated, Wrap32, Piece;
    TranslationIs(size, base, s, limit, room, g);
    if |s| * 2 <= limit && base + |s| * 2 + room <= size {
      k := |s|;
      assert s[..k] == s;
    } else {
      k := HardIsPrefix(Out("", size, false), base, QUOTE, s, room, g);
      assert "" + Translated(QUOTE, s[..k]) == Translated(QUOTE, s[..k]);
      TranslatedConcat(QUOTE, s[..k], s[k..]);
      assert s == s[..k] + s[k..];
      if Willing(g) {
        WillingGoesOn(Out("", size, false), base, QUOTE, s, room, g);
      }
      if k == |s| {
        assert s[..k] == s;
      }
    }
  }

  /** Such a limit changes neither the text nor the length. */
  lemma TranslationIs(size: nat, base: nat, s: string, limit: nat, room: nat, g: Grower)
    requires |Translated(QUOTE, s)| <= limit <= INT_MAX
    ensures Translation(size, base, QUOTE, s, limit, room, g) ==
            (if |s| * 2 <= limit && base + |s| * 2 + room <= size then Out(Translated(QUOTE, s), size, false)
             else Hard(Out("", size, false), base, QUOTE, s, room, g), |Translated(QUOTE, s)|)
  {
    AtLeastAsLong(s);
    HardUnlimited(Limited(Out("", size, false), limit, 0), base, QUOTE, s, room, g);
    hide Hard, HardWithin, Translated, Wrap32;
  }

  lemma {:induction false} AtLeastAsLong(s: string)
    ensures |s| <= |Translated(QUOTE, s)|
  {
    if s != "" {
      AtLeastAsLong(s[1..]);
    }
  }

  lemma QuoteSetUp()
    ensures SetUp(QUOTE) && QUOTE.maxExpand == 2
  {
  }

  lemma QuotedIntoUnfolds(size: nat, base: nat, s: string, limit: nat, g: Grower, nogrow: bool)
    requires g.Grow? && limit >= 2
    ensures var o := Emit(Out([], size, nogrow), base, ['"'], 1, g);
            var r := Translation(o.size, base + |o.text|, QUOTE, s, limit - 2, 2, if o.stopped then NoGrow else g);
            QuotedInto(size, base, s, limit, g, nogrow) ==
            if r.1 < 0 then QuoteOut(o.text + r.0.text, r.0.size, false, true)
            else Close(o.text + r.0.text, base, r.0.size, !o.stopped && r.1 == |r.0.text|, g)
  {
    hide Emit, Translation, Close;
  }

  lemma QuotedIntoRefuses(size: nat, base: nat, s: string, limit: nat, g: Grower, nogrow: bool)
    requires g.Grow? && limit < 2
    ensures QuotedInto(size, base, s, limit, g, nogrow) == QuoteOut([], size, false, true)
  {
  }

  /** Either quote there or not. */
  lemma Assembled(lead: string, text: string, all: string, s: string, k: nat)
    requires k <= |s| && (lead == [] || lead == ['"']) && text == Translated(QUOTE, s[..k])
    requires all == lead + text || all == lead + text + ['"']
    ensures PartlyQuoted(all, s, k)
    ensures lead == ['"'] && text == Translated(QUOTE, s) && all == lead + text + ['"'] ==> all == Quoted(s)
    ensures all == Quoted(s) ==> lead == ['"'] && |text| == |Translated(QUOTE, s)| && all == lead + text + ['"']
  {
    hide Translated;
    assert [] + text == text;
    TranslatedConcat(QUOTE, s[..k], s[k..]);
    assert s == s[..k] + s[k..];
    LeadMissing(s, k);
  }

  /** Without its opening quote it cannot be taken for a quoted string. */
  lemma LeadMissing(s: string, k: nat)
    requires k <= |s|
    ensures Translated(QUOTE, s[..k]) != Quoted(s) && Translated(QUOTE, s[..k]) + ['"'] != Quoted(s)
  {
    EscapesQuotes(s[..k]);
    hide Translated;
    assert |Quoted(s)| >= 2 && Quoted(s)[0] == '"';
  }

  /** An escaped string starts with no quote. */
  lemma EscapesQuotes(s: string)
    ensures Translated(QUOTE, s) != "" ==> Translated(QUOTE, s)[0] != '"'
  {
  }

  lemma OpensOrNot(size: nat, base: nat, g: Grower, nogrow: bool)
    requires g.Grow?
    ensures var o := Emit(Out([], size, nogrow), base, ['"'], 1, g);
            && o.text == (if o.stopped then [] else ['"'])
            && (Willing(g) && !nogrow ==> !o.stopped)
  {
  }

  lemma ClosesOrNot(text: string, base: nat, size: nat, whole: bool, g: Grower)
    requires g.Grow?
    ensures var q := Close(text, base, size, whole, g);
            && (q.text == text || q.text == text + ['"'])
            && !q.failed
            && (q.complete <==> whole && q.text == text + ['"'])
            && (Willing(g) ==> q.complete == whole)
  {
  }

  /** A buffer of fixed size: the growth function only says whether the size suffices. */
  ghost predicate Fixed(g: Grower) {
    g.Grow? && forall size, req :: g.f(size, req) == if req <= size then Some(size) else None
  }

  /** In a buffer of fixed size a quoting is complete exactly when it fits with the final NUL, and nothing overflowed before. */
  lemma FixedTells(size: nat, base: nat, s: string, limit: nat, g: Grower, nogrow: bool)
    requires Fixed(g) && Holds(s, limit)
    ensures QuotedInto(size, base, s, limit, g, nogrow).complete <==>
            !nogrow && base + |Translated(QUOTE, s)| + 3 <= size
  {
    hide Translated, Hard, HardWithin, Wrap32, Translation;
    HeldLimit(s, limit);
    FixedIsHonest(g);
    var o := Emit(Out([], size, nogrow), base, ['"'], 1, g);
    var r := Translation(o.size, base + |o.text|, QUOTE, s, limit - 2, 2, if o.stopped then NoGrow else g);
    var k := TranslationPrefix(o.size, base + |o.text|, s, limit - 2, 2, if o.stopped then NoGrow else g);
    QuotedIntoUnfolds(size, base, s, limit, g, nogrow);
    if !o.stopped {
      FixedTranslation(size, base + 1, s, limit - 2, g);
    }
  }

  lemma FixedIsHonest(g: Grower)
    requires Fixed(g)
    ensures Honest(g) && Honest(NoGrow)
  {
  }

  lemma FixedTranslation(size: nat, base: nat, s: string, limit: nat, g: Grower)
    requires Fixed(g) && |Translated(QUOTE, s)| <= limit <= INT_MAX
    ensures var r := Translation(size, base, QUOTE, s, limit, 2, g);
            r.0.size == size && (r.1 == |r.0.text| <==> s == "" || base + |Translated(QUOTE, s)| + 2 <= size)
  {
    FixedIsHonest(g);
    var k := TranslationPrefix(size, base, s, limit, 2, g);
    AtLeastAsLong(s);
    TranslatedLength(QUOTE, s);
    hide Translated, Hard, HardWithin, Wrap32;
    if !(|s| * 2 <= limit && base + |s| * 2 + 2 <= size) {
      HardUnlimited(Limited(Out("", size, false), limit, 0), base, QUOTE, s, 2, g);
      FixedHard(Out("", size, false), base, s, 2, g);
      assert "" + Translated(QUOTE, s) == Translated(QUOTE, s);
    }
  }

  lemma {:induction false} FixedHard(o: Out, base: nat, s: string, room: nat, g: Grower)
    requires Fixed(g) && !o.stopped
    ensures var h := Hard(o, base, QUOTE, s, room, g);
            && h.size == o.size
            && (|h.text| == |o.text| + |Translated(QUOTE, s)| <==>
                s == "" || base + |o.text| + |Translated(QUOTE, s)| + room <= o.size)
            && |h.text| <= |o.text| + |Translated(QUOTE, s)|
    decreases s
  {
    if s != "" {
      var e := Emit(o, base, Piece(QUOTE, s[0]), room, g);
      if e.stopped {
        StoppedStays(e, base, QUOTE, s[1..], room, g);
      } else {
        FixedHard(e, base, s[1..], room, g);
      }
    }
  }

  /** After an overflow a short string comes out without its opening quote, and a longer one not at all, but for its closing quote. */
  lemma AfterOverflow(g: Grower)
    requires g.Grow?
    ensures QuotedInto(8, 0, "abc", INT_MAX, g, true).text == "abc\""
    ensures QuotedInto(5, 0, "abc", INT_MAX, g, true).text == "\""
  {
    AbcRouted();
    hide Translation;
    assert Emit(Out([], 8, true), 0, ['"'], 1, g) == Out([], 8, true);
    assert Emit(Out([], 5, true), 0, ['"'], 1, g) == Out([], 5, true);
    assert [] + "abc" == "abc" && "abc" + ['"'] == "abc\"" && [] + "" + ['"'] == "\"";
  }

  lemma AbcRouted()
    ensures Translation(8, 0, QUOTE, "abc", INT_MAX - 2, 2, NoGrow) == (Out("abc", 8, false), 3)
    ensures Translation(5, 0, QUOTE, "abc", INT_MAX - 2, 2, NoGrow) == (Out("", 5, true), 3)
  {
    assert "abc"[1..] == "bc" && "bc"[1..] == "c" && "c"[1..] == "";
    assert Translated(QUOTE, "abc") == "abc";
    RoutedUnlimited(5, 0, QUOTE, "abc", INT_MAX - 2, 2, NoGrow);
    StoppedGetsNothing(5, 0, QUOTE, "abc", 2);
    hide RoutedWithin, Translated;
    StoppedAtOnce(5, 0, QUOTE, "abc", 2);
  }

  lemma StoppedAtOnce(size: nat, base: nat, t: Table, s: string, room: nat)
    requires base + |s| * t.maxExpand + room > size && s != ""
    ensures Routed(size, base, t, s, room, NoGrow) == Out("", size, true)
  {
    StoppedStays(Emit(Out("", size, false), base, Piece(t, s[0]), room, NoGrow), base, t, s[1..], room, NoGrow);
  }

  /** The opening quote, for which the closing one's room must be there as well. */
  method OpenQuote(b: Buffer, g: Grower, nogrow: bool) returns (stopped: bool)
    requires b.Valid() && Honest(g)
    modifies b, b.str
    ensures b.Valid() && (b.str == old(b.str) || fresh(b.str))
    ensures var o := Emit(Out([], old(b.str.Length), nogrow), old(b.offs), ['"'], 1, g);
            b.Text() == old(b.Text()) + o.text && b.str.Length == o.size && stopped == o.stopped
  {
    hide Emit;
    ghost var before := b.Text();
    EmitShift(before, Out([], b.str.Length, nogrow), ['"'], 1, g);
    assert before + [] == before;
    stopped := b.EmitPiece(['"'], 1, g, nogrow);
  }

  /** The closing quote, if the buffer is large enough for it or can be made so. */
  method CloseQuote(b: Buffer, g: Grower) returns (ok: bool)
    requires b.Valid() && Honest(g) && g.Grow?
    modifies b, b.str
    ensures b.Valid()
    ensures var q := Close([], old(b.offs), old(b.str.Length), true, g);
            b.Text() == old(b.Text()) + q.text && b.str.Length == q.size && ok == q.complete
  {
    if b.offs + 2 > b.str.Length {
      var n := g.f(b.str.Length, b.offs + 2);
      if n.None? {
        return false;
      }
      b.Resize(n.value);
    }
    b.Put(['"']);
    ok := true;
  }

  lemma CloseShift(text: string, base: nat, size: nat, whole: bool, g: Grower)
    requires g.Grow?
    ensures var q := Close([], base + |text|, size, true, g);
            Close(text, base, size, whole, g) == QuoteOut(text + q.text, q.size, whole && q.complete, false)
  {
  }

  /** The quoting of one string argument, unless earlier text has overflowed the buffer. */
  method PutQuoted(b: Buffer, s: string, limit: nat, g: Grower, nogrow: bool) returns (complete: bool, failed: bool)
    requires b.Valid() && Honest(g) && g.Grow?
    modifies b, b.str
    ensures b.Valid()
    ensures var q := QuotedInto(old(b.str.Length), old(b.offs), s, limit, g, nogrow);
            b.Text() == old(b.Text()) + q.text && b.str.Length == q.size && complete == q.complete && failed == q.failed
  {
    hide Translated, Honest, Translation, Emit, Close, QuotedInto;
    ghost var before, size, base := b.Text(), b.str.Length, b.offs;
    if limit < 2 {
      QuotedIntoRefuses(size, base, s, limit, g, nogrow);
      assert before + [] == before;
      return false, true;
    }
    HonestNoGrow();
    QuoteSetUp();
    var stopped := OpenQuote(b, g, nogrow);
    ghost var o := Emit(Out([], size, nogrow), base, ['"'], 1, g);
    assert b.offs == base + |o.text|;
    var from := b.offs;
    var n := b.Translate(s, limit - 2, QUOTE, if stopped then NoGrow else g, 2);
    ghost var r := Translation(o.size, base + |o.text|, QUOTE, s, limit - 2, 2, if o.stopped then NoGrow else g);
    assert b.offs == from + |r.0.text|;
    QuotedIntoUnfolds(size, base, s, limit, g, nogrow);
    assert b.Text() == before + (o.text + r.0.text);
    if n < 0 {
      return false, true;
    }
    complete := !stopped && n == b.offs - from;
    CloseShift(o.text + r.0.text, base, r.0.size, complete, g);
    var closed := CloseQuote(b, g);
    complete := complete && closed;
    failed := false;
  }

  lemma HonestNoGrow()
    ensures Honest(NoGrow)
  {
  }

  /** A growth function that is not there has stopped the copying from the start. */
  lemma {:induction false} WithinStart(c: Limited, base: nat, t: Table, s: string, room: nat, g: Grower)
    requires !c.out.stopped
    ensures Tracks(c.(out := c.out.(stopped := g.NoGrow?)), base, HardWithin(c, base, t, s, room, g), t, s, room, g)
    decreases s
  {
    if g.NoGrow? && s != "" {
      var d := EmitWithin(c, base, Piece(t, s[0]), room, g);
      if !d.out.stopped {
        WithinStart(c, base, t, s[1..], room, g);
      }
    }
  }

  /** From here on the same text, size and count come out. */
  predicate Tracks(cur: Limited, base: nat, h: Limited, t: Table, rest: string, room: nat, g: Grower) {
    var k := HardWithin(cur, base, t, rest, room, g);
    k.out.text == h.out.text && k.out.size == h.out.size && k.counted == h.counted
  }

  lemma TrackStep(cur: Limited, base: nat, h: Limited, t: Table, rest: string, room: nat, g: Grower)
    requires rest != "" && Tracks(cur, base, h, t, rest, room, g)
    ensures Tracks(EmitWithin(cur, base, Piece(t, rest[0]), room, g), base, h, t, rest[1..], room, g)
  {
  }

  lemma TrackEnd(cur: Limited, base: nat, h: Limited, t: Table, rest: string, room: nat, g: Grower)
    requires rest == "" && Tracks(cur, base, h, t, rest, room, g)
    ensures cur.out.text == h.out.text && cur.out.size == h.out.size && cur.counted == h.counted
  {
  }

  lemma WithinIs(c: Limited, base: nat, piece: string, room: nat, g: Grower)
    ensures EmitWithin(c, base, piece, room, g) ==
            if c.left < |piece| then c
            else
              var o := Emit(c.out, base, piece, room, g);
              Limited(o, if o.stopped then c.left else c.left - |piece|, c.counted + |piece|)
  {
  }

  lemma PieceIs(t: Table, c: char)
    ensures Piece(t, c) == if c in t.matrix then t.matrix[c] else [c]
  {
  }

  lemma EmitShift(before: string, cur: Out, piece: string, room: nat, g: Grower)
    ensures var e := Emit(cur, |before|, piece, room, g);
            && Emit(Out(before + cur.text, cur.size, cur.stopped), 0, piece, room, g) == Out(before + e.text, e.size, e.stopped)
            && e.text == (if e.stopped then cur.text else cur.text + piece)
  {
    assert before + cur.text + piece == before + (cur.text + piece);
  }

  /** The limit is never the first to run out. */
  lemma Budget(n: nat, i: nat, m: nat)
    requires i < n
    ensures i * m + m <= n * m && (i + 1) * m == i * m + m
  {
    assert n * m == (i + 1) * m + (n - i - 1) * m;
  }

  lemma Stepped(t: Table, s: string, i: nat)
    requires i < |s|
    ensures Translated(t, s[..i + 1]) == Translated(t, s[..i]) + Piece(t, s[i])
  {
    assert s[..i + 1] == s[..i] + [s[i]];
    TranslatedConcat(t, s[..i], [s[i]]);
    assert [s[i]][1..] == "";
  }
}
