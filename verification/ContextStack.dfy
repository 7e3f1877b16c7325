/**
 * The copy-on-write context stack of a thread. An item with copy count k
 * stands for k + 1 equal frames, and is duplicated, variables included, only
 * when the topmost of them is about to change.
 */
module ContextStack {
  import opened Options
  import opened Contexts

  class Variable {
    const name: string
    var value: Option<string>

    constructor (name: string, value: Option<string>)
      ensures this.name == name && this.value == value
    {
      this.name := name;
      this.value := value;
    }
  }

  class Item {
    var endorsements: seq<Endorsement>
    var variables: seq<Variable>
    var prev: Item?
    var copyCnt: nat

    constructor ()
      ensures endorsements == [] && variables == [] && prev == null && copyCnt == 0
    {
      endorsements := [];
      variables := [];
      prev := null;
      copyCnt := 0;
    }

    ghost function ToFrame(): Frame
      reads this, variables`value
    {
      Frame(endorsements, Bindings(variables))
    }
  }

  ghost function Bindings(vs: seq<Variable>): (bs: seq<Binding>)
    ensures |bs| == |vs|
    ensures forall i :: 0 <= i < |vs| ==> bs[i] == Binding(vs[i].name, vs[i].value)
    reads vs`value
  {
    if vs == [] then [] else [Binding(vs[0].name, vs[0].value)] + Bindings(vs[1..])
  }

  predicate NoTwice(vs: seq<Variable>) {
    forall i, j :: 0 <= i < j < |vs| ==> vs[i] != vs[j]
  }

  ghost function Variables(items: seq<Item>): set<Variable>
    reads items`variables
  {
    if items == [] then {} else (set v | v in items[0].variables) + Variables(items[1..])
  }

  /** The items from the top down, each owning its variables. */
  ghost predicate Chain(items: seq<Item>, top: Item?)
    reads items`prev, items`variables
  {
    if items == [] then top == null
    else
      && top == items[0]
      && items[0] !in items[1..]
      && NoTwice(items[0].variables)
      && (forall v :: v in items[0].variables ==> v !in Variables(items[1..]))
      && Chain(items[1..], items[0].prev)
  }

  function Repeat(f: Frame, n: nat): (s: Stack)
    ensures |s| == n
  {
    if n == 0 then [] else [f] + Repeat(f, n - 1)
  }

  ghost function Frames(items: seq<Item>): Stack
    reads items, Variables(items)`value
  {
    if items == [] then [] else Repeat(items[0].ToFrame(), items[0].copyCnt + 1) + Frames(items[1..])
  }

  /** The stack of a chain, from its top item's frame, its copy count, and the rest. */
  lemma TopFrames(items: seq<Item>, f: Frame, k: nat, rest: Stack)
    requires items != [] && items[0].ToFrame() == f && items[0].copyCnt == k && Frames(items[1..]) == rest
    ensures Frames(items) == [f] + Copies(f, k, rest)
  {
  }

  function Copies(f: Frame, k: nat, rest: Stack): Stack {
    Repeat(f, k) + rest
  }

  lemma MoreCopies(f: Frame, k: nat, rest: Stack)
    ensures Copies(f, k + 1, rest) == [f] + Copies(f, k, rest) && Copies(f, 0, rest) == rest
  {
  }

  class Thread {
    var secParam: Item?
    ghost var items: seq<Item>

    ghost predicate Valid()
      reads this, items
    {
      Chain(items, secParam)
    }

    /** The plain stack this one stands for. */
    ghost function View(): Stack
      reads this, items, Variables(items)`value
    {
      Frames(items)
    }

    constructor ()
      ensures Valid() && View() == [] && secParam == null
    {
      secParam := null;
      items := [];
    }

    /** Starts a context: only the copy count goes up. */
    method PushContext()
      requires Valid()
      modifies this, items`copyCnt
      ensures Valid() && View() == Push(old(View()))
      ensures |View()| == |old(View())| + 1 && View()[1..] == old(View())
      ensures if old(View()) == [] then SaysNothing(View()[0]) else SameSettings(View()[0], old(View()[0]))
    {
      PushDuplicates(View());
      hide SameSettings, SaysNothing;
      if secParam == null {
        secParam := new Item();
        items := [secParam];
        TopFrames(items, Frame([], []), 0, []);
      } else {
        Recount(secParam.copyCnt + 1);
        MoreCopies(old(secParam.ToFrame()), old(secParam.copyCnt), old(Frames(items[1..])));
      }
    }

    /** Changes the top item's copy count. */
    method Recount(k: nat)
      requires Valid() && secParam != null
      modifies secParam`copyCnt
      ensures Valid() && secParam.copyCnt == k
      ensures old(View()) == [old(secParam.ToFrame())] + Copies(old(secParam.ToFrame()), old(secParam.copyCnt), old(Frames(items[1..])))
      ensures View() == [old(secParam.ToFrame())] + Copies(old(secParam.ToFrame()), k, old(Frames(items[1..])))
    {
      hide Copies;
      assert items != [] && items[0] == secParam;
      ghost var f, rest := secParam.ToFrame(), Frames(items[1..]);
      TopFrames(items, f, secParam.copyCnt, rest);
      secParam.copyCnt := k;
      TopFrames(items, f, k, rest);
    }

    /** Leaves a context: the copy count goes down, or the item goes. */
    method PopContext() returns (r: int)
      requires Valid()
      modifies this, items`copyCnt
      ensures Valid()
      ensures r == if Pop(old(View())).None? then -1 else 0
      ensures View() == if r == 0 then Pop(old(View())).value else old(View())
    {
      hide Copies;
      if secParam == null {
        return -1;
      }
      ghost var f, rest := secParam.ToFrame(), Frames(items[1..]);
      if secParam.copyCnt > 0 {
        MoreCopies(f, secParam.copyCnt - 1, rest);
        Recount(secParam.copyCnt - 1);
        return 0;
      }
      MoreCopies(f, 0, rest);
      TopFrames(items, f, 0, rest);
      secParam := secParam.prev;
      items := items[1..];
      r := 0;
    }

    /** The item with the current settings, duplicated first if it stands for more than one frame. */
    method CheckCOW() returns (sptr: Item?)
      requires Valid()
      modifies this, items`copyCnt
      ensures Valid() && View() == old(View())
      ensures sptr == secParam && (sptr == null <==> View() == [])
      ensures sptr != null ==> sptr.copyCnt == 0
      ensures items == old(items) || (items != [] && fresh(items[0]) && items[1..] == old(items))
      ensures forall v :: v in Variables(items) ==> v in old(Variables(items)) || fresh(v)
    {
      if secParam != null && secParam.copyCnt > 0 {
        Duplicate(Variables(items));
      }
      sptr := secParam;
    }

    /** Puts a copy of the top item, for one of its frames, above it. */
    method Duplicate(ghost owned: set<Variable>)
      requires Valid() && items != [] && items[0] == secParam && secParam.copyCnt > 0 && owned == Variables(items)
      modifies this, secParam`copyCnt
      ensures Valid() && View() == old(View())
      ensures items != [] && fresh(items[0]) && items[1..] == old(items) && items[0].copyCnt == 0
      ensures forall v :: v in Variables(items) ==> v in owned || fresh(v)
    {
      hide Copies, Chain, Frames, Variables, Repeat;
      var sptr := secParam;
      var copy := CopyContext(sptr);
      assert View() == old(View());
      MoreCopies(sptr.ToFrame(), sptr.copyCnt - 1, Frames(items[1..]));
      Recount(sptr.copyCnt - 1);
      PutOnTop(copy, owned);
    }

    method PutOnTop(copy: Item, ghost owned: set<Variable>)
      requires Valid() && owned == Variables(items) && copy !in items && copy.copyCnt == 0
      requires NoTwice(copy.variables) && forall v :: v in copy.variables ==> v !in owned
      modifies this, copy`prev
      ensures Valid() && View() == [copy.ToFrame()] + old(View())
      ensures items == [copy] + old(items)
      ensures Variables(items) == (set v | v in copy.variables) + owned
    {
      hide Copies, Chain, Frames, Variables, Repeat;
      ghost var below, v := items, View();
      copy.prev := secParam;
      secParam := copy;
      items := [copy] + items;
      assert items[1..] == below;
      ChainOn(items, copy);
      MoreCopies(copy.ToFrame(), 0, v);
      TopFrames(items, copy.ToFrame(), 0, v);
    }

    lemma ChainOn(all: seq<Item>, copy: Item)
      requires all != [] && all[0] == copy && copy !in all[1..] && Chain(all[1..], copy.prev)
      requires NoTwice(copy.variables) && forall v :: v in copy.variables ==> v !in Variables(all[1..])
      ensures Chain(all, copy)
      ensures Variables(all) == (set v | v in copy.variables) + Variables(all[1..])
    {
    }

    /** Sets a variable in the current frame alone. */
    method SetVariable(name: string, value: Option<string>) returns (r: int)
      requires Valid()
      modifies this, items, Variables(items)`value
      ensures Valid()
      ensures r == if old(View()) == [] then -1 else 0
      ensures View() == if r == 0 then Contexts.SetVariable(old(View()), name, value).value else old(View())
    {
      hide Copies, Chain, Frames, Variables;
      var sptr := CheckCOW();
      if sptr == null {
        return -1;
      }
      OnlyFrame();
      ghost var rest := Frames(items[1..]);
      assert View()[1..] == rest;
      assert allocated(Variables(items[1..]));
      var i := FindVariable(sptr.variables, name);
      assert Frames(items[1..]) == rest;
      if i < |sptr.variables| {
        Update(i, value);
      } else {
        Append(name, value);
      }
      r := 0;
    }

    /** The top item, when it stands for one frame. */
    lemma OnlyFrame()
      requires Valid() && secParam != null && secParam.copyCnt == 0
      ensures items != [] && items[0] == secParam
      ensures View() == [secParam.ToFrame()] + Frames(items[1..])
      ensures forall v :: v in secParam.variables ==> v in Variables(items)
    {
      TopFrames(items, secParam.ToFrame(), 0, Frames(items[1..]));
      MoreCopies(secParam.ToFrame(), 0, Frames(items[1..]));
    }

    /** Gives the top item's i-th variable a new value. */
    method Update(i: nat, value: Option<string>)
      requires Valid() && secParam != null && secParam.copyCnt == 0 && i < |secParam.variables|
      modifies {secParam.variables[i]}`value
      ensures Valid()
      ensures secParam.ToFrame() == old(var f := secParam.ToFrame();
                                        f.(variables := f.variables[i := Binding(f.variables[i].name, value)]))
      ensures View() == [secParam.ToFrame()] + old(Frames(items[1..]))
    {
      hide Copies;
      var vs := secParam.variables;
      ghost var rest := Frames(items[1..]);
      vs[i].value := value;
      assert vs[i] in vs;
      assert Frames(items[1..]) == rest;
      assert Bindings(vs) == old(Bindings(vs))[i := Binding(vs[i].name, value)];
      OnlyFrame();
    }

    /** Gives the top item one more variable. */
    method Append(name: string, value: Option<string>)
      requires Valid() && secParam != null && secParam.copyCnt == 0
      modifies secParam`variables
      ensures Valid()
      ensures secParam.ToFrame() == old(var f := secParam.ToFrame();
                                        f.(variables := f.variables + [Binding(Cut(name), value)]))
      ensures View() == [secParam.ToFrame()] + old(Frames(items[1..]))
    {
      hide Copies, Cut, Chain, Frames, Variables;
      AppendNew(Cut(name), value, Variables(items));
    }

    method AppendNew(name: string, value: Option<string>, ghost owned: set<Variable>)
      requires Valid() && secParam != null && secParam.copyCnt == 0 && owned == Variables(items)
      modifies secParam`variables
      ensures Valid()
      ensures secParam.ToFrame() == old(var f := secParam.ToFrame(); f.(variables := f.variables + [Binding(name, value)]))
      ensures View() == [secParam.ToFrame()] + old(Frames(items[1..]))
    {
      hide Copies, Chain, Frames, Variables;
      OnlyFrame();
      ghost var rest := Frames(items[1..]);
      var v := new Variable(name, value);
      assert Variables(items) == owned;
      RestKept(owned);
      AppendVariable(v);
    }

    /** Nothing below the top item depends on objects it does not own. */
    twostate lemma RestKept(owned: set<Variable>)
      requires old(Valid()) && Valid() && unchanged(this) && unchanged(items) && items != []
      requires owned == old(Variables(items)) && unchanged(owned)
      ensures Frames(items[1..]) == old(Frames(items[1..]))
    {
    }

    method AppendVariable(v: Variable)
      requires Valid() && secParam != null && secParam.copyCnt == 0 && v !in Variables(items)
      modifies secParam`variables
      ensures Valid()
      ensures secParam.ToFrame() == old(var f := secParam.ToFrame(); f.(variables := f.variables + [Binding(v.name, v.value)]))
      ensures View() == [secParam.ToFrame()] + old(Frames(items[1..]))
    {
      hide Copies, Repeat, Cut;
      ghost var rest, vs := Frames(items[1..]), secParam.variables;
      secParam.variables := secParam.variables + [v];
      assert Frames(items[1..]) == rest;
      assert Bindings(vs + [v]) == Bindings(vs) + [Binding(v.name, v.value)];
      OnlyFrame();
    }

    /** Reads a variable of the current frame. */
    method GetVariable(name: string, dflt: Option<string>) returns (r: int, value: Option<string>)
      requires Valid()
      ensures r == if View() == [] then -1 else 0
      ensures value == if r == 0 then Get(View()[0], name, dflt) else dflt
    {
      if secParam == null {
        return -1, dflt;
      }
      TopIs();
      var i := FindVariable(secParam.variables, name);
      if i < |secParam.variables| && secParam.variables[i].value.Some? {
        return 0, secParam.variables[i].value;
      }
      return 0, dflt;
    }

    lemma TopIs()
      requires Valid() && secParam != null
      ensures View() != [] && View()[0] == secParam.ToFrame()
    {
      TopFrames(items, secParam.ToFrame(), secParam.copyCnt, Frames(items[1..]));
    }

    /** Whether an endorsement applies: 1 or 0, or -1 outside any context. */
    method HasEndorsement(endorsement: string, context: string) returns (r: int)
      requires Valid()
      ensures View() == old(View())
      ensures r == if View() == [] then -1 else if Endorsed(View()[0].endorsements, endorsement, context) then 1 else 0
    {
      hide Below;
      if secParam == null {
        return -1;
      }
      TopIs();
      assert allocated(Variables(items));
      var es := secParam.endorsements;
      var i := 0;
      while i < |es|
        invariant 0 <= i <= |es|
        invariant forall j :: 0 <= j < i ==> !(es[j].name == endorsement && Below(context, es[j].context))
      {
        if endorsement == es[i].name {
          var c := CompareContexts(context, es[i].context);
          if c == 0 {
            return 1;
          }
        }
        i := i + 1;
      }
      r := 0;
    }

    /** Adds an endorsement to the current frame, unless one that covers it is there. */
    method AddEndorsement(endorsement: string, context: string) returns (r: int)
      requires Valid()
      modifies this, items
      ensures Valid()
      ensures r == if old(View()) == [] then -1 else 0
      ensures View() == if r == 0 then Contexts.AddEndorsement(old(View()), endorsement, context).value else old(View())
    {
      hide Copies, Chain, Frames, Variables, Cut, Endorsed;
      var has := HasEndorsement(endorsement, context);
      if has == 1 {
        RedundantAdd(View(), endorsement, context);
        return 0;
      }
      var sptr := CheckCOW();
      if sptr == null {
        return -1;
      }
      OnlyFrame();
      assert View()[1..] == Frames(items[1..]);
      AppendEndorsement(Endorsement(Cut(endorsement), Cut(context)));
      r := 0;
    }

    method AppendEndorsement(e: Endorsement)
      requires Valid() && secParam != null && secParam.copyCnt == 0
      modifies secParam`endorsements
      ensures Valid()
      ensures secParam.ToFrame() == old(var f := secParam.ToFrame(); f.(endorsements := f.endorsements + [e]))
      ensures View() == [secParam.ToFrame()] + old(Frames(items[1..]))
    {
      hide Copies;
      ghost var rest := Frames(items[1..]);
      secParam.endorsements := secParam.endorsements + [e];
      assert Frames(items[1..]) == rest;
      OnlyFrame();
    }

    /** The context of a new thread: the current frame alone, shared with nothing. */
    method NewThread() returns (t: Thread)
      requires Valid()
      ensures fresh(t) && t.Valid() && t.View() == ThreadCopy(View())
      ensures |t.View()| == 1
      ensures if View() == [] then SaysNothing(t.View()[0]) else SameSettings(t.View()[0], View()[0])
      ensures fresh(t.items) && fresh(Variables(t.items))
    {
      PushDuplicates(View());
      hide SameSettings, SaysNothing;
      hide Copies, Chain, Frames, Variables;
      ghost var f := if secParam == null then Frame([], []) else secParam.ToFrame();
      CopyFacts();
      assert allocated(Variables(items));
      var copy := CopyContext(secParam);
      assert View() == old(View());
      t := new Thread();
      t.secParam := copy;
      t.items := [copy];
      SingleItem(t.items, copy);
      assert t.View() == [f];
    }

    lemma CopyFacts()
      requires Valid()
      ensures ThreadCopy(View()) == [if secParam == null then Frame([], []) else secParam.ToFrame()]
    {
      if secParam != null {
        TopIs();
      }
    }
  }

  lemma SingleItem(items: seq<Item>, copy: Item)
    requires items == [copy] && copy.prev == null && copy.copyCnt == 0 && NoTwice(copy.variables)
    ensures Chain(items, copy) && Frames(items) == [copy.ToFrame()] && Variables(items) == set v | v in copy.variables
  {
    assert items[1..] == [];
    TopFrames(items, copy.ToFrame(), 0, []);
  }

  /** The position of a name among an item's variables, or their number. */
  method FindVariable(vs: seq<Variable>, name: string) returns (i: nat)
    ensures i == IndexOf(Bindings(vs), name)
  {
    i := 0;
    while i < |vs| && vs[i].name != name
      invariant 0 <= i <= |vs|
      invariant forall j :: 0 <= j < i ==> vs[j].name != name
    {
      i := i + 1;
    }
    IndexIs(Bindings(vs), name, i);
  }

  /** A copy of an item's settings alone, with variables of its own; with no item, an empty one. */
  method CopyContext(src: Item?) returns (dst: Item)
    ensures fresh(dst) && dst.prev == null && dst.copyCnt == 0
    ensures dst.ToFrame() == if src == null then Frame([], []) else src.ToFrame()
    ensures NoTwice(dst.variables) && forall v :: v in dst.variables ==> fresh(v)
  {
    dst := new Item();
    if src != null {
      dst.endorsements := src.endorsements;
      var vs: seq<Variable> := [];
      var i := 0;
      while i < |src.variables|
        invariant 0 <= i <= |src.variables| && |vs| == i
        invariant fresh(dst) && dst.prev == null && dst.copyCnt == 0 && dst.endorsements == src.endorsements
        invariant forall j :: 0 <= j < i ==> vs[j].name == src.variables[j].name && vs[j].value == src.variables[j].value
        invariant NoTwice(vs) && forall v :: v in vs ==> fresh(v)
      {
        var v := new Variable(src.variables[i].name, src.variables[i].value);
        vs := vs + [v];
        i := i + 1;
      }
      dst.variables := vs;
    }
  }
}
