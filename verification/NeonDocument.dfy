/** The reference for the parser: documents, the events a document is read as, and the tree that the
    document stands for. */
module NeonDocument {
  import opened Wrappers
  import Text

  /** An element with its attributes (name, value, name, value, ...) and content, or character data. */
  datatype Xml = Element(name: string, attrs: seq<string>, content: seq<Xml>) | Chars(data: string)

  /** The callbacks of the XML library. */
  datatype Event = Start(name: string, attrs: seq<string>) | Value(data: string) | End(name: string)

  /** What a node says, without where it lives. */
  datatype Tree = Tree(name: string, value: string, children: seq<Tree>)

  function Events(x: Xml): seq<Event>
    decreases x, 1
  {
    match x
    case Element(name, attrs, content) => [Start(name, attrs)] + EventsAll(content) + [End(name)]
    case Chars(data) => [Value(data)]
  }

  function EventsAll(xs: seq<Xml>): seq<Event>
    decreases xs, 0
  {
    if xs == [] then [] else Events(xs[0]) + EventsAll(xs[1..])
  }

  /** Attributes are children whose names begin with "a::"; an odd name without value is dropped. */
  function AttrTrees(attrs: seq<string>): seq<Tree> {
    if |attrs| < 2 then [] else [Tree("a::" + attrs[0], attrs[1], [])] + AttrTrees(attrs[2..])
  }

  /** Attributes first, then the content in document order; white space alone is no content. */
  function Image(x: Xml): seq<Tree>
    decreases x, 1
  {
    match x
    case Element(name, attrs, content) => [Tree(name, "", AttrTrees(attrs) + ImageAll(content))]
    case Chars(data) => if Text.Trim(data) == "" then [] else [Tree("cdata", Text.Trim(data), [])]
  }

  function ImageAll(xs: seq<Xml>): seq<Tree>
    decreases xs, 0
  {
    if xs == [] then [] else Image(xs[0]) + ImageAll(xs[1..])
  }

  /** Each attribute is a node without children: its name behind "a::", and its value. */
  lemma {:induction false} AttrTreesMean(attrs: seq<string>)
    ensures |AttrTrees(attrs)| == |attrs| / 2
    ensures forall i :: 0 <= i < |attrs| / 2 ==> AttrTrees(attrs)[i] == Tree("a::" + attrs[2 * i], attrs[2 * i + 1], [])
  {
    if |attrs| >= 2 {
      AttrTreesMean(attrs[2..]);
      assert forall i :: 0 < i < |attrs| / 2 ==> attrs[2..][2 * (i - 1)] == attrs[2 * i];
      assert forall i :: 0 < i < |attrs| / 2 ==> attrs[2..][2 * (i - 1) + 1] == attrs[2 * i + 1];
    }
  }

  /** Character data is its text without the white space around it, in a node of its own, if any is left. */
  lemma ImageOfText(data: string, text: string)
    requires Text.IsTrimmed(data, text)
    ensures Image(Chars(data)) == if text == "" then [] else [Tree("cdata", text, [])]
  {
    Text.TrimTrims(data);
    Text.TrimmedUnique(data, Text.Trim(data), text);
  }

  /** The names of the elements that are open after the events, innermost last; `None` when an end
      event does not close the innermost open element. */
  function Nesting(open: seq<string>, events: seq<Event>): Option<seq<string>>
    decreases |events|
  {
    if events == [] then Some(open)
    else match events[0]
      case Start(name, _) => Nesting(open + [name], events[1..])
      case Value(_) => Nesting(open, events[1..])
      case End(name) =>
        if open != [] && open[|open| - 1] == name then Nesting(open[..|open| - 1], events[1..]) else None
  }

  /** `ts` appended below the node at depth k of the right edge. */
  function Graft(t: Tree, k: nat, ts: seq<Tree>): Tree {
    var m := |t.children|;
    if k == 0 then t.(children := t.children + ts)
    else if m == 0 then t
    else t.(children := t.children[..m - 1] + [Graft(t.children[m - 1], k - 1, ts)])
  }

  lemma {:induction false} GraftNothing(t: Tree, k: nat)
    ensures Graft(t, k, []) == t
  {
    if k > 0 && t.children != [] {
      GraftNothing(t.children[|t.children| - 1], k - 1);
    }
    assert Graft(t, k, []).children == t.children;
  }

  lemma {:induction false} GraftTwice(t: Tree, k: nat, a: seq<Tree>, b: seq<Tree>)
    ensures Graft(Graft(t, k, a), k, b) == Graft(t, k, a + b)
  {
    if k == 0 {
      assert t.children + a + b == t.children + (a + b);
    } else if t.children != [] {
      GraftTwice(t.children[|t.children| - 1], k - 1, a, b);
    }
  }

  /** Grafting below the tree grafted last. */
  lemma {:induction false} GraftInto(t: Tree, k: nat, x: Tree, b: seq<Tree>)
    ensures Graft(Graft(t, k, [x]), k + 1, b) == Graft(t, k, [x.(children := x.children + b)])
  {
    if k == 0 {
      assert (t.children + [x])[..|t.children|] == t.children;
      assert Graft(x, 0, b) == x.(children := x.children + b);
    } else if t.children != [] {
      GraftInto(t.children[|t.children| - 1], k - 1, x, b);
    }
  }

  // ---------- documents that are cut off ----------

  /** What one event adds to the tree when k elements are open. */
  function Placed(t: Tree, k: nat, e: Event): Tree {
    match e
    case Start(name, attrs) => Graft(t, k, [Tree(name, "", AttrTrees(attrs))])
    case Value(data) => Graft(t, k, Image(Chars(data)))
    case End(_) => t
  }

  /** The tree after the events, when k elements are open before them. */
  function Built(t: Tree, k: nat, events: seq<Event>): Tree
    decreases |events|
  {
    if events == [] then t
    else
      var e := events[0];
      if e.End? && k == 0 then t
      else Built(Placed(t, k, e), if e.Start? then k + 1 else if e.End? then k - 1 else k, events[1..])
  }

  lemma BuiltStep(t: Tree, k: nat, events: seq<Event>)
    requires events != [] && (events[0].End? ==> k > 0)
    ensures var e := events[0];
            Built(t, k, events) ==
            Built(Placed(t, k, e), if e.Start? then k + 1 else if e.End? then k - 1 else k, events[1..])
  {}

  /** The events of a whole element build its image. */
  lemma {:induction false} BuiltElement(t: Tree, k: nat, x: Xml, rest: seq<Event>)
    ensures Built(t, k, Events(x) + rest) == Built(Graft(t, k, Image(x)), k, rest)
    decreases x, 1
  {
    var all := Events(x) + rest;
    match x
    case Chars(data) =>
      assert all[0] == Value(data) && all[1..] == rest;
    case Element(name, attrs, content) =>
      var bare, inner := Tree(name, "", AttrTrees(attrs)), [End(name)] + rest;
      assert all[0] == Start(name, attrs) && all[1..] == EventsAll(content) + inner;
      BuiltForest(Graft(t, k, [bare]), k + 1, content, inner);
      GraftInto(t, k, bare, ImageAll(content));
      assert inner[1..] == rest;
  }

  lemma {:induction false} BuiltForest(t: Tree, k: nat, xs: seq<Xml>, rest: seq<Event>)
    ensures Built(t, k, EventsAll(xs) + rest) == Built(Graft(t, k, ImageAll(xs)), k, rest)
    decreases xs, 0
  {
    if xs == [] {
      GraftNothing(t, k);
      assert [] + rest == rest;
    } else {
      assert EventsAll(xs) + rest == Events(xs[0]) + (EventsAll(xs[1..]) + rest);
      BuiltElement(t, k, xs[0], EventsAll(xs[1..]) + rest);
      BuiltForest(Graft(t, k, Image(xs[0])), k, xs[1..], rest);
      GraftTwice(t, k, Image(xs[0]), ImageAll(xs[1..]));
    }
  }

  /** The end events that close the open elements, innermost first. */
  function Closers(open: seq<string>): seq<Event> {
    if open == [] then [] else [End(open[|open| - 1])] + Closers(open[..|open| - 1])
  }

  lemma {:induction false} ClosersBuildNothing(t: Tree, k: nat, open: seq<string>)
    ensures Built(t, k, Closers(open)) == t
    decreases |open|
  {
    if open != [] && k > 0 {
      assert Closers(open)[1..] == Closers(open[..|open| - 1]);
      ClosersBuildNothing(t, k - 1, open[..|open| - 1]);
    }
  }

  /** Closing the elements that are left open completes the nesting and adds nothing to the tree. */
  lemma {:induction false} ClosedOff(t: Tree, open: seq<string>, events: seq<Event>, left: seq<string>)
    requires Nesting(open, events) == Some(left)
    ensures Nesting(open, events + Closers(left)) == Some([])
    ensures Built(t, |open|, events + Closers(left)) == Built(t, |open|, events)
    decreases |events|
  {
    var all := events + Closers(left);
    if events == [] {
      assert all == Closers(left);
      ClosersClose(left);
      ClosersBuildNothing(t, |open|, left);
    } else {
      assert all[0] == events[0] && all[1..] == events[1..] + Closers(left);
      var e := events[0];
      var inside := if e.Start? then open + [e.name] else if e.End? then open[..|open| - 1] else open;
      ClosedOff(Placed(t, |open|, e), inside, events[1..], left);
    }
  }

  lemma {:induction false} ClosersClose(open: seq<string>)
    ensures Nesting(open, Closers(open)) == Some([])
    decreases |open|
  {
    if open != [] {
      assert Closers(open)[1..] == Closers(open[..|open| - 1]);
      ClosersClose(open[..|open| - 1]);
    }
  }
}
