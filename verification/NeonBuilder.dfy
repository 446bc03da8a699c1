/** The parser object and its callbacks. */
module NeonBuilder {
  import opened Wrappers
  import opened NeonTree
  import opened NeonDocument
  import opened NeonParser
  import Text

  class Parser {
    const grows: Growth
    var root: NeonNode
    var next: Addr
    var current: Option<Addr>

    /** The storage and the cursor as one value. */
    ghost function View(): State
      reads this
    {
      State(Memory(root, next), current)
    }

    constructor (grows: Growth)
      ensures this.grows == grows && View() == FRESH
    {
      this.grows := grows;
      root, next, current := NeonNode(0, "", "", [], None), 1, Some(0);
    }

    /** `owner->children.emplace_back()` and the assignments through the reference it returns. */
    method AddChild(owner: Option<Addr>, name: string, value: string) returns (a: Addr)
      requires AddNode(grows, View().mem, owner, name, value).Some?
      modifies this`root, this`next
      ensures (View().mem, a) == AddNode(grows, old(View().mem), owner, name, value).value
    {
      a := next + |Find(root, owner.value).value.children|;
      root := Write(root, owner.value, Append(grows, next));
      next := a + 1;
      root := Write(root, a, Fill(name, value, owner));
    }

    /** Opens an element with its attributes and moves the cursor to it. */
    method StartEl(name: string, attrs: seq<string>)
      requires Step(grows, View(), Start(name, attrs)).Some?
      modifies this
      ensures Some(View()) == Step(grows, old(View()), Start(name, attrs))
    {
      var node := AddChild(current, name, "");
      ghost var whole := AddAttrs(grows, View().mem, node, attrs);
      var i := 0;
      while i + 1 < |attrs|
        invariant 0 <= i <= |attrs|
        invariant whole.Some? && whole == AddAttrs(grows, View().mem, node, attrs[i..])
      {
        assert attrs[i..][2..] == attrs[i + 2..];
        var attr := AddChild(Some(node), "a::" + attrs[i], attrs[i + 1]);
        i := i + 2;
      }
      current := Some(node);
    }

    /** Character data becomes a "cdata" child of the innermost open element, unless it is blank. */
    method ValueEl(cdata: string)
      requires Step(grows, View(), Value(cdata)).Some?
      modifies this
      ensures Some(View()) == Step(grows, old(View()), Value(cdata))
      ensures exists text ::
        && Text.IsTrimmed(cdata, text) && current == old(current)
        && if text == "" then View() == old(View())
           else var r := AddNode(grows, old(View().mem), old(current), "cdata", text);
             r.Some? && View().mem == r.value.0
    {
      var data := Text.Trim(cdata);
      Text.TrimTrims(cdata);
      if data == "" {
        return;
      }
      var node := AddChild(current, "cdata", data);
    }

    /** Closes the innermost open element: the cursor follows its parent pointer. */
    method EndEl(name: string)
      requires Step(grows, View(), End(name)).Some?
      modifies this
      ensures Some(View()) == Step(grows, old(View()), End(name))
    {
      var node := Find(root, current.value).value;
      assert node.name == name;
      current := node.parent;
    }

    /** The callbacks of a properly nested stretch of a document, one after the other.  No callback
        meets a bad pointer, and the cursor is on the innermost element that is open at the end. */
    method Parse(events: seq<Event>, ghost open: seq<string>)
      requires Standing(grows, View(), open) && Nesting(open, events).Some?
      requires forall i :: 0 <= i < |events| && events[i].End? ==> events[i].name != ""
      modifies this
      ensures Some(View()) == Run(grows, old(View()), events)
      ensures Standing(grows, View(), Nesting(open, events).value)
    {
      NestedRun(grows, View(), open, events);
      ghost var all := Run(grows, View(), events);
      var i := 0;
      while i < |events|
        invariant 0 <= i <= |events|
        invariant all.Some? && Run(grows, View(), events[i..]) == all
      {
        assert events[i..][0] == events[i] && events[i..][1..] == events[i + 1..];
        match events[i] {
          case Start(name, attrs) => StartEl(name, attrs);
          case Value(data) => ValueEl(data);
          case End(name) => EndEl(name);
        }
        i := i + 1;
      }
    }
  }
}
