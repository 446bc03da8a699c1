/** The event parser: a cursor into the growing tree, moved by the callbacks of the XML library. */
module NeonParser {
  import opened Wrappers
  import opened NeonTree
  import opened NeonSpine
  import opened NeonDocument
  import Text

  datatype Memory = Memory(root: NeonNode, next: Addr)

  /** The storage and the cursor. */
  datatype State = State(mem: Memory, current: Option<Addr>)

  function Erase(n: NeonNode): Tree {
    Tree(n.name, n.value, seq(|n.children|, i requires 0 <= i < |n.children| => Erase(n.children[i])))
  }

  // ---------- one callback; None stands for a null or dangling pointer, or a failed assertion ----------

  /** `owner->children.emplace_back()` and the assignments through the reference it returns. */
  function AddNode(grows: Growth, m: Memory, owner: Option<Addr>, name: string, value: string): Option<(Memory, Addr)> {
    if owner.None? then None
    else match Find(m.root, owner.value)
      case None => None
      case Some(n) =>
        var a := m.next + |n.children|;
        var grown := Write(m.root, owner.value, Append(grows, m.next));
        Some((Memory(Write(grown, a, Fill(name, value, owner)), a + 1), a))
  }

  function AddAttrs(grows: Growth, m: Memory, node: Addr, attrs: seq<string>): Option<Memory>
    decreases |attrs|
  {
    if |attrs| < 2 then Some(m)
    else match AddNode(grows, m, Some(node), "a::" + attrs[0], attrs[1])
      case None => None
      case Some((m', _)) => AddAttrs(grows, m', node, attrs[2..])
  }

  /** The storage after an element was opened. */
  function Opened(grows: Growth, m: Memory, owner: Option<Addr>, name: string, attrs: seq<string>)
    : Option<(Memory, Addr)>
  {
    match AddNode(grows, m, owner, name, "")
    case None => None
    case Some((m', a)) =>
      match AddAttrs(grows, m', a, attrs)
      case None => None
      case Some(m'') => Some((m'', a))
  }

  function Step(grows: Growth, s: State, e: Event): Option<State> {
    match e
    case Start(name, attrs) =>
      (match Opened(grows, s.mem, s.current, name, attrs)
       case None => None
       case Some((m, a)) => Some(State(m, Some(a))))
    case Value(data) =>
      if Text.Trim(data) == "" then Some(s)
      else (match AddNode(grows, s.mem, s.current, "cdata", Text.Trim(data))
            case None => None
            case Some((m, _)) => Some(s.(mem := m)))
    case End(name) =>
      if s.current.None? then None
      else match Find(s.mem.root, s.current.value)
        case None => None
        case Some(n) => if n.name == name then Some(s.(current := n.parent)) else None
  }

  function Run(grows: Growth, s: State, events: seq<Event>): Option<State>
    decreases |events|
  {
    if events == [] then Some(s)
    else match Step(grows, s, events[0])
      case None => None
      case Some(s') => Run(grows, s', events[1..])
  }

  /** The empty root node, and the cursor on it. */
  const FRESH := State(Memory(NeonNode(0, "", "", [], None), 1), Some(0))

  // ---------- the invariant ----------

  /** The storage is in order: no shared addresses, and the parent pointers are as they should be. */
  ghost predicate Sound(grows: Growth, n: NeonNode, next: Addr) {
    && Distinct(n) && Below(n, next) && Exact(n, n, true, grows)
    && n.parent == None && n.name == ""
  }

  ghost predicate MemInv(grows: Growth, m: Memory, k: nat) {
    Spine(m.root, k) && Sound(grows, m.root, m.next)
  }

  /** With k elements open the cursor is on the innermost of them. */
  ghost predicate Inv(grows: Growth, s: State, k: nat) {
    && MemInv(grows, s.mem, k)
    && s.current == Some(Tip(s.mem.root, k).at)
  }

  lemma FreshInv(grows: Growth)
    ensures Inv(grows, FRESH, 0)
  {}

  /** The parent pointer of every open element designates the element it is in. */
  lemma {:induction false} ChainLinked(grows: Growth, root: NeonNode, n: NeonNode, k: nat)
    requires Spine(n, k + 1) && Exact(root, n, true, grows)
    ensures Spine(n, k) && Tip(n, k + 1).parent == Some(Tip(n, k).at)
  {
    if k > 0 {
      assert Unmoved(grows, |n.children| - 1, |n.children|);
      ChainLinked(grows, root, n.children[|n.children| - 1], k - 1);
    }
  }

  lemma {:induction false} EraseAttach(grows: Growth, n: NeonNode, next: Addr, k: nat, name: string, value: string)
    requires Spine(n, k)
    ensures Erase(Attach(grows, n, next, k, name, value)) == Graft(Erase(n), k, [Tree(name, value, [])])
  {
    var n', m := Attach(grows, n, next, k, name, value), |n.children|;
    if k > 0 {
      EraseAttach(grows, n.children[m - 1], next, k - 1, name, value);
      assert Erase(n').children == Erase(n).children[..m - 1] + [Erase(n'.children[m - 1])];
    } else {
      forall i | 0 <= i < m ensures Erase(n'.children[i]) == Erase(n.children[i]) {}
      assert Erase(n'.children[m]).children == [];
      assert Erase(n').children == Erase(n).children + [Tree(name, value, [])];
    }
  }

  /** An append brings no address back to life, and the addresses of moved nodes die. */
  lemma AttachRevivesNone(grows: Growth, n: NeonNode, next: Addr, k: nat, name: string, value: string)
    requires Spine(n, k) && Distinct(n) && Below(n, next)
    ensures var n', t := Attach(grows, n, next, k, name, value), Tip(n, k);
            && NoRevival(n, n', next)
            && (grows(|t.children|) ==> forall a: Addr :: Lives(n', a) ==> !IsChild(t, a))
  {
    var n', t := Attach(grows, n, next, k, name, value), Tip(n, k);
    forall a: Addr | Lives(n', a)
      ensures a < next ==> Lives(n, a)
      ensures grows(|t.children|) ==> !IsChild(t, a)
    {
      if a < next {
        AttachLives(grows, n, next, k, name, value, a);
      } else if IsChild(t, a) {
        ChildOfTip(n, k, a);
        LivesBelow(n, next, a);
      }
    }
  }

  lemma AttachKeepsExact(grows: Growth, n: NeonNode, next: Addr, k: nat, name: string, value: string)
    requires Spine(n, k) && Distinct(n) && Below(n, next) && Exact(n, n, true, grows)
    ensures var n' := Attach(grows, n, next, k, name, value); Exact(n', n', true, grows)
  {
    AttachRevivesNone(grows, n, next, k, name, value);
    AttachExact(n, Attach(grows, n, next, k, name, value), grows, n, next, k, name, value);
  }

  lemma AttachSound(grows: Growth, n: NeonNode, next: Addr, k: nat, name: string, value: string)
    requires Spine(n, k) && Sound(grows, n, next)
    ensures Sound(grows, Attach(grows, n, next, k, name, value), next + |Tip(n, k).children| + 1)
  {
    var n' := Attach(grows, n, next, k, name, value);
    assert n'.parent == None && n'.name == "" by { AttachSpine(grows, n, next, k, name, value); }
    AttachBelow(grows, n, next, k, name, value);
    AttachDistinct(grows, n, next, k, name, value);
    AttachKeepsExact(grows, n, next, k, name, value);
  }

  /** An append below the innermost open element keeps the invariant of the storage. */
  lemma AttachKeeps(grows: Growth, m: Memory, k: nat, name: string, value: string)
    requires MemInv(grows, m, k)
    ensures var n' := Attach(grows, m.root, m.next, k, name, value);
            MemInv(grows, Memory(n', m.next + |Tip(m.root, k).children| + 1), k + 1)
  {
    var n' := Attach(grows, m.root, m.next, k, name, value);
    assert Spine(n', k + 1) by { AttachSpine(grows, m.root, m.next, k, name, value); }
    AttachSound(grows, m.root, m.next, k, name, value);
  }

  lemma AddNodeIsAttach(grows: Growth, m: Memory, k: nat, name: string, value: string)
    requires MemInv(grows, m, k)
    ensures var t, n' := Tip(m.root, k), Attach(grows, m.root, m.next, k, name, value);
            var a := m.next + |t.children|;
            AddNode(grows, m, Some(t.at), name, value) == Some((Memory(n', a + 1), a))
  {
    TipHas(m.root, k);
    FindHas(m.root, Tip(m.root, k));
    AttachIsWrites(grows, m.root, m.next, k, name, value);
  }

  /** What adding a node below the innermost open element of m gave. */
  ghost predicate Added(m: Memory, k: nat, m': Memory, a: Addr, x: Tree) {
    && Spine(m.root, k) && Spine(m'.root, k) && Spine(m'.root, k + 1)
    && Path(m'.root, k) == Path(m.root, k)
    && Path(m'.root, k + 1) == Path(m.root, k) + [(a, x.name)]
    && Tip(m'.root, k + 1).at == a && Tip(m'.root, k).at == Tip(m.root, k).at
    && Erase(m'.root) == Graft(Erase(m.root), k, [x])
  }

  lemma FewerOpen(grows: Growth, m: Memory, k: nat)
    requires MemInv(grows, m, k + 1)
    ensures MemInv(grows, m, k)
  {
    PathTip(m.root, k + 1);
  }

  lemma AttachAdded(grows: Growth, m: Memory, k: nat, name: string, value: string)
    requires Spine(m.root, k)
    ensures var a := m.next + |Tip(m.root, k).children|;
            var n' := Attach(grows, m.root, m.next, k, name, value);
            Added(m, k, Memory(n', a + 1), a, Tree(name, value, []))
  {
    EraseAttach(grows, m.root, m.next, k, name, value);
    AttachPaths(grows, m.root, m.next, k, name, value);
  }

  lemma AttachPaths(grows: Growth, n: NeonNode, next: Addr, k: nat, name: string, value: string)
    requires Spine(n, k)
    ensures var n' := Attach(grows, n, next, k, name, value);
            && Spine(n', k) && Spine(n', k + 1) && Path(n', k) == Path(n, k)
            && Tip(n', k).at == Tip(n, k).at && Tip(n', k + 1).at == next + |Tip(n, k).children|
            && Path(n', k + 1) == Path(n, k) + [(Tip(n', k + 1).at, name)]
  {}

  /** Adding a node through a pointer to the innermost open element. */
  lemma AddNodeAtTip(grows: Growth, m: Memory, k: nat, name: string, value: string)
    requires MemInv(grows, m, k)
    ensures var r := AddNode(grows, m, Some(Tip(m.root, k).at), name, value);
            && r.Some? && MemInv(grows, r.value.0, k + 1)
            && Added(m, k, r.value.0, r.value.1, Tree(name, value, []))
  {
    AddNodeIsAttach(grows, m, k, name, value);
    AttachKeeps(grows, m, k, name, value);
    AttachAdded(grows, m, k, name, value);
  }

  lemma {:induction false} AddAttrsAtTip(grows: Growth, m: Memory, k: nat, attrs: seq<string>)
    requires MemInv(grows, m, k)
    ensures var r := AddAttrs(grows, m, Tip(m.root, k).at, attrs);
            && r.Some? && MemInv(grows, r.value, k)
            && Path(r.value.root, k) == Path(m.root, k)
            && Tip(r.value.root, k).at == Tip(m.root, k).at
            && Erase(r.value.root) == Graft(Erase(m.root), k, AttrTrees(attrs))
    decreases |attrs|
  {
    if |attrs| < 2 {
      GraftNothing(Erase(m.root), k);
    } else {
      AddNodeAtTip(grows, m, k, "a::" + attrs[0], attrs[1]);
      var (m', _) := AddNode(grows, m, Some(Tip(m.root, k).at), "a::" + attrs[0], attrs[1]).value;
      FewerOpen(grows, m', k);
      AddAttrsAtTip(grows, m', k, attrs[2..]);
      GraftTwice(Erase(m.root), k, [Tree("a::" + attrs[0], attrs[1], [])], AttrTrees(attrs[2..]));
    }
  }

  // ---------- what each callback does ----------

  /** From the storage m1 with the bare element to the storage with its attributes. */
  lemma AttrsAdded(grows: Growth, m: Memory, k: nat, m1: Memory, a: Addr, name: string, attrs: seq<string>)
    requires MemInv(grows, m1, k + 1) && Added(m, k, m1, a, Tree(name, "", []))
    ensures var r := AddAttrs(grows, m1, a, attrs);
            && r.Some? && MemInv(grows, r.value, k + 1)
            && Path(r.value.root, k + 1) == Path(m.root, k) + [(a, name)]
            && Tip(r.value.root, k + 1).at == a
            && Erase(r.value.root) == Graft(Erase(m.root), k, [Tree(name, "", AttrTrees(attrs))])
  {
    AddAttrsAtTip(grows, m1, k + 1, attrs);
    GraftInto(Erase(m.root), k, Tree(name, "", []), AttrTrees(attrs));
    assert [] + AttrTrees(attrs) == AttrTrees(attrs);
  }

  /** An opened element is appended with its attributes below the innermost open element and becomes
      the innermost; the open elements stay where they are. */
  lemma StartStep(grows: Growth, s: State, k: nat, name: string, attrs: seq<string>)
    requires Inv(grows, s, k)
    ensures var r := Step(grows, s, Start(name, attrs));
            && r.Some? && Inv(grows, r.value, k + 1)
            && Path(r.value.mem.root, k + 1) == Path(s.mem.root, k) + [(r.value.current.value, name)]
            && Erase(r.value.mem.root) == Graft(Erase(s.mem.root), k, [Tree(name, "", AttrTrees(attrs))])
  {
    AddNodeAtTip(grows, s.mem, k, name, "");
    var (m, a) := AddNode(grows, s.mem, s.current, name, "").value;
    AttrsAdded(grows, s.mem, k, m, a, name, attrs);
  }

  /** Character data is appended below the innermost open element, as a "cdata" node with the text that is
      left without the white space around it; if none is left, nothing is. */
  lemma ValueStep(grows: Growth, s: State, k: nat, data: string)
    requires Inv(grows, s, k)
    ensures forall text :: Text.IsTrimmed(data, text) ==>
              var r := Step(grows, s, Value(data));
              && r.Some?
              && Erase(r.value.mem.root) ==
                   Graft(Erase(s.mem.root), k, if text == "" then [] else [Tree("cdata", text, [])])
    ensures var r := Step(grows, s, Value(data));
            && r.Some? && Inv(grows, r.value, k) && r.value.current == s.current
            && Path(r.value.mem.root, k) == Path(s.mem.root, k)
            && Erase(r.value.mem.root) == Graft(Erase(s.mem.root), k, Image(Chars(data)))
  {
    forall text | Text.IsTrimmed(data, text)
      ensures Image(Chars(data)) == if text == "" then [] else [Tree("cdata", text, [])]
    {
      ImageOfText(data, text);
    }
    if Text.Trim(data) == "" {
      GraftNothing(Erase(s.mem.root), k);
    } else {
      AddNodeAtTip(grows, s.mem, k, "cdata", Text.Trim(data));
      FewerOpen(grows, AddNode(grows, s.mem, s.current, "cdata", Text.Trim(data)).value.0, k);
    }
  }

  /** Closing succeeds exactly on the name of the innermost open element, and the stored parent
      pointer leads back to the element that was innermost before. */
  lemma EndStep(grows: Growth, s: State, k: nat, name: string)
    requires Inv(grows, s, k)
    ensures var r := Step(grows, s, End(name));
            && (r.Some? <==> name == Tip(s.mem.root, k).name)
            && (r.Some? && k > 0 ==>
                  && Inv(grows, r.value, k - 1) && r.value.mem == s.mem
                  && Path(s.mem.root, k) == Path(s.mem.root, k - 1) + [(s.current.value, name)])
  {
    var n := s.mem.root;
    var t := Tip(n, k);
    assert Find(n, t.at) == Some(t) by {
      TipHas(n, k);
      FindHas(n, t);
    }
    if k > 0 {
      assert Spine(n, k - 1) && t.parent == Some(Tip(n, k - 1).at) by { ChainLinked(grows, n, n, k - 1); }
      assert Path(n, k) == Path(n, k - 1) + [(t.at, t.name)] by { PathTip(n, k); }
    }
  }

  // ---------- whole runs ----------

  lemma {:induction false} RunCat(grows: Growth, s: State, a: seq<Event>, b: seq<Event>)
    ensures Run(grows, s, a + b) ==
            match Run(grows, s, a) case None => None case Some(s') => Run(grows, s', b)
    decreases |a|
  {
    if a == [] {
      assert a + b == b;
    } else {
      assert (a + b)[0] == a[0] && (a + b)[1..] == a[1..] + b;
      var r := Step(grows, s, a[0]);
      if r.Some? {
        RunCat(grows, r.value, a[1..], b);
      }
    }
  }

  /** The names of the k open elements of the path. */
  ghost function OpenNames(n: NeonNode, k: nat): seq<string>
    requires Spine(n, k)
  {
    var p := Path(n, k);
    if |p| == 0 then [] else seq(|p| - 1, i requires 0 <= i < |p| - 1 => p[i + 1].1)
  }

  /** The elements called `open` are open, and the cursor is on the last of them. */
  ghost predicate Standing(grows: Growth, s: State, open: seq<string>) {
    Inv(grows, s, |open|) && OpenNames(s.mem.root, |open|) == open
  }

  /** Every run over properly nested events, complete or cut off anywhere, is free of faults: it goes
      through exactly as long as each end event closes the innermost open element.  Then the cursor is
      on the innermost open element and every pointer from there to the root is the right one. */
  lemma {:induction false} NestedRun(grows: Growth, s: State, open: seq<string>, events: seq<Event>)
    requires Standing(grows, s, open)
    requires forall i :: 0 <= i < |events| && events[i].End? ==> events[i].name != ""
    ensures var names, r := Nesting(open, events), Run(grows, s, events);
            && (r.Some? <==> names.Some?)
            && (r.Some? ==> Standing(grows, r.value, names.value))
    decreases |events|
  {
    if events != [] {
      NestedStep(grows, s, open, events[0]);
      var r := Step(grows, s, events[0]);
      if r.Some? {
        NestedRun(grows, r.value, Renested(open, events[0]).value, events[1..]);
      }
    }
  }

  /** The names that are open after one event. */
  ghost function Renested(open: seq<string>, e: Event): Option<seq<string>> {
    match e
    case Start(name, _) => Some(open + [name])
    case Value(_) => Some(open)
    case End(name) => if open != [] && open[|open| - 1] == name then Some(open[..|open| - 1]) else None
  }

  /** The tree is built event by event, as far as the events go. */
  lemma {:induction false} NestedBuilds(grows: Growth, s: State, open: seq<string>, events: seq<Event>)
    requires Standing(grows, s, open)
    requires forall i :: 0 <= i < |events| && events[i].End? ==> events[i].name != ""
    requires Nesting(open, events).Some?
    ensures var r := Run(grows, s, events);
            r.Some? && Erase(r.value.mem.root) == Built(Erase(s.mem.root), |open|, events)
    decreases |events|
  {
    if events != [] {
      NestedStep(grows, s, open, events[0]);
      StepBuilds(grows, s, |open|, events[0]);
      BuiltStep(Erase(s.mem.root), |open|, events);
      var s' := Step(grows, s, events[0]).value;
      NestedBuilds(grows, s', Renested(open, events[0]).value, events[1..]);
    }
  }

  lemma StepBuilds(grows: Growth, s: State, k: nat, e: Event)
    requires Inv(grows, s, k) && Step(grows, s, e).Some? && (e.End? ==> k > 0)
    ensures Erase(Step(grows, s, e).value.mem.root) == Placed(Erase(s.mem.root), k, e)
  {
    match e
    case Start(name, attrs) => StartStep(grows, s, k, name, attrs);
    case Value(data) => ValueStep(grows, s, k, data);
    case End(name) => EndStep(grows, s, k, name);
  }

  lemma NestedStep(grows: Growth, s: State, open: seq<string>, e: Event)
    requires Standing(grows, s, open) && (e.End? ==> e.name != "")
    ensures var names, r := Renested(open, e), Step(grows, s, e);
            (r.Some? <==> names.Some?) && (r.Some? ==> Standing(grows, r.value, names.value))
  {
    match e
    case Start(name, attrs) => NestedStart(grows, s, open, name, attrs);
    case Value(data) => NestedValue(grows, s, open, data);
    case End(name) => NestedEnd(grows, s, open, name);
  }

  lemma NestedStart(grows: Growth, s: State, open: seq<string>, name: string, attrs: seq<string>)
    requires Standing(grows, s, open)
    ensures var r := Step(grows, s, Start(name, attrs)); r.Some? && Standing(grows, r.value, open + [name])
  {
    StartStep(grows, s, |open|, name, attrs);
    var s' := Step(grows, s, Start(name, attrs)).value;
    NamesGrow(s.mem.root, s'.mem.root, |open|, s'.current.value, name);
  }

  lemma NestedValue(grows: Growth, s: State, open: seq<string>, data: string)
    requires Standing(grows, s, open)
    ensures var r := Step(grows, s, Value(data)); r.Some? && Standing(grows, r.value, open)
  {
    ValueStep(grows, s, |open|, data);
    NamesKeep(s.mem.root, Step(grows, s, Value(data)).value.mem.root, |open|);
  }

  lemma NestedEnd(grows: Growth, s: State, open: seq<string>, name: string)
    requires Standing(grows, s, open) && name != ""
    ensures var k, r := |open|, Step(grows, s, End(name));
            && (r.Some? <==> k > 0 && open[k - 1] == name)
            && (r.Some? ==> Standing(grows, r.value, open[..k - 1]))
  {
    var k, n := |open|, s.mem.root;
    EndStep(grows, s, k, name);
    NamesShrink(n, k);
    if k == 0 {
      assert Tip(n, 0).name == "" != name;
    } else {
      assert Tip(n, k).name == open[k - 1];
      assert OpenNames(n, k - 1) == open[..k - 1];
    }
  }

  lemma NamesGrow(n: NeonNode, n': NeonNode, k: nat, a: Addr, name: string)
    requires Spine(n, k) && Spine(n', k + 1) && Path(n', k + 1) == Path(n, k) + [(a, name)]
    ensures |OpenNames(n, k)| == k && OpenNames(n', k + 1) == OpenNames(n, k) + [name]
  {
    PathTip(n, k);
  }

  lemma NamesKeep(n: NeonNode, n': NeonNode, k: nat)
    requires Spine(n, k) && Spine(n', k) && Path(n', k) == Path(n, k)
    ensures |OpenNames(n, k)| == k && OpenNames(n', k) == OpenNames(n, k)
  {}

  lemma NamesShrink(n: NeonNode, k: nat)
    requires Spine(n, k)
    ensures |OpenNames(n, k)| == k
    ensures k == 0 ==> Tip(n, k).name == n.name
    ensures k > 0 ==> Tip(n, k).name == OpenNames(n, k)[k - 1]
    ensures k > 0 ==> Spine(n, k - 1) && OpenNames(n, k - 1) == OpenNames(n, k)[..k - 1]
  {
    PathTip(n, k);
  }

  /** What reading the forest `xs` did: it was appended below the innermost open element; nothing else
      in the tree changed, the open elements did not move, and the cursor is back. */
  ghost predicate Rebuilt(grows: Growth, s: State, k: nat, r: Option<State>, ts: seq<Tree>)
    requires Spine(s.mem.root, k)
  {
    && r.Some? && Inv(grows, r.value, k) && r.value.current == s.current
    && Path(r.value.mem.root, k) == Path(s.mem.root, k)
    && Erase(r.value.mem.root) == Graft(Erase(s.mem.root), k, ts)
  }

  lemma {:induction false} RunElement(grows: Growth, s: State, k: nat, x: Xml)
    requires Inv(grows, s, k)
    ensures Rebuilt(grows, s, k, Run(grows, s, Events(x)), Image(x))
    decreases x, 1
  {
    match x
    case Chars(data) =>
      ValueStep(grows, s, k, data);
      var s' := Step(grows, s, Value(data)).value;
      assert Run(grows, s, Events(x)) == Run(grows, s', []);
    case Element(name, attrs, content) =>
      StartStep(grows, s, k, name, attrs);
      var s1 := Step(grows, s, Start(name, attrs)).value;
      RunForest(grows, s1, k + 1, content);
      ElementClosed(grows, s, k, name, attrs, s1, content);
  }

  lemma CursorOnPath(grows: Growth, s: State, k: nat)
    requires Inv(grows, s, k)
    ensures |Path(s.mem.root, k)| == k + 1 && s.current == Some(Path(s.mem.root, k)[k].0)
  {
    PathTip(s.mem.root, k);
  }

  /** The end event of the innermost of k + 1 elements leads back to the open elements p. */
  lemma Closes(grows: Growth, s: State, k: nat, p: seq<(Addr, string)>, a: Addr, name: string)
    requires Inv(grows, s, k + 1) && Path(s.mem.root, k + 1) == p + [(a, name)]
    ensures var r := Step(grows, s, End(name));
            && r.Some? && Inv(grows, r.value, k) && r.value.mem == s.mem
            && Path(s.mem.root, k) == p
  {
    PathTip(s.mem.root, k + 1);
    var q := Path(s.mem.root, k + 1);
    assert q[..k + 1] == p && q[..k + 1] == Path(s.mem.root, k);
    EndStep(grows, s, k + 1, name);
  }

  /** The end event completes what the start event and the content began. */
  lemma ElementClosed(grows: Growth, s: State, k: nat, name: string, attrs: seq<string>, s1: State, content: seq<Xml>)
    requires Inv(grows, s, k) && Step(grows, s, Start(name, attrs)) == Some(s1)
    requires Spine(s1.mem.root, k + 1) && s1.current.Some?
    requires Path(s1.mem.root, k + 1) == Path(s.mem.root, k) + [(s1.current.value, name)]
    requires Erase(s1.mem.root) == Graft(Erase(s.mem.root), k, [Tree(name, "", AttrTrees(attrs))])
    requires Rebuilt(grows, s1, k + 1, Run(grows, s1, EventsAll(content)), ImageAll(content))
    ensures var x := Element(name, attrs, content);
            Rebuilt(grows, s, k, Run(grows, s, Events(x)), Image(x))
  {
    var s2 := Run(grows, s1, EventsAll(content)).value;
    Closes(grows, s2, k, Path(s.mem.root, k), s1.current.value, name);
    var s3 := Step(grows, s2, End(name)).value;
    CursorOnPath(grows, s3, k);
    CursorOnPath(grows, s, k);
    assert Run(grows, s, Events(Element(name, attrs, content))) == Some(s3) by {
      RunThree(grows, s, name, attrs, EventsAll(content));
    }
    assert Erase(s3.mem.root) == Graft(Erase(s.mem.root), k, Image(Element(name, attrs, content))) by {
      GraftInto(Erase(s.mem.root), k, Tree(name, "", AttrTrees(attrs)), ImageAll(content));
    }
  }

  lemma RunThree(grows: Growth, s: State, name: string, attrs: seq<string>, inner: seq<Event>)
    requires Step(grows, s, Start(name, attrs)).Some?
    requires Run(grows, Step(grows, s, Start(name, attrs)).value, inner).Some?
    ensures Run(grows, s, [Start(name, attrs)] + inner + [End(name)]) ==
            Step(grows, Run(grows, Step(grows, s, Start(name, attrs)).value, inner).value, End(name))
  {
    var s1 := Step(grows, s, Start(name, attrs)).value;
    var s2 := Run(grows, s1, inner).value;
    var all := [Start(name, attrs)] + inner + [End(name)];
    assert all[0] == Start(name, attrs) && all[1..] == inner + [End(name)];
    RunCat(grows, s1, inner, [End(name)]);
    assert [End(name)][1..] == [];
  }

  /** Parsing rebuilds the document: at any cursor position, for every forest. */
  lemma {:induction false} RunForest(grows: Growth, s: State, k: nat, xs: seq<Xml>)
    requires Inv(grows, s, k)
    ensures Rebuilt(grows, s, k, Run(grows, s, EventsAll(xs)), ImageAll(xs))
    decreases xs, 0
  {
    if xs == [] {
      GraftNothing(Erase(s.mem.root), k);
    } else {
      RunElement(grows, s, k, xs[0]);
      var s' := Run(grows, s, Events(xs[0])).value;
      RunForest(grows, s', k, xs[1..]);
      RunCat(grows, s, Events(xs[0]), EventsAll(xs[1..]));
      GraftTwice(Erase(s.mem.root), k, Image(xs[0]), ImageAll(xs[1..]));
    }
  }

  /** A whole document: every growth policy gives the same tree, without a fault, and the cursor ends
      on the root. */
  lemma ParsedDocument(grows: Growth, docs: seq<Xml>)
    ensures var r := Run(grows, FRESH, EventsAll(docs));
            && r.Some? && Inv(grows, r.value, 0)
            && Erase(r.value.mem.root) == Tree("", "", ImageAll(docs))
            && r.value.current == Some(r.value.mem.root.at)
  {
    RunForest(grows, FRESH, 0, docs);
    assert [] + ImageAll(docs) == ImageAll(docs);
  }

  lemma {:induction false} ExactBelow(root: NeonNode, n: NeonNode, firm: bool, grows: Growth, g: NeonNode)
    requires Exact(root, n, firm, grows) && Has(n, g)
    ensures Exact(root, g, true, grows) || Exact(root, g, false, grows)
  {
    if n != g {
      var i :| 0 <= i < |n.children| && Has(n.children[i], g);
      ExactBelow(root, n.children[i], Unmoved(grows, i, |n.children|), grows, g);
    }
  }

  /** Which parent pointers can be followed, exactly: those of the children of g's child i can while
      that child was not moved by an append of a younger sibling; otherwise they lead nowhere. */
  lemma ParentPointers(grows: Growth, s: State, k: nat, g: NeonNode, i: nat, j: nat)
    requires Inv(grows, s, k) && Has(s.mem.root, g)
    requires i < |g.children| && j < |g.children[i].children|
    ensures var p := g.children[i].children[j].parent;
            && p.Some?
            && (Unmoved(grows, i, |g.children|) ==> Find(s.mem.root, p.value) == Some(g.children[i]))
            && (!Unmoved(grows, i, |g.children|) ==> Find(s.mem.root, p.value) == None)
  {
    var root, c := s.mem.root, g.children[i];
    ExactBelow(root, root, true, grows, g);
    assert Exact(root, c, Unmoved(grows, i, |g.children|), grows);
    assert Has(g, c);
    HasTrans(root, g, c);
    FindHas(root, c);
    if !Unmoved(grows, i, |g.children|) {
      FindDead(root, c.children[j].parent.value);
    }
  }

  lemma {:induction false} HasTrans(n: NeonNode, g: NeonNode, c: NeonNode)
    requires Has(n, g) && Has(g, c)
    ensures Has(n, c)
  {
    if n != g {
      var i :| 0 <= i < |n.children| && Has(n.children[i], g);
      HasTrans(n.children[i], g, c);
    }
  }
}
