/** The parser's node storage: `NeonNode` values held in growable vectors, addressed by raw pointers.

    A node lives *by value* inside its parent's child vector, so the memory is a tree of values in
    which every node carries the address it lives at.  Growing a full vector moves its elements: each
    moved node gets a new address, while the buffers those nodes own, and hence everything below
    them, stay where they are.  Addresses are never handed out twice, so a pointer to a place that was
    moved away designates nothing from then on. */
module NeonTree {
  import opened Wrappers

  type Addr = nat

  datatype NeonNode = NeonNode(
    at: Addr, name: string, value: string, children: seq<NeonNode>, parent: Option<Addr>)

  /** The vector implementation's choice: must a vector of n elements move them to append one more?
      Nothing is assumed about it. */
  type Growth = nat -> bool

  /** What a write through a node reference does to the node. */
  datatype Edit =
    | Append(grows: Growth, base: Addr)
    | Fill(name: string, value: string, parent: Option<Addr>)

  /** The elements of a vector after they were moved to a new buffer at `base`. */
  function Relocated(ns: seq<NeonNode>, base: Addr): seq<NeonNode> {
    seq(|ns|, i requires 0 <= i < |ns| => ns[i].(at := base + i))
  }

  function Grown(grows: Growth, ns: seq<NeonNode>, base: Addr): seq<NeonNode> {
    if grows(|ns|) then Relocated(ns, base) else ns
  }

  function Apply(e: Edit, n: NeonNode): NeonNode {
    match e
    case Append(grows, base) =>
      n.(children := Grown(grows, n.children, base) + [NeonNode(base + |n.children|, "", "", [], None)])
    case Fill(name, value, parent) =>
      n.(name := name, value := value, parent := parent)
  }

  /** Writes through the pointer `a`: the node that lives there is edited, wherever it is. */
  function Write(n: NeonNode, a: Addr, e: Edit): NeonNode {
    if n.at == a then Apply(e, n)
    else n.(children := seq(|n.children|, i requires 0 <= i < |n.children| => Write(n.children[i], a, e)))
  }

  /** Reads through the pointer `a`; `None` when nothing lives there, that is, the pointer dangles. */
  function Find(n: NeonNode, a: Addr): Option<NeonNode>
    decreases n, 1
  {
    if n.at == a then Some(n) else FindIn(n.children, a)
  }

  function FindIn(ns: seq<NeonNode>, a: Addr): Option<NeonNode>
    decreases ns, 0
  {
    if ns == [] then None
    else
      var r := Find(ns[0], a);
      if r.Some? then r else FindIn(ns[1..], a)
  }

  /** Some node of the tree lives at `a`. */
  ghost predicate Lives(n: NeonNode, a: Addr) {
    n.at == a || exists i :: 0 <= i < |n.children| && Lives(n.children[i], a)
  }

  /** `x` is one of the nodes of the tree. */
  ghost predicate Has(n: NeonNode, x: NeonNode) {
    n == x || exists i :: 0 <= i < |n.children| && Has(n.children[i], x)
  }

  /** No two nodes live at the same address. */
  ghost predicate Distinct(n: NeonNode) {
    && (forall i :: 0 <= i < |n.children| ==> !Lives(n.children[i], n.at) && Distinct(n.children[i]))
    && (forall i, j, a :: 0 <= i < j < |n.children| && Lives(n.children[i], a) ==> !Lives(n.children[j], a))
  }

  /** Every address in use, also those only held in pointers, was handed out before `next`. */
  ghost predicate Below(n: NeonNode, next: Addr) {
    && n.at < next
    && (n.parent.Some? ==> n.parent.value < next)
    && forall i :: 0 <= i < |n.children| ==> Below(n.children[i], next)
  }

  /** No append that turned a vector of more than `i` elements into one of `m` moved the elements. */
  ghost predicate Unmoved(grows: Growth, i: nat, m: nat) {
    forall k :: i < k < m ==> !grows(k)
  }

  /** The parent pointers below `n`, exactly.  With `firm` (n was not moved since its children were
      attached) they designate n; without, they dangle.  Child i is firm iff it was not moved since
      its younger siblings came. */
  ghost predicate Exact(root: NeonNode, n: NeonNode, firm: bool, grows: Growth) {
    forall i :: 0 <= i < |n.children| ==>
      && n.children[i].parent.Some?
      && (firm ==> n.children[i].parent.value == n.at)
      && (!firm ==> !Lives(root, n.children[i].parent.value))
      && Exact(root, n.children[i], Unmoved(grows, i, |n.children|), grows)
  }

  // ---------- reading and writing through pointers ----------

  lemma {:induction false} LivesBelow(n: NeonNode, next: Addr, a: Addr)
    requires Below(n, next) && Lives(n, a)
    ensures a < next
  {
    if n.at != a {
      var i :| 0 <= i < |n.children| && Lives(n.children[i], a);
      LivesBelow(n.children[i], next, a);
    }
  }

  lemma {:induction false} BelowMono(n: NeonNode, next: Addr, next': Addr)
    requires Below(n, next) && next <= next'
    ensures Below(n, next')
  {
    forall i | 0 <= i < |n.children| ensures Below(n.children[i], next') {
      BelowMono(n.children[i], next, next');
    }
  }

  lemma {:induction false} HasLives(n: NeonNode, x: NeonNode)
    requires Has(n, x)
    ensures Lives(n, x.at)
  {
    if n != x {
      var i :| 0 <= i < |n.children| && Has(n.children[i], x);
      HasLives(n.children[i], x);
    }
  }

  lemma {:induction false} FindDead(n: NeonNode, a: Addr)
    requires !Lives(n, a)
    ensures Find(n, a) == None
    decreases n, 1
  {
    FindDeadIn(n.children, a);
  }

  lemma {:induction false} FindDeadIn(ns: seq<NeonNode>, a: Addr)
    requires forall i :: 0 <= i < |ns| ==> !Lives(ns[i], a)
    ensures FindIn(ns, a) == None
    decreases ns, 0
  {
    if ns != [] {
      FindDead(ns[0], a);
      FindDeadIn(ns[1..], a);
    }
  }

  /** Reading through the address of a node of a tree without shared addresses gives that node. */
  lemma {:induction false} FindHas(n: NeonNode, x: NeonNode)
    requires Distinct(n) && Has(n, x)
    ensures Find(n, x.at) == Some(x)
    decreases n, 1
  {
    if n != x {
      var i :| 0 <= i < |n.children| && Has(n.children[i], x);
      HasLives(n.children[i], x);
      FindHas(n.children[i], x);
      FindHasIn(n.children, i, x.at);
    }
  }

  lemma {:induction false} FindHasIn(ns: seq<NeonNode>, i: nat, a: Addr)
    requires i < |ns| && Find(ns[i], a).Some?
    requires forall j :: 0 <= j < i ==> !Lives(ns[j], a)
    ensures FindIn(ns, a) == Find(ns[i], a)
  {
    if i > 0 {
      FindDead(ns[0], a);
      FindHasIn(ns[1..], i - 1, a);
    }
  }

  lemma {:induction false} WriteDead(n: NeonNode, a: Addr, e: Edit)
    requires !Lives(n, a)
    ensures Write(n, a, e) == n
  {
    forall i | 0 <= i < |n.children| ensures Write(n.children[i], a, e) == n.children[i] {
      WriteDead(n.children[i], a, e);
    }
  }
}
