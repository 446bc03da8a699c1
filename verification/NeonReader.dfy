/** Reading the parsed tree into a structure: a pass over the fields of a schema. */
module NeonReader {
  import opened Wrappers
  import opened NeonTree
  import opened NeonDocument
  import opened NeonParser

  /** The shape of the structure to fill.  `Ignored` are the attribute kinds that are never decoded
      (enumerations, maps, variants, lists of plain values). */
  datatype Schema =
    | Scalar
    | Ignored
    | Object(fields: seq<Field>)
    | ObjectList(item: Schema)
  datatype Field = Field(key: string, schema: Schema)

  /** What a filled structure holds; `Unset` is a field that kept its default. */
  datatype Content =
    | Unset
    | Text(value: string)
    | Fields(values: seq<Content>)
    | Items(items: seq<Content>)

  /** `std::find_if` over the children by name. */
  function FirstNamed(names: seq<string>, key: string): (r: Option<nat>)
    ensures r.Some? ==> r.value < |names| && names[r.value] == key && key !in names[..r.value]
    ensures r.None? ==> key !in names
  {
    if names == [] then None
    else if names[0] == key then Some(0)
    else match FirstNamed(names[1..], key)
      case None => None
      case Some(i) => assert names[..i + 1] == [names[0]] + names[1..][..i]; Some(i + 1)
  }

  function NodeNames(ns: seq<NeonNode>): seq<string> {
    seq(|ns|, i requires 0 <= i < |ns| => ns[i].name)
  }

  function TreeNames(ts: seq<Tree>): seq<string> {
    seq(|ts|, i requires 0 <= i < |ts| => ts[i].name)
  }

  // ---------- the pass over the storage; None stands for a dangling parent pointer ----------

  function Read(root: NeonNode, schema: Schema, node: NeonNode): Option<Content>
    decreases schema, 1, 0
  {
    match schema
    case Scalar => Some(Text(node.value))
    case Ignored => Some(Unset)
    case Object(fields) =>
      (match ReadFields(root, fields, node)
       case None => None
       case Some(values) => Some(Fields(values)))
    case ObjectList(item) =>
      if node.parent.None? then Some(Items([]))
      else match Find(root, node.parent.value)
        case None => None
        case Some(parent) =>
          match ReadItems(root, item, parent.children, node.name)
          case None => None
          case Some(items) => Some(Items(items))
  }

  function ReadFields(root: NeonNode, fields: seq<Field>, node: NeonNode): Option<seq<Content>>
    decreases fields, 0, 0
  {
    if fields == [] then Some([])
    else
      var first := match FirstNamed(NodeNames(node.children), fields[0].key)
        case None => Some(Unset)
        case Some(i) => Read(root, fields[0].schema, node.children[i]);
      if first.None? then None
      else match ReadFields(root, fields[1..], node)
        case None => None
        case Some(rest) => Some([first.value] + rest)
  }

  function ReadItems(root: NeonNode, item: Schema, ns: seq<NeonNode>, name: string): Option<seq<Content>>
    decreases item, 2, |ns|
  {
    if ns == [] then Some([])
    else if ns[0].name != name then ReadItems(root, item, ns[1..], name)
    else match Read(root, item, ns[0])
      case None => None
      case Some(first) =>
        match ReadItems(root, item, ns[1..], name)
        case None => None
        case Some(rest) => Some([first] + rest)
  }

  // ---------- what the structure should hold, from the document alone ----------

  /** The content for the tree at index j among its siblings ts. */
  function Declared(schema: Schema, ts: seq<Tree>, j: nat): Content
    requires j < |ts|
    decreases schema, 1
  {
    match schema
    case Scalar => Text(ts[j].value)
    case Ignored => Unset
    case Object(fields) =>
      Fields(DeclaredFields(fields, ts[j].children))
    case ObjectList(item) =>
      Items(DeclaredItems(item, ts, ts[j].name, |ts|))
  }

  /** One content for each field, in the order of the fields. */
  function DeclaredFields(fields: seq<Field>, kids: seq<Tree>): seq<Content>
    decreases fields, 0
  {
    seq(|fields|, f requires 0 <= f < |fields| => DeclaredField(fields[f], kids))
  }

  /** One item for each of the first m siblings that has the name, in document order. */
  function DeclaredItems(item: Schema, ts: seq<Tree>, name: string, m: nat): seq<Content>
    requires m <= |ts|
    decreases item, 2
  {
    var same := SameNamed(ts[..m], name);
    seq(|same|, r requires 0 <= r < |same| => Declared(item, ts, same[r]))
  }

  function DeclaredField(f: Field, kids: seq<Tree>): Content
    decreases f, 0
  {
    match FirstNamed(TreeNames(kids), f.key)
    case None => Unset
    case Some(i) => Declared(f.schema, kids, i)
  }

  /** The indices of all siblings of that name, in document order. */
  function SameNamed(ts: seq<Tree>, name: string): (r: seq<nat>)
    ensures forall a :: 0 <= a < |r| ==> r[a] < |ts| && ts[r[a]].name == name
    ensures forall a, b :: 0 <= a < b < |r| ==> r[a] < r[b]
    ensures forall i :: 0 <= i < |ts| && ts[i].name == name ==> i in r
  {
    if ts == [] then []
    else
      var l := |ts| - 1;
      var r := SameNamed(ts[..l], name);
      assert forall i :: 0 <= i < l && ts[i].name == name ==> ts[..l][i].name == name;
      if ts[l].name == name then r + [l] else r
  }

  /** Every list read on the way is reached through a parent pointer that still leads somewhere.
      `firm` says so of the pointers to the parent of ts. */
  ghost predicate Safe(schema: Schema, ts: seq<Tree>, j: nat, firm: bool, grows: Growth)
    requires j < |ts|
    decreases schema, 1
  {
    match schema
    case Scalar => true
    case Ignored => true
    case Object(fields) =>
      SafeFields(fields, ts[j].children, Unmoved(grows, j, |ts|), grows)
    case ObjectList(item) =>
      firm && SafeItems(item, ts, ts[j].name, |ts|, grows)
  }

  ghost predicate SafeFields(fields: seq<Field>, kids: seq<Tree>, firm: bool, grows: Growth)
    decreases fields, 0
  {
    forall f :: 0 <= f < |fields| ==> SafeField(fields[f], kids, firm, grows)
  }

  ghost predicate SafeItems(item: Schema, ts: seq<Tree>, name: string, m: nat, grows: Growth)
    requires m <= |ts|
    decreases item, 2
  {
    forall i :: 0 <= i < m && ts[i].name == name ==> Safe(item, ts, i, true, grows)
  }

  ghost predicate SafeField(f: Field, kids: seq<Tree>, firm: bool, grows: Growth)
    decreases f, 0
  {
    match FirstNamed(TreeNames(kids), f.key)
    case None => true
    case Some(i) => Safe(f.schema, kids, i, firm, grows)
  }

  // ---------- the pass computes it ----------

  lemma NamesErased(n: NeonNode)
    ensures NodeNames(n.children) == TreeNames(Erase(n).children)
  {}

  /** What `Read` gives for child j of g, whose own pointers from below are firm or not. */
  ghost predicate ReadsAs(r: Option<Content>, schema: Schema, g: NeonNode, j: nat, firm: bool, grows: Growth)
    requires j < |g.children|
  {
    var ts := Erase(g).children;
    r == if Safe(schema, ts, j, firm, grows) then Some(Declared(schema, ts, j)) else None
  }

  /** The pass over the storage, for every schema: it returns what the document says, or it follows
      a dangling pointer, and the latter exactly when some list is not safe. */
  lemma {:induction false} ReadChild(grows: Growth, root: NeonNode, g: NeonNode, firm: bool, schema: Schema, j: nat)
    requires Distinct(root) && Has(root, g) && Exact(root, g, firm, grows) && j < |g.children|
    ensures ReadsAs(Read(root, schema, g.children[j]), schema, g, j, firm, grows)
    decreases schema, 1, 0
  {
    var node, ts := g.children[j], Erase(g).children;
    match schema
    case Scalar =>
    case Ignored =>
    case Object(fields) =>
      HasChild(root, g, j);
      ReadObject(grows, root, node, Unmoved(grows, j, |g.children|), fields);
    case ObjectList(item) =>
      if firm {
        FindHas(root, g);
        ReadList(grows, root, g, item, node.name, |g.children|);
        assert g.children[..|g.children|] == g.children;
      } else {
        FindDead(root, node.parent.value);
      }
  }

  lemma HasChild(root: NeonNode, g: NeonNode, j: nat)
    requires Has(root, g) && j < |g.children|
    ensures Has(root, g.children[j])
  {}

  lemma {:induction false} ReadObject(grows: Growth, root: NeonNode, node: NeonNode, firm: bool, fields: seq<Field>)
    requires Distinct(root) && Has(root, node) && Exact(root, node, firm, grows)
    ensures var kids := Erase(node).children;
            ReadFields(root, fields, node) ==
            if SafeFields(fields, kids, firm, grows) then Some(DeclaredFields(fields, kids)) else None
    decreases fields, 0, 0
  {
    if fields != [] {
      NamesErased(node);
      var at := FirstNamed(NodeNames(node.children), fields[0].key);
      if at.Some? {
        ReadChild(grows, root, node, firm, fields[0].schema, at.value);
      }
      ReadObject(grows, root, node, firm, fields[1..]);
      FieldsStep(fields, Erase(node).children, firm, grows);
    } else {
      assert SafeFields(fields, Erase(node).children, firm, grows);
      assert DeclaredFields(fields, Erase(node).children) == [];
    }
  }

  lemma FieldsStep(fields: seq<Field>, kids: seq<Tree>, firm: bool, grows: Growth)
    requires fields != []
    ensures DeclaredFields(fields, kids) == [DeclaredField(fields[0], kids)] + DeclaredFields(fields[1..], kids)
    ensures SafeFields(fields, kids, firm, grows) <==>
            SafeField(fields[0], kids, firm, grows) && SafeFields(fields[1..], kids, firm, grows)
  {}

  /** What reading the items among the first m siblings gives. */
  ghost function ItemsResult(item: Schema, ts: seq<Tree>, name: string, m: nat, grows: Growth): Option<seq<Content>>
    requires m <= |ts|
  {
    if SafeItems(item, ts, name, m, grows) then Some(DeclaredItems(item, ts, name, m)) else None
  }

  lemma {:induction false} ReadList(grows: Growth, root: NeonNode, g: NeonNode, item: Schema, name: string, m: nat)
    requires Distinct(root) && Has(root, g) && Exact(root, g, true, grows) && m <= |g.children|
    ensures ReadItems(root, item, g.children[..m], name) == ItemsResult(item, Erase(g).children, name, m, grows)
    decreases item, 2, m
  {
    if m == 0 {
      var ts := Erase(g).children;
      assert ts[..0] == [] && g.children[..0] == [];
      assert SafeItems(item, ts, name, 0, grows) && DeclaredItems(item, ts, name, 0) == [];
    } else {
      ReadList(grows, root, g, item, name, m - 1);
      if g.children[m - 1].name == name {
        ReadChild(grows, root, g, true, item, m - 1);
      }
      ReadListStep(grows, root, g, item, name, m - 1);
    }
  }

  lemma ReadListStep(grows: Growth, root: NeonNode, g: NeonNode, item: Schema, name: string, l: nat)
    requires l < |g.children|
    requires ReadItems(root, item, g.children[..l], name) == ItemsResult(item, Erase(g).children, name, l, grows)
    requires g.children[l].name == name ==> ReadsAs(Read(root, item, g.children[l]), item, g, l, true, grows)
    ensures ReadItems(root, item, g.children[..l + 1], name) == ItemsResult(item, Erase(g).children, name, l + 1, grows)
  {
    var ts := Erase(g).children;
    assert g.children[..l + 1] == g.children[..l] + [g.children[l]];
    ReadItemsSnoc(root, item, g.children[..l], g.children[l], name);
    SafeItemsStep(item, ts, name, l, grows);
    DeclaredItemsStep(item, ts, name, l);
    assert ts[l].name == g.children[l].name;
  }

  lemma SafeItemsStep(item: Schema, ts: seq<Tree>, name: string, l: nat, grows: Growth)
    requires l < |ts|
    ensures SafeItems(item, ts, name, l + 1, grows) <==>
            SafeItems(item, ts, name, l, grows) && (ts[l].name == name ==> Safe(item, ts, l, true, grows))
  {}

  lemma SameNamedStep(ts: seq<Tree>, name: string, l: nat)
    requires l < |ts|
    ensures SameNamed(ts[..l + 1], name) == SameNamed(ts[..l], name) + if ts[l].name == name then [l] else []
  {
    assert ts[..l + 1][..l] == ts[..l];
  }

  lemma DeclaredItemsStep(item: Schema, ts: seq<Tree>, name: string, l: nat)
    requires l < |ts|
    ensures DeclaredItems(item, ts, name, l + 1) ==
            if ts[l].name == name then DeclaredItems(item, ts, name, l) + [Declared(item, ts, l)]
            else DeclaredItems(item, ts, name, l)
  {
    SameNamedStep(ts, name, l);
  }

  lemma {:induction false} ReadItemsSnoc(root: NeonNode, item: Schema, ns: seq<NeonNode>, n: NeonNode, name: string)
    ensures ReadItems(root, item, ns + [n], name) ==
            match ReadItems(root, item, ns, name)
            case None => None
            case Some(items) =>
              if n.name != name then Some(items)
              else match Read(root, item, n) case None => None case Some(c) => Some(items + [c])
    decreases |ns|
  {
    if ns == [] {
      assert ns + [n] == [n] && [n][1..] == [];
      if Read(root, item, n).Some? {
        assert [Read(root, item, n).value] + [] == [] + [Read(root, item, n).value];
      }
    } else {
      assert (ns + [n])[0] == ns[0] && (ns + [n])[1..] == ns[1..] + [n];
      ReadItemsSnoc(root, item, ns[1..], n, name);
      Prepended(Read(root, item, ns[0]), ReadItems(root, item, ns[1..], name), Read(root, item, n));
    }
  }

  lemma Prepended(x: Option<Content>, rest: Option<seq<Content>>, y: Option<Content>)
    ensures x.Some? && rest.Some? && y.Some? ==>
              [x.value] + (rest.value + [y.value]) == [x.value] + rest.value + [y.value]
  {}

  // ---------- reading whole documents ----------

  /** `neon::deserialize`: the document is parsed and its first element is read. */
  function Deserialize(grows: Growth, events: seq<Event>, schema: Schema): Option<Content> {
    match Run(grows, FRESH, events)
    case None => None
    case Some(s) =>
      if s.mem.root.children == [] then Some(Unset) else Read(s.mem.root, schema, s.mem.root.children[0])
  }

  /** The result for every document, schema and growth policy. */
  lemma DeserializeExact(grows: Growth, docs: seq<Xml>, schema: Schema)
    ensures var ts := ImageAll(docs);
            Deserialize(grows, EventsAll(docs), schema) ==
            if ts == [] then Some(Unset)
            else if Safe(schema, ts, 0, true, grows) then Some(Declared(schema, ts, 0))
            else None
  {
    ParsedDocument(grows, docs);
    var s := Run(grows, FRESH, EventsAll(docs)).value;
    assert Erase(s.mem.root).children == ImageAll(docs);
    if ImageAll(docs) != [] {
      ReadChild(grows, s.mem.root, s.mem.root, true, schema, 0);
    }
  }

  /** And for every sequence of callbacks, also one that breaks off: the result of the library's parser
      is not looked at, and what was built is read. */
  lemma DeserializeEvents(grows: Growth, events: seq<Event>, schema: Schema)
    requires forall i :: 0 <= i < |events| && events[i].End? ==> events[i].name != ""
    ensures var ts := Built(Tree("", "", []), 0, events).children;
            Deserialize(grows, events, schema) ==
            if Nesting([], events).None? then None
            else if ts == [] then Some(Unset)
            else if Safe(schema, ts, 0, true, grows) then Some(Declared(schema, ts, 0))
            else None
  {
    FreshInv(grows);
    NestedRun(grows, FRESH, [], events);
    if Nesting([], events).Some? {
      NestedBuilds(grows, FRESH, [], events);
      var root := Run(grows, FRESH, events).value.mem.root;
      assert Erase(FRESH.mem.root) == Tree("", "", []);
      assert |Erase(root).children| == |root.children|;
      if root.children != [] {
        ReadChild(grows, root, root, true, schema, 0);
      }
    }
  }

  /** A page that breaks off is read like the page that is closed where it broke off. */
  lemma CutOff(grows: Growth, events: seq<Event>, open: seq<string>, schema: Schema)
    requires forall i :: 0 <= i < |events| && !events[i].Value? ==> events[i].name != ""
    requires Nesting([], events) == Some(open)
    ensures Nesting([], events + Closers(open)) == Some([])
    ensures Deserialize(grows, events, schema) == Deserialize(grows, events + Closers(open), schema)
  {
    ClosedOff(Tree("", "", []), [], events, open);
    OpenNamed([], events);
    ClosersNamed(open);
    DeserializeEvents(grows, events, schema);
    DeserializeEvents(grows, events + Closers(open), schema);
  }

  lemma {:induction false} OpenNamed(open: seq<string>, events: seq<Event>)
    requires forall i :: 0 <= i < |events| && !events[i].Value? ==> events[i].name != ""
    requires "" !in open && Nesting(open, events).Some?
    ensures "" !in Nesting(open, events).value
    decreases |events|
  {
    if events != [] {
      OpenNamed(Renested(open, events[0]).value, events[1..]);
    }
  }

  lemma {:induction false} ClosersNamed(open: seq<string>)
    requires "" !in open
    ensures forall i :: 0 <= i < |Closers(open)| ==> Closers(open)[i].End? && Closers(open)[i].name != ""
  {
    if open != [] {
      ClosersNamed(open[..|open| - 1]);
    }
  }
}
