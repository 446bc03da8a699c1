/** Which structures every document is read into as it declares. */
module NeonSchemas {
  import opened Wrappers
  import opened NeonTree
  import opened NeonDocument
  import opened NeonParser
  import opened NeonReader
  import Text

  lemma ImageOne(x: Xml)
    ensures ImageAll([x]) == Image(x)
    ensures x.Element? && x.attrs == [] ==> Image(x) == [Tree(x.name, "", ImageAll(x.content))]
  {
    assert [x][1..] == [] && Image(x) + [] == Image(x);
    if x.Element? {
      assert [] + ImageAll(x.content) == ImageAll(x.content);
    }
  }

  // ---------- names that occur ----------

  /** What elements and attributes may be called.  For the XML library both are names of XML, and no
      element is called "a::...". */
  datatype Naming = Naming(element: string -> bool, attribute: string -> bool)

  /** No restriction. */
  const ANY := Naming(name => true, name => true)

  ghost predicate Named(n: Naming, x: Xml)
    decreases x, 1
  {
    x.Element? ==> n.element(x.name) && AttrsNamed(n, x.attrs) && AllNamed(n, x.content)
  }

  ghost predicate AllNamed(n: Naming, xs: seq<Xml>)
    decreases xs, 0
  {
    xs == [] || (Named(n, xs[0]) && AllNamed(n, xs[1..]))
  }

  ghost predicate AttrsNamed(n: Naming, attrs: seq<string>) {
    |attrs| < 2 || (n.attribute(attrs[0]) && AttrsNamed(n, attrs[2..]))
  }

  /** The name of a node without children: of an attribute, or of text. */
  predicate LeafName(n: Naming, name: string) {
    name == "cdata" || ("a::" <= name && n.attribute(name[3..]))
  }

  /** A tree as documents with such names give it: only elements have children. */
  ghost predicate Formed(n: Naming, t: Tree) {
    && (n.element(t.name) || (LeafName(n, t.name) && t.children == []))
    && forall i :: 0 <= i < |t.children| ==> Formed(n, t.children[i])
  }

  lemma {:induction false} AttrsFormed(n: Naming, attrs: seq<string>)
    requires AttrsNamed(n, attrs)
    ensures forall i :: 0 <= i < |AttrTrees(attrs)| ==> Formed(n, AttrTrees(attrs)[i])
  {
    if |attrs| >= 2 {
      AttrsFormed(n, attrs[2..]);
      assert ("a::" + attrs[0])[3..] == attrs[0];
      assert Formed(n, Tree("a::" + attrs[0], attrs[1], []));
    }
  }

  lemma {:induction false} ImageFormed(n: Naming, x: Xml)
    requires Named(n, x)
    ensures forall i :: 0 <= i < |Image(x)| ==> Formed(n, Image(x)[i])
    decreases x, 1
  {
    if x.Element? {
      AttrsFormed(n, x.attrs);
      ImagesFormed(n, x.content);
    }
  }

  lemma {:induction false} ImagesFormed(n: Naming, xs: seq<Xml>)
    requires AllNamed(n, xs)
    ensures forall i :: 0 <= i < |ImageAll(xs)| ==> Formed(n, ImageAll(xs)[i])
    decreases xs, 0
  {
    if xs != [] {
      ImageFormed(n, xs[0]);
      ImagesFormed(n, xs[1..]);
    }
  }

  lemma {:induction false} AnyNamed(x: Xml)
    ensures Named(ANY, x)
    decreases x, 1
  {
    if x.Element? {
      AnyAttrs(x.attrs);
      AnyAllNamed(x.content);
    }
  }

  lemma {:induction false} AnyAllNamed(xs: seq<Xml>)
    ensures AllNamed(ANY, xs)
    decreases xs, 0
  {
    if xs != [] {
      AnyNamed(xs[0]);
      AnyAllNamed(xs[1..]);
    }
  }

  lemma {:induction false} AnyAttrs(attrs: seq<string>)
    ensures AttrsNamed(ANY, attrs)
  {
    if |attrs| >= 2 {
      AnyAttrs(attrs[2..]);
    }
  }

  // ---------- the condition ----------

  /** A node of that name can be read by the schema although pointers to its parent, and to itself, may
      dangle: no list is read.  A node without children has no fields to read, and a name that does not
      occur is never met. */
  ghost predicate Loose(n: Naming, name: string, schema: Schema)
    decreases schema, 1
  {
    if n.element(name) then LooseElement(n, schema) else LeafName(n, name) ==> !schema.ObjectList?
  }

  ghost predicate LooseElement(n: Naming, schema: Schema)
    decreases schema, 0
  {
    match schema
    case Scalar => true
    case Ignored => true
    case Object(fields) => forall f :: 0 <= f < |fields| ==> LooseField(n, fields[f])
    case ObjectList(_) => false
  }

  ghost predicate LooseField(n: Naming, f: Field)
    decreases f, 0
  {
    Loose(n, f.key, f.schema)
  }

  /** An element below the root element can: pointers to its parent hold. */
  ghost predicate SafeBelow(n: Naming, schema: Schema)
    decreases schema
  {
    match schema
    case Scalar => true
    case Ignored => true
    case Object(fields) => forall f :: 0 <= f < |fields| ==> LooseField(n, fields[f])
    case ObjectList(item) => SafeBelow(n, item)
  }

  /** The root element can: lists of elements are read for the root element or for its children only. */
  ghost predicate SafeOnTop(n: Naming, schema: Schema)
    decreases schema
  {
    match schema
    case Scalar => true
    case Ignored => true
    case Object(fields) =>
      forall f :: 0 <= f < |fields| ==> n.element(fields[f].key) ==> SafeBelow(n, fields[f].schema)
    case ObjectList(item) => SafeOnTop(n, item)
  }

  // ---------- it is sufficient ----------

  lemma {:induction false} LooseSafe(n: Naming, schema: Schema, ts: seq<Tree>, j: nat, firm: bool, grows: Growth)
    requires j < |ts| && Formed(n, ts[j]) && Loose(n, ts[j].name, schema)
    ensures Safe(schema, ts, j, firm, grows)
    decreases schema
  {
    match schema
    case Scalar =>
    case Ignored =>
    case ObjectList(_) =>
    case Object(fields) => LooseFieldsSafe(n, fields, ts[j], Unmoved(grows, j, |ts|), grows);
  }

  lemma {:induction false} LooseFieldsSafe(n: Naming, fields: seq<Field>, t: Tree, firm: bool, grows: Growth)
    requires Formed(n, t)
    requires n.element(t.name) ==> forall f :: 0 <= f < |fields| ==> LooseField(n, fields[f])
    ensures SafeFields(fields, t.children, firm, grows)
    decreases fields
  {
    forall f | 0 <= f < |fields| ensures SafeField(fields[f], t.children, firm, grows) {
      var at := FirstNamed(TreeNames(t.children), fields[f].key);
      if at.Some? {
        assert LooseField(n, fields[f]) && t.children[at.value].name == fields[f].key;
        LooseSafe(n, fields[f].schema, t.children, at.value, firm, grows);
      }
    }
  }

  lemma {:induction false} BelowSafe(n: Naming, schema: Schema, ts: seq<Tree>, j: nat, grows: Growth)
    requires j < |ts| && forall i :: 0 <= i < |ts| ==> Formed(n, ts[i])
    requires n.element(ts[j].name) ==> SafeBelow(n, schema)
    ensures Safe(schema, ts, j, true, grows)
    decreases schema
  {
    match schema
    case Scalar =>
    case Ignored =>
    case Object(fields) => LooseFieldsSafe(n, fields, ts[j], Unmoved(grows, j, |ts|), grows);
    case ObjectList(item) =>
      forall i | 0 <= i < |ts| && ts[i].name == ts[j].name ensures Safe(item, ts, i, true, grows) {
        BelowSafe(n, item, ts, i, grows);
      }
      assert SafeItems(item, ts, ts[j].name, |ts|, grows);
  }

  lemma {:induction false} TopSafe(n: Naming, schema: Schema, ts: seq<Tree>, grows: Growth)
    requires |ts| == 1 && Formed(n, ts[0]) && SafeOnTop(n, schema)
    ensures Safe(schema, ts, 0, true, grows)
    decreases schema
  {
    match schema
    case Scalar =>
    case Ignored =>
    case Object(fields) =>
      var kids := ts[0].children;
      assert Unmoved(grows, 0, 1);
      forall f | 0 <= f < |fields| ensures SafeField(fields[f], kids, true, grows) {
        var at := FirstNamed(TreeNames(kids), fields[f].key);
        if at.Some? {
          assert kids[at.value].name == fields[f].key;
          BelowSafe(n, fields[f].schema, kids, at.value, grows);
        }
      }
    case ObjectList(item) => TopSafe(n, item, ts, grows);
  }

  /** The document is read as it declares. */
  ghost predicate ReadAsDeclared(grows: Growth, root: Xml, schema: Schema)
    requires root.Element?
  {
    Deserialize(grows, EventsAll([root]), schema) == Some(Declared(schema, Image(root), 0))
  }

  /** A document with one root element is read as declared into every structure that reads lists for the
      root element and its children only, whatever the vectors do when they grow. */
  lemma DeserializeDocument(n: Naming, grows: Growth, root: Xml, schema: Schema)
    requires root.Element? && Named(n, root) && SafeOnTop(n, schema)
    ensures ReadAsDeclared(grows, root, schema)
  {
    ImageOne(root);
    ImageFormed(n, root);
    DeserializeExact(grows, [root], schema);
    TopSafe(n, schema, ImageAll([root]), grows);
  }

  // ---------- it is necessary ----------

  /** Vectors that move their elements each time they grow. */
  const ALWAYS: Growth := n => true

  /** Attributes and content of an element. */
  datatype Body = Body(attrs: seq<string>, content: seq<Xml>)

  const EMPTY := Body([], [])

  function Kids(b: Body): seq<Tree> {
    AttrTrees(b.attrs) + ImageAll(b.content)
  }

  /** An element called `key` with that body, and another one behind it. */
  function Padded(key: string, b: Body, pad: string): Body {
    Body([], [Element(key, b.attrs, b.content), Element(pad, [], [])])
  }

  /** A node without children that is called `key`. */
  function Leaf(n: Naming, key: string): Body {
    if "a::" <= key && n.attribute(key[3..]) then Body([key[3..], ""], []) else Body([], [Chars("x")])
  }

  /** A body that spoils the reading of a list below an object: every element on the way to the list is
      moved when the next one is appended. */
  ghost function Spoil(n: Naming, pad: string, schema: Schema): Body
    decreases schema
  {
    match schema
    case Scalar => EMPTY
    case Ignored => EMPTY
    case ObjectList(item) => Spoil(n, pad, item)
    case Object(fields) =>
      if f :| 0 <= f < |fields| && !LooseField(n, fields[f]) then
        if n.element(fields[f].key) then Padded(fields[f].key, Spoil(n, pad, fields[f].schema), pad)
        else Leaf(n, fields[f].key)
      else EMPTY
  }

  ghost function SpoilTop(n: Naming, pad: string, schema: Schema): Body
    decreases schema
  {
    match schema
    case Scalar => EMPTY
    case Ignored => EMPTY
    case ObjectList(item) => SpoilTop(n, pad, item)
    case Object(fields) =>
      if f :| 0 <= f < |fields| && n.element(fields[f].key) && !SafeBelow(n, fields[f].schema)
      then Padded(fields[f].key, Spoil(n, pad, fields[f].schema), pad) else EMPTY
  }

  ghost predicate BodyNamed(n: Naming, b: Body) {
    AttrsNamed(n, b.attrs) && AllNamed(n, b.content)
  }

  lemma PaddedNamed(n: Naming, key: string, b: Body, pad: string)
    requires n.element(key) && n.element(pad) && BodyNamed(n, b)
    ensures BodyNamed(n, Padded(key, b, pad))
  {
    var content := Padded(key, b, pad).content;
    assert content[1..] == [Element(pad, [], [])] && content[1..][1..] == [];
    assert Named(n, content[0]) && Named(n, content[1]);
    assert AllNamed(n, content[1..]);
  }

  lemma LeafNamed(n: Naming, key: string)
    ensures BodyNamed(n, Leaf(n, key))
  {
    assert [Chars("x")][1..] == [] && [key, ""][2..] == [];
  }

  lemma {:induction false} SpoilNamed(n: Naming, pad: string, schema: Schema)
    requires n.element(pad)
    ensures BodyNamed(n, Spoil(n, pad, schema))
    decreases schema
  {
    match schema
    case Scalar =>
    case Ignored =>
    case ObjectList(item) => SpoilNamed(n, pad, item);
    case Object(fields) =>
      forall f | 0 <= f < |fields| && !LooseField(n, fields[f])
        ensures n.element(fields[f].key) ==> BodyNamed(n, Padded(fields[f].key, Spoil(n, pad, fields[f].schema), pad))
        ensures BodyNamed(n, Leaf(n, fields[f].key))
      {
        SpoilNamed(n, pad, fields[f].schema);
        LeafNamed(n, fields[f].key);
        if n.element(fields[f].key) {
          PaddedNamed(n, fields[f].key, Spoil(n, pad, fields[f].schema), pad);
        }
      }
  }

  lemma {:induction false} SpoilTopNamed(n: Naming, pad: string, schema: Schema)
    requires n.element(pad)
    ensures BodyNamed(n, SpoilTop(n, pad, schema))
    decreases schema
  {
    match schema
    case Scalar =>
    case Ignored =>
    case ObjectList(item) => SpoilTopNamed(n, pad, item);
    case Object(fields) =>
      forall f | 0 <= f < |fields| && n.element(fields[f].key)
        ensures BodyNamed(n, Padded(fields[f].key, Spoil(n, pad, fields[f].schema), pad))
      {
        SpoilNamed(n, pad, fields[f].schema);
        PaddedNamed(n, fields[f].key, Spoil(n, pad, fields[f].schema), pad);
      }
  }

  lemma PaddedKids(key: string, b: Body, pad: string)
    ensures var kids := Kids(Padded(key, b, pad));
            && |kids| == 2 && kids[0].children == Kids(b) && FirstNamed(TreeNames(kids), key) == Some(0)
  {
    var x, p := Element(key, b.attrs, b.content), Element(pad, [], []);
    assert [x, p][1..] == [p];
    ImageOne(p);
    var kids := Kids(Padded(key, b, pad));
    assert kids == Image(x) + Image(p);
    assert TreeNames(kids)[0] == key;
  }

  lemma LeafKids(n: Naming, key: string)
    requires LeafName(n, key)
    ensures var kids := Kids(Leaf(n, key)); |kids| == 1 && FirstNamed(TreeNames(kids), key) == Some(0)
  {
    var kids := Kids(Leaf(n, key));
    if "a::" <= key && n.attribute(key[3..]) {
      var attrs := [key[3..], ""];
      assert "a::" + key[3..] == key && attrs[2..] == [];
      assert AttrTrees(attrs) == [Tree(key, "", [])] + [];
      assert kids == [Tree(key, "", [])] + [] + [];
    } else {
      ImageOne(Chars("x"));
      assert Text.TrimLeft("x") == "x" && Text.TrimRight("x") == "x";
      assert kids == [Tree("cdata", "x", [])];
    }
    assert TreeNames(kids)[0] == key;
  }

  lemma {:induction false} SpoilFails(n: Naming, pad: string, schema: Schema, ts: seq<Tree>, firm: bool)
    requires |ts| >= 2 && ts[0].children == Kids(Spoil(n, pad, schema))
    requires if firm then !SafeBelow(n, schema) else !LooseElement(n, schema)
    ensures !Safe(schema, ts, 0, firm, ALWAYS)
    decreases schema
  {
    match schema
    case ObjectList(item) =>
      if firm {
        SpoilFails(n, pad, item, ts, true);
      }
    case Object(fields) =>
      var f :| 0 <= f < |fields| && !LooseField(n, fields[f]) &&
               Spoil(n, pad, schema) == if n.element(fields[f].key)
                 then Padded(fields[f].key, Spoil(n, pad, fields[f].schema), pad) else Leaf(n, fields[f].key);
      assert !Loose(n, fields[f].key, fields[f].schema);
      assert ALWAYS(1) && !Unmoved(ALWAYS, 0, |ts|);
      if n.element(fields[f].key) {
        PaddedKids(fields[f].key, Spoil(n, pad, fields[f].schema), pad);
        SpoilFails(n, pad, fields[f].schema, ts[0].children, false);
      } else {
        LeafKids(n, fields[f].key);
      }
      assert !SafeField(fields[f], ts[0].children, false, ALWAYS);
  }

  lemma {:induction false} SpoilTopFails(n: Naming, pad: string, schema: Schema, ts: seq<Tree>)
    requires |ts| == 1 && ts[0].children == Kids(SpoilTop(n, pad, schema)) && !SafeOnTop(n, schema)
    ensures !Safe(schema, ts, 0, true, ALWAYS)
    decreases schema
  {
    match schema
    case ObjectList(item) => SpoilTopFails(n, pad, item, ts);
    case Object(fields) =>
      var f :| 0 <= f < |fields| && n.element(fields[f].key) && !SafeBelow(n, fields[f].schema) &&
               SpoilTop(n, pad, schema) == Padded(fields[f].key, Spoil(n, pad, fields[f].schema), pad);
      PaddedKids(fields[f].key, Spoil(n, pad, fields[f].schema), pad);
      assert Unmoved(ALWAYS, 0, 1);
      SpoilFails(n, pad, fields[f].schema, ts[0].children, true);
      assert !SafeField(fields[f], ts[0].children, true, ALWAYS);
  }

  /** Exactly these structures are read into as declared from every document with such names, with every
      growth policy; for every other one there is such a document that is not. */
  lemma SchemaExact(n: Naming, pad: string, schema: Schema)
    requires n.element(pad)
    ensures SafeOnTop(n, schema) <==>
            forall grows: Growth, root: Xml :: root.Element? && Named(n, root) ==> ReadAsDeclared(grows, root, schema)
  {
    if SafeOnTop(n, schema) {
      forall grows: Growth, root: Xml | root.Element? && Named(n, root) ensures ReadAsDeclared(grows, root, schema) {
        DeserializeDocument(n, grows, root, schema);
      }
    } else {
      var b := SpoilTop(n, pad, schema);
      var root := Element(pad, b.attrs, b.content);
      SpoilTopNamed(n, pad, schema);
      assert Named(n, root);
      ImageOne(root);
      SpoilTopFails(n, pad, schema, ImageAll([root]));
      DeserializeExact(ALWAYS, [root], schema);
      assert !ReadAsDeclared(ALWAYS, root, schema);
    }
  }

  // ---------- the structures of the agent ----------

  /** `Properties`: a list of objects below the root element. */
  const PROPERTIES :=
    Object([Field("a::authentication", Scalar),
            Field("OBJECT", ObjectList(Object([Field("a::name", Scalar), Field("cdata", Scalar)])))])

  const PAGE := Object([Field("a::url", Scalar), Field("a::security", Scalar), Field("a::mode", Scalar)])

  /** `ProductInfo`: nested objects only. */
  const PRODUCT_INFO :=
    Object([Field("a::name", Scalar), Field("a::type", Scalar), Field("a::version", Scalar),
            Field("a::protocol", Scalar),
            Field("SUMMARY", Object([Field("XML_SUMMARY_PAGE", PAGE), Field("CENTRAL_CFG", PAGE),
                                     Field("CSV_LOGS", PAGE)]))])

  /** Whatever elements and attributes are called. */
  lemma AgentSchemas(n: Naming)
    ensures SafeOnTop(n, PROPERTIES) && SafeOnTop(n, PRODUCT_INFO)
  {}

  /** Both pages the agent reads come out as declared, with every growth policy. */
  lemma AgentPages(grows: Growth, root: Xml)
    requires root.Element?
    ensures ReadAsDeclared(grows, root, PROPERTIES)
    ensures ReadAsDeclared(grows, root, PRODUCT_INFO)
  {
    AgentSchemas(ANY);
    AnyNamed(root);
    DeserializeDocument(ANY, grows, root, PROPERTIES);
    DeserializeDocument(ANY, grows, root, PRODUCT_INFO);
  }

  /** One level deeper a list is lost to some growth policies: in <r><a><x/></a><b/></r> the parent
      pointer of <x/> dangles once the vector that held <a> moved it to append <b>. */
  lemma DeeperListFails()
    ensures var doc := Element("r", [], [Element("a", [], [Element("x", [], [])]), Element("b", [], [])]);
            var schema := Object([Field("a", Object([Field("x", ObjectList(Scalar))]))]);
            forall grows: Growth ::
              Deserialize(grows, EventsAll([doc]), schema) ==
              if grows(1) then None else Some(Fields([Fields([Items([Text("")])])]))
  {
    var x, b := Element("x", [], []), Element("b", [], []);
    var a := Element("a", [], [x]);
    var doc := Element("r", [], [a, b]);
    var tx, tb := Tree("x", "", []), Tree("b", "", []);
    var ta := Tree("a", "", [tx]);
    var td := Tree("r", "", [ta, tb]);
    ImageOne(x);
    ImageOne(b);
    ImageOne(a);
    ImageOne(doc);
    assert [a, b][1..] == [b] && ImageAll([a, b]) == [ta, tb];
    assert ImageAll([doc]) == [td];
    var fx := Field("x", ObjectList(Scalar));
    var fa := Field("a", Object([fx]));
    var schema := Object([fa]);
    forall grows: Growth
      ensures Deserialize(grows, EventsAll([doc]), schema) ==
              if grows(1) then None else Some(Fields([Fields([Items([Text("")])])]))
    {
      DeserializeExact(grows, [doc], schema);
      assert Unmoved(grows, 0, 1) && (Unmoved(grows, 0, 2) <==> !grows(1));
      DeeperListDetail(grows, tx, ta, tb, td, fx, fa);
    }
  }

  lemma OnlyField(key: string, schema: Schema, kids: seq<Tree>, firm: bool, grows: Growth)
    requires FirstNamed(TreeNames(kids), key) == Some(0)
    ensures kids != []
    ensures DeclaredFields([Field(key, schema)], kids) == [Declared(schema, kids, 0)]
    ensures SafeFields([Field(key, schema)], kids, firm, grows) <==> Safe(schema, kids, 0, firm, grows)
  {
    var f := Field(key, schema);
    assert TreeNames(kids)[0] == key;
    assert [f][0] == f && DeclaredField(f, kids) == Declared(schema, kids, 0);
    assert SafeField(f, kids, firm, grows) <==> Safe(schema, kids, 0, firm, grows);
  }

  lemma NoItems(item: Schema, ts: seq<Tree>, name: string)
    ensures DeclaredItems(item, ts, name, 0) == []
  {
    assert ts[..0] == [];
  }

  lemma OnlyItemDeclared(t: Tree)
    ensures Declared(ObjectList(Scalar), [t], 0) == Items([Text(t.value)])
  {
    NoItems(Scalar, [t], t.name);
    DeclaredItemsStep(Scalar, [t], t.name, 0);
  }

  lemma OnlyItemSafe(t: Tree, firm: bool, grows: Growth)
    ensures Safe(ObjectList(Scalar), [t], 0, firm, grows) <==> firm
  {
    assert SafeItems(Scalar, [t], t.name, 1, grows);
  }

  lemma DeeperListDetail(grows: Growth, tx: Tree, ta: Tree, tb: Tree, td: Tree, fx: Field, fa: Field)
    requires tx == Tree("x", "", []) && tb == Tree("b", "", []) && ta == Tree("a", "", [tx])
    requires td == Tree("r", "", [ta, tb])
    requires fx == Field("x", ObjectList(Scalar)) && fa == Field("a", Object([fx]))
    ensures Safe(Object([fa]), [td], 0, true, grows) <==> !grows(1)
    ensures Declared(Object([fa]), [td], 0) == Fields([Fields([Items([Text("")])])])
  {
    assert Unmoved(grows, 0, 1) && (Unmoved(grows, 0, 2) <==> !grows(1));
    assert TreeNames([ta, tb])[0] == "a" && TreeNames([tx])[0] == "x";
    OnlyItemDeclared(tx);
    OnlyItemSafe(tx, Unmoved(grows, 0, 2), grows);
    OnlyField("x", fx.schema, [tx], Unmoved(grows, 0, 2), grows);
    OnlyField("a", fa.schema, [ta, tb], Unmoved(grows, 0, 1), grows);
  }
}
