/** The deserializer as it runs: it loops over fields and siblings and fills the target step by step. */
module NeonVisitor {
  import opened Wrappers
  import opened NeonTree
  import opened NeonDocument
  import opened NeonParser
  import opened NeonReader
  import NeonBuilder

  /** The index of the first child with that name, or the number of children. */
  method FindChild(children: seq<NeonNode>, key: string) returns (i: nat)
    ensures i == match FirstNamed(NodeNames(children), key) case None => |children| case Some(k) => k
  {
    var names := NodeNames(children);
    i := 0;
    while i < |children| && children[i].name != key
      invariant i <= |children| && key !in names[..i]
    {
      assert names[..i + 1] == names[..i] + [names[i]];
      i := i + 1;
    }
    FirstNamedIs(names, key, i);
  }

  lemma {:induction false} FirstNamedIs(names: seq<string>, key: string, i: nat)
    requires i <= |names| && key !in names[..i] && (i < |names| ==> names[i] == key)
    ensures FirstNamed(names, key) == if i < |names| then Some(i) else None
  {}

  /** The contents read so far, followed by those still to read. */
  function After(done: seq<Content>, rest: Option<seq<Content>>): Option<seq<Content>> {
    match rest
    case None => None
    case Some(v) => Some(done + v)
  }

  lemma AfterStep(done: seq<Content>, c: Content, rest: Option<seq<Content>>)
    ensures After([], rest) == rest && After(done, Some([])) == Some(done)
    ensures After(done, After([c], rest)) == After(done + [c], rest)
  {
    assert done + [] == done;
    if rest.Some? {
      assert [] + rest.value == rest.value;
      assert done + ([c] + rest.value) == done + [c] + rest.value;
    }
  }

  /** `visit` and `unpackValue`: the content of the target, or `None` where a pointer that dangles is
      followed. */
  method Visit(root: NeonNode, schema: Schema, node: NeonNode) returns (r: Option<Content>)
    ensures r == Read(root, schema, node)
    decreases schema, 1
  {
    match schema {
      case Scalar => r := Some(Text(node.value));
      case Ignored => r := Some(Unset);
      case Object(fields) => r := UnpackNode(root, fields, node);
      case ObjectList(item) =>
        if node.parent.None? {
          return Some(Items([]));
        }
        var parent := Find(root, node.parent.value);
        if parent.None? {
          return None;
        }
        r := UnpackList(root, item, parent.value.children, node.name);
    }
  }

  method UnpackNode(root: NeonNode, fields: seq<Field>, node: NeonNode) returns (r: Option<Content>)
    ensures r == match ReadFields(root, fields, node) case None => None case Some(v) => Some(Fields(v))
    decreases fields, 0
  {
    var values: seq<Content> := [];
    var f := 0;
    AfterStep([], Unset, ReadFields(root, fields, node));
    while f < |fields|
      invariant 0 <= f <= |fields|
      invariant ReadFields(root, fields, node) == After(values, ReadFields(root, fields[f..], node))
    {
      assert fields[f..][0] == fields[f] && fields[f..][1..] == fields[f + 1..];
      var found := FindChild(node.children, fields[f].key);
      var value := Some(Unset);
      if found != |node.children| {
        value := Visit(root, fields[f].schema, node.children[found]);
      }
      if value.None? {
        return None;
      }
      AfterStep(values, value.value, ReadFields(root, fields[f + 1..], node));
      values := values + [value.value];
      f := f + 1;
    }
    AfterStep(values, Unset, None);
    return Some(Fields(values));
  }

  method UnpackList(root: NeonNode, item: Schema, siblings: seq<NeonNode>, name: string) returns (r: Option<Content>)
    ensures r == match ReadItems(root, item, siblings, name) case None => None case Some(v) => Some(Items(v))
    decreases item, 2
  {
    var items: seq<Content> := [];
    var i := 0;
    AfterStep([], Unset, ReadItems(root, item, siblings, name));
    while i < |siblings|
      invariant 0 <= i <= |siblings|
      invariant ReadItems(root, item, siblings, name) == After(items, ReadItems(root, item, siblings[i..], name))
    {
      assert siblings[i..][0] == siblings[i] && siblings[i..][1..] == siblings[i + 1..];
      if siblings[i].name == name {
        var value := Visit(root, item, siblings[i]);
        if value.None? {
          return None;
        }
        AfterStep(items, value.value, ReadItems(root, item, siblings[i + 1..], name));
        items := items + [value.value];
      }
      i := i + 1;
    }
    AfterStep(items, Unset, None);
    return Some(Items(items));
  }

  /** `neon::deserialize` on the callbacks of a document. */
  method ReadDocument(grows: Growth, events: seq<Event>, schema: Schema) returns (r: Option<Content>)
    requires Nesting([], events).Some?
    requires forall i :: 0 <= i < |events| && events[i].End? ==> events[i].name != ""
    ensures r == Deserialize(grows, events, schema)
  {
    var parser := new NeonBuilder.Parser(grows);
    FreshInv(grows);
    assert Standing(grows, parser.View(), []);
    parser.Parse(events, []);
    if parser.root.children == [] {
      r := Some(Unset);
    } else {
      r := Visit(parser.root, schema, parser.root.children[0]);
    }
  }
}
