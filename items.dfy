/** Roblox objects and the node shape Item.Node gives them (writer.go:65-106). */
module Items {
  import opened Wrappers
  import opened Xml
  import opened Layout

  /** A typed property: its wire type (the element tag), its name and its literal value. */
  datatype Property = Property(typeName: string, name: string, value: string)

  /** An object: its class name and its properties, in order. */
  datatype Item = Item(className: string, properties: seq<Property>)

  /**
   * One property as Item.Node renders it: an element named after the type with a `name`
   * attribute, holding a `null` marker element for a Content property whose value is
   * "null", and a text node with the value otherwise.
   */
  function PropertyNode(p: Property): Node {
    Element(p.typeName, [Attr("name", p.name)],
      [if p.typeName == "Content" && p.value == "null" then Element("null", [], []) else Text(p.value)])
  }

  function PropertyNodes(ps: seq<Property>): (r: seq<Node>)
    ensures |r| == |ps|
  {
    seq(|ps|, i requires 0 <= i < |ps| => PropertyNode(ps[i]))
  }

  /** The node Item.Node(indent) returns, written out. */
  function ItemShape(item: Item, indent: nat): Node {
    Element("Item", [Attr("class", item.className)],
      [ Leading(indent + 1),
        Element("Properties", [], Laid(PropertyNodes(item.properties), indent + 2) + [Leading(indent + 1)]),
        Leading(indent) ])
  }

  /**
   * Item.Node (writer.go:77-106), by the same insertions: the Properties element is filled
   * in the loop, as the Go code fills it through its pointer after attaching it.
   */
  method ItemNode(item: Item, indent: nat) returns (node: Node)
    ensures node == ItemShape(item, indent)
  {
    var children := [Leading(indent)];
    var attrs := SetAttr([], "class", item.className);
    children := InsertBeforeLast(children, Leading(indent + 1));
    var props := FillProperties(item.properties, indent);
    children := InsertBeforeLast(children, Element("Properties", [], props));
    node := Element("Item", attrs, children);
  }

  /** The loop of writer.go:89-103: each property after a line break, before the closing one. */
  method FillProperties(ps: seq<Property>, indent: nat) returns (props: seq<Node>)
    ensures props == Laid(PropertyNodes(ps), indent + 2) + [Leading(indent + 1)]
  {
    props := [Leading(indent + 1)];
    for i := 0 to |ps|
      invariant props == Laid(PropertyNodes(ps[..i]), indent + 2) + [Leading(indent + 1)]
    {
      var prop := ps[i];
      var pval;
      if prop.typeName == "Content" && prop.value == "null" {
        pval := Element("null", [], []);
      } else {
        pval := Text(prop.value);
      }
      var pele := Element(prop.typeName, SetAttr([], "name", prop.name), [pval]);
      PropertyStep(ps, i, props, pele, indent);
      props := InsertBeforeLast(props, Leading(indent + 2));
      props := InsertBeforeLast(props, pele);
    }
    assert ps[..|ps|] == ps;
  }

  lemma PropertyStep(ps: seq<Property>, i: nat, props: seq<Node>, pele: Node, indent: nat)
    requires i < |ps| && pele == PropertyNode(ps[i])
    requires props == Laid(PropertyNodes(ps[..i]), indent + 2) + [Leading(indent + 1)]
    ensures InsertBeforeLast(InsertBeforeLast(props, Leading(indent + 2)), pele)
      == Laid(PropertyNodes(ps[..i + 1]), indent + 2) + [Leading(indent + 1)]
  {
    LaidInsert(PropertyNodes(ps[..i]), pele, indent + 2, Leading(indent + 1));
    PropertyNodesSnoc(ps, i);
  }

  lemma PropertyNodesSnoc(ps: seq<Property>, i: nat)
    requires i < |ps|
    ensures PropertyNodes(ps[..i + 1]) == PropertyNodes(ps[..i]) + [PropertyNode(ps[i])]
  {
    assert ps[..i + 1] == ps[..i] + [ps[i]];
  }

  /** One pass of the property loop: a line break and an element, before the closing break. */
  lemma LaidInsert(elems: seq<Node>, x: Node, level: nat, last: Node)
    ensures InsertBeforeLast(InsertBeforeLast(Laid(elems, level) + [last], Leading(level)), x)
      == Laid(elems + [x], level) + [last]
  {
    var l := Laid(elems, level);
    assert (l + [last])[..|l|] == l;
    assert InsertBeforeLast(l + [last], Leading(level)) == l + [Leading(level), last];
    assert (l + [Leading(level), last])[..|l| + 1] == l + [Leading(level)];
    LaidSnoc(elems, x, level);
  }

  /** Reading a property back from its element. */
  function PropertyOf(e: Node): Property
    requires e.Element?
  {
    Property(e.tag, GetAttr(e.attrs, "name").GetOr(""),
      if |e.children| > 0 && e.children[0].Element? && e.children[0].tag == "null" then "null"
      else TextOf(e.children))
  }

  /** Reading an object back from an element of the shape Item.Node builds. */
  function ItemOf(n: Node): Option<Item> {
    if n.Element? && n.tag == "Item" && GetAttr(n.attrs, "class").Some? && |n.children| == 3
       && n.children[1].Element? && n.children[1].tag == "Properties"
    then
      var ps := Strip(n.children[1].children);
      Some(Item(GetAttr(n.attrs, "class").value, seq(|ps|, i requires 0 <= i < |ps| => PropertyOf(ps[i]))))
    else None
  }

  /** The node records the class and every property, name, type and value, in order. */
  lemma ItemRoundTrip(item: Item, indent: nat)
    ensures ItemOf(ItemShape(item, indent)) == Some(item)
  {
    var pn := PropertyNodes(item.properties);
    var ps := Strip(ItemShape(item, indent).children[1].children);
    assert ps == pn by {
      assert AllElements(pn);
      StripAppend(Laid(pn, indent + 2), [Leading(indent + 1)]);
      StripLaid(pn, indent + 2);
    }
    forall i | 0 <= i < |ps|
      ensures PropertyOf(ps[i]) == item.properties[i]
    {
      PropertyRoundTrip(item.properties[i]);
    }
    var decoded := seq(|ps|, i requires 0 <= i < |ps| => PropertyOf(ps[i]));
    assert decoded == item.properties;
  }

  /** A property element gives back its type, name and value. */
  lemma PropertyRoundTrip(p: Property)
    ensures PropertyOf(PropertyNode(p)) == p
  {
    if !(p.typeName == "Content" && p.value == "null") {
      assert TextOf([Text(p.value)]) == p.value + TextOf([]);
    }
  }

  lemma PropertyNodesLaidOut(ps: seq<Property>, tag: string, anc: nat, k: nat)
    requires k >= 1 && anc >= 1
    requires tag == "Item" || tag == "Properties"
    requires forall i :: 0 <= i < |ps| ==> ps[i].typeName != tag
    ensures FixForest(PropertyNodes(ps), tag, anc, k) == PropertyNodes(ps)
  {
    var pn := PropertyNodes(ps);
    forall i | 0 <= i < |pn|
      ensures FixNode(pn[i], tag, anc, k) == pn[i]
    {
      var c := pn[i].children;
      assert FixForest(c, tag, anc + 1, k) == c;
    }
  }

  /** The Properties element Item.Node builds, normalised at its own depth, is unchanged. */
  lemma PropertiesLaidOut(ps: seq<Property>, indent: nat, tag: string, anc: nat, k: nat)
    requires k >= 1 && anc >= 1 && k + anc == indent + 3
    requires tag == "Item" || tag == "Properties"
    requires forall i :: 0 <= i < |ps| ==> ps[i].typeName != tag
    ensures var props := Element("Properties", [], Laid(PropertyNodes(ps), indent + 2) + [Leading(indent + 1)]);
      FixNode(props, tag, anc, k) == props
  {
    var pn := PropertyNodes(ps);
    assert AllElements(pn);
    var pcs := Laid(pn, indent + 2) + [Leading(indent + 1)];
    PropertyNodesLaidOut(ps, tag, anc + 1, k);
    FixForestAppend(Laid(pn, indent + 2), [Leading(indent + 1)], tag, anc + 1, k);
    FixLaid(pn, indent + 2, tag, anc + 1, k);
    assert FixForest(pcs, tag, anc + 1, k) == pcs;
    StripAppend(Laid(pn, indent + 2), [Leading(indent + 1)]);
    StripLaid(pn, indent + 2);
  }

  /**
   * A freshly built node is already laid out: normalising it, at a depth where its own
   * line has `indent` tabs, changes nothing.
   */
  lemma FreshItemLaidOut(item: Item, indent: nat, tag: string, anc: nat, k: nat)
    requires k >= 1 && anc >= 1 && k + anc == indent + 2
    requires tag == "Item" || tag == "Properties"
    requires forall i :: 0 <= i < |item.properties| ==> item.properties[i].typeName != tag
    ensures FixNode(ItemShape(item, indent), tag, anc, k) == ItemShape(item, indent)
  {
    var props := ItemShape(item, indent).children[1];
    PropertiesLaidOut(item.properties, indent, tag, anc + 1, k);
    var cs := ItemShape(item, indent).children;
    assert FixForest(cs, tag, anc + 1, k) == cs;
    assert Strip(cs) == [props] by {
      assert cs == [Leading(indent + 1)] + ([props] + [Leading(indent)]);
      StripAppend([Leading(indent + 1)], [props] + [Leading(indent)]);
      StripAppend([props], [Leading(indent)]);
    }
  }
}
