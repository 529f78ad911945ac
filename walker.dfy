/**
 * The directory walk (walk and Walk, writer.go:108-279): every entry of the input tree
 * becomes an object under its directory's node, with referents from one shared counter.
 */
module Walker {
  import opened Wrappers
  import opened Strings
  import opened Paths
  import opened Xml
  import opened Layout
  import opened Items
  import opened Referents
  import opened Fs

  // ---------------------------------------------------------------------------------------
  // The objects the walk makes (writer.go:121-126, 153-170, 229-235).

  function Backpack(name: string): Item {
    Item("Backpack", [Property("string", "Name", name)])
  }

  function ModuleScript(name: string, source: string): Item {
    Item("ModuleScript", [Property("string", "Name", name), Property("ProtectedString", "Source", source)])
  }

  function Script(name: string, source: string): Item {
    Item("Script", [
      Property("bool", "Disabled", "false"),
      Property("Content", "LinkedSource", "null"),
      Property("string", "Name", name),
      Property("ProtectedString", "Source", source)])
  }

  function StringValue(name: string, value: string): Item {
    Item("StringValue", [Property("string", "Name", name), Property("string", "Value", value)])
  }

  /** The object for a `.lua` file with base name `base` (writer.go:145-171). */
  function LuaItem(base: string, source: string): Item {
    var (subbase, subext) := SplitName(base);
    if subext == ".module" then ModuleScript(subbase, source) else Script(base, source)
  }

  /** item.Node(indent) followed by SetAttr("referent", RBX<next>). */
  function Fresh(item: Item, next: nat, indent: nat): (r: Node)
    ensures r.Element? && r.tag == "Item"
  {
    var n := ItemShape(item, indent);
    Element(n.tag, SetAttr(n.attrs, "referent", Referent(next)), n.children)
  }

  /** A fresh object carries exactly one referent, RBX<next>, and nothing under it carries one. */
  lemma FreshReferents(item: Item, next: nat, indent: nat) returns (made: Node)
    ensures made == Fresh(item, next, indent) && made.Element?
    ensures OwnReferent(made) == Some(Referent(next))
    ensures ReferentsOfNode(made) == [Referent(next)]
  {
    made := Fresh(item, next, indent);
    var cs := ShapeReferents(item, indent);
    assert made.children == cs;
    assert GetAttr(made.attrs, "referent") == Some(Referent(next));
  }

  /** Nothing inside Item.Node's result carries a referent. */
  lemma ShapeReferents(item: Item, indent: nat) returns (cs: seq<Node>)
    ensures cs == ItemShape(item, indent).children && ReferentsOf(cs) == []
  {
    cs := ItemShape(item, indent).children;
    var props := cs[1];
    var pn := PropertyNodes(item.properties);
    assert ReferentsOf(props.children) == [] by {
      PropertiesReferents(item.properties);
      LaidReferents(pn, indent + 2);
      ReferentsAppend(Laid(pn, indent + 2), [Leading(indent + 1)]);
      assert props.children == Laid(pn, indent + 2) + [Leading(indent + 1)];
    }
    assert ReferentsOfNode(props) == [];
    assert cs == [Leading(indent + 1)] + [props] + [Leading(indent)];
    ReferentsAround([Leading(indent + 1)], props, [Leading(indent)]);
  }

  /** A property element holds one text or `null` element and no Item. */
  lemma PropertyNodeReferents(p: Property)
    ensures ReferentsOfNode(PropertyNode(p)) == []
  {
    var n := PropertyNode(p);
    var c := n.children[0];
    assert ReferentsOfNode(c) == [] by {
      if c.Element? {
        assert c.children == [] && OwnReferent(c).None?;
      }
    }
    ReferentsSingle(c);
    assert n.children == [c];
    assert n.attrs == [Attr("name", p.name)];
    assert "name" != "referent" by { assert "name"[0] != "referent"[0]; }
    assert n.attrs[1..] == [];
    assert GetAttr(n.attrs, "referent") == GetAttr([], "referent") == None;
  }

  lemma PropertiesReferents(ps: seq<Property>)
    ensures ReferentsOf(PropertyNodes(ps)) == []
  {
    var pn := PropertyNodes(ps);
    forall i | 0 <= i < |pn|
      ensures ReferentsOfNode(pn[i]) == []
    {
      PropertyNodeReferents(ps[i]);
    }
    NoReferents(pn);
  }

  lemma {:induction false} NoReferents(f: seq<Node>)
    requires forall i :: 0 <= i < |f| ==> ReferentsOfNode(f[i]) == []
    ensures ReferentsOf(f) == []
  {
    if f != [] {
      NoReferents(f[1..]);
    }
  }

  lemma LaidReferents(elems: seq<Node>, level: nat)
    ensures ReferentsOf(Laid(elems, level)) == ReferentsOf(elems)
  {
    StripLaidAny(elems, level);
    ReferentsStrip(Laid(elems, level));
    ReferentsStrip(elems);
  }

  /** The interleaved whitespace strips away again, whatever the children are. */
  lemma {:induction false} StripLaidAny(elems: seq<Node>, level: nat)
    ensures Strip(Laid(elems, level)) == Strip(elems)
    decreases |elems|
  {
    if elems != [] {
      LaidCons(elems, level);
      StripLaidAny(elems[1..], level);
      assert [Leading(level), elems[0]] + Laid(elems[1..], level)
          == [Leading(level)] + ([elems[0]] + Laid(elems[1..], level));
      StripAppend([Leading(level)], [elems[0]] + Laid(elems[1..], level));
      StripAppend([elems[0]], Laid(elems[1..], level));
      assert elems == [elems[0]] + elems[1..];
      StripAppend([elems[0]], elems[1..]);
    }
  }

  // ---------------------------------------------------------------------------------------
  // Attaching nodes to a parent.

  /** parent.AddChildAt(leading(indent), -2) then parent.AddChildAt(node, -2). */
  function Attach(parent: Node, node: Node, indent: nat): (r: Node)
    requires parent.Element?
    ensures r.Element? && r.tag == parent.tag && r.attrs == parent.attrs
    ensures |r.children| == |parent.children| + 2
    ensures r.children[|parent.children|] == node
    ensures forall i :: 0 <= i < |parent.children| - 1 ==> r.children[i] == parent.children[i]
  {
    Element(parent.tag, parent.attrs, InsertBeforeLast(InsertBeforeLast(parent.children, Leading(indent)), node))
  }

  /** The loop at writer.go:219-222: every node attached in turn. */
  function AttachAll(parent: Node, nodes: seq<Node>, indent: nat): (r: Node)
    requires parent.Element?
    ensures r.Element? && r.tag == parent.tag && r.attrs == parent.attrs
    ensures |r.children| == |parent.children| + 2 * |nodes|
    ensures nodes != [] ==> r.children[|parent.children|] == nodes[0]
    ensures forall i :: 0 <= i < |parent.children| - 1 ==> r.children[i] == parent.children[i]
    decreases |nodes|
  {
    if nodes == [] then parent
    else AttachAll(Attach(parent, nodes[0], indent), nodes[1..], indent)
  }

  lemma InsertBeforeLastReferents(cs: seq<Node>, x: Node)
    ensures multiset(ReferentsOf(InsertBeforeLast(cs, x))) == multiset(ReferentsOf(cs)) + multiset(ReferentsOfNode(x))
  {
    if cs == [] {
      ReferentsSingle(x);
    } else {
      var init, last := cs[..|cs| - 1], cs[|cs| - 1];
      var a, l, m := ReferentsOf(init), ReferentsOfNode(last), ReferentsOfNode(x);
      assert ReferentsOf(cs) == a + l by {
        assert cs == init + [last];
        ReferentsAppend(init, [last]);
        ReferentsSingle(last);
      }
      assert ReferentsOf(InsertBeforeLast(cs, x)) == a + (m + l) by {
        assert InsertBeforeLast(cs, x) == init + ([x] + [last]);
        ReferentsAppend(init, [x] + [last]);
        ReferentsAppend([x], [last]);
        ReferentsSingle(x);
        ReferentsSingle(last);
      }
      assert multiset(a + (m + l)) == multiset(a + l) + multiset(m);
    }
  }

  /** Attaching a node adds its referents to the parent's, and no others. */
  lemma AttachReferents(parent: Node, node: Node, indent: nat)
    requires parent.Element?
    ensures multiset(ReferentsOfNode(Attach(parent, node, indent)))
         == multiset(ReferentsOfNode(parent)) + multiset(ReferentsOfNode(node))
  {
    var cs := parent.children;
    InsertBeforeLastReferents(cs, Leading(indent));
    InsertBeforeLastReferents(InsertBeforeLast(cs, Leading(indent)), node);
  }

  lemma {:induction false} AttachAllReferents(parent: Node, nodes: seq<Node>, indent: nat)
    requires parent.Element?
    ensures multiset(ReferentsOfNode(AttachAll(parent, nodes, indent)))
         == multiset(ReferentsOfNode(parent)) + multiset(ReferentsOf(nodes))
    decreases |nodes|
  {
    if nodes != [] {
      AttachReferents(parent, nodes[0], indent);
      AttachAllReferents(Attach(parent, nodes[0], indent), nodes[1..], indent);
    }
  }

  /** Replacing a child by one with more referents adds just those to the parent's. */
  lemma ReplaceReferents(parent: Node, idx: nat, x: Node, extra: multiset<string>)
    requires parent.Element? && idx < |parent.children|
    requires multiset(ReferentsOfNode(x)) == multiset(ReferentsOfNode(parent.children[idx])) + extra
    ensures multiset(ReferentsOfNode(parent.(children := parent.children[idx := x])))
         == multiset(ReferentsOfNode(parent)) + extra
  {
    var cs := parent.children;
    var a, b := cs[..idx], cs[idx + 1..];
    var ra, rb := ReferentsOf(a), ReferentsOf(b);
    assert ReferentsOf(cs) == ra + ReferentsOfNode(cs[idx]) + rb by {
      assert cs == a + [cs[idx]] + b;
      ReferentsAround(a, cs[idx], b);
    }
    assert ReferentsOf(cs[idx := x]) == ra + ReferentsOfNode(x) + rb by {
      assert cs[idx := x] == a + [x] + b;
      ReferentsAround(a, x, b);
    }
    var p := parent.(children := cs[idx := x]);
    var own := if OwnReferent(parent).Some? then [OwnReferent(parent).value] else [];
    assert OwnReferent(p) == OwnReferent(parent);
    assert ReferentsOfNode(p) == own + (ra + ReferentsOfNode(x) + rb);
    assert ReferentsOfNode(parent) == own + (ra + ReferentsOfNode(cs[idx]) + rb);
    SwapMiddle(own, ra, ReferentsOfNode(x), ReferentsOfNode(cs[idx]), rb, extra);
  }

  lemma SwapMiddle(o: seq<string>, a: seq<string>, x: seq<string>, c: seq<string>, b: seq<string>, extra: multiset<string>)
    requires multiset(x) == multiset(c) + extra
    ensures multiset(o + (a + x + b)) == multiset(o + (a + c + b)) + extra
  {
  }

  lemma ReferentsAround(a: seq<Node>, y: Node, b: seq<Node>)
    ensures ReferentsOf(a + [y] + b) == ReferentsOf(a) + ReferentsOfNode(y) + ReferentsOf(b)
  {
    ReferentsAppend(a + [y], b);
    ReferentsAppend(a, [y]);
    ReferentsSingle(y);
  }

  // ---------------------------------------------------------------------------------------
  // The walk.

  /**
   * What one call of walk works on: the node its entries go under, the uncles map of base
   * names to the positions of file nodes among that node's children, and the counter.
   */
  datatype State = State(parent: Node, uncles: map<string, nat>, next: nat)

  /**
   * The parent is an element, and every uncle is an element child that is not the last
   * child, so inserting before the last child never moves it.
   */
  predicate Valid(st: State) {
    st.parent.Element? &&
    forall k :: k in st.uncles ==>
      st.uncles[k] < |st.parent.children| - 1 && st.parent.children[st.uncles[k]].Element?
  }

  /** Pair a file's node with its base name unless the name is taken (writer.go:247-249). */
  function Record(base: string, st: State, idx: nat): (r: State)
    requires Valid(st) && idx < |st.parent.children| - 1 && st.parent.children[idx].Element?
    ensures Valid(r) && r.parent == st.parent && r.next == st.next
  {
    if base in st.uncles then st else State(st.parent, st.uncles[base := idx], st.next)
  }

  /** A fresh object for a file, with the next referent, attached under the parent. */
  function Place(st: State, item: Item, indent: nat): (r: State)
    requires Valid(st)
    ensures Valid(r) && r.uncles == st.uncles && r.next == st.next + 1
    ensures |st.parent.children| < |r.parent.children| - 1
    ensures r.parent.children[|st.parent.children|] == Fresh(item, st.next, indent)
  {
    State(Attach(st.parent, Fresh(item, st.next, indent), indent), st.uncles, st.next + 1)
  }

  /**
   * A loaded model prepared for splicing (writer.go:193-216): referents renumbered from
   * `start`, then the Items and the Properties relaid for this depth. The model's top-level
   * nodes have the library's document node as their one ancestor.
   */
  function Prepare(f: seq<Node>, start: nat, indent: nat): (r: (nat, seq<Node>))
    requires indent >= 1
    ensures r.0 == start + |ReferentsOf(f)|
    ensures |Outer(r.1, "Item")| == |Outer(f, "Item")|
    ensures ReferentsOf(Outer(r.1, "Item")) == Ids(start, |ReferentsOf(f)|)
  {
    var (next, f1) := Renumber(f, start);
    var f2 := FixForest(f1, "Item", 1, indent);
    var f3 := FixForest(f2, "Properties", 1, indent);
    var f0 := RelabelForest(f, start).0;
    RelabelForestReferents(f, start);
    RetargetForestReferents(f0, RefMapOf(ReferentsOf(f), start));
    OuterRelabelForest(f, start, "Item");
    OuterRetargetForest(f0, RefMapOf(ReferentsOf(f), start), "Item");
    OuterFixForest(f1, "Item", 1, indent, "Item");
    OuterFixForest(f2, "Properties", 1, indent, "Item");
    ReferentsFixForest(f1, "Item", 1, indent);
    ReferentsFixForest(f2, "Properties", 1, indent);
    ReferentsOuter(f3);
    (next, f3)
  }

  /**
   * The Refs inside a prepared model's outermost Items are those of the model, rewritten
   * through the map of the model's old ids to the new ones.
   */
  lemma PreparedRefs(f: seq<Node>, start: nat, indent: nat)
    requires indent >= 1
    ensures RefsOf(Outer(Prepare(f, start, indent).1, "Item"))
         == RetargetViews(RefsOf(Outer(f, "Item")), RefMapOf(ReferentsOf(f), start))
  {
    var f1 := Renumber(f, start).1;
    var f2 := FixForest(f1, "Item", 1, indent);
    RefsOuterRetargetForest(RelabelForest(f, start).0, RefMapOf(ReferentsOf(f), start), "Item");
    RefsOuterRelabelForest(f, start, "Item");
    RefsOuterFixForest(f1, "Item", 1, indent, "Item");
    RefsOuterFixForest(f2, "Properties", 1, indent, "Item");
  }

  lemma AttachAllValid(st: State, nodes: seq<Node>, indent: nat, next: nat)
    requires Valid(st)
    ensures Valid(State(AttachAll(st.parent, nodes, indent), st.uncles, next))
  {
  }

  /**
   * A `.rbxm` file (writer.go:180-226): nothing when the model does not load or holds no
   * Item; otherwise the prepared model's outermost Items are attached in order and the
   * first is paired with the base name.
   */
  function Splice(base: string, model: Option<seq<Node>>, st: State, indent: nat): (r: State)
    requires Valid(st) && indent >= 1
    ensures Valid(r) && r.next >= st.next
    ensures r.parent.tag == st.parent.tag && r.parent.attrs == st.parent.attrs
  {
    if model.None? || Outer(model.value, "Item") == [] then st
    else
      var (next, f) := Prepare(model.value, st.next, indent);
      var nodes := Outer(f, "Item");
      AttachAllValid(st, nodes, indent, next);
      Record(base, State(AttachAll(st.parent, nodes, indent), st.uncles, next), |st.parent.children|)
  }

  /** walk for one entry under the state's parent, at this indentation. */
  function WalkEntry(e: Entry, st: State, indent: nat): (r: State)
    requires Valid(st) && indent >= 1
    ensures Valid(r) && r.next >= st.next
    ensures r.parent.tag == st.parent.tag && r.parent.attrs == st.parent.attrs
    decreases e, 2, 0
  {
    match e
    case Dir(name, _) =>
      if name in st.uncles then WalkUncle(e, st, indent) else WalkBackpack(e, st, indent)
    case File(_, _, _) => WalkFile(e, st, indent)
  }

  /** A directory whose name an earlier file took: its contents go under that file's node. */
  function WalkUncle(e: Entry, st: State, indent: nat): (r: State)
    requires Valid(st) && indent >= 1 && e.Dir? && e.name in st.uncles
    ensures Valid(r) && r.next >= st.next
    ensures r.parent.tag == st.parent.tag && r.parent.attrs == st.parent.attrs
    decreases e, 1, 1
  {
    var idx := st.uncles[e.name];
    var (next, filled) := Fill(e, st.parent.children[idx], st.next, indent);
    State(st.parent.(children := st.parent.children[idx := filled]), st.uncles, next)
  }

  /** Any other directory: a fresh Backpack with the next referent, filled, then attached. */
  function WalkBackpack(e: Entry, st: State, indent: nat): (r: State)
    requires Valid(st) && indent >= 1 && e.Dir?
    ensures Valid(r) && r.next >= st.next
    ensures r.parent.tag == st.parent.tag && r.parent.attrs == st.parent.attrs
    decreases e, 1, 1
  {
    var (next, filled) := Fill(e, Fresh(Backpack(e.name), st.next, indent), st.next + 1, indent);
    State(Attach(st.parent, filled, indent), st.uncles, next)
  }

  /** A file: skipped when unreadable, spliced when a model, otherwise one new object. */
  function WalkFile(e: Entry, st: State, indent: nat): (r: State)
    requires Valid(st) && indent >= 1 && e.File?
    ensures Valid(r) && r.next >= st.next
    ensures r.parent.tag == st.parent.tag && r.parent.attrs == st.parent.attrs
  {
    var (base, ext) := SplitName(e.name);
    if e.content.None? then st
    else if ext == ".rbxm" then Splice(base, e.model, st, indent)
    else Record(base, Place(st, FileItem(base, ext, e.content.value), indent), |st.parent.children|)
  }

  /** The object for a readable file that is not a model (writer.go:145-179, 227-243). */
  function FileItem(base: string, ext: string, content: string): (r: Item)
    ensures r.className == "Script" || r.className == "ModuleScript" <==> ext == ".lua"
    ensures |r.properties| >= 2 && r.properties[|r.properties| - 1].value == content
  {
    if ext == ".lua" then LuaItem(base, content) else StringValue(base, content)
  }

  /**
   * A directory's node with its children walked into it (writer.go:253-268): when the
   * directory cannot be listed the node is left as it is.
   */
  function Fill(e: Entry, target: Node, next: nat, indent: nat): (r: (nat, Node))
    requires e.Dir? && target.Element? && indent >= 1
    ensures r.0 >= next && r.1.Element? && r.1.tag == target.tag && r.1.attrs == target.attrs
    decreases e, 1, 0
  {
    match ReadDir(e)
    case None => (next, target)
    case Some(sorted) =>
      var r := WalkChildren(e, sorted, |sorted|, State(target, map[], next), indent + 1);
      (r.next, r.parent)
  }

  /** The first k sorted entries walked in order, each with a fresh uncles map's state threaded. */
  function WalkChildren(e: Entry, sorted: seq<Entry>, k: nat, st: State, indent: nat): (r: State)
    requires e.Dir? && e.listing.Listed? && multiset(sorted) == multiset(e.listing.entries)
    requires k <= |sorted| && Valid(st) && indent >= 1
    ensures Valid(r) && r.next >= st.next
    ensures r.parent.tag == st.parent.tag && r.parent.attrs == st.parent.attrs
    decreases e, 0, k
  {
    if k == 0 then st
    else
      assert sorted[k - 1] in multiset(e.listing.entries);
      WalkEntry(sorted[k - 1], WalkChildren(e, sorted, k - 1, st, indent), indent)
  }

  /** Walk (writer.go:272-279): Lstat failing is the only error; the walk starts at RBX0. */
  function Walk(root: Option<Entry>, node: Node): (r: Result<State, string>)
    requires node.Element?
    ensures r.Err? <==> root.None?
    ensures r.Ok? ==> Valid(r.value) && r.value.parent.tag == node.tag && r.value.parent.attrs == node.attrs
  {
    match root
    case None => Err("lstat failed")
    case Some(e) => Ok(WalkEntry(e, State(node, map[], 0), 1))
  }

  // ---------------------------------------------------------------------------------------
  // What the walk promises.

  /**
   * `after` holds exactly the referents of `before` and the ids RBX<lo> .. RBX<hi - 1>,
   * each once more.
   */
  predicate Adds(before: Node, after: Node, lo: nat, hi: nat) {
    lo <= hi && multiset(ReferentsOfNode(after)) == multiset(ReferentsOfNode(before)) + Issued(lo, hi)
  }

  /** Two consecutive additions are one. */
  lemma AddsTrans(a: Node, b: Node, c: Node, lo: nat, mid: nat, hi: nat)
    requires Adds(a, b, lo, mid) && Adds(b, c, mid, hi)
    ensures Adds(a, c, lo, hi)
  {
    IssuedAppend(lo, mid, hi);
  }

  /** The one id RBX<n>. */
  lemma IssuedOne(n: nat)
    ensures Issued(n, n + 1) == multiset{Referent(n)}
  {
  }

  lemma IssuedNone(n: nat)
    ensures Issued(n, n) == multiset{}
  {
  }

  /** Attaching a node that adds to nothing the ids lo .. hi - 1 adds them to the parent. */
  lemma AttachAdds(parent: Node, node: Node, indent: nat, lo: nat, hi: nat)
    requires parent.Element? && lo <= hi && multiset(ReferentsOfNode(node)) == Issued(lo, hi)
    ensures Adds(parent, Attach(parent, node, indent), lo, hi)
  {
    AttachReferents(parent, node, indent);
  }

  /** A file's object adds its own referent and nothing else. */
  lemma PlaceReferents(st: State, item: Item, indent: nat)
    requires Valid(st)
    ensures Adds(st.parent, Place(st, item, indent).parent, st.next, Place(st, item, indent).next)
  {
    var made := FreshReferents(item, st.next, indent);
    var r := Place(st, item, indent);
    assert r.parent == Attach(st.parent, made, indent);
    AttachOne(st.parent, made, indent, st.next);
  }

  /** Attaching a node whose one referent is RBX<n> adds just that id. */
  lemma AttachOne(parent: Node, made: Node, indent: nat, n: nat)
    requires parent.Element? && ReferentsOfNode(made) == [Referent(n)]
    ensures Adds(parent, Attach(parent, made, indent), n, n + 1)
  {
    IssuedOne(n);
    assert multiset(ReferentsOfNode(made)) == Issued(n, n + 1);
    AttachAdds(parent, made, indent, n, n + 1);
  }

  /** The Items a prepared model contributes carry the ids it was renumbered with. */
  lemma PreparedReferents(f: seq<Node>, start: nat, indent: nat)
    requires indent >= 1
    ensures multiset(ReferentsOf(Outer(Prepare(f, start, indent).1, "Item")))
         == Issued(start, Prepare(f, start, indent).0)
  {
    var p := Prepare(f, start, indent);
    var n := |ReferentsOf(f)|;
    assert p.0 == start + n && ReferentsOf(Outer(p.1, "Item")) == Ids(start, n);
    IssuedIds(start, n);
  }

  /** A spliced model adds the ids it was renumbered with. */
  lemma SpliceReferents(base: string, model: Option<seq<Node>>, st: State, indent: nat)
    requires Valid(st) && indent >= 1
    ensures Adds(st.parent, Splice(base, model, st, indent).parent, st.next, Splice(base, model, st, indent).next)
  {
    if model.Some? && Outer(model.value, "Item") != [] {
      SpliceModelReferents(base, model.value, st, indent);
    } else {
      IssuedNone(st.next);
    }
  }

  lemma SpliceModelReferents(base: string, m: seq<Node>, st: State, indent: nat)
    requires Valid(st) && indent >= 1 && Outer(m, "Item") != []
    ensures Adds(st.parent, Splice(base, Some(m), st, indent).parent, st.next, Splice(base, Some(m), st, indent).next)
  {
    var p := Prepare(m, st.next, indent);
    var nodes := Outer(p.1, "Item");
    AttachAllReferents(st.parent, nodes, indent);
    PreparedReferents(m, st.next, indent);
    var r := Splice(base, Some(m), st, indent);
    assert r.parent == AttachAll(st.parent, nodes, indent) && r.next == p.0;
  }

  /** A file adds the ids of the object or the model it becomes. */
  lemma FileReferents(e: Entry, st: State, indent: nat)
    requires Valid(st) && indent >= 1 && e.File?
    ensures Adds(st.parent, WalkFile(e, st, indent).parent, st.next, WalkFile(e, st, indent).next)
  {
    var (base, ext) := SplitName(e.name);
    if e.content.None? {
      assert WalkFile(e, st, indent) == st;
      IssuedNone(st.next);
    } else if ext == ".rbxm" {
      SpliceReferents(base, e.model, st, indent);
      assert WalkFile(e, st, indent) == Splice(base, e.model, st, indent);
    } else {
      var item := FileItem(base, ext, e.content.value);
      PlaceReferents(st, item, indent);
      assert WalkFile(e, st, indent) == Record(base, Place(st, item, indent), |st.parent.children|);
    }
  }

  /** A directory whose name an earlier file took is walked into that file's node. */
  lemma UncleReferents(e: Entry, st: State, indent: nat)
    requires Valid(st) && indent >= 1 && e.Dir? && e.name in st.uncles
    ensures Adds(st.parent, WalkUncle(e, st, indent).parent, st.next, WalkUncle(e, st, indent).next)
    decreases e, 1, 1
  {
    var idx := st.uncles[e.name];
    var target := st.parent.children[idx];
    var (next, filled) := Fill(e, target, st.next, indent);
    FillReferents(e, target, st.next, indent);
    ReplaceReferents(st.parent, idx, filled, Issued(st.next, next));
    assert WalkUncle(e, st, indent) == State(st.parent.(children := st.parent.children[idx := filled]), st.uncles, next);
  }

  /** Any other directory gets a fresh Backpack with its own referent, then its contents. */
  lemma BackpackReferents(e: Entry, st: State, indent: nat)
    requires Valid(st) && indent >= 1 && e.Dir?
    ensures Adds(st.parent, WalkBackpack(e, st, indent).parent, st.next, WalkBackpack(e, st, indent).next)
    decreases e, 1, 3
  {
    var made := FreshReferents(Backpack(e.name), st.next, indent);
    AttachFilled(e, st.parent, made, st.next, indent);
    var fl := Fill(e, made, st.next + 1, indent);
    assert WalkBackpack(e, st, indent) == State(Attach(st.parent, fl.1, indent), st.uncles, fl.0);
  }

  /**
   * A node whose one referent is RBX<n>, filled from RBX<n + 1> on and attached, adds
   * RBX<n> onwards to the parent.
   */
  lemma AttachFilled(e: Entry, parent: Node, made: Node, n: nat, indent: nat)
    requires e.Dir? && parent.Element? && made.Element? && indent >= 1
    requires ReferentsOfNode(made) == [Referent(n)]
    ensures Adds(parent, Attach(parent, Fill(e, made, n + 1, indent).1, indent), n, Fill(e, made, n + 1, indent).0)
    decreases e, 1, 2
  {
    var hi, filled := FillAdds(e, made, n + 1, indent);
    FilledOne(parent, made, filled, n, hi, indent);
  }

  /** Fill's result, named, with the ids it adds. */
  lemma FillAdds(e: Entry, target: Node, next: nat, indent: nat) returns (n: nat, filled: Node)
    requires e.Dir? && target.Element? && indent >= 1
    ensures (n, filled) == Fill(e, target, next, indent)
    ensures Adds(target, filled, next, n)
    decreases e, 1, 1
  {
    FillReferents(e, target, next, indent);
    n, filled := Fill(e, target, next, indent).0, Fill(e, target, next, indent).1;
  }

  lemma FilledOne(parent: Node, made: Node, filled: Node, n: nat, hi: nat, indent: nat)
    requires parent.Element? && ReferentsOfNode(made) == [Referent(n)] && Adds(made, filled, n + 1, hi)
    ensures Adds(parent, Attach(parent, filled, indent), n, hi)
  {
    IssuedOne(n);
    IssuedAppend(n, n + 1, hi);
    AttachAdds(parent, filled, indent, n, hi);
  }

  /**
   * The referent invariant: walking an entry adds to the parent's subtree exactly the ids
   * the counter handed out meanwhile, RBX<st.next> up to the new counter, each once.
   */
  lemma {:induction false} WalkEntryReferents(e: Entry, st: State, indent: nat)
    requires Valid(st) && indent >= 1
    ensures Adds(st.parent, WalkEntry(e, st, indent).parent, st.next, WalkEntry(e, st, indent).next)
    decreases e, 2, 0
  {
    match e
    case Dir(name, _) =>
      if name in st.uncles {
        UncleReferents(e, st, indent);
      } else {
        BackpackReferents(e, st, indent);
      }
    case File(_, _, _) =>
      FileReferents(e, st, indent);
  }

  lemma {:induction false} FillReferents(e: Entry, target: Node, next: nat, indent: nat)
    requires e.Dir? && target.Element? && indent >= 1
    ensures Adds(target, Fill(e, target, next, indent).1, next, Fill(e, target, next, indent).0)
    decreases e, 1, 0
  {
    match ReadDir(e)
    case None =>
      assert Fill(e, target, next, indent) == (next, target);
      IssuedNone(next);
    case Some(sorted) =>
      var init := State(target, map[], next);
      var r := WalkChildren(e, sorted, |sorted|, init, indent + 1);
      assert Fill(e, target, next, indent) == (r.next, r.parent);
      WalkChildrenReferents(e, sorted, |sorted|, init, indent + 1);
      assert Adds(init.parent, r.parent, init.next, r.next);
      assert Adds(target, r.parent, next, r.next);
  }

  lemma {:induction false} WalkChildrenReferents(e: Entry, sorted: seq<Entry>, k: nat, st: State, indent: nat)
    requires e.Dir? && e.listing.Listed? && multiset(sorted) == multiset(e.listing.entries)
    requires k <= |sorted| && Valid(st) && indent >= 1
    ensures Adds(st.parent, WalkChildren(e, sorted, k, st, indent).parent, st.next, WalkChildren(e, sorted, k, st, indent).next)
    decreases e, 0, k
  {
    if k > 0 {
      assert sorted[k - 1] in multiset(e.listing.entries);
      var mid := WalkChildren(e, sorted, k - 1, st, indent);
      WalkChildrenReferents(e, sorted, k - 1, st, indent);
      assert Adds(st.parent, mid.parent, st.next, mid.next);
      WalkEntryReferents(sorted[k - 1], mid, indent);
      var r := WalkEntry(sorted[k - 1], mid, indent);
      assert Adds(mid.parent, r.parent, mid.next, r.next);
      AddsTrans(st.parent, mid.parent, r.parent, st.next, mid.next, r.next);
      assert WalkChildren(e, sorted, k, st, indent) == r;
    } else {
      IssuedNone(st.next);
    }
  }

  // ---------------------------------------------------------------------------------------
  // walk as the Go code runs it: statements over a threaded state, a loop over the sorted
  // directory listing, and each object built by Item.Node's insertions.

  /** The node for a fresh object: item.Node(indent), then its referent attribute set. */
  method MakeNode(item: Item, next: nat, indent: nat) returns (node: Node)
    ensures node == Fresh(item, next, indent)
  {
    node := ItemNode(item, indent);
    node := node.(attrs := SetAttr(node.attrs, "referent", Referent(next)));
  }

  /** One call of walk on an entry (writer.go:111-251). */
  method RunEntry(e: Entry, st: State, indent: nat) returns (r: State)
    requires Valid(st) && indent >= 1
    ensures r == WalkEntry(e, st, indent)
    decreases e, 2, 0
  {
    var parent := st.parent;
    match e
    case Dir(name, _) =>
      if name in st.uncles {
        var idx := st.uncles[name];
        var next, filled := RunDir(e, parent.children[idx], st.next, indent);
        r := State(parent.(children := parent.children[idx := filled]), st.uncles, next);
      } else {
        var node := MakeNode(Backpack(name), st.next, indent);
        var next, filled := RunDir(e, node, st.next + 1, indent);
        r := State(Attach(parent, filled, indent), st.uncles, next);
      }
    case File(_, _, _) =>
      r := RunFile(e, st, indent);
  }

  /** walk on a file (writer.go:137-251). */
  method RunFile(e: Entry, st: State, indent: nat) returns (r: State)
    requires Valid(st) && indent >= 1 && e.File?
    ensures r == WalkFile(e, st, indent)
  {
    var (base, ext) := SplitName(e.name);
    if e.content.None? {
      return st;
    }
    var source := e.content.value;
    if ext == ".rbxm" {
      r := RunSplice(base, e.model, st, indent);
      return;
    }
    var item := FileItem(base, ext, source);
    var node := MakeNode(item, st.next, indent);
    var parent := Attach(st.parent, node, indent);
    var uncles := st.uncles;
    if base !in uncles {
      uncles := uncles[base := |st.parent.children|];
    }
    r := State(parent, uncles, st.next + 1);
  }

  /** walk on a `.rbxm` file (writer.go:180-226, 247-249). */
  method RunSplice(base: string, model: Option<seq<Node>>, st: State, indent: nat) returns (r: State)
    requires Valid(st) && indent >= 1
    ensures r == Splice(base, model, st, indent)
  {
    if model.None? || Outer(model.value, "Item") == [] {
      return st;
    }
    var next, laid := RunPrepare(model.value, st.next, indent);
    var parent := RunAttachAll(st.parent, Outer(laid, "Item"), indent);
    var uncles := st.uncles;
    if base !in uncles {
      uncles := uncles[base := |st.parent.children|];
    }
    r := State(parent, uncles, next);
  }

  /** The renumbering and the two layout passes of writer.go:190-212. */
  method RunPrepare(f: seq<Node>, start: nat, indent: nat) returns (next: nat, laid: seq<Node>)
    requires indent >= 1
    ensures (next, laid) == Prepare(f, start, indent)
  {
    var renumbered;
    next, renumbered := RenumberPass(f, start);
    laid := FixForest(FixForest(renumbered, "Item", 1, indent), "Properties", 1, indent);
  }

  /** The loop at writer.go:219-222. */
  method RunAttachAll(parent: Node, nodes: seq<Node>, indent: nat) returns (r: Node)
    requires parent.Element?
    ensures r == AttachAll(parent, nodes, indent)
  {
    r := parent;
    for i := 0 to |nodes|
      invariant r.Element?
      invariant AttachAll(r, nodes[i..], indent) == AttachAll(parent, nodes, indent)
    {
      assert nodes[i..] == [nodes[i]] + nodes[i + 1..];
      r := Attach(r, nodes[i], indent);
    }
    assert nodes[|nodes|..] == [];
  }

  /** The rest of walk for a directory (writer.go:253-269): each sorted entry in turn. */
  method RunDir(e: Entry, target: Node, next: nat, indent: nat) returns (n: nat, filled: Node)
    requires e.Dir? && target.Element? && indent >= 1
    ensures (n, filled) == Fill(e, target, next, indent)
    decreases e, 1, 0
  {
    match ReadDir(e)
    case None =>
      return next, target;
    case Some(sorted) =>
      var st := RunChildren(e, sorted, State(target, map[], next), indent + 1);
      return st.next, st.parent;
  }

  /** The loop over a directory's sorted entries (writer.go:262-268), sharing one uncles map. */
  method RunChildren(e: Entry, sorted: seq<Entry>, init: State, indent: nat) returns (st: State)
    requires e.Dir? && e.listing.Listed? && multiset(sorted) == multiset(e.listing.entries)
    requires Valid(init) && indent >= 1
    ensures st == WalkChildren(e, sorted, |sorted|, init, indent)
    decreases e, 0, 0
  {
    st := init;
    for i := 0 to |sorted|
      invariant Valid(st)
      invariant st == WalkChildren(e, sorted, i, init, indent)
    {
      assert sorted[i] in multiset(e.listing.entries);
      st := RunEntry(sorted[i], st, indent);
    }
  }

  /** Walk (writer.go:272-279). */
  method RunWalk(root: Option<Entry>, node: Node) returns (r: Result<State, string>)
    requires node.Element?
    ensures r == Walk(root, node)
  {
    if root.None? {
      return Err("lstat failed");
    }
    var st := RunEntry(root.value, State(node, map[], 0), 1);
    return Ok(st);
  }
}
