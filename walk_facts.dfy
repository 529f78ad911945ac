/**
 * What walk promises entry by entry (writer.go:111-270): which object a file becomes,
 * how the uncles map grows, when an entry changes nothing, and what a spliced model adds.
 */
module WalkFacts {
  import opened Wrappers
  import opened Strings
  import opened Paths
  import opened Xml
  import opened Layout
  import opened Items
  import opened Referents
  import opened Fs
  import opened Walker

  /** A fresh object reads back as the object it was made from, and carries RBX<next>. */
  lemma FreshShape(item: Item, next: nat, indent: nat)
    ensures ItemOf(Fresh(item, next, indent)) == Some(item)
    ensures GetAttr(Fresh(item, next, indent).attrs, "referent") == Some(Referent(next))
    ensures GetAttr(Fresh(item, next, indent).attrs, "class") == Some(item.className)
  {
    ItemRoundTrip(item, indent);
    var n := ItemShape(item, indent);
    assert GetAttr(n.attrs, "class") == Some(item.className);
  }

  // ---------------------------------------------------------------------------------------
  // Attaching, position by position.

  /** Attach puts the whitespace and then the node just before the parent's last child. */
  lemma AttachLaid(parent: Node, node: Node, indent: nat)
    requires parent.Element? && parent.children != []
    ensures var cs := parent.children;
      Attach(parent, node, indent).children == cs[..|cs| - 1] + Laid([node], indent) + [cs[|cs| - 1]]
  {
    var cs := parent.children;
    var once := InsertBeforeLast(cs, Leading(indent));
    assert once == cs[..|cs| - 1] + [Leading(indent), cs[|cs| - 1]];
    assert once[..|once| - 1] == cs[..|cs| - 1] + [Leading(indent)];
    assert Laid([node], indent) == [Leading(indent), node];
  }

  /** The nodes of a splice land in order, each after its whitespace, before the last child. */
  lemma {:induction false} AttachAllLaid(parent: Node, nodes: seq<Node>, indent: nat)
    requires parent.Element? && parent.children != []
    ensures var cs := parent.children;
      AttachAll(parent, nodes, indent).children == cs[..|cs| - 1] + Laid(nodes, indent) + [cs[|cs| - 1]]
    decreases |nodes|
  {
    var cs := parent.children;
    if nodes == [] {
      assert cs == cs[..|cs| - 1] + [cs[|cs| - 1]];
    } else {
      var p := Attach(parent, nodes[0], indent);
      AttachLaid(parent, nodes[0], indent);
      AttachAllLaid(p, nodes[1..], indent);
      var pcs := p.children;
      assert pcs[..|pcs| - 1] == cs[..|cs| - 1] + Laid([nodes[0]], indent);
      assert pcs[|pcs| - 1] == cs[|cs| - 1];
      LaidCons(nodes, indent);
      assert Laid([nodes[0]], indent) == [Leading(indent), nodes[0]];
    }
  }

  // ---------------------------------------------------------------------------------------
  // Files.

  /** "x.module.lua" splits into "x.module" and ".lua", and "x.module" into "x" and ".module". */
  lemma ModuleSplit(b: string)
    ensures SplitName(b + ".module.lua") == (b + ".module", ".lua")
    ensures SplitName(b + ".module") == (b, ".module")
  {
    var key := b + ".module";
    assert b + ".module.lua" == key + "." + "lua";
    SplitNameAt(key, "lua");
    assert "." + "lua" == ".lua" && "." + "module" == ".module";
    assert key == b + "." + "module";
    SplitNameAt(b, "module");
  }

  /**
   * A readable file that is not a model becomes one fresh object with the next referent,
   * attached under the parent; its base name is paired with the object's position unless
   * an earlier entry took it.
   */
  lemma PlacedFile(e: Entry, st: State, indent: nat)
    requires Valid(st) && indent >= 1 && e.File? && e.content.Some? && SplitName(e.name).1 != ".rbxm"
    ensures var base := SplitName(e.name).0;
      var r := WalkEntry(e, st, indent);
      && r.next == st.next + 1
      && r.parent == Attach(st.parent, Fresh(FileItem(base, SplitName(e.name).1, e.content.value), st.next, indent), indent)
      && r.uncles == (if base in st.uncles then st.uncles else st.uncles[base := |st.parent.children|])
  {
    var (base, ext) := SplitName(e.name);
    var p := Place(st, FileItem(base, ext, e.content.value), indent);
    assert WalkFile(e, st, indent) == Record(base, p, |st.parent.children|);
    assert WalkEntry(e, st, indent) == WalkFile(e, st, indent);
  }

  /**
   * A file with a readable `.lua` name whose base ends in `.module` becomes a ModuleScript
   * named by what precedes `.module`; the uncles key is the base with `.module` kept.
   */
  lemma ModuleScriptFile(b: string, source: string, model: Option<seq<Node>>, st: State, indent: nat)
    requires Valid(st) && indent >= 1
    ensures var r := WalkEntry(File(b + ".module.lua", Some(source), model), st, indent);
      var key := b + ".module";
      && r.next == st.next + 1
      && r.parent == Attach(st.parent, Fresh(Item("ModuleScript", [
           Property("string", "Name", b), Property("ProtectedString", "Source", source)]), st.next, indent), indent)
      && r.uncles == (if key in st.uncles then st.uncles else st.uncles[key := |st.parent.children|])
  {
    ModuleSplit(b);
    assert FileItem(b + ".module", ".lua", source) == ModuleScript(b, source);
    PlacedFile(File(b + ".module.lua", Some(source), model), st, indent);
  }

  /** Any other `.lua` file becomes a Script named by its base, enabled, with no linked source. */
  lemma ScriptFile(b: string, source: string, model: Option<seq<Node>>, st: State, indent: nat)
    requires Valid(st) && indent >= 1 && SplitName(b).1 != ".module"
    ensures var r := WalkEntry(File(b + ".lua", Some(source), model), st, indent);
      && r.next == st.next + 1
      && r.parent == Attach(st.parent, Fresh(Item("Script", [
           Property("bool", "Disabled", "false"), Property("Content", "LinkedSource", "null"),
           Property("string", "Name", b), Property("ProtectedString", "Source", source)]), st.next, indent), indent)
      && r.uncles == (if b in st.uncles then st.uncles else st.uncles[b := |st.parent.children|])
  {
    var e := File(b + ".lua", Some(source), model);
    LuaSplit(b);
    assert SplitName(e.name).0 == b && SplitName(e.name).1 == ".lua";
    var item := Script(b, source);
    assert LuaItem(b, source) == item;
    assert FileItem(b, ".lua", source) == item;
    PlacedFile(e, st, indent);
  }

  /** "x.lua" splits into "x" and ".lua". */
  lemma LuaSplit(b: string)
    ensures SplitName(b + ".lua") == (b, ".lua")
  {
    assert b + ".lua" == b + "." + "lua";
    SplitNameAt(b, "lua");
    assert "." + "lua" == ".lua";
  }

  /** A readable file with any other extension, or none, becomes a StringValue. */
  lemma StringValueFile(name: string, content: string, model: Option<seq<Node>>, st: State, indent: nat)
    requires Valid(st) && indent >= 1
    requires SplitName(name).1 != ".lua" && SplitName(name).1 != ".rbxm"
    ensures var r := WalkEntry(File(name, Some(content), model), st, indent);
      var base := SplitName(name).0;
      && r.next == st.next + 1
      && r.parent == Attach(st.parent, Fresh(Item("StringValue", [
           Property("string", "Name", base), Property("string", "Value", content)]), st.next, indent), indent)
      && r.uncles == (if base in st.uncles then st.uncles else st.uncles[base := |st.parent.children|])
  {
    PlacedFile(File(name, Some(content), model), st, indent);
  }

  /** A file that cannot be read changes nothing: not the tree, the counter nor the map. */
  lemma UnreadableFile(name: string, model: Option<seq<Node>>, st: State, indent: nat)
    requires Valid(st) && indent >= 1
    ensures WalkEntry(File(name, None, model), st, indent) == st
  {
  }

  /** A `.rbxm` file that does not load, or holds no Item, changes nothing either. */
  lemma EmptyModelFile(name: string, content: string, model: Option<seq<Node>>, st: State, indent: nat)
    requires Valid(st) && indent >= 1 && SplitName(name).1 == ".rbxm"
    requires model.None? || Outer(model.value, "Item") == []
    ensures WalkEntry(File(name, Some(content), model), st, indent) == st
  {
  }

  /**
   * A `.rbxm` file with Items: the counter advances by the number of referent-bearing Items
   * at every depth, which now carry the ids handed out; only the outermost Items are
   * attached, in order, before the parent's last child, their Refs rewritten through the
   * map of the model's old ids to the new ones; the first is what the base name is paired
   * with.
   */
  lemma ModelFile(name: string, content: string, model: seq<Node>, st: State, indent: nat)
    requires Valid(st) && indent >= 1 && SplitName(name).1 == ".rbxm"
    requires Outer(model, "Item") != [] && st.parent.children != []
    ensures var r := WalkEntry(File(name, Some(content), Some(model)), st, indent);
      var base := SplitName(name).0;
      var nodes := Outer(Prepare(model, st.next, indent).1, "Item");
      var cs := st.parent.children;
      && r.next == st.next + |ReferentsOf(model)|
      && |nodes| == |Outer(model, "Item")|
      && ReferentsOf(nodes) == Ids(st.next, |ReferentsOf(model)|)
      && RefsOf(nodes) == RetargetViews(RefsOf(Outer(model, "Item")), RefMapOf(ReferentsOf(model), st.next))
      && r.parent.tag == st.parent.tag && r.parent.attrs == st.parent.attrs
      && r.parent.children == cs[..|cs| - 1] + Laid(nodes, indent) + [cs[|cs| - 1]]
      && r.parent.children[|cs|] == nodes[0]
      && r.uncles == (if base in st.uncles then st.uncles else st.uncles[base := |cs|])
  {
    var nodes := Outer(Prepare(model, st.next, indent).1, "Item");
    AttachAllLaid(st.parent, nodes, indent);
    PreparedRefs(model, st.next, indent);
  }

  /**
   * How a file changes the uncles map: every pairing already made stays, and the only one
   * that can be added is the file's base name, paired with the position the file's node
   * takes. The first file with a base name wins.
   */
  lemma FileUncles(e: Entry, st: State, indent: nat)
    requires Valid(st) && indent >= 1 && e.File?
    ensures var r := WalkEntry(e, st, indent);
      && (forall k :: k in st.uncles ==> k in r.uncles && r.uncles[k] == st.uncles[k])
      && (forall k :: k in r.uncles && k !in st.uncles ==>
            k == SplitName(e.name).0 && r.uncles[k] == |st.parent.children|)
  {
    var (base, ext) := SplitName(e.name);
    var r := WalkFile(e, st, indent);
    assert WalkEntry(e, st, indent) == r;
    var idx := |st.parent.children|;
    if e.content.None? {
      assert r == st;
    } else if ext == ".rbxm" {
      if e.model.Some? && Outer(e.model.value, "Item") != [] {
        assert r.uncles == if base in st.uncles then st.uncles else st.uncles[base := idx];
      } else {
        assert r == st;
      }
    } else {
      var p := Place(st, FileItem(base, ext, e.content.value), indent);
      assert r == Record(base, p, idx);
      assert p.uncles == st.uncles;
    }
  }

  // ---------------------------------------------------------------------------------------
  // Directories.

  /** Directories never enter the uncles map. */
  lemma DirUncles(e: Entry, st: State, indent: nat)
    requires Valid(st) && indent >= 1 && e.Dir?
    ensures WalkEntry(e, st, indent).uncles == st.uncles
  {
  }

  /**
   * A directory named like an earlier file's base makes no object of its own: the parent
   * keeps its children, and the file's node, with its class and referent, takes the
   * directory's contents and exactly the ids handed out for them.
   */
  lemma MergedDir(e: Entry, st: State, indent: nat)
    requires Valid(st) && indent >= 1 && e.Dir? && e.name in st.uncles
    ensures var r := WalkEntry(e, st, indent);
      var idx := st.uncles[e.name];
      var cs := st.parent.children;
      && |r.parent.children| == |cs|
      && (forall j :: 0 <= j < |cs| && j != idx ==> r.parent.children[j] == cs[j])
      && r.parent.children[idx] == Fill(e, cs[idx], st.next, indent).1
      && r.parent.children[idx].tag == cs[idx].tag && r.parent.children[idx].attrs == cs[idx].attrs
      && Adds(cs[idx], r.parent.children[idx], st.next, r.next)
  {
    var idx := st.uncles[e.name];
    FillReferents(e, st.parent.children[idx], st.next, indent);
  }

  /**
   * Any other directory becomes a fresh Backpack named after it, with referent RBX<next>,
   * attached before the parent's last child, holding the directory's contents and the ids
   * handed out for them.
   */
  lemma NewBackpackDir(e: Entry, st: State, indent: nat)
    requires Valid(st) && indent >= 1 && e.Dir? && e.name !in st.uncles
    ensures var r := WalkEntry(e, st, indent);
      var made := Fresh(Item("Backpack", [Property("string", "Name", e.name)]), st.next, indent);
      var cs := st.parent.children;
      && |r.parent.children| == |cs| + 2
      && (forall j :: 0 <= j < |cs| - 1 ==> r.parent.children[j] == cs[j])
      && r.parent.children[|cs|] == Fill(e, made, st.next + 1, indent).1
      && r.parent.children[|cs|].attrs == made.attrs
      && GetAttr(made.attrs, "class") == Some("Backpack")
      && GetAttr(made.attrs, "referent") == Some(Referent(st.next))
      && Adds(made, r.parent.children[|cs|], st.next + 1, r.next)
  {
    var made := Fresh(Backpack(e.name), st.next, indent);
    FreshShape(Backpack(e.name), st.next, indent);
    var n, filled := FillAdds(e, made, st.next + 1, indent);
    var r := WalkEntry(e, st, indent);
    assert r == WalkBackpack(e, st, indent);
    assert r.parent == Attach(st.parent, filled, indent) && r.next == n;
  }

  // ---------------------------------------------------------------------------------------
  // The whole walk.

  /**
   * Walk hands out RBX0 up to its final counter, each exactly once, and every one of them
   * ends up in the tree under the node it was given; an absent input is the one error.
   */
  lemma WalkReferents(root: Option<Entry>, node: Node)
    requires node.Element?
    ensures Walk(root, node).Err? <==> root.None?
    ensures Walk(root, node).Ok? ==>
      Adds(node, Walk(root, node).value.parent, 0, Walk(root, node).value.next)
  {
    if root.Some? {
      WalkEntryReferents(root.value, State(node, map[], 0), 1);
    }
  }
}
