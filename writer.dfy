/**
 * WriteRBXM up to serialisation (writer.go:315-363): the `roblox` envelope, the walk of the
 * input into it, and the final pass that reissues the referents from RBX0 in document
 * order and points every Ref at the new ids.
 */
module Writer {
  import opened Wrappers
  import opened Strings
  import opened Paths
  import opened Xml
  import opened Layout
  import opened Referents
  import opened Fs
  import opened Walker
  import opened WalkFacts

  /** The document root before the walk: its attributes and two External markers. */
  function Envelope(): (r: Node)
    ensures r.Element? && r.tag == "roblox" && GetAttr(r.attrs, "version") == Some("4")
    ensures Strip(r.children) == [Element("External", [], [Text("null")]), Element("External", [], [Text("nil")])]
  {
    Element("roblox", EnvelopeAttrs(), EnvelopeChildren())
  }

  function EnvelopeAttrs(): seq<Attr> {
    [XmimeAttr, XsiAttr, SchemaAttr, VersionAttr]
  }

  const XmimeAttr := Attr("xmlns:xmime", "http://www.w3.org/2005/05/xmlmime")
  const XsiAttr := Attr("xmlns:xsi", "http://www.w3.org/2001/XMLSchema-instance")
  const SchemaAttr := Attr("xsi:noNamespaceSchemaLocation", "http://www.roblox.com/roblox.xsd")
  const VersionAttr := Attr("version", "4")

  function EnvelopeChildren(): seq<Node> {
    [ Leading(1), Element("External", [], [Text("null")]),
      Leading(1), Element("External", [], [Text("nil")]),
      Leading(0) ]
  }

  /** The statements of writer.go:319-336, by the same insertions and SetAttr calls. */
  method MakeEnvelope() returns (root: Node)
    ensures root == Envelope()
  {
    var children := [Leading(0)];
    var attrs := EnvelopeAttrsMade();
    children := InsertBeforeLast(children, Leading(1));
    children := InsertBeforeLast(children, Element("External", [], [Text("null")]));
    children := InsertBeforeLast(children, Leading(1));
    children := InsertBeforeLast(children, Element("External", [], [Text("nil")]));
    root := Element("roblox", attrs, children);
  }

  /** The four SetAttr calls on the new root: each name is new, so each is appended. */
  method EnvelopeAttrsMade() returns (attrs: seq<Attr>)
    ensures attrs == EnvelopeAttrs()
  {
    EnvelopeNamesDiffer();
    attrs := SetAttr([], XmimeAttr.name, XmimeAttr.value);
    assert GetAttr(attrs, XsiAttr.name).None?;
    attrs := SetAttr(attrs, XsiAttr.name, XsiAttr.value);
    GetAttrAbsent(attrs, SchemaAttr.name);
    attrs := SetAttr(attrs, SchemaAttr.name, SchemaAttr.value);
    GetAttrAbsent(attrs, VersionAttr.name);
    attrs := SetAttr(attrs, VersionAttr.name, VersionAttr.value);
  }

  /** The envelope's attribute names differ, by their first, second or eighth letter. */
  lemma EnvelopeNamesDiffer()
    ensures XmimeAttr.name != XsiAttr.name
    ensures SchemaAttr.name != XmimeAttr.name && SchemaAttr.name != XsiAttr.name
    ensures VersionAttr.name != XmimeAttr.name && VersionAttr.name != XsiAttr.name
    ensures VersionAttr.name != SchemaAttr.name
  {
    assert XmimeAttr.name[7] == 'm' && XsiAttr.name[7] == 's';
    assert SchemaAttr.name[1] == 's' && XmimeAttr.name[1] == 'm' && XsiAttr.name[1] == 'm';
    assert VersionAttr.name[0] == 'v' && SchemaAttr.name[0] == 'x';
  }

  /** The envelope itself carries no referent and no Ref. */
  lemma EnvelopeBare()
    ensures ReferentsOfNode(Envelope()) == [] && RefsOfNode(Envelope()) == []
  {
    var cs := EnvelopeChildren();
    forall i | 0 <= i < |cs|
      ensures ReferentsOfNode(cs[i]) == [] && RefsOfNode(cs[i]) == []
    {
      if cs[i].Element? {
        var t := cs[i].children;
        assert t == [t[0]] && t[0].Text?;
        assert ReferentsOf(t) == ReferentsOfNode(t[0]) + ReferentsOf([]);
        assert RefsOf(t) == RefsOfNode(t[0]) + RefsOf([]);
      }
    }
    NoReferents(cs);
    NoRefs(cs);
    assert OwnReferent(Envelope()).None?;
  }

  lemma {:induction false} NoRefs(f: seq<Node>)
    requires forall i :: 0 <= i < |f| ==> RefsOfNode(f[i]) == []
    ensures RefsOf(f) == []
  {
    if f != [] {
      NoRefs(f[1..]);
    }
  }

  /**
   * The final pass over the whole document: the root relabelled and retargeted from RBX0.
   * Its Items carry RBX0, RBX1, ... in pre-order, each Ref is rewritten through the map of
   * old ids to new ones, and nothing else changes.
   */
  function Finish(root: Node): (r: Node)
    ensures ReferentsOfNode(r) == Ids(0, |ReferentsOfNode(root)|)
    ensures RefsOfNode(r) == RetargetViews(RefsOfNode(root), RefMapOf(ReferentsOfNode(root), 0))
    ensures BareNode(r) == BareNode(root)
  {
    var f := Renumber([root], 0).1;
    RenumberSpec([root], 0);
    ReferentsSingle(root);
    RefsSingle(root);
    ReferentsSingle(f[0]);
    RefsSingle(f[0]);
    assert BareForest(f)[0] == BareForest([root])[0];
    f[0]
  }

  /**
   * WriteRBXM without the final SaveBytes: the finished document root, or the error of
   * Walk when the input cannot be found.
   */
  function WriteRbxm(input: Option<Entry>): (r: Result<Node, string>)
    ensures r.Err? <==> input.None?
  {
    match Walk(input, Envelope())
    case Err(msg) => Err(msg)
    case Ok(st) => Ok(Finish(st.parent))
  }

  /** The statements of WriteRBXM (writer.go:315-363) before SaveBytes. */
  method RunWriteRbxm(input: Option<Entry>) returns (r: Result<Node, string>)
    ensures r == WriteRbxm(input)
  {
    var root := MakeEnvelope();
    var walked := RunWalk(input, root);
    if walked.Err? {
      return Err(walked.error);
    }
    var next, doc := RenumberPass([walked.value.parent], 0);
    return Ok(doc[0]);
  }

  /** Ids RBX0 .. RBX<n - 1> added to a tree that had none: each once, and nothing else. */
  lemma FromNothing(before: Node, after: Node, n: nat)
    requires Adds(before, after, 0, n) && ReferentsOfNode(before) == []
    ensures multiset(ReferentsOfNode(after)) == multiset(Ids(0, n))
    ensures |ReferentsOfNode(after)| == n && Distinct(ReferentsOfNode(after))
  {
    var olds := ReferentsOfNode(after);
    assert multiset(olds) == Issued(0, n) by {
      assert multiset(ReferentsOfNode(before)) == multiset{};
    }
    IssuedRun(olds, n);
  }

  /** Ids whose multiset is RBX0 .. RBX<n - 1>: exactly n of them, no repeats. */
  lemma IssuedRun(olds: seq<string>, n: nat)
    requires multiset(olds) == Issued(0, n)
    ensures multiset(olds) == multiset(Ids(0, n)) && |olds| == n && Distinct(olds)
  {
    IssuedIds(0, n);
    assert |olds| == |multiset(olds)| == |Ids(0, n)|;
    IdsDistinct(0, n);
    DistinctByMultiset(olds, Ids(0, n));
  }

  /**
   * The walk hands out RBX0 up to its counter and nothing else carries a referent, so the
   * walked document has no repeated id and exactly as many as the counter says.
   */
  lemma WalkedIds(input: Option<Entry>)
    requires input.Some?
    ensures var st := Walk(input, Envelope()).value;
      && multiset(ReferentsOfNode(st.parent)) == multiset(Ids(0, st.next))
      && |ReferentsOfNode(st.parent)| == st.next
      && Distinct(ReferentsOfNode(st.parent))
  {
    var st := Walk(input, Envelope()).value;
    WalkReferents(input, Envelope());
    EnvelopeBare();
    FromNothing(Envelope(), st.parent, st.next);
  }

  /**
   * The final pass over a document whose ids have no repeats: the Items carry RBX0,
   * RBX1, ... in document order; a Ref whose value was the k-th old id holds RBX<k> in its
   * first child; every other Ref is untouched; and nothing else in the tree changes.
   */
  lemma FinishReferents(root: Node)
    requires Distinct(ReferentsOfNode(root))
    ensures var out := Finish(root);
      var olds := ReferentsOfNode(root);
      var views := RefsOfNode(root);
      && ReferentsOfNode(out) == Ids(0, |olds|)
      && |RefsOfNode(out)| == |views|
      && (forall i, k :: 0 <= i < |views| && 0 <= k < |olds| && views[i].head.Some? && views[i].Value() == olds[k] ==>
            RefsOfNode(out)[i] == RefView(Some(Referent(k)), views[i].tail))
      && (forall i :: 0 <= i < |views| && (views[i].head.None? || views[i].Value() !in olds) ==>
            RefsOfNode(out)[i] == views[i])
      && BareNode(out) == BareNode(root)
  {
    RetargetedViews(RefsOfNode(root), ReferentsOfNode(root), RefsOfNode(Finish(root)));
  }

  /** Views rewritten through the map of old ids to RBX0, RBX1, ...: hits and misses. */
  lemma RetargetedViews(views: seq<RefView>, olds: seq<string>, outs: seq<RefView>)
    requires Distinct(olds) && outs == RetargetViews(views, RefMapOf(olds, 0))
    ensures |outs| == |views|
    ensures forall i, k :: 0 <= i < |views| && 0 <= k < |olds| && views[i].head.Some? && views[i].Value() == olds[k] ==>
      outs[i] == RefView(Some(Referent(k)), views[i].tail)
    ensures forall i :: 0 <= i < |views| && (views[i].head.None? || views[i].Value() !in olds) ==>
      outs[i] == views[i]
  {
    var m := RefMapOf(olds, 0);
    forall k | 0 <= k < |olds|
      ensures m[olds[k]] == Referent(k)
    {
      RefMapDistinct(olds, 0, k);
    }
  }

  /**
   * What WriteRBXM promises about referents: in the finished document the referent-bearing
   * Items carry RBX0, RBX1, ... in document order with no repeats, as many as the walk
   * handed out; a Ref whose value was the k-th id of the walked document now holds RBX<k>
   * in its first child, every other Ref is untouched, and nothing else in the walked
   * document changes.
   */
  lemma WriteRbxmReferents(input: Option<Entry>)
    requires input.Some?
    ensures var st := Walk(input, Envelope()).value;
      var out := WriteRbxm(input).value;
      var olds := ReferentsOfNode(st.parent);
      var views := RefsOfNode(st.parent);
      && ReferentsOfNode(out) == Ids(0, st.next)
      && Distinct(ReferentsOfNode(out))
      && |RefsOfNode(out)| == |views|
      && (forall i, k :: 0 <= i < |views| && 0 <= k < |olds| && views[i].head.Some? && views[i].Value() == olds[k] ==>
            RefsOfNode(out)[i] == RefView(Some(Referent(k)), views[i].tail))
      && (forall i :: 0 <= i < |views| && (views[i].head.None? || views[i].Value() !in olds) ==>
            RefsOfNode(out)[i] == views[i])
      && BareNode(out) == BareNode(st.parent)
  {
    var st := Walk(input, Envelope()).value;
    WalkedIds(input);
    FinishReferents(st.parent);
    IdsDistinct(0, st.next);
    assert WriteRbxm(input).value == Finish(st.parent);
  }

  // ---------------------------------------------------------------------------------------
  // Walk as written hands walk new(nodeMap): a pointer to a nil map (writer.go:278).

  /** walk reaches the pairing at writer.go:247-249: a readable file that is not skipped. */
  predicate PairsBase(e: Entry) {
    e.File? && e.content.Some?
    && !(SplitName(e.name).1 == ".rbxm" && (e.model.None? || Outer(e.model.value, "Item") == []))
  }

  /**
   * Walk as the code stands: when the input is itself such a file, the store into the nil
   * map panics; every other input behaves as with an empty map.
   */
  function WalkAsWritten(root: Option<Entry>, node: Node): (r: Result<State, string>)
    requires node.Element?
    ensures r.Err? <==> root.None? || PairsBase(root.value)
    ensures r.Ok? ==> r == Walk(root, node)
  {
    match root
    case None => Err("lstat failed")
    case Some(e) =>
      if PairsBase(e) then Err("assignment to entry in nil map")
      else Ok(WalkEntry(e, State(node, map[], 0), 1))
  }

  /** The two differ exactly when the input is a file that walk pairs with its base name. */
  lemma NilMapDiffers(root: Option<Entry>, node: Node)
    requires node.Element?
    ensures WalkAsWritten(root, node) != Walk(root, node) <==> root.Some? && PairsBase(root.value)
  {
  }

  /**
   * A readable text file as the input, such as `a.txt`: Walk as written panics where an
   * empty map succeeds, whatever root node it is walked into.
   */
  lemma NilMapPanics(node: Node, b: string, content: string)
    requires node.Element?
    ensures WalkAsWritten(Some(File(b + ".txt", Some(content), None)), node).Err?
    ensures Walk(Some(File(b + ".txt", Some(content), None)), node).Ok?
  {
    var e := File(b + ".txt", Some(content), None);
    assert PairsBase(e) by {
      assert b + ".txt" == b + "." + "txt";
      SplitNameAt(b, "txt");
      assert SplitName(e.name).1 == ".txt";
      assert ".txt"[1] != ".rbxm"[1];
    }
  }

  /**
   * WriteRBXM before SaveBytes with Walk as the code stands: it also fails when the input
   * is a file that walk pairs with its base name, and otherwise finishes the same document
   * as WriteRbxm.
   */
  function WriteRbxmAsWritten(input: Option<Entry>): (r: Result<Node, string>)
    ensures r.Err? <==> input.None? || PairsBase(input.value)
    ensures r.Ok? ==> r == WriteRbxm(input)
  {
    match WalkAsWritten(input, Envelope())
    case Err(msg) => Err(msg)
    case Ok(st) => Ok(Finish(st.parent))
  }
}
