/**
 * The referent-remapping pass that writer.go runs over a spliced model (writer.go:194-212)
 * and again over the whole document (writer.go:344-363): every Item that carries a
 * `referent` attribute gets a fresh id from a counter, in document order, and every Ref
 * element whose value is an old id is pointed at the new one.
 */
module Referents {
  import opened Wrappers
  import opened Strings
  import opened Xml
  import opened Layout

  /** The referent an element contributes: its `referent` attribute when it is an Item. */
  function OwnReferent(n: Node): Option<string> {
    if n.Element? && n.tag == "Item" then GetAttr(n.attrs, "referent") else None
  }

  /** SelectNodesRecursive("Item") filtered by HasAttr("referent"): the ids, in pre-order. */
  function ReferentsOfNode(n: Node): seq<string> {
    match n
    case Text(_) => []
    case Element(_, _, cs) =>
      (if OwnReferent(n).Some? then [OwnReferent(n).value] else []) + ReferentsOf(cs)
  }

  function ReferentsOf(f: seq<Node>): seq<string> {
    if f == [] then [] else ReferentsOfNode(f[0]) + ReferentsOf(f[1..])
  }

  lemma {:induction false} ReferentsAppend(a: seq<Node>, b: seq<Node>)
    ensures ReferentsOf(a + b) == ReferentsOf(a) + ReferentsOf(b)
  {
    if a == [] {
      assert a + b == b;
    } else {
      assert (a + b)[0] == a[0] && (a + b)[1..] == a[1..] + b;
      ReferentsAppend(a[1..], b);
    }
  }

  lemma ReferentsSingle(n: Node)
    ensures ReferentsOf([n]) == ReferentsOfNode(n)
  {
    assert [n][1..] == [];
  }

  /** Text children carry no referents. */
  lemma {:induction false} ReferentsStrip(cs: seq<Node>)
    ensures ReferentsOf(Strip(cs)) == ReferentsOf(cs)
  {
    if cs != [] {
      ReferentsStrip(cs[1..]);
      var h := if cs[0].Text? then [] else [cs[0]];
      ReferentsAppend(h, Strip(cs[1..]));
    }
  }

  lemma ReferentsIndented(cs: seq<Node>, level: nat)
    requires level >= 1
    ensures ReferentsOf(Indented(cs, level)) == ReferentsOf(cs)
  {
    IndentedLayout(cs, level);
    ReferentsStrip(Indented(cs, level));
    ReferentsStrip(cs);
  }

  /** Relaying out whitespace neither adds, drops nor reorders referents. */
  lemma {:induction false} ReferentsFixNode(n: Node, tag: string, anc: nat, indent: nat)
    requires indent >= 1 && anc >= 1
    ensures ReferentsOfNode(FixNode(n, tag, anc, indent)) == ReferentsOfNode(n)
    decreases n, 1
  {
    match n
    case Text(_) =>
    case Element(t, a, cs) =>
      ReferentsFixForest(cs, tag, anc + 1, indent);
      if t == tag {
        ReferentsIndented(FixForest(cs, tag, anc + 1, indent), indent + anc - 1);
      }
  }

  lemma {:induction false} ReferentsFixForest(f: seq<Node>, tag: string, anc: nat, indent: nat)
    requires indent >= 1 && anc >= 1
    ensures ReferentsOf(FixForest(f, tag, anc, indent)) == ReferentsOf(f)
    decreases f, 0
  {
    if f != [] {
      ReferentsFixNode(f[0], tag, anc, indent);
      assert FixForest(f, tag, anc, indent)[1..] == FixForest(f[1..], tag, anc, indent);
      ReferentsFixForest(f[1..], tag, anc, indent);
    }
  }

  /** Every referent-bearing Item is an outermost Item or lies inside one. */
  lemma {:induction false} ReferentsOuterNode(n: Node)
    ensures ReferentsOf(OuterOf(n, "Item")) == ReferentsOfNode(n)
    decreases n, 1
  {
    match n
    case Text(_) =>
    case Element(t, a, cs) =>
      if t == "Item" {
        ReferentsSingle(n);
      } else {
        ReferentsOuter(cs);
      }
  }

  lemma {:induction false} ReferentsOuter(f: seq<Node>)
    ensures ReferentsOf(Outer(f, "Item")) == ReferentsOf(f)
    decreases f, 0
  {
    if f != [] {
      ReferentsOuterNode(f[0]);
      ReferentsOuter(f[1..]);
      ReferentsAppend(OuterOf(f[0], "Item"), Outer(f[1..], "Item"));
    }
  }

  // ---------------------------------------------------------------------------------------
  // Relabelling: the first loop of the pass.

  /** The element with each referent-bearing Item in it relabelled in pre-order from `next`. */
  function RelabelNode(n: Node, next: nat): (r: (Node, nat))
    ensures r.1 == next + |ReferentsOfNode(n)|
  {
    match n
    case Text(_) => (n, next)
    case Element(t, a, cs) =>
      var own := OwnReferent(n).Some?;
      var a' := if own then SetAttr(a, "referent", Referent(next)) else a;
      var k := if own then next + 1 else next;
      var (cs', k') := RelabelForest(cs, k);
      (Element(t, a', cs'), k')
  }

  function RelabelForest(f: seq<Node>, next: nat): (r: (seq<Node>, nat))
    ensures r.1 == next + |ReferentsOf(f)|
    ensures |r.0| == |f|
  {
    if f == [] then ([], next)
    else
      var (h, k) := RelabelNode(f[0], next);
      var (t, k') := RelabelForest(f[1..], k);
      ([h] + t, k')
  }

  /** After relabelling, the referents in pre-order are exactly RBX<next>, RBX<next+1>, .... */
  lemma {:induction false} RelabelNodeReferents(n: Node, next: nat)
    ensures ReferentsOfNode(RelabelNode(n, next).0) == Ids(next, |ReferentsOfNode(n)|)
    decreases n, 1
  {
    match n
    case Text(_) =>
    case Element(t, a, cs) =>
      var own := OwnReferent(n).Some?;
      var k := if own then next + 1 else next;
      RelabelForestReferents(cs, k);
      var m := |ReferentsOf(cs)|;
      var r := RelabelNode(n, next).0;
      assert r.children == RelabelForest(cs, k).0;
      assert ReferentsOfNode(r) == (if OwnReferent(r).Some? then [OwnReferent(r).value] else []) + Ids(k, m);
      if own {
        assert OwnReferent(r) == Some(Referent(next));
        IdsCons(next, m);
      } else {
        assert OwnReferent(r).None?;
        assert Ids(next, m) == [] + Ids(next, m);
      }
  }

  lemma {:induction false} RelabelForestReferents(f: seq<Node>, next: nat)
    ensures ReferentsOf(RelabelForest(f, next).0) == Ids(next, |ReferentsOf(f)|)
    decreases f, 0
  {
    if f != [] {
      var (h, k) := RelabelNode(f[0], next);
      var (t, k') := RelabelForest(f[1..], k);
      RelabelNodeReferents(f[0], next);
      RelabelForestReferents(f[1..], k);
      assert ([h] + t)[0] == h && ([h] + t)[1..] == t;
      IdsAppend(next, |ReferentsOfNode(f[0])|, |ReferentsOf(f[1..])|);
    }
  }

  /** The tree with every referent-bearing Item's id blanked: what relabelling may not touch. */
  function UnlabelNode(n: Node): Node {
    match n
    case Text(_) => n
    case Element(t, a, cs) =>
      Element(t, if OwnReferent(n).Some? then SetAttr(a, "referent", "") else a, UnlabelForest(cs))
  }

  function UnlabelForest(f: seq<Node>): (r: seq<Node>)
    ensures |r| == |f|
  {
    seq(|f|, i requires 0 <= i < |f| => UnlabelNode(f[i]))
  }

  lemma {:induction false} SetAttrTwice(a: seq<Attr>, name: string, x: string, y: string)
    ensures SetAttr(SetAttr(a, name, x), name, y) == SetAttr(a, name, y)
  {
    if a != [] && a[0].name != name {
      SetAttrTwice(a[1..], name, x, y);
    }
  }

  /** Relabelling changes the referent attributes and nothing else. */
  lemma {:induction false} RelabelNodeOnlyReferents(n: Node, next: nat)
    ensures UnlabelNode(RelabelNode(n, next).0) == UnlabelNode(n)
    decreases n, 1
  {
    match n
    case Text(_) =>
    case Element(t, a, cs) =>
      var own := OwnReferent(n).Some?;
      var k := if own then next + 1 else next;
      RelabelForestOnlyReferents(cs, k);
      if own {
        SetAttrTwice(a, "referent", Referent(next), "");
      }
  }

  lemma {:induction false} RelabelForestOnlyReferents(f: seq<Node>, next: nat)
    ensures UnlabelForest(RelabelForest(f, next).0) == UnlabelForest(f)
    decreases f, 0
  {
    if f != [] {
      var (h, k) := RelabelNode(f[0], next);
      var (t, k') := RelabelForest(f[1..], k);
      RelabelNodeOnlyReferents(f[0], next);
      RelabelForestOnlyReferents(f[1..], k);
      assert |t| == |f[1..]| by {
        assert |UnlabelForest(t)| == |UnlabelForest(f[1..])|;
      }
      var r := [h] + t;
      forall i | 0 <= i < |f|
        ensures UnlabelNode(r[i]) == UnlabelNode(f[i])
      {
        if i > 0 {
          assert r[i] == t[i - 1] && f[i] == f[1..][i - 1];
          assert UnlabelForest(t)[i - 1] == UnlabelForest(f[1..])[i - 1];
        }
      }
    }
  }

  // ---------------------------------------------------------------------------------------
  // Ref elements and their retargeting: the second loop of the pass.

  /**
   * What the pass reads and writes of a Ref element: the value of its first child when that
   * is a text, and the text of the remaining children. GetValue is the concatenation of the
   * two.
   */
  datatype RefView = RefView(head: Option<string>, tail: string) {
    function Value(): string {
      head.GetOr("") + tail
    }
  }

  function ViewOf(cs: seq<Node>): (v: RefView)
    ensures v.Value() == TextOf(cs)
  {
    if cs != [] && cs[0].Text? then RefView(Some(cs[0].value), TextOf(cs[1..]))
    else if cs != [] then RefView(None, TextOf(cs[1..]))
    else RefView(None, "")
  }

  /** SelectNodesRecursive("Ref"): the view of every Ref element, in pre-order. */
  function RefsOfNode(n: Node): seq<RefView> {
    match n
    case Text(_) => []
    case Element(t, _, cs) => (if t == "Ref" then [ViewOf(cs)] else []) + RefsOf(cs)
  }

  function RefsOf(f: seq<Node>): seq<RefView> {
    if f == [] then [] else RefsOfNode(f[0]) + RefsOf(f[1..])
  }

  /**
   * The rewrite of one Ref: when its value is a key of the map and its first child is a
   * text, that child's value becomes the mapped id; otherwise it stays as it is.
   */
  function RetargetView(v: RefView, m: map<string, string>): RefView {
    if v.head.Some? && v.Value() in m then RefView(Some(m[v.Value()]), v.tail) else v
  }

  function RetargetViews(vs: seq<RefView>, m: map<string, string>): (r: seq<RefView>)
    ensures |r| == |vs|
    ensures forall i :: 0 <= i < |vs| ==> r[i] == RetargetView(vs[i], m)
  {
    seq(|vs|, i requires 0 <= i < |vs| => RetargetView(vs[i], m))
  }

  function RetargetNode(n: Node, m: map<string, string>): (r: Node)
    ensures r.Text? <==> n.Text?
    ensures n.Text? ==> r == n
  {
    match n
    case Text(_) => n
    case Element(t, a, cs) =>
      var cs' := RetargetForest(cs, m);
      if t == "Ref" && TextOf(cs) in m && cs != [] && cs[0].Text? then
        Element(t, a, [Text(m[TextOf(cs)])] + cs'[1..])
      else Element(t, a, cs')
  }

  function RetargetForest(f: seq<Node>, m: map<string, string>): (r: seq<Node>)
    ensures |r| == |f|
  {
    seq(|f|, i requires 0 <= i < |f| => RetargetNode(f[i], m))
  }

  lemma {:induction false} RefsAppend(a: seq<Node>, b: seq<Node>)
    ensures RefsOf(a + b) == RefsOf(a) + RefsOf(b)
  {
    if a == [] {
      assert a + b == b;
    } else {
      assert (a + b)[0] == a[0] && (a + b)[1..] == a[1..] + b;
      RefsAppend(a[1..], b);
    }
  }

  lemma RefsSingle(n: Node)
    ensures RefsOf([n]) == RefsOfNode(n)
  {
    assert [n][1..] == [];
  }

  /** Retargeting changes no text that GetValue reads. */
  lemma {:induction false} TextOfRetarget(cs: seq<Node>, m: map<string, string>)
    ensures TextOf(RetargetForest(cs, m)) == TextOf(cs)
  {
    if cs != [] {
      assert RetargetForest(cs, m)[1..] == RetargetForest(cs[1..], m);
      TextOfRetarget(cs[1..], m);
    }
  }

  lemma ViewOfRetarget(cs: seq<Node>, m: map<string, string>)
    ensures ViewOf(RetargetForest(cs, m)) == ViewOf(cs)
  {
    if cs != [] {
      assert RetargetForest(cs, m)[1..] == RetargetForest(cs[1..], m);
      TextOfRetarget(cs[1..], m);
    }
  }

  /**
   * Every Ref whose value is a key and whose first child is a text now holds the mapped id;
   * every other Ref is untouched.
   */
  lemma {:induction false} RetargetNodeRefs(n: Node, m: map<string, string>)
    ensures RefsOfNode(RetargetNode(n, m)) == RetargetViews(RefsOfNode(n), m)
    decreases n, 1
  {
    match n
    case Text(_) =>
    case Element(t, a, cs) =>
      var cs' := RetargetForest(cs, m);
      RetargetForestRefs(cs, m);
      var own := if t == "Ref" then [ViewOf(cs)] else [];
      var r := RetargetNode(n, m);
      var hit := t == "Ref" && TextOf(cs) in m && cs != [] && cs[0].Text?;
      if hit {
        var nc := [Text(m[TextOf(cs)])] + cs'[1..];
        assert r.children == nc;
        assert RefsOf(nc) == RefsOf(cs'[1..]);
        assert cs'[1..] == RetargetForest(cs[1..], m);
        RetargetForestRefs(cs[1..], m);
        TextOfRetarget(cs[1..], m);
        assert nc[0].Text? && nc[1..] == cs'[1..];
        assert ViewOf(nc) == RetargetView(ViewOf(cs), m);
        assert RefsOf(cs) == RefsOf(cs[1..]);
        RetargetViewsOne(ViewOf(cs), m);
        assert RefsOfNode(r) == [ViewOf(nc)] + RefsOf(nc);
      } else {
        assert r.children == cs';
        ViewOfRetarget(cs, m);
        if t == "Ref" {
          RetargetViewsOne(ViewOf(cs), m);
          assert RetargetView(ViewOf(cs), m) == ViewOf(cs);
        }
        assert RetargetViews(own, m) == own;
        assert RefsOfNode(r) == own + RefsOf(cs');
      }
      RetargetViewsAppend(own, RefsOf(cs), m);
  }

  lemma RetargetViewsOne(v: RefView, m: map<string, string>)
    ensures RetargetViews([v], m) == [RetargetView(v, m)]
  {
  }

  lemma RetargetViewsAppend(a: seq<RefView>, b: seq<RefView>, m: map<string, string>)
    ensures RetargetViews(a + b, m) == RetargetViews(a, m) + RetargetViews(b, m)
  {
  }

  lemma {:induction false} RetargetForestRefs(f: seq<Node>, m: map<string, string>)
    ensures RefsOf(RetargetForest(f, m)) == RetargetViews(RefsOf(f), m)
    decreases f, 0
  {
    if f != [] {
      RetargetNodeRefs(f[0], m);
      assert RetargetForest(f, m)[1..] == RetargetForest(f[1..], m);
      RetargetForestRefs(f[1..], m);
      RetargetViewsAppend(RefsOfNode(f[0]), RefsOf(f[1..]), m);
    }
  }

  /** Retargeting leaves every Item's referent where it was. */
  lemma {:induction false} RetargetNodeReferents(n: Node, m: map<string, string>)
    ensures ReferentsOfNode(RetargetNode(n, m)) == ReferentsOfNode(n)
    decreases n, 1
  {
    match n
    case Text(_) =>
    case Element(t, a, cs) =>
      var cs' := RetargetForest(cs, m);
      RetargetForestReferents(cs, m);
      if t == "Ref" && TextOf(cs) in m && cs != [] && cs[0].Text? {
        assert cs'[1..] == RetargetForest(cs[1..], m);
        RetargetForestReferents(cs[1..], m);
        var nc := [Text(m[TextOf(cs)])] + cs'[1..];
        assert nc[0].Text? && nc[1..] == cs'[1..];
        assert ReferentsOf(nc) == ReferentsOf(cs'[1..]);
        assert ReferentsOf(cs) == ReferentsOf(cs[1..]);
      }
  }

  lemma {:induction false} RetargetForestReferents(f: seq<Node>, m: map<string, string>)
    ensures ReferentsOf(RetargetForest(f, m)) == ReferentsOf(f)
    decreases f, 0
  {
    if f != [] {
      RetargetNodeReferents(f[0], m);
      assert RetargetForest(f, m)[1..] == RetargetForest(f[1..], m);
      RetargetForestReferents(f[1..], m);
    }
  }

  /** Relabelling leaves every Ref as it was. */
  lemma {:induction false} RelabelNodeRefs(n: Node, next: nat)
    ensures RefsOfNode(RelabelNode(n, next).0) == RefsOfNode(n)
    decreases n, 1
  {
    match n
    case Text(_) =>
    case Element(t, a, cs) =>
      var k := if OwnReferent(n).Some? then next + 1 else next;
      RelabelForestRefs(cs, k);
      RelabelForestTexts(cs, k);
  }

  lemma {:induction false} RelabelForestRefs(f: seq<Node>, next: nat)
    ensures RefsOf(RelabelForest(f, next).0) == RefsOf(f)
    decreases f, 0
  {
    if f != [] {
      var (h, k) := RelabelNode(f[0], next);
      var (t, k') := RelabelForest(f[1..], k);
      RelabelNodeRefs(f[0], next);
      RelabelForestRefs(f[1..], k);
      assert ([h] + t)[0] == h && ([h] + t)[1..] == t;
    }
  }

  /** Relabelling changes no text and keeps text children in place. */
  lemma {:induction false} RelabelForestTexts(f: seq<Node>, next: nat)
    ensures ViewOf(RelabelForest(f, next).0) == ViewOf(f)
    ensures TextOf(RelabelForest(f, next).0) == TextOf(f)
    decreases f
  {
    if f != [] {
      var (h, k) := RelabelNode(f[0], next);
      var (t, k') := RelabelForest(f[1..], k);
      RelabelForestTexts(f[1..], k);
      assert ([h] + t)[0] == h && ([h] + t)[1..] == t;
      assert h.Text? <==> f[0].Text?;
      assert h.Text? ==> h == f[0];
    }
  }

  // ---------------------------------------------------------------------------------------
  // The frame of the pass: what neither loop may change.

  /**
   * The tree with all that the pass may rewrite blanked: the id of every referent-bearing
   * Item, and the first child of every Ref whose first child is a text.
   */
  function BareNode(n: Node): Node {
    match n
    case Text(_) => n
    case Element(t, a, cs) =>
      var cs' := BareForest(cs);
      Element(t, if OwnReferent(n).Some? then SetAttr(a, "referent", "") else a,
        if t == "Ref" && cs != [] && cs[0].Text? then [Text("")] + cs'[1..] else cs')
  }

  function BareForest(f: seq<Node>): (r: seq<Node>)
    ensures |r| == |f|
  {
    seq(|f|, i requires 0 <= i < |f| => BareNode(f[i]))
  }

  /** Retargeting changes the first child of a hit Ref and nothing else. */
  lemma {:induction false} BareRetargetNode(n: Node, m: map<string, string>)
    ensures BareNode(RetargetNode(n, m)) == BareNode(n)
    decreases n, 1
  {
    match n
    case Text(_) =>
    case Element(t, a, cs) =>
      var cs' := RetargetForest(cs, m);
      BareRetargetForest(cs, m);
      var r := RetargetNode(n, m);
      if t == "Ref" && TextOf(cs) in m && cs != [] && cs[0].Text? {
        var nc := [Text(m[TextOf(cs)])] + cs'[1..];
        assert r == Element(t, a, nc);
        assert BareForest(nc)[1..] == BareForest(cs')[1..] by {
          forall i | 1 <= i < |nc|
            ensures BareForest(nc)[i] == BareForest(cs')[i]
          {
            assert nc[i] == cs'[i];
          }
        }
        assert BareNode(r).children == [Text("")] + BareForest(nc)[1..];
      } else {
        assert r == Element(t, a, cs');
        assert cs' != [] ==> cs'[0] == RetargetNode(cs[0], m);
      }
  }

  lemma {:induction false} BareRetargetForest(f: seq<Node>, m: map<string, string>)
    ensures BareForest(RetargetForest(f, m)) == BareForest(f)
    decreases f, 0
  {
    forall i | 0 <= i < |f|
      ensures BareForest(RetargetForest(f, m))[i] == BareForest(f)[i]
    {
      BareRetargetNode(f[i], m);
    }
  }

  /** Relabelling changes the referent attributes and nothing else. */
  lemma {:induction false} BareRelabelNode(n: Node, next: nat)
    ensures BareNode(RelabelNode(n, next).0) == BareNode(n)
    decreases n, 1
  {
    match n
    case Text(_) =>
    case Element(t, a, cs) =>
      var own := OwnReferent(n).Some?;
      var k := if own then next + 1 else next;
      var cs' := RelabelForest(cs, k).0;
      BareRelabelForest(cs, k);
      var r := RelabelNode(n, next).0;
      assert r.tag == t && r.children == cs';
      if own {
        SetAttrTwice(a, "referent", Referent(next), "");
        assert OwnReferent(r).Some?;
      }
      if cs != [] {
        RelabelForestTexts(cs, k);
        assert cs'[0].Text? <==> cs[0].Text?;
      }
  }

  lemma {:induction false} BareRelabelForest(f: seq<Node>, next: nat)
    ensures BareForest(RelabelForest(f, next).0) == BareForest(f)
    decreases f, 0
  {
    if f != [] {
      var (h, k) := RelabelNode(f[0], next);
      var (t, k') := RelabelForest(f[1..], k);
      BareRelabelNode(f[0], next);
      BareRelabelForest(f[1..], k);
      assert |t| == |f[1..]| by {
        assert |BareForest(t)| == |BareForest(f[1..])|;
      }
      var r := [h] + t;
      forall i | 0 <= i < |f|
        ensures BareNode(r[i]) == BareNode(f[i])
      {
        if i > 0 {
          assert r[i] == t[i - 1] && f[i] == f[1..][i - 1];
          assert BareForest(t)[i - 1] == BareForest(f[1..])[i - 1];
        }
      }
    }
  }

  // ---------------------------------------------------------------------------------------
  // The passes keep the outermost elements of every tag: SelectNodes before them and after
  // them finds the same number of nodes.

  lemma {:induction false} OuterStrip(cs: seq<Node>, tag: string)
    ensures Outer(Strip(cs), tag) == Outer(cs, tag)
  {
    if cs != [] {
      OuterStrip(cs[1..], tag);
      var h := if cs[0].Text? then [] else [cs[0]];
      OuterAppend(h, Strip(cs[1..]), tag);
      if h != [] {
        assert Outer(h, tag) == OuterOf(cs[0], tag) + Outer([], tag) by {
          assert h[0] == cs[0] && h[1..] == [];
        }
      }
    }
  }

  lemma OuterIndented(cs: seq<Node>, level: nat, tag: string)
    requires level >= 1
    ensures Outer(Indented(cs, level), tag) == Outer(cs, tag)
  {
    IndentedLayout(cs, level);
    OuterStrip(Indented(cs, level), tag);
    OuterStrip(cs, tag);
  }

  lemma {:induction false} OuterFixNode(n: Node, tag: string, anc: nat, indent: nat, sel: string)
    requires indent >= 1 && anc >= 1
    ensures |OuterOf(FixNode(n, tag, anc, indent), sel)| == |OuterOf(n, sel)|
    decreases n, 1
  {
    match n
    case Text(_) =>
    case Element(t, a, cs) =>
      if t != sel {
        var cs' := FixForest(cs, tag, anc + 1, indent);
        var r := FixNode(n, tag, anc, indent);
        assert OuterOf(r, sel) == Outer(r.children, sel);
        assert |Outer(r.children, sel)| == |Outer(cs, sel)| by {
          OuterFixForest(cs, tag, anc + 1, indent, sel);
          if t == tag {
            assert r.children == Indented(cs', indent + anc - 1);
            OuterIndented(cs', indent + anc - 1, sel);
          } else {
            assert r.children == cs';
          }
        }
      }
  }

  lemma {:induction false} OuterFixForest(f: seq<Node>, tag: string, anc: nat, indent: nat, sel: string)
    requires indent >= 1 && anc >= 1
    ensures |Outer(FixForest(f, tag, anc, indent), sel)| == |Outer(f, sel)|
    decreases f, 0
  {
    if f != [] {
      OuterFixNode(f[0], tag, anc, indent, sel);
      assert FixForest(f, tag, anc, indent)[1..] == FixForest(f[1..], tag, anc, indent);
      OuterFixForest(f[1..], tag, anc, indent, sel);
    }
  }

  lemma {:induction false} OuterRelabelNode(n: Node, next: nat, sel: string)
    ensures |OuterOf(RelabelNode(n, next).0, sel)| == |OuterOf(n, sel)|
    decreases n, 1
  {
    match n
    case Text(_) =>
    case Element(t, a, cs) =>
      var k := if OwnReferent(n).Some? then next + 1 else next;
      OuterRelabelForest(cs, k, sel);
  }

  lemma {:induction false} OuterRelabelForest(f: seq<Node>, next: nat, sel: string)
    ensures |Outer(RelabelForest(f, next).0, sel)| == |Outer(f, sel)|
    decreases f, 0
  {
    if f != [] {
      var (h, k) := RelabelNode(f[0], next);
      var (t, k') := RelabelForest(f[1..], k);
      OuterRelabelNode(f[0], next, sel);
      OuterRelabelForest(f[1..], k, sel);
      assert ([h] + t)[0] == h && ([h] + t)[1..] == t;
    }
  }

  lemma {:induction false} OuterRetargetNode(n: Node, m: map<string, string>, sel: string)
    ensures |OuterOf(RetargetNode(n, m), sel)| == |OuterOf(n, sel)|
    decreases n, 1
  {
    match n
    case Text(_) =>
    case Element(t, a, cs) =>
      if t != sel {
        var cs' := RetargetForest(cs, m);
        OuterRetargetForest(cs, m, sel);
        if t == "Ref" && TextOf(cs) in m && cs != [] && cs[0].Text? {
          assert cs'[1..] == RetargetForest(cs[1..], m);
          OuterRetargetForest(cs[1..], m, sel);
          var nc := [Text(m[TextOf(cs)])] + cs'[1..];
          assert nc[0].Text? && nc[1..] == cs'[1..];
          assert Outer(nc, sel) == Outer(cs'[1..], sel);
          assert Outer(cs, sel) == Outer(cs[1..], sel);
        }
      }
  }

  lemma {:induction false} OuterRetargetForest(f: seq<Node>, m: map<string, string>, sel: string)
    ensures |Outer(RetargetForest(f, m), sel)| == |Outer(f, sel)|
    decreases f, 0
  {
    if f != [] {
      OuterRetargetNode(f[0], m, sel);
      assert RetargetForest(f, m)[1..] == RetargetForest(f[1..], m);
      OuterRetargetForest(f[1..], m, sel);
    }
  }

  // ---------------------------------------------------------------------------------------
  // What the passes do to the Refs inside the outermost elements of a tag.

  /** Text children hold no Ref. */
  lemma {:induction false} RefsStrip(cs: seq<Node>)
    ensures RefsOf(Strip(cs)) == RefsOf(cs)
  {
    if cs != [] {
      RefsStrip(cs[1..]);
      var h := if cs[0].Text? then [] else [cs[0]];
      RefsAppend(h, Strip(cs[1..]));
    }
  }

  lemma RefsIndented(cs: seq<Node>, level: nat)
    requires level >= 1
    ensures RefsOf(Indented(cs, level)) == RefsOf(cs)
  {
    IndentedLayout(cs, level);
    RefsStrip(Indented(cs, level));
    RefsStrip(cs);
  }

  /** Relaying out the children of other elements keeps each text child where it was. */
  lemma {:induction false} TextsFixForest(f: seq<Node>, tag: string, anc: nat, indent: nat)
    requires indent >= 1 && anc >= 1
    ensures ViewOf(FixForest(f, tag, anc, indent)) == ViewOf(f)
    ensures TextOf(FixForest(f, tag, anc, indent)) == TextOf(f)
  {
    if f != [] {
      assert FixForest(f, tag, anc, indent)[1..] == FixForest(f[1..], tag, anc, indent);
      TextsFixForest(f[1..], tag, anc, indent);
      var h := FixNode(f[0], tag, anc, indent);
      assert h.Text? <==> f[0].Text?;
      assert h.Text? ==> h == f[0];
    }
  }

  /** Relaying out the children of the Items or the Properties leaves every Ref as it was. */
  lemma {:induction false} RefsFixNode(n: Node, tag: string, anc: nat, indent: nat)
    requires indent >= 1 && anc >= 1 && tag != "Ref"
    ensures RefsOfNode(FixNode(n, tag, anc, indent)) == RefsOfNode(n)
    decreases n, 1
  {
    match n
    case Text(_) =>
    case Element(t, a, cs) =>
      var cs' := FixForest(cs, tag, anc + 1, indent);
      RefsFixForest(cs, tag, anc + 1, indent);
      if t == tag {
        RefsIndented(cs', indent + anc - 1);
      } else {
        TextsFixForest(cs, tag, anc + 1, indent);
      }
  }

  lemma {:induction false} RefsFixForest(f: seq<Node>, tag: string, anc: nat, indent: nat)
    requires indent >= 1 && anc >= 1 && tag != "Ref"
    ensures RefsOf(FixForest(f, tag, anc, indent)) == RefsOf(f)
    decreases f, 0
  {
    if f != [] {
      RefsFixNode(f[0], tag, anc, indent);
      assert FixForest(f, tag, anc, indent)[1..] == FixForest(f[1..], tag, anc, indent);
      RefsFixForest(f[1..], tag, anc, indent);
    }
  }

  lemma {:induction false} RefsOuterFixNode(n: Node, tag: string, anc: nat, indent: nat, sel: string)
    requires indent >= 1 && anc >= 1 && tag != "Ref"
    ensures RefsOf(OuterOf(FixNode(n, tag, anc, indent), sel)) == RefsOf(OuterOf(n, sel))
    decreases n, 1
  {
    match n
    case Text(_) =>
    case Element(t, a, cs) =>
      var r := FixNode(n, tag, anc, indent);
      if t == sel {
        RefsSingle(r);
        RefsSingle(n);
        RefsFixNode(n, tag, anc, indent);
      } else {
        var cs' := FixForest(cs, tag, anc + 1, indent);
        assert OuterOf(r, sel) == Outer(r.children, sel);
        RefsOuterFixForest(cs, tag, anc + 1, indent, sel);
        if t == tag {
          assert r.children == Indented(cs', indent + anc - 1);
          OuterIndented(cs', indent + anc - 1, sel);
        } else {
          assert r.children == cs';
        }
      }
  }

  lemma {:induction false} RefsOuterFixForest(f: seq<Node>, tag: string, anc: nat, indent: nat, sel: string)
    requires indent >= 1 && anc >= 1 && tag != "Ref"
    ensures RefsOf(Outer(FixForest(f, tag, anc, indent), sel)) == RefsOf(Outer(f, sel))
    decreases f, 0
  {
    if f != [] {
      var g := FixForest(f, tag, anc, indent);
      RefsOuterFixNode(f[0], tag, anc, indent, sel);
      assert g[1..] == FixForest(f[1..], tag, anc, indent);
      RefsOuterFixForest(f[1..], tag, anc, indent, sel);
      RefsAppend(OuterOf(g[0], sel), Outer(g[1..], sel));
      RefsAppend(OuterOf(f[0], sel), Outer(f[1..], sel));
    }
  }

  lemma {:induction false} RefsOuterRelabelNode(n: Node, next: nat, sel: string)
    ensures RefsOf(OuterOf(RelabelNode(n, next).0, sel)) == RefsOf(OuterOf(n, sel))
    decreases n, 1
  {
    match n
    case Text(_) =>
    case Element(t, a, cs) =>
      if t == sel {
        RefsSingle(RelabelNode(n, next).0);
        RefsSingle(n);
        RelabelNodeRefs(n, next);
      } else {
        var k := if OwnReferent(n).Some? then next + 1 else next;
        RefsOuterRelabelForest(cs, k, sel);
      }
  }

  lemma {:induction false} RefsOuterRelabelForest(f: seq<Node>, next: nat, sel: string)
    ensures RefsOf(Outer(RelabelForest(f, next).0, sel)) == RefsOf(Outer(f, sel))
    decreases f, 0
  {
    if f != [] {
      var (h, k) := RelabelNode(f[0], next);
      var (t, k') := RelabelForest(f[1..], k);
      RefsOuterRelabelNode(f[0], next, sel);
      RefsOuterRelabelForest(f[1..], k, sel);
      assert ([h] + t)[0] == h && ([h] + t)[1..] == t;
      RefsAppend(OuterOf(h, sel), Outer(t, sel));
      RefsAppend(OuterOf(f[0], sel), Outer(f[1..], sel));
    }
  }

  lemma {:induction false} RefsOuterRetargetNode(n: Node, m: map<string, string>, sel: string)
    ensures RefsOf(OuterOf(RetargetNode(n, m), sel)) == RetargetViews(RefsOf(OuterOf(n, sel)), m)
    decreases n, 1
  {
    match n
    case Text(_) =>
    case Element(t, a, cs) =>
      if t == sel {
        RefsSingle(RetargetNode(n, m));
        RefsSingle(n);
        RetargetNodeRefs(n, m);
      } else {
        var cs' := RetargetForest(cs, m);
        RefsOuterRetargetForest(cs, m, sel);
        if t == "Ref" && TextOf(cs) in m && cs != [] && cs[0].Text? {
          assert cs'[1..] == RetargetForest(cs[1..], m);
          RefsOuterRetargetForest(cs[1..], m, sel);
          var nc := [Text(m[TextOf(cs)])] + cs'[1..];
          assert nc[0].Text? && nc[1..] == cs'[1..];
          assert Outer(nc, sel) == Outer(cs'[1..], sel);
          assert Outer(cs, sel) == Outer(cs[1..], sel);
        }
      }
  }

  lemma {:induction false} RefsOuterRetargetForest(f: seq<Node>, m: map<string, string>, sel: string)
    ensures RefsOf(Outer(RetargetForest(f, m), sel)) == RetargetViews(RefsOf(Outer(f, sel)), m)
    decreases f, 0
  {
    if f != [] {
      var g := RetargetForest(f, m);
      RefsOuterRetargetNode(f[0], m, sel);
      assert g[1..] == RetargetForest(f[1..], m);
      RefsOuterRetargetForest(f[1..], m, sel);
      RefsAppend(OuterOf(g[0], sel), Outer(g[1..], sel));
      RefsAppend(OuterOf(f[0], sel), Outer(f[1..], sel));
      RetargetViewsAppend(RefsOf(OuterOf(f[0], sel)), RefsOf(Outer(f[1..], sel)), m);
    }
  }
  // ---------------------------------------------------------------------------------------
  // The id map of the first loop and the whole pass.

  /**
   * `refmap` after the first loop: each old id maps to the new id of the last Item in
   * pre-order that carried it (a later assignment to the same key overwrites). Its keys
   * are exactly the old ids.
   */
  function RefMapOf(olds: seq<string>, start: nat): (r: map<string, string>)
    ensures forall x :: x in r <==> x in olds
    decreases |olds|
  {
    if olds == [] then map[]
    else
      var init := olds[..|olds| - 1];
      assert olds == init + [olds[|olds| - 1]];
      RefMapOf(init, start)[olds[|olds| - 1] := Referent(start + |olds| - 1)]
  }

  /** With no repeated old ids, the k-th old id maps to RBX<start + k>. */
  lemma {:induction false} RefMapDistinct(olds: seq<string>, start: nat, k: nat)
    requires Distinct(olds) && k < |olds|
    ensures olds[k] in RefMapOf(olds, start) && RefMapOf(olds, start)[olds[k]] == Referent(start + k)
    decreases |olds|
  {
    var last := |olds| - 1;
    if k < last {
      var init := olds[..last];
      assert Distinct(init) by {
        forall i, j | 0 <= i < j < |init|
          ensures init[i] != init[j]
        {
          assert init[i] == olds[i] && init[j] == olds[j];
        }
      }
      RefMapDistinct(init, start, k);
      assert init[k] == olds[k] && olds[k] != olds[last];
    }
  }

  /**
   * One run of the pass over a forest, numbering from `start`: the relabelled and
   * retargeted forest, and the counter after it.
   */
  function Renumber(f: seq<Node>, start: nat): (r: (nat, seq<Node>))
    ensures r.0 == start + |ReferentsOf(f)| && |r.1| == |f|
  {
    var olds := ReferentsOf(f);
    var (f1, next) := RelabelForest(f, start);
    (next, RetargetForest(f1, RefMapOf(olds, start)))
  }

  /**
   * What the pass achieves: the ids are RBX<start>... in pre-order, the counter has advanced
   * by their number, each Ref has been rewritten through the map of old to new ids, and
   * nothing else has changed.
   */
  lemma RenumberSpec(f: seq<Node>, start: nat)
    ensures Renumber(f, start).0 == start + |ReferentsOf(f)|
    ensures forall sel :: |Outer(Renumber(f, start).1, sel)| == |Outer(f, sel)|
    ensures ReferentsOf(Renumber(f, start).1) == Ids(start, |ReferentsOf(f)|)
    ensures RefsOf(Renumber(f, start).1) == RetargetViews(RefsOf(f), RefMapOf(ReferentsOf(f), start))
    ensures BareForest(Renumber(f, start).1) == BareForest(f)
  {
    var m := RefMapOf(ReferentsOf(f), start);
    var f1 := RelabelForest(f, start).0;
    BareRelabelForest(f, start);
    BareRetargetForest(f1, m);
    RelabelForestReferents(f, start);
    RetargetForestReferents(f1, m);
    RelabelForestRefs(f, start);
    RetargetForestRefs(f1, m);
    forall sel
      ensures |Outer(Renumber(f, start).1, sel)| == |Outer(f, sel)|
    {
      OuterRelabelForest(f, start, sel);
      OuterRetargetForest(f1, m, sel);
    }
  }

  /**
   * The pass as the Go code runs it: the first loop walks the referent-bearing Items in
   * pre-order, recording old id to new id and advancing the counter; the second loop
   * rewrites the Refs through that map.
   */
  method RenumberPass(f: seq<Node>, start: nat) returns (next: nat, out: seq<Node>)
    ensures (next, out) == Renumber(f, start)
  {
    var olds := ReferentsOf(f);
    var refmap: map<string, string> := map[];
    next := start;
    var i := 0;
    while i < |olds|
      invariant 0 <= i <= |olds|
      invariant next == start + i
      invariant refmap == RefMapOf(olds[..i], start)
    {
      assert olds[..i + 1][..i] == olds[..i];
      refmap := refmap[olds[i] := Referent(next)];
      next := next + 1;
      i := i + 1;
    }
    assert olds[..i] == olds;
    var relabelled := RelabelForest(f, start).0;
    out := RetargetForest(relabelled, refmap);
  }
}
