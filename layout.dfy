/**
 * The layout normaliser: fixIndentation (writer.go:34-62) and the whitespace the writer
 * puts between children.
 */
module Layout {
  import opened Xml

  /** The element children of a child list, in order (the text children removed). */
  function Strip(cs: seq<Node>): (r: seq<Node>)
    ensures |r| <= |cs|
    ensures forall i :: 0 <= i < |r| ==> r[i].Element?
  {
    if cs == [] then []
    else (if cs[0].Text? then [] else [cs[0]]) + Strip(cs[1..])
  }

  predicate AllElements(s: seq<Node>) {
    forall i :: 0 <= i < |s| ==> s[i].Element?
  }

  lemma {:induction false} StripAppend(a: seq<Node>, b: seq<Node>)
    ensures Strip(a + b) == Strip(a) + Strip(b)
  {
    if a == [] {
      assert a + b == b;
    } else {
      assert (a + b)[0] == a[0] && (a + b)[1..] == a[1..] + b;
      StripAppend(a[1..], b);
    }
  }

  lemma {:induction false} StripElements(s: seq<Node>)
    requires AllElements(s)
    ensures Strip(s) == s
  {
    if s != [] {
      StripElements(s[1..]);
    }
  }

  /** Each element preceded by the same leading whitespace: [L, e0, L, e1, ...]. */
  function Laid(elems: seq<Node>, level: nat): (r: seq<Node>)
    ensures |r| == 2 * |elems|
  {
    seq(2 * |elems|, i requires 0 <= i < 2 * |elems| => if i % 2 == 0 then Leading(level) else elems[i / 2])
  }

  lemma LaidAt(elems: seq<Node>, level: nat)
    ensures forall k :: 0 <= k < |elems| ==>
      Laid(elems, level)[2 * k] == Leading(level) && Laid(elems, level)[2 * k + 1] == elems[k]
  {
    forall k | 0 <= k < |elems|
      ensures Laid(elems, level)[2 * k] == Leading(level) && Laid(elems, level)[2 * k + 1] == elems[k]
    {
      assert (2 * k + 1) / 2 == k && (2 * k) % 2 == 0;
    }
  }

  lemma LaidCons(elems: seq<Node>, level: nat)
    requires elems != []
    ensures Laid(elems, level) == [Leading(level), elems[0]] + Laid(elems[1..], level)
  {
  }

  lemma LaidSnoc(elems: seq<Node>, x: Node, level: nat)
    ensures Laid(elems + [x], level) == Laid(elems, level) + [Leading(level), x]
  {
  }

  lemma {:induction false} StripLaid(elems: seq<Node>, level: nat)
    requires AllElements(elems)
    ensures Strip(Laid(elems, level)) == elems
    decreases |elems|
  {
    if elems != [] {
      LaidCons(elems, level);
      StripLaid(elems[1..], level);
      assert [Leading(level), elems[0]] + Laid(elems[1..], level)
          == [Leading(level)] + ([elems[0]] + Laid(elems[1..], level));
      StripAppend([Leading(level)], [elems[0]] + Laid(elems[1..], level));
      StripAppend([elems[0]], Laid(elems[1..], level));
    }
  }

  /**
   * What fixIndentation makes of one node's children, for the node's indentation `level`
   * (indent + ind in the Go code): the element children each preceded by a newline and
   * `level` tabs, then a newline and `level - 1` tabs before the closing tag.
   */
  function Indented(cs: seq<Node>, level: nat): (r: seq<Node>)
    requires level >= 1
    ensures |r| == 2 * |Strip(cs)| + 1
  {
    Laid(Strip(cs), level) + [Leading(level - 1)]
  }

  lemma SplitAround(cs: seq<Node>, i: nat)
    requires i < |cs|
    ensures cs == cs[..i] + ([cs[i]] + cs[i + 1..])
  {
    assert cs == cs[..i] + cs[i..];
    assert cs[i..] == [cs[i]] + cs[i + 1..];
  }

  lemma StripText(t: Node)
    requires t.Text?
    ensures Strip([t]) == []
  {
    assert [t][1..] == [];
  }

  lemma StripDrop(front: seq<Node>, t: Node, back: seq<Node>)
    requires t.Text?
    ensures Strip(front + ([t] + back)) == Strip(front + back)
  {
    StripAppend(front, [t] + back);
    StripAppend([t], back);
    StripText(t);
    StripAppend(front, back);
  }

  /** Removing a text child leaves the element children as they were. */
  lemma StripRemoveText(cs: seq<Node>, i: nat)
    requires i < |cs| && cs[i].Text?
    ensures Strip(cs[..i] + cs[i + 1..]) == Strip(cs)
  {
    SplitAround(cs, i);
    StripDrop(cs[..i], cs[i], cs[i + 1..]);
  }

  /** One step of the insertion loop: whitespace goes before the next element. */
  lemma LaidStep(elems: seq<Node>, j: nat, level: nat)
    requires j < |elems|
    ensures InsertAt(Laid(elems[..j], level) + elems[j..], Leading(level), 2 * j)
         == Laid(elems[..j + 1], level) + elems[j + 1..]
  {
    var cs := Laid(elems[..j], level) + elems[j..];
    assert cs[..2 * j] == Laid(elems[..j], level);
    assert cs[2 * j..] == elems[j..];
    assert elems[..j + 1] == elems[..j] + [elems[j]];
    LaidSnoc(elems[..j], elems[j], level);
    assert elems[j..] == [elems[j]] + elems[j + 1..];
  }

  /**
   * The loops of fixIndentation (writer.go:36-45, 55-61) on one node's children: remove
   * every text child, insert leading whitespace before each remaining child, and append
   * the closing whitespace.
   */
  method FixIndentation(children: seq<Node>, level: nat) returns (cs: seq<Node>)
    requires level >= 1
    ensures cs == Indented(children, level)
  {
    var elems := RemoveText(children);
    cs := InsertLeading(elems, level);
    cs := cs + [Leading(level - 1)];
  }

  /** The first loop of writer.go:37-45: every text child removed, the elements kept in order. */
  method RemoveText(children: seq<Node>) returns (cs: seq<Node>)
    ensures cs == Strip(children)
  {
    cs := children;
    var i := 0;
    while i < |cs|
      invariant 0 <= i <= |cs|
      invariant Strip(cs) == Strip(children)
      invariant AllElements(cs[..i])
      decreases |cs| - i
    {
      if cs[i].Text? {
        DropStep(cs, i);
        cs := cs[..i] + cs[i + 1..];
      } else {
        KeepStep(cs, i);
        i := i + 1;
      }
    }
    assert cs[..i] == cs;
    StripElements(cs);
  }

  lemma DropStep(cs: seq<Node>, i: nat)
    requires i < |cs| && cs[i].Text? && AllElements(cs[..i])
    ensures Strip(cs[..i] + cs[i + 1..]) == Strip(cs)
    ensures AllElements((cs[..i] + cs[i + 1..])[..i])
  {
    StripRemoveText(cs, i);
    assert (cs[..i] + cs[i + 1..])[..i] == cs[..i];
  }

  lemma KeepStep(cs: seq<Node>, i: nat)
    requires i < |cs| && cs[i].Element? && AllElements(cs[..i])
    ensures AllElements(cs[..i + 1])
  {
    assert cs[..i + 1] == cs[..i] + [cs[i]];
  }

  /** The second loop of writer.go:54-58: leading whitespace inserted before each element. */
  method InsertLeading(elems: seq<Node>, level: nat) returns (cs: seq<Node>)
    ensures cs == Laid(elems, level)
  {
    cs := elems;
    var n := |cs| * 2;
    var i := 0;
    ghost var j := 0;
    while i < n
      invariant 0 <= j <= |elems| && i == 2 * j && n == 2 * |elems|
      invariant cs == Laid(elems[..j], level) + elems[j..]
    {
      LaidStep(elems, j, level);
      cs := InsertAt(cs, Leading(level), i);
      i, j := i + 2, j + 1;
    }
    assert elems[..j] == elems;
    assert elems[j..] == [];
  }

  /**
   * The layout fixIndentation produces, position by position; it keeps the element
   * children and their order, and running it again changes nothing.
   */
  lemma IndentedLayout(cs: seq<Node>, level: nat)
    requires level >= 1
    ensures var r := Indented(cs, level);
      && |r| == 2 * |Strip(cs)| + 1
      && (forall k :: 0 <= k < |Strip(cs)| ==> r[2 * k] == Leading(level) && r[2 * k + 1] == Strip(cs)[k])
      && r[|r| - 1] == Leading(level - 1)
      && Strip(r) == Strip(cs)
      && Indented(r, level) == r
  {
    var r := Indented(cs, level);
    LaidAt(Strip(cs), level);
    StripAppend(Laid(Strip(cs), level), [Leading(level - 1)]);
    StripLaid(Strip(cs), level);
  }

  /**
   * fixIndentation applied to every element with this tag in a forest whose top-level
   * nodes have `anc` ancestors; `ind` in the Go code is the ancestor count minus 1.
   */
  function FixNode(n: Node, tag: string, anc: nat, indent: nat): (r: Node)
    requires indent >= 1 && anc >= 1
    ensures r.Text? <==> n.Text?
    ensures n.Text? ==> r == n
    ensures r.Element? ==> r.tag == n.tag && r.attrs == n.attrs
  {
    match n
    case Text(_) => n
    case Element(t, a, cs) =>
      var cs' := FixForest(cs, tag, anc + 1, indent);
      Element(t, a, if t == tag then Indented(cs', indent + anc - 1) else cs')
  }

  function FixForest(f: seq<Node>, tag: string, anc: nat, indent: nat): (r: seq<Node>)
    requires indent >= 1 && anc >= 1
    ensures |r| == |f|
  {
    seq(|f|, i requires 0 <= i < |f| => FixNode(f[i], tag, anc, indent))
  }

  lemma FixForestAppend(a: seq<Node>, b: seq<Node>, tag: string, anc: nat, indent: nat)
    requires indent >= 1 && anc >= 1
    ensures FixForest(a + b, tag, anc, indent) == FixForest(a, tag, anc, indent) + FixForest(b, tag, anc, indent)
  {
  }

  lemma {:induction false} FixStrip(s: seq<Node>, tag: string, anc: nat, indent: nat)
    requires indent >= 1 && anc >= 1
    ensures Strip(FixForest(s, tag, anc, indent)) == FixForest(Strip(s), tag, anc, indent)
  {
    if s != [] {
      assert s == [s[0]] + s[1..];
      FixForestAppend([s[0]], s[1..], tag, anc, indent);
      StripAppend([FixNode(s[0], tag, anc, indent)], FixForest(s[1..], tag, anc, indent));
      FixStrip(s[1..], tag, anc, indent);
      var h := if s[0].Text? then [] else [s[0]];
      assert Strip(s) == h + Strip(s[1..]);
      FixForestAppend(h, Strip(s[1..]), tag, anc, indent);
    }
  }

  lemma FixLaid(elems: seq<Node>, level: nat, tag: string, anc: nat, indent: nat)
    requires indent >= 1 && anc >= 1
    ensures FixForest(Laid(elems, level), tag, anc, indent) == Laid(FixForest(elems, tag, anc, indent), level)
  {
  }

  /** Normalising the children and then the layout is normalising the layout of normalised children. */
  lemma FixIndented(cs: seq<Node>, level: nat, tag: string, anc: nat, indent: nat)
    requires indent >= 1 && anc >= 1 && level >= 1
    ensures FixForest(Indented(cs, level), tag, anc, indent) == Indented(FixForest(cs, tag, anc, indent), level)
  {
    FixForestAppend(Laid(Strip(cs), level), [Leading(level - 1)], tag, anc, indent);
    FixLaid(Strip(cs), level, tag, anc, indent);
    FixStrip(cs, tag, anc, indent);
  }

  /** Running the normaliser again over a normalised subtree changes nothing. */
  lemma {:induction false} FixNodeIdempotent(n: Node, tag: string, anc: nat, indent: nat)
    requires indent >= 1 && anc >= 1
    ensures FixNode(FixNode(n, tag, anc, indent), tag, anc, indent) == FixNode(n, tag, anc, indent)
    decreases n, 1
  {
    match n
    case Text(_) =>
    case Element(t, a, cs) =>
      var cs' := FixForest(cs, tag, anc + 1, indent);
      FixForestIdempotent(cs, tag, anc + 1, indent);
      if t == tag {
        FixIndentedIdempotent(cs', indent + anc - 1, tag, anc + 1, indent);
      }
  }

  /** A normalised child list, laid out, comes through normalising and laying out unchanged. */
  lemma FixIndentedIdempotent(cs: seq<Node>, level: nat, tag: string, anc: nat, indent: nat)
    requires indent >= 1 && anc >= 1 && level >= 1
    requires FixForest(cs, tag, anc, indent) == cs
    ensures Indented(FixForest(Indented(cs, level), tag, anc, indent), level) == Indented(cs, level)
  {
    FixIndented(cs, level, tag, anc, indent);
    assert FixForest(Indented(cs, level), tag, anc, indent) == Indented(cs, level);
    IndentedLayout(cs, level);
  }

  lemma {:induction false} FixForestIdempotent(f: seq<Node>, tag: string, anc: nat, indent: nat)
    requires indent >= 1 && anc >= 1
    ensures FixForest(FixForest(f, tag, anc, indent), tag, anc, indent) == FixForest(f, tag, anc, indent)
    decreases f, 0
  {
    forall i | 0 <= i < |f|
      ensures FixNode(FixNode(f[i], tag, anc, indent), tag, anc, indent) == FixNode(f[i], tag, anc, indent)
    {
      FixNodeIdempotent(f[i], tag, anc, indent);
    }
  }
}
