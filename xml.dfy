/**
 * The generic XML tree the writer builds (the go-pkg-xmlx node, as a value), and the
 * library operations writer.go relies on.
 */
module Xml {
  import opened Wrappers
  import opened Strings

  datatype Attr = Attr(name: string, value: string)

  /** An element with its tag, attributes in order and children in order, or a text node. */
  datatype Node = Element(tag: string, attrs: seq<Attr>, children: seq<Node>) | Text(value: string)

  /** leading (writer.go:30-32): a text node holding a newline followed by `n` tabs. */
  function Leading(n: nat): (r: Node)
    ensures r.Text? && |r.value| == n + 1 && r.value[0] == '\n'
    ensures forall i :: 1 <= i <= n ==> r.value[i] == '\t'
  {
    Text("\n" + Repeat('\t', n))
  }

  /**
   * AddChildAt(x, -2) as writer.go uses it: insert `x` just before the current last child.
   * This is the library's behaviour as the writer assumes it.
   */
  function InsertBeforeLast(cs: seq<Node>, x: Node): (r: seq<Node>)
    ensures |r| == |cs| + 1
  {
    if cs == [] then [x] else cs[..|cs| - 1] + [x, cs[|cs| - 1]]
  }

  /** The new child sits just before the old last child, and everything else keeps its place. */
  lemma InsertBeforeLastAt(cs: seq<Node>, x: Node)
    requires cs != []
    ensures var r := InsertBeforeLast(cs, x);
      r[..|cs| - 1] == cs[..|cs| - 1] && r[|cs| - 1] == x && r[|cs|] == cs[|cs| - 1]
  {
  }

  /** AddChildAt(x, i) for an index inside the list: insert `x` at position i. */
  function InsertAt(cs: seq<Node>, x: Node, i: nat): (r: seq<Node>)
    requires i <= |cs|
    ensures |r| == |cs| + 1 && r[i] == x
    ensures r[..i] == cs[..i] && r[i + 1..] == cs[i..]
  {
    cs[..i] + [x] + cs[i..]
  }

  /** HasAttr / As: the value of the first attribute with this name, if any. */
  function GetAttr(attrs: seq<Attr>, name: string): Option<string>
  {
    if attrs == [] then None
    else if attrs[0].name == name then Some(attrs[0].value)
    else GetAttr(attrs[1..], name)
  }

  /** A value GetAttr finds is that of the first attribute with this name. */
  lemma {:induction false} GetAttrFirst(attrs: seq<Attr>, name: string)
    requires GetAttr(attrs, name).Some?
    ensures exists j ::
      && 0 <= j < |attrs| && attrs[j] == Attr(name, GetAttr(attrs, name).value)
      && forall k :: 0 <= k < j ==> attrs[k].name != name
  {
    if attrs[0].name != name {
      var rest := attrs[1..];
      GetAttrFirst(rest, name);
      var j :|
        && 0 <= j < |rest| && rest[j] == Attr(name, GetAttr(rest, name).value)
        && forall k :: 0 <= k < j ==> rest[k].name != name;
      assert attrs[j + 1] == rest[j];
      forall k | 0 <= k < j + 1
        ensures attrs[k].name != name
      {
        if k > 0 {
          assert attrs[k] == rest[k - 1];
        }
      }
    } else {
      assert attrs[0] == Attr(name, attrs[0].value);
    }
  }

  /** No attribute with this name: GetAttr finds none. */
  lemma {:induction false} GetAttrAbsent(attrs: seq<Attr>, name: string)
    requires forall j :: 0 <= j < |attrs| ==> attrs[j].name != name
    ensures GetAttr(attrs, name).None?
  {
    if attrs != [] {
      GetAttrAbsent(attrs[1..], name);
    }
  }

  /** SetAttr: overwrite the first attribute with this name, or append a new one. */
  function SetAttr(attrs: seq<Attr>, name: string, value: string): (r: seq<Attr>)
    ensures GetAttr(r, name) == Some(value)
    ensures forall n :: n != name ==> GetAttr(r, n) == GetAttr(attrs, n)
    ensures GetAttr(attrs, name).None? ==> r == attrs + [Attr(name, value)]
    ensures GetAttr(attrs, name).Some? ==> |r| == |attrs|
  {
    if attrs == [] then [Attr(name, value)]
    else if attrs[0].name == name then [Attr(name, value)] + attrs[1..]
    else [attrs[0]] + SetAttr(attrs[1..], name, value)
  }

  /** GetValue: the text children's values, concatenated in order. */
  function TextOf(cs: seq<Node>): (r: string)
    ensures (forall i :: 0 <= i < |cs| ==> cs[i].Element?) ==> r == ""
    ensures |cs| == 1 && cs[0].Text? ==> r == cs[0].value
  {
    if cs == [] then ""
    else (if cs[0].Text? then cs[0].value else "") + TextOf(cs[1..])
  }

  /**
   * SelectNodes: the elements with this tag that lie inside no other such element, in
   * document order (library behaviour as the writer uses it).
   */
  function OuterOf(n: Node, tag: string): (r: seq<Node>)
    ensures forall i :: 0 <= i < |r| ==> r[i].Element? && r[i].tag == tag
  {
    match n
    case Text(_) => []
    case Element(t, _, cs) => if t == tag then [n] else Outer(cs, tag)
  }

  function Outer(f: seq<Node>, tag: string): (r: seq<Node>)
    ensures forall i :: 0 <= i < |r| ==> r[i].Element? && r[i].tag == tag
  {
    if f == [] then [] else OuterOf(f[0], tag) + Outer(f[1..], tag)
  }

  lemma {:induction false} OuterAppend(a: seq<Node>, b: seq<Node>, tag: string)
    ensures Outer(a + b, tag) == Outer(a, tag) + Outer(b, tag)
  {
    if a == [] {
      assert a + b == b;
    } else {
      assert (a + b)[0] == a[0] && (a + b)[1..] == a[1..] + b;
      OuterAppend(a[1..], b, tag);
    }
  }
}
