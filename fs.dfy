/**
 * The directory tree the writer reads, as a value, and the order readDir lists a directory
 * in (writer.go:281-308).
 */
module Fs {
  import opened Wrappers
  import opened Strings
  import opened Xml

  /**
   * A directory entry. A file's content is None when reading it fails; `model` is what the
   * XML library makes of the file when it is loaded as a model, None when that fails.
   */
  datatype Entry =
    | File(name: string, content: Option<string>, model: Option<seq<Node>>)
    | Dir(name: string, listing: Listing)

  /** A directory's entries as Readdir returns them (in no particular order), or a failure. */
  datatype Listing = Unreadable | Listed(entries: seq<Entry>)

  /** byName.Less (writer.go:299-308): files before directories, then by name. */
  predicate Less(a: Entry, b: Entry): (r: bool)
    ensures r && a.Dir? ==> b.Dir?
    ensures a.File? && b.Dir? ==> r
  {
    if a.Dir? == b.Dir? then Below(a.name, b.name) else b.Dir?
  }

  lemma LessIrreflexive(a: Entry)
    ensures !Less(a, a)
  {
    BelowIrreflexive(a.name);
  }

  lemma LessAsymmetric(a: Entry, b: Entry)
    ensures !(Less(a, b) && Less(b, a))
  {
    BelowAsymmetric(a.name, b.name);
  }

  lemma LessTransitive(a: Entry, b: Entry, c: Entry)
    requires Less(a, b) && Less(b, c)
    ensures Less(a, c)
  {
    if a.Dir? == b.Dir? && b.Dir? == c.Dir? {
      BelowTransitive(a.name, b.name, c.name);
    }
  }

  /** Entries with different names are always ordered one way or the other. */
  lemma LessTotal(a: Entry, b: Entry)
    requires a.name != b.name
    ensures Less(a, b) || Less(b, a)
  {
    BelowTotal(a.name, b.name);
  }

  /** Incomparability is transitive: Less is a strict weak order, as sort.Sort needs. */
  lemma LessNegativeTransitive(a: Entry, b: Entry, c: Entry)
    requires Less(a, c)
    ensures Less(a, b) || Less(b, c)
  {
    if a.Dir? == b.Dir? && b.Dir? == c.Dir? {
      BelowTotal(a.name, b.name);
      BelowTotal(b.name, c.name);
      if !Below(a.name, b.name) && !Below(b.name, c.name) {
        if a.name != b.name {
          BelowTransitive(c.name, b.name, a.name);
        } else if b.name != c.name {
          BelowTransitive(c.name, b.name, a.name);
        }
        BelowAsymmetric(a.name, c.name);
      }
    }
  }

  /** No entry is ordered before an entry that precedes it. */
  predicate Sorted(s: seq<Entry>) {
    forall i, j :: 0 <= i < j < |s| ==> !Less(s[j], s[i])
  }

  /** Insertion of one entry into a sorted listing, before the first entry not below it. */
  function Insert(x: Entry, s: seq<Entry>): (r: seq<Entry>)
    ensures multiset(r) == multiset(s) + multiset{x} && |r| == |s| + 1
  {
    if s == [] then [x]
    else if Less(s[0], x) then
      assert s == [s[0]] + s[1..];
      [s[0]] + Insert(x, s[1..])
    else [x] + s
  }

  lemma ConsSorted(h: Entry, t: seq<Entry>)
    requires Sorted(t)
    requires forall k :: 0 <= k < |t| ==> !Less(t[k], h)
    ensures Sorted([h] + t)
  {
    var r := [h] + t;
    forall i, j | 0 <= i < j < |r|
      ensures !Less(r[j], r[i])
    {
      assert r[j] == t[j - 1];
      if i > 0 {
        assert r[i] == t[i - 1];
      }
    }
  }

  lemma SortedTail(s: seq<Entry>)
    requires Sorted(s) && s != []
    ensures Sorted(s[1..])
  {
    forall p, q | 0 <= p < q < |s[1..]|
      ensures !Less(s[1..][q], s[1..][p])
    {
      assert s[1..][p] == s[p + 1] && s[1..][q] == s[q + 1];
    }
  }

  lemma {:induction false} InsertSorted(x: Entry, s: seq<Entry>)
    requires Sorted(s)
    ensures Sorted(Insert(x, s))
  {
    if s != [] {
      if Less(s[0], x) {
        SortedTail(s);
        InsertSorted(x, s[1..]);
        var t := Insert(x, s[1..]);
        forall k | 0 <= k < |t|
          ensures !Less(t[k], s[0])
        {
          assert t[k] in multiset(t);
          if t[k] == x {
            LessAsymmetric(x, s[0]);
          } else {
            assert t[k] in multiset(s[1..]);
            var j :| 0 <= j < |s[1..]| && s[1..][j] == t[k];
            assert s[j + 1] == t[k];
          }
        }
        ConsSorted(s[0], t);
      } else {
        forall k | 0 <= k < |s|
          ensures !Less(s[k], x)
        {
          if k > 0 && Less(s[k], x) {
            LessNegativeTransitive(s[k], s[0], x);
          }
        }
        ConsSorted(x, s);
      }
    }
  }

  /** The sort in readDir: the same entries, in byName order. */
  function SortByName(s: seq<Entry>): (r: seq<Entry>)
    ensures Sorted(r) && multiset(r) == multiset(s) && |r| == |s|
  {
    if s == [] then []
    else
      assert s == [s[0]] + s[1..];
      var t := SortByName(s[1..]);
      InsertSorted(s[0], t);
      Insert(s[0], t)
  }

  /** readDir: the sorted listing, or the failure to list. */
  function ReadDir(d: Entry): (r: Option<seq<Entry>>)
    requires d.Dir?
    ensures r.None? <==> d.listing.Unreadable?
    ensures r.Some? ==> Sorted(r.value) && multiset(r.value) == multiset(d.listing.entries)
  {
    match d.listing
    case Unreadable => None
    case Listed(es) => Some(SortByName(es))
  }

  /**
   * In a sorted listing every file comes before every directory, names never descend
   * within a group, and they strictly ascend when the names are distinct.
   */
  lemma SortedGroups(s: seq<Entry>, i: nat, j: nat)
    requires Sorted(s) && i < j < |s|
    ensures s[i].Dir? ==> s[j].Dir?
    ensures s[i].Dir? == s[j].Dir? ==> !Below(s[j].name, s[i].name)
    ensures s[i].Dir? == s[j].Dir? && s[i].name != s[j].name ==> Below(s[i].name, s[j].name)
  {
    BelowTotal(s[i].name, s[j].name);
  }

  predicate DistinctNames(s: seq<Entry>) {
    forall i, j :: 0 <= i < j < |s| ==> s[i].name != s[j].name
  }

  /** Two sorted arrangements of the same entries with distinct names start alike. */
  lemma SameHead(a: seq<Entry>, b: seq<Entry>)
    requires Sorted(a) && Sorted(b) && multiset(a) == multiset(b) && DistinctNames(a)
    requires a != [] && b != []
    ensures a[0] == b[0]
  {
    assert a[0] in multiset(b) && b[0] in multiset(a);
    var i :| 0 <= i < |b| && b[i] == a[0];
    var j :| 0 <= j < |a| && a[j] == b[0];
    if a[0] != b[0] {
      assert i > 0 && j > 0;
      assert a[0].name != a[j].name;
      assert !Less(a[j], a[0]) && !Less(b[i], b[0]);
      LessTotal(a[0], a[j]);
    }
  }

  lemma SameTail(a: seq<Entry>, b: seq<Entry>)
    requires multiset(a) == multiset(b) && a != [] && b != [] && a[0] == b[0]
    ensures multiset(a[1..]) == multiset(b[1..])
  {
    assert a == [a[0]] + a[1..] && b == [b[0]] + b[1..];
    var p, q := multiset(a[1..]), multiset(b[1..]);
    assert multiset(a) == multiset{a[0]} + p;
    assert multiset(b) == multiset{a[0]} + q;
    forall y
      ensures p[y] == q[y]
    {
      assert (multiset{a[0]} + p)[y] == multiset{a[0]}[y] + p[y];
      assert (multiset{a[0]} + q)[y] == multiset{a[0]}[y] + q[y];
    }
  }

  /**
   * sort.Sort is not stable, but entries of one directory have distinct names, and then
   * there is only one sorted arrangement: any correct sort gives the listing SortByName gives.
   */
  lemma {:induction false} SortedUnique(a: seq<Entry>, b: seq<Entry>)
    requires Sorted(a) && Sorted(b) && multiset(a) == multiset(b) && DistinctNames(a)
    ensures a == b
    decreases |a|
  {
    assert |a| == |multiset(a)| == |b|;
    if a != [] {
      SameHead(a, b);
      SameTail(a, b);
      assert DistinctNames(a[1..]) by {
        forall p, q | 0 <= p < q < |a[1..]|
          ensures a[1..][p].name != a[1..][q].name
        {
          assert a[1..][p] == a[p + 1] && a[1..][q] == a[q + 1];
        }
      }
      SortedTail(a);
      SortedTail(b);
      SortedUnique(a[1..], b[1..]);
      assert a == [a[0]] + a[1..] && b == [b[0]] + b[1..];
    }
  }
}
