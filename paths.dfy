/** File-name splitting: filepath.Ext and the writer's splitName (writer.go:310-313). */
module Paths {

  /** No '.' stands in the last path element of `s` (every '.' is followed by a '/'). */
  predicate NoExtension(s: string) {
    forall k :: 0 <= k < |s| && s[k] == '.' ==> '/' in s[k + 1..]
  }

  /**
   * filepath.Ext with '/' as the path separator: the suffix of `s` that starts at the
   * last '.' of its last path element, or "" when that element has no '.'.
   */
  function Ext(s: string): (ext: string)
    ensures |ext| <= |s| && s[|s| - |ext|..] == ext
    ensures ext == "" || ext[0] == '.'
    ensures forall k :: 1 <= k < |ext| ==> ext[k] != '.' && ext[k] != '/'
    ensures ext == "" <==> NoExtension(s)
  {
    if s == [] then ""
    else
      var last := s[|s| - 1];
      var init := s[..|s| - 1];
      if last == '/' then
        ""
      else if last == '.' then
        assert !NoExtension(s) by { assert s[|s| - 1 + 1..] == []; }
        "."
      else
        var e := Ext(init);
        assert s[..|s| - 1 + 1] == s;
        if e == "" then "" else e + [last]
  }

  /** writer.go's splitName: the base name and the extension, which together give `s` back. */
  function SplitName(s: string): (r: (string, string))
    ensures r.0 + r.1 == s
    ensures r.1 == "" || r.1[0] == '.'
    ensures forall k :: 1 <= k < |r.1| ==> r.1[k] != '.' && r.1[k] != '/'
    ensures r.1 == "" <==> NoExtension(s)
  {
    var ext := Ext(s);
    (s[..|s| - |ext|], ext)
  }

  /** A word with no '.' and no '/', usable as an extension after a '.'. */
  predicate Plain(w: string) {
    forall k :: 0 <= k < |w| ==> w[k] != '.' && w[k] != '/'
  }

  /**
   * A name ending in '.' + w, with w plain, splits exactly there; this is what makes
   * "x.module.lua" split into "x.module" and ".lua".
   */
  lemma SplitNameAt(b: string, w: string)
    requires Plain(w)
    ensures SplitName(b + "." + w) == (b, "." + w)
  {
    var s := b + "." + w;
    var ext := Ext(s);
    assert s[|b|] == '.' && s[|b| + 1..] == w;
    assert ext != "";
    var start := |s| - |ext|;
    assert s[start..] == ext;
    assert start <= |b| by {
      assert ext[0] == s[start];
    }
    assert start >= |b|;
    assert ext == s[|b|..] == "." + w;
    assert s[..|s| - |ext|] == b;
  }
}
