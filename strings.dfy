/**
 * Strings as the Go code uses them: repetition, decimal formatting of counters
 * (strconv.Itoa), the referent ids built from them, and Go's ordering of strings.
 */
module Strings {

  /** strings.Repeat of a one-character string. */
  function Repeat(c: char, n: nat): (r: string)
    ensures |r| == n
    ensures forall i :: 0 <= i < n ==> r[i] == c
  {
    if n == 0 then "" else Repeat(c, n - 1) + [c]
  }

  predicate IsDigit(c: char) {
    '0' <= c <= '9'
  }

  predicate AllDigits(s: string) {
    forall i :: 0 <= i < |s| ==> IsDigit(s[i])
  }

  function DigitChar(d: nat): (c: char)
    requires d < 10
    ensures IsDigit(c) && (c as int) - ('0' as int) == d
  {
    (('0' as int) + d) as char
  }

  function DigitValue(c: char): (d: nat)
    requires IsDigit(c)
    ensures d < 10 && DigitChar(d) == c
  {
    (c as int) - ('0' as int)
  }

  /** strconv.Itoa for a non-negative counter: decimal digits, no sign, no leading zeros. */
  function Itoa(n: nat): (r: string)
    ensures |r| > 0 && AllDigits(r)
    ensures r[0] == '0' ==> n == 0 && r == "0"
    decreases n
  {
    if n < 10 then [DigitChar(n)] else Itoa(n / 10) + [DigitChar(n % 10)]
  }

  /** The value of a string of decimal digits (the inverse of Itoa). */
  function Atoi(s: string): nat
    requires AllDigits(s)
  {
    if s == [] then 0 else 10 * Atoi(s[..|s| - 1]) + DigitValue(s[|s| - 1])
  }

  /** Reading back what Itoa printed gives the number again. */
  lemma {:induction false} AtoiItoa(n: nat)
    ensures Atoi(Itoa(n)) == n
    decreases n
  {
    if n >= 10 {
      var s := Itoa(n);
      assert s[..|s| - 1] == Itoa(n / 10);
      AtoiItoa(n / 10);
    }
  }

  /** Distinct counters print as distinct strings. */
  lemma ItoaInjective(m: nat, n: nat)
    ensures Itoa(m) == Itoa(n) <==> m == n
  {
    AtoiItoa(m);
    AtoiItoa(n);
  }

  /** The referent id issued for counter value k: "RBX" followed by k in decimal. */
  function Referent(k: nat): (r: string)
    ensures |r| > 3 && r[..3] == "RBX" && r[3..] == Itoa(k)
  {
    "RBX" + Itoa(k)
  }

  /** Distinct counter values give distinct referent ids. */
  lemma ReferentInjective(j: nat, k: nat)
    ensures Referent(j) == Referent(k) <==> j == k
  {
    if Referent(j) == Referent(k) {
      assert Itoa(j) == Referent(j)[3..] == Referent(k)[3..] == Itoa(k);
      ItoaInjective(j, k);
    }
  }

  /** The ids issued for counter values start, start + 1, ..., start + count - 1, in order. */
  function Ids(start: nat, count: nat): (r: seq<string>)
    ensures |r| == count
    ensures forall i :: 0 <= i < count ==> r[i] == Referent(start + i)
  {
    seq(count, i requires 0 <= i < count => Referent(start + i))
  }

  predicate Distinct<T(==)>(s: seq<T>) {
    forall i, j :: 0 <= i < |s| && 0 <= j < |s| && i != j ==> s[i] != s[j]
  }

  /** A run of issued ids never repeats an id. */
  lemma IdsDistinct(start: nat, count: nat)
    ensures Distinct(Ids(start, count))
  {
    forall i, j | 0 <= i < count && 0 <= j < count && i != j
      ensures Ids(start, count)[i] != Ids(start, count)[j]
    {
      ReferentInjective(start + i, start + j);
    }
  }

  /** A sequence without repeats holds each value at most once. */
  lemma {:induction false} DistinctCount<T>(t: seq<T>, x: T)
    requires Distinct(t)
    ensures multiset(t)[x] <= 1
  {
    if t != [] {
      assert t == [t[0]] + t[1..];
      assert Distinct(t[1..]) by {
        forall i, j | 0 <= i < |t[1..]| && 0 <= j < |t[1..]| && i != j
          ensures t[1..][i] != t[1..][j]
        {
          assert t[1..][i] == t[i + 1] && t[1..][j] == t[j + 1];
        }
      }
      DistinctCount(t[1..], x);
      if x == t[0] {
        assert x !in t[1..] by {
          forall k | 0 <= k < |t[1..]|
            ensures t[1..][k] != x
          {
            assert t[1..][k] == t[k + 1];
          }
        }
      }
    }
  }

  /** A value at two positions is counted at least twice. */
  lemma CountRepeat<T>(s: seq<T>, i: nat, j: nat)
    requires i < j < |s| && s[i] == s[j]
    ensures multiset(s)[s[i]] >= 2
  {
    assert s == s[..j] + [s[j]] + s[j + 1..];
    assert s[..j][i] == s[i];
    assert s[i] in multiset(s[..j]);
  }

  /** Having the same elements as a sequence without repeats leaves none either. */
  lemma DistinctByMultiset<T>(s: seq<T>, t: seq<T>)
    requires multiset(s) == multiset(t) && Distinct(t)
    ensures Distinct(s)
  {
    forall i, j | 0 <= i < |s| && 0 <= j < |s| && i != j
      ensures s[i] != s[j]
    {
      if s[i] == s[j] {
        DistinctCount(t, s[i]);
        if i < j {
          CountRepeat(s, i, j);
        } else {
          CountRepeat(s, j, i);
        }
      }
    }
  }

  /** The ids RBX<lo> .. RBX<hi - 1>, each once. */
  function Issued(lo: nat, hi: nat): multiset<string>
    decreases hi
  {
    if hi <= lo then multiset{} else Issued(lo, hi - 1) + multiset{Referent(hi - 1)}
  }

  lemma IdsSnoc(lo: nat, n: nat)
    requires n > 0
    ensures Ids(lo, n) == Ids(lo, n - 1) + [Referent(lo + n - 1)]
  {
    var a, b := Ids(lo, n), Ids(lo, n - 1) + [Referent(lo + n - 1)];
    assert |a| == |b|;
    forall i | 0 <= i < n
      ensures a[i] == b[i]
    {
      if i < n - 1 {
        assert b[i] == Ids(lo, n - 1)[i];
      }
    }
  }

  lemma {:induction false} IssuedIds(lo: nat, n: nat)
    ensures Issued(lo, lo + n) == multiset(Ids(lo, n))
  {
    if n > 0 {
      IssuedIds(lo, n - 1);
      var front, last := Ids(lo, n - 1), Referent(lo + n - 1);
      assert Ids(lo, n) == front + [last] by {
        IdsSnoc(lo, n);
      }
      calc {
        multiset(Ids(lo, n));
      ==
        multiset(front + [last]);
      ==
        multiset(front) + multiset{last};
      ==
        Issued(lo, lo + n - 1) + multiset{last};
      }
    }
  }

  lemma {:induction false} IssuedAppend(lo: nat, mid: nat, hi: nat)
    requires lo <= mid <= hi
    ensures Issued(lo, hi) == Issued(lo, mid) + Issued(mid, hi)
    decreases hi
  {
    if mid < hi {
      IssuedAppend(lo, mid, hi - 1);
    }
  }

  /** Two consecutive runs of ids are one run. */
  lemma IdsAppend(start: nat, m: nat, n: nat)
    ensures Ids(start, m) + Ids(start + m, n) == Ids(start, m + n)
  {
  }

  /** The id handed out first, followed by the rest of the run. */
  lemma IdsCons(start: nat, n: nat)
    ensures [Referent(start)] + Ids(start + 1, n) == Ids(start, n + 1)
  {
    var l := [Referent(start)] + Ids(start + 1, n);
    forall i | 0 <= i < n + 1
      ensures l[i] == Ids(start, n + 1)[i]
    {
    }
  }

  /**
   * Go's `<` on strings. Go compares the UTF-8 bytes; UTF-8 preserves the order of code
   * points, so comparing the characters of the model's strings gives the same answer.
   */
  predicate Below(a: string, b: string)
    decreases |a|
  {
    if a == [] then b != []
    else if b == [] then false
    else if a[0] != b[0] then a[0] < b[0]
    else Below(a[1..], b[1..])
  }

  lemma {:induction false} BelowIrreflexive(a: string)
    ensures !Below(a, a)
    decreases |a|
  {
    if a != [] {
      BelowIrreflexive(a[1..]);
    }
  }

  lemma {:induction false} BelowTransitive(a: string, b: string, c: string)
    requires Below(a, b) && Below(b, c)
    ensures Below(a, c)
    decreases |a|
  {
    if a != [] && a[0] == b[0] && b[0] == c[0] {
      BelowTransitive(a[1..], b[1..], c[1..]);
    }
  }

  /** Two different strings are always ordered one way or the other. */
  lemma {:induction false} BelowTotal(a: string, b: string)
    ensures a == b || Below(a, b) || Below(b, a)
    decreases |a|
  {
    if a != [] && b != [] && a[0] == b[0] {
      BelowTotal(a[1..], b[1..]);
      if a[1..] == b[1..] {
        assert a == [a[0]] + a[1..] && b == [b[0]] + b[1..];
      }
    }
  }

  lemma {:induction false} BelowAsymmetric(a: string, b: string)
    ensures !(Below(a, b) && Below(b, a))
  {
    if Below(a, b) && Below(b, a) {
      BelowTransitive(a, b, a);
      BelowIrreflexive(a);
    }
  }
}
