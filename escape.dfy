/**
 * The text escaper writer.go installs into the XML library (writer.go:371-402). Each byte
 * of a text is written on its own: the five markup characters become the predefined
 * entities of section 4.6 of XML 1.0, newline and carriage return and printable ASCII pass
 * through, and every other byte becomes a decimal character reference (section 4.1 of
 * XML 1.0).
 */
module Escape {
  import opened Strings
  import opened Wrappers

  newtype byte = x: int | 0 <= x < 256

  /** The bytes of an ASCII string literal. */
  function Ascii(s: string): (r: seq<byte>)
    requires forall i :: 0 <= i < |s| ==> (s[i] as int) < 128
    ensures |r| == |s|
    ensures forall i :: 0 <= i < |s| ==> r[i] as int == s[i] as int
  {
    seq(|s|, i requires 0 <= i < |s| => s[i] as int as byte)
  }

  /** The characters of a byte sequence read as Latin-1 (used only on ASCII digits). */
  function Chars(b: seq<byte>): (r: string)
    ensures |r| == |b|
    ensures forall i :: 0 <= i < |b| ==> r[i] as int == b[i] as int
  {
    seq(|b|, i requires 0 <= i < |b| => b[i] as int as char)
  }

  /** The predefined entities, as bytes: `&quot;`, `&apos;`, `&amp;`, `&lt;` and `&gt;`. */
  const Quot: seq<byte> := [38, 113, 117, 111, 116, 59]
  const Apos: seq<byte> := [38, 97, 112, 111, 115, 59]
  const Amp: seq<byte> := [38, 97, 109, 112, 59]
  const Lt: seq<byte> := [38, 108, 116, 59]
  const Gt: seq<byte> := [38, 103, 116, 59]

  /** A byte the escaper writes unchanged. */
  predicate Raw(c: byte) {
    c == 10 || c == 13 || (32 <= c <= 126 && c != 34 && c != 39 && c != 38 && c != 60 && c != 62)
  }

  /** A byte that may appear in the escaper's output. */
  predicate Safe(c: byte) {
    c == 10 || c == 13 || 32 <= c <= 126
  }

  predicate AllSafe(b: seq<byte>) {
    forall i :: 0 <= i < |b| ==> Safe(b[i])
  }

  function Reference(c: byte): (r: seq<byte>)
    ensures |r| >= 4 && r[0] == 38 && r[1] == 35 && r[|r| - 1] == 59
    ensures r[2..|r| - 1] == Ascii(Itoa(c as nat))
  {
    var d := Itoa(c as nat);
    assert forall i :: 0 <= i < |d| ==> IsDigit(d[i]);
    [38, 35] + Ascii(d) + [59]
  }

  /** The output for one byte (the switch at writer.go:375-396). */
  function EscapeByte(c: byte): (r: seq<byte>)
    ensures r == [c] <==> Raw(c)
    ensures !Raw(c) ==> |r| >= 4 && r[0] == 38 && r[|r| - 1] == 59
    ensures c == 34 ==> r == Quot
    ensures c == 39 ==> r == Apos
    ensures c == 38 ==> r == Amp
    ensures c == 60 ==> r == Lt
    ensures c == 62 ==> r == Gt
    ensures AllSafe(r)
  {
    if c == 34 then Quot
    else if c == 39 then Apos
    else if c == 38 then Amp
    else if c == 60 then Lt
    else if c == 62 then Gt
    else if c == 10 then [c]
    else if c == 13 then [c]
    else if 32 <= c <= 126 then [c]
    else Reference(c)
  }

  /** The whole text, byte by byte: it never comes out shorter. */
  function Escape(s: seq<byte>): (r: seq<byte>)
    ensures |r| >= |s|
  {
    if s == [] then [] else EscapeByte(s[0]) + Escape(s[1..])
  }

  /** Escaping distributes over concatenation: each byte is escaped independently. */
  lemma {:induction false} EscapeAppend(a: seq<byte>, b: seq<byte>)
    ensures Escape(a + b) == Escape(a) + Escape(b)
  {
    if a == [] {
      assert a + b == b;
    } else {
      assert (a + b)[0] == a[0] && (a + b)[1..] == a[1..] + b;
      EscapeAppend(a[1..], b);
    }
  }

  lemma EscapeOne(c: byte)
    ensures Escape([c]) == EscapeByte(c)
  {
    assert [c][1..] == [];
  }

  /** No byte outside printable ASCII reaches the output except newline and carriage return. */
  lemma {:induction false} EscapeSafe(s: seq<byte>)
    ensures AllSafe(Escape(s))
  {
    if s != [] {
      EscapeSafe(s[1..]);
      SafeAppend(EscapeByte(s[0]), Escape(s[1..]));
    }
  }

  lemma SafeAppend(a: seq<byte>, b: seq<byte>)
    requires AllSafe(a) && AllSafe(b)
    ensures AllSafe(a + b)
  {
    forall i | 0 <= i < |a + b|
      ensures Safe((a + b)[i])
    {
      if i >= |a| {
        assert (a + b)[i] == b[i - |a|];
      }
    }
  }

  /** A text of bytes the escaper leaves alone comes out unchanged, and only such a text. */
  lemma {:induction false} EscapeIdentity(s: seq<byte>)
    ensures Escape(s) == s <==> forall i :: 0 <= i < |s| ==> Raw(s[i])
  {
    if s == [] {
    } else {
      EscapeIdentity(s[1..]);
      var e := EscapeByte(s[0]);
      assert Escape(s) == e + Escape(s[1..]);
      if Raw(s[0]) {
        assert s == [s[0]] + s[1..];
        assert (forall i :: 0 <= i < |s| ==> Raw(s[i])) <==> (forall i :: 0 <= i < |s[1..]| ==> Raw(s[1..][i])) by {
          assert forall i :: 0 < i < |s| ==> s[i] == s[1..][i - 1];
        }
      } else {
        assert |Escape(s)| > |s| by {
          assert |e| >= 4;
        }
      }
    }
  }

  /** Escaping one more byte of a text appends that byte's escape. */
  lemma EscapePrefix(s: seq<byte>, i: nat)
    requires i < |s|
    ensures Escape(s[..i + 1]) == Escape(s[..i]) + EscapeByte(s[i])
  {
    assert s[..i + 1] == s[..i] + [s[i]];
    EscapeAppend(s[..i], [s[i]]);
    EscapeOne(s[i]);
  }

  /**
   * The escaper's loop (writer.go:373-400). The destination writer is modelled by the number
   * of writes it accepts before it reports an error: the loop writes one piece per byte and
   * stops at the first failed write, returning that error.
   */
  method EscapeText(s: seq<byte>, accepts: nat) returns (written: seq<byte>, failed: bool)
    ensures failed <==> accepts < |s|
    ensures !failed ==> written == Escape(s)
    ensures failed ==> written == Escape(s[..accepts])
  {
    written := [];
    failed := false;
    var i := 0;
    while i < |s|
      invariant 0 <= i <= |s| && i <= accepts
      invariant written == Escape(s[..i])
    {
      if i == accepts {
        failed := true;
        return;
      }
      EscapePrefix(s, i);
      written := written + EscapeByte(s[i]);
      i := i + 1;
    }
    assert s[..i] == s;
  }

  predicate IsDigitByte(c: byte) {
    48 <= c <= 57
  }

  /** The number of decimal digits at the front of `b`. */
  function DigitRun(b: seq<byte>): (n: nat)
    ensures n <= |b|
    ensures forall i :: 0 <= i < n ==> IsDigitByte(b[i])
    ensures n < |b| ==> !IsDigitByte(b[n])
  {
    if b == [] || !IsDigitByte(b[0]) then 0 else 1 + DigitRun(b[1..])
  }

  /** The byte a character reference or predefined entity at the front of `b` stands for, and its length. */
  function Entity(b: seq<byte>): (r: Option<(byte, nat)>)
    ensures r.Some? ==> 2 <= r.value.1 <= |b|
  {
    if |b| >= 2 && b[0] == 38 && b[1] == 35 then
      var k := DigitRun(b[2..]);
      if k >= 1 && 2 + k < |b| && b[2 + k] == 59 then
        var digits := Chars(b[2..2 + k]);
        assert AllDigits(digits);
        var v := Atoi(digits);
        if v < 256 then Some((v as byte, 3 + k)) else None
      else None
    else if |b| >= |Quot| && b[..|Quot|] == Quot then Some((34, |Quot|))
    else if |b| >= |Apos| && b[..|Apos|] == Apos then Some((39, |Apos|))
    else if |b| >= |Amp| && b[..|Amp|] == Amp then Some((38, |Amp|))
    else if |b| >= |Lt| && b[..|Lt|] == Lt then Some((60, |Lt|))
    else if |b| >= |Gt| && b[..|Gt|] == Gt then Some((62, |Gt|))
    else None
  }

  /** Reads escaped text back: the inverse of Escape on everything Escape produces. */
  function Unescape(b: seq<byte>): Option<seq<byte>>
    decreases |b|
  {
    if b == [] then Some([])
    else if b[0] != 38 then
      if !Raw(b[0]) then None
      else match Unescape(b[1..])
        case None => None
        case Some(rest) => Some([b[0]] + rest)
    else match Entity(b)
      case None => None
      case Some((c, n)) =>
        match Unescape(b[n..])
        case None => None
        case Some(rest) => Some([c] + rest)
  }

  lemma {:induction false} DigitRunDigits(d: seq<byte>, rest: seq<byte>)
    requires forall i :: 0 <= i < |d| ==> IsDigitByte(d[i])
    requires rest != [] && !IsDigitByte(rest[0])
    ensures DigitRun(d + rest) == |d|
  {
    if d == [] {
      assert d + rest == rest;
    } else {
      assert (d + rest)[1..] == d[1..] + rest;
      DigitRunDigits(d[1..], rest);
    }
  }

  lemma EntityQuot(rest: seq<byte>)
    ensures Entity(Quot + rest) == Some((34, |Quot|))
  {
    var b := Quot + rest;
    assert b[1] == 113 && b[..|Quot|] == Quot;
  }

  lemma EntityApos(rest: seq<byte>)
    ensures Entity(Apos + rest) == Some((39, |Apos|))
  {
    var b := Apos + rest;
    assert b[1] == 97 && b[..|Quot|][1] != Quot[1] && b[..|Apos|] == Apos;
  }

  lemma EntityAmp(rest: seq<byte>)
    ensures Entity(Amp + rest) == Some((38, |Amp|))
  {
    var b := Amp + rest;
    assert b[1] == 97 && b[2] == 109 && b[..|Amp|] == Amp;
    assert |b| >= |Apos| ==> b[..|Apos|][2] != Apos[2];
  }

  lemma EntityLt(rest: seq<byte>)
    ensures Entity(Lt + rest) == Some((60, |Lt|))
  {
    var b := Lt + rest;
    assert b[1] == 108 && b[..|Lt|] == Lt;
    assert |b| >= |Quot| ==> b[..|Quot|][1] != Quot[1];
    assert |b| >= |Apos| ==> b[..|Apos|][1] != Apos[1];
    assert |b| >= |Amp| ==> b[..|Amp|][1] != Amp[1];
  }

  lemma EntityGt(rest: seq<byte>)
    ensures Entity(Gt + rest) == Some((62, |Gt|))
  {
    var b := Gt + rest;
    assert b[1] == 103 && b[..|Gt|] == Gt;
    assert |b| >= |Quot| ==> b[..|Quot|][1] != Quot[1];
    assert |b| >= |Apos| ==> b[..|Apos|][1] != Apos[1];
    assert |b| >= |Amp| ==> b[..|Amp|][1] != Amp[1];
    assert |b| >= |Lt| ==> b[..|Lt|][1] != Lt[1];
  }

  lemma EntityReference(c: byte, rest: seq<byte>)
    ensures Entity(Reference(c) + rest) == Some((c, |Reference(c)|))
  {
    var e := Reference(c);
    var b := e + rest;
    var d := Itoa(c as nat);
    var ad := Ascii(d);
    var k := |ad|;
    assert e == [38, 35] + ad + [59];
    assert b[0] == 38 && b[1] == 35 && |b| >= 2;
    assert DigitRun(b[2..]) == k && 2 + k < |b| && b[2 + k] == 59 && b[2..2 + k] == ad by {
      assert b[2..] == ad + ([59] + rest);
      assert forall i :: 0 <= i < |ad| ==> IsDigitByte(ad[i]) by {
        assert forall i :: 0 <= i < |d| ==> IsDigit(d[i]);
      }
      DigitRunDigits(ad, [59] + rest);
    }
    assert Atoi(Chars(ad)) == c as nat by {
      assert Chars(ad) == d;
      AtoiItoa(c as nat);
    }
  }

  lemma EntityOfEscape(c: byte, rest: seq<byte>)
    requires !Raw(c)
    ensures Entity(EscapeByte(c) + rest) == Some((c, |EscapeByte(c)|))
  {
    if c == 34 {
      EntityQuot(rest);
    } else if c == 39 {
      EntityApos(rest);
    } else if c == 38 {
      EntityAmp(rest);
    } else if c == 60 {
      EntityLt(rest);
    } else if c == 62 {
      EntityGt(rest);
    } else {
      EntityReference(c, rest);
    }
  }

  /** Unescaping what the escaper wrote gives back the original bytes. */
  lemma {:induction false} UnescapeEscape(s: seq<byte>)
    ensures Unescape(Escape(s)) == Some(s)
  {
    if s != [] {
      var e := EscapeByte(s[0]);
      var b := Escape(s);
      UnescapeEscape(s[1..]);
      assert b == e + Escape(s[1..]);
      if Raw(s[0]) {
        assert b[1..] == Escape(s[1..]);
      } else {
        EntityOfEscape(s[0], Escape(s[1..]));
        assert b[|e|..] == Escape(s[1..]);
      }
      assert s == [s[0]] + s[1..];
    }
  }

  /** Two texts with the same escaped form are the same text. */
  lemma EscapeInjective(s: seq<byte>, t: seq<byte>)
    ensures Escape(s) == Escape(t) <==> s == t
  {
    if Escape(s) == Escape(t) {
      UnescapeEscape(s);
      UnescapeEscape(t);
    }
  }
}
