/** What the bytes of a code point spell: the writer produces the shortest form, and the bytes sort as the code points
    do. `Utf8Bits` says the same in terms of bits. */
module Utf8Forms {
  import opened Utf8

  /** How many values the bits behind `ones` leading ones and a zero have. */
  ghost function HeaderValues(ones: nat): (v: nat)
    requires ones < 8
    ensures v > 0
    decreases 8 - ones
  {
    if ones == 7 then 1 else 2 * HeaderValues(ones + 1)
  }

  /** The number that the bits of the first `n` bytes spell. */
  ghost function Spelled(w: seq<byte>, n: nat): nat
    requires 0 < n <= |w| < 8
  {
    if n == 1 then w[0] % HeaderValues(|w|) else 0x40 * Spelled(w, n - 1) + w[n - 1] % 0x40
  }

  /** The least code point that needs `n` bytes. */
  ghost function Least(n: nat): nat
    requires 1 <= n <= 6
  {
    if n == 1 then 0
    else if n == 2 then 0x80
    else if n == 3 then 0x800
    else if n == 4 then 0x1_0000
    else if n == 5 then 0x20_0000
    else 0x400_0000
  }

  /** `w` is the shortest form of `c`; the header tells how many bytes there are. */
  ghost predicate IsShaped(w: seq<byte>, c: nat)
  {
    && 1 <= |w| <= 6 && Least(|w|) <= c
    && (if |w| == 1 then w[0] < 0x80 && c == w[0]
        else w[0] >= 0x80 && MultiByteSequenceLength(w[0]) == |w| && c == Spelled(w, |w|))
    && (forall k :: 0 < k < |w| ==> 0x80 <= w[k] <= 0xBF)
  }

  lemma HeaderRange(n: nat)
    requires 2 <= n <= 6
    ensures HeaderValues(n) == HeaderModulus(n)
  {
    assert HeaderValues(7) == 1 && HeaderValues(6) == 2 && HeaderValues(5) == 4 && HeaderValues(4) == 8;
    assert HeaderValues(3) == 16 && HeaderValues(2) == 32;
  }

  /** The bytes of the two- to six-byte cases spell the number the reader computes. */
  lemma ReadSpelled(s: seq<byte>, pos: nat, n: nat)
    requires 2 <= n <= 6 && pos + n <= |s|
    ensures ReadMultiByteCase(s, pos, n) == Spelled(s[pos..pos + n], n)
  {
    var w := s[pos..pos + n];
    HeaderRange(n);
    assert Spelled(w, 1) == w[0] % HeaderModulus(n) && Spelled(w, 2) == 0x40 * Spelled(w, 1) + w[1] % 0x40;
    if n >= 3 { assert Spelled(w, 3) == 0x40 * Spelled(w, 2) + w[2] % 0x40; }
    if n >= 4 { assert Spelled(w, 4) == 0x40 * Spelled(w, 3) + w[3] % 0x40; }
    if n >= 5 { assert Spelled(w, 5) == 0x40 * Spelled(w, 4) + w[4] % 0x40; }
    if n >= 6 { assert Spelled(w, 6) == 0x40 * Spelled(w, 5) + w[5] % 0x40; }
  }

  lemma ReadOther(s: seq<byte>, pos: nat, n: nat)
    requires 0 < n && pos + n <= |s| && !(2 <= n <= 6)
    ensures ReadMultiByteCase(s, pos, n) == 0
  {
  }

  /** What is written for a code point is its form. */
  lemma WriteForm(c: nat)
    requires c <= 0x7FFF_FFFF
    ensures IsShaped(WriteCodePoint(c), c)
  {
    hide Spelled, ReadCodePoint, WriteCodePoint, ReadMultiByteCase;
    WriteBytes(c);
    var w := WriteCodePoint(c);
    if c >= 0x80 {
      ReadMultiByteWritten(c);
      ReadSpelled(w, 0, |w|);
      assert w[0..|w|] == w;
    }
  }

  lemma WriteBytes(c: nat)
    requires c <= 0x7FFF_FFFF
    ensures var w := WriteCodePoint(c);
            && 1 <= |w| <= 6 && |w| == CodePointLen(c) && Least(|w|) <= c
            && (|w| == 1 ==> w[0] == c < 0x80) && (|w| > 1 ==> w[0] >= 0x80 && MultiByteSequenceLength(w[0]) == |w|)
            && (forall k :: 0 < k < |w| ==> 0x80 <= w[k] <= 0xBF)
  {
  }

  lemma WriteLength(c: nat)
    ensures |WriteCodePoint(c)| == CodePointLen(c)
    ensures CodePointLen(c) == 0 <==> c > 0x7FFF_FFFF
  {
  }

  /** The form of a code point is unique: there is no other way to write it. Above 0x7FFFFFFF there is none, and nothing
      is written. */
  lemma ShapedIsWritten(w: seq<byte>, c: nat)
    ensures IsShaped(w, c) <==> w == WriteCodePoint(c) != []
    ensures WriteCodePoint(c) == [] <==> c > 0x7FFF_FFFF
  {
    hide MultiByteSequenceLength, Spelled, WriteCodePoint;
    WriteLength(c);
    if c <= 0x7FFF_FFFF { WriteForm(c); }
    if IsShaped(w, c) {
      FormBelow(w, c);
      var v := WriteCodePoint(c);
      FormBelow(v, c);
      if |w| > 1 {
        SpelledOnce(v, w, |w|);
        SameHeader(v[0], w[0], |w|);
      }
      assert forall k :: 0 < k < |w| ==> v[k] == w[k];
    }
  }

  /** `n` bytes of a form spell less than what takes `n + 1`. */
  lemma FormBelow(w: seq<byte>, c: nat)
    requires IsShaped(w, c)
    ensures c <= 0x7FFF_FFFF && (|w| < 6 ==> c < Least(|w| + 1))
  {
    if |w| > 1 {
      HeaderRange(|w|);
      SpelledBelow(w, |w|);
    }
  }

  lemma SpelledBelow(w: seq<byte>, n: nat)
    requires 2 <= n == |w| <= 6
    ensures Spelled(w, n) < if n == 2 then 0x800 else if n == 3 then 0x1_0000 else if n == 4 then 0x20_0000
                            else if n == 5 then 0x400_0000 else 0x8000_0000
  {
    HeaderRange(n);
    var h := Spelled(w, 1);
    assert h < HeaderModulus(n) && Spelled(w, 2) < 0x40 * (h + 1);
    if n >= 3 { assert Spelled(w, 3) < 0x1000 * (h + 1); }
    if n >= 4 { assert Spelled(w, 4) < 0x4_0000 * (h + 1); }
    if n >= 5 { assert Spelled(w, 5) < 0x100_0000 * (h + 1); }
    if n >= 6 { assert Spelled(w, 6) < 0x4000_0000 * (h + 1); }
  }

  /** The same number in as many bytes is in the same bits. */
  lemma {:induction false} SpelledOnce(v: seq<byte>, w: seq<byte>, n: nat)
    requires |v| == |w| < 8 && 0 < n <= |w| && Spelled(v, n) == Spelled(w, n)
    requires forall k :: 0 < k < |w| ==> 0x80 <= v[k] <= 0xBF && 0x80 <= w[k] <= 0xBF
    ensures v[0] % HeaderValues(|w|) == w[0] % HeaderValues(|w|) && forall k :: 0 < k < n ==> v[k] == w[k]
  {
    hide HeaderValues;
    if n > 1 {
      LastSix(Spelled(v, n - 1), v[n - 1] % 0x40, Spelled(w, n - 1), w[n - 1] % 0x40);
      SpelledOnce(v, w, n - 1);
    }
  }

  lemma LastSix(a: nat, x: nat, b: nat, y: nat)
    requires x < 0x40 && y < 0x40
    ensures 0x40 * a + x == 0x40 * b + y ==> a == b && x == y
    ensures 0x40 * a + x < 0x40 * b + y ==> a < b || (a == b && x < y)
  {
  }

  lemma SameHeader(a: byte, b: byte, n: nat)
    requires 2 <= n <= 6 && a >= 0x80 && b >= 0x80 && MultiByteSequenceLength(a) == n == MultiByteSequenceLength(b)
    ensures a % HeaderValues(n) == b % HeaderValues(n) ==> a == b
    ensures a % HeaderValues(n) < b % HeaderValues(n) ==> a < b
  {
    hide HeaderValues, MultiByteSequenceLength, HeaderModulus;
    HeaderRange(n);
    HeaderIs(a, n);
    HeaderIs(b, n);
  }

  /** The ones of the header, as a number. */
  ghost function Ones(n: nat): nat
  {
    if n == 2 then 0xC0 else if n == 3 then 0xE0 else if n == 4 then 0xF0 else if n == 5 then 0xF8 else 0xFC
  }

  lemma HeaderIs(a: byte, n: nat)
    requires 2 <= n <= 6 && a >= 0x80 && MultiByteSequenceLength(a) == n
    ensures HeaderModulus(n) > 0 && a == Ones(n) + a % HeaderModulus(n)
  {
  }

  // ----- order -----

  /** `a` comes before `b` in a dictionary: it is a proper beginning of `b`, or less at the first difference. */
  ghost predicate Before(a: seq<int>, b: seq<int>)
  {
    exists k :: DiffersAt(a, b, k)
  }

  ghost predicate DiffersAt(a: seq<int>, b: seq<int>, k: nat)
  {
    k <= |a| && k < |b| && a[..k] == b[..k] && (k == |a| || a[k] < b[k])
  }

  /** The bytes of two code points sort as the code points do, and differ before one of them is over. */
  lemma WriteOrder(c: Code, d: Code) returns (k: nat)
    requires c < d
    ensures k < |WriteCodePoint(c)| && DiffersAt(WriteCodePoint(c), WriteCodePoint(d), k)
  {
    hide MultiByteSequenceLength, Spelled, WriteCodePoint;
    var v, w := WriteCodePoint(c), WriteCodePoint(d);
    WriteForm(c);
    WriteForm(d);
    FormBelow(v, c);
    FormBelow(w, d);
    if |v| == |w| && |w| > 1 {
      k := FirstLess(v, w, |w|);
    } else {
      k := 0;
      HeaderOrder(c, d);
    }
  }

  lemma HeaderOrder(c: Code, d: Code)
    requires c < d && (CodePointLen(c) < CodePointLen(d) || CodePointLen(d) == 1)
    ensures |WriteCodePoint(c)| == CodePointLen(c) > 0 && |WriteCodePoint(d)| == CodePointLen(d) > 0
    ensures WriteCodePoint(c)[0] < WriteCodePoint(d)[0]
  {
  }

  lemma {:induction false} FirstLess(v: seq<byte>, w: seq<byte>, n: nat) returns (k: nat)
    requires 2 <= |v| == |w| <= 6 && 0 < n <= |w| && Spelled(v, n) < Spelled(w, n)
    requires v[0] >= 0x80 && w[0] >= 0x80
    requires MultiByteSequenceLength(v[0]) == |w| == MultiByteSequenceLength(w[0])
    requires forall k :: 0 < k < |w| ==> 0x80 <= v[k] <= 0xBF && 0x80 <= w[k] <= 0xBF
    ensures k < n && DiffersAt(v, w, k)
  {
    hide HeaderValues, MultiByteSequenceLength;
    if n == 1 {
      k := 0;
      SameHeader(v[0], w[0], |w|);
    } else {
      LastSix(Spelled(v, n - 1), v[n - 1] % 0x40, Spelled(w, n - 1), w[n - 1] % 0x40);
      if Spelled(v, n - 1) < Spelled(w, n - 1) {
        k := FirstLess(v, w, n - 1);
      } else {
        k := n - 1;
        SpelledOnce(v, w, n - 1);
        SameHeader(v[0], w[0], |w|);
        assert v[..k] == w[..k];
      }
    }
  }

  lemma BeforeOnce(a: seq<int>, b: seq<int>)
    ensures !(Before(a, b) && Before(b, a)) && !Before(a, a)
    ensures a == b || Before(a, b) || Before(b, a)
  {
    if Before(a, b) && Before(b, a) {
      var k: nat, j: nat :| DiffersAt(a, b, k) && DiffersAt(b, a, j);
      SameBefore(b, a, j, k);
      SameBefore(a, b, k, j);
    }
    var n := FirstDifference(a, b);
    if a != b { assert DiffersAt(a, b, n) || DiffersAt(b, a, n); }
  }

  lemma SameBefore(a: seq<int>, b: seq<int>, k: nat, j: nat)
    requires DiffersAt(a, b, k)
    ensures j < k ==> j < |a| && j < |b| && a[j] == b[j]
  {
    if j < k { assert a[..k][j] == b[..k][j]; }
  }

  lemma FirstDifference(a: seq<int>, b: seq<int>) returns (k: nat)
    ensures k <= |a| && k <= |b| && a[..k] == b[..k] && (k < |a| && k < |b| ==> a[k] != b[k])
  {
    k := 0;
    while k < |a| && k < |b| && a[k] == b[k]
      invariant k <= |a| && k <= |b| && a[..k] == b[..k]
    {
      k := k + 1;
    }
  }

  /** Encoded texts sort as the texts do. */
  lemma EncodeOrder(a: seq<Code>, b: seq<Code>)
    ensures Before(a, b) <==> Before(Encode(a), Encode(b))
  {
    hide Encode;
    BeforeOnce(a, b);
    BeforeOnce(Encode(a), Encode(b));
    if Before(a, b) { EncodeBefore(a, b); }
    if Before(b, a) { EncodeBefore(b, a); }
  }

  lemma EncodeBefore(a: seq<Code>, b: seq<Code>)
    requires Before(a, b)
    ensures Before(Encode(a), Encode(b))
  {
    hide WriteCodePoint;
    var k: nat :| DiffersAt(a, b, k);
    var x, y := a[k..], b[k..];
    assert a == a[..k] + x && b == a[..k] + y;
    EncodeConcat(a[..k], x);
    EncodeConcat(a[..k], y);
    var e, n := Encode(a[..k]), |Encode(a[..k])|;
    if k == |a| {
      WriteShape(y[0]);
      assert DiffersAt(Encode(a), Encode(b), n);
    } else {
      var i := WriteOrder(a[k], b[k]);
      BeforeBehind(e, WriteCodePoint(x[0]), Encode(x[1..]), WriteCodePoint(y[0]), Encode(y[1..]), i);
    }
  }

  lemma BeforeBehind(e: seq<byte>, v: seq<byte>, p: seq<byte>, w: seq<byte>, q: seq<byte>, i: nat)
    requires DiffersAt(v, w, i) && i < |v|
    ensures Before(e + (v + p), e + (w + q))
  {
    var a, b, k := e + (v + p), e + (w + q), |e| + i;
    assert a[..k] == e + v[..i] && b[..k] == e + w[..i];
    assert DiffersAt(a, b, k);
  }
}
