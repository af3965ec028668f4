/** UTF-8 bit by bit, as section 2 of RFC 2279 draws it: a header byte with as many leading ones as there are bytes,
    then six bits in every other byte. */
module Utf8Bits {
  import opened Utf8
  import opened Utf8Forms

  /** The number of leading one bits. */
  ghost function LeadingOnes(b: bv8): nat
  {
    if b & 0x80 == 0 then 0
    else if b & 0x40 == 0 then 1
    else if b & 0x20 == 0 then 2
    else if b & 0x10 == 0 then 3
    else if b & 0x08 == 0 then 4
    else if b & 0x04 == 0 then 5
    else if b & 0x02 == 0 then 6
    else if b & 0x01 == 0 then 7
    else 8
  }

  /** `w` is the shortest form of `c`. */
  ghost predicate IsForm(w: seq<byte>, c: nat)
  {
    && 1 <= |w| <= 6 && Least(|w|) <= c
    && (if |w| == 1 then w[0] < 0x80 && c == w[0] else LeadingOnes(w[0] as bv8) == |w| && c == Spelled(w, |w|))
    && (forall k :: 0 < k < |w| ==> 0x80 <= w[k] <= 0xBF)
  }

  lemma BitsAndBack(b: byte)
    ensures (b as bv8) as int == b
  {
  }

  lemma OnesOf(x: bv8)
    ensures 0 <= x as int < 0x100 && (x as int < 0x80 <==> LeadingOnes(x) == 0)
    ensures x as int >= 0x80 ==> MultiByteSequenceLength(x as int) == LeadingOnes(x)
  {
  }

  lemma LengthIsOnes(b: byte)
    ensures b < 0x80 <==> LeadingOnes(b as bv8) == 0
    ensures b >= 0x80 ==> MultiByteSequenceLength(b) == LeadingOnes(b as bv8)
  {
    hide LeadingOnes, MultiByteSequenceLength;
    BitsAndBack(b);
    OnesOf(b as bv8);
  }

  lemma ContinuationBits(x: bv8)
    ensures 0 <= x as int < 0x100 && (IsContinuation(x as int) <==> x & 0xC0 == 0x80)
  {
  }

  /** A byte that does not begin a code point starts with a one and a zero. */
  lemma ContinuationIs(b: byte)
    ensures IsContinuation(b) <==> b as bv8 & 0xC0 == 0x80
  {
    BitsAndBack(b);
    ContinuationBits(b as bv8);
  }

  /** What the header tells is how many ones it begins with. */
  lemma FormIsShaped(w: seq<byte>, c: nat)
    ensures IsForm(w, c) <==> IsShaped(w, c)
  {
    hide LeadingOnes, MultiByteSequenceLength, Spelled;
    if w != [] { LengthIsOnes(w[0]); }
  }

  /** The form of a code point is unique: there is no other way to write it. Above 0x7FFFFFFF there is none, and nothing
      is written. */
  lemma FormIsWritten(w: seq<byte>, c: nat)
    ensures IsForm(w, c) <==> w == WriteCodePoint(c) != []
    ensures WriteCodePoint(c) == [] <==> c > 0x7FFF_FFFF
  {
    hide IsForm, IsShaped, WriteCodePoint;
    FormIsShaped(w, c);
    ShapedIsWritten(w, c);
  }

  /** What the reader does on any bytes, well-formed or not: a byte below 0x80 stands for itself; else the leading ones
      of the header say how many bytes there are; a sequence that is cut off is a question mark; a lone continuation
      byte and headers of seven or eight ones read as 0. */
  lemma ReadIs(s: seq<byte>, pos: nat)
    requires pos < |s|
    ensures var n := LeadingOnes(s[pos] as bv8);
            ReadCodePoint(s, pos) ==
            if n == 0 then ReadResult(pos + 1, s[pos])
            else if pos + n > |s| then ReadResult(|s|, '?' as nat)
            else if 2 <= n <= 6 then ReadResult(pos + n, Spelled(s[pos..pos + n], n))
            else ReadResult(pos + n, 0)
  {
    hide ReadMultiByteCase, Spelled, LeadingOnes, MultiByteSequenceLength;
    LengthIsOnes(s[pos]);
    var n := MultiByteSequenceLength(s[pos]);
    if s[pos] >= 0x80 && pos + n <= |s| {
      if 2 <= n <= 6 { ReadSpelled(s, pos, n); } else { ReadOther(s, pos, n); }
    }
  }
}
