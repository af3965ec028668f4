/** UTF-8 as the reader and writer of the repository define it: up to six bytes a code point.
    `|` and `&` with constant masks are written as sums and remainders of the same fields. */
module Utf8 {

  type byte = b: int | 0 <= b < 0x100

  /** A code point of a text or pattern. 0 is excluded: the trie uses the zero byte as its leaf edge. */
  type Code = c: int | 0 < c <= 0x7FFF_FFFF witness 1

  // ----- writer -----

  function CodePointLen(c: nat): nat
  {
    if c <= 0x7F then 1
    else if c <= 0x7FF then 2
    else if c <= 0xFFFF then 3
    else if c <= 0x1F_FFFF then 4
    else if c <= 0x3FF_FFFF then 5
    else if c <= 0x7FFF_FFFF then 6
    else 0
  }

  function Continuation(c: nat): byte
  {
    0x80 + c % 0x40
  }

  /** The bytes stored for `c`; nothing at all above 0x7FFFFFFF. */
  function WriteCodePoint(c: nat): seq<byte>
  {
    if c <= 0x7F then [c]
    else if c <= 0x7FF then [0xC0 + c / 0x40, Continuation(c)]
    else if c <= 0xFFFF then [0xE0 + c / 0x1000, Continuation(c / 0x40), Continuation(c)]
    else if c <= 0x1F_FFFF then
      [0xF0 + c / 0x4_0000, Continuation(c / 0x1000), Continuation(c / 0x40), Continuation(c)]
    else if c <= 0x3FF_FFFF then
      [0xF8 + c / 0x100_0000, Continuation(c / 0x4_0000), Continuation(c / 0x1000), Continuation(c / 0x40),
       Continuation(c)]
    else if c <= 0x7FFF_FFFF then
      [0xFC + c / 0x4000_0000, Continuation(c / 0x100_0000), Continuation(c / 0x4_0000), Continuation(c / 0x1000),
       Continuation(c / 0x40), Continuation(c)]
    else []
  }

  // ----- reader -----

  /** The number of leading one bits of the header byte, or 1 when there are none. */
  function MultiByteSequenceLength(first: byte): nat
  {
    if first < 0xC0 then 1
    else if first < 0xE0 then 2
    else if first < 0xF0 then 3
    else if first < 0xF8 then 4
    else if first < 0xFC then 5
    else if first < 0xFE then 6
    else if first < 0xFF then 7
    else 8
  }

  function ReadMultiByteCase(s: seq<byte>, pos: nat, len: nat): nat
    requires pos + len <= |s| && 0 < len
  {
    var b := (k: int) requires 0 <= k < len => s[pos + k] as int;
    if len == 2 then 0x40 * (b(0) % 0x20) + b(1) % 0x40
    else if len == 3 then 0x1000 * (b(0) % 0x10) + 0x40 * (b(1) % 0x40) + b(2) % 0x40
    else if len == 4 then
      0x4_0000 * (b(0) % 0x8) + 0x1000 * (b(1) % 0x40) + 0x40 * (b(2) % 0x40) + b(3) % 0x40
    else if len == 5 then
      0x100_0000 * (b(0) % 0x4) + 0x4_0000 * (b(1) % 0x40) + 0x1000 * (b(2) % 0x40) + 0x40 * (b(3) % 0x40)
      + b(4) % 0x40
    else if len == 6 then
      0x4000_0000 * (b(0) % 0x2) + 0x100_0000 * (b(1) % 0x40) + 0x4_0000 * (b(2) % 0x40) + 0x1000 * (b(3) % 0x40)
      + 0x40 * (b(4) % 0x40) + b(5) % 0x40
    else 0
  }

  datatype ReadResult = ReadResult(next: nat, code: nat)

  /** One code point at `pos`; a sequence cut off by the end of `s` reads as '?' and ends there. */
  function ReadCodePoint(s: seq<byte>, pos: nat): (r: ReadResult)
    requires pos < |s|
    ensures pos < r.next <= |s|
  {
    if s[pos] < 0x80 then ReadResult(pos + 1, s[pos])
    else
      var len := MultiByteSequenceLength(s[pos]);
      if pos + len > |s| then ReadResult(|s|, 0x3F)
      else ReadResult(pos + len, ReadMultiByteCase(s, pos, len))
  }

  // ----- one code point -----

  predicate IsContinuation(b: byte)
  {
    0x80 <= b < 0xC0
  }

  /** The header byte tells the length, the other bytes are continuation bytes, and none is zero. */
  lemma WriteShape(c: Code)
    ensures var w := WriteCodePoint(c);
            && |w| == CodePointLen(c) == MultiByteSequenceLength(w[0]) && 1 <= |w| <= 6
            && !IsContinuation(w[0]) && w[0] != 0
            && (forall k :: 1 <= k < |w| ==> IsContinuation(w[k]))
            && (c < 0x80 ==> w == [c])
            && (c >= 0x80 ==> forall k :: 0 <= k < |w| ==> w[k] >= 0x80)
  {
  }

  lemma Payload(c: nat)
    ensures (Continuation(c) as int) % 0x40 == c % 0x40
  {
  }

  /** Base-64 digits recombine. */
  lemma Digits(c: nat)
    ensures c == 0x40 * (c / 0x40) + c % 0x40
    ensures c / 0x40 == 0x40 * (c / 0x1000) + c / 0x40 % 0x40
    ensures c / 0x1000 == 0x40 * (c / 0x4_0000) + c / 0x1000 % 0x40
    ensures c / 0x4_0000 == 0x40 * (c / 0x100_0000) + c / 0x4_0000 % 0x40
    ensures c / 0x100_0000 == 0x40 * (c / 0x4000_0000) + c / 0x100_0000 % 0x40
  {
  }

  lemma Header(c: Code)
    requires c >= 0x80
    ensures var h := WriteCodePoint(c)[0] as int;
            if c <= 0x7FF then h % 0x20 == c / 0x40
            else if c <= 0xFFFF then h % 0x10 == c / 0x1000
            else if c <= 0x1F_FFFF then h % 0x8 == c / 0x4_0000
            else if c <= 0x3FF_FFFF then h % 0x4 == c / 0x100_0000
            else h % 0x2 == c / 0x4000_0000
  {
  }

  function HeaderModulus(len: nat): nat
  {
    if len == 2 then 0x20 else if len == 3 then 0x10 else if len == 4 then 0x8 else if len == 5 then 0x4 else 0x2
  }

  /** `q` holds the successive quotients by 64 and `d` the remainders, least significant first. */
  lemma Combine(w: seq<byte>, q: seq<nat>, d: seq<nat>)
    requires 2 <= |w| <= 6 && |q| == |w| && |d| == |w| - 1
    requires forall k :: 0 <= k < |d| ==> q[k] == 0x40 * q[k + 1] + d[k] && (w[|w| - 1 - k] as int) % 0x40 == d[k]
    requires (w[0] as int) % HeaderModulus(|w|) == q[|w| - 1]
    ensures ReadMultiByteCase(w, 0, |w|) == q[0]
  {
    assert q[0] == 0x40 * q[1] + d[0];
    if |w| > 2 { assert q[1] == 0x40 * q[2] + d[1]; }
    if |w| > 3 { assert q[2] == 0x40 * q[3] + d[2]; }
    if |w| > 4 { assert q[3] == 0x40 * q[4] + d[3]; }
    if |w| > 5 { assert q[4] == 0x40 * q[5] + d[4]; }
  }

  /** The successive quotients of `c` by 64. */
  ghost function Quotients(c: nat): (q: seq<nat>)
    ensures |q| == 6
  {
    [c, c / 0x40, c / 0x1000, c / 0x4_0000, c / 0x100_0000, c / 0x4000_0000]
  }

  /** The bytes behind the header hold the quotients, the least significant one last. */
  lemma Written(c: Code, k: nat)
    requires c >= 0x80 && k + 1 < CodePointLen(c)
    ensures |WriteCodePoint(c)| == CodePointLen(c) <= 6
    ensures WriteCodePoint(c)[CodePointLen(c) - 1 - k] == Continuation(Quotients(c)[k])
  {
    hide Continuation;
  }

  lemma QuotientStep(c: nat, k: nat)
    requires k < 5
    ensures Quotients(c)[k] == 0x40 * Quotients(c)[k + 1] + Quotients(c)[k] % 0x40
  {
    Digits(c);
  }

  /** The quotients and remainders that the bytes of `c` hold. */
  lemma Fields(c: Code) returns (q: seq<nat>, d: seq<nat>)
    requires c >= 0x80
    ensures var w := WriteCodePoint(c);
            && 2 <= |w| <= 6 && |w| == CodePointLen(c) == |q| && |d| == |w| - 1 && q[0] == c
            && (forall k :: 0 <= k < |d| ==> q[k] == 0x40 * q[k + 1] + d[k])
            && (forall k :: 0 <= k < |d| ==> w[|w| - 1 - k] == Continuation(q[k]) && d[k] == q[k] % 0x40)
            && q[|d|] == Quotients(c)[|w| - 1]
  {
    hide Continuation, WriteCodePoint, Quotients;
    var n := CodePointLen(c);
    Written(c, 0);
    q := Quotients(c)[..n];
    d := seq(n - 1, k requires 0 <= k < n - 1 => Quotients(c)[k] % 0x40);
    forall k | 0 <= k < n - 1
      ensures q[k] == 0x40 * q[k + 1] + d[k] && WriteCodePoint(c)[n - 1 - k] == Continuation(q[k])
    {
      Written(c, k);
      QuotientStep(c, k);
    }
    assert Quotients(c)[0] == c by { QuotientFirst(c); }
  }

  lemma QuotientFirst(c: nat)
    ensures Quotients(c)[0] == c
  {
  }

  /** The fields of a written code point recombine to it. */
  lemma ReadMultiByteWritten(c: Code)
    requires c >= 0x80
    ensures ReadMultiByteCase(WriteCodePoint(c), 0, CodePointLen(c)) == c
  {
    Header(c);
    var q, d := Fields(c);
    var w := WriteCodePoint(c);
    forall k | 0 <= k < |d| ensures (w[|w| - 1 - k] as int) % 0x40 == d[k] {
      Payload(q[k]);
    }
    hide ReadMultiByteCase, WriteCodePoint, Continuation;
    Combine(w, q, d);
  }

  /** Reading what was written gives the code point back and stops right after it, whatever follows. */
  lemma ReadWrite(c: nat, s: seq<byte>, pos: nat)
    requires c <= 0x7FFF_FFFF && pos + CodePointLen(c) <= |s|
    requires s[pos..pos + CodePointLen(c)] == WriteCodePoint(c)
    ensures ReadCodePoint(s, pos) == ReadResult(pos + CodePointLen(c), c)
  {
    if c < 0x80 {
      assert s[pos] == s[pos..pos + 1][0] == c;
    } else {
      ReadWriteMulti(c, s, pos);
    }
  }

  lemma ReadWriteMulti(c: Code, s: seq<byte>, pos: nat)
    requires c >= 0x80 && pos + CodePointLen(c) <= |s|
    requires s[pos..pos + CodePointLen(c)] == WriteCodePoint(c)
    ensures ReadCodePoint(s, pos) == ReadResult(pos + CodePointLen(c), c)
  {
    hide WriteCodePoint, MultiByteSequenceLength, Continuation;
    WriteShape(c);
    var w := WriteCodePoint(c);
    assert forall k :: 0 <= k < |w| ==> s[pos + k] == s[pos..pos + |w|][k] == w[k];
    ReadMultiByteWritten(c);
    SameBytes(s, pos, w);
  }

  lemma SameBytes(s: seq<byte>, pos: nat, w: seq<byte>)
    requires pos + |w| <= |s| && 0 < |w| && forall k :: 0 <= k < |w| ==> s[pos + k] == w[k]
    ensures ReadMultiByteCase(s, pos, |w|) == ReadMultiByteCase(w, 0, |w|)
  {
  }

  // ----- sequences of code points -----

  function Encode(cs: seq<Code>): seq<byte>
  {
    if cs == [] then [] else WriteCodePoint(cs[0]) + Encode(cs[1..])
  }

  /** The byte offset at which code point `i` starts. */
  function Off(cs: seq<Code>, i: nat): nat
    requires i <= |cs|
  {
    |Encode(cs[..i])|
  }

  lemma {:induction false} EncodeConcat(a: seq<Code>, b: seq<Code>)
    ensures Encode(a + b) == Encode(a) + Encode(b)
  {
    hide WriteCodePoint;
    if a == [] {
      assert a + b == b;
    } else {
      EncodeConcat(a[1..], b);
      assert (a + b)[1..] == a[1..] + b;
    }
  }

  lemma EncodeOne(c: Code)
    ensures Encode([c]) == WriteCodePoint(c)
  {
    assert [c][1..] == [];
  }

  /** A block of code points occupies the bytes between the two offsets. */
  lemma EncodeSlice(cs: seq<Code>, i: nat, j: nat)
    requires i <= j <= |cs|
    ensures Off(cs, i) <= Off(cs, j) <= |Encode(cs)|
    ensures Off(cs, j) - Off(cs, i) == |Encode(cs[i..j])|
    ensures Encode(cs)[Off(cs, i)..Off(cs, j)] == Encode(cs[i..j])
  {
    assert cs[..i] + cs[i..j] == cs[..j];
    assert cs[..j] + cs[j..] == cs;
    EncodeConcat(cs[..i], cs[i..j]);
    EncodeConcat(cs[..j], cs[j..]);
  }

  lemma OffEnds(cs: seq<Code>)
    ensures Off(cs, 0) == 0 && Off(cs, |cs|) == |Encode(cs)|
  {
    assert cs[..|cs|] == cs;
  }

  lemma OffStep(cs: seq<Code>, i: nat)
    requires i < |cs|
    ensures Off(cs, i + 1) == Off(cs, i) + CodePointLen(cs[i])
    ensures Off(cs, i + 1) <= |Encode(cs)|
    ensures Encode(cs)[Off(cs, i)..Off(cs, i + 1)] == WriteCodePoint(cs[i])
  {
    EncodeSlice(cs, i, i + 1);
    assert cs[i..i + 1] == [cs[i]];
    EncodeOne(cs[i]);
    WriteShape(cs[i]);
  }

  lemma {:induction false} OffMonotone(cs: seq<Code>, i: nat, j: nat)
    requires i <= j <= |cs|
    ensures j - i <= Off(cs, j) - Off(cs, i)
    decreases j - i
  {
    if i < j {
      OffStep(cs, i);
      WriteShape(cs[i]);
      OffMonotone(cs, i + 1, j);
    }
  }

  /** Offsets are as ordered as the indices they belong to. */
  lemma OffOrder(cs: seq<Code>, i: nat, j: nat)
    requires i <= |cs| && j <= |cs|
    ensures i <= j <==> Off(cs, i) <= Off(cs, j)
    ensures i == j <==> Off(cs, i) == Off(cs, j)
  {
    if i <= j { OffMonotone(cs, i, j); } else { OffMonotone(cs, j, i); }
  }

  /** The reader walks an encoded text one code point at a time. */
  lemma ReadAt(cs: seq<Code>, i: nat)
    requires i < |cs|
    ensures Off(cs, i) < |Encode(cs)|
    ensures ReadCodePoint(Encode(cs), Off(cs, i)) == ReadResult(Off(cs, i + 1), cs[i])
  {
    OffStep(cs, i);
    WriteShape(cs[i]);
    ReadWrite(cs[i], Encode(cs), Off(cs, i));
  }

  /** Everything `s` decodes to, from `pos` on. */
  function Decode(s: seq<byte>, pos: nat): seq<nat>
    requires pos <= |s|
    decreases |s| - pos
  {
    if pos == |s| then []
    else var r := ReadCodePoint(s, pos); [r.code] + Decode(s, r.next)
  }

  /** Round trip of a whole text. */
  lemma {:induction false} DecodeEncode(cs: seq<Code>, i: nat)
    requires i <= |cs|
    ensures Off(cs, i) <= |Encode(cs)|
    ensures Decode(Encode(cs), Off(cs, i)) == cs[i..]
    decreases |cs| - i
  {
    hide Encode, Off, ReadCodePoint;
    OffEnds(cs);
    if i < |cs| {
      ReadAt(cs, i);
      DecodeEncode(cs, i + 1);
      assert cs[i..] == [cs[i]] + cs[i + 1..];
    }
  }

  lemma EncodeInjective(a: seq<Code>, b: seq<Code>)
    requires Encode(a) == Encode(b)
    ensures a == b
  {
    DecodeEncode(a, 0);
    DecodeEncode(b, 0);
    assert a[0..] == a && b[0..] == b;
  }

  /** Encodings are prefix-free, so a byte prefix that is itself an encoding is a code point prefix. */
  lemma {:induction false} EncodePrefix(a: seq<Code>, b: seq<Code>)
    requires Encode(a) <= Encode(b)
    ensures a <= b
  {
    hide WriteCodePoint;
    if a != [] {
      WriteShape(a[0]);
      WriteShape(b[0]);
      FirstCode(a[0], Encode(a[1..]), b[0], Encode(b[1..]));
      EncodePrefix(a[1..], b[1..]);
      assert a == [a[0]] + a[1..] && b == [b[0]] + b[1..];
    }
  }

  /** The first byte tells how long an encoding is, so one that is in front of the other is the other. */
  lemma FirstCode(c: Code, x: seq<byte>, d: Code, y: seq<byte>)
    requires WriteCodePoint(c) + x <= WriteCodePoint(d) + y
    ensures c == d && x <= y
  {
    hide WriteCodePoint, ReadCodePoint, MultiByteSequenceLength;
    var v, w := WriteCodePoint(c), WriteCodePoint(d);
    WriteShape(c);
    WriteShape(d);
    assert (v + x)[0] == (w + y)[0];
    assert (v + x)[..|v|] == v && (w + y)[..|v|] == w;
    ReadWrite(c, v, 0);
    ReadWrite(d, v, 0);
    assert (v + x)[|v|..] == x && (w + y)[|v|..] == y;
  }

  // ----- from byte offsets back to code points -----

  lemma OffPrefix(cs: seq<Code>, m: nat, j: nat)
    requires j < m <= |cs|
    ensures Off(cs[..m], j) == Off(cs, j) && Off(cs[..m], j + 1) == Off(cs, j + 1)
  {
    hide Encode;
    assert cs[..m][..j] == cs[..j] && cs[..m][..j + 1] == cs[..j + 1];
  }

  /** The code point that byte `x` belongs to. */
  function CodeIndex(cs: seq<Code>, x: nat): (j: nat)
    requires x < |Encode(cs)|
    ensures j < |cs| && Off(cs, j) <= x < Off(cs, j + 1)
    decreases |cs|
  {
    var m := |cs| - 1;
    OffEnds(cs);
    if Off(cs, m) <= x then m
    else
      var j := CodeIndex(cs[..m], x);
      OffPrefix(cs, m, j);
      j
  }

  /** A byte below 0x80 is a code point of its own; a zero byte never occurs. */
  lemma AsciiByte(cs: seq<Code>, x: nat)
    requires x < |Encode(cs)|
    ensures var j := CodeIndex(cs, x);
            && Encode(cs)[x] != 0
            && (Encode(cs)[x] < 0x80 ==> x == Off(cs, j) && cs[j] == Encode(cs)[x])
            && (cs[j] < 0x80 ==> x == Off(cs, j) && cs[j] == Encode(cs)[x])
            && (IsContinuation(Encode(cs)[x]) <==> x != Off(cs, j))
  {
    var j := CodeIndex(cs, x);
    OffStep(cs, j);
    WriteShape(cs[j]);
    assert Encode(cs)[x] == Encode(cs)[Off(cs, j)..Off(cs, j + 1)][x - Off(cs, j)];
  }

  /** Walks back over continuation bytes. */
  method MoveBackwardsToCodePointBegin(s: seq<byte>, reader: nat, ghost cs: seq<Code>) returns (begin: nat)
    requires s == Encode(cs) && reader < |s|
    ensures begin == Off(cs, CodeIndex(cs, reader))
  {
    begin := reader;
    ghost var j := CodeIndex(cs, reader);
    AsciiByte(cs, begin);
    while IsContinuation(s[begin])
      invariant begin < |s| && CodeIndex(cs, begin) == j
      invariant IsContinuation(s[begin]) <==> begin != Off(cs, j)
      decreases begin
    {
      begin := begin - 1;
      var k := CodeIndex(cs, begin);
      OffOrder(cs, j, k + 1);
      OffOrder(cs, k, j);
      OffOrder(cs, k, j + 1);
      AsciiByte(cs, begin);
    }
  }
}
