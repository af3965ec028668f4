/** Patterns as they are written, symbol by symbol, some of them behind the escape character; and exactly when the
    tokenizer, which looks one byte back, cuts such a pattern where its symbols say. */
module PatternTexts {
  import opened Options
  import opened Utf8
  import opened LikePredicate
  import opened Tokenizers

  datatype Tok = Tok(code: Code, escaped: bool)
  {
    ghost function Sym(): Sym
    {
      if escaped then Char(code) else Plain(code)
    }

    /** How many bytes of the symbol are the escape character. */
    function EscapeLen(): nat
    {
      if escaped then 1 else 0
    }
  }

  ghost function TokBytes(k: Tok, esc: Option<Code>): seq<byte>
  {
    (if k.escaped && esc.Some? then WriteCodePoint(esc.value) else []) + WriteCodePoint(k.code)
  }

  ghost function BytesOf(toks: seq<Tok>, esc: Option<Code>): seq<byte>
  {
    if toks == [] then [] else TokBytes(toks[0], esc) + BytesOf(toks[1..], esc)
  }

  ghost function CodesOf(toks: seq<Tok>): (cs: seq<Code>)
    ensures |cs| == |toks| && forall k :: 0 <= k < |cs| ==> cs[k] == toks[k].code
  {
    seq(|toks|, k requires 0 <= k < |toks| => toks[k].code)
  }

  ghost function SymsOf(toks: seq<Tok>): (ps: seq<Sym>)
    ensures |ps| == |toks| && forall k :: 0 <= k < |ps| ==> ps[k] == toks[k].Sym()
  {
    seq(|toks|, k requires 0 <= k < |toks| => toks[k].Sym())
  }

  /** The escape character is one ASCII character and no wildcard; it does not stand for itself. */
  ghost predicate WrittenRight(k: Tok, esc: Option<Code>)
  {
    if k.escaped then esc.Some? else esc != Some(k.code)
  }

  ghost predicate ProperEscape(esc: Option<Code>)
  {
    esc.Some? ==> esc.value < 0x80 && !IsWildcard(esc.value)
  }

  datatype Source = Source(toks: seq<Tok>, esc: Option<Code>)
  {
    ghost predicate Valid()
    {
      ProperEscape(esc) && forall j :: 0 <= j < |toks| ==> WrittenRight(toks[j], esc)
    }

    ghost function Bytes(): seq<byte>
    {
      BytesOf(toks, esc)
    }

    ghost function Syms(): seq<Sym>
    {
      SymsOf(toks)
    }

    /** The byte offset of symbol `i`. */
    ghost function At(i: nat): nat
      requires i <= |toks|
    {
      |BytesOf(toks[..i], esc)|
    }

    /** How many of the symbols from `a` to `z` are escaped. */
    ghost function Escapes(a: nat, z: nat): nat
      requires a <= z <= |toks|
      decreases z - a
    {
      if a == z then 0 else Escapes(a, z - 1) + toks[z - 1].EscapeLen()
    }

    ghost predicate Wild(j: nat, c: Code)
      requires j < |toks|
    {
      toks[j] == Tok(c, false)
    }

    /** Symbol `j` stands behind an escaped escape character. */
    ghost predicate BehindEscape(j: nat)
      requires j < |toks|
    {
      j > 0 && toks[j - 1].escaped && esc == Some(toks[j - 1].code)
    }

    /** How many of the bytes of symbol `j` the tokenizer counts as escaped. */
    ghost function TokCounted(j: nat): nat
      requires j < |toks|
    {
      if toks[j].escaped then
        (if BehindEscape(j) then 1 else 0)
        + (if IsWildcard(toks[j].code) || esc == Some(toks[j].code) then 1 else 0)
      else if BehindEscape(j) && IsWildcard(toks[j].code) then 1 else 0
    }

    /** How many more bytes than there are escape characters it counts. */
    ghost function Skew(a: nat, z: nat): int
      requires a <= z <= |toks|
      decreases z - a
    {
      if a == z then 0 else Skew(a, z - 1) + TokCounted(z - 1) - toks[z - 1].EscapeLen()
    }

    /** A literal that is not the first of its segment starts at symbol `z`; the segment starts at `a`. */
    ghost predicate LaterLiteral(a: nat, z: nat)
    {
      && a < z < |toks| && (a == 0 || Wild(a - 1, PERCENT)) && (forall k :: a <= k <= z ==> !Wild(k, PERCENT))
      && Wild(z - 1, UNDERSCORE) && !Wild(z, UNDERSCORE) && (exists k :: a <= k < z && !Wild(k, UNDERSCORE))
    }

    /** No wildcard stands behind an escaped escape character; and in front of every later literal of a segment the
        count of escapes is right. */
    ghost predicate Readable()
    {
      && (forall j :: 0 <= j < |toks| && (Wild(j, PERCENT) || Wild(j, UNDERSCORE)) ==> !BehindEscape(j))
      && (forall a: nat, z: nat :: LaterLiteral(a, z) ==> Skew(a, z) == 0)
    }

    /** What the tokenizer does is what the symbols say: it cuts at the wildcards and nowhere else, and the offset it
        gives to a later literal of a segment leaves out the escape characters in front of it. */
    ghost predicate ReadRight()
    {
      && (forall x, b: byte :: IsWildcard(b) && 0 <= x < |Bytes()| ==>
            (IsDelim(Bytes(), esc, b, x) <==> exists j :: 0 <= j < |toks| && At(j) == x && Wild(j, b)))
      && (forall a: nat, z: nat :: LaterLiteral(a, z) && At(a) <= At(z) <= |Bytes()| ==>
            At(z) - Counted(Bytes(), esc, At(a), At(z)) == At(z) - Escapes(a, z))
    }
  }

  // ----- bytes and symbols -----

  lemma {:induction false} BytesConcat(a: seq<Tok>, b: seq<Tok>, esc: Option<Code>)
    ensures BytesOf(a + b, esc) == BytesOf(a, esc) + BytesOf(b, esc)
  {
    hide TokBytes;
    if a == [] {
      assert a + b == b;
    } else {
      assert (a + b)[1..] == a[1..] + b;
      BytesConcat(a[1..], b, esc);
    }
  }

  lemma BytesOne(k: Tok, esc: Option<Code>)
    ensures BytesOf([k], esc) == TokBytes(k, esc)
  {
    hide TokBytes;
    assert BytesOf([k][1..], esc) == [];
  }

  /** A symbol is its escape character, if it has one, and a code point. */
  lemma TokShape(k: Tok, esc: Option<Code>)
    requires ProperEscape(esc) && WrittenRight(k, esc)
    ensures var w, n := TokBytes(k, esc), k.EscapeLen();
            && n < |w| && (k.escaped ==> w[0] == esc.value) && w[n..] == WriteCodePoint(k.code)
            && (IsWildcard(w[n]) || (esc.Some? && w[n] == esc.value) ==> w[n] == k.code)
            && (k.code < 0x80 ==> |w| == n + 1 && w[n] == k.code)
            && (forall i :: n < i < |w| ==> w[i] >= 0x80)
            && (esc.Some? ==> (w[|w| - 1] == esc.value <==> esc.value == k.code))
  {
    hide WriteCodePoint;
    WriteTail(k.code);
    if k.escaped { WriteTail(esc.value); }
  }

  /** Only the first byte of an encoding can be an ASCII character. */
  lemma WriteTail(c: Code)
    ensures var w := WriteCodePoint(c);
            && 0 < |w| && (c < 0x80 ==> w == [c]) && (w[0] < 0x80 ==> w[0] == c)
            && (forall i :: 0 < i < |w| ==> w[i] >= 0x80) && (w[|w| - 1] < 0x80 ==> w[|w| - 1] == c)
  {
    hide WriteCodePoint;
    WriteShape(c);
    assert forall i :: 0 < i < |WriteCodePoint(c)| ==> IsContinuation(WriteCodePoint(c)[i]);
  }

  lemma AtSlice(s: Source, i: nat, j: nat)
    requires i <= j <= |s.toks|
    ensures s.At(i) <= s.At(j) <= |s.Bytes()|
    ensures s.At(j) - s.At(i) == |BytesOf(s.toks[i..j], s.esc)|
    ensures s.Bytes()[s.At(i)..s.At(j)] == BytesOf(s.toks[i..j], s.esc)
  {
    hide BytesOf;
    var t := s.toks;
    assert t == t[..i] + t[i..j] + t[j..] && t[..j] == t[..i] + t[i..j];
    BytesConcat(t[..i] + t[i..j], t[j..], s.esc);
    BytesConcat(t[..i], t[i..j], s.esc);
  }

  lemma AtEnds(s: Source)
    ensures s.At(0) == 0 && s.At(|s.toks|) == |s.Bytes()|
  {
    assert s.toks[..|s.toks|] == s.toks;
  }

  lemma AtStep(s: Source, i: nat)
    requires i < |s.toks|
    ensures s.At(i) <= s.At(i + 1) == s.At(i) + |TokBytes(s.toks[i], s.esc)| <= |s.Bytes()|
    ensures s.Bytes()[s.At(i)..s.At(i + 1)] == TokBytes(s.toks[i], s.esc)
  {
    hide TokBytes, BytesOf;
    AtSlice(s, i, i + 1);
    assert s.toks[i..i + 1] == [s.toks[i]];
    BytesOne(s.toks[i], s.esc);
  }

  lemma {:induction false} AtMonotone(s: Source, i: nat, j: nat)
    requires s.Valid() && i <= j <= |s.toks|
    ensures s.At(i) + (j - i) <= s.At(j)
    decreases j - i
  {
    hide TokBytes, Source.At, BytesOf;
    if i < j {
      AtStep(s, i);
      TokShape(s.toks[i], s.esc);
      AtMonotone(s, i + 1, j);
    }
  }

  lemma AtOrder(s: Source, i: nat, j: nat)
    requires s.Valid() && i <= |s.toks| && j <= |s.toks|
    ensures i <= j <==> s.At(i) <= s.At(j)
    ensures i == j <==> s.At(i) == s.At(j)
  {
    hide Source.At;
    if i < j { AtMonotone(s, i, j); } else { AtMonotone(s, j, i); }
  }

  /** The symbol that byte `x` belongs to. */
  lemma {:induction false} TokIndex(s: Source, x: nat, n: nat) returns (j: nat)
    requires n <= |s.toks| && x < s.At(n)
    ensures j < n && s.At(j) <= x < s.At(j + 1)
    decreases n
  {
    AtEnds(s);
    j := n - 1;
    if x < s.At(j) { j := TokIndex(s, x, j); }
  }

  /** What stands at byte `x` of symbol `j`, and what stands before it. */
  lemma ByteOf(s: Source, x: nat, j: nat)
    requires s.Valid() && j < |s.toks| && s.At(j) <= x < s.At(j + 1)
    ensures x < |s.Bytes()|
    ensures var n, p := s.toks[j].EscapeLen(), s.Bytes();
            && (x < s.At(j) + n ==> p[x] == s.esc.value && x == s.At(j))
            && (x == s.At(j) + n && (IsWildcard(p[x]) || (s.esc.Some? && p[x] == s.esc.value)) ==>
                  p[x] == s.toks[j].code)
            && (x == s.At(j) + n && s.toks[j].code < 0x80 ==> p[x] == s.toks[j].code)
            && (x > s.At(j) + n ==> p[x] >= 0x80)
            && (x == s.At(j) + 1 && n == 1 ==> p[x - 1] == s.esc.value)
  {
    hide TokBytes, Source.At, BytesOf;
    AtStep(s, j);
    TokShape(s.toks[j], s.esc);
    var w := TokBytes(s.toks[j], s.esc);
    assert s.Bytes()[x] == w[x - s.At(j)];
    if x > s.At(j) { assert s.Bytes()[x - 1] == w[x - 1 - s.At(j)]; }
  }

  /** The byte in front of a symbol is the escape character only if that stands there for itself. */
  lemma BeforeTok(s: Source, j: nat)
    requires s.Valid() && j < |s.toks|
    ensures s.At(j) < |s.Bytes()| && (IsEscaped(s.Bytes(), s.esc, s.At(j)) <==> s.BehindEscape(j))
  {
    hide TokBytes, Source.At, Source.Bytes, WriteCodePoint;
    AtStep(s, j);
    TokShape(s.toks[j], s.esc);
    if j == 0 {
      AtEnds(s);
    } else if s.esc.Some? {
      LastByte(s, j - 1);
    }
  }

  /** A symbol ends with the escape character only if it is that character. */
  lemma LastByte(s: Source, j: nat)
    requires s.Valid() && j < |s.toks| && s.esc.Some?
    ensures 0 < s.At(j + 1) <= |s.Bytes()|
    ensures s.Bytes()[s.At(j + 1) - 1] == s.esc.value <==> s.toks[j].escaped && s.toks[j].code == s.esc.value
  {
    hide TokBytes, Source.At, Source.Bytes, WriteCodePoint;
    AtStep(s, j);
    TokShape(s.toks[j], s.esc);
    var w := TokBytes(s.toks[j], s.esc);
    assert s.Bytes()[s.At(j)..s.At(j + 1)][|w| - 1] == s.Bytes()[s.At(j + 1) - 1];
  }

  /** The tokenizer cuts at the wildcards that do not stand behind an escaped escape character. */
  lemma DelimIs(s: Source, x: nat, j: nat, b: byte)
    requires s.Valid() && j < |s.toks| && s.At(j) <= x < s.At(j + 1) && IsWildcard(b)
    ensures x < |s.Bytes()|
    ensures IsDelim(s.Bytes(), s.esc, b, x) <==> x == s.At(j) && s.Wild(j, b) && !s.BehindEscape(j)
  {
    hide Source.At, Source.Bytes, Source.BehindEscape;
    ByteOf(s, x, j);
    BeforeTok(s, j);
  }

  /** The bytes of symbol `j` that are counted. */
  lemma CountedTok(s: Source, j: nat)
    requires s.Valid() && j < |s.toks|
    ensures s.At(j) <= s.At(j + 1) <= |s.Bytes()|
    ensures Counted(s.Bytes(), s.esc, s.At(j), s.At(j + 1)) == s.TokCounted(j)
  {
    hide Source.At, Source.Bytes, TokBytes, Source.BehindEscape;
    AtStep(s, j);
    TokShape(s.toks[j], s.esc);
    var p, x, n := s.Bytes(), s.At(j), s.toks[j].EscapeLen();
    ByteOf(s, x, j);
    ByteOf(s, x + n, j);
    BeforeTok(s, j);
    forall k | x + n < k < s.At(j + 1) ensures !IsEscaped(p, s.esc, k) || !IsEscapable(p, s.esc, k) {
      ByteOf(s, k, j);
    }
    CountedSplit(p, s.esc, x, x + n + 1, s.At(j + 1));
    CountedNone(p, s.esc, x + n + 1, s.At(j + 1));
    assert Counted(p, s.esc, x, x) == 0;
    if n == 1 { assert Counted(p, s.esc, x, x + 1) == if s.BehindEscape(j) then 1 else 0; }
  }

  lemma {:induction false} CountedToks(s: Source, a: nat, z: nat)
    requires s.Valid() && a <= z <= |s.toks|
    ensures s.At(a) <= s.At(z) <= |s.Bytes()|
    ensures Counted(s.Bytes(), s.esc, s.At(a), s.At(z)) == s.Escapes(a, z) + s.Skew(a, z)
    decreases z - a
  {
    hide Source.At, Source.Bytes, Source.TokCounted, Counted, WrittenRight;
    if a == z {
      AtSlice(s, a, z);
      CountedNone(s.Bytes(), s.esc, s.At(a), s.At(z));
    } else {
      var y := z - 1;
      CountedToks(s, a, y);
      CountedTok(s, y);
      CountedSplit(s.Bytes(), s.esc, s.At(a), s.At(y), s.At(z));
    }
  }

  // ----- the exact condition -----

  lemma CutsRight(s: Source, x: nat, b: byte)
    requires s.Valid() && s.Readable() && IsWildcard(b) && x < |s.Bytes()|
    ensures IsDelim(s.Bytes(), s.esc, b, x) <==> exists j :: 0 <= j < |s.toks| && s.At(j) == x && s.Wild(j, b)
  {
    hide Source.At, Source.Bytes, Source.BehindEscape;
    AtEnds(s);
    var j := TokIndex(s, x, |s.toks|);
    DelimIs(s, x, j, b);
    forall i | 0 <= i < |s.toks| && s.At(i) == x && s.Wild(i, b) ensures i == j {
      AtOrder(s, i, j);
      AtOrder(s, i, j + 1);
    }
  }

  /** A wildcard behind an escaped escape character is not cut at. */
  lemma WildHidden(s: Source, j: nat, b: byte)
    requires s.Valid() && s.ReadRight() && j < |s.toks| && IsWildcard(b) && s.Wild(j, b)
    ensures !s.BehindEscape(j)
  {
    hide Source.At, Source.Bytes, Source.BehindEscape;
    AtStep(s, j);
    TokShape(s.toks[j], s.esc);
    DelimIs(s, s.At(j), j, b);
  }

  /** The tokenizer reads a pattern right exactly if it is readable. */
  lemma ReadableIsExact(s: Source)
    requires s.Valid()
    ensures s.ReadRight() <==> s.Readable()
  {
    hide Source.At, Source.Bytes, Source.BehindEscape, Source.Skew, Source.Escapes, Source.LaterLiteral;
    forall a: nat, z: nat | s.LaterLiteral(a, z)
      ensures a <= z <= |s.toks| && s.At(a) <= s.At(z) <= |s.Bytes()|
      ensures Counted(s.Bytes(), s.esc, s.At(a), s.At(z)) == s.Escapes(a, z) <==> s.Skew(a, z) == 0
    {
      LaterLiteralIn(s, a, z);
      CountedToks(s, a, z);
    }
    if s.Readable() {
      forall x, b: byte | IsWildcard(b) && 0 <= x < |s.Bytes()|
        ensures IsDelim(s.Bytes(), s.esc, b, x) <==> exists j :: 0 <= j < |s.toks| && s.At(j) == x && s.Wild(j, b)
      {
        CutsRight(s, x, b);
      }
    }
    if s.ReadRight() {
      forall j | 0 <= j < |s.toks| && (s.Wild(j, PERCENT) || s.Wild(j, UNDERSCORE)) ensures !s.BehindEscape(j) {
        WildHidden(s, j, s.toks[j].code);
      }
    }
  }

  lemma LaterLiteralIn(s: Source, a: nat, z: nat)
    requires s.LaterLiteral(a, z)
    ensures a < z < |s.toks|
  {
  }

  /** Without an ESCAPE clause every pattern is readable, and so is one that escapes wildcards only. */
  lemma {:induction false} SkewNone(s: Source, a: nat, z: nat)
    requires a <= z <= |s.toks| && forall j :: 0 <= j < |s.toks| && s.toks[j].escaped ==> IsWildcard(s.toks[j].code)
    requires s.Valid()
    ensures s.Skew(a, z) == 0
    decreases z - a
  {
    if a < z { SkewNone(s, a, z - 1); }
  }

  lemma WildcardsEscaped(s: Source)
    requires s.Valid() && forall j :: 0 <= j < |s.toks| && s.toks[j].escaped ==> IsWildcard(s.toks[j].code)
    ensures s.Readable()
  {
    forall a: nat, z: nat | s.LaterLiteral(a, z) ensures s.Skew(a, z) == 0 { SkewNone(s, a, z); }
  }

  // ----- the cuts of the tokenizer in symbols -----

  /** A delimiter is the first byte of a wildcard. */
  lemma DelimAt(s: Source, x: nat, b: byte) returns (j: nat)
    requires s.Valid() && IsWildcard(b) && x < |s.Bytes()| && IsDelim(s.Bytes(), s.esc, b, x)
    ensures j < |s.toks| && s.At(j) == x && s.Wild(j, b) && s.At(j + 1) == x + 1
  {
    hide Source.At, Source.Bytes, Source.BehindEscape, TokBytes, IsDelim;
    AtEnds(s);
    j := TokIndex(s, x, |s.toks|);
    DelimIs(s, x, j, b);
    AtStep(s, j);
    TokShape(s.toks[j], s.esc);
  }

  /** A run of delimiters that starts at a symbol is a run of that wildcard. */
  lemma {:induction false} DelimRun(s: Source, a: nat, y: nat, b: byte)
    requires s.Valid() && IsWildcard(b) && a <= |s.toks| && s.At(a) <= y <= |s.Bytes()|
    requires AllDelims(s.Bytes(), s.esc, s.At(a), y, b)
    ensures a + (y - s.At(a)) <= |s.toks| && s.At(a + (y - s.At(a))) == y
    ensures forall k :: a <= k < a + (y - s.At(a)) ==> s.Wild(k, b)
    decreases y - s.At(a)
  {
    hide Source.At, Source.Bytes, Source.BehindEscape, IsDelim;
    if s.At(a) < y {
      var j := DelimAt(s, s.At(a), b);
      AtOrder(s, a, j);
      DelimRun(s, a + 1, y, b);
    }
  }

  /** Where there is no delimiter there is no such wildcard. */
  lemma NoDelimToks(s: Source, a: nat, z: nat, b: byte)
    requires s.Valid() && s.Readable() && IsWildcard(b) && a <= z <= |s.toks| && s.At(z) <= |s.Bytes()|
    requires NoDelim(s.Bytes(), s.esc, s.At(a), s.At(z), b)
    ensures forall k :: a <= k < z ==> !s.Wild(k, b)
  {
    hide Source.At, Source.Bytes, Source.BehindEscape, IsDelim, Source.Skew, Source.LaterLiteral;
    forall k | a <= k < z ensures !s.Wild(k, b) {
      AtOrder(s, a, k);
      AtOrder(s, k + 1, z);
      AtOrder(s, k, k + 1);
      DelimIs(s, s.At(k), k, b);
    }
  }

  // ----- offsets without the escape characters -----

  /** Where symbol `z` stands when the escape characters of its segment, which starts at `a`, are left out. */
  ghost function Clean(s: Source, a: nat, z: nat): int
    requires a <= z <= |s.toks|
  {
    s.At(z) - s.Escapes(a, z)
  }

  lemma CleanStep(s: Source, a: nat, z: nat)
    requires s.Valid() && a <= z < |s.toks|
    ensures Clean(s, a, z + 1) == Clean(s, a, z) + |WriteCodePoint(s.toks[z].code)|
    ensures s.toks[z].code < 0x80 ==> |WriteCodePoint(s.toks[z].code)| == 1
  {
    hide Source.At, TokBytes, WriteCodePoint;
    AtStep(s, z);
    TokShape(s.toks[z], s.esc);
    WriteShape(s.toks[z].code);
  }

  lemma {:induction false} CleanCodes(s: Source, a: nat, x: nat, y: nat)
    requires s.Valid() && a <= x <= y <= |s.toks|
    ensures Clean(s, a, y) == Clean(s, a, x) + |Encode(CodesOf(s.toks[x..y]))|
    decreases y - x
  {
    hide Clean, WriteCodePoint;
    if x == y {
      assert CodesOf(s.toks[x..y]) == [];
    } else {
      CleanCodes(s, a, x, y - 1);
      CleanStep(s, a, y - 1);
      var c := s.toks[y - 1].code;
      assert CodesOf(s.toks[x..y]) == CodesOf(s.toks[x..y - 1]) + [c];
      EncodeConcat(CodesOf(s.toks[x..y - 1]), [c]);
      EncodeOne(c);
    }
  }

  lemma {:induction false} CleanRun(s: Source, a: nat, x: nat, y: nat)
    requires s.Valid() && a <= x <= y <= |s.toks| && forall k :: x <= k < y ==> s.Wild(k, UNDERSCORE)
    ensures Clean(s, a, y) == Clean(s, a, x) + (y - x) && s.At(y) == s.At(x) + (y - x)
    decreases y - x
  {
    hide Source.At, WriteCodePoint;
    if x < y {
      CleanRun(s, a, x, y - 1);
      assert s.Wild(y - 1, UNDERSCORE);
      CleanStep(s, a, y - 1);
    }
  }

  lemma {:induction false} CleanBounds(s: Source, a: nat, z: nat)
    requires s.Valid() && a <= z <= |s.toks|
    ensures s.At(a) <= Clean(s, a, z) <= s.At(z)
    decreases z - a
  {
    hide Source.At, WriteCodePoint;
    if a < z {
      CleanBounds(s, a, z - 1);
      CleanStep(s, a, z - 1);
    }
  }

  /** What is counted in front of a literal is what there is to leave out. */
  lemma CountedClean(s: Source, a: nat, z: nat, x: nat)
    requires s.Valid() && s.Readable() && a <= z <= x < |s.toks| && s.At(a) <= s.At(z) <= |s.Bytes()|
    requires (a == 0 || s.Wild(a - 1, PERCENT)) && forall k :: a <= k <= x ==> !s.Wild(k, PERCENT)
    requires (forall k :: z <= k < x ==> s.Wild(k, UNDERSCORE)) && !s.Wild(x, UNDERSCORE)
    requires z == a || (z < x && !s.Wild(z - 1, UNDERSCORE))
    ensures s.At(x) - Counted(s.Bytes(), s.esc, s.At(a), s.At(z)) == Clean(s, a, x)
  {
    hide Source.At, Source.Bytes, Counted, Source.BehindEscape;
    CountedToks(s, a, z);
    SkewRun(s, a, z, x);
    if z == a {
      assert s.Skew(a, z) == 0 && s.Escapes(a, z) == 0;
    } else {
      assert s.LaterLiteral(a, x);
    }
  }

  /** Underscores are not escaped and, where the pattern is readable, not counted. */
  lemma {:induction false} SkewRun(s: Source, a: nat, z: nat, x: nat)
    requires s.Valid() && s.Readable() && a <= z <= x <= |s.toks| && forall k :: z <= k < x ==> s.Wild(k, UNDERSCORE)
    ensures s.Skew(a, x) == s.Skew(a, z) && s.Escapes(a, x) == s.Escapes(a, z)
    decreases x - z
  {
    hide Source.BehindEscape, Source.LaterLiteral;
    if z < x { SkewRun(s, a, z, x - 1); }
  }

  // ----- stripping -----

  lemma {:induction false} StripPlain(w: seq<byte>, r: seq<byte>, esc: Option<Code>)
    requires esc.Some? ==> forall k :: 0 <= k < |w| ==> w[k] != esc.value
    ensures Stripped(w + r, esc) == w + Stripped(r, esc)
  {
    if w == [] {
      assert w + r == r;
    } else {
      assert (w + r)[1..] == w[1..] + r;
      StripPlain(w[1..], r, esc);
    }
  }

  lemma TokBytesAre(k: Tok, esc: Option<Code>)
    requires ProperEscape(esc) && WrittenRight(k, esc)
    ensures TokBytes(k, esc) == (if k.escaped then [esc.value as byte] else []) + WriteCodePoint(k.code)
    ensures WriteCodePoint(k.code) != []
    ensures esc.Some? ==> forall i :: 1 <= i < |WriteCodePoint(k.code)| ==> WriteCodePoint(k.code)[i] != esc.value
    ensures esc.Some? && !k.escaped ==> WriteCodePoint(k.code)[0] != esc.value
  {
    hide WriteCodePoint;
    WriteShape(k.code);
    if k.escaped { WriteShape(esc.value); }
  }

  lemma StripTok(k: Tok, r: seq<byte>, esc: Option<Code>)
    requires ProperEscape(esc) && WrittenRight(k, esc)
    ensures Stripped(TokBytes(k, esc) + r, esc) == WriteCodePoint(k.code) + Stripped(r, esc)
  {
    hide WriteCodePoint, Stripped, TokBytes;
    TokBytesAre(k, esc);
    var v := WriteCodePoint(k.code);
    if k.escaped {
      StripEscapedTok(v, r, esc);
    } else {
      assert TokBytes(k, esc) == v;
      StripPlain(v, r, esc);
    }
  }

  lemma StripEscapedTok(v: seq<byte>, r: seq<byte>, esc: Option<Code>)
    requires esc.Some? && esc.value < 0x80 && v != [] && forall i :: 1 <= i < |v| ==> v[i] != esc.value
    ensures Stripped([esc.value as byte] + v + r, esc) == v + Stripped(r, esc)
  {
    hide Stripped;
    var s := [esc.value as byte] + v + r;
    assert s[1] == v[0] && s[2..] == v[1..] + r;
    StripTwo(s, esc);
    StripPlain(v[1..], r, esc);
  }

  lemma StripTwo(s: seq<byte>, esc: Option<Code>)
    requires esc.Some? && |s| > 1 && s[0] == esc.value
    ensures Stripped(s, esc) == [s[1]] + Stripped(s[2..], esc)
  {
  }

  lemma StripNothing(esc: Option<Code>)
    ensures Stripped([], esc) == []
  {
  }

  /** Taking the escapes out of a stretch of pattern leaves its code points. */
  lemma {:induction false} StripToks(toks: seq<Tok>, esc: Option<Code>)
    requires ProperEscape(esc) && forall j :: 0 <= j < |toks| ==> WrittenRight(toks[j], esc)
    ensures Stripped(BytesOf(toks, esc), esc) == Encode(CodesOf(toks))
  {
    hide TokBytes, WriteCodePoint, Stripped;
    if toks == [] {
      StripNothing(esc);
    } else {
      StripToks(toks[1..], esc);
      StripTok(toks[0], BytesOf(toks[1..], esc), esc);
      assert CodesOf(toks)[1..] == CodesOf(toks[1..]);
    }
  }

  // ----- from code points to symbols -----

  /** The symbols of a pattern that does not end in a bare escape character. */
  ghost function Tokens(pc: seq<Code>, esc: Option<Code>): seq<Tok>
    requires BareEscape !in Reads(pc, esc)
  {
    if pc == [] then []
    else if esc == Some(pc[0]) then
      assert |pc| > 1 && Reads(pc, esc)[1..] == Reads(pc[2..], esc);
      [Tok(pc[1], true)] + Tokens(pc[2..], esc)
    else
      assert Reads(pc, esc)[1..] == Reads(pc[1..], esc);
      [Tok(pc[0], false)] + Tokens(pc[1..], esc)
  }

  /** They say what the pattern says, and they are written as it is. */
  lemma {:induction false} TokensAre(pc: seq<Code>, esc: Option<Code>)
    requires BareEscape !in Reads(pc, esc)
    ensures SymsOf(Tokens(pc, esc)) == Reads(pc, esc) && BytesOf(Tokens(pc, esc), esc) == Encode(pc)
    ensures forall j :: 0 <= j < |Tokens(pc, esc)| ==> WrittenRight(Tokens(pc, esc)[j], esc)
  {
    hide WriteCodePoint, SymsOf, TokBytes, Encode, WrittenRight;
    if pc == [] {
      NoTokens(esc);
    } else {
      var n := if esc == Some(pc[0]) then 2 else 1;
      assert Reads(pc, esc)[1..] == Reads(pc[n..], esc);
      TokensAre(pc[n..], esc);
      TokenStep(pc, esc, n);
      TokenBytes(pc, esc, n);
      SymsStep(Tokens(pc, esc));
    }
  }

  lemma NoTokens(esc: Option<Code>)
    ensures SymsOf([]) == [] && BytesOf([], esc) == Encode([]) == []
  {
  }

  lemma SymsStep(ts: seq<Tok>)
    requires ts != []
    ensures SymsOf(ts) == [ts[0].Sym()] + SymsOf(ts[1..])
  {
  }

  lemma TokenStep(pc: seq<Code>, esc: Option<Code>, n: nat)
    requires BareEscape !in Reads(pc, esc) && pc != [] && n == if esc == Some(pc[0]) then 2 else 1
    ensures n <= |pc| && BareEscape !in Reads(pc[n..], esc) && Tokens(pc, esc) != []
    ensures var k := Tokens(pc, esc)[0];
            && k == Tok(pc[n - 1], n == 2) && Tokens(pc, esc)[1..] == Tokens(pc[n..], esc)
            && WrittenRight(k, esc) && Reads(pc, esc) == [k.Sym()] + Reads(pc[n..], esc)
  {
    hide WriteCodePoint, Encode;
    assert Reads(pc, esc)[1..] == Reads(pc[n..], esc);
  }

  lemma TokenBytes(pc: seq<Code>, esc: Option<Code>, n: nat)
    requires pc != [] && n <= |pc| && n == if esc == Some(pc[0]) then 2 else 1
    ensures Encode(pc) == TokBytes(Tok(pc[n - 1], n == 2), esc) + Encode(pc[n..])
  {
    hide WriteCodePoint;
    if n == 2 {
      assert pc == [pc[0], pc[1]] + pc[2..];
      EncodeTwo(pc[0], pc[1], pc[2..]);
    }
  }

  lemma EncodeTwo(c: Code, d: Code, r: seq<Code>)
    ensures Encode([c, d] + r) == WriteCodePoint(c) + WriteCodePoint(d) + Encode(r)
  {
    hide WriteCodePoint;
    assert ([c, d] + r)[1..] == [d] + r && ([d] + r)[1..] == r;
  }

  /** Without an ESCAPE clause every code point is a symbol. */
  lemma {:induction false} PlainTokens(pc: seq<Code>)
    ensures BareEscape !in Reads(pc, None) && |Tokens(pc, None)| == |pc|
    ensures forall k :: 0 <= k < |pc| ==> Tokens(pc, None)[k] == Tok(pc[k], false)
  {
    ReadsPlain(pc);
    if pc != [] {
      assert Reads(pc, None)[1..] == Reads(pc[1..], None);
      PlainTokens(pc[1..]);
      assert Tokens(pc, None)[1..] == Tokens(pc[1..], None);
      assert forall k :: 0 < k < |pc| ==>
                           pc[k] == pc[1..][k - 1] && Tokens(pc, None)[k] == Tokens(pc[1..], None)[k - 1];
    }
  }

  /** If the escape character always stands in front of a wildcard, nothing else is escaped. */
  lemma {:induction false} WildcardTokens(pc: seq<Code>, esc: Option<Code>)
    requires forall x :: 0 <= x < |pc| && esc == Some(pc[x]) ==> x + 1 < |pc| && IsWildcard(pc[x + 1])
    requires ProperEscape(esc)
    ensures BareEscape !in Reads(pc, esc)
    ensures forall j :: 0 <= j < |Tokens(pc, esc)| && Tokens(pc, esc)[j].escaped ==> IsWildcard(Tokens(pc, esc)[j].code)
  {
    if pc != [] {
      var n := if esc == Some(pc[0]) then 2 else 1;
      assert Reads(pc, esc)[1..] == Reads(pc[n..], esc);
      forall x | 0 <= x < |pc[n..]| && esc == Some(pc[n..][x]) ensures x + 1 < |pc[n..]| && IsWildcard(pc[n..][x + 1]) {
        assert esc == Some(pc[x + n]);
      }
      WildcardTokens(pc[n..], esc);
      assert Reads(pc, esc) == [Reads(pc, esc)[0]] + Reads(pc[n..], esc);
      assert Tokens(pc, esc)[1..] == Tokens(pc[n..], esc);
    }
  }

  ghost function SourceOf(pc: seq<Code>, esc: Option<Code>): Source
    requires BareEscape !in Reads(pc, esc)
  {
    Source(Tokens(pc, esc), esc)
  }
}
