/** The ESCAPE clause as the documentation of the tokenizer has it, and where the tokenizer differs. The clause is
    read from left to right; the tokenizer looks one byte back, for two things: whether a wildcard is escaped, and how
    many bytes of a segment are escape characters. */
module EscapeClause {
  import opened Options
  import opened Utf8
  import opened LikePredicate
  import opened Tokenizers
  import opened PatternTexts

  // ----- wildcards, for all byte strings -----

  /** Read from left to right, the byte at `i` makes the next one literal: it is the escape character, nothing
      before it has made it literal, and what follows can be escaped. */
  ghost predicate Acts(p: seq<byte>, esc: Code, i: nat)
  {
    && i + 1 < |p| && p[i] == esc && IsEscapable(p, Some(esc), i + 1)
    && !(i > 0 && Acts(p, esc, i - 1))
  }

  /** What the documentation says about the byte at `i`. */
  ghost predicate MadeLiteral(p: seq<byte>, esc: Code, i: nat)
  {
    i > 0 && Acts(p, esc, i - 1)
  }

  /** How many escape characters stand directly before `i`. */
  ghost function RunBefore(p: seq<byte>, esc: Code, i: nat): nat
    requires i <= |p|
  {
    if i > 0 && p[i - 1] == esc then RunBefore(p, esc, i - 1) + 1 else 0
  }

  lemma {:induction false} OddRunEscapes(p: seq<byte>, esc: Code, i: nat)
    requires i < |p| && IsEscapable(p, Some(esc), i)
    ensures MadeLiteral(p, esc, i) <==> RunBefore(p, esc, i) % 2 == 1
    decreases i
  {
    if i > 0 && p[i - 1] == esc {
      OddRunEscapes(p, esc, i - 1);
    }
  }

  /** The tokenizer takes the wildcard at `i` for what the documentation says it is. */
  ghost predicate WildcardRight(p: seq<byte>, esc: Code, i: nat)
    requires i < |p|
  {
    IsEscaped(p, Some(esc), i) <==> MadeLiteral(p, esc, i)
  }

  /** It does for all wildcards exactly if none of them stands behind an even number of escape characters, other
      than none. */
  lemma WildcardsReadRight(p: seq<byte>, esc: Code)
    ensures (forall i: nat :: i < |p| && IsWildcard(p[i]) ==> WildcardRight(p, esc, i)) <==>
            (forall i: nat :: i < |p| && IsWildcard(p[i]) ==>
               RunBefore(p, esc, i) == 0 || RunBefore(p, esc, i) % 2 == 1)
  {
    forall i: nat | i < |p| && IsWildcard(p[i])
      ensures WildcardRight(p, esc, i) <==> RunBefore(p, esc, i) == 0 || RunBefore(p, esc, i) % 2 == 1
    {
      OddRunEscapes(p, esc, i);
    }
  }

  const BANG: Code := 0x21
  const A: Code := 0x61
  const B: Code := 0x62

  /** `!!%` with escape `!` is a literal `!` and a wildcard; the tokenizer sees an escaped `%`. */
  lemma EscapedEscape()
    ensures var p: seq<byte> := [BANG, BANG, PERCENT];
            IsEscaped(p, Some(BANG), 2) && !MadeLiteral(p, BANG, 2) && !WildcardRight(p, BANG, 2)
  {
    var p: seq<byte> := [BANG, BANG, PERCENT];
    assert RunBefore(p, BANG, 1) == 1;
    assert RunBefore(p, BANG, 2) == 2;
    OddRunEscapes(p, BANG, 2);
  }

  // ----- offsets too, for patterns that escape what may be escaped -----

  /** Only `%`, `_` and the escape character are escaped. */
  ghost predicate Proper(s: Source)
  {
    s.Valid() && forall j :: 0 <= j < |s.toks| && s.toks[j].escaped ==>
      IsWildcard(s.toks[j].code) || s.esc == Some(s.toks[j].code)
  }

  /** An escaped symbol right behind an escaped escape character: `!!!%` or `!!!!`. */
  ghost predicate Crowded(s: Source, j: nat)
  {
    j < |s.toks| && s.toks[j].escaped && s.BehindEscape(j)
  }

  lemma {:induction false} SkewCrowded(s: Source, a: nat, z: nat)
    requires Proper(s) && a <= z <= |s.toks|
    requires forall j :: 0 <= j < |s.toks| && (s.Wild(j, PERCENT) || s.Wild(j, UNDERSCORE)) ==> !s.BehindEscape(j)
    ensures s.Skew(a, z) >= 0
    ensures s.Skew(a, z) == 0 <==> forall j :: a <= j < z ==> !Crowded(s, j)
    decreases z - a
  {
    hide Source.BehindEscape;
    if a < z {
      SkewCrowded(s, a, z - 1);
      var k := s.toks[z - 1];
      if !k.escaped && IsWildcard(k.code) { assert s.Wild(z - 1, PERCENT) || s.Wild(z - 1, UNDERSCORE); }
      assert s.TokCounted(z - 1) - k.EscapeLen() == if Crowded(s, z - 1) then 1 else 0;
    }
  }

  /** Such a pattern is read right exactly if an escaped escape character is followed by neither a wildcard nor,
      unless it is in the last literal of its segment, another escaped symbol. In runs of the escape character: one
      before an escaped wildcard, two before anything else. */
  lemma ProperIsExact(s: Source)
    requires Proper(s)
    ensures s.ReadRight() <==>
            && (forall j :: 0 <= j < |s.toks| && (s.Wild(j, PERCENT) || s.Wild(j, UNDERSCORE)) ==> !s.BehindEscape(j))
            && (forall a: nat, z: nat :: s.LaterLiteral(a, z) ==> forall j :: a <= j < z ==> !Crowded(s, j))
  {
    hide Source.BehindEscape, Crowded, Source.Skew, Source.ReadRight, Source.LaterLiteral;
    ReadableIsExact(s);
    if forall j :: 0 <= j < |s.toks| && (s.Wild(j, PERCENT) || s.Wild(j, UNDERSCORE)) ==> !s.BehindEscape(j) {
      forall a: nat, z: nat | s.LaterLiteral(a, z)
        ensures a <= z <= |s.toks| && (s.Skew(a, z) == 0 <==> forall j :: a <= j < z ==> !Crowded(s, j))
      {
        LaterLiteralIn(s, a, z);
        SkewCrowded(s, a, z);
      }
    }
  }

  /** `!!!!a_b` with escape `!` says `!!a`, any code point, `b`. */
  ghost function Doubled(): Source
  {
    Source([Tok(BANG, true), Tok(BANG, true), Tok(A, false), Tok(UNDERSCORE, false), Tok(B, false)], Some(BANG))
  }

  /** Its only wildcard is read right, but three bytes are counted where two are escapes, so `b` gets the offset at
      which `!!a` ends and the underscore between them is lost. */
  lemma DoubledMiscounted()
    ensures var s := Doubled();
            && Proper(s) && s.Bytes() == [BANG, BANG, BANG, BANG, A, UNDERSCORE, B]
            && s.Syms() == [Char(BANG), Char(BANG), Char(A), Underscore, Char(B)]
            && (forall i: nat :: i < |s.Bytes()| && IsWildcard(s.Bytes()[i]) ==> WildcardRight(s.Bytes(), BANG, i))
            && Counted(s.Bytes(), s.esc, 0, 5) == 3 && s.Escapes(0, 3) == 2
            && s.At(4) == 6 && s.At(4) - Counted(s.Bytes(), s.esc, 0, 5) == |CodesOf(s.toks[..3])|
            && !s.ReadRight()
  {
    hide BytesOf, Source.At, Counted, Source.ReadRight, RunBefore, Acts;
    var s := Doubled();
    DoubledBytes();
    DoubledCounted(s.Bytes());
    DoubledUnreadable();
    assert s.Escapes(0, 1) == 1 && s.Escapes(0, 2) == 2;
  }

  lemma DoubledCounted(p: seq<byte>)
    requires p == [BANG, BANG, BANG, BANG, A, UNDERSCORE, B]
    ensures Counted(p, Some(BANG), 0, 5) == 3
    ensures forall i: nat :: i < |p| && IsWildcard(p[i]) ==> WildcardRight(p, BANG, i)
  {
    var e: Option<Code> := Some(BANG);
    assert Counted(p, e, 0, 1) == 0 && Counted(p, e, 0, 2) == 1 && Counted(p, e, 0, 3) == 2 && Counted(p, e, 0, 4) == 3;
    assert RunBefore(p, BANG, 5) == 0;
    forall i: nat | i < |p| && IsWildcard(p[i]) ensures WildcardRight(p, BANG, i) { OddRunEscapes(p, BANG, i); }
  }

  lemma DoubledBytes()
    ensures Doubled().Bytes() == [BANG, BANG, BANG, BANG, A, UNDERSCORE, B] && Doubled().At(4) == 6
  {
    hide WriteCodePoint;
    var s := Doubled();
    var t := s.toks;
    Ascii(BANG);
    Ascii(A);
    Ascii(UNDERSCORE);
    Ascii(B);
    assert t == [t[0], t[1]] + [t[2], t[3], t[4]] && t[..4] == [t[0], t[1]] + [t[2], t[3]];
    ThreeBytes(t[2], t[3], t[4], s.esc);
    TwoBytes(t[2], t[3], s.esc);
    TwoBytes(t[0], t[1], s.esc);
    BytesConcat([t[0], t[1]], [t[2], t[3], t[4]], s.esc);
    BytesConcat([t[0], t[1]], [t[2], t[3]], s.esc);
  }

  lemma Ascii(c: Code)
    requires c < 0x80
    ensures WriteCodePoint(c) == [c]
  {
  }

  lemma TwoBytes(x: Tok, y: Tok, esc: Option<Code>)
    ensures BytesOf([x, y], esc) == TokBytes(x, esc) + TokBytes(y, esc)
  {
    hide TokBytes;
    BytesOne(y, esc);
    assert [x, y][1..] == [y];
  }

  lemma ThreeBytes(x: Tok, y: Tok, z: Tok, esc: Option<Code>)
    ensures BytesOf([x, y, z], esc) == TokBytes(x, esc) + TokBytes(y, esc) + TokBytes(z, esc)
  {
    hide TokBytes;
    TwoBytes(y, z, esc);
    assert [x, y, z][1..] == [y, z];
  }

  lemma DoubledUnreadable()
    ensures Proper(Doubled()) && !Doubled().ReadRight()
  {
    hide Source.ReadRight, BytesOf, Source.Bytes, Source.At, Source.Skew;
    var s := Doubled();
    ProperIsExact(s);
    assert s.Wild(3, UNDERSCORE) && !s.Wild(0, UNDERSCORE);
    assert s.LaterLiteral(0, 4);
    assert Crowded(s, 1);
  }

  // ----- writing a literal with escapes -----

  /** `s` written as a literal: every byte that could be read as a wildcard or an escape is escaped. */
  ghost function Escape(s: seq<byte>, esc: Code): seq<byte>
    requires esc < 0x80
  {
    if s == [] then []
    else (if IsWildcard(s[0]) || s[0] == esc then [esc as byte, s[0]] else [s[0]]) + Escape(s[1..], esc)
  }

  lemma {:induction false} StripEscape(s: seq<byte>, esc: Code)
    requires esc < 0x80
    ensures Stripped(Escape(s, esc), Some(esc)) == s
  {
    if s != [] {
      StripEscape(s[1..], esc);
      var e, r := Escape(s, esc), Escape(s[1..], esc);
      if IsWildcard(s[0]) || s[0] == esc {
        assert e == [esc as byte, s[0]] + r && e[2..] == r;
      } else {
        assert e == [s[0]] + r && e[1..] == r;
      }
    }
  }

  /** The tokenizer finds no wildcard in it. */
  ghost predicate Hidden(p: seq<byte>, esc: Code)
  {
    forall i :: 0 <= i < |p| && IsWildcard(p[i]) ==> IsEscaped(p, Some(esc), i)
  }

  lemma {:induction false} EscapedHidden(s: seq<byte>, esc: Code)
    requires esc < 0x80 && (!IsWildcard(esc) || forall k :: 0 <= k < |s| ==> !IsWildcard(s[k]))
    ensures Hidden(Escape(s, esc), esc)
  {
    if s != [] {
      var e, r := Escape(s, esc), Escape(s[1..], esc);
      var n := if IsWildcard(s[0]) || s[0] == esc then 2 else 1;
      EscapedHidden(s[1..], esc);
      assert e[n..] == r;
      forall i | 0 <= i < |e| && IsWildcard(e[i]) ensures IsEscaped(e, Some(esc), i) {
        if i >= n {
          assert IsWildcard(r[i - n]) && IsEscaped(r, Some(esc), i - n);
          assert e[i - 1] == r[i - n - 1];
        }
      }
    }
  }

  /** The first byte that is escaped by a wildcard shows that wildcard. */
  lemma {:induction false} WildcardShows(s: seq<byte>, esc: Code)
    requires esc < 0x80 && IsWildcard(esc) && exists k :: 0 <= k < |s| && IsWildcard(s[k])
    ensures !Hidden(Escape(s, esc), esc)
  {
    var e := Escape(s, esc);
    if IsWildcard(s[0]) || s[0] == esc {
      assert e[0] == esc && !IsEscaped(e, Some(esc), 0);
    } else {
      var r := Escape(s[1..], esc);
      WildcardShows(s[1..], esc);
      assert e[1..] == r;
      var i :| 0 <= i < |r| && IsWildcard(r[i]) && !IsEscaped(r, Some(esc), i);
      assert e[i + 1] == r[i] && (i > 0 ==> e[i] == r[i - 1]);
      assert !IsEscaped(e, Some(esc), i + 1);
    }
  }

  /** A literal written with escapes shows no wildcard exactly if the escape character is none, or there is nothing
      to hide. */
  lemma EscapeHidesWildcards(s: seq<byte>, esc: Code)
    requires esc < 0x80
    ensures Hidden(Escape(s, esc), esc) <==> !IsWildcard(esc) || forall k :: 0 <= k < |s| ==> !IsWildcard(s[k])
  {
    if !IsWildcard(esc) || forall k :: 0 <= k < |s| ==> !IsWildcard(s[k]) {
      EscapedHidden(s, esc);
    } else {
      WildcardShows(s, esc);
    }
  }
}
