/** Patterns without a literal. The automaton knows nothing about them; they are answered by counting. */
module WildcardOnly {
  import opened Options
  import opened Utf8
  import opened LikePredicate
  import opened Tokenizers
  import opened PatternTexts

  ghost function Occurring(p: seq<Sym>, c: Sym): nat
  {
    if p == [] then 0 else (if p[0] == c then 1 else 0) + Occurring(p[1..], c)
  }

  /** What the counts say: as many code points as underscores, or more if there is a `%`. */
  ghost predicate CountsMatch(p: seq<Sym>, t: seq<Code>)
  {
    |t| == Occurring(p, Underscore) || (|t| > Occurring(p, Underscore) && Occurring(p, Percent) > 0)
  }

  lemma {:induction false} LikeCounts(p: seq<Sym>, t: seq<Code>)
    requires OnlyWildcards(p)
    ensures Like(p, t) <==> CountsMatch(p, t)
    decreases p
  {
    if p != [] {
      assert p == [p[0]] + p[1..];
      if p[0] == Percent {
        forall k: nat | k <= |t| ensures Like(p[1..], t[k..]) <==> CountsMatch(p[1..], t[k..]) {
          LikeCounts(p[1..], t[k..]);
        }
        var n := Occurring(p, Underscore);
        if |t| >= n { assert |t[|t| - n..]| == n && Like(p[1..], t[|t| - n..]); }
      } else if t != [] {
        LikeCounts(p[1..], t[1..]);
      }
    }
  }

  /** A text is at least as long as the pattern has symbols other than `%`. */
  lemma {:induction false} LikeLength(p: seq<Sym>, t: seq<Code>)
    requires Like(p, t)
    ensures Occurring(p, Underscore) <= |t|
    ensures !OnlyWildcards(p) ==> Occurring(p, Underscore) < |t|
    decreases p
  {
    if p != [] {
      assert OnlyWildcards(p[1..]) && (p[0] == Percent || p[0] == Underscore) ==> OnlyWildcards(p) by {
        assert forall k :: 0 < k < |p| ==> p[k] == p[1..][k - 1];
      }
      if p[0] == Percent {
        var k :| 0 <= k <= |t| && Like(p[1..], t[k..]);
        LikeLength(p[1..], t[k..]);
      } else {
        LikeLength(p[1..], t[1..]);
      }
    }
  }

  /** Counting is right for all texts exactly if the pattern has nothing but wildcards in it. */
  lemma CountingIsExact(p: seq<Sym>)
    ensures (forall t: seq<Code> :: CountsMatch(p, t) <==> Like(p, t)) <==> OnlyWildcards(p)
  {
    if OnlyWildcards(p) {
      forall t: seq<Code> ensures CountsMatch(p, t) <==> Like(p, t) { LikeCounts(p, t); }
    } else {
      var t: seq<Code> := seq(Occurring(p, Underscore), _ => 1);
      if Like(p, t) { LikeLength(p, t); }
      assert CountsMatch(p, t);
    }
  }

  /** `!%_` with escape `!`: a literal `%` and one more code point. It is counted as one underscore. */
  lemma EscapedIsMiscounted()
    ensures var p := Reads([0x21, PERCENT, UNDERSCORE], Some(0x21));
            p == [Char(PERCENT), Underscore] && CountsMatch(p, [A]) && !Like(p, [A])
  {
    var c: seq<Code> := [0x21, PERCENT, UNDERSCORE];
    assert c[2..] == [UNDERSCORE] && c[2..][1..] == [];
    assert Reads(c[2..], Some(0x21)) == [Underscore] + Reads([], Some(0x21));
    var p := Reads(c, Some(0x21));
    assert p[1..] == [Underscore] && p[1..][1..] == [];
    assert Occurring(p[1..], Underscore) == 1 + Occurring(p[1..][1..], Underscore);
  }

  const A: Code := 0x61

  // ----- counting bytes -----

  ghost function Delims(p: seq<byte>, esc: Option<Code>, b: byte, x: nat, y: nat): nat
    requires x <= y <= |p|
    decreases y - x
  {
    if x == y then 0 else Delims(p, esc, b, x, y - 1) + if IsDelim(p, esc, b, y - 1) then 1 else 0
  }

  lemma {:induction false} DelimsSplit(p: seq<byte>, esc: Option<Code>, b: byte, x: nat, y: nat, z: nat)
    requires x <= y <= z <= |p|
    ensures Delims(p, esc, b, x, z) == Delims(p, esc, b, x, y) + Delims(p, esc, b, y, z)
    decreases z - y
  {
    if y < z { DelimsSplit(p, esc, b, x, y, z - 1); }
  }

  lemma {:induction false} DelimsNone(p: seq<byte>, esc: Option<Code>, b: byte, x: nat, y: nat)
    requires x <= y <= |p| && forall k :: x <= k < y ==> !IsDelim(p, esc, b, k)
    ensures Delims(p, esc, b, x, y) == 0
    decreases y - x
  {
    if x < y { DelimsNone(p, esc, b, x, y - 1); }
  }

  /** A symbol is one delimiter if it is that wildcard, and none otherwise. */
  lemma DelimsTok(s: Source, j: nat, b: byte)
    requires s.Valid() && s.Readable() && j < |s.toks| && IsWildcard(b)
    ensures s.At(j) <= s.At(j + 1) <= |s.Bytes()|
    ensures Delims(s.Bytes(), s.esc, b, s.At(j), s.At(j + 1)) == if s.Wild(j, b) then 1 else 0
  {
    hide Source.At, Source.Bytes, Source.BehindEscape, Source.LaterLiteral, IsDelim, TokBytes;
    AtStep(s, j);
    AtOrder(s, j, j + 1);
    var x, y, p := s.At(j), s.At(j + 1), s.Bytes();
    DelimIs(s, x, j, b);
    forall k | x + 1 <= k < y ensures !IsDelim(p, s.esc, b, k) { DelimIs(s, k, j, b); }
    DelimsSplit(p, s.esc, b, x, x + 1, y);
    DelimsNone(p, s.esc, b, x + 1, y);
    assert Delims(p, s.esc, b, x, x) == 0;
  }

  lemma {:induction false} OccurringAppend(p: seq<Sym>, c: Sym, d: Sym)
    ensures Occurring(p + [c], d) == Occurring(p, d) + if c == d then 1 else 0
  {
    if p != [] {
      assert (p + [c])[1..] == p[1..] + [c];
      OccurringAppend(p[1..], c, d);
    }
  }

  lemma {:induction false} DelimsToks(s: Source, n: nat, b: byte)
    requires s.Valid() && s.Readable() && n <= |s.toks| && IsWildcard(b)
    ensures s.At(n) <= |s.Bytes()|
    ensures Delims(s.Bytes(), s.esc, b, 0, s.At(n)) == Occurring(s.Syms()[..n], Plain(b as Code))
  {
    hide Source.At, Source.Bytes, Source.Readable;
    AtEnds(s);
    if n > 0 {
      var j := n - 1;
      DelimsToks(s, j, b);
      DelimsTok(s, j, b);
      DelimsSplit(s.Bytes(), s.esc, b, 0, s.At(j), s.At(n));
      assert s.Syms()[..n] == s.Syms()[..j] + [s.Syms()[j]];
      OccurringAppend(s.Syms()[..j], s.Syms()[j], Plain(b as Code));
    }
  }

  /** The answer for a pattern by its counts alone: right if it has wildcards only, which is what it is called for. */
  method SpecialMatchEmptyPattern(p: seq<byte>, s: seq<byte>, esc: Option<Code>, ghost src: Source, ghost t: seq<Code>)
    returns (r: bool)
    requires p == src.Bytes() && esc == src.esc && src.Valid() && src.Readable() && s == Encode(t)
    ensures r <==> CountsMatch(src.Syms(), t)
    ensures OnlyWildcards(src.Syms()) ==> (r <==> Like(src.Syms(), t))
  {
    hide Encode, Off, ReadCodePoint, Like, Source.Readable, Source.Valid, Source.Bytes;
    var underscoreCnt, hasPercent := 0, false;
    for i := 0 to |p|
      invariant underscoreCnt == Delims(p, esc, UNDERSCORE, 0, i)
      invariant hasPercent <==> Delims(p, esc, PERCENT, 0, i) > 0
    {
      if !(IsEscaped(p, esc, i) && IsWildcard(p[i])) {
        if p[i] == PERCENT {
          hasPercent := true;
        } else if p[i] == UNDERSCORE {
          underscoreCnt := underscoreCnt + 1;
        }
      }
    }
    AtEnds(src);
    DelimsToks(src, |src.toks|, UNDERSCORE);
    DelimsToks(src, |src.toks|, PERCENT);
    assert src.Syms()[..|src.toks|] == src.Syms();
    var noCp := CountCodePoints(s, t);
    if OnlyWildcards(src.Syms()) { LikeCounts(src.Syms(), t); }
    return noCp == underscoreCnt || (noCp > underscoreCnt && hasPercent);
  }

  method CountCodePoints(s: seq<byte>, ghost t: seq<Code>) returns (noCp: nat)
    requires s == Encode(t)
    ensures noCp == |t|
  {
    hide Encode, Off, ReadCodePoint;
    var ptr: nat := 0;
    noCp := 0;
    OffEnds(t);
    while ptr < |s|
      invariant noCp <= |t| && ptr == Off(t, noCp) <= |s|
      decreases |s| - ptr
    {
      OffOrder(t, noCp, |t|);
      ReadAt(t, noCp);
      OffOrder(t, noCp + 1, |t|);
      ptr := ReadCodePoint(s, ptr).next;
      noCp := noCp + 1;
    }
    OffOrder(t, noCp, |t|);
  }
}
