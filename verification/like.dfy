/** The LIKE predicate, and the two reference matchers the repository compares everything against. */
module LikePredicate {
  import opened Options
  import opened Utf8

  /** What a pattern says, one symbol after the other. An escape character with nothing behind it is no pattern;
      it matches nothing. */
  datatype Sym = Percent | Underscore | Char(c: Code) | BareEscape

  /** The LIKE predicate of section 8.5 of ISO/IEC 9075-2:2003, over code points. */
  ghost predicate Like(p: seq<Sym>, t: seq<Code>)
  {
    if p == [] then t == []
    else if p[0] == Percent then exists k :: 0 <= k <= |t| && Like(p[1..], t[k..])
    else t != [] && (p[0] == Underscore || p[0] == Char(t[0])) && Like(p[1..], t[1..])
  }

  /** A code point that is not escaped. */
  function Plain(c: Code): Sym
  {
    if c == '%' as Code then Percent else if c == '_' as Code then Underscore else Char(c)
  }

  /** A pattern read from left to right: the escape character makes the next code point stand for itself. */
  ghost function Reads(pc: seq<Code>, esc: Option<Code>): seq<Sym>
  {
    if pc == [] then []
    else if esc == Some(pc[0]) then (if |pc| == 1 then [BareEscape] else [Char(pc[1])] + Reads(pc[2..], esc))
    else [Plain(pc[0])] + Reads(pc[1..], esc)
  }

  /** `t LIKE pc ESCAPE esc`; without the clause, `esc` is `None`. */
  ghost predicate LikeEscape(pc: seq<Code>, esc: Option<Code>, t: seq<Code>)
  {
    Like(Reads(pc, esc), t)
  }

  ghost predicate OnlyWildcards(p: seq<Sym>)
  {
    forall k :: 0 <= k < |p| ==> p[k] == Percent || p[k] == Underscore
  }

  ghost predicate NoPercent(q: seq<Sym>)
  {
    forall k :: 0 <= k < |q| ==> q[k] != Percent
  }

  /** A block without `%` placed at code point `i`. */
  ghost predicate MatchAt(q: seq<Sym>, t: seq<Code>, i: nat)
  {
    i + |q| <= |t| && forall k :: 0 <= k < |q| ==> q[k] == Underscore || q[k] == Char(t[i + k])
  }

  /** A block without `%` consumes exactly its own length. */
  lemma {:induction false} LikeBlock(q: seq<Sym>, r: seq<Sym>, t: seq<Code>)
    requires NoPercent(q)
    ensures Like(q + r, t) <==> MatchAt(q, t, 0) && Like(r, t[|q|..])
  {
    if q == [] {
      assert q + r == r && t[0..] == t;
    } else {
      assert (q + r)[1..] == q[1..] + r;
      if t != [] {
        LikeBlock(q[1..], r, t[1..]);
        if |q| <= |t| { assert t[1..][|q| - 1..] == t[|q|..]; }
        if MatchAt(q[1..], t[1..], 0) && (q[0] == Underscore || q[0] == Char(t[0])) {
          assert forall k :: 1 <= k < |q| ==> q[k] == q[1..][k - 1] && t[k] == t[1..][k - 1];
        }
        if MatchAt(q, t, 0) {
          assert forall k :: 0 <= k < |q| - 1 ==> q[1..][k] == q[k + 1] && t[1..][k] == t[k + 1];
        }
      }
    }
  }

  /** `LikeBlock` in place: the block `p[x..y]` against the text from `i`. */
  lemma LikeBlockAt(p: seq<Sym>, x: nat, y: nat, t: seq<Code>, i: nat)
    requires x <= y <= |p| && i <= |t|
    requires NoPercent(p[x..y])
    ensures Like(p[x..], t[i..]) <==> MatchAt(p[x..y], t, i) && Like(p[y..], t[i + (y - x)..])
  {
    assert p[x..] == p[x..y] + p[y..];
    LikeBlock(p[x..y], p[y..], t[i..]);
    if i + (y - x) <= |t| {
      assert t[i..][y - x..] == t[i + (y - x)..];
      assert forall k :: 0 <= k < y - x ==> t[i..][k] == t[i + k];
    }
  }

  lemma LikePercentAt(p: seq<Sym>, x: nat, t: seq<Code>, i: nat)
    requires x < |p| && p[x] == Percent && i <= |t|
    ensures Like(p[x..], t[i..]) <==> exists k :: i <= k <= |t| && Like(p[x + 1..], t[k..])
  {
    assert p[x..][1..] == p[x + 1..];
    assert forall k :: 0 <= k <= |t| - i ==> t[i..][k..] == t[i + k..];
    if k :| i <= k <= |t| && Like(p[x + 1..], t[k..]) {
      assert t[i..][k - i..] == t[k..];
    }
  }

  /** One code point of the pattern against one of the text. */
  lemma LikeOneAt(p: seq<Sym>, x: nat, t: seq<Code>, i: nat)
    requires x < |p| && p[x] != Percent && i < |t|
    ensures Like(p[x..], t[i..]) <==> (p[x] == Underscore || p[x] == Char(t[i])) && Like(p[x + 1..], t[i + 1..])
  {
    assert p[x..][1..] == p[x + 1..] && t[i..][1..] == t[i + 1..];
  }

  /** A non-empty run of `%` is one `%`. */
  lemma {:induction false} LikePercentRun(p: seq<Sym>, x: nat, y: nat, t: seq<Code>, i: nat)
    requires x < y <= |p| && i <= |t|
    requires forall k :: x <= k < y ==> p[k] == Percent
    ensures Like(p[x..], t[i..]) <==> exists k :: i <= k <= |t| && Like(p[y..], t[k..])
    decreases y - x
  {
    LikePercentAt(p, x, t, i);
    if x + 1 < y {
      forall k | i <= k <= |t|
        ensures Like(p[x + 1..], t[k..]) <==> exists m :: k <= m <= |t| && Like(p[y..], t[m..])
      {
        LikePercentRun(p, x + 1, y, t, k);
      }
      if m :| i <= m <= |t| && Like(p[y..], t[m..]) {
        assert Like(p[x + 1..], t[i..]);
      }
    }
  }

  /** The end of the pattern, once only `%` is left. */
  lemma LikeTail(p: seq<Sym>, x: nat, t: seq<Code>, i: nat)
    requires x <= |p| && i <= |t|
    requires forall k :: x <= k < |p| ==> p[k] == Percent
    ensures Like(p[x..], t[i..]) <==> x < |p| || i == |t|
  {
    if x < |p| {
      LikePercentRun(p, x, |p|, t, i);
      assert Like(p[|p|..], t[|t|..]);
    }
  }

  /** Without an ESCAPE clause every code point is a symbol. */
  lemma {:induction false} ReadsPlain(pc: seq<Code>)
    ensures |Reads(pc, None)| == |pc| && forall k :: 0 <= k < |pc| ==> Reads(pc, None)[k] == Plain(pc[k])
  {
    if pc != [] {
      ReadsPlain(pc[1..]);
      assert forall k :: 0 < k < |pc| ==> pc[k] == pc[1..][k - 1];
    }
  }

  // ----- what some shapes of patterns mean, in literal code points: 0x25 is `%`, 0x5F is `_` -----

  ghost predicate NoWildcard(u: seq<Code>)
  {
    0x25 !in u && 0x5F !in u
  }

  /** Plain text is a block of its own code points. */
  lemma PlainBlock(u: seq<Code>, t: seq<Code>, i: nat)
    requires NoWildcard(u)
    ensures NoPercent(Reads(u, None)) && |Reads(u, None)| == |u|
    ensures MatchAt(Reads(u, None), t, i) <==> i + |u| <= |t| && t[i..i + |u|] == u
  {
    ReadsPlain(u);
    var q := Reads(u, None);
    assert forall k :: 0 <= k < |u| ==> u[k] in u && q[k] == Char(u[k]);
    if i + |u| <= |t| {
      var w := t[i..i + |u|];
      assert forall k :: 0 <= k < |u| ==> w[k] == t[i + k];
    }
  }

  lemma ReadsConcat(a: seq<Code>, b: seq<Code>)
    ensures Reads(a + b, None) == Reads(a, None) + Reads(b, None)
  {
    hide Reads, Plain;
    ReadsPlain(a);
    ReadsPlain(b);
    ReadsPlain(a + b);
  }

  /** Without wildcards LIKE is equality. */
  lemma LikeEquals(u: seq<Code>, t: seq<Code>)
    requires NoWildcard(u)
    ensures LikeEscape(u, None, t) <==> t == u
  {
    hide Reads;
    PlainBlock(u, t, 0);
    LikeBlock(Reads(u, None), [], t);
    assert Reads(u, None) + [] == Reads(u, None);
    assert |t| == |u| ==> t[0..|u|] == t;
  }

  /** `u%` */
  lemma LikeStartsWith(u: seq<Code>, t: seq<Code>)
    requires NoWildcard(u)
    ensures LikeEscape(u + [0x25], None, t) <==> u <= t
  {
    hide Reads;
    PlainBlock(u, t, 0);
    ReadsConcat(u, [0x25]);
    ReadsPlain([0x25]);
    assert Reads([0x25], None) == [Percent];
    LikeBlock(Reads(u, None), [Percent], t);
    if |u| <= |t| { LikeTail([Percent], 0, t, |u|); }
  }

  /** `%u` */
  lemma LikeEndsWith(u: seq<Code>, t: seq<Code>)
    requires NoWildcard(u)
    ensures LikeEscape([0x25] + u, None, t) <==> |u| <= |t| && t[|t| - |u|..] == u
  {
    hide Reads;
    ReadsConcat([0x25], u);
    ReadsPlain([0x25]);
    var q := Reads(u, None);
    var p := [Percent] + q;
    assert Reads([0x25], None) == [Percent] && p[1..] == q;
    forall k | 0 <= k <= |t| ensures Like(p[1..], t[k..]) <==> t[k..] == u { LikeEquals(u, t[k..]); }
    if |u| <= |t| && t[|t| - |u|..] == u { assert Like(p[1..], t[|t| - |u|..]); }
  }

  /** `%u%` */
  lemma LikeContains(u: seq<Code>, t: seq<Code>)
    requires NoWildcard(u)
    ensures LikeEscape([0x25] + u + [0x25], None, t) <==> exists i :: 0 <= i <= |t| && u <= t[i..]
  {
    hide Reads;
    var r := u + [0x25];
    ReadsConcat([0x25], r);
    ReadsPlain([0x25]);
    var p := [Percent] + Reads(r, None);
    assert [0x25] + u + [0x25] == [0x25] + r && Reads([0x25], None) == [Percent] && p[1..] == Reads(r, None);
    forall k | 0 <= k <= |t| ensures Like(p[1..], t[k..]) <==> u <= t[k..] { LikeStartsWith(u, t[k..]); }
  }

  /** `u_v` */
  lemma LikeOneBetween(u: seq<Code>, v: seq<Code>, t: seq<Code>)
    requires NoWildcard(u) && NoWildcard(v)
    ensures LikeEscape(u + [0x5F] + v, None, t) <==>
            |t| == |u| + 1 + |v| && t[..|u|] == u && t[|u| + 1..] == v
  {
    hide Reads;
    PlainBlock(u, t, 0);
    ReadsConcat(u + [0x5F], v);
    ReadsConcat(u, [0x5F]);
    ReadsPlain([0x5F]);
    assert Reads([0x5F], None) == [Underscore];
    var q, r := Reads(u, None), Reads(v, None);
    assert q + [Underscore] + r == q + ([Underscore] + r);
    LikeBlock(q, [Underscore] + r, t);
    if |u| < |t| {
      var s := t[|u|..];
      assert ([Underscore] + r)[1..] == r && s[1..] == t[|u| + 1..];
      LikeEquals(v, s[1..]);
    }
  }

  /** `ue%` and `ue_` with the escape character `e`: equality with `u%` or `u_`. */
  lemma {:induction false} LikeEscaped(u: seq<Code>, e: Code, c: Code, t: seq<Code>)
    requires NoWildcard(u) && e !in u
    ensures LikeEscape(u + [e, c], Some(e), t) <==> t == u + [c]
  {
    var p := u + [e, c];
    if u == [] {
      assert p[2..] == [] && Reads(p, Some(e)) == [Char(c)] + Reads([], Some(e)) == [Char(c)];
      LikeOne(Char(c), [], t);
    } else {
      assert u[0] in u && p[1..] == u[1..] + [e, c];
      LikeOne(Plain(u[0]), Reads(p[1..], Some(e)), t);
      if t != [] {
        LikeEscaped(u[1..], e, c, t[1..]);
        assert t == [t[0]] + t[1..] && u + [c] == [u[0]] + (u[1..] + [c]);
      }
    }
  }

  /** A pattern that ends in an escape character with nothing to escape matches nothing. */
  lemma {:induction false} LikeBareEscape(u: seq<Code>, e: Code, t: seq<Code>)
    requires NoWildcard(u) && e !in u
    ensures !LikeEscape(u + [e], Some(e), t)
  {
    var p := u + [e];
    if u == [] {
      LikeOne(BareEscape, [], t);
      assert p == [e] && Reads(p, Some(e)) == [BareEscape] + [];
    } else {
      assert u[0] in u && p[1..] == u[1..] + [e];
      LikeOne(Plain(u[0]), Reads(p[1..], Some(e)), t);
      if t != [] { LikeBareEscape(u[1..], e, t[1..]); }
    }
  }

  /** `u%v` */
  lemma LikeStartsAndEnds(u: seq<Code>, v: seq<Code>, t: seq<Code>)
    requires NoWildcard(u) && NoWildcard(v)
    ensures LikeEscape(u + [0x25] + v, None, t) <==>
            |u| + |v| <= |t| && t[..|u|] == u && t[|t| - |v|..] == v
  {
    hide Reads;
    var r := [0x25] + v;
    PlainBlock(u, t, 0);
    ReadsConcat(u, r);
    assert u + [0x25] + v == u + r;
    LikeBlock(Reads(u, None), Reads(r, None), t);
    if |u| <= |t| {
      LikeEndsWith(v, t[|u|..]);
      if |u| + |v| <= |t| { assert t[|u|..][|t| - |u| - |v|..] == t[|t| - |v|..]; }
    }
  }

  lemma LikeOne(x: Sym, p: seq<Sym>, t: seq<Code>)
    requires x != Percent
    ensures Like([x] + p, t) <==> t != [] && (x == Underscore || x == Char(t[0])) && Like(p, t[1..])
  {
    assert ([x] + p)[1..] == p;
  }

  // ----- the recursive reference -----

  lemma ReadsEscape(pc: seq<Code>, esc: Option<Code>, x: nat)
    requires x < |pc| && esc == Some(pc[x])
    ensures Reads(pc[x..], esc) == if x + 1 == |pc| then [BareEscape] else [Char(pc[x + 1])] + Reads(pc[x + 2..], esc)
  {
    assert x + 1 < |pc| ==> pc[x..][2..] == pc[x + 2..];
  }

  lemma ReadsOne(pc: seq<Code>, esc: Option<Code>, x: nat)
    requires x < |pc| && esc != Some(pc[x])
    ensures Reads(pc[x..], esc) == [Plain(pc[x])] + Reads(pc[x + 1..], esc)
  {
    assert pc[x..][1..] == pc[x + 1..];
  }

  /** A run of `%`, the escape character being another one. */
  lemma {:induction false} ReadsPercents(pc: seq<Code>, esc: Option<Code>, x: nat, y: nat)
    requires x <= y <= |pc| && esc != Some('%' as Code) && forall k :: x <= k < y ==> pc[k] == '%' as Code
    ensures |Reads(pc[x..], esc)| == y - x + |Reads(pc[y..], esc)|
    ensures Reads(pc[x..], esc)[y - x..] == Reads(pc[y..], esc)
    ensures forall k :: 0 <= k < y - x ==> Reads(pc[x..], esc)[k] == Percent
    decreases y - x
  {
    if x < y {
      ReadsOne(pc, esc, x);
      ReadsPercents(pc, esc, x + 1, y);
    }
  }

  lemma LikeHead(s: Sym, r: seq<Sym>, t: seq<Code>, i: nat)
    requires i < |t| && s != Percent
    ensures Like([s] + r, t[i..]) <==> (s == Underscore || s == Char(t[i])) && Like(r, t[i + 1..])
  {
    assert ([s] + r)[1..] == r && t[i..][1..] == t[i + 1..];
  }

  /** After a run of `%` the rest may match anywhere. */
  lemma EscapePercents(pc: seq<Code>, esc: Option<Code>, x: nat, y: nat, t: seq<Code>, i: nat)
    requires x < y <= |pc| && esc != Some('%' as Code) && (forall k :: x <= k < y ==> pc[k] == '%' as Code) && i <= |t|
    ensures LikeEscape(pc[x..], esc, t[i..]) <==> exists k :: i <= k <= |t| && LikeEscape(pc[y..], esc, t[k..])
  {
    hide Like, Reads;
    var ps := Reads(pc[x..], esc);
    ReadsPercents(pc, esc, x, y);
    LikePercentRun(ps, 0, y - x, t, i);
    assert ps[0..] == ps;
  }

  /** With the text used up, the rest of the pattern has to be `%` only. */
  lemma {:induction false} EscapeTail(pc: seq<Code>, esc: Option<Code>, x: nat)
    requires x <= |pc|
    ensures LikeEscape(pc[x..], esc, []) <==> forall k :: x <= k < |pc| ==> pc[k] == '%' as Code && esc != Some(pc[k])
    decreases |pc| - x
  {
    if x < |pc| {
      if esc == Some(pc[x]) {
        ReadsEscape(pc, esc, x);
      } else {
        ReadsOne(pc, esc, x);
        var ps, r := Reads(pc[x..], esc), Reads(pc[x + 1..], esc);
        assert ps[1..] == r;
        EscapeTail(pc, esc, x + 1);
        var t: seq<Code> := [];
        assert t[0..] == t;
        assert Like(ps, t) <==> pc[x] == '%' as Code && Like(r, t);
      }
    }
  }

  /** The textbook recursive matcher, with the escape character as a code point if there is an ESCAPE clause. It
      reads bytes; `pc` and `tc` say which code points those bytes are. */
  method NljRecursiveMatch(s: seq<byte>, p: seq<byte>, esc: Option<Code>, ghost tc: seq<Code>, ghost pc: seq<Code>)
    returns (r: bool)
    requires s == Encode(tc) && p == Encode(pc)
    ensures r <==> LikeEscape(pc, esc, tc)
    decreases |pc|
  {
    hide LikeEscape, Encode, Off, ReadCodePoint, Reads, Like;
    var pidx, sidx := 0, 0;
    ghost var x, i := 0, 0;
    OffEnds(pc);
    OffEnds(tc);
    assert pc[0..] == pc && tc[0..] == tc;
    while pidx < |p| && sidx < |s|
      invariant x <= |pc| && i <= |tc| && pidx == Off(pc, x) && sidx == Off(tc, i)
      invariant LikeEscape(pc, esc, tc) <==> LikeEscape(pc[x..], esc, tc[i..])
      decreases |p| - pidx
    {
      ReadIndex(pc, x);
      ReadIndex(tc, i);
      var pchar, schar := ReadCodePoint(p, pidx), ReadCodePoint(s, sidx);
      var isLiteral := false;
      ghost var u := x;
      if esc != None && pchar.code == esc.value {
        var nextPidx := pchar.next;
        OffOrder(pc, x + 1, |pc|);
        if nextPidx >= |p| {
          EscapeFails(pc, esc, x, tc, i);
          return false;
        }
        u := x + 1;
        ReadIndex(pc, u);
        pchar := ReadCodePoint(p, nextPidx);
        pidx := nextPidx;
        isLiteral := true;
      }
      MatchOne(pc, esc, x, tc, i);
      if !isLiteral && pchar.code == '_' as Code {
        pidx, sidx := pchar.next, schar.next;
        x, i := x + 1, i + 1;
      } else if !isLiteral && pchar.code == '%' as Code {
        ghost var y := x;
        while pidx < |p| && ReadCodePoint(p, pidx).code == '%' as Code
          invariant x <= y <= |pc| && pidx == Off(pc, y)
          invariant forall k :: x <= k < y ==> pc[k] == '%' as Code
          invariant x < y || pidx < |p|
          decreases |p| - pidx
        {
          ReadIndex(pc, y);
          pidx := ReadCodePoint(p, pidx).next;
          y := y + 1;
        }
        OffOrder(pc, y, |pc|);
        if y < |pc| { ReadIndex(pc, y); }
        assert x < y;
        EscapePercents(pc, esc, x, y, tc, i);
        if pidx == |p| {
          EscapeAny(pc, esc, y, tc, i);
          return true;
        }
        while sidx < |s|
          invariant i <= |tc| && sidx == Off(tc, i)
          invariant LikeEscape(pc, esc, tc) <==> exists k :: i <= k <= |tc| && LikeEscape(pc[y..], esc, tc[k..])
          decreases |s| - sidx
        {
          ReadIndex(tc, i);
          EncodeSlice(pc, y, |pc|);
          EncodeSlice(tc, i, |tc|);
          assert pc[y..|pc|] == pc[y..] && tc[i..|tc|] == tc[i..];
          var m := NljRecursiveMatch(s[sidx..], p[pidx..], esc, tc[i..], pc[y..]);
          if m { return true; }
          sidx := ReadCodePoint(s, sidx).next;
          i := i + 1;
        }
        OffOrder(tc, i, |tc|);
        EscapeTail(pc, esc, y);
        assert tc[|tc|..] == [];
        return false;
      } else if pchar.code == schar.code {
        pidx, sidx := pchar.next, schar.next;
        x, i := u + 1, i + 1;
      } else {
        return false;
      }
    }
    OffOrder(pc, x, |pc|);
    OffOrder(tc, i, |tc|);
    EscapeTail(pc, esc, x);
    if x == |pc| { EscapeEnd(pc, esc, tc, i); } else { assert tc[i..] == []; }
    ghost var y := x;
    while pidx < |p|
      invariant x <= y <= |pc| && pidx == Off(pc, y)
      invariant forall k :: x <= k < y ==> pc[k] == '%' as Code && esc != Some(pc[k])
      decreases |p| - pidx
    {
      ReadIndex(pc, y);
      OffOrder(pc, y, |pc|);
      var pchar := ReadCodePoint(p, pidx);
      if esc != None && pchar.code == esc.value { return false; }
      if pchar.code != '%' as Code { return false; }
      pidx := pchar.next;
      y := y + 1;
    }
    OffOrder(pc, y, |pc|);
    r := pidx == |p| && sidx == |s|;
  }

  /** Nothing matches an escape character at the end of the pattern. */
  lemma EscapeFails(pc: seq<Code>, esc: Option<Code>, x: nat, t: seq<Code>, i: nat)
    requires x + 1 == |pc| && esc == Some(pc[x]) && i <= |t|
    ensures !LikeEscape(pc[x..], esc, t[i..])
  {
    ReadsEscape(pc, esc, x);
  }

  /** One symbol other than `%`, as it is written, against one code point of the text. */
  lemma MatchOne(pc: seq<Code>, esc: Option<Code>, x: nat, t: seq<Code>, i: nat)
    requires x < |pc| && i < |t|
    ensures esc == Some(pc[x]) && x + 1 < |pc| ==>
              (LikeEscape(pc[x..], esc, t[i..]) <==> pc[x + 1] == t[i] && LikeEscape(pc[x + 2..], esc, t[i + 1..]))
    ensures esc != Some(pc[x]) && pc[x] != '%' as Code ==>
              (LikeEscape(pc[x..], esc, t[i..]) <==>
               (pc[x] == '_' as Code || pc[x] == t[i]) && LikeEscape(pc[x + 1..], esc, t[i + 1..]))
  {
    hide Like, Reads;
    if esc == Some(pc[x]) {
      ReadsEscape(pc, esc, x);
      if x + 1 < |pc| { LikeHead(Char(pc[x + 1]), Reads(pc[x + 2..], esc), t, i); }
    } else if pc[x] != '%' as Code {
      ReadsOne(pc, esc, x);
      LikeHead(Plain(pc[x]), Reads(pc[x + 1..], esc), t, i);
    }
  }

  /** After a final `%` anything may follow. */
  lemma EscapeAny(pc: seq<Code>, esc: Option<Code>, y: nat, t: seq<Code>, i: nat)
    requires y == |pc| && i <= |t|
    ensures exists k :: i <= k <= |t| && LikeEscape(pc[y..], esc, t[k..])
  {
    assert pc[y..] == [] && t[|t|..] == [];
    assert LikeEscape(pc[y..], esc, t[|t|..]);
  }

  lemma EscapeEnd(pc: seq<Code>, esc: Option<Code>, t: seq<Code>, i: nat)
    requires i <= |t|
    ensures LikeEscape(pc[|pc|..], esc, t[i..]) <==> i == |t|
  {
    assert pc[|pc|..] == [];
  }

  // ----- the greedy reference -----

  /** Where the text is held when the pattern stands at `x` and the last `%` ended at `star`. */
  ghost predicate AfterStar(p: seq<Sym>, t: seq<Code>, star: nat, x: nat, starText: nat, i: nat)
  {
    && star <= x <= |p| && starText <= i <= |t| && i - starText == x - star
    && NoPercent(p[star..x]) && MatchAt(p[star..x], t, starText)
  }

  /** Only the last `%` needs backtracking: what an earlier one could still reach, the later one reaches too. */
  lemma LaterStarSuffices(p: seq<Sym>, t: seq<Code>, star: nat, x: nat, starText: nat, i: nat)
    requires AfterStar(p, t, star, x, starText, i)
    requires x < |p| && p[x] == Percent
    ensures (exists k :: starText <= k <= |t| && Like(p[star..], t[k..])) <==>
            (exists k :: i <= k <= |t| && Like(p[x + 1..], t[k..]))
  {
    if k :| starText <= k <= |t| && Like(p[star..], t[k..]) {
      LikeBlockAt(p, star, x, t, k);
      LikePercentAt(p, x, t, k + (x - star));
    }
    if k :| i <= k <= |t| && Like(p[x + 1..], t[k..]) {
      LikePercentAt(p, x, t, i);
      LikeBlockAt(p, star, x, t, starText);
      assert Like(p[star..], t[starText..]);
    }
  }

  lemma BlockStart(p: seq<Sym>, x: nat, t: seq<Code>, i: nat)
    requires x <= |p| && i <= |t|
    ensures AfterStar(p, t, x, x, i, i)
  {
  }

  lemma BlockExtend(p: seq<Sym>, t: seq<Code>, star: nat, x: nat, starText: nat, i: nat)
    requires AfterStar(p, t, star, x, starText, i)
    requires x < |p| && i < |t| && p[x] != Percent && (p[x] == Underscore || p[x] == Char(t[i]))
    ensures AfterStar(p, t, star, x + 1, starText, i + 1)
  {
    assert p[star..x + 1] == p[star..x] + [p[x]];
  }

  /** A mismatch rules out the current start of the block. */
  lemma StuckFails(p: seq<Sym>, t: seq<Code>, star: nat, x: nat, starText: nat, i: nat)
    requires AfterStar(p, t, star, x, starText, i)
    requires i < |t|
    requires x == |p| || (p[x] != Percent && p[x] != Underscore && p[x] != Char(t[i]))
    ensures !Like(p[star..], t[starText..])
  {
    LikeBlockAt(p, star, x, t, starText);
    if x < |p| { LikeOneAt(p, x, t, i); }
  }

  /** With the text used up, only the current start of the block is left to try. */
  lemma EndDecides(p: seq<Sym>, t: seq<Code>, star: nat, x: nat, starText: nat, y: nat)
    requires AfterStar(p, t, star, x, starText, |t|)
    requires x <= y <= |p| && (forall k :: x <= k < y ==> p[k] == Percent) && (y < |p| ==> p[y] != Percent)
    ensures Like(p[star..], t[starText..]) <==> y == |p|
    ensures (exists k :: starText <= k <= |t| && Like(p[star..], t[k..])) <==> y == |p|
  {
    LikeBlockAt(p, star, x, t, starText);
    if y < |p| { NotOnlyPercent(p, x, y, t, |t|); } else { LikeTail(p, x, t, |t|); }
    if k :| starText <= k <= |t| && Like(p[star..], t[k..]) {
      LikeBlockAt(p, star, x, t, k);
    }
    assert y == |p| ==> Like(p[star..], t[starText..]);
  }

  /** The iterative matcher that backtracks to the last `%` only. */
  method GreedyMatching(s: seq<byte>, p: seq<byte>, ghost tc: seq<Code>, ghost pc: seq<Code>) returns (r: bool)
    requires s == Encode(tc) && p == Encode(pc)
    ensures r <==> LikeEscape(pc, None, tc)
  {
    hide Like, Encode, Off, ReadCodePoint, MatchAt, Reads;
    ghost var ps := Reads(pc, None);
    ReadsPlain(pc);
    var sidx, pidx := 0, 0;
    var starPidx: int, starSidx: int := -1, -1;
    ghost var i, x, star, starText := 0, 0, 0, 0;
    OffEnds(pc);
    OffEnds(tc);
    assert ps[0..] == ps && tc[0..] == tc;
    BlockStart(ps, 0, tc, 0);
    while sidx < |s|
      invariant x <= |pc| && i <= |tc| && pidx == Off(pc, x) && sidx == Off(tc, i)
      invariant AfterStar(ps, tc, star, x, starText, i)
      invariant starPidx == -1 ==> star == 0 && starText == 0
      invariant starPidx != -1 ==> starPidx == Off(pc, star) && starSidx == Off(tc, starText)
      invariant starPidx != -1 ==> (Like(ps, tc) <==> exists k :: starText <= k <= |tc| && Like(ps[star..], tc[k..]))
      decreases |pc| - star, |tc| - starText, |tc| - i
    {
      ReadIndex(tc, i);
      if pidx < |p| {
        ReadIndex(pc, x);
        var pchar := ReadCodePoint(p, pidx);
        var schar := ReadCodePoint(s, sidx);
        if pchar.code == '_' as Code || (pchar.code != '%' as Code && pchar.code == schar.code) {
          BlockExtend(ps, tc, star, x, starText, i);
          sidx, pidx := schar.next, pchar.next;
          i, x := i + 1, x + 1;
          continue;
        }
        if pchar.code == '%' as Code {
          if starPidx == -1 {
            LikeBlockAt(ps, 0, x, tc, 0);
            LikePercentAt(ps, x, tc, i);
            assert AfterStar(ps, tc, 0, x, 0, i);
            assert Like(ps, tc) <==> Like(ps[x..], tc[i..]);
          } else {
            LaterStarSuffices(ps, tc, star, x, starText, i);
          }
          starPidx, starSidx := pchar.next, sidx;
          pidx := starPidx;
          x := x + 1;
          star, starText := x, i;
          BlockStart(ps, x, tc, i);
          continue;
        }
      }
      OffOrder(pc, x, |pc|);
      StuckFails(ps, tc, star, x, starText, i);
      if starPidx != -1 {
        ReadAt(tc, starText);
        starSidx := ReadCodePoint(s, starSidx).next;
        starText := starText + 1;
        sidx, pidx := starSidx, starPidx;
        i, x := starText, star;
        BlockStart(ps, star, tc, starText);
        continue;
      }
      return false;
    }
    OffOrder(tc, i, |tc|);
    ghost var y := x;
    while pidx < |p|
      invariant x <= y <= |pc| && pidx == Off(pc, y)
      invariant forall k :: x <= k < y ==> ps[k] == Percent
      decreases |p| - pidx
    {
      ReadIndex(pc, y);
      if ReadCodePoint(p, pidx).code != '%' as Code { break; }
      pidx := ReadCodePoint(p, pidx).next;
      y := y + 1;
    }
    OffOrder(pc, y, |pc|);
    if y < |pc| { ReadAt(pc, y); }
    EndDecides(ps, tc, star, x, starText, y);
    r := pidx == |p|;
  }

  /** `ReadAt` from a byte offset that is known to be in range. */
  lemma ReadIndex(cs: seq<Code>, i: nat)
    requires i <= |cs| && Off(cs, i) < |Encode(cs)|
    ensures i < |cs| && ReadCodePoint(Encode(cs), Off(cs, i)) == ReadResult(Off(cs, i + 1), cs[i])
  {
    OffEnds(cs);
    if i < |cs| { ReadAt(cs, i); }
  }

  /** At the end of the text a pattern rest with anything but `%` in it fails. */
  lemma NotOnlyPercent(p: seq<Sym>, x: nat, y: nat, t: seq<Code>, i: nat)
    requires x <= y < |p| && i == |t| && p[y] != Percent
    requires forall k :: x <= k < y ==> p[k] == Percent
    ensures !Like(p[x..], t[i..])
  {
    assert !Like(p[y..], t[|t|..]);
    if x < y { LikePercentRun(p, x, y, t, i); }
  }
}
