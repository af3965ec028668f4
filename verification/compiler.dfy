/** The `Skeleton` constructor, and the proof that the segments it builds accept exactly the texts the
    pattern is LIKE. */
module Compiler {
  import opened Options
  import opened Utf8
  import opened LikePredicate
  import opened Layouts
  import opened Tokenizers
  import opened PatternTexts
  import opened Skeletons

  // ----- reading a pattern from the left -----

  /** The segments read so far can end at `e`, with the rest of the pattern left for the rest of the text. */
  ghost predicate Standing(p: Pattern, ps: seq<Sym>, y: nat, t: seq<Code>, e: nat)
    requires p.Valid() && y <= |ps|
  {
    e <= |t| && Reach(p, t, |p.lays|, e) && Like(ps[y..], t[e..])
  }

  /** The segments read so far account for the pattern up to symbol `y`. */
  ghost predicate Progress(p: Pattern, ps: seq<Sym>, y: nat)
    requires p.Valid() && y <= |ps|
  {
    forall t :: Like(ps, t) <==> exists e: nat :: Standing(p, ps, y, t, e)
  }

  /** Some `%` and then a block, placed at `i`: it may slide if there was at least one `%`. */
  ghost predicate Placed(ps: seq<Sym>, x: nat, a: nat, b: nat, t: seq<Code>, e: nat, i: nat)
    requires x <= a <= b <= |ps|
  {
    e <= i <= |t| && (x == a ==> i == e) && MatchAt(ps[a..b], t, i) && Like(ps[b..], t[i + (b - a)..])
  }

  lemma PlacedElim(ps: seq<Sym>, x: nat, a: nat, b: nat, t: seq<Code>, e: nat) returns (i: nat)
    requires x <= a <= b <= |ps| && e <= |t|
    requires (forall k :: x <= k < a ==> ps[k] == Percent) && NoPercent(ps[a..b])
    requires Like(ps[x..], t[e..])
    ensures Placed(ps, x, a, b, t, e, i)
  {
    hide Like, NoPercent, MatchAt;
    i := e;
    if x < a {
      LikePercentRun(ps, x, a, t, e);
      i :| e <= i <= |t| && Like(ps[a..], t[i..]);
    }
    LikeBlockAt(ps, a, b, t, i);
  }

  lemma PlacedIntro(ps: seq<Sym>, x: nat, a: nat, b: nat, t: seq<Code>, e: nat, i: nat)
    requires x <= a <= b <= |ps| && e <= |t|
    requires (forall k :: x <= k < a ==> ps[k] == Percent) && NoPercent(ps[a..b])
    requires Placed(ps, x, a, b, t, e, i)
    ensures Like(ps[x..], t[e..])
  {
    hide Like, NoPercent, MatchAt;
    LikeBlockAt(ps, a, b, t, i);
    if x < a { LikePercentRun(ps, x, a, t, e); }
  }

  ghost function Append(p: Pattern, lay: Layout): Pattern
  {
    p.(lays := p.lays + [lay])
  }

  lemma AppendFacts(p: Pattern, lay: Layout)
    ensures var q := Append(p, lay);
            |q.lays| == |p.lays| + 1 && q.lays[..|p.lays|] == p.lays[..|p.lays|] && q.lays[|p.lays|] == lay
            && q.anchored == p.anchored
  {
  }

  lemma ReachAppend(p: Pattern, lay: Layout, t: seq<Code>, e: nat, i: nat)
    requires p.Valid() && lay.Valid() && Append(p, lay).Valid() && Reach(p, t, |p.lays|, e)
    requires Begin(p, |p.lays|, e, i) && Match(lay, t, i)
    ensures Reach(Append(p, lay), t, |p.lays| + 1, i + lay.Width())
  {
    var q, n := Append(p, lay), |p.lays|;
    AppendFacts(p, lay);
    hide Match, Layout.Width, Layout.Valid, Pattern.Valid, Reach, Append;
    ReachSame(p, q, t, n, e);
    ReachIntro(q, t, n, e, i);
  }

  lemma ReachAppendBack(p: Pattern, lay: Layout, t: seq<Code>, d: nat) returns (e: nat, i: nat)
    requires p.Valid() && lay.Valid() && Append(p, lay).Valid() && Reach(Append(p, lay), t, |p.lays| + 1, d)
    ensures Reach(p, t, |p.lays|, e) && Begin(p, |p.lays|, e, i) && Match(lay, t, i) && d == i + lay.Width()
  {
    var q, n := Append(p, lay), |p.lays|;
    AppendFacts(p, lay);
    hide Match, Layout.Width, Layout.Valid, Pattern.Valid, Reach, Append;
    e, i := ReachElim(q, t, n, d);
    ReachSame(q, p, t, n, e);
  }

  lemma DescribedWidth(lay: Layout, q: seq<Sym>)
    requires Describes(lay, q)
    ensures lay.Valid() && lay.Width() == |q|
  {
  }

  /** How a segment is cut from the pattern: `%` from `x` to `a`, the segment itself up to `b`. */
  ghost predicate Cut(p: Pattern, lay: Layout, ps: seq<Sym>, x: nat, a: nat, b: nat)
  {
    && x <= a < b <= |ps| && (forall k :: x <= k < a ==> ps[k] == Percent) && NoPercent(ps[a..b])
    && Describes(lay, ps[a..b])
    && p.anchored == (ps[0] != Percent) && (if p.lays == [] then x == 0 else x < a)
  }

  lemma CutBegin(p: Pattern, lay: Layout, ps: seq<Sym>, x: nat, a: nat, b: nat, e: nat, i: nat)
    requires Cut(p, lay, ps, x, a, b) && e <= i && (p.lays == [] ==> e == 0)
    ensures Begin(p, |p.lays|, e, i) <==> (x == a ==> i == e)
  {
    hide Describes;
    if a == 0 { assert ps[a..b][0] == ps[0]; }
  }

  lemma StepForward(p: Pattern, lay: Layout, ps: seq<Sym>, x: nat, a: nat, b: nat, t: seq<Code>, e: nat)
    returns (d: nat)
    requires p.Valid() && Append(p, lay).Valid() && Cut(p, lay, ps, x, a, b)
    requires e <= |t| && Reach(p, t, |p.lays|, e) && Like(ps[x..], t[e..])
    ensures d <= |t| && Reach(Append(p, lay), t, |p.lays| + 1, d) && Like(ps[b..], t[d..])
  {
    hide Like, NoPercent, Describes, MatchAt, Match, Layout.Width, Layout.Valid, Pattern.Valid, Append;
    assert p.lays == [] ==> e == 0;
    hide Reach;
    var i := PlacedElim(ps, x, a, b, t, e);
    CutBegin(p, lay, ps, x, a, b, e, i);
    DescribedWidth(lay, ps[a..b]);
    DescribesMatch(lay, ps[a..b], t, i);
    ReachAppend(p, lay, t, e, i);
    d := i + lay.Width();
    MatchRoom(lay, t, i);
  }

  lemma StepBack(p: Pattern, lay: Layout, ps: seq<Sym>, x: nat, a: nat, b: nat, t: seq<Code>, d: nat)
    returns (e: nat)
    requires p.Valid() && Append(p, lay).Valid() && Cut(p, lay, ps, x, a, b)
    requires d <= |t| && Reach(Append(p, lay), t, |p.lays| + 1, d) && Like(ps[b..], t[d..])
    ensures e <= |t| && Reach(p, t, |p.lays|, e) && Like(ps[x..], t[e..])
  {
    hide Like, NoPercent, Describes, MatchAt, Match, Layout.Width, Layout.Valid, Pattern.Valid, Append;
    DescribedWidth(lay, ps[a..b]);
    var i: nat;
    e, i := ReachAppendBack(p, lay, t, d);
    assert p.lays == [] ==> e == 0;
    hide Reach;
    CutBegin(p, lay, ps, x, a, b, e, i);
    DescribesMatch(lay, ps[a..b], t, i);
    PlacedIntro(ps, x, a, b, t, e, i);
  }

  lemma ProgressStep(p: Pattern, lay: Layout, ps: seq<Sym>, x: nat, a: nat, b: nat)
    requires p.Valid() && Append(p, lay).Valid() && Cut(p, lay, ps, x, a, b) && Progress(p, ps, x)
    ensures b <= |ps| && Progress(Append(p, lay), ps, b)
  {
    assert b <= |ps| && |Append(p, lay).lays| == |p.lays| + 1;
    hide Like, Cut, Reach, Pattern.Valid, Append;
    var q := Append(p, lay);
    forall t ensures Like(ps, t) <==> exists d: nat :: Standing(q, ps, b, t, d) {
      if e: nat :| Standing(p, ps, x, t, e) {
        var d := StepForward(p, lay, ps, x, a, b, t, e);
        assert Standing(q, ps, b, t, d);
      }
      if d: nat :| Standing(q, ps, b, t, d) {
        var e := StepBack(p, lay, ps, x, a, b, t, d);
        assert Standing(p, ps, x, t, e);
      }
    }
  }

  lemma ProgressStart(p: Pattern, ps: seq<Sym>)
    requires p.Valid() && p.lays == []
    ensures Progress(p, ps, 0)
  {
    hide Like;
    forall t ensures Like(ps, t) <==> exists e: nat :: Standing(p, ps, 0, t, e) {
      assert ps[0..] == ps && t[0..] == t;
      assert Like(ps, t) ==> Standing(p, ps, 0, t, 0);
    }
  }

  lemma StandingEnd(p: Pattern, ps: seq<Sym>, y: nat, t: seq<Code>, e: nat)
    requires p.Valid() && y <= |ps| && p.open == (y < |ps|)
    requires forall k :: y <= k < |ps| ==> ps[k] == Percent
    ensures Standing(p, ps, y, t, e) <==> Reach(p, t, |p.lays|, e) && After(p, t, |p.lays|, e)
  {
    hide Like, Reach, After, Pattern.Valid;
    if e <= |t| { LikeTail(ps, y, t, e); }
    AfterEnd(p, t, e);
    if Reach(p, t, |p.lays|, e) { ReachBound(p, t, |p.lays|, e); }
  }

  /** With only `%` left, the pattern is its segments. */
  lemma ProgressEnd(p: Pattern, ps: seq<Sym>, y: nat, t: seq<Code>)
    requires p.Valid() && y <= |ps| && Progress(p, ps, y) && p.open == (y < |ps|)
    requires forall k :: y <= k < |ps| ==> ps[k] == Percent
    ensures Like(ps, t) <==> Accepts(p, t)
  {
    var n := |p.lays|;
    hide Like, Accepts, Pattern.Valid, Reach, After, Standing;
    AcceptsSplit(p, t, n);
    if Like(ps, t) {
      var e: nat :| Standing(p, ps, y, t, e);
      StandingEnd(p, ps, y, t, e);
    }
    if Accepts(p, t) {
      var e: nat :| Reach(p, t, n, e) && After(p, t, n, e);
      StandingEnd(p, ps, y, t, e);
    }
  }

  lemma ValidAppend(p: Pattern, lay: Layout, x: nat)
    requires p.Valid() && lay.Valid()
    requires forall l :: l in AllLits(p.lays) ==> l.End() <= x
    requires forall l :: l in lay.lits ==> x < l.off || p.lays == []
    ensures Append(p, lay).Valid()
  {
    hide Encode;
    forall s, j | 0 <= s < |p.lays| && 0 <= j < |p.lays[s].lits| ensures p.lays[s].lits[j] in AllLits(p.lays) {
      InAllLits(p.lays, s, j);
    }
    hide Layout.Valid;
  }

  lemma {:induction false} InAllLits(lays: seq<Layout>, s: nat, j: nat)
    requires s < |lays| && j < |lays[s].lits|
    ensures lays[s].lits[j] in AllLits(lays)
  {
    if s > 0 { InAllLits(lays[1..], s - 1, j); }
  }

  // ----- one segment -----

  /** The literal spans reported for a pattern are its literals: at their offsets, and byte for byte once the
      escapes are taken out. */
  ghost predicate Spans(p: seq<byte>, esc: Option<Code>, spans: seq<LiteralSpan>, lits: seq<Lit>)
  {
    |spans| == |lits| && forall k :: 0 <= k < |lits| ==>
      && spans[k].start - spans[k].escapePrefixBeforeStart == lits[k].off && spans[k].End() <= |p|
      && Stripped(p[spans[k].start..spans[k].End()], esc) == Encode(lits[k].codes)
  }

  /** Symbols `a` to `b` are a stretch behind a `%` or the start, and without one. */
  ghost predicate Stretch(s: Source, a: nat, b: nat)
  {
    && s.Valid() && s.Readable() && a <= b <= |s.toks| && s.At(b) <= |s.Bytes()|
    && (a == 0 || s.Wild(a - 1, PERCENT)) && (forall k :: a <= k < b ==> !s.Wild(k, PERCENT))
  }

  /** The literal loop stands at symbol `z`: at the start of the segment or behind a literal. */
  ghost predicate Paused(s: Source, a: nat, z: nat)
    requires a <= z <= |s.toks|
  {
    z == a || !s.Wild(z - 1, UNDERSCORE)
  }

  /** A span of the next literal of a segment: underscores from symbol `z` on, then the literal. */
  ghost predicate NextSpan(s: Source, a: nat, z: nat, b: nat, lit: LiteralSpan)
    requires a <= z <= b <= |s.toks|
  {
    && s.At(z) <= lit.start < lit.End() <= s.At(b) <= |s.Bytes()|
    && AllDelims(s.Bytes(), s.esc, s.At(z), lit.start, UNDERSCORE)
    && NoDelim(s.Bytes(), s.esc, lit.start, lit.End(), UNDERSCORE)
    && (lit.End() < s.At(b) ==> IsDelim(s.Bytes(), s.esc, UNDERSCORE, lit.End()))
    && s.At(a) <= s.At(z) && lit.escapePrefixBeforeStart == Counted(s.Bytes(), s.esc, s.At(a), s.At(z))
  }

  /** The symbols of a literal behind `g` underscores, from `x` to `y`. */
  ghost predicate IsLiteral(s: Source, a: nat, z: nat, g: nat, y: nat, l: Lit)
  {
    && a <= z && z + g < y <= |s.toks|
    && (forall k :: z <= k < z + g ==> s.Wild(k, UNDERSCORE))
    && (forall k :: z + g <= k < y ==> !s.Wild(k, UNDERSCORE) && !s.Wild(k, PERCENT))
    && l.off == Clean(s, a, z + g) && l.codes == CodesOf(s.toks[z + g..y])
  }

  /** Where the span of a literal starts and ends in symbols. */
  lemma LiteralCuts(s: Source, a: nat, z: nat, b: nat, lit: LiteralSpan) returns (y: nat)
    requires Stretch(s, a, b) && a <= z <= b && NextSpan(s, a, z, b, lit)
    ensures var x := z + (lit.start - s.At(z));
            && x < y <= b && s.At(x) == lit.start && s.At(y) == lit.End() && s.At(x) <= |s.Bytes()|
            && (forall k :: z <= k < x ==> s.Wild(k, UNDERSCORE)) && (forall k :: x <= k < y ==> !s.Wild(k, UNDERSCORE))
  {
    hide Source.At, Source.Bytes, Source.Readable, IsDelim, Counted, AllDelims, NoDelim;
    DelimRun(s, z, lit.start, UNDERSCORE);
    var x := z + (lit.start - s.At(z));
    if lit.End() == s.At(b) { y := b; } else { y := DelimAt(s, lit.End(), UNDERSCORE); }
    AtOrder(s, x, y);
    AtOrder(s, y, b);
    AtOrder(s, z, x);
    NoDelimToks(s, x, y, UNDERSCORE);
  }

  /** The next literal of a segment. Its offset leaves out the escape characters of the segment in front of it. */
  lemma LiteralCodes(s: Source, a: nat, z: nat, b: nat, lit: LiteralSpan) returns (y: nat, l: Lit)
    requires Stretch(s, a, b) && a <= z <= b && NextSpan(s, a, z, b, lit) && Paused(s, a, z)
    requires z == a || s.At(z) < lit.start
    ensures a <= y <= b && s.At(y) == lit.End() && Paused(s, a, y)
    ensures IsLiteral(s, a, z, lit.start - s.At(z), y, l)
    ensures l.off == lit.start - lit.escapePrefixBeforeStart
    ensures Stripped(s.Bytes()[lit.start..lit.End()], s.esc) == Encode(l.codes)
  {
    hide Source.At, Source.Bytes, Source.Readable, IsDelim, Counted, AllDelims, NoDelim, Clean, Stripped;
    y := LiteralCuts(s, a, z, b, lit);
    var x := z + (lit.start - s.At(z));
    CountedClean(s, a, z, x);
    CleanBounds(s, a, x);
    l := Lit(lit.start - lit.escapePrefixBeforeStart, CodesOf(s.toks[x..y]));
    AtSlice(s, x, y);
    StripToks(s.toks[x..y], s.esc);
  }

  /** The offset of every literal leaves out the escape characters of the segment, which starts at symbol `a`. */
  ghost predicate OffsetsFrom(lay: Layout, s: Source, a: nat)
    requires lay.Valid()
  {
    forall j :: 0 <= j < |lay.lits| ==>
      a + lay.Start(j) <= |s.toks| && lay.lits[j].off == Clean(s, a, a + lay.Start(j))
  }

  /** The state of the literal loop: literals up to symbol `z` are laid out and stored. */
  ghost predicate Building(m: Segment, lay: Layout, s: Source, a: nat, z: nat)
    requires a <= z <= |s.toks|
  {
    && Describes(lay, s.Syms()[a..z]) && OffsetsFrom(lay, s, a) && Shows(m, lay) && lay.suffix == 0
    && m.maxUnderscoreCnt == Max(MaxGap(lay, |lay.lits|), lay.prefix)
    && (lay.lits == [] ==> z == a && lay.prefix == 0)
    && (lay.lits != [] ==> lay.lits[|lay.lits| - 1].End() == Clean(s, a, z))
    && (forall l :: l in lay.lits ==> s.At(a) <= l.off && l.End() <= Clean(s, a, z))
  }

  lemma {:induction false} MaxGapSame(x: Layout, y: Layout, n: nat)
    requires x.Valid() && y.Valid() && n <= |x.lits| && n <= |y.lits| && x.lits[..n] == y.lits[..n]
    ensures MaxGap(x, n) == MaxGap(y, n)
  {
    hide Encode;
    if n >= 2 {
      assert x.lits[..n - 1] == x.lits[..n][..n - 1] && y.lits[..n - 1] == y.lits[..n][..n - 1];
      assert forall k :: 0 <= k < n ==> x.lits[k] == x.lits[..n][k] && y.lits[k] == y.lits[..n][k];
      MaxGapSame(x, y, n - 1);
    }
  }

  lemma ShowsInsert(m: Segment, lay: Layout, g: nat, l: Lit)
    requires Shows(m, lay) && lay.suffix == 0 && (lay.lits == [] ==> lay.prefix == 0)
    requires forall k :: k in lay.lits ==> k.off < l.off
    ensures Shows(m.(prefixUnderscoreCnt := if lay.lits == [] then g else lay.prefix).Insert(l.off),
                  WithLiteral(lay, g, l))
  {
    hide Encode;
    assert forall o :: o in m.litOffP ==> lay.lits[m.litOffP[o]] in lay.lits && o < l.off;
  }

  lemma MaxGapGrow(lay: Layout, g: nat, l: Lit)
    requires lay.Valid() && lay.suffix == 0 && l.codes != [] && (lay.lits == [] ==> lay.prefix == 0)
    requires lay.lits != [] ==> g > 0 && l.off == lay.lits[|lay.lits| - 1].End() + g
    ensures WithLiteral(lay, g, l).Valid()
    ensures Max(MaxGap(WithLiteral(lay, g, l), |lay.lits| + 1), WithLiteral(lay, g, l).prefix)
            == Max(Max(MaxGap(lay, |lay.lits|), lay.prefix), g)
  {
    hide Encode, Layout.Valid, Layout.Start, Layout.Width;
    WithLiteralWidth(lay, g, l);
    var m, n := WithLiteral(lay, g, l), |lay.lits|;
    if n > 0 {
      assert m.lits[..n] == lay.lits[..n];
      MaxGapSame(m, lay, n);
    }
  }

  lemma LiteralStands(s: Source, a: nat, z: nat, g: nat, y: nat, l: Lit)
    requires IsLiteral(s, a, z, g, y, l)
    ensures Stands(l.codes, s.Syms()[a..y], z + g - a)
    ensures forall x :: z - a <= x < z + g - a ==> s.Syms()[a..y][x] == Underscore
  {
    hide Clean;
    forall k | 0 <= k < |l.codes| ensures s.Syms()[a..y][z + g - a + k] == Char(l.codes[k]) {
      var i := z + g + k;
      assert !s.Wild(i, UNDERSCORE) && !s.Wild(i, PERCENT);
    }
    forall x | z - a <= x < z + g - a ensures s.Syms()[a..y][x] == Underscore {
      assert s.Wild(a + x, UNDERSCORE);
    }
  }

  /** A literal ends, without the escape characters, where the next symbol stands. */
  lemma LiteralEnds(s: Source, a: nat, z: nat, g: nat, y: nat, l: Lit)
    requires s.Valid() && IsLiteral(s, a, z, g, y, l)
    ensures l.End() == Clean(s, a, y) && l.off == Clean(s, a, z) + g && l.codes != []
    ensures s.At(a) <= l.off && l.off < l.End()
  {
    hide Clean, Encode, Source.Valid;
    CleanRun(s, a, z, z + g);
    CleanCodes(s, a, z + g, y);
    CleanBounds(s, a, z);
    EncodeNotEmpty(l.codes);
  }

  lemma EncodeNotEmpty(cs: seq<Code>)
    ensures |cs| <= |Encode(cs)|
  {
    OffEnds(cs);
    OffMonotone(cs, 0, |cs|);
  }

  lemma BuildingDescribes(m: Segment, lay: Layout, s: Source, a: nat, z: nat, g: nat, y: nat, l: Lit)
    requires s.Valid() && IsLiteral(s, a, z, g, y, l) && Building(m, lay, s, a, z) && (lay.lits != [] ==> g > 0)
    ensures Describes(WithLiteral(lay, g, l), s.Syms()[a..y]) && lay.Valid() && l.codes != []
    ensures lay.lits != [] ==> l.off == lay.lits[|lay.lits| - 1].End() + g
  {
    hide Encode, Describes, Layout.Valid, WithLiteral, Shows, OffsetsFrom, MaxGap, Clean, Source.Valid, IsLiteral,
         Lit.End;
    LiteralEnds(s, a, z, g, y, l);
    LiteralStands(s, a, z, g, y, l);
    IsLiteralIn(s, a, z, g, y, l);
    var q, r := s.Syms()[a..z], s.Syms()[a..y];
    DescribedWidth(lay, q);
    assert q <= r;
    DescribesLiteral(lay, q, g, l, r);
  }

  lemma IsLiteralIn(s: Source, a: nat, z: nat, g: nat, y: nat, l: Lit)
    requires IsLiteral(s, a, z, g, y, l)
    ensures a <= z && z + g < y <= |s.toks| && |l.codes| == y - (z + g)
  {
  }

  lemma BuildingOffsets(m: Segment, lay: Layout, s: Source, a: nat, z: nat, g: nat, y: nat, l: Lit)
    requires s.Valid() && IsLiteral(s, a, z, g, y, l) && Building(m, lay, s, a, z) && (lay.lits != [] ==> g > 0)
    ensures forall k :: k in WithLiteral(lay, g, l).lits ==> s.At(a) <= k.off && k.End() <= Clean(s, a, y)
    ensures forall k :: k in lay.lits ==> k.off < l.off
  {
    hide Encode, Source.At, Clean, Describes, Shows, OffsetsFrom, MaxGap, IsLiteral;
    LiteralEnds(s, a, z, g, y, l);
    assert forall k: Lit :: k.off <= k.End();
  }

  lemma BuildingStarts(m: Segment, lay: Layout, s: Source, a: nat, z: nat, g: nat, y: nat, l: Lit)
    requires s.Valid() && IsLiteral(s, a, z, g, y, l) && Building(m, lay, s, a, z) && (lay.lits != [] ==> g > 0)
    ensures WithLiteral(lay, g, l).Valid() && OffsetsFrom(WithLiteral(lay, g, l), s, a)
  {
    hide Encode, Source.At, Clean, Shows, MaxGap, Layout.Start, Layout.Width, Layout.Valid, Lit.End, Describes;
    BuildingDescribes(m, lay, s, a, z, g, y, l);
    DescribedWidth(lay, s.Syms()[a..z]);
    WithLiteralWidth(lay, g, l);
    var e := WithLiteral(lay, g, l);
    forall j | 0 <= j < |e.lits|
      ensures a + e.Start(j) <= |s.toks| && e.lits[j].off == Clean(s, a, a + e.Start(j))
    {
      if j < |lay.lits| {
        assert e.lits[..j + 1] == lay.lits[..j + 1];
        StartSame(lay, e, j);
      }
    }
  }

  /** One round of the literal loop. */
  lemma BuildingStep(m: Segment, lay: Layout, s: Source, a: nat, z: nat, g: nat, y: nat, l: Lit)
    requires s.Valid() && IsLiteral(s, a, z, g, y, l) && Building(m, lay, s, a, z) && (lay.lits != [] ==> g > 0)
    ensures Building(m.AddLiteral(g, l.off), WithLiteral(lay, g, l), s, a, y)
    ensures m.AddLiteral(g, l.off).hasPrefixPercent == m.hasPrefixPercent
    ensures m.AddLiteral(g, l.off).hasSuffixPercent == m.hasSuffixPercent
  {
    hide Encode, MaxGap, Describes, Layout.Valid, Source.At, Shows, Lit.End, Max, Clean, OffsetsFrom, IsLiteral,
         Source.Valid;
    IsLiteralIn(s, a, z, g, y, l);
    LiteralEnds(s, a, z, g, y, l);
    DescribedWidth(lay, s.Syms()[a..z]);
    ShowsCount(m, lay);
    BuildingDescribes(m, lay, s, a, z, g, y, l);
    BuildingOffsets(m, lay, s, a, z, g, y, l);
    BuildingStarts(m, lay, s, a, z, g, y, l);
    MaxGapGrow(lay, g, l);
    ShowsInsert(m, lay, g, l);
    ShowsAnyMax(m.(prefixUnderscoreCnt := if lay.lits == [] then g else lay.prefix).Insert(l.off),
                WithLiteral(lay, g, l), Max(m.maxUnderscoreCnt, g));
  }

  lemma ShowsCount(m: Segment, lay: Layout)
    requires Shows(m, lay)
    ensures m.HasLiteral() == (lay.lits != []) && m.prefixUnderscoreCnt == lay.prefix
  {
  }

  lemma ShowsAnyMax(m: Segment, lay: Layout, n: nat)
    requires Shows(m, lay)
    ensures Shows(m.(maxUnderscoreCnt := n), lay)
  {
  }

  /** `LiteralCodes` and `BuildingStep` together, for one span the tokenizer returned. */
  lemma NextRound(m: Segment, lay: Layout, s: Source, a: nat, z: nat, b: nat, lit: LiteralSpan, spans: seq<LiteralSpan>)
    returns (y: nat, l: Lit)
    requires Stretch(s, a, b) && a <= z <= b && NextSpan(s, a, z, b, lit) && Paused(s, a, z)
    requires lay.lits != [] ==> s.At(z) < lit.start
    requires Building(m, lay, s, a, z) && Spans(s.Bytes(), s.esc, spans, lay.lits)
    ensures z < y <= b && s.At(y) == lit.End() && Paused(s, a, y) && lit.escapePrefixBeforeStart <= lit.start
    ensures var g := lit.start - s.At(z);
            var n := m.AddLiteral(g, lit.start - lit.escapePrefixBeforeStart);
            && Building(n, WithLiteral(lay, g, l), s, a, y)
            && n.hasPrefixPercent == m.hasPrefixPercent && n.hasSuffixPercent == m.hasSuffixPercent
            && WithLiteral(lay, g, l).lits != []
            && Spans(s.Bytes(), s.esc, spans + [lit], WithLiteral(lay, g, l).lits)
  {
    hide *;
    StretchValid(s, a, z, b, lit);
    BuildingEmpty(m, lay, s, a, z);
    y, l := LiteralCodes(s, a, z, b, lit);
    var g := lit.start - s.At(z);
    IsLiteralIn(s, a, z, g, y, l);
    BuildingStep(m, lay, s, a, z, g, y, l);
    SpansAppend(s.Bytes(), s.esc, spans, lay, lit, g, l);
  }

  lemma StretchValid(s: Source, a: nat, z: nat, b: nat, lit: LiteralSpan)
    requires Stretch(s, a, b) && a <= z <= b && NextSpan(s, a, z, b, lit)
    ensures s.Valid() && b <= |s.toks| && s.At(z) <= lit.start && lit.End() <= |s.Bytes()|
  {
  }

  lemma BuildingEmpty(m: Segment, lay: Layout, s: Source, a: nat, z: nat)
    requires a <= z <= |s.toks| && Building(m, lay, s, a, z)
    ensures lay.lits == [] ==> z == a
  {
  }

  /** The literal loop of the constructor: fills one segment from its span, symbols `a` to `b`. */
  method CompileSegment(tok: Tokenizer, seg: LiteralSpan, hasPrefixPercent: bool, ghost s: Source, ghost a: nat,
                        ghost b: nat)
    returns (m: Segment, spans: seq<LiteralSpan>, ghost lay: Layout)
    requires tok.p == s.Bytes() && tok.esc == s.esc && seg.start == tok.litPos < seg.End() <= |tok.p|
    requires tok.accumEscLen == 0
    requires a < b && Stretch(s, a, b) && s.At(a) == seg.start && s.At(b) == seg.End()
    requires NoDelim(tok.p, tok.esc, seg.start, seg.End(), PERCENT)
    modifies tok`litPos, tok`accumEscLen
    ensures Describes(lay, s.Syms()[a..b]) && OffsetsFrom(lay, s, a) && Shows(m, lay)
    ensures m.hasPrefixPercent == hasPrefixPercent && !m.hasSuffixPercent
    ensures m.maxUnderscoreCnt == MaxRun(lay)
    ensures Spans(tok.p, tok.esc, spans, lay.lits)
    ensures forall l :: l in lay.lits ==> seg.start <= l.off && l.End() <= seg.End()
  {
    hide Encode, Source.At, Source.Bytes, Building, Spans, AllDelims, NoDelim, Describes, Shows, WithLiteral, MaxRun,
         Lit.End, Segment.AddLiteral, Stretch, Paused, NextSpan, Counted, OffsetsFrom, IsDelim;
    m := Segment([], map[], 0, 0, 0, hasPrefixPercent, false);
    spans := [];
    lay := Layout(0, [], 0);
    ghost var z := a;
    var prevLitEnd := seg.start;
    StretchIn(s, a, b);
    BuildingStart(m, s, a);
    SpansNil(tok.p, tok.esc);
    while true
      invariant a <= z <= b && s.At(z) == prevLitEnd == tok.litPos && seg.start <= tok.litPos <= seg.End()
      invariant Building(m, lay, s, a, z) && Paused(s, a, z)
      invariant m.hasPrefixPercent == hasPrefixPercent && !m.hasSuffixPercent
      invariant Spans(tok.p, tok.esc, spans, lay.lits)
      invariant lay.lits != [] && tok.litPos < seg.End() ==> IsDelim(tok.p, tok.esc, UNDERSCORE, tok.litPos)
      invariant tok.accumEscLen == Counted(tok.p, tok.esc, seg.start, tok.litPos)
      decreases seg.End() - tok.litPos
    {
      var lit := tok.NextLiteral(seg);
      if lit == None { break; }
      var gap := lit.value.start - prevLitEnd;
      assert lay.lits != [] ==> prevLitEnd < lit.value.start by { NotLiteral(tok.p, tok.esc, prevLitEnd, lit.value); }
      NextSpanIs(s, a, z, b, lit.value);
      CountedOn(tok.p, tok.esc, seg.start, prevLitEnd, lit.value);
      ghost var y, l := NextRound(m, lay, s, a, z, b, lit.value, spans);
      prevLitEnd := lit.value.End();
      m := m.AddLiteral(gap, lit.value.start - lit.value.escapePrefixBeforeStart);
      spans := spans + [lit.value];
      lay, z := WithLiteral(lay, gap, l), y;
    }
    BuildingEnd(m, lay, s, a, z, b);
    ghost var gap := seg.End() - prevLitEnd;
    m := m.(suffixUnderscoreCnt := seg.End() - prevLitEnd);
    m := m.(maxUnderscoreCnt := Max(m.maxUnderscoreCnt, m.suffixUnderscoreCnt));
    lay := lay.(suffix := gap);
  }

  lemma StretchIn(s: Source, a: nat, b: nat)
    requires Stretch(s, a, b)
    ensures s.Valid() && a <= b <= |s.toks| && Paused(s, a, a)
    ensures s.At(a) <= |s.Bytes()| && Counted(s.Bytes(), s.esc, s.At(a), s.At(a)) == 0
  {
    hide Source.Readable;
    AtSlice(s, a, b);
  }

  lemma NextSpanIs(s: Source, a: nat, z: nat, b: nat, lit: LiteralSpan)
    requires a <= z <= b <= |s.toks| && s.At(a) <= s.At(z) <= lit.start < lit.End() <= s.At(b) <= |s.Bytes()|
    requires AllDelims(s.Bytes(), s.esc, s.At(z), lit.start, UNDERSCORE)
    requires NoDelim(s.Bytes(), s.esc, lit.start, lit.End(), UNDERSCORE)
    requires lit.End() < s.At(b) ==> IsDelim(s.Bytes(), s.esc, UNDERSCORE, lit.End())
    requires lit.escapePrefixBeforeStart == Counted(s.Bytes(), s.esc, s.At(a), s.At(z))
    ensures NextSpan(s, a, z, b, lit)
  {
  }

  /** Delimiters are not counted. */
  lemma CountedOn(p: seq<byte>, esc: Option<Code>, x: nat, y: nat, lit: LiteralSpan)
    requires x <= y <= lit.start <= lit.End() <= |p| && AllDelims(p, esc, y, lit.start, UNDERSCORE)
    ensures Counted(p, esc, x, lit.End()) == Counted(p, esc, x, y) + Counted(p, esc, lit.start, lit.End())
  {
    hide Counted;
    CountedSplit(p, esc, x, y, lit.End());
    CountedSplit(p, esc, y, lit.start, lit.End());
    forall k | y <= k < lit.start ensures !IsEscaped(p, esc, k) { assert IsDelim(p, esc, UNDERSCORE, k); }
    CountedNone(p, esc, y, lit.start);
  }

  lemma BuildingStart(m: Segment, s: Source, a: nat)
    requires a <= |s.toks| && m == Segment([], map[], 0, 0, 0, m.hasPrefixPercent, false)
    ensures Building(m, Layout(0, [], 0), s, a, a)
  {
    hide Encode;
  }

  /** An underscore in front of a literal span is not part of it. */
  lemma NotLiteral(p: seq<byte>, esc: Option<Code>, x: nat, s: LiteralSpan)
    requires x <= s.start < s.End() <= |p| && NoDelim(p, esc, s.start, s.End(), UNDERSCORE)
    ensures IsDelim(p, esc, UNDERSCORE, x) ==> x < s.start
  {
  }

  lemma SpansNil(p: seq<byte>, esc: Option<Code>)
    ensures Spans(p, esc, [], [])
  {
  }

  lemma SpansAppend(p: seq<byte>, esc: Option<Code>, spans: seq<LiteralSpan>, lay: Layout, s: LiteralSpan, g: nat,
                    l: Lit)
    requires Spans(p, esc, spans, lay.lits) && s.End() <= |p| && s.start - s.escapePrefixBeforeStart == l.off
    requires Stripped(p[s.start..s.End()], esc) == Encode(l.codes)
    ensures Spans(p, esc, spans + [s], WithLiteral(lay, g, l).lits)
    ensures WithLiteral(lay, g, l).lits != []
  {
    hide Encode, Stripped;
  }

  /** The whole stretch is laid out and stored. */
  ghost predicate Ended(m: Segment, lay: Layout, s: Source, a: nat, b: nat)
    requires a <= b <= |s.toks|
  {
    && Describes(lay, s.Syms()[a..b]) && OffsetsFrom(lay, s, a) && Shows(m, lay) && m.maxUnderscoreCnt == MaxRun(lay)
    && (forall l :: l in lay.lits ==> s.At(a) <= l.off && l.End() <= s.At(b))
  }

  /** What follows the last literal are the trailing underscores. */
  lemma BuildingEnd(m: Segment, lay: Layout, s: Source, a: nat, z: nat, b: nat)
    requires Stretch(s, a, b) && a <= z <= b && Building(m, lay, s, a, z)
    requires s.At(z) <= s.At(b) && AllDelims(s.Bytes(), s.esc, s.At(z), s.At(b), UNDERSCORE)
    ensures var g := s.At(b) - s.At(z);
            Ended(m.(suffixUnderscoreCnt := g, maxUnderscoreCnt := Max(m.maxUnderscoreCnt, g)), lay.(suffix := g),
                  s, a, b)
  {
    hide Encode, MaxGap, Describes, Layout.Valid, Source.At, Source.Bytes, Shows, Lit.End, Max, Clean, Source.Readable,
         OffsetsFrom;
    DelimRun(s, z, s.At(b), UNDERSCORE);
    var g := s.At(b) - s.At(z);
    AtOrder(s, z + g, b);
    EndDescribed(lay, s, a, z, b);
    DescribedWidth(lay, s.Syms()[a..z]);
    DescribedWidth(lay.(suffix := g), s.Syms()[a..b]);
    ShowsSuffix(m, lay, g, Max(m.maxUnderscoreCnt, g));
    MaxRunSuffix(lay, g);
    OffsetsSuffix(lay, s, a, g);
    CleanBounds(s, a, z);
  }

  lemma EndDescribed(lay: Layout, s: Source, a: nat, z: nat, b: nat)
    requires a <= z <= b <= |s.toks| && Describes(lay, s.Syms()[a..z]) && lay.suffix == 0
    requires forall k :: z <= k < b ==> s.Wild(k, UNDERSCORE)
    ensures Describes(lay.(suffix := b - z), s.Syms()[a..b])
  {
    hide Describes;
    var q, r := s.Syms()[a..z], s.Syms()[a..b];
    assert q <= r;
    forall x | |q| <= x < |r| ensures r[x] == Underscore { assert s.Wild(a + x, UNDERSCORE); }
    DescribesSuffix(lay, q, b - z, r);
  }

  lemma OffsetsSuffix(lay: Layout, s: Source, a: nat, g: nat)
    requires lay.Valid() && lay.(suffix := g).Valid() && OffsetsFrom(lay, s, a)
    ensures OffsetsFrom(lay.(suffix := g), s, a)
  {
    hide Clean, Layout.Valid, Layout.Start;
    var e := lay.(suffix := g);
    forall j | 0 <= j < |e.lits| ensures e.Start(j) == lay.Start(j) { StartSame(lay, e, j); }
  }

  lemma ShowsSuffix(m: Segment, lay: Layout, g: nat, n: nat)
    requires Shows(m, lay)
    ensures Shows(m.(suffixUnderscoreCnt := g, maxUnderscoreCnt := n), lay.(suffix := g))
  {
  }

  lemma MaxRunSuffix(lay: Layout, g: nat)
    requires lay.Valid() && lay.suffix == 0 && lay.(suffix := g).Valid()
    ensures MaxRun(lay.(suffix := g)) == Max(Max(MaxGap(lay, |lay.lits|), lay.prefix), g)
  {
    hide Layout.Valid;
    MaxGapSame(lay, lay.(suffix := g), |lay.lits|);
  }

  // ----- folding, on the stored segments -----

  /** What folding keeps: the stored segments are those of `p`, with the literals of `lits`. */
  ghost predicate Folding(segs: seq<Segment>, p: Pattern, lits: seq<Lit>)
  {
    ShowsAll(segs, p) && RunsCovered(segs, p) && AllLits(p.lays) == lits
  }

  ghost predicate SameLanguage(p: Pattern, q: Pattern)
    requires p.Valid() && q.Valid()
  {
    forall t :: Accepts(p, t) <==> Accepts(q, t)
  }

  /** Dropping the segment without literals at `r` keeps the offsets in order. */
  lemma ValidDropped(p: Pattern, q: Pattern, r: nat)
    requires p.Valid() && |q.lays| + 1 == |p.lays|
    requires forall s :: 0 <= s < |q.lays| ==>
               q.lays[s].Valid() && q.lays[s].lits == p.lays[if s < r then s else s + 1].lits
    ensures q.Valid()
  {
    hide Encode, Layout.Valid;
  }

  lemma {:induction false} AllLitsSame(a: seq<Layout>, b: seq<Layout>)
    requires |a| == |b| && forall s :: 0 <= s < |a| ==> a[s].lits == b[s].lits
    ensures AllLits(a) == AllLits(b)
  {
    if a != [] { AllLitsSame(a[1..], b[1..]); }
  }

  lemma AllLitsDropped(a: seq<Layout>, b: seq<Layout>, r: nat)
    requires r < |a| == |b| + 1 && a[r].lits == []
    requires forall s :: 0 <= s < |b| ==> b[s].lits == a[if s < r then s else s + 1].lits
    ensures AllLits(b) == AllLits(a)
  {
    hide AllLits;
    var x, m, z := a[..r], [a[r]], a[r + 1..];
    assert a == x + m + z;
    AllLitsConcat(x + m, z);
    AllLitsConcat(x, m);
    AllLitsConcat(x, z);
    AllLitsOne(a[r]);
    AllLitsSame(b, x + z);
  }

  lemma FoldedFirstFacts(p: Pattern)
    requires p.Valid() && |p.lays| > 1 && p.lays[0].lits == []
    ensures FoldedFirst(p).Valid() && AllLits(FoldedFirst(p).lays) == AllLits(p.lays)
  {
    hide Encode, Layout.Valid, MaxGap, AllLits, Pattern.Valid;
    var q := FoldedFirst(p);
    forall s | 0 <= s < |p.lays| ensures p.lays[s].Valid() { ValidAt(p, s); }
    WidenWidth(p.lays[1], p.lays[0].prefix + p.lays[0].suffix);
    assert forall s :: 1 <= s < |q.lays| ==> q.lays[s] == p.lays[s + 1];
    ValidDropped(p, q, 0);
    AllLitsDropped(p.lays, q.lays, 0);
  }

  lemma FoldedBackFacts(p: Pattern, r: nat)
    requires p.Valid() && 0 < r < |p.lays| && p.lays[r].lits == []
    ensures FoldedBack(p, r).Valid() && AllLits(FoldedBack(p, r).lays) == AllLits(p.lays)
  {
    hide Encode, Layout.Valid, MaxGap, AllLits, Pattern.Valid;
    var q := FoldedBack(p, r);
    forall s | 0 <= s < |p.lays| ensures p.lays[s].Valid() { ValidAt(p, s); }
    LengthenWidth(p.lays[r - 1], p.lays[r].prefix + p.lays[r].suffix);
    assert forall s :: 0 <= s < r - 1 ==> q.lays[s] == p.lays[s];
    assert forall s :: r <= s < |q.lays| ==> q.lays[s] == p.lays[s + 1];
    ValidDropped(p, q, r);
    AllLitsDropped(p.lays, q.lays, r);
  }

  function WidenSegment(seg: Segment, free: Segment): Segment
  {
    seg.(prefixUnderscoreCnt := seg.prefixUnderscoreCnt + free.prefixUnderscoreCnt + free.suffixUnderscoreCnt,
         hasPrefixPercent := true)
  }

  function LengthenSegment(seg: Segment, free: Segment): Segment
  {
    seg.(suffixUnderscoreCnt := seg.suffixUnderscoreCnt + free.prefixUnderscoreCnt + free.suffixUnderscoreCnt)
  }

  lemma FoldFirstStep(segs: seq<Segment>, p: Pattern, lits: seq<Lit>)
    requires Folding(segs, p, lits) && |segs| > 1 && !segs[0].HasLiteral()
    ensures p.lays[0].lits == [] && Folding([WidenSegment(segs[1], segs[0])] + segs[2..], FoldedFirst(p), lits)
    ensures SameLanguage(p, FoldedFirst(p))
  {
    hide *;
    FoldFirstStored(segs, p, lits);
    FoldFirstSame(p);
  }

  lemma FoldFirstStored(segs: seq<Segment>, p: Pattern, lits: seq<Lit>)
    requires Folding(segs, p, lits) && |segs| > 1 && !segs[0].HasLiteral()
    ensures |p.lays| > 1 && p.Valid() && p.lays[0].lits == [] && FoldedFirst(p).Valid()
    ensures Folding([WidenSegment(segs[1], segs[0])] + segs[2..], FoldedFirst(p), lits)
  {
    hide Encode, MaxGap, MaxRun, AllLits, Layout.Valid, Pattern.Valid, ShowsAll, RunsCovered;
    LiteralFree(segs, p, 0);
    FoldedFirstFacts(p);
    FoldFirstShows(segs, p);
    FoldFirstRuns(segs, p);
  }

  lemma LiteralFree(segs: seq<Segment>, p: Pattern, r: nat)
    requires ShowsAll(segs, p) && r < |segs| && !segs[r].HasLiteral()
    ensures p.Valid() && |p.lays| == |segs| && p.lays[r].lits == []
  {
    hide Pattern.Valid;
    assert Shows(segs[r], p.lays[r]);
  }

  lemma FoldFirstShows(segs: seq<Segment>, p: Pattern)
    requires ShowsAll(segs, p) && |segs| > 1 && |p.lays| > 1 && FoldedFirst(p).Valid()
    ensures ShowsAll([WidenSegment(segs[1], segs[0])] + segs[2..], FoldedFirst(p))
  {
    hide Pattern.Valid;
  }

  lemma FoldFirstRuns(segs: seq<Segment>, p: Pattern)
    requires ShowsAll(segs, p) && |segs| > 1 && |p.lays| > 1 && FoldedFirst(p).Valid() && RunsCovered(segs, p)
    ensures RunsCovered([WidenSegment(segs[1], segs[0])] + segs[2..], FoldedFirst(p))
  {
    hide Encode, MaxGap, Layout.Valid, Pattern.Valid, Shows;
    ValidAt(p, 1);
    WidenWidth(p.lays[1], p.lays[0].prefix + p.lays[0].suffix);
  }

  lemma FoldFirstSame(p: Pattern)
    requires p.Valid() && |p.lays| > 1 && p.lays[0].lits == [] && FoldedFirst(p).Valid()
    ensures SameLanguage(p, FoldedFirst(p))
  {
    hide Accepts, Pattern.Valid, FoldedFirst;
    forall t ensures Accepts(p, t) <==> Accepts(FoldedFirst(p), t) { FoldFirst(p, t); }
  }

  lemma FoldBackStep(segs: seq<Segment>, p: Pattern, lits: seq<Lit>, r: nat)
    requires Folding(segs, p, lits) && 0 < r < |segs| && !segs[r].HasLiteral()
    ensures p.lays[r].lits == []
    ensures Folding(segs[..r - 1] + [LengthenSegment(segs[r - 1], segs[r])] + segs[r + 1..], FoldedBack(p, r), lits)
    ensures SameLanguage(p, FoldedBack(p, r))
  {
    hide *;
    FoldBackStored(segs, p, lits, r);
    FoldBackSame(p, r);
  }

  lemma FoldBackStored(segs: seq<Segment>, p: Pattern, lits: seq<Lit>, r: nat)
    requires Folding(segs, p, lits) && 0 < r < |segs| && !segs[r].HasLiteral()
    ensures r < |p.lays| && p.Valid() && p.lays[r].lits == [] && FoldedBack(p, r).Valid()
    ensures Folding(segs[..r - 1] + [LengthenSegment(segs[r - 1], segs[r])] + segs[r + 1..], FoldedBack(p, r), lits)
  {
    hide Encode, MaxGap, MaxRun, AllLits, Layout.Valid, Pattern.Valid, ShowsAll, RunsCovered;
    LiteralFree(segs, p, r);
    FoldedBackFacts(p, r);
    FoldBackShows(segs, p, r);
    FoldBackRuns(segs, p, r);
  }

  lemma FoldBackShows(segs: seq<Segment>, p: Pattern, r: nat)
    requires ShowsAll(segs, p) && 0 < r < |segs| && r < |p.lays| && FoldedBack(p, r).Valid()
    ensures ShowsAll(segs[..r - 1] + [LengthenSegment(segs[r - 1], segs[r])] + segs[r + 1..], FoldedBack(p, r))
  {
    hide Pattern.Valid;
  }

  lemma FoldBackRuns(segs: seq<Segment>, p: Pattern, r: nat)
    requires ShowsAll(segs, p) && 0 < r < |segs| && r < |p.lays| && FoldedBack(p, r).Valid() && RunsCovered(segs, p)
    ensures RunsCovered(segs[..r - 1] + [LengthenSegment(segs[r - 1], segs[r])] + segs[r + 1..], FoldedBack(p, r))
  {
    hide Encode, MaxGap, Layout.Valid, Pattern.Valid, Shows;
    ValidAt(p, r - 1);
    LengthenWidth(p.lays[r - 1], p.lays[r].prefix + p.lays[r].suffix);
  }

  lemma FoldBackSame(p: Pattern, r: nat)
    requires p.Valid() && 0 < r < |p.lays| && p.lays[r].lits == [] && FoldedBack(p, r).Valid()
    ensures SameLanguage(p, FoldedBack(p, r))
  {
    hide Accepts, Pattern.Valid, FoldedBack;
    forall t ensures Accepts(p, t) <==> Accepts(FoldedBack(p, r), t) { FoldBack(p, r, t); }
  }

  lemma SameLanguageTrans(p: Pattern, q: Pattern, r: Pattern)
    requires p.Valid() && q.Valid() && r.Valid() && SameLanguage(p, q) && SameLanguage(q, r)
    ensures SameLanguage(p, r)
  {
    hide Accepts, Pattern.Valid;
  }

  /** Literal-free segments in front become leading underscores of what follows. */
  ghost function FoldedHead(p: Pattern): Pattern
    decreases |p.lays|
  {
    if |p.lays| > 1 && p.lays[0].lits == [] then FoldedHead(FoldedFirst(p)) else p
  }

  /** Those from segment `r` on become trailing underscores of what precedes. */
  ghost function FoldedTail(p: Pattern, r: nat): Pattern
    decreases |p.lays|, |p.lays| - r
  {
    if !(0 < r < |p.lays|) then p
    else if p.lays[r].lits == [] then FoldedTail(FoldedBack(p, r), r)
    else FoldedTail(p, r + 1)
  }

  ghost function Folded(p: Pattern): Pattern
  {
    FoldedTail(FoldedHead(p), 1)
  }

  /** Removes the segments that hold underscores and no literal. Nothing else of the pattern's meaning
      or literals changes. Afterwards every segment has a literal, unless the pattern has none. */
  method FoldLiteralFreeSegments(segs0: seq<Segment>, ghost p0: Pattern, ghost lits: seq<Lit>)
    returns (segs: seq<Segment>, ghost p: Pattern)
    requires Folding(segs0, p0, lits)
    ensures Folding(segs, p, lits) && SameLanguage(p0, p) && p == Folded(p0)
    ensures |segs| > 1 ==> forall s :: 0 <= s < |segs| ==> segs[s].HasLiteral()
    ensures |segs0| > 0 ==> |segs| > 0
    ensures forall s :: 0 <= s < |segs| && |segs0| > 1 ==> segs[s].maxUnderscoreCnt == MaxRun(p.lays[s])
    ensures |segs0| <= 1 ==> segs == segs0 && p == p0
  {
    hide Folding, SameLanguage, Pattern.Valid, MaxRun, WidenSegment, LengthenSegment, FoldedFirst, FoldedBack;
    segs, p := segs0, p0;
    SameLanguageRefl(segs, p, lits);
    if |segs| < 2 { return; }
    while |segs| > 1 && !segs[0].HasLiteral()
      invariant |segs| == |p.lays| > 0 && Folding(segs, p, lits) && p.Valid() && SameLanguage(p0, p)
      invariant FoldedHead(p) == FoldedHead(p0)
    {
      FoldFirstStep(segs, p, lits);
      FoldingValid([WidenSegment(segs[1], segs[0])] + segs[2..], FoldedFirst(p), lits);
      SameLanguageTrans(p0, p, FoldedFirst(p));
      p := FoldedFirst(p);
      segs := [WidenSegment(segs[1], segs[0])] + segs[2..];
    }
    if |segs| > 1 { HasLiterals(segs, p, lits, 0); }
    var idx := 1;
    while idx < |segs|
      invariant 1 <= idx <= |segs| == |p.lays| && Folding(segs, p, lits) && p.Valid() && SameLanguage(p0, p)
      invariant |segs| > 1 ==> segs[0].HasLiteral()
      invariant forall s :: 1 <= s < idx ==> segs[s].HasLiteral()
      invariant FoldedTail(p, idx) == Folded(p0)
      decreases |segs| - idx
    {
      if segs[idx].HasLiteral() {
        HasLiterals(segs, p, lits, idx);
        idx := idx + 1;
        continue;
      }
      FoldBackStep(segs, p, lits, idx);
      LengthenLiterals(segs[idx - 1], segs[idx]);
      var next := segs[..idx - 1] + [LengthenSegment(segs[idx - 1], segs[idx])] + segs[idx + 1..];
      FoldingValid(next, FoldedBack(p, idx), lits);
      SameLanguageTrans(p0, p, FoldedBack(p, idx));
      p := FoldedBack(p, idx);
      segs := next;
    }
    var i := 0;
    ghost var folded := segs;
    FoldingValid(segs, p, lits);
    while i < |segs|
      invariant 0 <= i <= |segs| == |folded| && Folding(folded, p, lits) && p.Valid() && |p.lays| == |segs|
      invariant forall s :: 0 <= s < |p.lays| ==> p.lays[s].Valid()
      invariant forall s :: i <= s < |segs| ==> segs[s] == folded[s]
      invariant forall s :: 0 <= s < i ==> segs[s] == folded[s].(maxUnderscoreCnt := MaxRun(p.lays[s]))
    {
      CoverRuns(folded, p, lits, i);
      segs := segs[i := segs[i].(maxUnderscoreCnt := Max(segs[i].maxUnderscoreCnt,
                                   Max(segs[i].prefixUnderscoreCnt, segs[i].suffixUnderscoreCnt)))];
      i := i + 1;
    }
    Recount(folded, segs, p, lits);
  }

  lemma HasLiterals(segs: seq<Segment>, p: Pattern, lits: seq<Lit>, r: nat)
    requires Folding(segs, p, lits) && r < |segs| && segs[r].HasLiteral()
    ensures r < |p.lays| && p.lays[r].lits != []
  {
    hide Pattern.Valid;
    assert Shows(segs[r], p.lays[r]);
  }

  lemma SameLanguageRefl(segs: seq<Segment>, p: Pattern, lits: seq<Lit>)
    requires Folding(segs, p, lits)
    ensures p.Valid() && |p.lays| == |segs| && SameLanguage(p, p)
  {
  }

  lemma FoldingValid(segs: seq<Segment>, p: Pattern, lits: seq<Lit>)
    requires Folding(segs, p, lits)
    ensures p.Valid() && |p.lays| == |segs| && forall s :: 0 <= s < |p.lays| ==> p.lays[s].Valid()
  {
  }

  lemma LengthenLiterals(seg: Segment, free: Segment)
    ensures LengthenSegment(seg, free).literalOffset == seg.literalOffset
  {
  }

  /** The final count covers the runs that folding made longer. */
  lemma CoverRuns(segs: seq<Segment>, p: Pattern, lits: seq<Lit>, i: nat)
    requires Folding(segs, p, lits) && i < |segs|
    ensures p.Valid() && |p.lays| == |segs|
    ensures Max(segs[i].maxUnderscoreCnt, Max(segs[i].prefixUnderscoreCnt, segs[i].suffixUnderscoreCnt))
            == MaxRun(p.lays[i])
  {
    hide Encode, MaxGap;
  }

  lemma Recount(folded: seq<Segment>, segs: seq<Segment>, p: Pattern, lits: seq<Lit>)
    requires Folding(folded, p, lits) && |segs| == |folded| && p.Valid() && |p.lays| == |segs|
    requires forall s :: 0 <= s < |segs| ==> segs[s] == folded[s].(maxUnderscoreCnt := MaxRun(p.lays[s]))
    ensures Folding(segs, p, lits)
  {
    hide Encode, MaxGap, AllLits;
  }

  // ----- the whole constructor -----

  /** Segment `lay` is the stretch from symbol `a` to `b`, behind the `%` from `x` on; another `%` or the end
      follows. */
  ghost predicate SegmentAt(lay: Layout, s: Source, x: nat, a: nat, b: nat)
  {
    && x <= a < b <= |s.toks| && (forall k :: x <= k < a ==> s.Wild(k, PERCENT))
    && (forall k :: a <= k < b ==> !s.Wild(k, PERCENT)) && (b < |s.toks| ==> s.Wild(b, PERCENT))
    && Describes(lay, s.Syms()[a..b]) && OffsetsFrom(lay, s, a)
  }

  /** The segments are the stretches of the pattern up to symbol `y`, one after the other. */
  ghost predicate CutUpTo(lays: seq<Layout>, s: Source, y: nat)
  {
    if lays == [] then y == 0
    else
      var n := |lays| - 1;
      exists x: nat, a: nat :: CutUpTo(lays[..n], s, x) && SegmentAt(lays[n], s, x, a, y)
  }

  ghost predicate Anchored(s: Source)
  {
    s.toks == [] || !s.Wild(0, PERCENT)
  }

  /** `p` are the stretches of the pattern between its `%`, all of them. */
  ghost predicate CutInto(p: Pattern, s: Source)
  {
    && p.Valid() && p.anchored == Anchored(s)
    && exists y: nat :: CutUpTo(p.lays, s, y) && RestIs(p, s, y)
  }

  ghost predicate RestIs(p: Pattern, s: Source, y: nat)
  {
    y <= |s.toks| && (forall k :: y <= k < |s.toks| ==> s.Wild(k, PERCENT)) && p.open == (y < |s.toks|)
  }

  /** What the constructor makes of a pattern: its stretches, without those that hold no literal, and all counts. */
  ghost predicate CompilesTo(s: Source, sk: Skeleton, pat: Pattern)
  {
    && ShowsAll(sk.segs, pat) && sk.onlyWildcard == (AllLits(pat.lays) == [])
    && (forall j :: 0 <= j < |sk.segs| ==> sk.segs[j].maxUnderscoreCnt == MaxRun(pat.lays[j]))
    && exists whole: Pattern :: CutInto(whole, s) && pat == Folded(whole)
  }

  lemma CutAppend(lays: seq<Layout>, lay: Layout, s: Source, x: nat, a: nat, b: nat)
    requires CutUpTo(lays, s, x) && SegmentAt(lay, s, x, a, b)
    ensures CutUpTo(lays + [lay], s, b)
  {
    hide SegmentAt;
    var l := lays + [lay];
    assert l[..|l| - 1] == lays && l[|l| - 1] == lay;
  }

  /** The state of the segment loop, the cursor standing at symbol `y`. */
  ghost predicate Reading(segs: seq<Segment>, p: Pattern, lits: seq<Lit>, s: Source, y: nat)
  {
    && y <= |s.toks| && p.Valid() && |segs| == |p.lays| && AllLits(p.lays) == lits && !p.open
    && p.anchored == Anchored(s)
    && Progress(p, s.Syms(), y) && (p.lays == [] ==> y == 0) && CutUpTo(p.lays, s, y)
    && (forall k :: 0 <= k < |segs| ==> Shows(segs[k], p.lays[k]) && segs[k].maxUnderscoreCnt == MaxRun(p.lays[k]))
    && (forall k :: 0 <= k < |segs| ==> segs[k].hasPrefixPercent == (k > 0 || !p.anchored))
    && (forall l :: l in lits ==> l.End() <= s.At(y))
  }

  lemma ReadingStart(s: Source)
    ensures Reading([], Pattern([], Anchored(s), false), [], s, 0)
  {
    hide Like, Encode;
    ProgressStart(Pattern([], Anchored(s), false), s.Syms());
    hide Progress;
  }

  /** The next segment span, from symbol `y` on. */
  ghost predicate NextStretch(s: Source, y: nat, seg: LiteralSpan)
    requires y <= |s.toks|
  {
    && s.At(y) <= seg.start < seg.End() <= |s.Bytes()|
    && AllDelims(s.Bytes(), s.esc, s.At(y), seg.start, PERCENT)
    && NoDelim(s.Bytes(), s.esc, seg.start, seg.End(), PERCENT)
    && (seg.End() < |s.Bytes()| ==> IsDelim(s.Bytes(), s.esc, PERCENT, seg.End()))
  }

  /** How it lies in symbols. */
  lemma SegmentCodes(s: Source, y: nat, seg: LiteralSpan) returns (a: nat, b: nat)
    requires s.Valid() && s.Readable() && y <= |s.toks| && NextStretch(s, y, seg)
    requires y == 0 || s.At(y) < seg.start
    ensures y <= a < b <= |s.toks| && s.At(a) == seg.start && s.At(b) == seg.End() && Stretch(s, a, b)
    ensures (forall k :: y <= k < a ==> s.Wild(k, PERCENT)) && (forall k :: a <= k < b ==> !s.Wild(k, PERCENT))
    ensures y == a <==> s.At(y) == seg.start
    ensures b < |s.toks| <==> seg.End() < |s.Bytes()|
    ensures b < |s.toks| ==> s.Wild(b, PERCENT)
  {
    hide Source.At, Source.Bytes, Source.Readable, AllDelims, NoDelim, IsDelim;
    DelimRun(s, y, seg.start, PERCENT);
    a := y + (seg.start - s.At(y));
    AtEnds(s);
    if seg.End() < |s.Bytes()| { b := DelimAt(s, seg.End(), PERCENT); } else { b := |s.toks|; }
    AtOrder(s, a, b);
    AtOrder(s, y, a);
    AtOrder(s, b, |s.toks|);
    NoDelimToks(s, a, b, PERCENT);
    assert a > y ==> s.Wild(a - 1, PERCENT);
  }

  /** In symbols: a stretch without `%` behind some. */
  lemma StretchSyms(s: Source, y: nat, a: nat, b: nat)
    requires y <= a < b <= |s.toks|
    requires (forall k :: y <= k < a ==> s.Wild(k, PERCENT)) && (forall k :: a <= k < b ==> !s.Wild(k, PERCENT))
    ensures (forall k :: y <= k < a ==> s.Syms()[k] == Percent) && NoPercent(s.Syms()[a..b])
    ensures Anchored(s) == (s.Syms()[0] != Percent)
  {
    forall k | y <= k < a ensures s.Syms()[k] == Percent { assert s.Wild(k, PERCENT); }
    forall k | 0 <= k < b - a ensures s.Syms()[a..b][k] != Percent { assert !s.Wild(a + k, PERCENT); }
  }

  lemma ReadingStep(segs: seq<Segment>, p: Pattern, lits: seq<Lit>, s: Source, y: nat, a: nat, b: nat, m: Segment,
                    lay: Layout)
    requires s.Valid() && Reading(segs, p, lits, s, y) && SegmentAt(lay, s, y, a, b)
    requires p.lays != [] ==> y < a
    requires Shows(m, lay) && m.maxUnderscoreCnt == MaxRun(lay) && m.hasPrefixPercent == (|segs| > 0 || a > 0)
    requires forall l :: l in lay.lits ==> s.At(a) <= l.off && l.End() <= s.At(b)
    ensures Reading(segs + [m], Append(p, lay), lits + lay.lits, s, b)
  {
    hide Encode, Describes, Shows, Progress, MaxRun, Like, Source.At, Pattern.Valid, AllLits, OffsetsFrom, CutUpTo,
         Layout.Valid, NoPercent, Source.Valid;
    DescribedWidth(lay, s.Syms()[a..b]);
    StretchSyms(s, y, a, b);
    assert a == 0 ==> !s.Wild(a, PERCENT);
    assert a > 0 && y == 0 ==> s.Wild(0, PERCENT);
    AtOrder(s, y, a);
    AtOrder(s, a, b);
    ValidAppend(p, lay, s.At(y));
    AllLitsConcat(p.lays, [lay]);
    AllLitsOne(lay);
    CutAppend(p.lays, lay, s, y, a, b);
    ProgressStep(p, lay, s.Syms(), y, a, b);
  }

  lemma ReadingEnd(segs: seq<Segment>, p: Pattern, lits: seq<Lit>, s: Source, y: nat)
    requires Reading(segs, p, lits, s, y) && forall k :: y <= k < |s.toks| ==> s.Wild(k, PERCENT)
    ensures var q := p.(open := y < |s.toks|);
            q.Valid() && AllLits(q.lays) == lits && CutInto(q, s) && forall t :: Like(s.Syms(), t) <==> Accepts(q, t)
  {
    hide Like, Encode, Describes, Shows, Accepts, Layout.Valid, MaxRun, CutUpTo, Source.At;
    var q := p.(open := y < |s.toks|);
    assert q.Valid();
    assert RestIs(q, s, y);
    hide RestIs;
    ProgressOpen(p, q, s.Syms(), y);
    hide Progress, Pattern.Valid;
    forall k | y <= k < |s.toks| ensures s.Syms()[k] == Percent { assert s.Wild(k, PERCENT); }
    forall t ensures Like(s.Syms(), t) <==> Accepts(q, t) { ProgressEnd(q, s.Syms(), y, t); }
  }

  lemma ProgressOpen(p: Pattern, q: Pattern, ps: seq<Sym>, y: nat)
    requires p.Valid() && q.Valid() && y <= |ps| && p.lays == q.lays && p.anchored == q.anchored
    requires Progress(p, ps, y)
    ensures Progress(q, ps, y)
  {
    hide Like, Layout.Valid, Pattern.Valid, Reach;
    forall t, e: nat ensures Standing(p, ps, y, t, e) <==> Standing(q, ps, y, t, e) {
      ReachSame(p, q, t, |p.lays|, e);
      ReachSame(q, p, t, |p.lays|, e);
    }
    hide Standing;
  }

  function SuffixFlag(segs: seq<Segment>, last: bool, s: nat): bool
    requires s < |segs|
  {
    if s + 1 < |segs| then segs[s + 1].hasPrefixPercent else last || segs[s].hasSuffixPercent
  }

  /** `has_suffix_percent` of every segment: the next one's prefix flag, and the tokenizer's verdict at the end. */
  method FillSuffixFlags(segs0: seq<Segment>, last: bool) returns (segs: seq<Segment>)
    ensures |segs| == |segs0|
    ensures forall s :: 0 <= s < |segs| ==> segs[s] == segs0[s].(hasSuffixPercent := SuffixFlag(segs0, last, s))
  {
    segs := segs0;
    if segs == [] { return; }
    if last { segs := segs[|segs| - 1 := segs[|segs| - 1].(hasSuffixPercent := true)]; }
    var idx := |segs| - 2;
    while idx >= 0
      invariant -1 <= idx <= |segs| - 2 && |segs| == |segs0|
      invariant forall s :: idx < s < |segs| ==> segs[s] == segs0[s].(hasSuffixPercent := SuffixFlag(segs0, last, s))
      invariant forall s :: 0 <= s <= idx ==> segs[s] == segs0[s]
    {
      assert segs[idx + 1].hasPrefixPercent == segs0[idx + 1].hasPrefixPercent;
      segs := segs[idx := segs[idx].(hasSuffixPercent := segs[idx + 1].hasPrefixPercent)];
      idx := idx - 1;
    }
  }

  lemma ReadingFolding(segs: seq<Segment>, filled: seq<Segment>, p: Pattern, q: Pattern, lits: seq<Lit>, s: Source,
                       y: nat)
    requires Reading(segs, p, lits, s, y) && q == p.(open := y < |s.toks|) && q.Valid() && AllLits(q.lays) == lits
    requires |filled| == |segs|
    requires forall k :: 0 <= k < |segs| ==> filled[k] == segs[k].(hasSuffixPercent := SuffixFlag(segs, q.open, k))
    requires forall k :: 0 <= k < |segs| ==> !segs[k].hasSuffixPercent
    ensures Folding(filled, q, lits)
  {
    hide Encode, Progress, MaxGap, Pattern.Valid, Layout.Valid, AllLits, Like, Source.At, CutUpTo;
    forall k | 0 <= k < |segs| ensures q.lays[k].Valid() && filled[k].hasSuffixPercent == (k + 1 < |segs| || q.open) {
      ValidAt(q, k);
    }
  }

  /** A `%` in front of a segment span is not part of it. */
  lemma NotSegment(p: seq<byte>, esc: Option<Code>, x: nat, s: LiteralSpan)
    requires x <= s.start < s.End() <= |p| && NoDelim(p, esc, s.start, s.End(), PERCENT)
    ensures IsDelim(p, esc, PERCENT, x) ==> x < s.start
  {
  }

  lemma ReadingCount(segs: seq<Segment>, p: Pattern, lits: seq<Lit>, s: Source, y: nat)
    requires Reading(segs, p, lits, s, y)
    ensures |segs| == |p.lays| && p.Valid()
  {
  }

  lemma SpansConcat(p: seq<byte>, esc: Option<Code>, a: seq<LiteralSpan>, x: seq<Lit>, b: seq<LiteralSpan>, y: seq<Lit>)
    requires Spans(p, esc, a, x) && Spans(p, esc, b, y)
    ensures Spans(p, esc, a + b, x + y)
    ensures |a + b| == |x + y|
  {
    hide Encode, Stripped;
  }

  lemma TailCodes(s: Source, y: nat)
    requires s.Valid() && y <= |s.toks| && s.At(y) <= |s.Bytes()|
    requires AllDelims(s.Bytes(), s.esc, s.At(y), |s.Bytes()|, PERCENT)
    ensures forall k :: y <= k < |s.toks| ==> s.Wild(k, PERCENT)
    ensures s.At(y) != |s.Bytes()| <==> y < |s.toks|
  {
    hide Source.At, Source.Bytes, AllDelims;
    DelimRun(s, y, |s.Bytes()|, PERCENT);
    AtEnds(s);
    AtOrder(s, y + (|s.Bytes()| - s.At(y)), |s.toks|);
  }

  lemma Finish(filled: seq<Segment>, q: Pattern, folded: seq<Segment>, pat: Pattern, lits: seq<Lit>, ps: seq<Sym>)
    requires q.Valid() && Folding(folded, pat, lits) && pat.Valid() && SameLanguage(q, pat)
    requires forall t :: Like(ps, t) <==> Accepts(q, t)
    ensures ShowsAll(folded, pat) && AllLits(pat.lays) == lits
    ensures forall t :: Like(ps, t) <==> Accepts(pat, t)
    ensures |folded| == 1 && lits != [] ==> folded[0].HasLiteral()
    ensures lits != [] ==> |folded| > 0
  {
    hide Encode, Like, Accepts, Layout.Valid, Pattern.Valid, MaxGap;
    if |folded| == 1 {
      assert pat.lays == [pat.lays[0]];
      AllLitsOne(pat.lays[0]);
    }
  }

  lemma ReadingRuns(segs: seq<Segment>, filled: seq<Segment>, p: Pattern, q: Pattern, lits: seq<Lit>, s: Source, y: nat)
    requires Reading(segs, p, lits, s, y) && q == p.(open := q.open) && q.Valid() && |filled| == |segs|
    requires forall k :: 0 <= k < |segs| ==> filled[k].maxUnderscoreCnt == segs[k].maxUnderscoreCnt
    ensures |q.lays| == |segs|
    ensures forall k :: 0 <= k < |filled| ==> filled[k].maxUnderscoreCnt == MaxRun(q.lays[k])
  {
    hide Encode, Like, Progress, Layout.Valid, AllLits, MaxRun, Describes, Source.At, CutUpTo;
  }

  lemma WildcardStep(ps: seq<Sym>, y: nat, a: nat, b: nat, lay: Layout)
    requires y <= a <= b <= |ps| && Describes(lay, ps[a..b]) && lay.lits == []
    requires forall k :: y <= k < a ==> ps[k] == Percent
    ensures OnlyWildcards(ps[..y]) ==> OnlyWildcards(ps[..b])
  {
    hide Encode, Layout.Valid, Layout.Width;
    forall k | y <= k < b ensures ps[k] == Percent || ps[k] == Underscore {
      if a <= k { assert ps[a..b][k - a] == ps[k]; }
    }
    assert forall k :: 0 <= k < y ==> ps[k] == ps[..y][k];
  }

  lemma WildcardEnd(s: Source, y: nat)
    requires y <= |s.toks| && forall k :: y <= k < |s.toks| ==> s.Wild(k, PERCENT)
    ensures OnlyWildcards(s.Syms()[..y]) ==> OnlyWildcards(s.Syms())
  {
    var ps := s.Syms();
    forall k | y <= k < |ps| ensures ps[k] == Percent { assert s.Wild(k, PERCENT); }
    assert forall k :: 0 <= k < y ==> ps[k] == ps[..y][k];
  }

  lemma SpansSize(p: seq<byte>, esc: Option<Code>, spans: seq<LiteralSpan>, lits: seq<Lit>)
    requires Spans(p, esc, spans, lits)
    ensures |spans| == |lits|
  {
  }

  /** The `Skeleton` constructor. `spans` are the literals it reports to its callback, in order; the ghost
      pattern is what the segments mean. It accepts exactly the texts that are LIKE the pattern. */
  method NewSkeleton(p: seq<byte>, esc: Option<Code>, ghost s: Source)
    returns (sk: Skeleton, spans: seq<LiteralSpan>, ghost pat: Pattern)
    requires p == s.Bytes() && esc == s.esc && s.Valid() && s.Readable()
    ensures CompilesTo(s, sk, pat) && forall t :: Like(s.Syms(), t) <==> Accepts(pat, t)
    ensures Spans(p, esc, spans, AllLits(pat.lays)) && sk.onlyWildcard == (spans == [])
    ensures sk.onlyWildcard ==> OnlyWildcards(s.Syms())
    ensures !sk.onlyWildcard ==> |sk.segs| > 0 && forall k :: 0 <= k < |sk.segs| ==> sk.segs[k].HasLiteral()
  {
    hide Encode, Source.At, Source.Bytes, Reading, Folding, Spans, AllLits, AllDelims, NoDelim, Describes, Shows, Like,
         Accepts, NoPercent, MaxRun, ShowsAll, Pattern.Valid, Append, SameLanguage, Source.Readable, IsDelim, Stretch,
         OffsetsFrom, NextStretch, CutUpTo, CutInto, Folded, Source.Valid,
         Layout.Valid;
    var tok := new Tokenizer(p, esc);
    var segs: seq<Segment> := [];
    spans := [];
    pat := Pattern([], Anchored(s), false);
    ghost var lits: seq<Lit> := [];
    ghost var y := 0;
    ReadingStart(s);
    AtEnds(s);
    SpansNil(p, esc);
    while true
      invariant fresh(tok) && tok.p == p && tok.esc == esc && y <= |s.toks| && tok.pos == s.At(y) <= |p|
      invariant Reading(segs, pat, lits, s, y) && Spans(p, esc, spans, lits) && |spans| == |lits|
      invariant forall k :: 0 <= k < |segs| ==> !segs[k].hasSuffixPercent
      invariant pat.lays != [] && tok.pos < |p| ==> IsDelim(p, esc, PERCENT, tok.pos)
      invariant |segs| == |pat.lays| && (segs == [] ==> y == 0)
      invariant lits == [] ==> OnlyWildcards(s.Syms()[..y])
      decreases |p| - tok.pos
    {
      var seg := tok.NextSegment();
      if seg == None { break; }
      NextStretchIs(s, y, seg.value);
      assert pat.lays != [] ==> s.At(y) < seg.value.start by { NotSegment(p, esc, s.At(y), seg.value); }
      ghost var a, b := SegmentCodes(s, y, seg.value);
      var m, litSpans;
      ghost var lay;
      m, litSpans, lay := CompileSegment(tok, seg.value, |segs| > 0 || seg.value.start > 0, s, a, b);
      AtOrder(s, 0, a);
      StretchSyms(s, y, a, b);
      if lay.lits == [] { WildcardStep(s.Syms(), y, a, b, lay); }
      ReadingStep(segs, pat, lits, s, y, a, b, m, lay);
      ReadingCount(segs + [m], Append(pat, lay), lits + lay.lits, s, b);
      SpansConcat(p, esc, spans, lits, litSpans, lay.lits);
      segs, spans := segs + [m], spans + litSpans;
      pat, lits, y := Append(pat, lay), lits + lay.lits, b;
    }
    TailCodes(s, y);
    WildcardEnd(s, y);
    ReadingEnd(segs, pat, lits, s, y);
    ghost var q := pat.(open := y < |s.toks|);
    var filled := FillSuffixFlags(segs, tok.pos != |p|);
    ReadingFolding(segs, filled, pat, q, lits, s, y);
    ReadingRuns(segs, filled, pat, q, lits, s, y);
    var folded;
    folded, pat := FoldLiteralFreeSegments(filled, q, lits);
    FoldingValid(folded, pat, lits);
    Finish(filled, q, folded, pat, lits, s.Syms());
    sk := Skeleton(folded, spans == []);
  }

  lemma NextStretchIs(s: Source, y: nat, seg: LiteralSpan)
    requires y <= |s.toks| && s.At(y) <= seg.start < seg.End() <= |s.Bytes()|
    requires AllDelims(s.Bytes(), s.esc, s.At(y), seg.start, PERCENT)
    requires NoDelim(s.Bytes(), s.esc, seg.start, seg.End(), PERCENT)
    requires seg.End() < |s.Bytes()| ==> IsDelim(s.Bytes(), s.esc, PERCENT, seg.End())
    ensures NextStretch(s, y, seg)
  {
  }
}
