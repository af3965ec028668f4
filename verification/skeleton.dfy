/** The pattern compiler: a pattern becomes segments of literal offsets and underscore counts, and
    segments without a literal are folded into their neighbours. */
module Skeletons {
  import opened Utf8
  import opened Layouts

  function Max(a: nat, b: nat): (m: nat)
    ensures m >= a && m >= b && (m == a || m == b)
  {
    if a < b then b else a
  }

  /** One segment as the matcher sees it. `litOffP` is the position of an offset within `literalOffset`. */
  datatype Segment = Segment(literalOffset: seq<nat>, litOffP: map<nat, nat>, prefixUnderscoreCnt: nat,
                             suffixUnderscoreCnt: nat, maxUnderscoreCnt: nat, hasPrefixPercent: bool,
                             hasSuffixPercent: bool)
  {
    ghost predicate Valid()
    {
      && (forall j :: 0 <= j < |literalOffset| ==> literalOffset[j] in litOffP && litOffP[literalOffset[j]] == j)
      && (forall o :: o in litOffP ==> litOffP[o] < |literalOffset| && literalOffset[litOffP[o]] == o)
    }

    function Insert(startPos: nat): Segment
    {
      this.(literalOffset := literalOffset + [startPos],
            litOffP := if startPos in litOffP then litOffP else litOffP[startPos := |literalOffset|])
    }

    /** The constructor's bookkeeping for one literal that stands `gap` underscores behind the previous one. */
    function AddLiteral(gap: nat, startPos: nat): Segment
    {
      var s := if HasLiteral() then this else this.(prefixUnderscoreCnt := gap);
      s.(maxUnderscoreCnt := Max(maxUnderscoreCnt, gap)).Insert(startPos)
    }

    predicate HasLiteral()
    {
      literalOffset != []
    }

    predicate Contain(startPos: nat)
    {
      startPos in litOffP
    }

    predicate IsFirstLiteral(startPos: nat)
      requires Contain(startPos)
    {
      litOffP[startPos] == 0
    }

    predicate IsLastLiteral(startPos: nat)
      requires Contain(startPos)
    {
      litOffP[startPos] == |literalOffset| - 1
    }

    predicate IsPreviousLiteral(prevStartPos: nat, startPos: nat)
      requires Valid() && Contain(startPos)
    {
      var pos := litOffP[startPos];
      pos > 0 && literalOffset[pos - 1] == prevStartPos
    }

    function GetNextLiteralOffset(startPos: nat): nat
      requires Valid() && Contain(startPos) && !IsLastLiteral(startPos)
    {
      literalOffset[litOffP[startPos] + 1]
    }
  }

  datatype Skeleton = Skeleton(segs: seq<Segment>, onlyWildcard: bool)

  // ----- segments and layouts -----

  /** The segment stores the offsets and counts of the layout. */
  ghost predicate Shows(seg: Segment, lay: Layout)
  {
    && seg.Valid() && |seg.literalOffset| == |lay.lits|
    && (forall j :: 0 <= j < |lay.lits| ==> seg.literalOffset[j] == lay.lits[j].off)
    && seg.prefixUnderscoreCnt == lay.prefix && seg.suffixUnderscoreCnt == lay.suffix
  }

  ghost function MaxGap(lay: Layout, n: nat): nat
    requires lay.Valid() && n <= |lay.lits|
  {
    if n < 2 then 0 else Max(MaxGap(lay, n - 1), lay.Gap(n - 1))
  }

  /** The longest run of underscores of a segment. */
  ghost function MaxRun(lay: Layout): nat
    requires lay.Valid()
  {
    Max(MaxGap(lay, |lay.lits|), Max(lay.prefix, lay.suffix))
  }

  /** The segments of a compiled pattern, flags included. */
  ghost predicate ShowsAll(segs: seq<Segment>, p: Pattern)
  {
    && |segs| == |p.lays| && p.Valid()
    && (forall s :: 0 <= s < |segs| ==> Shows(segs[s], p.lays[s]))
    && (forall s :: 0 <= s < |segs| ==> segs[s].hasPrefixPercent == (s > 0 || !p.anchored))
    && (forall s :: 0 <= s < |segs| ==> segs[s].hasSuffixPercent == (s + 1 < |segs| || p.open))
  }

  ghost predicate RunsCovered(segs: seq<Segment>, p: Pattern)
    requires p.Valid() && |segs| == |p.lays|
  {
    forall s :: 0 <= s < |segs| ==>
      MaxGap(p.lays[s], |p.lays[s].lits|) <= segs[s].maxUnderscoreCnt <= MaxRun(p.lays[s])
  }

  /** All literals of a pattern in the order the compiler reports them. */
  ghost function AllLits(lays: seq<Layout>): seq<Lit>
  {
    if lays == [] then [] else lays[0].lits + AllLits(lays[1..])
  }

  lemma {:induction false} AllLitsConcat(a: seq<Layout>, b: seq<Layout>)
    ensures AllLits(a + b) == AllLits(a) + AllLits(b)
  {
    if a == [] {
      assert a + b == b;
    } else {
      AllLitsConcat(a[1..], b);
      ConcatHead(a, b);
      ConcatAssoc(a[0].lits, AllLits(a[1..]), AllLits(b));
    }
  }

  lemma ConcatHead<T>(a: seq<T>, b: seq<T>)
    requires a != []
    ensures (a + b)[0] == a[0] && (a + b)[1..] == a[1..] + b
  {
  }

  lemma ConcatAssoc<T>(a: seq<T>, b: seq<T>, c: seq<T>)
    ensures a + (b + c) == a + b + c
  {
  }

  lemma AllLitsOne(lay: Layout)
    ensures AllLits([lay]) == lay.lits
  {
    assert [lay][1..] == [];
  }

  // ----- folding -----

  ghost function Widen(lay: Layout, w: nat): Layout
  {
    lay.(prefix := lay.prefix + w)
  }

  ghost function Lengthen(lay: Layout, w: nat): Layout
  {
    lay.(suffix := lay.suffix + w)
  }

  lemma {:induction false} WidenStart(lay: Layout, w: nat, j: nat)
    requires lay.Valid() && j < |lay.lits|
    ensures Widen(lay, w).Valid() && Widen(lay, w).Start(j) == lay.Start(j) + w
  {
    hide Encode;
    if j > 0 { WidenStart(lay, w, j - 1); }
  }

  lemma WidenWidth(lay: Layout, w: nat)
    requires lay.Valid()
    ensures Widen(lay, w).Valid() && Widen(lay, w).Width() == lay.Width() + w
    ensures MaxGap(Widen(lay, w), |lay.lits|) == MaxGap(lay, |lay.lits|)
  {
    hide Encode;
    assert Widen(lay, w).Valid() by { hide Layout.Start, Layout.Width; }
    if lay.lits != [] { WidenStart(lay, w, |lay.lits| - 1); }
    SameGaps(lay, Widen(lay, w), |lay.lits|);
  }

  lemma GoodSame(a: Layout, b: Layout, t: seq<Code>, i: nat, k: nat)
    requires a.Valid() && b.Valid() && a.lits == b.lits
    requires forall j :: 0 <= j < |a.lits| ==> i + a.Start(j) == k + b.Start(j)
    ensures Good(a, t, i, |a.lits|) <==> Good(b, t, k, |b.lits|)
  {
    hide Layout.Start, Layout.Valid, Encode, Occurs;
  }

  /** Underscores in front move the start of the segment and nothing else. */
  lemma WidenMatch(lay: Layout, w: nat, t: seq<Code>, i: nat)
    requires lay.Valid()
    ensures Widen(lay, w).Valid() && Widen(lay, w).Width() == lay.Width() + w
    ensures Match(Widen(lay, w), t, i) <==> Match(lay, t, i + w)
  {
    WidenWidth(lay, w);
    forall j | 0 <= j < |lay.lits| ensures Widen(lay, w).Start(j) == lay.Start(j) + w {
      WidenStart(lay, w, j);
    }
    hide Layout.Start, Layout.Width, Occurs, Layout.Valid, Encode;
    GoodSame(lay, Widen(lay, w), t, i + w, i);
    hide Good;
  }

  lemma {:induction false} LengthenStart(lay: Layout, w: nat, j: nat)
    requires lay.Valid() && j < |lay.lits|
    ensures Lengthen(lay, w).Valid() && Lengthen(lay, w).Start(j) == lay.Start(j)
  {
    hide Encode;
    if j > 0 { LengthenStart(lay, w, j - 1); }
  }

  lemma LengthenWidth(lay: Layout, w: nat)
    requires lay.Valid()
    ensures Lengthen(lay, w).Valid() && Lengthen(lay, w).Width() == lay.Width() + w
    ensures MaxGap(Lengthen(lay, w), |lay.lits|) == MaxGap(lay, |lay.lits|)
  {
    hide Encode;
    assert Lengthen(lay, w).Valid() by { hide Layout.Start, Layout.Width; }
    if lay.lits != [] { LengthenStart(lay, w, |lay.lits| - 1); }
    SameGaps(lay, Lengthen(lay, w), |lay.lits|);
  }

  lemma {:induction false} SameGaps(a: Layout, b: Layout, n: nat)
    requires a.Valid() && b.Valid() && a.lits == b.lits && n <= |a.lits|
    ensures MaxGap(a, n) == MaxGap(b, n)
  {
    hide Encode;
    if n >= 2 { SameGaps(a, b, n - 1); }
  }

  /** Underscores behind only ask for more text. */
  lemma LengthenMatch(lay: Layout, w: nat, t: seq<Code>, i: nat)
    requires lay.Valid()
    ensures Lengthen(lay, w).Valid() && Lengthen(lay, w).Width() == lay.Width() + w
    ensures Match(Lengthen(lay, w), t, i) <==> Match(lay, t, i) && i + lay.Width() + w <= |t|
  {
    LengthenWidth(lay, w);
    forall j | 0 <= j < |lay.lits| ensures Lengthen(lay, w).Start(j) == lay.Start(j) {
      LengthenStart(lay, w, j);
    }
    hide Layout.Start, Layout.Width, Occurs, Layout.Valid, Encode;
    GoodSame(lay, Lengthen(lay, w), t, i, i);
    hide Good;
  }

  /** A segment without literals asks for room and nothing else. */
  lemma FreeMatch(lay: Layout, t: seq<Code>, i: nat)
    requires lay.Valid() && lay.lits == []
    ensures lay.Width() == lay.prefix + lay.suffix
    ensures Match(lay, t, i) <==> i + lay.prefix + lay.suffix <= |t|
  {
    hide Encode;
  }

  ghost function FoldedFirst(p: Pattern): Pattern
    requires |p.lays| > 1
  {
    Pattern([Widen(p.lays[1], p.lays[0].prefix + p.lays[0].suffix)] + p.lays[2..], false, p.open)
  }

  lemma ValidAt(p: Pattern, s: nat)
    requires p.Valid() && s < |p.lays|
    ensures p.lays[s].Valid()
  {
  }

  /** A first segment without literals only keeps the second from starting before its underscores. */
  lemma FreeHead(p: Pattern, t: seq<Code>) returns (k: nat)
    requires p.Valid() && |p.lays| > 1 && p.lays[0].lits == [] && Accepts(p, t)
    ensures p.lays[0].prefix + p.lays[0].suffix <= k
    ensures Match(p.lays[1], t, k) && After(p, t, 2, k + p.lays[1].Width())
  {
    hide Match, Layout.Width, Layout.Valid, Encode, After, Pattern.Valid;
    ValidAt(p, 0);
    var i := AfterElim(p, t, 0, 0);
    FreeMatch(p.lays[0], t, i);
    k := AfterElim(p, t, 1, i + p.lays[0].Width());
  }

  lemma FreeHeadBack(p: Pattern, t: seq<Code>, k: nat)
    requires p.Valid() && |p.lays| > 1 && p.lays[0].lits == []
    requires p.lays[0].prefix + p.lays[0].suffix <= k <= |t|
    requires Match(p.lays[1], t, k) && After(p, t, 2, k + p.lays[1].Width())
    ensures Accepts(p, t)
  {
    hide Match, Layout.Width, Layout.Valid, Encode, After, Pattern.Valid;
    ValidAt(p, 0);
    FreeMatch(p.lays[0], t, 0);
    AfterIntro(p, t, 1, 0 + p.lays[0].Width(), k);
    AfterIntro(p, t, 0, 0, 0);
  }

  /** A widened first segment that is tied to nothing. */
  lemma WideHead(q: Pattern, lay: Layout, w: nat, t: seq<Code>, k: nat)
    requires q.Valid() && |q.lays| > 0 && !q.anchored && lay.Valid() && q.lays[0] == Widen(lay, w)
    requires w <= k && Match(lay, t, k) && After(q, t, 1, k + lay.Width())
    ensures Accepts(q, t)
  {
    hide Match, Layout.Width, Layout.Valid, Widen, Encode, After, Pattern.Valid, Accepts;
    WidenMatch(lay, w, t, k - w);
    AcceptsIntro(q, t, k - w);
  }

  lemma WideHeadBack(q: Pattern, lay: Layout, w: nat, t: seq<Code>) returns (k: nat)
    requires q.Valid() && |q.lays| > 0 && lay.Valid() && q.lays[0] == Widen(lay, w) && Accepts(q, t)
    ensures w <= k <= |t| && Match(lay, t, k) && After(q, t, 1, k + lay.Width())
  {
    hide Match, Layout.Width, Layout.Valid, Widen, Encode, After, Pattern.Valid, Accepts;
    var i := AcceptsElim(q, t);
    k := i + w;
    WidenMatch(lay, w, t, i);
    MatchRoom(q.lays[0], t, i);
  }

  lemma FoldFirstForward(p: Pattern, t: seq<Code>, q: Pattern)
    requires p.Valid() && q.Valid() && |p.lays| == |q.lays| + 1 > 1 && p.lays[0].lits == []
    requires p.lays[2..] == q.lays[1..] && q.lays[0] == Widen(p.lays[1], p.lays[0].prefix + p.lays[0].suffix)
    requires !q.anchored && q.open == p.open
    requires Accepts(p, t)
    ensures Accepts(q, t)
  {
    hide Match, Layout.Width, Layout.Valid, Widen, Encode, After, Pattern.Valid, Accepts;
    ValidAt(p, 1);
    var k := FreeHead(p, t);
    AfterSame(p, q, t, 2, 1, k + p.lays[1].Width());
    WideHead(q, p.lays[1], p.lays[0].prefix + p.lays[0].suffix, t, k);
  }

  lemma FoldFirstBackward(p: Pattern, t: seq<Code>, q: Pattern)
    requires p.Valid() && q.Valid() && |p.lays| == |q.lays| + 1 > 1 && p.lays[0].lits == []
    requires p.lays[2..] == q.lays[1..] && q.lays[0] == Widen(p.lays[1], p.lays[0].prefix + p.lays[0].suffix)
    requires !q.anchored && q.open == p.open
    requires Accepts(q, t)
    ensures Accepts(p, t)
  {
    hide Match, Layout.Width, Layout.Valid, Widen, Encode, After, Pattern.Valid, Accepts;
    ValidAt(p, 1);
    var k := WideHeadBack(q, p.lays[1], p.lays[0].prefix + p.lays[0].suffix, t);
    AfterSame(q, p, t, 1, 2, k + p.lays[1].Width());
    FreeHeadBack(p, t, k);
  }

  /** `__%a` and `%__a` both say: at least two code points, then `a`. */
  lemma FoldFirst(p: Pattern, t: seq<Code>)
    requires p.Valid() && |p.lays| > 1 && p.lays[0].lits == [] && FoldedFirst(p).Valid()
    ensures Accepts(p, t) <==> Accepts(FoldedFirst(p), t)
  {
    var q := FoldedFirst(p);
    assert q.lays[1..] == p.lays[2..];
    hide Accepts, Widen, Pattern.Valid;
    if Accepts(p, t) { FoldFirstForward(p, t, q); }
    if Accepts(q, t) { FoldFirstBackward(p, t, q); }
  }

  lemma MatchRoom(lay: Layout, t: seq<Code>, i: nat)
    requires lay.Valid() && Match(lay, t, i)
    ensures i + lay.Width() <= |t|
  {
  }

  ghost function FoldedBack(p: Pattern, r: nat): Pattern
    requires 0 < r < |p.lays|
  {
    Pattern(p.lays[..r - 1] + [Lengthen(p.lays[r - 1], p.lays[r].prefix + p.lays[r].suffix)] + p.lays[r + 1..],
            p.anchored, p.open || r + 1 == |p.lays|)
  }

  /** Behind a `%`, `w` underscores and another `%` (or the end) only ask for `w` more code points. */
  lemma FreeTail(p: Pattern, t: seq<Code>, r: nat, e: nat)
    requires p.Valid() && 0 < r < |p.lays| && p.lays[r].lits == []
    ensures var w := p.lays[r].prefix + p.lays[r].suffix;
            After(p, t, r, e) <==> e + w <= |t| && (r + 1 < |p.lays| ==> After(p, t, r + 1, e + w))
  {
    var w := p.lays[r].prefix + p.lays[r].suffix;
    hide Match, Layout.Width, Layout.Valid, Encode, After;
    if r + 1 == |p.lays| {
      AfterEnd(p, t, |t|);
      AfterEnd(p, t, e + w);
    }
    if After(p, t, r, e) {
      var i := AfterElim(p, t, r, e);
      FreeMatch(p.lays[r], t, i);
      if r + 1 < |p.lays| { AfterMonotone(p, t, r + 1, e + w, i + w); }
    }
    if e + w <= |t| && (r + 1 < |p.lays| ==> After(p, t, r + 1, e + w)) {
      var i := if r + 1 < |p.lays| then e else |t| - w;
      FreeMatch(p.lays[r], t, i);
      AfterIntro(p, t, r, e, i);
    }
  }

  /** How `q` comes from `p`: segment `r` has no literal, and the one before has `w` more underscores behind. */
  ghost predicate FoldedAt(p: Pattern, q: Pattern, r: nat, w: nat)
  {
    && p.Valid() && q.Valid() && 0 < r < |p.lays| == |q.lays| + 1 && p.lays[r].lits == []
    && w == p.lays[r].prefix + p.lays[r].suffix && p.anchored == q.anchored && q.open == (p.open || r + 1 == |p.lays|)
    && q.lays[..r - 1] == p.lays[..r - 1] && q.lays[r - 1] == Lengthen(p.lays[r - 1], w)
    && q.lays[r..] == p.lays[r + 1..]
  }

  lemma FoldedBackAt(p: Pattern, r: nat)
    requires p.Valid() && 0 < r < |p.lays| && p.lays[r].lits == [] && FoldedBack(p, r).Valid()
    ensures FoldedAt(p, FoldedBack(p, r), r, p.lays[r].prefix + p.lays[r].suffix)
  {
    hide Pattern.Valid, Lengthen;
  }

  lemma FoldBackForward(p: Pattern, q: Pattern, r: nat, w: nat, t: seq<Code>, e: nat)
    requires FoldedAt(p, q, r, w) && Reach(p, t, r - 1, e) && After(p, t, r - 1, e)
    ensures Reach(q, t, r - 1, e) && After(q, t, r - 1, e)
  {
    hide Match, Layout.Width, Layout.Valid, Lengthen, Encode, Reach, After, Pattern.Valid;
    var s := r - 1;
    ValidAt(p, s);
    ReachSame(p, q, t, s, e);
    var i := AfterElim(p, t, s, e);
    FreeTail(p, t, r, i + p.lays[s].Width());
    LengthenMatch(p.lays[s], w, t, i);
    var d := i + p.lays[s].Width() + w;
    if r + 1 < |p.lays| { AfterSame(p, q, t, r + 1, r, d); } else { AfterEnd(q, t, d); }
    AfterIntro(q, t, s, e, i);
  }

  lemma FoldBackBackward(p: Pattern, q: Pattern, r: nat, w: nat, t: seq<Code>, e: nat)
    requires FoldedAt(p, q, r, w) && Reach(q, t, r - 1, e) && After(q, t, r - 1, e)
    ensures Reach(p, t, r - 1, e) && After(p, t, r - 1, e)
  {
    hide Match, Layout.Width, Layout.Valid, Lengthen, Encode, Reach, After, Pattern.Valid;
    var s := r - 1;
    ValidAt(p, s);
    ReachSame(q, p, t, s, e);
    var i := AfterElim(q, t, s, e);
    LengthenMatch(p.lays[s], w, t, i);
    var d := i + p.lays[s].Width() + w;
    if r + 1 < |p.lays| { AfterSame(q, p, t, r, r + 1, d); }
    FreeTail(p, t, r, i + p.lays[s].Width());
    AfterIntro(p, t, s, e, i);
  }

  /** `a%__%b` and `a__%b` accept the same texts, and so do `a%__` and `a__%`. */
  lemma FoldBack(p: Pattern, r: nat, t: seq<Code>)
    requires p.Valid() && 0 < r < |p.lays| && p.lays[r].lits == [] && FoldedBack(p, r).Valid()
    ensures Accepts(p, t) <==> Accepts(FoldedBack(p, r), t)
  {
    hide FoldedBack, Reach, After, Accepts, Pattern.Valid, Lengthen;
    var q, s, w := FoldedBack(p, r), r - 1, p.lays[r].prefix + p.lays[r].suffix;
    FoldedBackAt(p, r);
    AcceptsSplit(p, t, s);
    AcceptsSplit(q, t, s);
    if e: nat :| Reach(p, t, s, e) && After(p, t, s, e) { FoldBackForward(p, q, r, w, t, e); }
    if e: nat :| Reach(q, t, s, e) && After(q, t, s, e) { FoldBackBackward(p, q, r, w, t, e); }
  }
}
