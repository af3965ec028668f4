/** What a compiled pattern means. A `Layout` is one `%` segment: underscores, literals, underscores.
    Literals are named by their byte offset in the pattern, exactly as the skeleton names them, and
    placed in code points, because an underscore is one code point of any width. */
module Layouts {
  import opened Utf8
  import opened LikePredicate

  datatype Lit = Lit(off: nat, codes: seq<Code>)
  {
    /** The byte offset just past the literal. */
    ghost function End(): nat { off + |Encode(codes)| }
  }

  datatype Layout = Layout(prefix: nat, lits: seq<Lit>, suffix: nat)
  {
    /** Literals are not empty and at least one underscore separates two of them. */
    ghost predicate Valid()
    {
      && (forall j :: 0 <= j < |lits| ==> lits[j].codes != [])
      && (forall j :: 0 < j < |lits| ==> lits[j - 1].End() < lits[j].off)
    }

    ghost function Gap(j: nat): nat
      requires Valid() && 0 < j < |lits|
    {
      lits[j].off - lits[j - 1].End()
    }

    /** Where literal `j` stands, in code points from the start of the segment. */
    ghost function Start(j: nat): nat
      requires Valid() && j < |lits|
    {
      if j == 0 then prefix else Start(j - 1) + |lits[j - 1].codes| + Gap(j)
    }

    ghost function Width(): nat
      requires Valid()
    {
      if lits == [] then prefix + suffix else Start(|lits| - 1) + |lits[|lits| - 1].codes| + suffix
    }
  }

  ghost predicate Occurs(l: seq<Code>, t: seq<Code>, x: nat)
  {
    x + |l| <= |t| && t[x..x + |l|] == l
  }

  /** The first `n` literals of the segment stand in the text when the segment starts at `i`. */
  ghost predicate Good(lay: Layout, t: seq<Code>, i: nat, n: nat)
    requires lay.Valid() && n <= |lay.lits|
  {
    forall j :: 0 <= j < n ==> Occurs(lay.lits[j].codes, t, i + lay.Start(j))
  }

  /** The whole segment fits at code point `i`. */
  ghost predicate Match(lay: Layout, t: seq<Code>, i: nat)
    requires lay.Valid()
  {
    i + lay.Width() <= |t| && Good(lay, t, i, |lay.lits|)
  }

  lemma {:induction false} StartOrder(lay: Layout, j: nat, k: nat)
    requires lay.Valid() && j < k < |lay.lits|
    ensures lay.Start(j) + |lay.lits[j].codes| < lay.Start(k)
  {
    hide Encode;
    if j + 1 < k { StartOrder(lay, j, k - 1); }
  }

  lemma {:induction false} OffsetOrder(lay: Layout, j: nat, k: nat)
    requires lay.Valid() && j < k < |lay.lits|
    ensures lay.lits[j].End() < lay.lits[k].off
  {
    hide Encode;
    if j + 1 < k { OffsetOrder(lay, j, k - 1); }
  }

  /** A pattern: its segments, whether the first is tied to the start of the text, and whether anything
      may follow the last. */
  datatype Pattern = Pattern(lays: seq<Layout>, anchored: bool, open: bool)
  {
    /** Offsets grow through the whole pattern, so an offset names one literal of one segment. */
    ghost predicate Valid()
    {
      && (forall s :: 0 <= s < |lays| ==> lays[s].Valid())
      && (forall r, s, j, k :: 0 <= r < s < |lays| && 0 <= j < |lays[r].lits| && 0 <= k < |lays[s].lits| ==>
            lays[r].lits[j].End() < lays[s].lits[k].off)
    }
  }

  /** Segment `s` may start at `i` when its predecessors ended at `e`. */
  ghost predicate Begin(p: Pattern, s: nat, e: nat, i: nat)
  {
    e <= i && (s == 0 && p.anchored ==> i == 0)
  }

  /** The first `s` segments can be laid out to end at `e`. */
  ghost predicate Reach(p: Pattern, t: seq<Code>, s: nat, e: nat)
    requires p.Valid() && s <= |p.lays|
  {
    if s == 0 then e == 0
    else
      var r := s - 1;
      exists d: nat, i: nat ::
        Reach(p, t, r, d) && Begin(p, r, d, i) && Match(p.lays[r], t, i) && e == i + p.lays[r].Width()
  }

  /** The segments from `s` on can be laid out after `e`, up to the end of the text. */
  ghost predicate After(p: Pattern, t: seq<Code>, s: nat, e: nat)
    requires p.Valid() && s <= |p.lays|
    decreases |p.lays| - s
  {
    if s == |p.lays| then p.open || e == |t|
    else exists i: nat ::
      Begin(p, s, e, i) && Match(p.lays[s], t, i) && After(p, t, s + 1, i + p.lays[s].Width())
  }

  ghost predicate Accepts(p: Pattern, t: seq<Code>)
    requires p.Valid()
  {
    After(p, t, 0, 0)
  }

  lemma AfterIntro(p: Pattern, t: seq<Code>, s: nat, e: nat, i: nat)
    requires p.Valid() && s < |p.lays| && Begin(p, s, e, i) && Match(p.lays[s], t, i)
    requires After(p, t, s + 1, i + p.lays[s].Width())
    ensures After(p, t, s, e)
  {
    hide Match, Layout.Width, Layout.Valid;
  }

  lemma AfterElim(p: Pattern, t: seq<Code>, s: nat, e: nat) returns (i: nat)
    requires p.Valid() && s < |p.lays| && After(p, t, s, e)
    ensures Begin(p, s, e, i) && Match(p.lays[s], t, i) && After(p, t, s + 1, i + p.lays[s].Width())
  {
    hide Match, Layout.Width, Layout.Valid;
    i :| Begin(p, s, e, i) && Match(p.lays[s], t, i) && After(p, t, s + 1, i + p.lays[s].Width());
  }

  lemma AfterEnd(p: Pattern, t: seq<Code>, e: nat)
    requires p.Valid()
    ensures After(p, t, |p.lays|, e) <==> p.open || e == |t|
  {
  }

  lemma ReachIntro(p: Pattern, t: seq<Code>, s: nat, d: nat, i: nat)
    requires p.Valid() && s < |p.lays| && Reach(p, t, s, d) && Begin(p, s, d, i) && Match(p.lays[s], t, i)
    ensures Reach(p, t, s + 1, i + p.lays[s].Width())
  {
    hide Match, Layout.Width, Layout.Valid;
  }

  lemma ReachElim(p: Pattern, t: seq<Code>, s: nat, e: nat) returns (d: nat, i: nat)
    requires p.Valid() && s < |p.lays| && Reach(p, t, s + 1, e)
    ensures Reach(p, t, s, d) && Begin(p, s, d, i) && Match(p.lays[s], t, i) && e == i + p.lays[s].Width()
  {
    hide Match, Layout.Width, Layout.Valid;
    d, i :| Reach(p, t, s, d) && Begin(p, s, d, i) && Match(p.lays[s], t, i) && e == i + p.lays[s].Width();
  }

  lemma AcceptsIntro(p: Pattern, t: seq<Code>, i: nat)
    requires p.Valid() && |p.lays| > 0 && (p.anchored ==> i == 0) && Match(p.lays[0], t, i)
    requires After(p, t, 1, i + p.lays[0].Width())
    ensures Accepts(p, t)
  {
    hide Match, Layout.Width, Layout.Valid, After;
    AfterIntro(p, t, 0, 0, i);
  }

  lemma AcceptsElim(p: Pattern, t: seq<Code>) returns (i: nat)
    requires p.Valid() && |p.lays| > 0 && Accepts(p, t)
    ensures (p.anchored ==> i == 0) && Match(p.lays[0], t, i) && After(p, t, 1, i + p.lays[0].Width())
  {
    hide Match, Layout.Width, Layout.Valid, After;
    i := AfterElim(p, t, 0, 0);
  }

  lemma SplitForward(p: Pattern, t: seq<Code>, s: nat, d: nat) returns (e: nat)
    requires p.Valid() && s < |p.lays| && Reach(p, t, s, d) && After(p, t, s, d)
    ensures Reach(p, t, s + 1, e) && After(p, t, s + 1, e)
  {
    hide Match, Begin, Layout.Width, Layout.Valid;
    var i: nat :| Begin(p, s, d, i) && Match(p.lays[s], t, i) && After(p, t, s + 1, i + p.lays[s].Width());
    e := i + p.lays[s].Width();
  }

  lemma SplitBack(p: Pattern, t: seq<Code>, s: nat, e: nat) returns (d: nat)
    requires p.Valid() && s < |p.lays| && Reach(p, t, s + 1, e) && After(p, t, s + 1, e)
    ensures Reach(p, t, s, d) && After(p, t, s, d)
  {
    hide Match, Begin, Layout.Width, Layout.Valid;
    var i: nat;
    d, i :| Reach(p, t, s, d) && Begin(p, s, d, i) && Match(p.lays[s], t, i) && e == i + p.lays[s].Width();
  }

  /** Acceptance can be split behind any segment. */
  lemma {:induction false} AcceptsSplit(p: Pattern, t: seq<Code>, s: nat)
    requires p.Valid() && s <= |p.lays|
    ensures Accepts(p, t) <==> exists e: nat :: Reach(p, t, s, e) && After(p, t, s, e)
  {
    if s == 0 {
      assert Reach(p, t, 0, 0);
    } else {
      var r := s - 1;
      AcceptsSplit(p, t, r);
      hide *;
      if d: nat :| Reach(p, t, r, d) && After(p, t, r, d) {
        var e := SplitForward(p, t, r, d);
      }
      if e: nat :| Reach(p, t, s, e) && After(p, t, s, e) {
        var d := SplitBack(p, t, r, e);
      }
    }
  }

  lemma ReachBound(p: Pattern, t: seq<Code>, s: nat, e: nat)
    requires p.Valid() && s <= |p.lays| && Reach(p, t, s, e)
    ensures e <= |t|
  {
  }

  /** Ending earlier never hurts: the next segment is not tied to where the last one ended. */
  lemma AfterMonotone(p: Pattern, t: seq<Code>, s: nat, d: nat, e: nat)
    requires p.Valid() && 0 < s <= |p.lays| && d <= e <= |t|
    requires After(p, t, s, e) && (s == |p.lays| ==> p.open)
    ensures After(p, t, s, d)
  {
    if s < |p.lays| {
      var i: nat :| Begin(p, s, e, i) && Match(p.lays[s], t, i) && After(p, t, s + 1, i + p.lays[s].Width());
      assert Begin(p, s, d, i);
    }
  }

  /** Reaching the end of segment `s` involves only the segments before it. */
  lemma {:induction false} ReachSame(p: Pattern, q: Pattern, t: seq<Code>, s: nat, e: nat)
    requires p.Valid() && q.Valid() && s <= |p.lays| && s <= |q.lays|
    requires p.lays[..s] == q.lays[..s] && p.anchored == q.anchored
    ensures Reach(p, t, s, e) ==> Reach(q, t, s, e)
  {
    hide Match, Layout.Width, Layout.Valid;
    if s > 0 && Reach(p, t, s, e) {
      var r := s - 1;
      assert p.lays[..r] == p.lays[..s][..r] && q.lays[..r] == q.lays[..s][..r];
      assert p.lays[r] == p.lays[..s][r] && q.lays[r] == q.lays[..s][r];
      var d: nat, i: nat :|
        Reach(p, t, r, d) && Begin(p, r, d, i) && Match(p.lays[r], t, i) && e == i + p.lays[r].Width();
      ReachSame(p, q, t, r, d);
      assert Begin(q, r, d, i);
    }
  }

  /** What may follow involves only the segments behind. */
  lemma {:induction false} AfterSame(p: Pattern, q: Pattern, t: seq<Code>, r: nat, s: nat, e: nat)
    requires p.Valid() && q.Valid() && 0 < r <= |p.lays| && 0 < s <= |q.lays|
    requires p.lays[r..] == q.lays[s..] && p.open == q.open
    ensures After(p, t, r, e) ==> After(q, t, s, e)
    decreases |p.lays| - r
  {
    hide Match, Layout.Width, Layout.Valid;
    assert |p.lays| - r == |q.lays| - s;
    if r < |p.lays| && After(p, t, r, e) {
      assert p.lays[r] == p.lays[r..][0] == q.lays[s];
      assert p.lays[r + 1..] == p.lays[r..][1..] && q.lays[s + 1..] == q.lays[s..][1..];
      var i: nat :| Begin(p, r, e, i) && Match(p.lays[r], t, i) && After(p, t, r + 1, i + p.lays[r].Width());
      AfterSame(p, q, t, r + 1, s + 1, i + p.lays[r].Width());
      assert Begin(q, s, e, i);
    }
  }

  // ----- a stretch of pattern and its layout -----

  /** The code points of `l` stand in the pattern at `x`, each for itself. */
  ghost predicate Stands(l: seq<Code>, q: seq<Sym>, x: nat)
  {
    x + |l| <= |q| && forall k :: 0 <= k < |l| ==> q[x + k] == Char(l[k])
  }

  /** `q` is the layout `lay` written out. */
  ghost predicate Describes(lay: Layout, q: seq<Sym>)
  {
    && lay.Valid() && |q| == lay.Width()
    && (forall j :: 0 <= j < |lay.lits| ==> Stands(lay.lits[j].codes, q, lay.Start(j)))
    && (forall x :: 0 <= x < |q| && q[x] != Underscore ==>
          exists j :: 0 <= j < |lay.lits| && lay.Start(j) <= x < lay.Start(j) + |lay.lits[j].codes|)
  }

  lemma DescribesMatch(lay: Layout, q: seq<Sym>, t: seq<Code>, i: nat)
    requires Describes(lay, q)
    ensures MatchAt(q, t, i) <==> Match(lay, t, i)
  {
    hide Encode, Layout.Width, Layout.Start, Layout.Valid, Lit.End;
    if MatchAt(q, t, i) {
      forall j | 0 <= j < |lay.lits| ensures Occurs(lay.lits[j].codes, t, i + lay.Start(j)) {
        StandsOccurs(lay.lits[j].codes, q, lay.Start(j), t, i);
      }
    }
    if Match(lay, t, i) {
      forall x | 0 <= x < |q| && q[x] != Underscore ensures q[x] == Char(t[i + x]) {
        var j :| 0 <= j < |lay.lits| && lay.Start(j) <= x < lay.Start(j) + |lay.lits[j].codes|;
        var l, b := lay.lits[j].codes, lay.Start(j);
        assert Occurs(l, t, i + b) && Stands(l, q, b);
        assert q[b + (x - b)] == Char(l[x - b]) && t[i + b..i + b + |l|][x - b] == t[i + x];
      }
    }
  }

  /** Adding underscores in front or behind, or literals behind, leaves the earlier literals in place. */
  lemma {:induction false} StartSame(a: Layout, b: Layout, j: nat)
    requires a.Valid() && b.Valid() && j < |a.lits| && j < |b.lits|
    requires a.prefix <= b.prefix && a.lits[..j + 1] == b.lits[..j + 1]
    ensures b.Start(j) == a.Start(j) + (b.prefix - a.prefix)
  {
    hide Encode;
    assert a.lits[j] == a.lits[..j + 1][j] && b.lits[j] == b.lits[..j + 1][j];
    if j > 0 {
      assert a.lits[..j] == a.lits[..j + 1][..j] && b.lits[..j] == b.lits[..j + 1][..j];
      StartSame(a, b, j - 1);
      assert a.lits[j - 1] == a.lits[..j][j - 1] && b.lits[j - 1] == b.lits[..j][j - 1];
    }
  }

  /** The layout of a segment after `g` more underscores and the literal `l`. */
  ghost function WithLiteral(lay: Layout, g: nat, l: Lit): Layout
  {
    if lay.lits == [] then Layout(g, [l], 0) else lay.(lits := lay.lits + [l])
  }

  /** What is described stays described when the block grows behind. */
  lemma DescribesGrow(lay: Layout, q: seq<Sym>, m: Layout, r: seq<Sym>)
    requires Describes(lay, q) && m.Valid() && lay.prefix == m.prefix && lay.lits <= m.lits && q <= r
    ensures forall j :: 0 <= j < |lay.lits| ==>
              m.Start(j) == lay.Start(j) && Stands(m.lits[j].codes, r, m.Start(j))
    ensures forall x :: 0 <= x < |q| && r[x] != Underscore ==>
              exists j :: 0 <= j < |m.lits| && m.Start(j) <= x < m.Start(j) + |m.lits[j].codes|
  {
    hide Encode, Layout.Valid, Layout.Width, Layout.Start;
    forall j | 0 <= j < |lay.lits|
      ensures m.Start(j) == lay.Start(j) && Stands(m.lits[j].codes, r, m.Start(j))
    {
      assert m.lits[j] == lay.lits[j] && m.lits[..j + 1] == lay.lits[..j + 1];
      StartSame(lay, m, j);
      assert Stands(lay.lits[j].codes, q, lay.Start(j));
    }
    forall x | 0 <= x < |q| && r[x] != Underscore
      ensures exists j :: 0 <= j < |m.lits| && m.Start(j) <= x < m.Start(j) + |m.lits[j].codes|
    {
      assert q[x] == r[x];
      var j :| 0 <= j < |lay.lits| && lay.Start(j) <= x < lay.Start(j) + |lay.lits[j].codes|;
      assert m.Start(j) == lay.Start(j) && m.lits[j] == lay.lits[j];
    }
  }

  lemma WithLiteralWidth(lay: Layout, g: nat, l: Lit)
    requires lay.Valid() && lay.suffix == 0 && l.codes != []
    requires if lay.lits == [] then lay.prefix == 0 else g > 0 && l.off == lay.lits[|lay.lits| - 1].End() + g
    ensures var m := WithLiteral(lay, g, l);
            && m.Valid() && m.lits == lay.lits + [l] && m.Start(|lay.lits|) == lay.Width() + g
            && m.Width() == lay.Width() + g + |l.codes|
  {
    hide Encode;
    var m := WithLiteral(lay, g, l);
    assert m.Valid() by { hide Layout.Start, Layout.Width; }
    if lay.lits != [] {
      assert m.lits[..|lay.lits|] == lay.lits[..|lay.lits|];
      StartSame(lay, m, |lay.lits| - 1);
    }
  }

  lemma DescribesLiteral(lay: Layout, q: seq<Sym>, g: nat, l: Lit, r: seq<Sym>)
    requires Describes(lay, q) && lay.suffix == 0 && l.codes != []
    requires if lay.lits == [] then lay.prefix == 0 else g > 0 && l.off == lay.lits[|lay.lits| - 1].End() + g
    requires |r| == |q| + g + |l.codes| && q <= r && Stands(l.codes, r, |q| + g)
    requires forall x :: |q| <= x < |q| + g ==> r[x] == Underscore
    ensures Describes(WithLiteral(lay, g, l), r)
  {
    hide Encode, Layout.Valid, Layout.Width, Layout.Start;
    WithLiteralWidth(lay, g, l);
    var m := WithLiteral(lay, g, l);
    var n := |lay.lits|;
    if n > 0 { DescribesGrow(lay, q, m, r); } else { assert q == [] by { EmptyDescribed(lay, q); } }
    assert forall x :: |q| <= x < |r| && r[x] != Underscore ==> m.Start(n) <= x < m.Start(n) + |m.lits[n].codes|;
  }

  lemma EmptyDescribed(lay: Layout, q: seq<Sym>)
    requires Describes(lay, q) && lay.lits == []
    ensures |q| == lay.prefix + lay.suffix
  {
    hide Encode;
  }

  lemma WithSuffixWidth(lay: Layout, g: nat)
    requires lay.Valid() && lay.suffix == 0
    ensures var m := lay.(suffix := g); m.Valid() && m.Width() == lay.Width() + g
  {
    hide Encode;
    var m := lay.(suffix := g);
    assert m.Valid() by { hide Layout.Start, Layout.Width; }
    if lay.lits != [] { StartSame(lay, m, |lay.lits| - 1); }
  }

  lemma DescribesSuffix(lay: Layout, q: seq<Sym>, g: nat, r: seq<Sym>)
    requires Describes(lay, q) && lay.suffix == 0
    requires |r| == |q| + g && q <= r && forall x :: |q| <= x < |r| ==> r[x] == Underscore
    ensures Describes(lay.(suffix := g), r)
  {
    hide Encode, Layout.Valid, Layout.Width, Layout.Start;
    WithSuffixWidth(lay, g);
    DescribesGrow(lay, q, lay.(suffix := g), r);
  }

  /** A literal of a block that matches occurs in the text. */
  lemma StandsOccurs(l: seq<Code>, q: seq<Sym>, x: nat, t: seq<Code>, i: nat)
    requires Stands(l, q, x) && MatchAt(q, t, i)
    ensures Occurs(l, t, i + x)
  {
    forall k | 0 <= k < |l| ensures t[i + x..i + x + |l|][k] == l[k] {
      assert q[x + k] == Char(l[k]);
    }
  }
}
