/** Why the matcher is right. An alignment is a code point where the current segment may start. The
    literals of an alignment are found one after the other; between two of them the alignment waits, first
    in the delay queue and then in the cache. Positions here are code points; the matcher's are bytes. */
module Alignments {
  import opened Options
  import opened Utf8
  import opened Layouts
  import opened Skeletons
  import opened LruCaches
  import opened DelayQueues
  import opened Matchers

  const TEXT_MAX := 0x8000_0000_0000_0000
  const PATTERN_MAX := 0xFFFF

  /** A compiled pattern, its meaning, the text, the pattern's index in the list, and the capacity of the cache for
      each segment: any. */
  datatype Job = Job(sk: Skeleton, pat: Pattern, t: seq<Code>, pid: nat, caps: seq<nat>)
  {
    /** Every segment has a literal; pattern offsets fit 16 bits, and no string is longer than 2^63 bytes. */
    ghost predicate Valid()
    {
      && ShowsAll(sk.segs, pat) && |pat.lays| > 0 && |caps| == |sk.segs|
      && (forall s :: 0 <= s < |pat.lays| ==> pat.lays[s].lits != [])
      && (forall s, j :: 0 <= s < |pat.lays| && 0 <= j < |pat.lays[s].lits| ==>
            pat.lays[s].lits[j].End() <= PATTERN_MAX)
      && |Encode(t)| < TEXT_MAX
    }

    ghost predicate IsLit(s: nat, j: nat)
    {
      s < |pat.lays| && pat.lays[s].Valid() && j < |pat.lays[s].lits|
    }

    ghost function Offset(s: nat, j: nat): nat
      requires IsLit(s, j)
    {
      pat.lays[s].lits[j].off
    }

    ghost function Codes(s: nat, j: nat): seq<Code>
      requires IsLit(s, j)
    {
      pat.lays[s].lits[j].codes
    }

    /** Where literal `j` starts when the segment starts at `i`. */
    ghost function From(s: nat, j: nat, i: nat): nat
      requires IsLit(s, j)
    {
      i + pat.lays[s].Start(j)
    }

    /** Where it ends. */
    ghost function To(s: nat, j: nat, i: nat): nat
      requires IsLit(s, j)
    {
      From(s, j, i) + |Codes(s, j)|
    }

    ghost function Key(x: nat, off: nat): nat
      requires x <= |t| && off <= PATTERN_MAX && Off(t, x) < TEXT_MAX
    {
      Diff(Off(t, x), off)
    }

    ghost predicate Sound(s: nat, i: nat, n: nat)
      requires s < |pat.lays| && pat.lays[s].Valid() && n <= |pat.lays[s].lits|
    {
      Good(pat.lays[s], t, i, n)
    }

    /** Literal `j` is due at `x`: an alignment that may start where it does has found the literals before. */
    ghost predicate Due(s: nat, g: nat, j: nat, x: nat)
      requires IsLit(s, j)
    {
      && pat.lays[s].Start(j) <= x && Begin(pat, s, g, x - pat.lays[s].Start(j))
      && Sound(s, x - pat.lays[s].Start(j), j)
    }

    // ----- what is stored -----

    /** `prev` and `next` are literals `j - 1` and `j` of segment `r`. */
    ghost predicate Neighbours(prev: nat, next: nat, r: nat, j: nat)
    {
      0 < j && IsLit(r, j) && IsLit(r, j - 1) && prev == Offset(r, j - 1) && next == Offset(r, j)
    }

    ghost predicate ItemOk(s: nat, g: nat, d: DelayedMatch)
    {
      exists r: nat, j: nat :: Neighbours(d.prevPatternPos, d.nextPatternPos, r, j) && r <= s
                     && (r == s ==> Due(s, g, j, d.readyCpIdx))
    }

    ghost predicate EntryAt(e: Entry, r: nat, j: nat, x: nat)
    {
      && 0 < j && IsLit(r, j) && IsLit(r, j - 1) && e.prev == Offset(r, j - 1) && Offset(r, j) <= PATTERN_MAX
      && x <= |t| && Off(t, x) < TEXT_MAX && e.key == Key(x, Offset(r, j))
    }

    ghost predicate EntryOk(s: nat, g: nat, idx: nat, e: Entry)
    {
      exists r: nat, j: nat, x: nat :: EntryAt(e, r, j, x) && x <= idx && r <= s && (r == s ==> Due(s, g, j, x))
    }

    /** Nothing stale is ever taken for an alignment: every queue item and cache entry of the current
        segment belongs to one, and the others belong to segments already left behind. */
    ghost predicate QueueSound(s: nat, g: nat, lo: nat, q: multiset<DelayedMatch>)
    {
      forall d :: d in q && d.patternId == pid ==> lo <= d.readyCpIdx && ItemOk(s, g, d)
    }

    ghost predicate EntriesSound(s: nat, g: nat, idx: nat, l: seq<Entry>)
    {
      forall e :: e in l ==> EntryOk(s, g, idx, e)
    }

    // ----- what must not be missing -----

    /** Hits up to code point `idx` have been handled, and of those that end there the ones at offsets `done`. */
    ghost predicate Done(s: nat, i: nat, j: nat, idx: nat, done: set<nat>)
      requires IsLit(s, j)
    {
      To(s, j, i) < idx || (To(s, j, i) == idx && Offset(s, j) in done)
    }

    /** Literal `j` of the alignment is yet to come, and the text has it. */
    ghost predicate Pending(s: nat, i: nat, j: nat, idx: nat, done: set<nat>)
    {
      && 0 < j && IsLit(s, j) && IsLit(s, j - 1) && Sound(s, i, j + 1)
      && Done(s, i, j - 1, idx, done) && !Done(s, i, j, idx, done)
    }

    ghost predicate EntryFor(s: nat, i: nat, j: nat, l: seq<Entry>)
      requires 0 < j && IsLit(s, j) && IsLit(s, j - 1)
    {
      && From(s, j, i) <= |t| && Offset(s, j) <= PATTERN_MAX && Off(t, From(s, j, i)) < TEXT_MAX
      && Entry(Key(From(s, j, i), Offset(s, j)), Offset(s, j - 1)) in l
    }

    ghost predicate Tracked(s: nat, i: nat, j: nat, l: seq<Entry>, q: multiset<DelayedMatch>)
      requires 0 < j && IsLit(s, j) && IsLit(s, j - 1)
    {
      DelayedMatch(pid, Offset(s, j), Offset(s, j - 1), From(s, j, i)) in q || EntryFor(s, i, j, l)
    }

    ghost predicate Complete(s: nat, g: nat, idx: nat, done: set<nat>, l: seq<Entry>, q: multiset<DelayedMatch>)
    {
      forall i: nat, j: nat :: Begin(pat, s, g, i) && Pending(s, i, j, idx, done) ==> Tracked(s, i, j, l, q)
    }

    ghost predicate CanEnd(s: nat, i: nat)
      requires s < |pat.lays| && pat.lays[s].Valid()
    {
      s + 1 < |pat.lays| || pat.open || i + pat.lays[s].Width() == |t|
    }

    /** No alignment of the current segment is through: the first one that is moves the matcher on. */
    ghost predicate NoneThrough(s: nat, g: nat, idx: nat, done: set<nat>)
      requires s < |pat.lays| && pat.lays[s].Valid() && pat.lays[s].lits != []
    {
      forall i: nat :: Begin(pat, s, g, i) && Match(pat.lays[s], t, i) && CanEnd(s, i) ==>
                         !Done(s, i, |pat.lays[s].lits| - 1, idx, done)
    }

    /** The segments before `s` have been laid out to end at `g`. */
    ghost predicate Frontier(s: nat, g: nat, minStart: nat)
      requires pat.Valid()
    {
      s < |pat.lays| && Reach(pat, t, s, g) && g <= |t| && Off(t, g) == minStart
    }

    /** ... and nowhere earlier. */
    ghost predicate Earliest(s: nat, g: nat)
      requires pat.Valid() && s < |pat.lays|
    {
      forall e: nat :: Reach(pat, t, s, e) ==> g <= e
    }

    /** The invariant of the run while the pattern is undecided. */
    ghost predicate Inv(st: MatcherState, q: multiset<DelayedMatch>, idx: nat, lo: nat, done: set<nat>, lost: bool,
                        g: nat)
    {
      && Valid() && pat.Valid() && idx <= |t|
      && Frontier(st.segmentIdx, g, st.minTextStartPos)
      && pat.lays[st.segmentIdx].Valid() && pat.lays[st.segmentIdx].lits != []
      && QueueSound(st.segmentIdx, g, lo, q)
      && EntriesSound(st.segmentIdx, g, idx, st.entries) && DistinctKeys(st.entries)
      && (!lost ==> Complete(st.segmentIdx, g, idx, done, st.entries, q) && NoneThrough(st.segmentIdx, g, idx, done)
                    && Earliest(st.segmentIdx, g))
    }

    /** Every literal that ends at `idx` has been handled. */
    ghost predicate AllDone(idx: nat, done: set<nat>)
    {
      forall s: nat, j: nat :: IsLit(s, j) && |Codes(s, j)| <= idx && Occurs(Codes(s, j), t, idx - |Codes(s, j)|) ==>
                       Offset(s, j) in done
    }

    /** The hit says that literal `j` of segment `r` ends at `idx`. */
    ghost predicate IsHit(m: MatchingOutput, r: nat, j: nat, idx: nat)
    {
      && IsLit(r, j) && m.patternId == pid && m.startPos == Offset(r, j) && m.literalLen == |Encode(Codes(r, j))|
      && |Codes(r, j)| <= idx <= |t| && Occurs(Codes(r, j), t, idx - |Codes(r, j)|)
      && m.textStartPos == Off(t, idx - |Codes(r, j)|)
    }

    /** Cache entry `e` stands for a literal that the text does have and that has not been reported yet. */
    ghost predicate LiveEntry(s: nat, idx: nat, e: Entry)
    {
      exists j: nat, x: nat :: EntryAt(e, s, j, x) && x <= idx < x + |Codes(s, j)| && Occurs(Codes(s, j), t, x)
    }
  }

  // ----- offsets and keys -----

  /** Different literals are apart by more than the length of the earlier one. */
  lemma OffsetsApart(c: Job, r: nat, k: nat, s: nat, j: nat)
    requires c.pat.Valid() && c.IsLit(r, k) && c.IsLit(s, j)
    ensures c.Offset(r, k) == c.Offset(s, j) ==> r == s && k == j
    ensures c.Offset(r, k) < c.Offset(s, j) ==> c.Offset(r, k) + |Encode(c.Codes(r, k))| < c.Offset(s, j)
    ensures r < s || (r == s && k < j) ==> c.Offset(r, k) < c.Offset(s, j)
  {
    hide Encode, Layout.Start, Layout.Width;
    if r == s {
      if k < j { OffsetOrder(c.pat.lays[s], k, j); }
      if j < k { OffsetOrder(c.pat.lays[s], j, k); }
    }
  }

  /** The bytes of a literal that the text has. */
  lemma OccursBytes(c: Job, l: seq<Code>, x: nat)
    requires Occurs(l, c.t, x)
    ensures Off(c.t, x + |l|) == Off(c.t, x) + |Encode(l)| <= |Encode(c.t)|
  {
    hide Encode;
    EncodeSlice(c.t, x, x + |l|);
  }

  lemma KeyEqual(a: nat, p: nat, b: nat, q: nat)
    requires a < TEXT_MAX && b < TEXT_MAX && p <= PATTERN_MAX && q <= PATTERN_MAX
    ensures Diff(a, p) == Diff(b, q) <==> a - p == b - q
  {
  }

  lemma OffMax(c: Job, x: nat)
    requires c.Valid() && x <= |c.t|
    ensures Off(c.t, x) < TEXT_MAX
  {
    hide Encode;
    EncodeSlice(c.t, x, |c.t|);
  }

  lemma OffsetMax(c: Job, s: nat, j: nat)
    requires c.Valid() && c.IsLit(s, j)
    ensures c.Offset(s, j) <= PATTERN_MAX && |Encode(c.Codes(s, j))| <= PATTERN_MAX
  {
    hide Encode, ShowsAll;
  }

  /** Two keys meet only for the same literal at the same place, unless one of the places is out of the
      reach of the other: this is why entries never get in each other's way. */
  lemma KeysMeet(c: Job, s: nat, j: nat, x: nat, r: nat, k: nat, y: nat)
    requires c.Valid() && c.pat.Valid() && c.IsLit(s, j) && c.IsLit(r, k) && x <= |c.t| && y <= |c.t|
    requires Occurs(c.Codes(s, j), c.t, x)
    requires c.Offset(s, j) <= PATTERN_MAX && c.Offset(r, k) <= PATTERN_MAX
    requires Off(c.t, x) < TEXT_MAX && Off(c.t, y) < TEXT_MAX
    requires c.Key(x, c.Offset(s, j)) == c.Key(y, c.Offset(r, k))
    ensures c.Offset(s, j) == c.Offset(r, k) ==> x == y && s == r && j == k
    ensures c.Offset(s, j) < c.Offset(r, k) ==> x + |c.Codes(s, j)| < y
    ensures c.Offset(r, k) < c.Offset(s, j) ==> y < x
    ensures c.Offset(r, k) < c.Offset(s, j) && Occurs(c.Codes(r, k), c.t, y) ==> y + |c.Codes(r, k)| < x
  {
    hide Encode, ShowsAll, Diff, Job.Valid, Pattern.Valid, Layout.Valid, Off, U64;
    KeyEqual(Off(c.t, x), c.Offset(s, j), Off(c.t, y), c.Offset(r, k));
    OffsetsApart(c, s, j, r, k);
    OffsetsApart(c, r, k, s, j);
    OccursBytes(c, c.Codes(s, j), x);
    OffOrder(c.t, x, y);
    OffOrder(c.t, y, x + |c.Codes(s, j)|);
    if Occurs(c.Codes(r, k), c.t, y) {
      OccursBytes(c, c.Codes(r, k), y);
      OffOrder(c.t, x, y + |c.Codes(r, k)|);
    }
  }

  // ----- the stored segment against its layout -----

  lemma SegmentFacts(c: Job, s: nat, r: nat, j: nat)
    requires c.Valid() && c.pat.Valid() && s < |c.pat.lays| && c.IsLit(r, j)
    ensures s < |c.sk.segs| && c.sk.segs[s].Valid()
    ensures c.sk.segs[s].Contain(c.Offset(r, j)) <==> r == s
    ensures r == s ==>
              var seg := c.sk.segs[s];
              && (seg.IsFirstLiteral(c.Offset(s, j)) <==> j == 0)
              && (seg.IsLastLiteral(c.Offset(s, j)) <==> j + 1 == |c.pat.lays[s].lits|)
              && (forall prev :: seg.IsPreviousLiteral(prev, c.Offset(s, j)) <==>
                    j > 0 && prev == c.pat.lays[s].lits[j - 1].off)
              && (j + 1 < |c.pat.lays[s].lits| ==>
                    seg.GetNextLiteralOffset(c.Offset(s, j)) == c.pat.lays[s].lits[j + 1].off)
              && seg.prefixUnderscoreCnt == c.pat.lays[s].prefix && seg.suffixUnderscoreCnt == c.pat.lays[s].suffix
              && seg.hasPrefixPercent == (s > 0 || !c.pat.anchored)
              && (seg.hasSuffixPercent <==> s + 1 < |c.pat.lays| || c.pat.open)
  {
    hide Encode, Layout.Start, Layout.Width, Layout.Valid, Pattern.Valid;
    ValidAt(c.pat, s);
    ShownOffset(c, s);
    if r == s {
      assert c.sk.segs[s].literalOffset[j] == c.Offset(s, j);
    } else if c.Offset(r, j) in c.sk.segs[s].litOffP {
      var k := c.sk.segs[s].litOffP[c.Offset(r, j)];
      OffsetsApart(c, r, j, s, k);
    }
  }

  lemma ShownOffset(c: Job, s: nat)
    requires c.Valid() && s < |c.pat.lays|
    ensures s < |c.sk.segs| && Shows(c.sk.segs[s], c.pat.lays[s])
    ensures c.sk.segs[s].hasPrefixPercent == (s > 0 || !c.pat.anchored)
    ensures c.sk.segs[s].hasSuffixPercent == (s + 1 < |c.sk.segs| || c.pat.open)
    ensures |c.sk.segs| == |c.pat.lays|
  {
    hide Encode, Layout.Start, Layout.Width, Layout.Valid, Pattern.Valid, Shows;
  }

  // ----- one hit: when does it fit -----

  /** A hit of a literal of another segment leaves the matcher alone. */
  lemma HitElsewhere(c: Job, st: MatcherState, m: MatchingOutput, r: nat, j: nat, idx: nat, text: seq<byte>)
    requires c.Valid() && c.pat.Valid() && c.IsHit(m, r, j, idx) && st.segmentIdx < |c.pat.lays| && r != st.segmentIdx
    requires SegsValid(c.sk) && m.textStartPos < U64 && m.startPos < U64
    ensures !Fits(c.sk, st, m, text) && Consume(c.sk, st, m) == st
  {
    hide Encode, ShowsAll, Diff, Job.Valid, Pattern.Valid, Off, Occurs, Layout.Valid;
    SegmentFacts(c, st.segmentIdx, r, j);
    IrrelevantHit(c.sk, st, m, text);
  }

  /** The first literal of the segment fits exactly when the segment may start where it would have to. */
  lemma FirstLiteralFits(c: Job, st: MatcherState, m: MatchingOutput, idx: nat, g: nat)
    requires c.Valid() && c.pat.Valid() && c.Frontier(st.segmentIdx, g, st.minTextStartPos)
    requires c.IsHit(m, st.segmentIdx, 0, idx)
    requires SegsValid(c.sk) && m.textStartPos < U64 && m.startPos < U64
    ensures var p, x := c.pat.lays[st.segmentIdx].prefix, idx - |c.Codes(st.segmentIdx, 0)|;
            && (p <= x && Begin(c.pat, st.segmentIdx, g, x - p) ==> st.minTextStartPos <= m.textStartPos)
            && (Fits(c.sk, st, m, Encode(c.t)) <==> p <= x && Begin(c.pat, st.segmentIdx, g, x - p))
  {
    hide Encode, ShowsAll, Diff, Job.Valid, Pattern.Valid, Off, Occurs, Layout.Valid, Advance, Fits;
    var s := st.segmentIdx;
    var p, x := c.pat.lays[s].prefix, idx - |c.Codes(s, 0)|;
    SegmentFacts(c, s, s, 0);
    AdvanceEncoded(c.t, g, p);
    OffOrder(c.t, g, x);
    if g + p <= |c.t| { OffOrder(c.t, g + p, x); OffOrder(c.t, x, g + p); }
    assert s == 0 ==> g == 0;
    if st.minTextStartPos <= m.textStartPos { FirstHit(c.sk, st, m, Encode(c.t)); }
    else { IrrelevantHit(c.sk, st, m, Encode(c.t)); }
  }

  /** A cache entry that fits a hit of literal `j` comes from the alignment that puts literal `j` there. */
  lemma EntryFits(c: Job, s: nat, g: nat, idx: nat, e: Entry, j: nat, x: nat)
    requires c.Valid() && c.pat.Valid() && 0 < j && c.IsLit(s, j) && c.IsLit(s, j - 1) && x <= |c.t|
    requires c.EntryOk(s, g, idx, e) && e.prev == c.Offset(s, j - 1)
    requires c.Offset(s, j) <= PATTERN_MAX && Off(c.t, x) < TEXT_MAX && e.key == c.Key(x, c.Offset(s, j))
    ensures c.Due(s, g, j, x)
  {
    hide Encode, ShowsAll, Diff, Job.Valid, Pattern.Valid, Off, Layout.Valid, Job.Due;
    var r: nat, k: nat, y: nat :| c.EntryAt(e, r, k, y) && y <= idx && r <= s && (r == s ==> c.Due(s, g, k, y));
    OffsetsApart(c, r, k - 1, s, j - 1);
    KeyEqual(Off(c.t, x), c.Offset(s, j), Off(c.t, y), c.Offset(r, k));
    OffOrder(c.t, x, y);
  }

  /** A hit of a later literal fits exactly when the cache holds its alignment. */
  lemma LaterLiteralFits(c: Job, st: MatcherState, m: MatchingOutput, j: nat, idx: nat)
    requires c.Valid() && c.pat.Valid() && c.IsHit(m, st.segmentIdx, j, idx) && 0 < j
    requires SegsValid(c.sk) && m.textStartPos < U64 && m.startPos < U64
    ensures c.IsLit(st.segmentIdx, j - 1)
    ensures Fits(c.sk, st, m, Encode(c.t)) <==>
            st.minTextStartPos <= m.textStartPos &&
            Entry(KeyOf(m), c.Offset(st.segmentIdx, j - 1)) in st.entries
    ensures Consume(c.sk, st, m) == if st.minTextStartPos <= m.textStartPos
                                    then st.(entries := Without(st.entries, KeyOf(m))) else st
  {
    hide Encode, ShowsAll, Diff, Job.Valid, Pattern.Valid, Off, Occurs, Layout.Valid, Advance, Fits, Consume;
    var s := st.segmentIdx;
    SegmentFacts(c, s, s, j);
    if st.minTextStartPos <= m.textStartPos {
      LaterHit(c.sk, st, m, Encode(c.t));
      if e :| e in st.entries && e.key == KeyOf(m) && c.sk.segs[s].IsPreviousLiteral(e.prev, m.startPos) {
        assert e == Entry(KeyOf(m), c.Offset(s, j - 1));
      }
    } else {
      IrrelevantHit(c.sk, st, m, Encode(c.t));
    }
  }

  /** An accepted hit completes what was due. */
  lemma FitsIsDue(c: Job, st: MatcherState, m: MatchingOutput, j: nat, idx: nat, g: nat)
    requires c.Valid() && c.pat.Valid() && c.Frontier(st.segmentIdx, g, st.minTextStartPos)
    requires c.EntriesSound(st.segmentIdx, g, idx, st.entries) && c.IsHit(m, st.segmentIdx, j, idx)
    requires SegsValid(c.sk) && m.textStartPos < U64 && m.startPos < U64 && Fits(c.sk, st, m, Encode(c.t))
    ensures c.Due(st.segmentIdx, g, j, idx - |c.Codes(st.segmentIdx, j)|)
  {
    hide Encode, ShowsAll, Diff, Job.Valid, Pattern.Valid, Off, Occurs, Layout.Valid, Fits, Job.Frontier, Job.EntryOk;
    var s, x := st.segmentIdx, idx - |c.Codes(st.segmentIdx, j)|;
    if j == 0 {
      FirstLiteralFits(c, st, m, idx, g);
    } else {
      LaterLiteralFits(c, st, m, j, idx);
      OffMax(c, x);
      OffsetMax(c, s, j);
      EntryFits(c, s, g, idx, Entry(KeyOf(m), c.Offset(s, j - 1)), j, x);
    }
  }

  lemma GoodMore(lay: Layout, t: seq<Code>, i: nat, j: nat)
    requires lay.Valid() && j < |lay.lits|
    ensures Good(lay, t, i, j + 1) <==> Good(lay, t, i, j) && Occurs(lay.lits[j].codes, t, i + lay.Start(j))
  {
    hide Layout.Valid, Layout.Start, Occurs;
  }

  /** A literal that is due when its hit comes is waited for. */
  lemma DueIsPending(c: Job, s: nat, g: nat, j: nat, idx: nat, done: set<nat>)
    requires c.IsLit(s, j) && 0 < j && |c.Codes(s, j)| <= idx && c.Offset(s, j) !in done
    requires Occurs(c.Codes(s, j), c.t, idx - |c.Codes(s, j)|) && c.Due(s, g, j, idx - |c.Codes(s, j)|)
    ensures var i := idx - |c.Codes(s, j)| - c.pat.lays[s].Start(j);
            i >= 0 && Begin(c.pat, s, g, i) && c.Pending(s, i, j, idx, done) && c.From(s, j, i) == idx - |c.Codes(s, j)|
  {
    hide Encode, Layout.Valid, Layout.Start, Occurs, Good, Begin;
    var lay := c.pat.lays[s];
    var i := idx - |c.Codes(s, j)| - lay.Start(j);
    GoodMore(lay, c.t, i, j);
    StartOrder(lay, j - 1, j);
    assert lay.lits[j].codes != [] by { LitNotEmpty(lay, j); }
  }

  lemma StartFirst(lay: Layout)
    requires lay.Valid() && |lay.lits| > 0
    ensures lay.Start(0) == lay.prefix
  {
  }

  lemma LitNotEmpty(lay: Layout, j: nat)
    requires lay.Valid() && j < |lay.lits|
    ensures lay.lits[j].codes != []
  {
  }

  /** A hit of a literal that is due is accepted, as long as nothing was lost. */
  /** The alignment that a due later literal belongs to is in the cache by the time of its hit. */
  lemma DueStored(c: Job, s: nat, g: nat, q: multiset<DelayedMatch>, l: seq<Entry>, j: nat, idx: nat, done: set<nat>)
    requires c.IsLit(s, j) && 0 < j && c.IsLit(s, j - 1) && c.pat.lays[s].Valid() && c.Offset(s, j) !in done
    requires |c.Codes(s, j)| <= idx && Occurs(c.Codes(s, j), c.t, idx - |c.Codes(s, j)|)
    requires c.Due(s, g, j, idx - |c.Codes(s, j)|)
    requires c.QueueSound(s, g, idx, q) && c.Complete(s, g, idx, done, l, q)
    ensures var i := idx - |c.Codes(s, j)| - c.pat.lays[s].Start(j);
            i >= 0 && g <= c.From(s, j, i) == idx - |c.Codes(s, j)| < idx && c.EntryFor(s, i, j, l)
  {
    hide Encode, Diff, Off, Occurs, Layout.Valid, Job.ItemOk, Job.Pending, Job.Due, Layout.Start, Reach;
    var x := idx - |c.Codes(s, j)|;
    DueIsPending(c, s, g, j, idx, done);
    var i := x - c.pat.lays[s].Start(j);
    assert c.Tracked(s, i, j, l, q);
    LitNotEmpty(c.pat.lays[s], j);
  }

  lemma DueFits(c: Job, st: MatcherState, q: multiset<DelayedMatch>, m: MatchingOutput, j: nat, idx: nat,
                done: set<nat>, g: nat)
    requires c.Inv(st, q, idx, idx, done, false, g) && c.IsHit(m, st.segmentIdx, j, idx) && m.startPos !in done
    requires SegsValid(c.sk) && m.textStartPos < U64 && m.startPos < U64
    requires c.Due(st.segmentIdx, g, j, idx - |c.Codes(st.segmentIdx, j)|)
    ensures Fits(c.sk, st, m, Encode(c.t))
  {
    hide Encode, ShowsAll, Diff, Job.Valid, Pattern.Valid, Off, Occurs, Layout.Valid, Fits, Job.EntriesSound,
         Job.ItemOk, Job.Pending, Job.NoneThrough, Job.Earliest, Job.Complete, Job.QueueSound, Good, Layout.Start,
         Reach;
    var s, x := st.segmentIdx, idx - |c.Codes(st.segmentIdx, j)|;
    if j == 0 {
      FirstLiteralFits(c, st, m, idx, g);
      StartFirst(c.pat.lays[s]);
    } else {
      LaterLiteralFits(c, st, m, j, idx);
      DueStored(c, s, g, q, st.entries, j, idx, done);
      OffOrder(c.t, g, x);
    }
  }

  // ----- one hit: what it leaves -----

  /** Handling the hits at one offset changes what is done for one alignment only. */
  lemma DoneGrows(c: Job, s: nat, i: nat, k: nat, idx: nat, done: set<nat>, j: nat)
    requires c.pat.Valid() && c.IsLit(s, k) && c.IsLit(s, j)
    ensures c.Done(s, i, k, idx, done) ==> c.Done(s, i, k, idx, done + {c.Offset(s, j)})
    ensures c.Done(s, i, k, idx, done + {c.Offset(s, j)}) && !c.Done(s, i, k, idx, done) ==>
              k == j && c.To(s, j, i) == idx
  {
    hide Encode, Layout.Valid, Layout.Start, Pattern.Valid;
    OffsetsApart(c, s, k, s, j);
  }

  lemma DoneElsewhere(c: Job, s: nat, i: nat, k: nat, idx: nat, done: set<nat>, r: nat, j: nat)
    requires c.pat.Valid() && c.IsLit(s, k) && c.IsLit(r, j) && r != s
    ensures c.Done(s, i, k, idx, done + {c.Offset(r, j)}) <==> c.Done(s, i, k, idx, done)
  {
    hide Encode, Layout.Valid, Layout.Start, Pattern.Valid;
    OffsetsApart(c, s, k, r, j);
  }

  /** A hit of another segment leaves the invariant as it is. */
  lemma InvElsewhere(c: Job, st: MatcherState, q: multiset<DelayedMatch>, r: nat, j: nat, idx: nat, done: set<nat>,
                     lost: bool, g: nat)
    requires c.Inv(st, q, idx, idx, done, lost, g) && c.IsLit(r, j) && r != st.segmentIdx
    ensures c.Inv(st, q, idx, idx, done + {c.Offset(r, j)}, lost, g)
  {
    hide Encode, Layout.Valid, Layout.Start, Pattern.Valid, Job.Valid, Job.Done, Job.EntriesSound, Job.QueueSound,
         Reach, Match, Begin, Job.Tracked, Job.Earliest, DistinctKeys, Job.Sound, Job.CanEnd;
    var s, more := st.segmentIdx, done + {c.Offset(r, j)};
    if !lost {
      forall i: nat, k: nat | Begin(c.pat, s, g, i) && c.Pending(s, i, k, idx, more)
        ensures c.Tracked(s, i, k, st.entries, q)
      {
        DoneElsewhere(c, s, i, k, idx, done, r, j);
        DoneElsewhere(c, s, i, k - 1, idx, done, r, j);
        assert c.Pending(s, i, k, idx, done);
      }
      var last := |c.pat.lays[s].lits| - 1;
      forall i: nat | Begin(c.pat, s, g, i) && Match(c.pat.lays[s], c.t, i) && c.CanEnd(s, i)
        ensures !c.Done(s, i, last, idx, more)
      {
        DoneElsewhere(c, s, i, last, idx, done, r, j);
      }
    }
  }

  lemma PendingEnd(c: Job, s: nat, i: nat, k: nat, idx: nat, done: set<nat>)
    requires c.Pending(s, i, k, idx, done)
    ensures 0 < k && c.IsLit(s, k) && c.IsLit(s, k - 1) && Occurs(c.Codes(s, k), c.t, c.From(s, k, i))
    ensures idx <= c.From(s, k, i) + |c.Codes(s, k)| <= |c.t|
    ensures c.From(s, k, i) + |c.Codes(s, k)| == idx ==> c.Offset(s, k) !in done
  {
    hide Encode, Layout.Valid, Layout.Start;
    GoodMore(c.pat.lays[s], c.t, i, k);
  }

  /** A literal that has not ended yet and one that ends now never share a key. */
  lemma KeysApart(c: Job, s: nat, k: nat, x: nat, j: nat, y: nat)
    requires c.Valid() && c.pat.Valid() && c.IsLit(s, k) && c.IsLit(s, j) && x <= |c.t| && y <= |c.t|
    requires c.Offset(s, j) <= PATTERN_MAX && c.Offset(s, k) <= PATTERN_MAX
    requires Off(c.t, x) < TEXT_MAX && Off(c.t, y) < TEXT_MAX
    requires Occurs(c.Codes(s, j), c.t, y) && Occurs(c.Codes(s, k), c.t, x)
    requires x <= y + |c.Codes(s, j)| <= x + |c.Codes(s, k)| && k != j
    ensures c.Key(x, c.Offset(s, k)) != c.Key(y, c.Offset(s, j))
  {
    hide Encode, Layout.Valid, Layout.Start, Pattern.Valid, Job.Valid, Diff, Off, Occurs, Job.Key;
    if c.Key(x, c.Offset(s, k)) == c.Key(y, c.Offset(s, j)) {
      KeysMeet(c, s, k, x, s, j, y);
      OffsetsApart(c, s, k, s, j);
    }
  }

  /** Using up the alignment of a hit takes no other pending alignment away: literal `k` waits at `x`,
      literal `j` at `y` ends now and has been handled. */
  lemma ConsumeKeeps(c: Job, s: nat, idx: nat, done: set<nat>, j: nat, y: nat, k: nat, x: nat, l: seq<Entry>, e: Entry)
    requires c.Valid() && c.pat.Valid() && c.IsLit(s, j) && c.IsLit(s, k) && x <= |c.t| && y <= |c.t|
    requires c.Offset(s, j) <= PATTERN_MAX && c.Offset(s, k) <= PATTERN_MAX
    requires Off(c.t, x) < TEXT_MAX && Off(c.t, y) < TEXT_MAX
    requires Occurs(c.Codes(s, j), c.t, y) && y + |c.Codes(s, j)| == idx && c.Offset(s, j) in done
    requires Occurs(c.Codes(s, k), c.t, x) && x <= idx <= x + |c.Codes(s, k)|
    requires x + |c.Codes(s, k)| == idx ==> c.Offset(s, k) !in done
    requires e in l && e.key == c.Key(x, c.Offset(s, k)) && DistinctKeys(l)
    ensures e in Without(l, c.Key(y, c.Offset(s, j)))
  {
    hide Encode, Layout.Valid, Layout.Start, Pattern.Valid, Job.Valid, Diff, Off, Occurs, Job.Key, DistinctKeys,
         Without;
    if k == j {
      SameLiteralKey(c, s, j, x, y);
    } else {
      KeysApart(c, s, k, x, j, y);
    }
    WithoutFacts(l, c.Key(y, c.Offset(s, j)));
  }

  lemma SameLiteralKey(c: Job, s: nat, j: nat, x: nat, y: nat)
    requires c.IsLit(s, j) && x <= |c.t| && y <= |c.t| && c.Offset(s, j) <= PATTERN_MAX
    requires Off(c.t, x) < TEXT_MAX && Off(c.t, y) < TEXT_MAX
    ensures c.Key(x, c.Offset(s, j)) == c.Key(y, c.Offset(s, j)) <==> x == y
  {
    hide Encode, Layout.Valid, Off, Diff;
    KeyEqual(Off(c.t, x), c.Offset(s, j), Off(c.t, y), c.Offset(s, j));
    OffOrder(c.t, x, y);
  }

  /** The next literal of the alignment is due after the underscores between the two. */
  lemma NextFrom(c: Job, s: nat, j: nat, i: nat)
    requires c.IsLit(s, j) && c.IsLit(s, j + 1)
    ensures c.From(s, j + 1, i) == c.To(s, j, i) + c.pat.lays[s].Gap(j + 1)
    ensures c.pat.lays[s].Gap(j + 1) == c.Offset(s, j + 1) - c.Offset(s, j) - |Encode(c.Codes(s, j))| > 0
  {
    hide Encode;
  }

  lemma ScheduledIs(c: Job, st: MatcherState, m: MatchingOutput, j: nat, idx: nat)
    requires c.Valid() && c.pat.Valid() && c.IsHit(m, st.segmentIdx, j, idx) && SegsValid(c.sk)
    requires st.minTextStartPos <= m.textStartPos
    ensures Relevant(c.sk, st, m)
    ensures j + 1 == |c.pat.lays[st.segmentIdx].lits| ==> Scheduled(c.sk, st, m, idx) == multiset{}
    ensures j + 1 < |c.pat.lays[st.segmentIdx].lits| ==>
              Scheduled(c.sk, st, m, idx) ==
              multiset{DelayedMatch(c.pid, c.Offset(st.segmentIdx, j + 1), c.Offset(st.segmentIdx, j),
                                    idx + c.pat.lays[st.segmentIdx].Gap(j + 1))}
  {
    hide Encode, Layout.Valid, Layout.Start, Pattern.Valid, Job.Valid, Off, Occurs, Scheduled, ShowsAll;
    var s := st.segmentIdx;
    SegmentFacts(c, s, s, j);
    ScheduledHit(c.sk, st, m, idx);
    if j + 1 < |c.pat.lays[s].lits| {
      NextFrom(c, s, j, 0);
      OffsetMax(c, s, j + 1);
    }
  }

  lemma EntryForEarly(c: Job, s: nat, g: nat, idx: nat, l: seq<Entry>, i: nat, k: nat)
    requires c.pat.Valid() && 0 < k && c.IsLit(s, k) && c.IsLit(s, k - 1)
    requires c.EntriesSound(s, g, idx, l) && c.EntryFor(s, i, k, l)
    ensures c.From(s, k, i) <= idx
  {
    hide Encode, Layout.Valid, Layout.Start, Pattern.Valid, Off, Job.Due, Diff;
    var e := Entry(c.Key(c.From(s, k, i), c.Offset(s, k)), c.Offset(s, k - 1));
    assert c.EntryOk(s, g, idx, e);
    var r: nat, n: nat, x: nat :| c.EntryAt(e, r, n, x) && x <= idx && r <= s;
    OffsetsApart(c, r, n - 1, s, k - 1);
    KeyEqual(Off(c.t, c.From(s, k, i)), c.Offset(s, k), Off(c.t, x), c.Offset(s, k));
    OffOrder(c.t, x, c.From(s, k, i));
  }

  /** An alignment whose literal `j` ends now was due there. */
  lemma SoundIsDue(c: Job, s: nat, g: nat, j: nat, i: nat, idx: nat)
    requires c.IsLit(s, j) && Begin(c.pat, s, g, i) && c.Sound(s, i, j + 1) && c.To(s, j, i) == idx
    ensures |c.Codes(s, j)| <= idx && c.Due(s, g, j, idx - |c.Codes(s, j)|)
  {
    hide Encode, Layout.Valid, Layout.Start, Begin, Occurs;
    GoodMore(c.pat.lays[s], c.t, i, j);
  }

  /** The queue after a hit of the current segment. */
  ghost function QueueAfter(c: Job, st: MatcherState, q: multiset<DelayedMatch>, m: MatchingOutput, idx: nat)
    : multiset<DelayedMatch>
    requires SegsValid(c.sk) && m.textStartPos < U64 && m.startPos < U64
  {
    if Fits(c.sk, st, m, Encode(c.t)) then q + Scheduled(c.sk, st, m, idx) else q
  }

  lemma QueueAfterHit(c: Job, st: MatcherState, q: multiset<DelayedMatch>, m: MatchingOutput, j: nat, idx: nat, g: nat)
    requires c.Valid() && c.pat.Valid() && c.Frontier(st.segmentIdx, g, st.minTextStartPos)
    requires c.EntriesSound(st.segmentIdx, g, idx, st.entries) && c.IsHit(m, st.segmentIdx, j, idx)
    requires SegsValid(c.sk) && m.textStartPos < U64 && m.startPos < U64
    requires c.QueueSound(st.segmentIdx, g, idx, q)
    ensures c.QueueSound(st.segmentIdx, g, idx, QueueAfter(c, st, q, m, idx))
  {
    hide Encode, Layout.Valid, Layout.Start, Pattern.Valid, Job.Valid, Off, Scheduled, ShowsAll, Fits, Occurs, Begin,
         Job.EntriesSound, Job.Frontier;
    var s := st.segmentIdx;
    if Fits(c.sk, st, m, Encode(c.t)) {
      FitsIsDue(c, st, m, j, idx, g);
      FitsRelevant(c, st, m);
      ScheduledIs(c, st, m, j, idx);
      if j + 1 < |c.pat.lays[s].lits| {
        var i := idx - |c.Codes(s, j)| - c.pat.lays[s].Start(j);
        NextFrom(c, s, j, i);
        GoodMore(c.pat.lays[s], c.t, i, j);
        assert c.Due(s, g, j + 1, c.From(s, j + 1, i));
        var d := DelayedMatch(c.pid, c.Offset(s, j + 1), c.Offset(s, j), idx + c.pat.lays[s].Gap(j + 1));
        assert c.Neighbours(d.prevPatternPos, d.nextPatternPos, s, j + 1);
        assert c.ItemOk(s, g, d);
      }
    }
  }

  lemma FitsRelevant(c: Job, st: MatcherState, m: MatchingOutput)
    requires SegsValid(c.sk) && m.textStartPos < U64 && m.startPos < U64 && Fits(c.sk, st, m, Encode(c.t))
    ensures Relevant(c.sk, st, m)
  {
    hide Encode;
  }

  /** Pending before and after: still tracked. */
  lemma OldStaysTracked(c: Job, st: MatcherState, q: multiset<DelayedMatch>, q1: multiset<DelayedMatch>,
                        m: MatchingOutput, j: nat, idx: nat, done: set<nat>, g: nat, i: nat, k: nat)
    requires c.Valid() && c.pat.Valid() && c.IsHit(m, st.segmentIdx, j, idx) && DistinctKeys(st.entries)
    requires SegsValid(c.sk) && m.textStartPos < U64 && m.startPos < U64 && q <= q1
    requires c.EntriesSound(st.segmentIdx, g, idx, st.entries) && m.startPos in done
    requires c.Pending(st.segmentIdx, i, k, idx, done) && c.Tracked(st.segmentIdx, i, k, st.entries, q)
    ensures c.Tracked(st.segmentIdx, i, k, Consume(c.sk, st, m).entries, q1)
  {
    hide Encode, Layout.Valid, Layout.Start, Pattern.Valid, Job.Valid, Off, Occurs, Job.EntriesSound, Diff,
         DistinctKeys, Job.Pending, Without, Job.From, ShowsAll, Segment.Valid;
    var s := st.segmentIdx;
    PendingEnd(c, s, i, k, idx, done);
    if c.EntryFor(s, i, k, st.entries) {
      EntryForEarly(c, s, g, idx, st.entries, i, k);
      OffsetMax(c, s, j);
      OffMax(c, idx - |c.Codes(s, j)|);
      ConsumeKeeps(c, s, idx, done, j, idx - |c.Codes(s, j)|, k, c.From(s, k, i), st.entries,
                   Entry(c.Key(c.From(s, k, i), c.Offset(s, k)), c.Offset(s, k - 1)));
    }
  }

  /** Pending because of this hit: just scheduled. */
  lemma NewIsTracked(c: Job, st: MatcherState, q: multiset<DelayedMatch>, m: MatchingOutput, j: nat, idx: nat,
                     done: set<nat>, g: nat, i: nat)
    requires c.Inv(st, q, idx, idx, done, false, g) && c.IsHit(m, st.segmentIdx, j, idx) && m.startPos !in done
    requires SegsValid(c.sk) && m.textStartPos < U64 && m.startPos < U64 && c.IsLit(st.segmentIdx, j + 1)
    requires Begin(c.pat, st.segmentIdx, g, i) && c.Sound(st.segmentIdx, i, j + 1) && c.To(st.segmentIdx, j, i) == idx
    ensures DelayedMatch(c.pid, c.Offset(st.segmentIdx, j + 1), c.Offset(st.segmentIdx, j),
                         c.From(st.segmentIdx, j + 1, i)) in QueueAfter(c, st, q, m, idx)
  {
    hide Encode, Layout.Valid, Layout.Start, Pattern.Valid, Job.Valid, Off, Occurs, Fits, Scheduled, Job.Due, Begin;
    var s := st.segmentIdx;
    SoundIsDue(c, s, g, j, i, idx);
    DueFits(c, st, q, m, j, idx, done, g);
    FitsRelevant(c, st, m);
    ScheduledIs(c, st, m, j, idx);
    NextFrom(c, s, j, i);
  }

  lemma EntriesAfterHit(c: Job, st: MatcherState, m: MatchingOutput, idx: nat, g: nat)
    requires m.textStartPos < U64 && m.startPos < U64
    requires c.EntriesSound(st.segmentIdx, g, idx, st.entries) && DistinctKeys(st.entries)
    ensures var n := Consume(c.sk, st, m);
            && n == st.(entries := n.entries) && DistinctKeys(n.entries)
            && c.EntriesSound(st.segmentIdx, g, idx, n.entries)
  {
    hide Encode, Without, DistinctKeys, Job.EntryOk, Diff;
    WithoutFacts(st.entries, KeyOf(m));
  }

  lemma CompleteAfterHit(c: Job, st: MatcherState, q: multiset<DelayedMatch>, m: MatchingOutput, j: nat, idx: nat,
                         done: set<nat>, g: nat, i: nat, k: nat)
    requires c.Inv(st, q, idx, idx, done, false, g) && c.IsHit(m, st.segmentIdx, j, idx) && m.startPos !in done
    requires SegsValid(c.sk) && m.textStartPos < U64 && m.startPos < U64
    requires Begin(c.pat, st.segmentIdx, g, i) && c.Pending(st.segmentIdx, i, k, idx, done + {m.startPos})
    ensures c.Tracked(st.segmentIdx, i, k, Consume(c.sk, st, m).entries, QueueAfter(c, st, q, m, idx))
  {
    hide Encode, Layout.Valid, Layout.Start, Pattern.Valid, Job.Valid, Off, Occurs, Fits, Scheduled, Begin, Consume,
         Job.Done, Job.NoneThrough, Job.Earliest, Job.Frontier, Job.QueueSound, Job.EntriesSound, DistinctKeys;
    var s := st.segmentIdx;
    DoneGrows(c, s, i, k, idx, done, j);
    DoneGrows(c, s, i, k - 1, idx, done, j);
    if c.Done(s, i, k - 1, idx, done) {
      assert c.Pending(s, i, k, idx, done);
      OldStaysTracked(c, st, q, QueueAfter(c, st, q, m, idx), m, j, idx, done + {m.startPos}, g, i, k);
    } else {
      GoodMore(c.pat.lays[s], c.t, i, k);
      NewIsTracked(c, st, q, m, j, idx, done, g, i);
    }
  }

  // ----- the end of a segment -----

  /** A hit that moves the matcher on: the last literal fits, its trailing underscores do, and it may be
      the end of the pattern if there is nothing more. */
  ghost predicate Moves(sk: Skeleton, st: MatcherState, m: MatchingOutput, text: seq<byte>)
    requires SegsValid(sk) && m.textStartPos < U64 && m.startPos < U64
  {
    && Fits(sk, st, m, text) && sk.segs[st.segmentIdx].IsLastLiteral(m.startPos)
    && SegmentTailEnd(sk, m, st.segmentIdx, text).Some?
    && ValidLastLiteral(sk, st.segmentIdx, SegmentTailEnd(sk, m, st.segmentIdx, text).value, |text|)
  }

  lemma LastWidth(lay: Layout)
    requires lay.Valid() && lay.lits != []
    ensures var n := |lay.lits| - 1; lay.Width() == lay.Start(n) + |lay.lits[n].codes| + lay.suffix
  {
  }

  /** The end the matcher computes is the end of the segment in code points. */
  lemma TailIs(c: Job, s: nat, m: MatchingOutput, idx: nat)
    requires c.Valid() && c.pat.Valid() && s < |c.pat.lays| && c.pat.lays[s].Valid() && c.pat.lays[s].lits != []
    requires c.IsHit(m, s, |c.pat.lays[s].lits| - 1, idx)
    ensures s < |c.sk.segs|
    ensures SegmentTailEnd(c.sk, m, s, Encode(c.t)) ==
            if idx + c.pat.lays[s].suffix <= |c.t| then Some(Off(c.t, idx + c.pat.lays[s].suffix)) else None
  {
    hide Encode, Layout.Valid, Layout.Start, Pattern.Valid, Job.Valid, Off, Advance, ShowsAll;
    var j := |c.pat.lays[s].lits| - 1;
    SegmentFacts(c, s, s, j);
    OccursBytes(c, c.Codes(s, j), idx - |c.Codes(s, j)|);
    AdvanceEncoded(c.t, idx, c.pat.lays[s].suffix);
  }

  /** The verdict of the last check, for the alignment whose last literal ends at `idx`. */
  lemma VerdictIs(c: Job, s: nat, i: nat, x: nat)
    requires c.Valid() && c.pat.Valid() && s < |c.pat.lays| && c.pat.lays[s].Valid()
    requires x == i + c.pat.lays[s].Width() <= |c.t|
    ensures |c.sk.segs| == |c.pat.lays|
    ensures ValidLastLiteral(c.sk, s, Off(c.t, x), |Encode(c.t)|) <==> c.CanEnd(s, i)
  {
    hide Encode, Layout.Valid, Layout.Start, Layout.Width, Pattern.Valid, Off, ShowsAll, Shows;
    ShownOffset(c, s);
    ShownOffset(c, |c.pat.lays| - 1);
    OffEnds(c.t);
    OffOrder(c.t, x, |c.t|);
  }

  /** Where the segment of a moving hit started. */
  lemma MovesIs(c: Job, st: MatcherState, m: MatchingOutput, j: nat, idx: nat, g: nat) returns (i: nat)
    requires c.Valid() && c.pat.Valid() && c.Frontier(st.segmentIdx, g, st.minTextStartPos)
    requires c.EntriesSound(st.segmentIdx, g, idx, st.entries) && c.IsHit(m, st.segmentIdx, j, idx)
    requires SegsValid(c.sk) && m.textStartPos < U64 && m.startPos < U64 && Moves(c.sk, st, m, Encode(c.t))
    ensures var s := st.segmentIdx;
            && j + 1 == |c.pat.lays[s].lits| && Begin(c.pat, s, g, i) && Match(c.pat.lays[s], c.t, i) && c.CanEnd(s, i)
            && c.To(s, j, i) == idx && i + c.pat.lays[s].Width() == idx + c.pat.lays[s].suffix
            && SegmentTailEnd(c.sk, m, s, Encode(c.t)) == Some(Off(c.t, i + c.pat.lays[s].Width()))
  {
    hide Encode, Layout.Valid, Layout.Start, Layout.Width, Pattern.Valid, Job.Valid, Off, Fits, Occurs, Begin,
         Job.EntriesSound, Job.Frontier, ShowsAll, Segment.Valid, SegmentTailEnd, ValidLastLiteral, Job.CanEnd;
    var s := st.segmentIdx;
    FrontierAt(c, s, g, st.minTextStartPos);
    SegmentFacts(c, s, s, j);
    FitsIsDue(c, st, m, j, idx, g);
    i := idx - |c.Codes(s, j)| - c.pat.lays[s].Start(j);
    GoodMore(c.pat.lays[s], c.t, i, j);
    LastWidth(c.pat.lays[s]);
    TailIs(c, s, m, idx);
    VerdictIs(c, s, i, idx + c.pat.lays[s].suffix);
  }

  lemma FrontierAt(c: Job, s: nat, g: nat, minStart: nat)
    requires c.pat.Valid() && c.Frontier(s, g, minStart)
    ensures s < |c.pat.lays| && g <= |c.t|
  {
  }

  /** Conversely, the first alignment that is through moves the matcher, unless something was lost. */
  lemma ThroughMoves(c: Job, st: MatcherState, q: multiset<DelayedMatch>, m: MatchingOutput, j: nat, idx: nat,
                     done: set<nat>, g: nat, i: nat)
    requires c.Inv(st, q, idx, idx, done, false, g) && c.IsHit(m, st.segmentIdx, j, idx) && m.startPos !in done
    requires SegsValid(c.sk) && m.textStartPos < U64 && m.startPos < U64
    requires j + 1 == |c.pat.lays[st.segmentIdx].lits| && c.To(st.segmentIdx, j, i) == idx
    requires Begin(c.pat, st.segmentIdx, g, i) && Match(c.pat.lays[st.segmentIdx], c.t, i) && c.CanEnd(st.segmentIdx, i)
    ensures Moves(c.sk, st, m, Encode(c.t))
  {
    hide Encode, Layout.Valid, Layout.Start, Layout.Width, Pattern.Valid, Job.Valid, Off, Fits, Begin, Good,
         Job.EntriesSound, Job.QueueSound, Job.Complete, Job.NoneThrough, Job.Earliest, Reach, ShowsAll, Segment.Valid,
         SegmentTailEnd, ValidLastLiteral, Job.CanEnd, Occurs, DistinctKeys;
    var s := st.segmentIdx;
    SegmentFacts(c, s, s, j);
    SoundIsDue(c, s, g, j, i, idx);
    DueFits(c, st, q, m, j, idx, done, g);
    LastWidth(c.pat.lays[s]);
    TailIs(c, s, m, idx);
    VerdictIs(c, s, i, idx + c.pat.lays[s].suffix);
  }

  /** A hit of the current segment that does not move the matcher keeps the invariant. */
  lemma HitStays(c: Job, st: MatcherState, q: multiset<DelayedMatch>, m: MatchingOutput, j: nat, idx: nat,
                 done: set<nat>, lost: bool, g: nat)
    requires c.Inv(st, q, idx, idx, done, lost, g) && c.IsHit(m, st.segmentIdx, j, idx) && m.startPos !in done
    requires SegsValid(c.sk) && m.textStartPos < U64 && m.startPos < U64 && !Moves(c.sk, st, m, Encode(c.t))
    ensures c.Inv(Consume(c.sk, st, m), QueueAfter(c, st, q, m, idx), idx, idx, done + {m.startPos}, lost, g)
  {
    hide Encode, Layout.Valid, Layout.Start, Layout.Width, Pattern.Valid, Job.Valid, Off, Fits, Begin, Job.Done,
         Job.EntriesSound, Job.QueueSound, Reach, Moves, Consume, QueueAfter, DistinctKeys, Job.Earliest, Job.Sound,
         Job.Tracked, Match, Job.CanEnd, Occurs;
    var s, more := st.segmentIdx, done + {m.startPos};
    QueueAfterHit(c, st, q, m, j, idx, g);
    EntriesAfterHit(c, st, m, idx, g);
    if !lost {
      forall i: nat, k: nat | Begin(c.pat, s, g, i) && c.Pending(s, i, k, idx, more)
        ensures c.Tracked(s, i, k, Consume(c.sk, st, m).entries, QueueAfter(c, st, q, m, idx))
      {
        CompleteAfterHit(c, st, q, m, j, idx, done, g, i, k);
      }
      var last := |c.pat.lays[s].lits| - 1;
      forall i: nat | Begin(c.pat, s, g, i) && Match(c.pat.lays[s], c.t, i) && c.CanEnd(s, i)
        ensures !c.Done(s, i, last, idx, more)
      {
        DoneGrows(c, s, i, last, idx, done, j);
        if c.Done(s, i, last, idx, more) {
          ThroughMoves(c, st, q, m, j, idx, done, g, i);
        }
      }
    }
  }

  /** The alignments of a segment that starts behind `idx` have nothing found yet. */
  lemma FreshSegment(c: Job, s: nat, g: nat, idx: nat, done: set<nat>, cap: nat, q: multiset<DelayedMatch>)
    requires s < |c.pat.lays| && c.pat.lays[s].Valid() && c.pat.lays[s].lits != [] && idx <= g
    ensures c.Complete(s, g, idx, done, [], q) && c.NoneThrough(s, g, idx, done)
  {
    hide Encode, Layout.Valid, Layout.Start, Layout.Width, Job.Sound, Match, Job.CanEnd;
    forall i: nat, k: nat | Begin(c.pat, s, g, i) && c.IsLit(s, k) ensures !c.Done(s, i, k, idx, done) {
      LitNotEmpty(c.pat.lays[s], k);
    }
  }

  /** What the queue holds belongs to segments left behind. */
  lemma QueueLeftBehind(c: Job, s: nat, g: nat, h: nat, lo: nat, q: multiset<DelayedMatch>)
    requires c.QueueSound(s, g, lo, q)
    ensures c.QueueSound(s + 1, h, lo, q)
  {
    hide Encode, Job.Due, Job.Neighbours;
    forall d | d in q && d.patternId == c.pid ensures c.ItemOk(s + 1, h, d) {
      var r: nat, j: nat :| c.Neighbours(d.prevPatternPos, d.nextPatternPos, r, j) && r <= s;
      assert r <= s + 1 && r != s + 1;
    }
  }

  /** The first alignment to be through ends first. */
  lemma FirstThroughIsEarliest(c: Job, s: nat, g: nat, idx: nat, done: set<nat>, i: nat, j: nat)
    requires c.Valid() && c.pat.Valid() && s + 1 < |c.pat.lays| && c.pat.lays[s].Valid() && c.pat.lays[s].lits != []
    requires c.Earliest(s, g) && c.NoneThrough(s, g, idx, done)
    requires j + 1 == |c.pat.lays[s].lits| && c.To(s, j, i) == idx
    ensures c.Earliest(s + 1, i + c.pat.lays[s].Width())
  {
    hide Encode, Layout.Valid, Layout.Start, Layout.Width, Pattern.Valid, Job.Valid, Reach, Match;
    var r := s + 1;
    forall e: nat | Reach(c.pat, c.t, r, e) ensures i + c.pat.lays[s].Width() <= e {
      var d, k := ReachElim(c.pat, c.t, s, e);
      assert Begin(c.pat, s, g, k);
      assert !c.Done(s, k, j, idx, done);
    }
  }

  lemma InvParts(c: Job, st: MatcherState, q: multiset<DelayedMatch>, idx: nat, lo: nat, done: set<nat>, lost: bool,
                 g: nat)
    requires c.Inv(st, q, idx, lo, done, lost, g)
    ensures c.Valid() && c.pat.Valid() && c.Frontier(st.segmentIdx, g, st.minTextStartPos) && idx <= |c.t|
    ensures c.EntriesSound(st.segmentIdx, g, idx, st.entries) && c.QueueSound(st.segmentIdx, g, lo, q)
    ensures DistinctKeys(st.entries)
    ensures st.segmentIdx < |c.pat.lays| && Reach(c.pat, c.t, st.segmentIdx, g)
    ensures c.pat.lays[st.segmentIdx].Valid() && c.pat.lays[st.segmentIdx].lits != []
    ensures !lost ==> c.NoneThrough(st.segmentIdx, g, idx, done) && c.Earliest(st.segmentIdx, g)
  {
    hide Encode, Pattern.Valid, Job.Valid, Reach, Job.EntriesSound, Job.QueueSound, Job.NoneThrough, Job.Earliest,
         Job.Complete, Layout.Valid, DistinctKeys;
  }

  /** A hit that moves the matcher to another segment. */
  lemma HitAdvances(c: Job, st: MatcherState, q: multiset<DelayedMatch>, m: MatchingOutput, j: nat, idx: nat,
                    done: set<nat>, lost: bool, g: nat) returns (h: nat)
    requires c.Inv(st, q, idx, idx, done, lost, g) && c.IsHit(m, st.segmentIdx, j, idx) && m.startPos !in done
    requires SegsValid(c.sk) && m.textStartPos < U64 && m.startPos < U64 && Moves(c.sk, st, m, Encode(c.t))
    requires st.segmentIdx + 1 < |c.sk.segs|
    ensures SegmentTailEnd(c.sk, m, st.segmentIdx, Encode(c.t)).Some?
    ensures c.Inv(NextSegment(c.sk, c.caps, Consume(c.sk, st, m),
                              SegmentTailEnd(c.sk, m, st.segmentIdx, Encode(c.t)).value),
                  QueueAfter(c, st, q, m, idx), idx, idx, done + {m.startPos}, lost, h)
  {
    hide Encode, Layout.Valid, Layout.Start, Layout.Width, Pattern.Valid, Job.Valid, Off, Fits, Reach, Moves, Match,
         Job.EntriesSound, Job.QueueSound, Job.NoneThrough, Job.Earliest, Job.Complete, QueueAfter, Job.CanEnd, Occurs,
         SegmentTailEnd, CapAt, Job.Inv;
    InvParts(c, st, q, idx, idx, done, lost, g);
    var s := st.segmentIdx;
    var i := MovesIs(c, st, m, j, idx, g);
    h := i + c.pat.lays[s].Width();
    MatchRoom(c.pat.lays[s], c.t, i);
    ReachIntro(c.pat, c.t, s, g, i);
    QueueAfterHit(c, st, q, m, j, idx, g);
    QueueLeftBehind(c, s, g, h, idx, QueueAfter(c, st, q, m, idx));
    if !lost && s + 1 < |c.pat.lays| { FirstThroughIsEarliest(c, s, g, idx, done, i, j); }
    SegmentsCount(c);
    NextInv(c, s + 1, h, idx, done + {m.startPos}, CapAt(c.caps, s + 1), QueueAfter(c, st, q, m, idx),
            lost);
  }

  lemma SegmentsCount(c: Job)
    requires c.Valid()
    ensures |c.sk.segs| == |c.pat.lays| > 0 && forall s :: 0 <= s < |c.pat.lays| ==> c.pat.lays[s].lits != []
  {
    hide Encode, Shows, Pattern.Valid;
  }

  lemma NextInv(c: Job, s: nat, h: nat, idx: nat, done: set<nat>, cap: nat, q: multiset<DelayedMatch>, lost: bool)
    requires c.Valid() && c.pat.Valid() && s < |c.pat.lays| && Reach(c.pat, c.t, s, h) && idx <= h <= |c.t|
    requires c.QueueSound(s, h, idx, q) && (!lost ==> c.Earliest(s, h))
    ensures c.Inv(MatcherState(s, Off(c.t, h), [], cap), q, idx, idx, done, lost, h)
  {
    hide Encode, Layout.Valid, Layout.Start, Layout.Width, Pattern.Valid, Job.Valid, Off, Reach, Job.QueueSound,
         Job.NoneThrough, Job.Earliest, Job.Complete;
    ValidAt(c.pat, s);
    SegmentsCount(c);
    FreshSegment(c, s, h, idx, done, cap, q);
  }

  /** A hit that completes the last segment certifies that the text matches. */
  lemma HitCompletes(c: Job, st: MatcherState, m: MatchingOutput, j: nat, idx: nat, g: nat)
    requires c.Valid() && c.pat.Valid() && c.Frontier(st.segmentIdx, g, st.minTextStartPos)
    requires c.EntriesSound(st.segmentIdx, g, idx, st.entries) && c.IsHit(m, st.segmentIdx, j, idx)
    requires SegsValid(c.sk) && m.textStartPos < U64 && m.startPos < U64 && Moves(c.sk, st, m, Encode(c.t))
    requires st.segmentIdx + 1 == |c.pat.lays|
    ensures Accepts(c.pat, c.t)
  {
    hide Encode, Layout.Valid, Layout.Start, Layout.Width, Pattern.Valid, Job.Valid, Off, Fits, Reach, Moves, Match,
         Job.EntriesSound, Occurs, SegmentTailEnd, Accepts, After;
    var s := st.segmentIdx;
    ValidAt(c.pat, s);
    var i := MovesIs(c, st, m, j, idx, g);
    ReachIntro(c.pat, c.t, s, g, i);
    AfterEnd(c.pat, c.t, i + c.pat.lays[s].Width());
    AcceptsSplit(c.pat, c.t, s + 1);
  }

  // ----- the delayed literals of one code point -----

  /** What storing the alignment of `d` evicts. */
  ghost function Evicted(l: seq<Entry>, e: Entry, cap: nat): seq<Entry>
  {
    var m := [e] + Without(l, e.key);
    if |m| > cap then [m[|m| - 1]] else []
  }

  lemma PushKey(w: seq<Entry>, e: Entry)
    requires DistinctKeys(w) && !HasKey(w, e.key)
    ensures DistinctKeys([e] + w) && forall x :: x in [e] + w <==> x == e || x in w
  {
  }

  lemma DropLast(m: seq<Entry>)
    requires DistinctKeys(m) && m != []
    ensures DistinctKeys(m[..|m| - 1])
    ensures forall x :: x in m[..|m| - 1] ==> x in m
    ensures forall x :: x in m ==> x in m[..|m| - 1] || x == m[|m| - 1]
  {
    assert m == m[..|m| - 1] + [m[|m| - 1]];
  }

  lemma UpsertedFacts(l: seq<Entry>, e: Entry, cap: nat)
    requires DistinctKeys(l)
    ensures DistinctKeys(Upserted(l, e, cap)) && (e in Upserted(l, e, cap) || e in Evicted(l, e, cap))
    ensures forall x :: x in Upserted(l, e, cap) ==> x == e || x in l
    ensures forall x :: x in l && x.key != e.key ==> x in Upserted(l, e, cap) || x in Evicted(l, e, cap)
    ensures forall x :: x in Evicted(l, e, cap) ==> x == e || (x in l && x.key != e.key)
  {
    hide Without, DistinctKeys, HasKey;
    WithoutFacts(l, e.key);
    var w := Without(l, e.key);
    var m := [e] + w;
    PushKey(w, e);
    DropLast(m);
    assert m[0] == e && (|w| > 0 ==> m[|m| - 1] == w[|w| - 1] && w[|w| - 1] in w);
    assert |m| > 1 ==> m[..|m| - 1][0] == e;
  }

  /** The entry that a due item becomes. */
  lemma ItemEntry(c: Job, s: nat, g: nat, d: DelayedMatch, idx: nat) returns (e: Entry)
    requires c.Valid() && c.ItemOk(s, g, d) && d.readyCpIdx == idx <= |c.t|
    ensures d.nextPatternPos <= PATTERN_MAX && Off(c.t, idx) < TEXT_MAX
    ensures e == Entry(Diff(Off(c.t, idx), d.nextPatternPos), d.prevPatternPos) && c.EntryOk(s, g, idx, e)
  {
    hide Encode, Layout.Valid, Layout.Start, Job.Valid, Off, Job.Due, Diff;
    var r: nat, j: nat :| c.Neighbours(d.prevPatternPos, d.nextPatternPos, r, j) && r <= s
                          && (r == s ==> c.Due(s, g, j, d.readyCpIdx));
    OffsetMax(c, r, j);
    OffMax(c, idx);
    e := Entry(Diff(Off(c.t, idx), d.nextPatternPos), d.prevPatternPos);
    assert c.EntryAt(e, r, j, idx);
  }

  /** A new entry overwrites no waiting alignment but itself. */
  lemma NewKeyApart(c: Job, s: nat, k: nat, x: nat, idx: nat, r: nat, j: nat)
    requires c.Valid() && c.pat.Valid() && 0 < k && c.IsLit(s, k) && c.IsLit(s, k - 1) && x <= idx <= |c.t|
    requires 0 < j && c.IsLit(r, j) && c.IsLit(r, j - 1) && r <= s
    requires Occurs(c.Codes(s, k), c.t, x) && idx <= x + |c.Codes(s, k)|
    requires c.Offset(s, k) <= PATTERN_MAX && c.Offset(r, j) <= PATTERN_MAX
    requires Off(c.t, x) < TEXT_MAX && Off(c.t, idx) < TEXT_MAX
    requires c.Key(x, c.Offset(s, k)) == c.Key(idx, c.Offset(r, j))
    ensures r == s && j == k && x == idx
  {
    hide Encode, Layout.Valid, Layout.Start, Pattern.Valid, Job.Valid, Diff, Off, Occurs, Job.Key;
    KeysMeet(c, s, k, x, r, j, idx);
  }

  /** Waiting in the cache before: waiting in the cache after, or a live entry was evicted. */
  lemma StoredKeeps(c: Job, st: MatcherState, g: nat, d: DelayedMatch, idx: nat, done: set<nat>, i: nat, k: nat,
                    e: Entry)
    requires c.Valid() && c.pat.Valid() && c.EntriesSound(st.segmentIdx, g, idx, st.entries) && DistinctKeys(st.entries)
    requires c.ItemOk(st.segmentIdx, g, d) && d.readyCpIdx == idx <= |c.t| && c.AllDone(idx, done)
    requires d.nextPatternPos <= PATTERN_MAX && Off(c.t, idx) < TEXT_MAX
    requires e == Entry(Diff(Off(c.t, idx), d.nextPatternPos), d.prevPatternPos)
    requires c.Pending(st.segmentIdx, i, k, idx, done) && c.EntryFor(st.segmentIdx, i, k, st.entries)
    ensures c.EntryFor(st.segmentIdx, i, k, Upserted(st.entries, e, st.cap)) ||
            exists x :: x in Evicted(st.entries, e, st.cap) && c.LiveEntry(st.segmentIdx, idx, x)
  {
    hide Encode, Layout.Valid, Layout.Start, Pattern.Valid, Job.Valid, Off, Occurs, Job.EntriesSound, Diff,
         DistinctKeys, Job.Pending, Job.Due, Upserted, Evicted, Job.Key, Job.From, Job.AllDone;
    var s := st.segmentIdx;
    PendingEnd(c, s, i, k, idx, done);
    EntryForEarly(c, s, g, idx, st.entries, i, k);
    PendingAhead(c, s, i, k, idx, done);
    UpsertedFacts(st.entries, e, st.cap);
    var x := c.From(s, k, i);
    var w := Entry(c.Key(x, c.Offset(s, k)), c.Offset(s, k - 1));
    if w.key == e.key {
      KeyHere(c, idx, d.nextPatternPos);
      var r: nat, j: nat :| c.Neighbours(d.prevPatternPos, d.nextPatternPos, r, j) && r <= s;
      NewKeyApart(c, s, k, x, idx, r, j);
    } else if w in Evicted(st.entries, e, st.cap) {
      assert c.EntryAt(w, s, k, x);
    }
  }

  lemma KeyHere(c: Job, x: nat, off: nat)
    requires x <= |c.t| && off <= PATTERN_MAX && Off(c.t, x) < TEXT_MAX
    ensures c.Key(x, off) == Diff(Off(c.t, x), off)
  {
  }

  /** With all hits at `idx` handled, what is pending ends later. */
  lemma PendingAhead(c: Job, s: nat, i: nat, k: nat, idx: nat, done: set<nat>)
    requires c.Pending(s, i, k, idx, done) && c.AllDone(idx, done)
    ensures c.IsLit(s, k) && idx < c.From(s, k, i) + |c.Codes(s, k)|
  {
    hide Encode, Layout.Valid, Layout.Start, Occurs;
    PendingEnd(c, s, i, k, idx, done);
  }

  lemma QueueSmaller(c: Job, s: nat, g: nat, lo: nat, q: multiset<DelayedMatch>, p: multiset<DelayedMatch>)
    requires c.QueueSound(s, g, lo, q) && p <= q
    ensures c.QueueSound(s, g, lo, p)
  {
    hide Job.ItemOk;
  }

  lemma EntriesAfterStore(c: Job, s: nat, g: nat, idx: nat, l: seq<Entry>, e: Entry, cap: nat)
    requires c.EntriesSound(s, g, idx, l) && c.EntryOk(s, g, idx, e) && DistinctKeys(l)
    ensures c.EntriesSound(s, g, idx, Upserted(l, e, cap)) && DistinctKeys(Upserted(l, e, cap))
  {
    hide Job.EntryOk, Upserted, DistinctKeys, Evicted;
    UpsertedFacts(l, e, cap);
  }

  /** Storing the alignment of a due item keeps the invariant, unless it evicts a live one. */
  lemma StoreKeeps(c: Job, st: MatcherState, q: multiset<DelayedMatch>, d: DelayedMatch, idx: nat, done: set<nat>,
                   lost: bool, g: nat, e: Entry)
    requires c.Inv(st, q, idx, idx, done, lost, g) && c.AllDone(idx, done)
    requires d in q && d.patternId == c.pid && d.readyCpIdx <= idx
    requires d.nextPatternPos <= PATTERN_MAX && Off(c.t, idx) < TEXT_MAX
    requires e == Entry(Diff(Off(c.t, idx), d.nextPatternPos), d.prevPatternPos)
    ensures c.Inv(st.(entries := Upserted(st.entries, e, st.cap)), q - multiset{d}, idx, idx, done,
                  lost || exists x :: x in Evicted(st.entries, e, st.cap) && c.LiveEntry(st.segmentIdx, idx, x), g)
  {
    hide Encode, Layout.Valid, Layout.Start, Layout.Width, Pattern.Valid, Job.Valid, Off, Begin, Job.EntriesSound,
         Reach, DistinctKeys, Job.Earliest, Job.Sound, Job.Done, Job.NoneThrough, Upserted, Evicted, Job.LiveEntry,
         Job.ItemOk, Job.EntryOk, Diff, Job.AllDone, Job.Key, Job.From;
    var s := st.segmentIdx;
    var f := ItemEntry(c, s, g, d, idx);
    EntriesAfterStore(c, s, g, idx, st.entries, e, st.cap);
    QueueSmaller(c, s, g, idx, q, q - multiset{d});
    var l := Upserted(st.entries, e, st.cap);
    if !lost && !(exists x :: x in Evicted(st.entries, e, st.cap) && c.LiveEntry(s, idx, x)) {
      forall i: nat, k: nat | Begin(c.pat, s, g, i) && c.Pending(s, i, k, idx, done)
        ensures c.Tracked(s, i, k, l, q - multiset{d})
      {
        StoreTracks(c, st, q, d, idx, done, g, i, k, e);
      }
    }
  }

  /** What is due and pending has become a live entry. */
  lemma DueIsLive(c: Job, s: nat, i: nat, k: nat, idx: nat, done: set<nat>, e: Entry)
    requires c.Valid() && c.pat.Valid() && c.Pending(s, i, k, idx, done) && c.From(s, k, i) == idx <= |c.t|
    requires c.Offset(s, k) <= PATTERN_MAX && Off(c.t, idx) < TEXT_MAX
    requires e == Entry(Diff(Off(c.t, idx), c.Offset(s, k)), c.Offset(s, k - 1))
    ensures c.LiveEntry(s, idx, e)
  {
    hide Encode, Layout.Start, Pattern.Valid, Job.Valid, Off, Diff, Job.Done;
    assert c.Sound(s, i, k + 1) && Occurs(c.Codes(s, k), c.t, i + c.pat.lays[s].Start(k));
    assert c.Codes(s, k) != [];
    KeyHere(c, idx, c.Offset(s, k));
    assert c.EntryAt(e, s, k, idx);
  }

  lemma StoreTracks(c: Job, st: MatcherState, q: multiset<DelayedMatch>, d: DelayedMatch, idx: nat, done: set<nat>,
                    g: nat, i: nat, k: nat, e: Entry)
    requires c.Valid() && c.pat.Valid() && c.EntriesSound(st.segmentIdx, g, idx, st.entries) && DistinctKeys(st.entries)
    requires c.ItemOk(st.segmentIdx, g, d) && d.readyCpIdx == idx <= |c.t| && c.AllDone(idx, done)
    requires d.nextPatternPos <= PATTERN_MAX && Off(c.t, idx) < TEXT_MAX && d.patternId == c.pid
    requires e == Entry(Diff(Off(c.t, idx), d.nextPatternPos), d.prevPatternPos)
    requires c.Pending(st.segmentIdx, i, k, idx, done) && c.Tracked(st.segmentIdx, i, k, st.entries, q)
    requires !exists x :: x in Evicted(st.entries, e, st.cap) && c.LiveEntry(st.segmentIdx, idx, x)
    ensures c.Tracked(st.segmentIdx, i, k, Upserted(st.entries, e, st.cap), q - multiset{d})
  {
    hide Encode, Layout.Valid, Layout.Start, Pattern.Valid, Job.Valid, Off, Job.EntriesSound, DistinctKeys, Job.Sound,
         Job.Done, Upserted, Evicted, Job.LiveEntry, Job.ItemOk, Diff, Job.AllDone;
    var s := st.segmentIdx;
    if DelayedMatch(c.pid, c.Offset(s, k), c.Offset(s, k - 1), c.From(s, k, i)) == d {
      UpsertedFacts(st.entries, e, st.cap);
      DueIsLive(c, s, i, k, idx, done, e);
    } else if c.EntryFor(s, i, k, st.entries) {
      StoredKeeps(c, st, g, d, idx, done, i, k, e);
    }
  }

  /** Items of other patterns do not matter. */
  lemma OtherItem(c: Job, st: MatcherState, q: multiset<DelayedMatch>, p: multiset<DelayedMatch>, idx: nat, lo: nat,
                  done: set<nat>, lost: bool, g: nat)
    requires c.Inv(st, q, idx, lo, done, lost, g)
    requires forall d: DelayedMatch :: d.patternId == c.pid ==> (d in p <==> d in q)
    ensures c.Inv(st, p, idx, lo, done, lost, g)
  {
    hide Encode, Layout.Valid, Layout.Start, Layout.Width, Pattern.Valid, Job.Valid, Off, Begin, Job.EntriesSound,
         Reach, DistinctKeys, Job.Earliest, Job.Pending, Job.NoneThrough, Job.ItemOk, Job.EntryFor;
    var s := st.segmentIdx;
    if !lost {
      forall i: nat, k: nat | Begin(c.pat, s, g, i) && c.Pending(s, i, k, idx, done)
        ensures 0 < k && c.IsLit(s, k) && c.IsLit(s, k - 1) && c.Tracked(s, i, k, st.entries, p)
      {
        PendingEnd(c, s, i, k, idx, done);
        assert c.Tracked(s, i, k, st.entries, q);
      }
    }
  }

  // ----- from one code point to the next, and the two ends of the run -----

  /** With nothing ready any more, the next code point may come. */
  lemma NextCodePoint(c: Job, st: MatcherState, q: multiset<DelayedMatch>, idx: nat, done: set<nat>, lost: bool, g: nat)
    requires c.Inv(st, q, idx, idx, done, lost, g) && c.AllDone(idx, done) && idx < |c.t|
    requires forall d :: d in q && d.patternId == c.pid ==> d.readyCpIdx > idx
    ensures c.Inv(st, q, idx + 1, idx + 1, {}, lost, g)
  {
    hide Encode, Layout.Valid, Layout.Start, Layout.Width, Pattern.Valid, Job.Valid, Off, Begin, Reach, DistinctKeys,
         Job.Earliest, Job.ItemOk, Job.Tracked, Job.CanEnd, Job.AllDone, Match, Job.Due, Job.EntryAt, Job.Sound;
    var s := st.segmentIdx;
    assert c.QueueSound(s, g, idx + 1, q);
    assert c.EntriesSound(s, g, idx + 1, st.entries);
    if !lost {
      forall i: nat, k: nat | Begin(c.pat, s, g, i) && c.Pending(s, i, k, idx + 1, {})
        ensures c.Pending(s, i, k, idx, done)
      {
        DoneAtEnd(c, s, i, k, idx, done);
      }
      var last := |c.pat.lays[s].lits| - 1;
      forall i: nat | Begin(c.pat, s, g, i) && Match(c.pat.lays[s], c.t, i) && c.CanEnd(s, i)
        ensures !c.Done(s, i, last, idx + 1, {})
      {
        MatchIsSound(c, s, i);
        DoneWhenSound(c, s, i, last, idx, done);
      }
    }
  }

  /** What has ended by `idx` and is in the text has been handled. */
  lemma DoneWhenSound(c: Job, s: nat, i: nat, j: nat, idx: nat, done: set<nat>)
    requires c.IsLit(s, j) && c.Sound(s, i, j + 1) && c.AllDone(idx, done)
    ensures c.Done(s, i, j, idx, done) <==> c.To(s, j, i) <= idx
    ensures c.Done(s, i, j, idx, done) <==> c.Done(s, i, j, idx + 1, {})
  {
    hide Encode, Layout.Valid, Layout.Start, Occurs;
    GoodMore(c.pat.lays[s], c.t, i, j);
  }

  lemma DoneAtEnd(c: Job, s: nat, i: nat, k: nat, idx: nat, done: set<nat>)
    requires c.Pending(s, i, k, idx + 1, {}) && c.AllDone(idx, done)
    ensures c.Pending(s, i, k, idx, done)
  {
    hide Encode, Layout.Valid, Layout.Start, Occurs, Job.AllDone, Job.Done;
    DoneWhenSound(c, s, i, k, idx, done);
    GoodMore(c.pat.lays[s], c.t, i, k);
    DoneWhenSound(c, s, i, k - 1, idx, done);
  }

  lemma MatchIsSound(c: Job, s: nat, i: nat)
    requires s < |c.pat.lays| && c.pat.lays[s].Valid() && c.pat.lays[s].lits != [] && Match(c.pat.lays[s], c.t, i)
    ensures c.Sound(s, i, |c.pat.lays[s].lits|) && c.To(s, |c.pat.lays[s].lits| - 1, i) <= |c.t|
  {
    hide Encode, Layout.Valid, Layout.Start, Occurs;
    LastWidth(c.pat.lays[s]);
  }

  lemma Start(c: Job, cap: nat, q: multiset<DelayedMatch>)
    requires c.Valid() && c.pat.Valid() && forall d :: d in q ==> d.patternId != c.pid
    ensures c.Inv(MatcherState(0, 0, [], cap), q, 0, 0, {}, false, 0)
  {
    hide Encode, Layout.Valid, Layout.Start, Layout.Width, Pattern.Valid, Job.Valid;
    OffEnds(c.t);
    SegmentsCount(c);
    assert Reach(c.pat, c.t, 0, 0) && c.Earliest(0, 0);
    NextInv(c, 0, 0, 0, {}, cap, q, false);
  }

  /** At the end of the text an undecided pattern does not match, unless something was lost. */
  lemma UndecidedFails(c: Job, st: MatcherState, q: multiset<DelayedMatch>, done: set<nat>, g: nat)
    requires c.Inv(st, q, |c.t|, |c.t|, done, false, g) && c.AllDone(|c.t|, done)
    ensures !Accepts(c.pat, c.t)
  {
    hide Encode, Layout.Valid, Layout.Start, Layout.Width, Pattern.Valid, Job.Valid, Reach, After, Accepts, Match,
         Job.Inv, Job.AllDone, Job.EntriesSound, Job.QueueSound, Job.Done, Off;
    InvParts(c, st, q, |c.t|, |c.t|, done, false, g);
    var s := st.segmentIdx;
    if Accepts(c.pat, c.t) {
      AcceptsSplit(c.pat, c.t, s);
      var e: nat :| Reach(c.pat, c.t, s, e) && After(c.pat, c.t, s, e);
      var i := AfterElim(c.pat, c.t, s, e);
      if s + 1 == |c.pat.lays| { AfterEnd(c.pat, c.t, i + c.pat.lays[s].Width()); }
      assert Begin(c.pat, s, g, i) && c.CanEnd(s, i);
      MatchIsSound(c, s, i);
      DoneWhenSound(c, s, i, |c.pat.lays[s].lits| - 1, |c.t|, done);
    }
  }
}
