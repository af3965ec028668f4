/** Runs of one pattern over one text, as a transition system. A run sees every literal hit of the pattern
    in the text, in any order at one code point; between code points the due items of the delay queue are
    stored, in any order; and the queue may gain or lose the items of other patterns at any time. */
module Runs {
  import opened Utf8
  import opened Layouts
  import opened LruCaches
  import opened DelayQueues
  import opened Matchers
  import opened Alignments
  import opened Capacities

  /** `done`: the literals that end at code point `idx` and have been seen. `evicted`: an alignment was thrown
      out of the cache while its next literal was still to come. */
  datatype Run = Run(st: MatcherState, queue: multiset<DelayedMatch>, matched: bool, idx: nat, done: set<nat>,
                     evicted: bool)

  datatype Event = NextCode | Hit(m: MatchingOutput) | Store(d: DelayedMatch) | Others(queue: multiset<DelayedMatch>)

  ghost function Initial(c: Job): Run
    requires c.sk.segs != []
  {
    Run(InitialState(c.caps), multiset{}, false, 0, {}, false)
  }

  ghost predicate IsHitAt(c: Job, m: MatchingOutput, idx: nat)
  {
    exists r: nat, j: nat :: c.IsHit(m, r, j, idx)
  }

  ghost predicate Enabled(c: Job, r: Run, ev: Event)
  {
    match ev
    case NextCode =>
      && r.idx < |c.t| && c.AllDone(r.idx, r.done)
      && (forall d :: d in r.queue && d.patternId == c.pid ==> d.readyCpIdx > r.idx)
    case Hit(m) =>
      IsHitAt(c, m, r.idx) && m.startPos !in r.done && m.startPos < U64 && m.textStartPos < U64
    case Store(d) =>
      && c.AllDone(r.idx, r.done) && d in r.queue && d.patternId == c.pid && d.readyCpIdx <= r.idx
      && d.nextPatternPos <= PATTERN_MAX && r.idx <= |c.t| && Off(c.t, r.idx) < TEXT_MAX
    case Others(q) =>
      forall d: DelayedMatch :: d.patternId == c.pid ==> q[d] == r.queue[d]
  }

  ghost function OnHit(c: Job, r: Run, m: MatchingOutput): Run
    requires SegsValid(c.sk) && m.startPos < U64 && m.textStartPos < U64
  {
    var n := r.(done := r.done + {m.startPos});
    if r.matched then n
    else
      var st, q := Consume(c.sk, r.st, m), QueueAfter(c, r.st, r.queue, m, r.idx);
      if Moves(c.sk, r.st, m, Encode(c.t)) then
        var tailEnd := SegmentTailEnd(c.sk, m, r.st.segmentIdx, Encode(c.t)).value;
        n.(st := NextSegment(c.sk, c.caps, st, tailEnd), queue := q, matched := r.st.segmentIdx + 1 >= |c.sk.segs|)
      else n.(st := st, queue := q)
  }

  /** The cache entry for a queue item that is due at `idx`. */
  ghost function DueEntry(c: Job, d: DelayedMatch, idx: nat): Entry
    requires d.nextPatternPos <= PATTERN_MAX && idx <= |c.t| && Off(c.t, idx) < TEXT_MAX
  {
    Entry(Diff(Off(c.t, idx), d.nextPatternPos), d.prevPatternPos)
  }

  ghost predicate Loses(c: Job, r: Run, e: Entry)
  {
    !r.matched && exists x :: x in Evicted(r.st.entries, e, r.st.cap) && c.LiveEntry(r.st.segmentIdx, r.idx, x)
  }

  ghost function OnStore(c: Job, r: Run, d: DelayedMatch): Run
    requires d.nextPatternPos <= PATTERN_MAX && r.idx <= |c.t| && Off(c.t, r.idx) < TEXT_MAX
  {
    var e := DueEntry(c, d, r.idx);
    r.(st := r.st.(entries := Upserted(r.st.entries, e, r.st.cap)), queue := r.queue - multiset{d},
       evicted := r.evicted || Loses(c, r, e))
  }

  ghost function Apply(c: Job, r: Run, ev: Event): Run
    requires SegsValid(c.sk) && Enabled(c, r, ev)
  {
    match ev
    case NextCode => r.(idx := r.idx + 1, done := {})
    case Hit(m) => OnHit(c, r, m)
    case Store(d) => OnStore(c, r, d)
    case Others(q) => r.(queue := q)
  }

  ghost predicate ReachedIn(c: Job, r: Run, n: nat)
    requires c.sk.segs != [] && SegsValid(c.sk)
    decreases n
  {
    if n == 0 then r == Initial(c)
    else
      var k := n - 1;
      exists p: Run, ev: Event :: ReachedIn(c, p, k) && Enabled(c, p, ev) && r == Apply(c, p, ev)
  }

  ghost predicate Reached(c: Job, r: Run)
    requires c.sk.segs != [] && SegsValid(c.sk)
  {
    exists n: nat :: ReachedIn(c, r, n)
  }

  /** The text is over and every literal that ends with it has been seen. */
  ghost predicate Over(c: Job, r: Run)
  {
    r.idx == |c.t| && c.AllDone(r.idx, r.done)
  }

  lemma ReachedInitial(c: Job)
    requires c.sk.segs != [] && SegsValid(c.sk)
    ensures Reached(c, Initial(c))
  {
    assert ReachedIn(c, Initial(c), 0);
  }

  lemma ReachedStep(c: Job, r: Run, ev: Event)
    requires c.sk.segs != [] && SegsValid(c.sk) && Reached(c, r) && Enabled(c, r, ev)
    ensures Reached(c, Apply(c, r, ev))
  {
    hide Enabled, Apply, SegsValid;
    var n: nat :| ReachedIn(c, r, n);
    var m := n + 1;
    assert m - 1 == n;
    assert ReachedIn(c, Apply(c, r, ev), m);
  }

  // ----- the invariant -----

  ghost predicate Aligned(c: Job, r: Run, g: nat)
  {
    c.Inv(r.st, r.queue, r.idx, r.idx, r.done, r.evicted, g)
  }

  ghost predicate CacheOk(c: Job, st: MatcherState)
  {
    && st.segmentIdx < |c.sk.segs| && st.cap == CapAt(c.caps, st.segmentIdx)
    && Ordered(c, st.entries)
  }

  /** What every reachable state satisfies. */
  ghost predicate Safe(c: Job, r: Run)
  {
    && r.idx <= |c.t| && (r.evicted ==> !AllRoomy(c.pat, c.caps))
    && if r.matched then c.pat.Valid() && Accepts(c.pat, c.t)
       else CacheOk(c, r.st) && exists g: nat :: Aligned(c, r, g)
  }

  lemma SafeIntro(c: Job, r: Run, g: nat)
    requires r.idx <= |c.t| && (r.evicted ==> !AllRoomy(c.pat, c.caps)) && !r.matched
    requires CacheOk(c, r.st) && Aligned(c, r, g)
    ensures Safe(c, r)
  {
    hide Aligned, CacheOk, AllRoomy;
  }

  lemma SafeInitial(c: Job)
    requires c.Valid() && c.pat.Valid() && c.sk.segs != []
    ensures Safe(c, Initial(c))
  {
    hide Job.Inv, Job.Valid, Pattern.Valid, AllRoomy, CapAt;
    Start(c, CapAt(c.caps, 0), multiset{});
    SafeIntro(c, Initial(c), 0);
  }

  /** The patterns' own sizes keep everything in range. */
  lemma HitInRange(c: Job, m: MatchingOutput, idx: nat)
    requires c.Valid() && c.pat.Valid() && IsHitAt(c, m, idx)
    ensures m.startPos <= PATTERN_MAX < U64 && m.textStartPos < TEXT_MAX < U64
  {
    hide Encode, Job.Valid, Pattern.Valid, Layout.Valid, Occurs;
    var r: nat, j: nat :| c.IsHit(m, r, j, idx);
    OffsetMax(c, r, j);
    OffMax(c, idx - |c.Codes(r, j)|);
  }

  lemma SafeHit(c: Job, r: Run, m: MatchingOutput)
    requires c.Valid() && c.pat.Valid() && SegsValid(c.sk) && Safe(c, r) && !r.matched && Enabled(c, r, Hit(m))
    ensures Safe(c, OnHit(c, r, m))
  {
    hide Job.Inv, Job.Valid, Pattern.Valid, AllRoomy, CapAt, Job.IsHit, Job.AllDone, Consume, Moves, QueueAfter,
         SegsValid, Ordered, Accepts, SegmentTailEnd, Without, Encode, Reach, After;
    var g: nat :| Aligned(c, r, g);
    var k: nat, j: nat :| c.IsHit(m, k, j, r.idx);
    InvParts(c, r.st, r.queue, r.idx, r.idx, r.done, r.evicted, g);
    SegmentsCount(c);
    ConsumeOrdered(c, r.st, m);
    var n := OnHit(c, r, m);
    if k != r.st.segmentIdx {
      SafeHitElsewhere(c, r, m, k, j, g);
    } else if !Moves(c.sk, r.st, m, Encode(c.t)) {
      HitStays(c, r.st, r.queue, m, j, r.idx, r.done, r.evicted, g);
      SafeIntro(c, n, g);
    } else if r.st.segmentIdx + 1 < |c.sk.segs| {
      var h := HitAdvances(c, r.st, r.queue, m, j, r.idx, r.done, r.evicted, g);
      OrderedNil(c);
      SafeIntro(c, n, h);
    } else {
      HitCompletes(c, r.st, m, j, r.idx, g);
    }
  }

  lemma OrderedNil(c: Job)
    ensures Ordered(c, [])
  {
  }

  lemma SafeHitElsewhere(c: Job, r: Run, m: MatchingOutput, k: nat, j: nat, g: nat)
    requires c.Valid() && c.pat.Valid() && SegsValid(c.sk) && Safe(c, r) && !r.matched && Aligned(c, r, g)
    requires c.IsHit(m, k, j, r.idx) && k != r.st.segmentIdx && m.startPos < U64 && m.textStartPos < U64
    ensures Safe(c, OnHit(c, r, m))
  {
    hide Job.Inv, Job.Valid, Pattern.Valid, AllRoomy, CapAt, Consume, Fits, SegsValid, Ordered, Accepts,
         SegmentTailEnd, Without, Occurs, Layout.Valid, Encode;
    InvParts(c, r.st, r.queue, r.idx, r.idx, r.done, r.evicted, g);
    HitElsewhere(c, r.st, m, k, j, r.idx, Encode(c.t));
    InvElsewhere(c, r.st, r.queue, k, j, r.idx, r.done, r.evicted, g);
    SafeIntro(c, OnHit(c, r, m), g);
  }

  lemma ConsumeOrdered(c: Job, st: MatcherState, m: MatchingOutput)
    requires m.textStartPos < U64 && m.startPos < U64 && Ordered(c, st.entries)
    ensures var n := Consume(c.sk, st, m);
            Ordered(c, n.entries) && n.segmentIdx == st.segmentIdx && n.cap == st.cap
  {
    hide Ordered, Relevant;
    OrderedWithout(c, st.entries, KeyOf(m));
  }

  lemma SafeStore(c: Job, r: Run, d: DelayedMatch)
    requires c.Valid() && c.pat.Valid() && SegsValid(c.sk) && Safe(c, r) && !r.matched && Enabled(c, r, Store(d))
    ensures Safe(c, OnStore(c, r, d))
  {
    hide Job.Inv, Job.Valid, Pattern.Valid, AllRoomy, CapAt, Job.AllDone, SegsValid, Ordered, Diff,
         Job.LiveEntry, Evicted, Upserted, Job.EntriesSound, Job.EntryOk;
    var g: nat :| Aligned(c, r, g);
    var e := DueEntry(c, d, r.idx);
    StoreKeeps(c, r.st, r.queue, d, r.idx, r.done, r.evicted, g, e);
    InvParts(c, r.st, r.queue, r.idx, r.idx, r.done, r.evicted, g);
    var q: nat, j: nat := StoredTag(c, r.st, r.queue, d, r.idx, g);
    OrderedUpserted(c, r.st.segmentIdx, g, r.idx, r.st.entries, e, r.st.cap, q, j);
    if Loses(c, r, e) {
      var x :| x in Evicted(r.st.entries, e, r.st.cap) && c.LiveEntry(r.st.segmentIdx, r.idx, x);
      SegmentsCount(c);
      EvictionNotRoomy(c, r.st.segmentIdx, g, r.idx, r.st.entries, e, r.st.cap, q, j, x);
      NotAllRoomy(c, r.st.segmentIdx);
    }
    SafeIntro(c, OnStore(c, r, d), g);
  }

  lemma NotAllRoomy(c: Job, s: nat)
    requires s < |c.pat.lays| && !Roomy(c.pat, s, CapAt(c.caps, s))
    ensures !AllRoomy(c.pat, c.caps)
  {
    hide Roomy;
  }

  /** What is stored waits from here for a literal of this segment or an earlier one. */
  lemma StoredTag(c: Job, st: MatcherState, q: multiset<DelayedMatch>, d: DelayedMatch, idx: nat, g: nat)
    returns (r: nat, j: nat)
    requires c.Valid() && c.pat.Valid() && c.QueueSound(st.segmentIdx, g, idx, q) && d in q && d.patternId == c.pid
    requires d.readyCpIdx <= idx <= |c.t| && d.nextPatternPos <= PATTERN_MAX && Off(c.t, idx) < TEXT_MAX
    ensures c.EntryAt(DueEntry(c, d, idx), r, j, idx) && c.EntryOk(st.segmentIdx, g, idx, DueEntry(c, d, idx))
  {
    hide Job.Valid, Pattern.Valid, Layout.Valid, Job.Due, Diff, Off, Encode, TEXT_MAX;
    assert c.ItemOk(st.segmentIdx, g, d) && d.readyCpIdx == idx;
    r, j :| c.Neighbours(d.prevPatternPos, d.nextPatternPos, r, j) && r <= st.segmentIdx
            && (r == st.segmentIdx ==> c.Due(st.segmentIdx, g, j, d.readyCpIdx));
    assert c.EntryAt(DueEntry(c, d, idx), r, j, idx);
  }

  lemma SafeNextCode(c: Job, r: Run)
    requires Safe(c, r) && !r.matched && Enabled(c, r, NextCode)
    ensures Safe(c, r.(idx := r.idx + 1, done := {}))
  {
    hide Job.Inv, AllRoomy, CapAt, Job.AllDone, Ordered;
    var g: nat :| Aligned(c, r, g);
    NextCodePoint(c, r.st, r.queue, r.idx, r.done, r.evicted, g);
    SafeIntro(c, r.(idx := r.idx + 1, done := {}), g);
  }

  lemma SafeOthers(c: Job, r: Run, q: multiset<DelayedMatch>)
    requires Safe(c, r) && !r.matched && Enabled(c, r, Others(q))
    ensures Safe(c, r.(queue := q))
  {
    hide Job.Inv, AllRoomy, CapAt, Job.AllDone, Ordered;
    var g: nat :| Aligned(c, r, g);
    OtherItem(c, r.st, r.queue, q, r.idx, r.idx, r.done, r.evicted, g);
    SafeIntro(c, r.(queue := q), g);
  }

  lemma SafeStep(c: Job, r: Run, ev: Event)
    requires c.Valid() && c.pat.Valid() && SegsValid(c.sk) && Safe(c, r) && Enabled(c, r, ev)
    ensures Safe(c, Apply(c, r, ev))
  {
    hide Job.Inv, Job.Valid, Pattern.Valid, AllRoomy, Job.AllDone, SegsValid, Accepts, CacheOk, Aligned, Moves,
         Consume, QueueAfter, Upserted, IsHitAt;
    if !r.matched {
      match ev
      case NextCode => SafeNextCode(c, r);
      case Hit(m) => SafeHit(c, r, m);
      case Store(d) => SafeStore(c, r, d);
      case Others(q) => SafeOthers(c, r, q);
    }
  }

  lemma {:induction false} SafeAlways(c: Job, r: Run, n: nat)
    requires c.Valid() && c.pat.Valid() && c.sk.segs != [] && SegsValid(c.sk) && ReachedIn(c, r, n)
    ensures Safe(c, r)
    decreases n
  {
    hide Job.Valid, Pattern.Valid, Safe, Enabled, Apply, SegsValid;
    if n == 0 {
      SafeInitial(c);
    } else {
      var p: Run, ev: Event :| ReachedIn(c, p, n - 1) && Enabled(c, p, ev) && r == Apply(c, p, ev);
      SafeAlways(c, p, n - 1);
      SafeStep(c, p, ev);
    }
  }

  // ----- what a run decides -----

  /** Whatever is evicted and whatever is stale: a pattern that is reported does match. */
  lemma RunSound(c: Job, r: Run)
    requires c.Valid() && c.pat.Valid() && c.sk.segs != [] && SegsValid(c.sk) && Reached(c, r) && r.matched
    ensures Accepts(c.pat, c.t)
  {
    hide Job.Valid, Pattern.Valid, ReachedIn, SegsValid, Accepts, Aligned, CacheOk, AllRoomy;
    var n: nat :| ReachedIn(c, r, n);
    SafeAlways(c, r, n);
  }

  /** Unless an alignment was evicted too early, a pattern that matches is reported. */
  lemma RunComplete(c: Job, r: Run)
    requires c.Valid() && c.pat.Valid() && c.sk.segs != [] && SegsValid(c.sk) && Reached(c, r) && Over(c, r)
    requires !r.evicted
    ensures r.matched <==> Accepts(c.pat, c.t)
  {
    hide Job.Valid, Pattern.Valid, ReachedIn, SegsValid, Accepts, CacheOk, AllRoomy, Job.AllDone, Job.Inv;
    var n: nat :| ReachedIn(c, r, n);
    SafeAlways(c, r, n);
    if !r.matched {
      var g: nat :| Aligned(c, r, g);
      UndecidedFails(c, r.st, r.queue, r.done, g);
    }
  }

  /** With caches of the right size nothing is evicted too early. */
  lemma RunRoomy(c: Job, r: Run)
    requires c.Valid() && c.pat.Valid() && c.sk.segs != [] && SegsValid(c.sk) && Reached(c, r)
    requires AllRoomy(c.pat, c.caps)
    ensures !r.evicted
  {
    hide Job.Valid, Pattern.Valid, ReachedIn, SegsValid, Accepts, Aligned, CacheOk, AllRoomy;
    var n: nat :| ReachedIn(c, r, n);
    SafeAlways(c, r, n);
  }
}
