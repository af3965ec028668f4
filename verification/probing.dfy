/** All patterns at once: which state of its run every pattern is in, and how one hit, one due item or the
    next code point moves them. */
module Probing {
  import opened Utf8
  import opened LikePredicate
  import opened Layouts
  import opened PatternTexts
  import opened Skeletons
  import opened Compiler
  import opened LruCaches
  import opened DelayQueues
  import opened Matchers
  import opened Alignments
  import opened Capacities
  import opened Runs
  import opened AhoCorasicks
  import opened Scanning

  // ----- the build side -----

  ghost predicate SegmentsReady(sk: Skeleton, pat: Pattern)
  {
    && sk.segs != [] && SegsValid(sk) && ShowsAll(sk.segs, pat)
    && (forall s :: 0 <= s < |pat.lays| ==> pat.lays[s].lits != [])
    && (forall s, j :: 0 <= s < |pat.lays| && 0 <= j < |pat.lays[s].lits| ==> pat.lays[s].lits[j].End() <= PATTERN_MAX)
  }

  /** `sk` is what the pattern compiles to, `pat` what it means. */
  ghost predicate Compiled(sk: Skeleton, pat: Pattern, src: Source)
  {
    && pat.Valid() && CompilesTo(src, sk, pat) && (forall t :: Like(src.Syms(), t) <==> Accepts(pat, t))
    && if sk.onlyWildcard then OnlyWildcards(src.Syms()) && AllLits(pat.lays) == [] else SegmentsReady(sk, pat)
  }

  /** To what was there before, the automaton has added exactly the literals of the patterns, by their offsets. */
  ghost predicate NamedOver(base: Occurrence, pats: seq<Pattern>, occ: Occurrence)
  {
    forall l, ix :: In(occ, l, ix) <==>
                      In(base, l, ix)
                      || (ix.patternId < |pats| && Lit(ix.startPos, l) in AllLits(pats[ix.patternId].lays))
  }

  /** The automaton names exactly the literals of the patterns. */
  ghost predicate Named(pats: seq<Pattern>, occ: Occurrence)
  {
    forall l, ix :: In(occ, l, ix) <==>
                      ix.patternId < |pats| && Lit(ix.startPos, l) in AllLits(pats[ix.patternId].lays)
  }

  ghost predicate Built(sks: seq<Skeleton>, pats: seq<Pattern>, srcs: seq<Source>, occ: Occurrence)
  {
    && |sks| == |pats| == |srcs| && (forall k :: 0 <= k < |sks| ==> Compiled(sks[k], pats[k], srcs[k]))
    && Named(pats, occ)
  }

  lemma {:induction false} LitAt(lays: seq<Layout>, l: Lit) returns (s: nat, j: nat)
    requires l in AllLits(lays)
    ensures s < |lays| && j < |lays[s].lits| && lays[s].lits[j] == l
  {
    if l in lays[0].lits {
      s := 0;
      j :| 0 <= j < |lays[0].lits| && lays[0].lits[j] == l;
    } else {
      s, j := LitAt(lays[1..], l);
      s := s + 1;
    }
  }

  /** An offset stands for one literal. */
  lemma OneLiteral(pat: Pattern, l: Lit, k: Lit)
    requires pat.Valid() && l in AllLits(pat.lays) && k in AllLits(pat.lays) && l.off == k.off
    ensures l == k
  {
    hide Encode, AllLits, Layout.Start, Layout.Width;
    var s, i := LitAt(pat.lays, l);
    var r, j := LitAt(pat.lays, k);
    if s == r {
      if i < j { OffsetOrder(pat.lays[s], i, j); }
      if j < i { OffsetOrder(pat.lays[s], j, i); }
    }
  }

  lemma NamedDisjoint(pats: seq<Pattern>, occ: Occurrence)
    requires Named(pats, occ) && forall k :: 0 <= k < |pats| ==> pats[k].Valid()
    ensures Disjoint(occ)
  {
    hide In, Pattern.Valid, AllLits;
    forall k, l, ix | In(occ, k, ix) && In(occ, l, ix) ensures k == l {
      OneLiteral(pats[ix.patternId], Lit(ix.startPos, k), Lit(ix.startPos, l));
    }
  }

  // ----- the state of all patterns -----

  /** The startings offsets of pattern `k` among the hits. */
  ghost function DoneBy(seen: seq<MatchingOutput>, k: nat): set<nat>
  {
    set a | 0 <= a < |seen| && seen[a].patternId == k :: seen[a].startPos
  }

  datatype World = World(sks: seq<Skeleton>, pats: seq<Pattern>, srcs: seq<Source>, occ: Occurrence, t: seq<Code>)
  {
    ghost predicate Valid()
    {
      Built(sks, pats, srcs, occ) && |Encode(t)| < TEXT_MAX
    }

    ghost function JobOf(k: nat): Job
      requires k < |sks| == |pats|
    {
      Job(sks[k], pats[k], t, k, CodeCaps(sks[k]))
    }

    /** A pattern the automaton can say something about. */
    ghost predicate Live(k: nat)
    {
      k < |sks| == |pats| && !sks[k].onlyWildcard
    }
  }

  /** `seen`: the hits at code point `idx` that have been handled. */
  datatype Snapshot = Snapshot(states: seq<MatcherState>, queue: multiset<DelayedMatch>, result: seq<bool>, idx: nat,
                               seen: seq<MatchingOutput>, evicted: seq<bool>)
  {
    ghost predicate Sized(n: nat)
    {
      |states| == n && |result| == n && |evicted| == n
    }

    ghost function RunOf(k: nat): Run
      requires k < |states| == |result| == |evicted|
    {
      Run(states[k], queue, result[k], idx, DoneBy(seen, k), evicted[k])
    }
  }

  lemma LiveJob(w: World, k: nat)
    requires w.Valid() && w.Live(k)
    ensures w.JobOf(k).Valid() && w.JobOf(k).pat.Valid() && w.sks[k].segs != [] && SegsValid(w.sks[k])
  {
    hide Encode, Like, Accepts, OnlyWildcards, AllLits, Named, Layout.Valid, Shows, Lit.End, SegsValid, CompilesTo;
    assert Compiled(w.sks[k], w.pats[k], w.srcs[k]);
  }

  ghost predicate Follows(w: World, s: Snapshot, k: nat)
    requires w.Valid() && s.Sized(|w.sks|) && w.Live(k)
  {
    LiveJob(w, k);
    Reached(w.JobOf(k), s.RunOf(k))
  }

  /** Every pattern is in a state that its run can be in. */
  ghost predicate AllReached(w: World, s: Snapshot)
  {
    w.Valid() && s.Sized(|w.sks|) && forall k :: 0 <= k < |w.sks| && w.Live(k) ==> Follows(w, s, k)
  }

  // ----- hits -----

  lemma HasLiteral(sk: Skeleton, pat: Pattern, src: Source, l: Lit)
    requires Compiled(sk, pat, src) && l in AllLits(pat.lays)
    ensures !sk.onlyWildcard
  {
    hide Encode, AllLits, Accepts, Like, OnlyWildcards, SegmentsReady, Pattern.Valid, CompilesTo;
  }

  /** A hit the automaton reports for pattern `k` is a hit of one of its literals. */
  lemma HitIs(w: World, idx: nat, out: seq<MatchingOutput>, m: MatchingOutput)
    requires w.Valid() && idx <= |w.t| && Emission(w.occ, w.t[..idx], out) && m in out
    ensures w.Live(m.patternId) && IsHitAt(w.JobOf(m.patternId), m, idx)
  {
    hide Encode, Off, In, Layout.Valid, Occurs, Compiled, AllLits;
    var v := w.t[..idx];
    var i: nat, ix :| i <= |v| && In(w.occ, v[i..], ix) && m == HitOf(v, i, ix);
    var k := ix.patternId;
    var s, j := LiteralOf(w, k, Lit(ix.startPos, v[i..]));
    SuffixOccurs(w.t, idx, i);
    assert w.JobOf(k).IsHit(m, s, j, idx);
  }

  /** What the automaton names for a pattern is one of its literals, and the pattern has some. */
  lemma LiteralOf(w: World, k: nat, l: Lit) returns (s: nat, j: nat)
    requires w.Valid() && k < |w.pats| && l in AllLits(w.pats[k].lays)
    ensures w.Live(k) && w.JobOf(k).IsLit(s, j) && w.JobOf(k).Offset(s, j) == l.off && w.JobOf(k).Codes(s, j) == l.codes
  {
    hide Encode, Named, AllLits, Accepts, Like, OnlyWildcards, SegmentsReady, CompilesTo, Layout.Valid;
    assert Compiled(w.sks[k], w.pats[k], w.srcs[k]);
    HasLiteral(w.sks[k], w.pats[k], w.srcs[k], l);
    s, j := LitAt(w.pats[k].lays, l);
    assert w.pats[k].lays[s].Valid();
  }

  lemma SuffixOccurs(t: seq<Code>, idx: nat, i: nat)
    requires i <= idx <= |t|
    ensures var l := t[..idx][i..];
            |l| == idx - i && Occurs(l, t, i) && Off(t[..idx], i) == Off(t, i)
  {
    assert t[..idx][i..] == t[i..idx] && t[..idx][..i] == t[..i];
  }

  /** All hits reported, none is missing for any pattern. */
  lemma HitsAll(w: World, idx: nat, out: seq<MatchingOutput>, k: nat)
    requires w.Valid() && idx <= |w.t| && Emission(w.occ, w.t[..idx], out) && w.Live(k)
    ensures w.JobOf(k).AllDone(idx, DoneBy(out, k))
  {
    hide Encode, Off, In, AllLits, Accepts, Like, OnlyWildcards, SegmentsReady, Built, Layout.Valid;
    var c, v := w.JobOf(k), w.t[..idx];
    forall s: nat, j: nat | c.IsLit(s, j) && |c.Codes(s, j)| <= idx && Occurs(c.Codes(s, j), c.t, idx - |c.Codes(s, j)|)
      ensures c.Offset(s, j) in DoneBy(out, k)
    {
      var l := c.Codes(s, j);
      var i := idx - |l|;
      assert v[i..] == l;
      LitNamed(w, k, s, j);
      var h := HitOf(v, i, PatternIndex(k, c.Offset(s, j)));
      assert h in out;
      var a :| 0 <= a < |out| && out[a] == h;
    }
  }

  lemma LitNamed(w: World, k: nat, s: nat, j: nat)
    requires w.Valid() && w.Live(k) && w.JobOf(k).IsLit(s, j)
    ensures In(w.occ, w.JobOf(k).Codes(s, j), PatternIndex(k, w.JobOf(k).Offset(s, j)))
  {
    hide Encode, In, AllLits, Compiled, Layout.Valid;
    InAllLits(w.pats[k].lays, s, j);
  }

  lemma SeenAppend(seen: seq<MatchingOutput>, m: MatchingOutput, k: nat)
    ensures DoneBy(seen + [m], k) == if m.patternId == k then DoneBy(seen, k) + {m.startPos} else DoneBy(seen, k)
  {
    var more := seen + [m];
    forall x ensures x in DoneBy(more, k) <==> x in DoneBy(seen, k) || (m.patternId == k && x == m.startPos) {
      if x in DoneBy(seen, k) {
        var a :| 0 <= a < |seen| && seen[a].patternId == k && seen[a].startPos == x;
        assert more[a] == seen[a];
      }
      if m.patternId == k && x == m.startPos { assert more[|seen|] == m; }
    }
  }

  lemma NotSeen(out: seq<MatchingOutput>, a: nat)
    requires NoRepeats(out) && a < |out|
    ensures out[a].startPos !in DoneBy(out[..a], out[a].patternId)
  {
    assert forall b :: 0 <= b < a ==> out[..a][b] == out[b];
  }

  /** The snapshot behind a hit of pattern `k`. */
  ghost function AfterHit(w: World, s: Snapshot, m: MatchingOutput): Snapshot
    requires w.Valid() && s.Sized(|w.sks|) && w.Live(m.patternId) && m.startPos < U64 && m.textStartPos < U64
  {
    var k := m.patternId;
    LiveJob(w, k);
    var n := OnHit(w.JobOf(k), s.RunOf(k), m);
    Snapshot(s.states[k := n.st], n.queue, s.result[k := n.matched], s.idx, s.seen + [m], s.evicted)
  }

  lemma ScheduledOwn(c: Job, r: Run, m: MatchingOutput, d: DelayedMatch)
    requires SegsValid(c.sk) && m.startPos < U64 && m.textStartPos < U64 && d.patternId != m.patternId
    ensures OnHit(c, r, m).queue[d] == r.queue[d]
  {
    hide Consume, Moves, Segment.Valid, NextSegment, SegmentTailEnd, Encode;
    if Fits(c.sk, r.st, m, Encode(c.t)) { FitsRelevant(c, r.st, m); }
  }

  lemma HitKeeps(w: World, s: Snapshot, m: MatchingOutput)
    requires AllReached(w, s) && w.Live(m.patternId) && IsHitAt(w.JobOf(m.patternId), m, s.idx)
    requires m.startPos !in DoneBy(s.seen, m.patternId) && m.startPos < U64 && m.textStartPos < U64
    ensures AllReached(w, AfterHit(w, s, m))
  {
    hide World.Valid, Reached, OnHit, SegsValid, Job.Valid, Pattern.Valid, DoneBy, IsHitAt;
    var n := AfterHit(w, s, m);
    forall k | 0 <= k < |w.sks| && w.Live(k) ensures Follows(w, n, k) {
      assert Follows(w, s, k);
      SeenAppend(s.seen, m, k);
      LiveJob(w, k);
      LiveJob(w, m.patternId);
      if k == m.patternId {
        HitElse(w.JobOf(k), s.RunOf(k), m);
        OwnHit(w.JobOf(k), s.RunOf(k), n.RunOf(k), m);
      } else {
        forall d: DelayedMatch | d.patternId == k ensures n.queue[d] == s.queue[d] {
          ScheduledOwn(w.JobOf(m.patternId), s.RunOf(m.patternId), m, d);
        }
        OthersStep(w.JobOf(k), s.RunOf(k), n.RunOf(k));
      }
    }
  }

  lemma HitElse(c: Job, r: Run, m: MatchingOutput)
    requires SegsValid(c.sk) && m.startPos < U64 && m.textStartPos < U64
    ensures var n := OnHit(c, r, m); n.idx == r.idx && n.evicted == r.evicted && n.done == r.done + {m.startPos}
  {
    hide Consume, Moves, QueueAfter, NextSegment, SegmentTailEnd, SegsValid;
  }

  lemma OwnHit(c: Job, r: Run, n: Run, m: MatchingOutput)
    requires c.sk.segs != [] && SegsValid(c.sk) && Reached(c, r) && IsHitAt(c, m, r.idx) && m.startPos !in r.done
    requires m.startPos < U64 && m.textStartPos < U64 && n.done == r.done + {m.startPos}
    requires n == OnHit(c, r, m).(done := n.done)
    ensures Reached(c, n)
  {
    hide Reached, SegsValid, IsHitAt, Consume, Moves, QueueAfter, NextSegment, SegmentTailEnd;
    ReachedStep(c, r, Hit(m));
  }

  lemma OthersStep(c: Job, r: Run, n: Run)
    requires c.sk.segs != [] && SegsValid(c.sk) && Reached(c, r) && n == r.(queue := n.queue)
    requires forall d: DelayedMatch :: d.patternId == c.pid ==> n.queue[d] == r.queue[d]
    ensures Reached(c, n)
  {
    hide Reached, SegsValid;
    ReachedStep(c, r, Others(n.queue));
  }

  /** A pattern that is still undecided has a current segment, and what a hit schedules is in range. */
  lemma HitReady(w: World, s: Snapshot, m: MatchingOutput)
    requires AllReached(w, s) && w.Live(m.patternId) && IsHitAt(w.JobOf(m.patternId), m, s.idx)
    requires !s.result[m.patternId]
    ensures m.startPos < U64 && m.textStartPos < U64 && SegsValid(w.sks[m.patternId])
    ensures s.states[m.patternId].segmentIdx < |w.sks[m.patternId].segs|
    ensures forall d :: d in QueueAfter(w.JobOf(m.patternId), s.states[m.patternId], multiset{}, m, s.idx) ==>
                          d.patternId == m.patternId && d.nextPatternPos <= PATTERN_MAX
  {
    hide World.Valid, ReachedIn, SegsValid, Job.Valid, Pattern.Valid, DoneBy, IsHitAt, QueueAfter, Aligned, AllRoomy;
    var k := m.patternId;
    assert Follows(w, s, k);
    LiveJob(w, k);
    var c := w.JobOf(k);
    HitInRange(c, m, s.idx);
    var n: nat :| ReachedIn(c, s.RunOf(k), n);
    SafeAlways(c, s.RunOf(k), n);
    ScheduleInRange(c, s.states[k], m, s.idx);
  }

  lemma ScheduleInRange(c: Job, st: MatcherState, m: MatchingOutput, idx: nat)
    requires c.Valid() && c.pat.Valid() && SegsValid(c.sk) && IsHitAt(c, m, idx)
    requires m.startPos < U64 && m.textStartPos < U64
    ensures forall d :: d in QueueAfter(c, st, multiset{}, m, idx) ==>
                          d.patternId == c.pid && d.nextPatternPos <= PATTERN_MAX
  {
    hide Encode, SegsValid, Job.Valid, Pattern.Valid, Layout.Valid, Scheduled, Occurs, Segment.Valid, Off, Layout.Start;
    var r: nat, j: nat :| c.IsHit(m, r, j, idx);
    if Fits(c.sk, st, m, Encode(c.t)) {
      FitsRelevant(c, st, m);
      SegmentsCount(c);
      SegmentFacts(c, st.segmentIdx, r, j);
      ScheduledIs(c, st, m, j, idx);
      if j + 1 < |c.pat.lays[r].lits| { OffsetMax(c, r, j + 1); }
    }
  }

  /** All hits at this code point have been handled. */
  ghost predicate HitsDone(w: World, s: Snapshot)
  {
    AllReached(w, s) && forall k :: 0 <= k < |w.sks| && w.Live(k) ==> w.JobOf(k).AllDone(s.idx, DoneBy(s.seen, k))
  }

  ghost predicate Settled(w: World, s: Snapshot)
  {
    HitsDone(w, s) && forall d :: d in s.queue ==> d.readyCpIdx > s.idx
  }

  lemma AllHitsDone(w: World, s: Snapshot, out: seq<MatchingOutput>)
    requires AllReached(w, s) && s.seen == out && s.idx <= |w.t| && Emission(w.occ, w.t[..s.idx], out)
    ensures HitsDone(w, s)
  {
    hide Emission, World.Valid, Follows, Job.AllDone;
    forall k | 0 <= k < |w.sks| && w.Live(k) ensures w.JobOf(k).AllDone(s.idx, DoneBy(s.seen, k)) {
      HitsAll(w, s.idx, out, k);
    }
  }

  /** The next hit is one of a pattern with literals, and has not been handled. */
  lemma EmissionFacts(w: World, s: Snapshot, out: seq<MatchingOutput>, n: nat)
    requires w.Valid() && s.idx <= |w.t| && Emission(w.occ, w.t[..s.idx], out) && n < |out| && s.seen == out[..n]
    ensures var m := out[n];
            && w.Live(m.patternId) && IsHitAt(w.JobOf(m.patternId), m, s.idx) && SegsValid(w.sks[m.patternId])
            && m.startPos < U64 && m.textStartPos < U64 && m.startPos !in DoneBy(s.seen, m.patternId)
  {
    hide World.Valid, Emission, IsHitAt, SegsValid, Job.Valid, DoneBy;
    var m := out[n];
    HitIs(w, s.idx, out, m);
    LiveJob(w, m.patternId);
    HitInRange(w.JobOf(m.patternId), m, s.idx);
    assert NoRepeats(out) by { EmissionOnce(w.occ, w.t[..s.idx], out); }
    NotSeen(out, n);
  }

  lemma EmissionOnce(occ: Occurrence, v: seq<Code>, out: seq<MatchingOutput>)
    requires Emission(occ, v, out)
    ensures NoRepeats(out)
  {
  }

  /** A pattern that has matched takes no more hits. */
  lemma HitIgnored(w: World, s: Snapshot, m: MatchingOutput)
    requires w.Valid() && s.Sized(|w.sks|) && w.Live(m.patternId) && m.startPos < U64 && m.textStartPos < U64
    requires s.result[m.patternId]
    ensures AfterHit(w, s, m) == s.(seen := s.seen + [m])
  {
    hide World.Valid, SegsValid, Job.Valid;
    LiveJob(w, m.patternId);
  }

  lemma HitHandled(w: World, s: Snapshot, m: MatchingOutput)
    requires w.Valid() && s.Sized(|w.sks|) && w.Live(m.patternId) && m.startPos < U64 && m.textStartPos < U64
    requires SegsValid(w.sks[m.patternId])
    ensures var k := m.patternId;
            var n := OnHit(w.JobOf(k), s.RunOf(k), m);
            AfterHit(w, s, m) ==
            Snapshot(s.states[k := n.st], n.queue, s.result[k := n.matched], s.idx, s.seen + [m], s.evicted)
  {
    hide World.Valid, SegsValid, Job.Valid, OnHit;
  }

  lemma HitSeen(w: World, s: Snapshot, m: MatchingOutput)
    requires w.Valid() && s.Sized(|w.sks|) && w.Live(m.patternId) && m.startPos < U64 && m.textStartPos < U64
    ensures AfterHit(w, s, m).seen == s.seen + [m]
  {
    hide World.Valid, SegsValid, Job.Valid, OnHit;
    LiveJob(w, m.patternId);
  }

  /** Patterns without a literal keep their result. */
  ghost predicate Untouched(w: World, before: seq<bool>, after: seq<bool>)
  {
    |after| == |before| && forall k :: 0 <= k < |before| && !w.Live(k) ==> after[k] == before[k]
  }

  lemma UntouchedSelf(w: World, a: seq<bool>)
    ensures Untouched(w, a, a)
  {
  }

  lemma UntouchedTrans(w: World, a: seq<bool>, b: seq<bool>, c: seq<bool>)
    requires Untouched(w, a, b) && Untouched(w, b, c)
    ensures Untouched(w, a, c)
  {
  }

  lemma HitTouches(w: World, s: Snapshot, m: MatchingOutput)
    requires w.Valid() && s.Sized(|w.sks|) && w.Live(m.patternId) && m.startPos < U64 && m.textStartPos < U64
    ensures Untouched(w, s.result, AfterHit(w, s, m).result)
  {
    hide World.Valid, SegsValid, Job.Valid, OnHit;
  }

  // ----- due items -----

  ghost predicate StoreRange(w: World, s: Snapshot, d: DelayedMatch)
  {
    && d.patternId < |s.states| && d.nextPatternPos <= PATTERN_MAX
    && s.idx <= |w.t| && Off(w.t, s.idx) < TEXT_MAX
  }

  ghost function AfterStore(w: World, s: Snapshot, d: DelayedMatch): Snapshot
    requires w.Valid() && s.Sized(|w.sks|) && StoreRange(w, s, d)
  {
    var k := d.patternId;
    var n := OnStore(w.JobOf(k), s.RunOf(k), d);
    s.(states := s.states[k := n.st], queue := n.queue, evicted := s.evicted[k := n.evicted])
  }

  lemma StoreStep(w: World, s: Snapshot, d: DelayedMatch)
    requires AllReached(w, s) && StoreRange(w, s, d) && w.Live(d.patternId) && d in s.queue && d.readyCpIdx <= s.idx
    requires w.JobOf(d.patternId).AllDone(s.idx, DoneBy(s.seen, d.patternId))
    ensures AllReached(w, AfterStore(w, s, d))
  {
    hide World.Valid, Reached, SegsValid, Job.Valid, Pattern.Valid, DoneBy, Job.AllDone, DueEntry, Loses, Upserted, Off,
         TEXT_MAX;
    var n := AfterStore(w, s, d);
    forall k | 0 <= k < |w.sks| && w.Live(k) ensures Follows(w, n, k) {
      assert Follows(w, s, k);
      LiveJob(w, k);
      if k == d.patternId {
        ReachedStep(w.JobOf(k), s.RunOf(k), Store(d));
      } else {
        OthersStep(w.JobOf(k), s.RunOf(k), n.RunOf(k));
      }
    }
  }

  lemma StoredIs(w: World, s: Snapshot, d: DelayedMatch)
    requires w.Valid() && s.Sized(|w.sks|) && StoreRange(w, s, d)
    ensures var k, e, n := d.patternId, DueEntry(w.JobOf(d.patternId), d, s.idx), AfterStore(w, s, d);
            && n.states == s.states[k := s.states[k].(entries := Upserted(s.states[k].entries, e, s.states[k].cap))]
            && n.queue == s.queue - multiset{d} && n.result == s.result && n.idx == s.idx && n.seen == s.seen
            && |n.evicted| == |s.evicted|
  {
    hide World.Valid, Upserted, DueEntry, Loses, Off, TEXT_MAX;
  }

  lemma StoreHits(w: World, s: Snapshot, d: DelayedMatch)
    requires HitsDone(w, s) && StoreRange(w, s, d) && w.Live(d.patternId) && d in s.queue && d.readyCpIdx <= s.idx
    ensures HitsDone(w, AfterStore(w, s, d))
  {
    hide World.Valid, AllReached, Job.AllDone, StoreRange, AfterStore;
    DoneSized(w, s);
    StoreStep(w, s, d);
    StoredIs(w, s, d);
  }

  lemma DoneSized(w: World, s: Snapshot)
    requires HitsDone(w, s)
    ensures AllReached(w, s) && w.Valid() && s.Sized(|w.sks|) && |w.sks| == |w.pats|
  {
    hide Compiled, Named, Encode, Job.AllDone, Follows;
  }

  // ----- the next code point, and the start -----

  lemma NextStep(w: World, s: Snapshot)
    requires Settled(w, s) && s.idx < |w.t|
    ensures AllReached(w, s.(idx := s.idx + 1, seen := []))
  {
    hide World.Valid, Reached, SegsValid, Job.Valid, Pattern.Valid, Job.AllDone;
    var n := s.(idx := s.idx + 1, seen := []);
    forall k | 0 <= k < |w.sks| && w.Live(k) ensures Follows(w, n, k) {
      assert Follows(w, s, k);
      LiveJob(w, k);
      ReachedStep(w.JobOf(k), s.RunOf(k), NextCode);
      assert DoneBy([], k) == {};
    }
  }

  /** What a matcher starts with. Patterns without a literal get an empty cache that nothing ever uses. */
  ghost function FreshState(sk: Skeleton): MatcherState
  {
    if sk.segs == [] || sk.onlyWildcard then MatcherState(0, 0, [], 0) else InitialState(CodeCaps(sk))
  }

  lemma StartAll(w: World, s: Snapshot)
    requires w.Valid() && s.Sized(|w.sks|) && s.queue == multiset{} && s.idx == 0 && s.seen == []
    requires forall k :: 0 <= k < |w.sks| ==> s.states[k] == FreshState(w.sks[k]) && !s.evicted[k]
    requires forall k :: 0 <= k < |w.sks| && w.Live(k) ==> !s.result[k]
    ensures AllReached(w, s)
  {
    hide World.Valid, Reached, SegsValid, Job.Valid, Pattern.Valid, InitialState;
    forall k | 0 <= k < |w.sks| && w.Live(k) ensures Follows(w, s, k) {
      LiveJob(w, k);
      ReachedInitial(w.JobOf(k));
      assert DoneBy([], k) == {};
    }
  }

  lemma NothingAtStart(w: World, k: nat)
    requires w.Valid() && w.Live(k)
    ensures w.JobOf(k).AllDone(0, {})
  {
    hide Encode;
    LiveJob(w, k);
  }

  // ----- what the result means -----

  lemma CompiledRuns(src: Source, sk: Skeleton, pat: Pattern)
    requires CompilesTo(src, sk, pat) && pat.Valid()
    ensures |sk.segs| == |pat.lays|
    ensures forall s :: 0 <= s < |pat.lays| ==>
                          pat.lays[s].Valid() && sk.segs[s].maxUnderscoreCnt == MaxRun(pat.lays[s])
  {
    hide MaxRun, Layout.Valid, CutInto, Folded, AllLits;
  }

  /** `result[k]` after the whole text. */
  lemma Decided(w: World, s: Snapshot, k: nat)
    requires AllReached(w, s) && w.Live(k) && s.idx == |w.t|
    requires w.JobOf(k).AllDone(s.idx, DoneBy(s.seen, k))
    ensures s.result[k] ==> Like(w.srcs[k].Syms(), w.t)
    ensures !s.evicted[k] ==> (s.result[k] <==> Like(w.srcs[k].Syms(), w.t))
    ensures AllRoomy(w.pats[k], CodeCaps(w.sks[k])) || ShortLater(w.pats[k]) || Fitted(w.pats[k]) ==> !s.evicted[k]
  {
    hide Reached, SegsValid, Job.Valid, Pattern.Valid, Job.AllDone, Like, Accepts, AllRoomy, DoneBy, OnlyWildcards,
         SegmentsReady, Named, ShortLater, Fitted, CompilesTo, MaxRun, Layout.Valid;
    assert Follows(w, s, k);
    LiveJob(w, k);
    assert Compiled(w.sks[k], w.pats[k], w.srcs[k]);
    var c, r := w.JobOf(k), s.RunOf(k);
    if r.matched { RunSound(c, r); }
    if !r.evicted { RunComplete(c, r); }
    if ShortLater(c.pat) { ShortRoomy(c); }
    CompiledRuns(w.srcs[k], c.sk, c.pat);
    if Fitted(c.pat) { FittedRoomy(c); }
    if AllRoomy(c.pat, c.caps) { RunRoomy(c, r); }
  }
}
