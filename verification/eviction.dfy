/** The cache size the matcher picks is not always enough. The patterns `%u_..._v` with two literals show where
    it ends. It depends on how long `u`, the gap and `v` are: up to a length of `v` every matching text is found
    whatever the literals are; beyond it, with literals that repeat one letter, none is found among the texts
    that repeat that letter. */
module EvictionLimits {
  import opened Options
  import opened Utf8
  import opened LikePredicate
  import opened Layouts
  import opened Tokenizers
  import opened PatternTexts
  import opened Skeletons
  import opened Compiler
  import opened LruCaches
  import opened DelayQueues
  import opened Matchers
  import opened Alignments
  import opened Capacities
  import opened Runs

  const A: Code := 0x61

  ghost function As(n: nat): (s: seq<Code>)
    ensures |s| == n && forall k :: 0 <= k < n ==> s[k] == A
  {
    seq(n, _ => A)
  }

  ghost function Underscored(g: nat): (s: seq<Code>)
    ensures |s| == g && forall k :: 0 <= k < g ==> s[k] == UNDERSCORE
  {
    seq(g, _ => UNDERSCORE)
  }

  /** A literal: not empty, and no wildcard in it. */
  ghost predicate IsPlain(u: seq<Code>)
  {
    u != [] && PERCENT !in u && UNDERSCORE !in u
  }

  /** `%`, then `u`, `g` underscores and `v`. */
  ghost function Sample(u: seq<Code>, g: nat, v: seq<Code>): seq<Code>
  {
    [PERCENT] + u + Underscored(g) + v
  }

  /** The symbols behind the `%`. */
  ghost function Block(u: seq<Code>, g: nat, v: seq<Code>): (q: seq<Sym>)
    ensures |q| == |u| + g + |v|
    ensures forall k :: 0 <= k < |u| ==> q[k] == Char(u[k])
    ensures forall k :: |u| <= k < |u| + g ==> q[k] == Underscore
    ensures forall k :: 0 <= k < |v| ==> q[|u| + g + k] == Char(v[k])
  {
    seq(|u| + g + |v|, k requires 0 <= k < |u| + g + |v| =>
          if k < |u| then Char(u[k]) else if k < |u| + g then Underscore else Char(v[k - |u| - g]))
  }

  ghost function SampleSource(u: seq<Code>, g: nat, v: seq<Code>): Source
  {
    PlainTokens(Sample(u, g, v));
    SourceOf(Sample(u, g, v), None)
  }

  /** The offset of `v`. */
  ghost function Second(u: seq<Code>, g: nat): nat
  {
    1 + |Encode(u)| + g
  }

  ghost function SamplePattern(u: seq<Code>, g: nat, v: seq<Code>): Pattern
  {
    Pattern([Layout(0, [Lit(1, u), Lit(Second(u, g), v)], 0)], false, false)
  }

  /** What the compiler makes of it: `SampleCompiled` below. */
  ghost function SampleSkeleton(o: nat, g: nat): Skeleton
  {
    Skeleton([Segment([1, o], map[1 := 0, o := 1], 0, 0, g, true, false)], false)
  }

  ghost function SampleJob(u: seq<Code>, g: nat, v: seq<Code>, t: seq<Code>, pid: nat): Job
  {
    var sk := SampleSkeleton(Second(u, g), g);
    Job(sk, SamplePattern(u, g, v), t, pid, CodeCaps(sk))
  }

  /** The pattern has its two literals, and offsets that fit 16 bits. */
  ghost predicate IsSample(u: seq<Code>, g: nat, v: seq<Code>)
  {
    IsPlain(u) && IsPlain(v) && 0 < g && Second(u, g) + |Encode(v)| <= PATTERN_MAX
  }

  lemma {:induction false} AsBytes(n: nat)
    ensures |Encode(As(n))| == n
  {
    if n > 0 {
      assert As(n)[1..] == As(n - 1);
      AsBytes(n - 1);
    }
  }

  lemma LengthBytes(u: seq<Code>)
    ensures |u| <= |Encode(u)|
  {
    OffEnds(u);
    OffMonotone(u, 0, |u|);
  }

  lemma AsSample(m: nat, g: nat, n: nat)
    requires 0 < m && 0 < g && 0 < n && 1 + m + g + n <= PATTERN_MAX
    ensures IsSample(As(m), g, As(n)) && Second(As(m), g) == 1 + m + g
    ensures |Encode(As(m))| == m && |Encode(As(n))| == n
  {
    AsBytes(m);
    AsBytes(n);
    assert As(m)[0] == A && As(n)[0] == A;
  }

  lemma SampleSegment(u: seq<Code>, g: nat, v: seq<Code>)
    requires IsSample(u, g, v)
    ensures SegsValid(SampleSkeleton(Second(u, g), g))
  {
    hide Encode;
    LengthBytes(u);
  }

  lemma SampleLayout(u: seq<Code>, g: nat, v: seq<Code>)
    requires IsSample(u, g, v)
    ensures var p := SamplePattern(u, g, v);
            && p.Valid() && p.lays[0].Valid() && p.lays[0].Gap(1) == g
            && p.lays[0].lits[0].End() == 1 + |Encode(u)| && p.lays[0].lits[1].End() == Second(u, g) + |Encode(v)|
  {
    hide Encode;
  }

  lemma SampleShown(u: seq<Code>, g: nat, v: seq<Code>)
    requires IsSample(u, g, v)
    ensures var sk, p := SampleSkeleton(Second(u, g), g), SamplePattern(u, g, v);
            ShowsAll(sk.segs, p) && p.lays[0].Valid() && sk.segs[0].maxUnderscoreCnt == MaxRun(p.lays[0])
  {
    hide Encode, Pattern.Valid, Layout.Valid;
    SampleLayout(u, g, v);
    SampleSegment(u, g, v);
    assert MaxGap(SamplePattern(u, g, v).lays[0], 1) == 0;
  }

  lemma SampleValid(u: seq<Code>, g: nat, v: seq<Code>, t: seq<Code>, pid: nat)
    requires IsSample(u, g, v) && |Encode(t)| < TEXT_MAX
    ensures var c := SampleJob(u, g, v, t, pid);
            c.Valid() && c.pat.Valid() && c.sk.segs != [] && SegsValid(c.sk)
  {
    hide Encode, Pattern.Valid, Layout.Valid, ShowsAll, SegsValid;
    SampleLayout(u, g, v);
    SampleSegment(u, g, v);
    SampleShown(u, g, v);
  }

  /** One literal is followed by another; the cache has one place more than the second one's offset. */
  lemma SampleRoomy(u: seq<Code>, g: nat, v: seq<Code>)
    requires IsSample(u, g, v)
    ensures AllRoomy(SamplePattern(u, g, v), CodeCaps(SampleSkeleton(Second(u, g), g))) <==> |v| <= |Encode(u)| + g + 2
  {
    hide Encode;
    var p, sk := SamplePattern(u, g, v), SampleSkeleton(Second(u, g), g);
    assert p.lays[0].lits[0].off == 1 && 1 in Followed(p, 0);
    forall x | x in Followed(p, 0) ensures x == 1 {
      var r: nat, j: nat :| r <= 0 && j < |p.lays[r].lits| && j + 1 < |p.lays[r].lits| && x == p.lays[r].lits[j].off;
    }
    assert Followed(p, 0) == {1};
    assert LongestLater(p.lays[0], 1) == 0;
    assert LongestLater(p.lays[0], 2) == |v|;
    assert LruCapForSegment(sk.segs[0]) == Second(u, g) + 1;
    assert |Followed(p, 0)| == 1 && |Followed(p, 0)| * |v| == |v|;
    assert Roomy(p, 0, CodeCaps(sk)[0]) <==> |v| <= Second(u, g) + 1;
  }

  // ----- a text of `a` only -----

  lemma {:induction false} AsOff(n: nat, x: nat)
    requires x <= n
    ensures Off(As(n), x) == x
  {
    assert As(n)[..x] == As(x);
    AsBytes(x);
  }

  /** What is waiting and what is stored concerns the second literal, at offset `o`. */
  ghost function Item(pid: nat, o: nat, k: nat): DelayedMatch
  {
    DelayedMatch(pid, o, 1, k)
  }

  ghost function AlignedAt(o: nat, k: nat): Entry
    requires k < U64 && o < U64
  {
    Entry(Diff(k, o), 1)
  }

  /** The first literal may end from code point `o - 1 - g` on, so items are due from `o - 1` on; there are
      `o + 1` places. */
  ghost function StoredCount(o: nat, x: nat): nat
  {
    if x + 1 < o then 0 else if x + 2 - o <= o + 1 then x + 2 - o else o + 1
  }

  /** The cache after the items due up to `x` have been stored: the last ones, latest first. */
  ghost function Stored(o: nat, x: nat): (s: seq<Entry>)
    requires x < U64 && 0 < o < U64
    ensures |s| == StoredCount(o, x)
    ensures forall i :: 0 <= i < |s| ==> i <= x && s[i] == AlignedAt(o, x - i)
  {
    seq(StoredCount(o, x), i requires 0 <= i < StoredCount(o, x) => AlignedAt(o, x - i))
  }

  lemma StoredKeys(o: nat, x: nat, y: nat)
    requires 0 < o <= PATTERN_MAX && x < TEXT_MAX && y < TEXT_MAX && (y > x || y + o + 1 <= x || y + 1 < o)
    ensures Without(Stored(o, x), Diff(y, o)) == Stored(o, x)
    ensures forall e :: e in Stored(o, x) ==> e.key != Diff(y, o)
  {
    hide Diff, Without;
    forall i | 0 <= i < |Stored(o, x)| ensures Stored(o, x)[i].key != Diff(y, o) { KeyEqual(x - i, o, y, o); }
    WithoutAbsent(Stored(o, x), Diff(y, o));
  }

  lemma StoredNext(o: nat, x: nat)
    requires 0 < o <= PATTERN_MAX && o <= x + 2 && x + 1 < TEXT_MAX
    ensures Upserted(Stored(o, x), AlignedAt(o, x + 1), o + 1) == Stored(o, x + 1)
  {
    hide Diff, Without;
    StoredKeys(o, x, x + 1);
    var w := [AlignedAt(o, x + 1)] + Stored(o, x);
    assert Without(Stored(o, x), AlignedAt(o, x + 1).key) == Stored(o, x);
    if |w| > o + 1 {
      assert w[..|w| - 1] == Stored(o, x + 1);
    } else {
      assert w == Stored(o, x + 1);
    }
  }

  // ----- no run ever matches -----

  /** The item is in the queue: it is due after `last`, and the literal that put it there has been seen. */
  ghost predicate Queued(c: Job, o: nat, g: nat, r: Run, last: nat, d: DelayedMatch)
  {
    && d == Item(c.pid, o, d.readyCpIdx) && o <= d.readyCpIdx + 1 && last < d.readyCpIdx
    && (d.readyCpIdx < r.idx + g || (d.readyCpIdx == r.idx + g && 1 in r.done))
  }

  /** `last` is the last code point whose item has been stored. */
  ghost predicate Starved(c: Job, o: nat, g: nat, r: Run, last: nat)
  {
    && 0 < g && g + 1 < o <= PATTERN_MAX
    && !r.matched && r.st.segmentIdx == 0 && r.st.minTextStartPos == 0 && r.st.cap == o + 1
    && (last == r.idx || o <= r.idx + 1 == last + 2) && r.idx < TEXT_MAX - 1 && r.st.entries == Stored(o, last)
    && (forall d: DelayedMatch :: d.patternId == c.pid ==>
          r.queue[d] == if Queued(c, o, g, r, last, d) then 1 else 0)
    && (1 in r.done ==> o <= r.idx + g + 1)
  }

  /** The pattern `%a...a_..._a...a` with too long a second literal, over a text of `k` times `a`. */
  ghost predicate Starving(m: nat, g: nat, n: nat, k: nat)
  {
    0 < m && 0 < g && m + g + 3 <= n && 1 + m + g + n <= PATTERN_MAX && k < TEXT_MAX - 1
  }

  ghost function AsJob(m: nat, g: nat, n: nat, k: nat, pid: nat): Job
  {
    SampleJob(As(m), g, As(n), As(k), pid)
  }

  /** A hit is one of the first literal or one of the second. */
  lemma SampleHit(m: nat, g: nat, n: nat, k: nat, pid: nat, h: MatchingOutput, idx: nat)
    requires Starving(m, g, n, k) && IsHitAt(AsJob(m, g, n, k, pid), h, idx)
    ensures h.patternId == pid && idx <= k
    ensures || (h.startPos == 1 && h.literalLen == m && m <= idx && h.textStartPos == idx - m)
            || (h.startPos == 1 + m + g && h.literalLen == n && n <= idx && h.textStartPos == idx - n)
  {
    hide Encode, As, Off;
    AsSample(m, g, n);
    var c := AsJob(m, g, n, k, pid);
    var r: nat, j: nat :| c.IsHit(h, r, j, idx);
    AsOff(k, idx - |c.Codes(r, j)|);
  }

  lemma FirstHit(m: nat, g: nat, k: nat, pid: nat, st: MatcherState, h: MatchingOutput, idx: nat)
    requires 0 < m && 0 < g <= PATTERN_MAX && st.segmentIdx == 0 && st.minTextStartPos == 0
    requires h.startPos == 1 && h.literalLen == m && h.textStartPos < U64 && h.patternId == pid
    ensures var sk := SampleSkeleton(1 + m + g, g);
            && SegsValid(sk) && Fits(sk, st, h, Encode(As(k))) && Consume(sk, st, h) == st
            && !Moves(sk, st, h, Encode(As(k))) && Scheduled(sk, st, h, idx) == multiset{Item(pid, 1 + m + g, idx + g)}
  {
    hide Encode, As;
  }

  lemma LongHit(o: nat, g: nat, n: nat, k: nat, st: MatcherState, h: MatchingOutput, idx: nat, last: nat)
    requires 1 < o <= PATTERN_MAX && o + 2 <= n <= idx && h.startPos == o && h.textStartPos == idx - n
    requires idx <= last + 1 && last < TEXT_MAX
    requires st.segmentIdx == 0 && st.minTextStartPos == 0 && st.entries == Stored(o, last)
    ensures h.textStartPos < U64 && SegsValid(SampleSkeleton(o, g))
    ensures var sk := SampleSkeleton(o, g);
            !Fits(sk, st, h, Encode(As(k))) && Consume(sk, st, h) == st && !Moves(sk, st, h, Encode(As(k)))
  {
    hide Encode, As, Stored, Without, Diff, Advance;
    StoredKeys(o, last, h.textStartPos);
  }

  lemma JobOfAs(m: nat, g: nat, n: nat, k: nat, pid: nat)
    requires Starving(m, g, n, k)
    ensures var c := AsJob(m, g, n, k, pid); c.sk == SampleSkeleton(1 + m + g, g) && c.t == As(k) && c.pid == pid
    ensures CapAt(AsJob(m, g, n, k, pid).caps, 0) == m + g + 2
    ensures AsJob(m, g, n, k, pid).sk.segs != [] && SegsValid(AsJob(m, g, n, k, pid).sk)
  {
    AsSample(m, g, n);
  }

  lemma StarvedHit(m: nat, g: nat, n: nat, k: nat, pid: nat, r: Run, h: MatchingOutput, last: nat)
    requires Starving(m, g, n, k) && SegsValid(AsJob(m, g, n, k, pid).sk)
    requires Starved(AsJob(m, g, n, k, pid), 1 + m + g, g, r, last) && Enabled(AsJob(m, g, n, k, pid), r, Hit(h))
    ensures Starved(AsJob(m, g, n, k, pid), 1 + m + g, g, OnHit(AsJob(m, g, n, k, pid), r, h), last)
  {
    hide Encode, As, Stored, Without, Diff, Advance, Fits, Moves, Consume, Scheduled, SampleSkeleton, SamplePattern,
         IsHitAt, AsJob;
    SampleHit(m, g, n, k, pid, h, r.idx);
    JobOfAs(m, g, n, k, pid);
    if h.startPos == 1 {
      FirstHit(m, g, k, pid, r.st, h, r.idx);
    } else {
      LongHit(1 + m + g, g, n, k, r.st, h, r.idx, last);
    }
  }

  lemma StarvedStore(m: nat, g: nat, n: nat, k: nat, pid: nat, r: Run, d: DelayedMatch, last: nat)
    requires Starving(m, g, n, k)
    requires Starved(AsJob(m, g, n, k, pid), 1 + m + g, g, r, last) && Enabled(AsJob(m, g, n, k, pid), r, Store(d))
    ensures Starved(AsJob(m, g, n, k, pid), 1 + m + g, g, OnStore(AsJob(m, g, n, k, pid), r, d), r.idx)
  {
    hide Encode, As, Stored, Diff, Upserted, Loses, Off, Job.AllDone, AsJob;
    JobOfAs(m, g, n, k, pid);
    assert r.queue[d] > 0;
    assert d == Item(pid, 1 + m + g, r.idx) && last + 1 == r.idx;
    AsOff(k, r.idx);
    StoredNext(1 + m + g, last);
  }

  lemma FirstSeen(m: nat, g: nat, n: nat, k: nat, pid: nat, idx: nat, done: set<nat>)
    requires Starving(m, g, n, k) && m <= idx <= k && AsJob(m, g, n, k, pid).AllDone(idx, done)
    ensures 1 in done
  {
    hide Encode;
    var c := AsJob(m, g, n, k, pid);
    assert c.pat.lays[0].lits[0] == Lit(1, As(m));
    assert c.IsLit(0, 0) by { AsSample(m, g, n); }
    assert Occurs(c.Codes(0, 0), c.t, idx - m);
    assert c.Offset(0, 0) in done;
  }

  lemma StarvedNext(m: nat, g: nat, n: nat, k: nat, pid: nat, r: Run, last: nat) returns (next: nat)
    requires Starving(m, g, n, k) && Starved(AsJob(m, g, n, k, pid), 1 + m + g, g, r, last)
    requires Enabled(AsJob(m, g, n, k, pid), r, NextCode)
    ensures Starved(AsJob(m, g, n, k, pid), 1 + m + g, g, r.(idx := r.idx + 1, done := {}), next)
  {
    hide Encode, Diff, As, Job.AllDone, Stored, AsJob;
    JobOfAs(m, g, n, k, pid);
    var o := 1 + m + g;
    if m <= r.idx { FirstSeen(m, g, n, k, pid, r.idx, r.done); }
    var due := Item(pid, o, r.idx);
    assert due in r.queue <==> Queued(AsJob(m, g, n, k, pid), o, g, r, last, due);
    next := if o <= r.idx + 2 then r.idx else r.idx + 1;
    if r.idx + 2 < o { StoredNone(o, r.idx); }
  }

  lemma StoredNone(o: nat, x: nat)
    requires x + 2 < o < U64
    ensures Stored(o, x) == [] == Stored(o, x + 1)
  {
  }

  lemma {:induction false} StarvedAlways(m: nat, g: nat, n: nat, k: nat, pid: nat, r: Run, steps: nat)
    returns (last: nat)
    requires Starving(m, g, n, k) && AsJob(m, g, n, k, pid).sk.segs != [] && SegsValid(AsJob(m, g, n, k, pid).sk)
    requires ReachedIn(AsJob(m, g, n, k, pid), r, steps)
    ensures Starved(AsJob(m, g, n, k, pid), 1 + m + g, g, r, last)
    decreases steps
  {
    hide Encode, As, Stored, Starved, Enabled, OnHit, OnStore, SegsValid, AsJob;
    var c := AsJob(m, g, n, k, pid);
    if steps == 0 {
      StarvedStart(m, g, n, k, pid);
      last := 0;
    } else {
      var p: Run, ev: Event :| ReachedIn(c, p, steps - 1) && Enabled(c, p, ev) && r == Apply(c, p, ev);
      last := StarvedAlways(m, g, n, k, pid, p, steps - 1);
      match ev
      case NextCode => last := StarvedNext(m, g, n, k, pid, p, last);
      case Hit(h) => StarvedHit(m, g, n, k, pid, p, h, last);
      case Store(d) => StarvedStore(m, g, n, k, pid, p, d, last); last := p.idx;
      case Others(q) => StarvedOthers(c, 1 + m + g, g, p, q, last);
    }
  }

  lemma StarvedStart(m: nat, g: nat, n: nat, k: nat, pid: nat)
    requires Starving(m, g, n, k) && AsJob(m, g, n, k, pid).sk.segs != []
    ensures Starved(AsJob(m, g, n, k, pid), 1 + m + g, g, Initial(AsJob(m, g, n, k, pid)), 0)
  {
    hide Encode, As, AsJob;
    JobOfAs(m, g, n, k, pid);
  }

  lemma StarvedOthers(c: Job, o: nat, g: nat, r: Run, q: multiset<DelayedMatch>, last: nat)
    requires Starved(c, o, g, r, last) && Enabled(c, r, Others(q))
    ensures Starved(c, o, g, r.(queue := q), last)
  {
    hide Encode, Stored;
  }

  // ----- the exact condition -----

  // ----- what the sample says, and what it compiles to -----

  lemma SampleSymbols(u: seq<Code>, g: nat, v: seq<Code>)
    requires IsPlain(u) && IsPlain(v)
    ensures var s := SampleSource(u, g, v);
            && s.Syms() == [Percent] + Block(u, g, v) == Reads(Sample(u, g, v), None)
            && s.toks[0] == Tok(PERCENT, false) && |s.toks| == 1 + |u| + g + |v|
            && (forall k :: 0 < k < |s.toks| ==> s.toks[k] != Tok(PERCENT, false) && !s.toks[k].escaped)
  {
    hide Block, Underscored;
    var p := Sample(u, g, v);
    PlainTokens(p);
    ReadsPlain(p);
    var s := SampleSource(u, g, v);
    forall k | 0 < k < |p| ensures p[k] != PERCENT && Plain(p[k]) == Block(u, g, v)[k - 1] {
      if 1 <= k < 1 + |u| { assert p[k] == u[k - 1] && u[k - 1] in u; }
      if 1 + |u| <= k < 1 + |u| + g { assert p[k] == Underscored(g)[k - 1 - |u|]; }
      if 1 + |u| + g <= k { assert p[k] == v[k - 1 - |u| - g] && v[k - 1 - |u| - g] in v; }
    }
    assert forall k :: 0 <= k < |p| ==> s.Syms()[k] == Plain(p[k]);
  }

  lemma BlockPlain(u: seq<Code>, g: nat, v: seq<Code>)
    ensures NoPercent(Block(u, g, v)) && Block(u, g, v) + [] == Block(u, g, v)
  {
  }

  /** From `m + g + n` code points on the text matches. */
  lemma SampleMatches(m: nat, g: nat, n: nat, k: nat)
    requires 0 < m && 0 < n && m + g + n <= k
    ensures LikeEscape(Sample(As(m), g, As(n)), None, As(k))
  {
    hide As, Block, Reads;
    AsPlain(m);
    AsPlain(n);
    SampleSymbols(As(m), g, As(n));
    var q, d := Block(As(m), g, As(n)), k - (m + g + n);
    var p := [Percent] + q;
    BlockPlain(As(m), g, As(n));
    assert p[1..] == q;
    assert As(k)[d..][|q|..] == [];
    LikeBlock(q, [], As(k)[d..]);
    BlockMatches(m, g, n, As(k)[d..]);
    assert Like(p[1..], As(k)[d..]);
  }

  lemma AsPlain(m: nat)
    requires 0 < m
    ensures IsPlain(As(m))
  {
    assert As(m)[0] == A;
  }

  lemma BlockMatches(m: nat, g: nat, n: nat, t: seq<Code>)
    requires |t| == m + g + n && forall k :: 0 <= k < |t| ==> t[k] == A
    ensures MatchAt(Block(As(m), g, As(n)), t, 0)
  {
    var q := Block(As(m), g, As(n));
    forall k | 0 <= k < |q| ensures q[k] == Underscore || q[k] == Char(t[k]) {
      if k >= m + g { assert q[m + g + (k - m - g)] == Char(As(n)[k - m - g]); }
    }
  }

  lemma SampleStarts(u: seq<Code>, g: nat, v: seq<Code>)
    requires IsSample(u, g, v)
    ensures var lay := SamplePattern(u, g, v).lays[0];
            lay.Valid() && lay.Start(0) == 0 && lay.Start(1) == |u| + g && lay.Width() == |u| + g + |v|
  {
    hide Encode;
    var lay := SamplePattern(u, g, v).lays[0];
    assert lay.Valid() && lay.Gap(1) == g;
  }

  lemma SampleDescribes(u: seq<Code>, g: nat, v: seq<Code>)
    requires IsSample(u, g, v)
    ensures Describes(SamplePattern(u, g, v).lays[0], Block(u, g, v))
    ensures SamplePattern(u, g, v).lays[0].Width() == |Block(u, g, v)|
    ensures SamplePattern(u, g, v).lays[0].Start(0) == 0 && SamplePattern(u, g, v).lays[0].Start(1) == |u| + g
  {
    hide Encode, Layout.Start, Layout.Width, Layout.Valid, Block, IsPlain, Second;
    SampleStarts(u, g, v);
    var lay, q := SamplePattern(u, g, v).lays[0], Block(u, g, v);
    assert Stands(u, q, 0) && Stands(v, q, |u| + g);
    forall x | 0 <= x < |q| && q[x] != Underscore
      ensures exists j :: 0 <= j < |lay.lits| && lay.Start(j) <= x < lay.Start(j) + |lay.lits[j].codes|
    {
      if x < |u| {
        assert lay.Start(0) <= x < lay.Start(0) + |lay.lits[0].codes|;
      } else {
        assert lay.Start(1) <= x < lay.Start(1) + |lay.lits[1].codes|;
      }
    }
  }

  /** No other layout describes the block: the literals are its stretches without underscores. */
  lemma OneLayout(lay: Layout, u: seq<Code>, g: nat, v: seq<Code>)
    requires u != [] && v != [] && 0 < g && Describes(lay, Block(u, g, v))
    ensures lay.prefix == 0 && lay.suffix == 0 && |lay.lits| == 2
    ensures lay.lits[0].codes == u && lay.lits[1].codes == v && lay.Start(0) == 0 && lay.Start(1) == |u| + g
  {
    hide Encode, Block, Layout.Start, Layout.Width, Layout.Valid;
    var q := Block(u, g, v);
    var i := Covered(lay, q, 0);
    FirstLiteral(lay, q, i, 0);
    LiteralIs(lay, q, 0, u, 0);
    assert q[|u| + g + 0] == Char(v[0]);
    var j := Covered(lay, q, |u| + g);
    SecondLiteral(lay, u, g, v, j);
  }

  lemma Covered(lay: Layout, q: seq<Sym>, x: nat) returns (j: nat)
    requires Describes(lay, q) && x < |q| && q[x] != Underscore
    ensures lay.Valid() && |q| == lay.Width() && j < |lay.lits|
    ensures lay.Start(j) <= x < lay.Start(j) + |lay.lits[j].codes| && Stands(lay.lits[j].codes, q, lay.Start(j))
  {
    hide Encode, Layout.Start, Layout.Width, Layout.Valid, Stands;
    j :| 0 <= j < |lay.lits| && lay.Start(j) <= x < lay.Start(j) + |lay.lits[j].codes|;
  }

  lemma FirstLiteral(lay: Layout, q: seq<Sym>, j: nat, x: nat)
    requires lay.Valid() && j < |lay.lits| && lay.Start(j) <= x == 0
    ensures j == 0 && lay.prefix == 0
  {
    hide Encode, Layout.Start, Layout.Valid;
    FirstStart(lay);
    if j > 0 { StartOrder(lay, 0, j); }
  }

  /** A literal that starts where a stretch of characters starts ends with it. */
  lemma LiteralIs(lay: Layout, q: seq<Sym>, j: nat, u: seq<Code>, x: nat)
    requires Describes(lay, q) && j < |lay.lits| && lay.Valid() && lay.Start(j) == x
    requires x + |u| <= |q| && (forall k :: 0 <= k < |u| ==> q[x + k] == Char(u[k]))
    requires x + |u| == |q| || q[x + |u|] == Underscore
    ensures lay.lits[j].codes == u
  {
    hide Encode, Layout.Start, Layout.Width, Layout.Valid;
    var l := lay.lits[j].codes;
    assert Stands(l, q, x);
    if |l| > |u| {
      StandsAt(l, q, x, x + |u|);
    } else if |l| < |u| {
      assert q[x + |l|] == Char(u[|l|]);
      NotSplit(lay, q, j, x + |l|);
    } else {
      forall k | 0 <= k < |l| ensures l[k] == u[k] { assert q[x + k] == Char(l[k]); }
    }
  }

  /** Right behind a literal stands no character. */
  lemma NotSplit(lay: Layout, q: seq<Sym>, j: nat, x: nat)
    requires Describes(lay, q) && lay.Valid() && j < |lay.lits| && x == lay.Start(j) + |lay.lits[j].codes| && x < |q|
    ensures q[x] == Underscore
  {
    hide Encode, Layout.Start, Layout.Width, Layout.Valid;
    if q[x] != Underscore {
      var k := Covered(lay, q, x);
      if k < j { StartOrder(lay, k, j); }
      if j < k { StartOrder(lay, j, k); }
    }
  }

  lemma SecondLiteral(lay: Layout, u: seq<Code>, g: nat, v: seq<Code>, j: nat)
    requires u != [] && v != [] && 0 < g && Describes(lay, Block(u, g, v)) && lay.Valid() && j < |lay.lits|
    requires lay.prefix == 0 && lay.lits[0].codes == u
    requires lay.Start(j) <= |u| + g < lay.Start(j) + |lay.lits[j].codes|
    ensures j == 1 && lay.suffix == 0 && |lay.lits| == 2 && lay.lits[1].codes == v
    ensures lay.Start(0) == 0 && lay.Start(1) == |u| + g
  {
    hide Encode, Block, Layout.Start, Layout.Width, Layout.Valid, Describes;
    var q := Block(u, g, v);
    LiteralStart(lay, q, j, |u| + g);
    LiteralIs(lay, q, j, v, |u| + g);
    FirstStart(lay);
    NoneBetween(lay, u, g, v, j);
    LastLiteral(lay, q, j);
  }

  lemma FirstStart(lay: Layout)
    requires lay.Valid() && lay.lits != []
    ensures lay.Start(0) == lay.prefix
  {
  }

  /** A literal that ends with the block is the last one, and nothing follows it. */
  lemma LastLiteral(lay: Layout, q: seq<Sym>, j: nat)
    requires Describes(lay, q) && lay.Valid() && j < |lay.lits| && lay.Start(j) + |lay.lits[j].codes| == |q|
    ensures j + 1 == |lay.lits| && lay.suffix == 0
  {
    hide Encode, Layout.Start, Layout.Valid, Stands;
    if j + 1 < |lay.lits| { StartOrder(lay, j, |lay.lits| - 1); }
  }

  /** A literal does not start before a character that an underscore precedes. */
  lemma LiteralStart(lay: Layout, q: seq<Sym>, j: nat, x: nat)
    requires Describes(lay, q) && lay.Valid() && j < |lay.lits| && 0 < x < |q| && q[x - 1] == Underscore
    requires lay.Start(j) <= x < lay.Start(j) + |lay.lits[j].codes|
    ensures lay.Start(j) == x
  {
    hide Encode, Layout.Start, Layout.Width, Layout.Valid;
    assert Stands(lay.lits[j].codes, q, lay.Start(j));
    if lay.Start(j) < x { StandsAt(lay.lits[j].codes, q, lay.Start(j), x - 1); }
  }

  /** There is no literal among the underscores. */
  lemma NoneBetween(lay: Layout, u: seq<Code>, g: nat, v: seq<Code>, j: nat)
    requires 0 < g && Describes(lay, Block(u, g, v)) && lay.Valid() && j < |lay.lits| && lay.lits[0].codes == u
    requires lay.Start(0) == 0 && lay.Start(j) == |u| + g
    ensures j <= 1
  {
    hide Encode, Block, Layout.Width, Layout.Start, Stands;
    if j > 1 {
      StartOrder(lay, 0, 1);
      StartOrder(lay, 1, j);
      StandsAt(lay.lits[1].codes, Block(u, g, v), lay.Start(1), lay.Start(1));
      assert false;
    }
  }

  lemma StandsAt(l: seq<Code>, q: seq<Sym>, x: nat, y: nat)
    requires Stands(l, q, x) && x <= y < x + |l|
    ensures y < |q| && q[y] == Char(l[y - x])
  {
    assert q[x + (y - x)] == Char(l[y - x]);
  }

  /** Offsets of the sample: nothing is escaped. */
  lemma SampleOffsets(u: seq<Code>, g: nat, v: seq<Code>)
    requires IsSample(u, g, v)
    ensures var s := SampleSource(u, g, v);
            && s.Valid() && |s.toks| == 1 + |u| + g + |v|
            && Clean(s, 1, 1) == 1 && Clean(s, 1, 1 + |u| + g) == Second(u, g)
  {
    hide Encode, Source.At, Clean, WriteCodePoint, Block, Source.Escapes, SampleSource, Sample, Source.Syms;
    var s := SampleSource(u, g, v);
    SampleSymbols(u, g, v);
    SampleParts(u, g, v);
    FirstClean(s);
    CleanCodes(s, 1, 1, 1 + |u|);
    CleanRun(s, 1, 1 + |u|, 1 + |u| + g);
  }

  lemma SampleParts(u: seq<Code>, g: nat, v: seq<Code>)
    requires IsSample(u, g, v)
    ensures var s := SampleSource(u, g, v);
            && s.Valid() && |s.toks| == 1 + |u| + g + |v| && CodesOf(s.toks[1..1 + |u|]) == u
            && forall k :: 1 + |u| <= k < 1 + |u| + g ==> s.Wild(k, UNDERSCORE)
  {
    hide Encode, Reads, Tokens;
    var s, p := SampleSource(u, g, v), Sample(u, g, v);
    PlainTokens(p);
    TokensAre(p, None);
    assert p[1..1 + |u|] == u;
    forall k | 1 + |u| <= k < 1 + |u| + g ensures s.Wild(k, UNDERSCORE) { assert p[k] == Underscored(g)[k - 1 - |u|]; }
  }

  /** The `%` in front is one byte. */
  lemma FirstClean(s: Source)
    requires s.Valid() && s.toks != [] && s.toks[0] == Tok(PERCENT, false)
    ensures Clean(s, 1, 1) == 1
  {
    hide Source.At, WriteCodePoint;
    AtEnds(s);
    CleanStep(s, 0, 0);
    assert s.Escapes(0, 0) == 0 && s.Escapes(0, 1) == 0;
  }

  /** The compiler makes exactly this of the sample. */
  lemma SampleCompiled(u: seq<Code>, g: nat, v: seq<Code>, sk: Skeleton, pat: Pattern)
    requires IsSample(u, g, v)
    ensures CompilesTo(SampleSource(u, g, v), sk, pat) <==>
            sk == SampleSkeleton(Second(u, g), g) && pat == SamplePattern(u, g, v)
  {
    hide Encode, CompilesTo, IsSample, SampleSource, SampleSkeleton, SamplePattern, Second;
    if CompilesTo(SampleSource(u, g, v), sk, pat) {
      SampleIs(u, g, v, sk, pat);
      SampleSegments(u, g, sk, v);
    }
    SampleCompiles(u, g, v);
  }

  /** The sample has one segment, from symbol 1 to the end. */
  lemma SampleCut(u: seq<Code>, g: nat, v: seq<Code>, lays: seq<Layout>, y: nat)
    requires IsSample(u, g, v) && CutUpTo(lays, SampleSource(u, g, v), y) && lays != []
    ensures |lays| == 1 && SegmentAt(lays[0], SampleSource(u, g, v), 0, 1, 1 + |u| + g + |v|)
    ensures y == 1 + |u| + g + |v|
  {
    hide Encode, Describes, OffsetsFrom, Block, IsSample, SampleSource, Source.Syms;
    var s := SampleSource(u, g, v);
    SampleTokens(u, g, v);
    var n := |lays| - 1;
    var x: nat, a: nat :| CutUpTo(lays[..n], s, x) && SegmentAt(lays[n], s, x, a, y);
    CutStarts(u, g, v, lays[..n], x);
    assert !s.Wild(1, PERCENT) && s.Wild(0, PERCENT);
  }

  /** Before the end of the sample no segment is over. */
  lemma CutStarts(u: seq<Code>, g: nat, v: seq<Code>, lays: seq<Layout>, x: nat)
    requires IsSample(u, g, v) && CutUpTo(lays, SampleSource(u, g, v), x) && x < |SampleSource(u, g, v).toks|
    ensures lays == [] && x == 0
  {
    hide Encode, Describes, OffsetsFrom, Block, IsSample, SampleSource, Source.Syms;
    var s := SampleSource(u, g, v);
    SampleTokens(u, g, v);
    if lays != [] {
      CutWild(lays, s, x);
      assert false;
    }
  }

  /** Behind a segment stands a `%`, if anything. */
  lemma CutWild(lays: seq<Layout>, s: Source, x: nat)
    requires CutUpTo(lays, s, x) && lays != [] && x < |s.toks|
    ensures x > 0 && s.Wild(x, PERCENT)
  {
    hide Describes, OffsetsFrom;
  }

  lemma SampleTokens(u: seq<Code>, g: nat, v: seq<Code>)
    requires IsSample(u, g, v)
    ensures var s := SampleSource(u, g, v);
            |s.toks| == 1 + |u| + g + |v| > 1 && forall k :: 0 <= k < |s.toks| ==> (s.Wild(k, PERCENT) <==> k == 0)
  {
    hide Encode, Block, SampleSource, Source.Syms;
    SampleSymbols(u, g, v);
  }

  lemma SampleIs(u: seq<Code>, g: nat, v: seq<Code>, sk: Skeleton, pat: Pattern)
    requires IsSample(u, g, v) && CompilesTo(SampleSource(u, g, v), sk, pat)
    ensures pat == SamplePattern(u, g, v)
    ensures ShowsAll(sk.segs, pat) && sk.onlyWildcard == (AllLits(pat.lays) == []) && pat.lays[0].Valid()
    ensures |sk.segs| == 1 && sk.segs[0].maxUnderscoreCnt == MaxRun(pat.lays[0])
  {
    hide Encode, SampleSource, ShowsAll, AllLits, MaxRun, Second, IsSample, CutUpTo, FoldedFirst, FoldedBack,
         Pattern.Valid, Layout.Valid;
    var s := SampleSource(u, g, v);
    SampleTokens(u, g, v);
    var whole: Pattern :| CutInto(whole, s) && pat == Folded(whole);
    var y: nat :| CutUpTo(whole.lays, s, y) && RestIs(whole, s, y);
    assert !s.Wild(1, PERCENT);
    if whole.lays == [] {
      NothingCut(s, y);
      assert false;
    }
    SampleCut(u, g, v, whole.lays, y);
    OneSegment(u, g, v, whole.lays[0]);
    assert FoldedHead(whole) == whole && FoldedTail(whole, 1) == whole;
    assert whole.lays == [whole.lays[0]];
    ShowsSizes(sk, pat);
  }

  lemma NothingCut(s: Source, y: nat)
    requires CutUpTo([], s, y)
    ensures y == 0
  {
  }

  lemma ShowsSizes(sk: Skeleton, pat: Pattern)
    requires ShowsAll(sk.segs, pat)
    ensures |sk.segs| == |pat.lays| && forall s :: 0 <= s < |pat.lays| ==> pat.lays[s].Valid()
  {
  }

  lemma OneSegment(u: seq<Code>, g: nat, v: seq<Code>, lay: Layout)
    requires IsSample(u, g, v) && SegmentAt(lay, SampleSource(u, g, v), 0, 1, 1 + |u| + g + |v|)
    ensures lay == SamplePattern(u, g, v).lays[0]
  {
    hide Encode, SampleSource, Clean, Describes, Layout.Valid, Layout.Start, Block;
    var s := SampleSource(u, g, v);
    SampleSymbols(u, g, v);
    assert s.Syms()[1..1 + |u| + g + |v|] == Block(u, g, v);
    OneLayout(lay, u, g, v);
    SampleOffsets(u, g, v);
    assert lay.lits == [lay.lits[0], lay.lits[1]];
  }

  /** A segment that shows the layout of the sample is the segment of the sample. */
  lemma SampleSegments(u: seq<Code>, g: nat, sk: Skeleton, v: seq<Code>)
    requires IsSample(u, g, v)
    requires var p := SamplePattern(u, g, v);
             && ShowsAll(sk.segs, p) && sk.onlyWildcard == (AllLits(p.lays) == []) && p.lays[0].Valid()
             && |sk.segs| == 1 && sk.segs[0].maxUnderscoreCnt == MaxRun(p.lays[0])
    ensures sk == SampleSkeleton(Second(u, g), g)
  {
    hide Encode;
    var p, o := SamplePattern(u, g, v), Second(u, g);
    var seg := sk.segs[0];
    AllLitsOne(p.lays[0]);
    assert p.lays == [p.lays[0]];
    assert MaxRun(p.lays[0]) == g by { assert p.lays[0].Gap(1) == g && MaxGap(p.lays[0], 1) == 0; }
    assert Shows(seg, p.lays[0]);
    assert seg.literalOffset == [1, o];
    assert seg.litOffP.Keys == {1, o} by {
      forall k ensures k in seg.litOffP <==> k == 1 || k == o {
        assert seg.literalOffset[0] == 1 && seg.literalOffset[1] == o;
      }
    }
    assert seg.litOffP == map[1 := 0, o := 1] by {
      assert seg.litOffP[seg.literalOffset[0]] == 0 && seg.litOffP[seg.literalOffset[1]] == 1;
    }
    assert sk.segs == [seg];
  }

  lemma SampleCompiles(u: seq<Code>, g: nat, v: seq<Code>)
    requires IsSample(u, g, v)
    ensures CompilesTo(SampleSource(u, g, v), SampleSkeleton(Second(u, g), g), SamplePattern(u, g, v))
  {
    hide Encode, SampleSource, CutInto, FoldedFirst, FoldedBack, ShowsAll, AllLits, MaxRun, IsSample, Second,
         Pattern.Valid, Layout.Valid;
    var p := SamplePattern(u, g, v);
    SampleShows(u, g, v);
    SampleCutInto(u, g, v);
    assert FoldedHead(p) == p && FoldedTail(p, 1) == p && p == Folded(p);
  }

  lemma SampleCutInto(u: seq<Code>, g: nat, v: seq<Code>)
    requires IsSample(u, g, v)
    ensures CutInto(SamplePattern(u, g, v), SampleSource(u, g, v))
  {
    hide Encode, SampleSource, CutUpTo, SegmentAt, ShowsAll, AllLits, MaxRun, IsSample, Second, Pattern.Valid;
    var s, p, n := SampleSource(u, g, v), SamplePattern(u, g, v), 1 + |u| + g + |v|;
    SampleTokens(u, g, v);
    SampleShows(u, g, v);
    SampleSegmentAt(u, g, v);
    NothingCutAt(s);
    CutAppend([], p.lays[0], s, 0, 1, n);
    assert [] + [p.lays[0]] == p.lays;
    assert s.Wild(0, PERCENT);
    assert RestIs(p, s, n);
  }

  lemma NothingCutAt(s: Source)
    ensures CutUpTo([], s, 0)
  {
  }

  lemma SampleShows(u: seq<Code>, g: nat, v: seq<Code>)
    requires IsSample(u, g, v)
    ensures var sk, p := SampleSkeleton(Second(u, g), g), SamplePattern(u, g, v);
            && ShowsAll(sk.segs, p) && p.Valid() && p.lays[0].Valid() && AllLits(p.lays) != []
            && sk.segs[0].maxUnderscoreCnt == MaxRun(p.lays[0])
  {
    hide Encode, ShowsAll, Pattern.Valid, Layout.Valid, MaxRun;
    SampleShown(u, g, v);
    SampleLayout(u, g, v);
    AllLitsOne(SamplePattern(u, g, v).lays[0]);
  }

  lemma SampleSegmentAt(u: seq<Code>, g: nat, v: seq<Code>)
    requires IsSample(u, g, v)
    ensures SegmentAt(SamplePattern(u, g, v).lays[0], SampleSource(u, g, v), 0, 1, 1 + |u| + g + |v|)
  {
    hide Encode, SampleSource, Clean, Describes, Layout.Start, Block;
    var s, lay := SampleSource(u, g, v), SamplePattern(u, g, v).lays[0];
    SampleTokens(u, g, v);
    SampleSymbols(u, g, v);
    SampleDescribes(u, g, v);
    SampleOffsets(u, g, v);
    assert s.Syms()[1..1 + |u| + g + |v|] == Block(u, g, v);
    DescribedWidth(lay, Block(u, g, v));
  }

  // ----- the exact condition -----

  /** `r` is a state at the end of a run of the pattern `c` compiles. */
  ghost predicate Ends(c: Job, r: Run)
  {
    c.sk.segs != [] && SegsValid(c.sk) && Reached(c, r) && Over(c, r)
  }

  /** Whatever the compiler makes of the pattern, with the caches the code picks: all runs over all texts decide
      right. */
  ghost predicate AlwaysRight(pc: seq<Code>)
  {
    BareEscape !in Reads(pc, None) &&
    forall sk, pat, t, pid: nat, r: Run ::
      CompilesTo(SourceOf(pc, None), sk, pat) && |Encode(t)| < TEXT_MAX
      && Ends(Job(sk, pat, t, pid, CodeCaps(sk)), r) ==>
        (r.matched <==> LikeEscape(pc, None, t))
  }

  /** All patterns with literals and a gap of these lengths are always decided right. */
  ghost predicate ShapeRight(m: nat, g: nat, n: nat)
  {
    forall u, v :: |u| == m && |v| == n && IsSample(u, g, v) ==> AlwaysRight(Sample(u, g, v))
  }

  // ----- short literals: everything is found -----

  /** The sample pattern means what its text says. */
  lemma SampleMeaning(u: seq<Code>, g: nat, v: seq<Code>, t: seq<Code>)
    requires IsSample(u, g, v) && SamplePattern(u, g, v).Valid()
    ensures LikeEscape(Sample(u, g, v), None, t) <==> Accepts(SamplePattern(u, g, v), t)
  {
    hide Describes, Layout.Width, Layout.Valid, Match, Encode, Block, Reads, Sample, SampleSource, Second;
    var p, q := SamplePattern(u, g, v), Block(u, g, v);
    var ps := [Percent] + q;
    SampleSymbols(u, g, v);
    SampleDescribes(u, g, v);
    BlockPlain(u, g, v);
    assert ps[1..] == q;
    forall d: nat | d <= |t|
      ensures Like(q, t[d..]) <==> Match(p.lays[0], t, d) && After(p, t, 1, d + p.lays[0].Width())
    {
      LikeBlock(q, [], t[d..]);
      DescribesMatch(p.lays[0], q, t, d);
      assert MatchAt(q, t[d..], 0) <==> MatchAt(q, t, d) by { MatchShift(q, t, d); }
    }
    if Accepts(p, t) {
      var i := AcceptsElim(p, t);
      MatchRoom(p.lays[0], t, i);
      assert Like(q, t[i..]);
    }
    if Like(ps, t) {
      var d :| 0 <= d <= |t| && Like(q, t[d..]);
      AcceptsIntro(p, t, d);
    }
  }

  lemma MatchShift(q: seq<Sym>, t: seq<Code>, d: nat)
    requires d <= |t|
    ensures MatchAt(q, t[d..], 0) <==> MatchAt(q, t, d)
  {
    if MatchAt(q, t[d..], 0) { assert forall k :: 0 <= k < |q| ==> t[d..][k] == t[d + k]; }
    if MatchAt(q, t, d) { assert forall k :: 0 <= k < |q| ==> t[d..][k] == t[d + k]; }
  }

  /** A second literal short enough for the cache: no text is decided wrong. */
  lemma ShortRight(u: seq<Code>, g: nat, v: seq<Code>)
    requires IsSample(u, g, v) && |v| <= |Encode(u)| + g + 2
    ensures AlwaysRight(Sample(u, g, v))
  {
    hide Encode, SegsValid, Reached, Over, LikeEscape, SampleSkeleton, SamplePattern, AllRoomy, IsPlain, Sample, Second,
         CompilesTo, Reads, Tokens, IsSample;
    SampleRoomy(u, g, v);
    PlainTokens(Sample(u, g, v));
    forall sk, pat, t, pid: nat, r: Run |
      CompilesTo(SourceOf(Sample(u, g, v), None), sk, pat) && |Encode(t)| < TEXT_MAX
      && Ends(Job(sk, pat, t, pid, CodeCaps(sk)), r)
      ensures r.matched <==> LikeEscape(Sample(u, g, v), None, t)
    {
      SampleCompiled(u, g, v, sk, pat);
      var c := SampleJob(u, g, v, t, pid);
      SampleValid(u, g, v, t, pid);
      RunRoomy(c, r);
      RunComplete(c, r);
      SampleMeaning(u, g, v, t);
    }
  }

  // ----- there are runs -----

  lemma SampleDone(m: nat, g: nat, n: nat, k: nat, pid: nat, idx: nat, done: set<nat>)
    requires Starving(m, g, n, k) && (m <= idx ==> 1 in done) && (n <= idx ==> 1 + m + g in done)
    ensures AsJob(m, g, n, k, pid).AllDone(idx, done)
  {
    hide Encode, As;
    AsSample(m, g, n);
  }

  lemma FirstThere(m: nat, g: nat, n: nat, k: nat, pid: nat, idx: nat)
    requires Starving(m, g, n, k) && m <= idx <= k
    ensures IsHitAt(AsJob(m, g, n, k, pid), MatchingOutput(pid, 1, m, idx - m), idx)
  {
    hide Encode, Off;
    AsSample(m, g, n);
    AsOff(k, idx - m);
    var c := AsJob(m, g, n, k, pid);
    assert c.IsLit(0, 0);
    assert c.t[idx - m..idx] == As(m);
    assert Occurs(c.Codes(0, 0), c.t, idx - m);
    assert c.IsHit(MatchingOutput(pid, 1, m, idx - m), 0, 0, idx);
  }

  lemma SecondThere(m: nat, g: nat, n: nat, k: nat, pid: nat, idx: nat)
    requires Starving(m, g, n, k) && n <= idx <= k
    ensures IsHitAt(AsJob(m, g, n, k, pid), MatchingOutput(pid, 1 + m + g, n, idx - n), idx)
  {
    hide Encode, Off;
    AsSample(m, g, n);
    AsOff(k, idx - n);
    var c := AsJob(m, g, n, k, pid);
    assert c.IsLit(0, 1);
    assert c.t[idx - n..idx] == As(n);
    assert Occurs(c.Codes(0, 1), c.t, idx - n);
    assert c.IsHit(MatchingOutput(pid, 1 + m + g, n, idx - n), 0, 1, idx);
  }

  /** The literals that end here are seen, in this order. */
  lemma SeeAll(m: nat, g: nat, n: nat, k: nat, pid: nat, r: Run, last: nat) returns (q: Run)
    requires Starving(m, g, n, k) && AsJob(m, g, n, k, pid).sk.segs != [] && SegsValid(AsJob(m, g, n, k, pid).sk)
    requires Reached(AsJob(m, g, n, k, pid), r) && Starved(AsJob(m, g, n, k, pid), 1 + m + g, g, r, last)
    requires r.done == {} && r.idx <= k
    ensures Reached(AsJob(m, g, n, k, pid), q) && Starved(AsJob(m, g, n, k, pid), 1 + m + g, g, q, last)
    ensures q.idx == r.idx && AsJob(m, g, n, k, pid).AllDone(q.idx, q.done)
  {
    hide Encode, As, Stored, Starved, SegsValid, IsHitAt, Reached, Job.AllDone, OnHit, AsJob;
    var c := AsJob(m, g, n, k, pid);
    StarvedIdx(c, 1 + m + g, g, r, last);
    q := r;
    if m <= r.idx {
      FirstThere(m, g, n, k, pid, r.idx);
      var h := MatchingOutput(pid, 1, m, r.idx - m);
      HitDone(c, r, h);
      ReachedStep(c, r, Hit(h));
      StarvedHit(m, g, n, k, pid, r, h, last);
      q := OnHit(c, r, h);
    }
    if n <= r.idx {
      SecondThere(m, g, n, k, pid, r.idx);
      var h := MatchingOutput(pid, 1 + m + g, n, r.idx - n);
      HitDone(c, q, h);
      ReachedStep(c, q, Hit(h));
      StarvedHit(m, g, n, k, pid, q, h, last);
      q := OnHit(c, q, h);
    }
    SampleDone(m, g, n, k, pid, q.idx, q.done);
  }

  lemma StarvedIdx(c: Job, o: nat, g: nat, r: Run, last: nat)
    requires Starved(c, o, g, r, last)
    ensures r.idx < TEXT_MAX < U64
  {
  }

  lemma HitDone(c: Job, r: Run, m: MatchingOutput)
    requires SegsValid(c.sk) && m.startPos < U64 && m.textStartPos < U64
    ensures OnHit(c, r, m).done == r.done + {m.startPos} && OnHit(c, r, m).idx == r.idx
  {
    hide SegsValid, Moves, Consume, QueueAfter, SegmentTailEnd, NextSegment;
  }

  lemma {:induction false} SampleRuns(m: nat, g: nat, n: nat, k: nat, pid: nat, x: nat) returns (r: Run)
    requires Starving(m, g, n, k) && AsJob(m, g, n, k, pid).sk.segs != [] && SegsValid(AsJob(m, g, n, k, pid).sk)
    requires x <= k
    ensures var c := AsJob(m, g, n, k, pid);
            Reached(c, r) && r.idx == x && Starved(c, 1 + m + g, g, r, x) && c.AllDone(x, r.done)
    decreases x
  {
    hide Encode, As, Stored, Starved, SegsValid, Reached, Job.AllDone, Off, AsJob;
    var c, o := AsJob(m, g, n, k, pid), 1 + m + g;
    JobOfAs(m, g, n, k, pid);
    if x == 0 {
      r := Initial(c);
      ReachedInitial(c);
      StarvedStart(m, g, n, k, pid);
      SampleDone(m, g, n, k, pid, 0, {});
    } else {
      var p := SampleRuns(m, g, n, k, pid, x - 1);
      NothingDue(c, o, g, p);
      ReachedStep(c, p, NextCode);
      var last := StarvedNext(m, g, n, k, pid, p, x - 1);
      var q := SeeAll(m, g, n, k, pid, p.(idx := x, done := {}), last);
      StarvedLast(c, o, g, q, last);
      if last == x {
        r := q;
      } else {
        AsOff(k, x);
        ReachedStep(c, q, Store(Item(pid, o, x)));
        StarvedStore(m, g, n, k, pid, q, Item(pid, o, x), last);
        r := OnStore(c, q, Item(pid, o, x));
      }
    }
  }

  lemma NothingDue(c: Job, o: nat, g: nat, r: Run)
    requires Starved(c, o, g, r, r.idx)
    ensures forall d :: d in r.queue && d.patternId == c.pid ==> d.readyCpIdx > r.idx
  {
  }

  lemma StarvedLast(c: Job, o: nat, g: nat, r: Run, last: nat)
    requires Starved(c, o, g, r, last)
    ensures o <= PATTERN_MAX && (last == r.idx || (last + 1 == r.idx && Item(c.pid, o, r.idx) in r.queue))
  {
    if last != r.idx {
      assert Queued(c, o, g, r, last, Item(c.pid, o, r.idx));
      assert r.queue[Item(c.pid, o, r.idx)] == 1;
    }
  }

  /** Too long a second literal: a text that matches is decided wrong. */
  lemma LongWrong(m: nat, g: nat, n: nat)
    requires Starving(m, g, n, 0)
    ensures IsSample(As(m), g, As(n)) && !AlwaysRight(Sample(As(m), g, As(n)))
  {
    hide Encode, As, Stored, Starved, SegsValid, Reached, Over, LikeEscape, SampleSkeleton, SamplePattern, IsSample,
         Sample, CompilesTo, Reads, Tokens;
    var k := m + g + n;
    AsSample(m, g, n);
    AsBytes(k);
    SampleValid(As(m), g, As(n), As(k), 0);
    var r := SampleRuns(m, g, n, k, 0, k);
    SampleOver(AsJob(m, g, n, k, 0), 1 + m + g, g, k, r);
    SampleMatches(m, g, n, k);
    SampleCompiles(As(m), g, As(n));
    WrongRun(As(m), g, As(n), As(k), r);
  }

  lemma WrongRun(u: seq<Code>, g: nat, v: seq<Code>, t: seq<Code>, r: Run)
    requires IsSample(u, g, v) && |Encode(t)| < TEXT_MAX && Ends(SampleJob(u, g, v, t, 0), r)
    requires CompilesTo(SampleSource(u, g, v), SampleSkeleton(Second(u, g), g), SamplePattern(u, g, v))
    requires !r.matched && LikeEscape(Sample(u, g, v), None, t)
    ensures !AlwaysRight(Sample(u, g, v))
  {
    hide Encode, Ends, LikeEscape, SampleSkeleton, SamplePattern, IsSample, Sample, CompilesTo, Reads, Tokens, Second;
    PlainTokens(Sample(u, g, v));
  }

  lemma SampleOver(c: Job, o: nat, g: nat, k: nat, r: Run)
    requires r.idx == k == |c.t| && c.AllDone(k, r.done) && Starved(c, o, g, r, k)
    ensures Over(c, r) && !r.matched
  {
    hide Job.AllDone, Stored;
  }

  /** Patterns `%u_..._v` whose literals and gap have lengths `m`, `n` and `g` are decided right on all texts
      exactly if `n` is at most `m + g + 2`. */
  lemma ShapeExact(m: nat, g: nat, n: nat)
    requires 0 < m && 0 < g && 0 < n && 1 + m + g + n <= PATTERN_MAX
    ensures ShapeRight(m, g, n) <==> n <= m + g + 2
  {
    hide AlwaysRight, IsSample, As, Encode;
    if n <= m + g + 2 {
      forall u, v | |u| == m && |v| == n && IsSample(u, g, v) ensures AlwaysRight(Sample(u, g, v)) {
        LengthBytes(u);
        ShortRight(u, g, v);
      }
    } else {
      LongWrong(m, g, n);
      assert |As(m)| == m && |As(n)| == n;
    }
  }

  /** Among the patterns that repeat one letter, the capacity bound is the exact condition. */
  lemma SampleExact(m: nat, g: nat, n: nat)
    requires 0 < m && 0 < g && 0 < n && 1 + m + g + n <= PATTERN_MAX
    ensures IsSample(As(m), g, As(n))
    ensures AlwaysRight(Sample(As(m), g, As(n))) <==> n <= m + g + 2
    ensures AlwaysRight(Sample(As(m), g, As(n))) <==>
            AllRoomy(SamplePattern(As(m), g, As(n)), CodeCaps(SampleSkeleton(Second(As(m), g), g)))
  {
    hide AlwaysRight, IsSample, As, Encode, AllRoomy, SampleSkeleton, SamplePattern, Second;
    AsSample(m, g, n);
    SampleRoomy(As(m), g, As(n));
    if n <= m + g + 2 { ShortRight(As(m), g, As(n)); } else { LongWrong(m, g, n); }
  }

  /** Longer second literals: no run over a text that repeats the letter ever reports a match. */
  lemma SampleNeverFound(m: nat, g: nat, n: nat, k: nat, pid: nat, r: Run)
    requires Starving(m, g, n, k) && AsJob(m, g, n, k, pid).sk.segs != [] && SegsValid(AsJob(m, g, n, k, pid).sk)
    requires Reached(AsJob(m, g, n, k, pid), r)
    ensures !r.matched && (m + g + n <= k ==> LikeEscape(Sample(As(m), g, As(n)), None, As(k)))
  {
    hide Encode, As, Stored, SegsValid, LikeEscape, ReachedIn, AsJob, Sample;
    var steps: nat :| ReachedIn(AsJob(m, g, n, k, pid), r, steps);
    var last := StarvedAlways(m, g, n, k, pid, r, steps);
    if m + g + n <= k { SampleMatches(m, g, n, k); }
  }
}
