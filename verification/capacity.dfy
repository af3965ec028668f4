/** How large a cache is large enough. Entries lie in the cache in the order in which they were stored, so
    what falls out is the oldest; if it is still waiting for its literal, all the others are no older than
    that literal is long. */
module Capacities {
  import opened Utf8
  import opened Layouts
  import opened Skeletons
  import opened LruCaches
  import opened Matchers
  import opened Alignments

  /** Offsets of the literals up to segment `s` that another literal of their segment follows. */
  ghost function Followed(pat: Pattern, s: nat): set<nat>
    requires s < |pat.lays|
  {
    set r: nat, j: nat | r <= s && j < |pat.lays[r].lits| && j + 1 < |pat.lays[r].lits| :: pat.lays[r].lits[j].off
  }

  /** The length in code points of the longest literal but the first, among the first `n`. */
  ghost function LongestLater(lay: Layout, n: nat): nat
    requires n <= |lay.lits|
  {
    if n < 2 then 0 else Max(LongestLater(lay, n - 1), |lay.lits[n - 1].codes|)
  }

  /** With a cache of capacity `cap`, no alignment of segment `s` is ever evicted while its next literal is still
      to come. */
  ghost predicate Roomy(pat: Pattern, s: nat, cap: nat)
    requires s < |pat.lays|
  {
    || (s == 0 && pat.anchored && |Followed(pat, s)| <= cap)
    || |Followed(pat, s)| * LongestLater(pat.lays[s], |pat.lays[s].lits|) <= cap
  }

  ghost predicate AllRoomy(pat: Pattern, caps: seq<nat>)
  {
    |caps| == |pat.lays| && forall s :: 0 <= s < |pat.lays| ==> Roomy(pat, s, caps[s])
  }

  /** But for a first segment tied to the start of the text, a literal that follows another in its segment has
      at most two code points. Patterns with one literal a segment are a special case. */
  ghost predicate ShortLater(pat: Pattern)
  {
    forall s :: 0 <= s < |pat.lays| && !(s == 0 && pat.anchored) ==>
                  forall j :: 0 < j < |pat.lays[s].lits| ==> |pat.lays[s].lits[j].codes| <= 2
  }

  // ----- the order of the cache -----

  /** What is further back was stored no later. */
  ghost predicate Ordered(c: Job, l: seq<Entry>)
  {
    forall a, b, r: nat, j: nat, x: nat, q: nat, k: nat, y: nat ::
      0 <= a < b < |l| && c.EntryAt(l[a], r, j, x) && c.EntryAt(l[b], q, k, y) ==> y <= x
  }

  /** An entry tells which literal it waits for, and from where. */
  lemma TagUnique(c: Job, e: Entry, r: nat, j: nat, x: nat, q: nat, k: nat, y: nat)
    requires c.pat.Valid() && c.EntryAt(e, r, j, x) && c.EntryAt(e, q, k, y)
    ensures r == q && j == k && x == y
  {
    hide Encode, Layout.Start, Layout.Width, Layout.Valid, Pattern.Valid, Diff, Off;
    OffsetsApart(c, r, j - 1, q, k - 1);
    SameLiteralKey(c, r, j, x, y);
  }

  lemma {:induction false} OrderedWithout(c: Job, l: seq<Entry>, key: nat)
    requires Ordered(c, l)
    ensures Ordered(c, Without(l, key))
    ensures forall e :: e in Without(l, key) ==> e in l
  {
    hide Job.EntryAt;
    if l != [] {
      OrderedTail(c, l);
      if l[0].key != key {
        OrderedWithout(c, l[1..], key);
        OrderedCons(c, l, Without(l[1..], key));
      }
    }
  }

  lemma OrderedTail(c: Job, l: seq<Entry>)
    requires Ordered(c, l) && l != []
    ensures Ordered(c, l[1..])
  {
    hide Job.EntryAt;
  }

  lemma OrderedCons(c: Job, l: seq<Entry>, w: seq<Entry>)
    requires Ordered(c, l) && l != [] && Ordered(c, w) && forall e :: e in w ==> e in l[1..]
    ensures Ordered(c, [l[0]] + w)
  {
    hide Job.EntryAt;
    var m := [l[0]] + w;
    forall b, r: nat, j: nat, x: nat, q: nat, k: nat, y: nat |
      0 < b < |m| && c.EntryAt(m[0], r, j, x) && c.EntryAt(m[b], q, k, y) ensures y <= x
    {
      assert m[b] in w;
      var i :| 0 <= i < |l[1..]| && l[1..][i] == m[b];
      assert l[i + 1] == m[b];
    }
    assert forall b :: 0 < b < |m| ==> m[b] == w[b - 1];
  }

  /** A new entry goes to the front. */
  lemma OrderedUpserted(c: Job, s: nat, g: nat, idx: nat, l: seq<Entry>, e: Entry, cap: nat, r: nat, j: nat)
    requires c.pat.Valid() && Ordered(c, l) && c.EntriesSound(s, g, idx, l) && c.EntryAt(e, r, j, idx)
    ensures Ordered(c, [e] + Without(l, e.key)) && Ordered(c, Upserted(l, e, cap))
  {
    hide Job.EntryAt, Job.EntriesSound, Pattern.Valid, Without;
    OrderedWithout(c, l, e.key);
    var w := Without(l, e.key);
    var m := [e] + w;
    forall b, q: nat, k: nat, y: nat, r1: nat, j1: nat, x1: nat |
      0 < b < |m| && c.EntryAt(m[0], r1, j1, x1) && c.EntryAt(m[b], q, k, y) ensures y <= x1
    {
      TagUnique(c, e, r, j, idx, r1, j1, x1);
      assert m[b] in w;
      TagEarly(c, s, g, idx, l, m[b], q, k, y);
    }
    assert forall b :: 0 < b < |m| ==> m[b] == w[b - 1];
  }

  lemma TagEarly(c: Job, s: nat, g: nat, idx: nat, l: seq<Entry>, e: Entry, r: nat, j: nat, x: nat)
    requires c.pat.Valid() && c.EntriesSound(s, g, idx, l) && e in l && c.EntryAt(e, r, j, x)
    ensures x <= idx
  {
    hide Job.EntryAt, Pattern.Valid, Job.Due;
    var q: nat, k: nat, y: nat :| c.EntryAt(e, q, k, y) && y <= idx;
    TagUnique(c, e, r, j, x, q, k, y);
  }

  // ----- counting -----

  ghost predicate Waits(c: Job, s: nat, e: Entry, x: nat)
  {
    exists r: nat, j: nat :: c.EntryAt(e, r, j, x) && r <= s < |c.pat.lays|
  }

  lemma SubsetSmaller(a: set<nat>, b: set<nat>)
    requires a <= b
    ensures |a| <= |b|
  {
    assert b == a + (b - a);
  }

  ghost function Prevs(l: seq<Entry>): set<nat>
  {
    set k | 0 <= k < |l| :: l[k].prev
  }

  /** Entries that wait from the same place wait for different literals. */
  lemma SamePlace(c: Job, s: nat, e: Entry, f: Entry, x: nat)
    requires c.pat.Valid() && Waits(c, s, e, x) && Waits(c, s, f, x) && e.prev == f.prev
    ensures e.key == f.key
  {
    hide Encode, Layout.Start, Layout.Width, Layout.Valid, Pattern.Valid, Diff, Off;
    var r: nat, j: nat :| c.EntryAt(e, r, j, x) && r <= s < |c.pat.lays|;
    var q: nat, k: nat :| c.EntryAt(f, q, k, x) && q <= s < |c.pat.lays|;
    OffsetsApart(c, r, j - 1, q, k - 1);
  }

  lemma WaitsFollowed(c: Job, s: nat, e: Entry, x: nat)
    requires s < |c.pat.lays| && Waits(c, s, e, x)
    ensures e.prev in Followed(c.pat, s)
  {
    hide Encode, Layout.Start, Layout.Width, Layout.Valid, Pattern.Valid, Diff, Off;
    var r: nat, j: nat :| c.EntryAt(e, r, j, x) && r <= s < |c.pat.lays|;
    assert c.pat.lays[r].lits[j - 1].off in Followed(c.pat, s);
  }

  /** `Place(e)` is where `e` waits from; `l` has no more entries than there are literals per place. */
  lemma {:induction false} DistinctPrevs(l: seq<Entry>)
    requires forall a, b :: 0 <= a < b < |l| ==> l[a].prev != l[b].prev
    ensures |Prevs(l)| == |l|
  {
    if l != [] {
      var n := |l| - 1;
      DistinctPrevs(l[..n]);
      assert Prevs(l) == Prevs(l[..n]) + {l[n].prev};
      assert l[n].prev !in Prevs(l[..n]);
    }
  }

  lemma OnePerLiteral(l: seq<Entry>, f: set<nat>)
    requires forall a, b :: 0 <= a < b < |l| ==> l[a].prev != l[b].prev
    requires forall e :: e in l ==> e.prev in f
    ensures |l| <= |f|
  {
    DistinctPrevs(l);
    SubsetSmaller(Prevs(l), f);
  }

  ghost predicate WaitsWithin(c: Job, s: nat, e: Entry, x: nat, y: nat)
  {
    exists z: nat :: x <= z < y && Waits(c, s, e, z)
  }

  /** All entries wait from `x` or later, and before `y`. */
  ghost predicate Window(c: Job, s: nat, l: seq<Entry>, x: nat, y: nat)
  {
    forall k :: 0 <= k < |l| ==> WaitsWithin(c, s, l[k], x, y)
  }

  /** Split off the entries that wait from `y - 1`: they are in front. */
  lemma SplitWindow(c: Job, s: nat, l: seq<Entry>, x: nat, y: nat) returns (n: nat)
    requires c.pat.Valid() && Ordered(c, l) && x < y && Window(c, s, l, x, y)
    ensures n <= |l|
    ensures forall k :: 0 <= k < n ==> Waits(c, s, l[k], y - 1)
    ensures Window(c, s, l[n..], x, y - 1)
  {
    hide Job.EntryAt, Pattern.Valid;
    n := 0;
    while n < |l| && Waits(c, s, l[n], y - 1)
      invariant n <= |l| && forall k :: 0 <= k < n ==> Waits(c, s, l[k], y - 1)
    {
      n := n + 1;
    }
    forall k | 0 <= k < |l[n..]| ensures WaitsWithin(c, s, l[n..][k], x, y - 1) {
      assert WaitsWithin(c, s, l[n + k], x, y) && WaitsWithin(c, s, l[n], x, y);
      var z: nat :| x <= z < y && Waits(c, s, l[n + k], z);
      var w: nat :| x <= w < y && Waits(c, s, l[n], w);
      NotLater(c, s, l, n, n + k, w, z);
      assert x <= z < y - 1 && Waits(c, s, l[n..][k], z);
    }
  }

  lemma NotLater(c: Job, s: nat, l: seq<Entry>, a: nat, b: nat, x: nat, y: nat)
    requires c.pat.Valid() && Ordered(c, l) && a <= b < |l| && Waits(c, s, l[a], x) && Waits(c, s, l[b], y)
    ensures y <= x
  {
    hide Job.EntryAt, Pattern.Valid;
    var r: nat, j: nat :| c.EntryAt(l[a], r, j, x) && r <= s < |c.pat.lays|;
    var q: nat, k: nat :| c.EntryAt(l[b], q, k, y) && q <= s < |c.pat.lays|;
    if a == b { TagUnique(c, l[a], r, j, x, q, k, y); }
  }

  lemma OrderedSuffix(c: Job, l: seq<Entry>, n: nat)
    requires Ordered(c, l) && n <= |l|
    ensures Ordered(c, l[n..])
  {
    hide Job.EntryAt;
    assert forall k :: 0 <= k < |l[n..]| ==> l[n..][k] == l[n + k];
  }

  /** At most one entry per literal and place. */
  lemma {:induction false} CountWindow(c: Job, s: nat, l: seq<Entry>, x: nat, y: nat)
    requires c.pat.Valid() && s < |c.pat.lays| && Ordered(c, l) && DistinctKeys(l) && x <= y && Window(c, s, l, x, y)
    ensures |l| <= |Followed(c.pat, s)| * (y - x)
    decreases y - x
  {
    hide Job.EntryAt, Pattern.Valid, Followed, Ordered, Waits;
    if x == y {
      assert l != [] ==> WaitsWithin(c, s, l[0], x, y);
    } else {
      var n := SplitWindow(c, s, l, x, y);
      var front := l[..n];
      forall a, b | 0 <= a < b < n ensures front[a].prev != front[b].prev {
        if front[a].prev == front[b].prev { SamePlace(c, s, front[a], front[b], y - 1); }
      }
      forall e | e in front ensures e.prev in Followed(c.pat, s) { WaitsFollowed(c, s, e, y - 1); }
      OnePerLiteral(front, Followed(c.pat, s));
      OrderedSuffix(c, l, n);
      CountWindow(c, s, l[n..], x, y - 1);
      var f := |Followed(c.pat, s)|;
      assert f * (y - x) == f * (y - 1 - x) + f;
    }
  }

  // ----- the two bounds -----

  lemma {:induction false} LongestIs(lay: Layout, n: nat, j: nat)
    requires 0 < j < n <= |lay.lits|
    ensures |lay.lits[j].codes| <= LongestLater(lay, n)
  {
    if j < n - 1 { LongestIs(lay, n - 1, j); }
  }

  lemma MoreRows(f: nat, a: nat, b: nat)
    requires a <= b
    ensures f * a <= f * b
  {
  }

  /** All entries, the evicted one last, wait from the code points of its literal. */
  lemma LiveWindow(c: Job, s: nat, g: nat, idx: nat, m: seq<Entry>, j: nat, x: nat)
    requires c.pat.Valid() && s < |c.pat.lays| && Ordered(c, m) && c.EntriesSound(s, g, idx, m) && m != []
    requires c.EntryAt(m[|m| - 1], s, j, x) && x <= idx
    ensures Window(c, s, m, x, idx + 1)
  {
    hide Job.EntryAt, Pattern.Valid, Job.Due;
    forall k | 0 <= k < |m| ensures WaitsWithin(c, s, m[k], x, idx + 1) {
      assert m[k] in m && c.EntryOk(s, g, idx, m[k]);
      var r: nat, i: nat, y: nat :| c.EntryAt(m[k], r, i, y) && y <= idx && r <= s;
      assert Waits(c, s, m[k], y);
      assert Waits(c, s, m[|m| - 1], x);
      NotLater(c, s, m, k, |m| - 1, y, x);
    }
  }

  lemma TooManyLive(c: Job, s: nat, g: nat, idx: nat, m: seq<Entry>)
    requires c.pat.Valid() && s < |c.pat.lays| && Ordered(c, m) && DistinctKeys(m) && c.EntriesSound(s, g, idx, m)
    requires m != [] && c.LiveEntry(s, idx, m[|m| - 1])
    ensures |m| <= |Followed(c.pat, s)| * LongestLater(c.pat.lays[s], |c.pat.lays[s].lits|)
  {
    hide Pattern.Valid, Ordered, DistinctKeys, Job.EntriesSound, Followed, LongestLater, Window, Occurs, Job.EntryAt;
    var j, x := LivePlace(c, s, idx, m[|m| - 1]);
    LiveWindow(c, s, g, idx, m, j, x);
    CountWindow(c, s, m, x, idx + 1);
    LongestIs(c.pat.lays[s], |c.pat.lays[s].lits|, j);
    MoreRows(|Followed(c.pat, s)|, idx + 1 - x, LongestLater(c.pat.lays[s], |c.pat.lays[s].lits|));
  }

  lemma LivePlace(c: Job, s: nat, idx: nat, e: Entry) returns (j: nat, x: nat)
    requires s < |c.pat.lays| && c.LiveEntry(s, idx, e)
    ensures c.EntryAt(e, s, j, x) && 0 < j < |c.pat.lays[s].lits| && x <= idx < x + |c.pat.lays[s].lits[j].codes|
  {
    hide Layout.Valid, Occurs;
    j, x :| c.EntryAt(e, s, j, x) && x <= idx < x + |c.Codes(s, j)| && Occurs(c.Codes(s, j), c.t, x);
  }

  /** A segment tied to the start of the text has one alignment. */
  lemma TiedPlace(c: Job, g: nat, idx: nat, e: Entry, f: Entry)
    requires c.pat.Valid() && c.pat.lays != [] && c.pat.anchored
    requires c.EntryOk(0, g, idx, e) && c.EntryOk(0, g, idx, f) && e.prev == f.prev
    ensures e.key == f.key
  {
    hide Encode, Layout.Width, Layout.Valid, Pattern.Valid, Diff, Off, Layout.Start, Good, Match;
    var r: nat, j: nat, x: nat :| c.EntryAt(e, r, j, x) && x <= idx && r <= 0 && (r == 0 ==> c.Due(0, g, j, x));
    var q: nat, k: nat, y: nat :| c.EntryAt(f, q, k, y) && y <= idx && q <= 0 && (q == 0 ==> c.Due(0, g, k, y));
    OffsetsApart(c, 0, j - 1, 0, k - 1);
  }

  lemma TiedCount(c: Job, g: nat, idx: nat, m: seq<Entry>)
    requires c.pat.Valid() && c.pat.lays != [] && c.pat.anchored && DistinctKeys(m) && c.EntriesSound(0, g, idx, m)
    ensures |m| <= |Followed(c.pat, 0)|
  {
    hide Pattern.Valid, Job.EntryOk, Followed;
    forall a, b | 0 <= a < b < |m| ensures m[a].prev != m[b].prev {
      if m[a].prev == m[b].prev { TiedPlace(c, g, idx, m[a], m[b]); }
    }
    forall e | e in m ensures e.prev in Followed(c.pat, 0) { OkFollowed(c, 0, g, idx, e); }
    OnePerLiteral(m, Followed(c.pat, 0));
  }

  lemma OkFollowed(c: Job, s: nat, g: nat, idx: nat, e: Entry)
    requires s < |c.pat.lays| && c.EntryOk(s, g, idx, e)
    ensures e.prev in Followed(c.pat, s)
  {
    hide Job.EntryAt, Job.Due, Followed;
    var r: nat, j: nat, x: nat :| c.EntryAt(e, r, j, x) && x <= idx && r <= s;
    WaitsFollowed(c, s, e, x);
  }

  /** No two numbers of the set are neighbours. */
  lemma {:induction false} SpacedSet(a: set<nat>, n: nat)
    requires forall x :: x in a ==> x < n
    requires forall x, y :: x in a && y in a && x < y ==> x + 1 < y
    ensures 2 * |a| <= n + 1
    decreases n
  {
    if n == 0 {
      assert a == {};
    } else {
      var b := a - {n - 1};
      if n - 1 !in a {
        SpacedSet(a, n - 1);
      } else {
        assert a == b + {n - 1} && (n == 1 ==> b == {});
        if n > 1 {
          assert n - 2 !in a;
          SpacedSet(b, n - 2);
        }
      }
    }
  }

  /** Literals are not empty and something stands between two of them, so their offsets are spaced. */
  lemma FollowedSpaced(c: Job, s: nat)
    requires c.Valid() && c.pat.Valid() && s < |c.pat.lays|
    ensures 2 * |Followed(c.pat, s)| <= LruCapForSegment(c.sk.segs[s])
  {
    hide Encode, Layout.Width, Layout.Start, Pattern.Valid, Job.Valid;
    SegmentsCount(c);
    var a, n := Followed(c.pat, s), LastOffset(c, s);
    forall x | x in a ensures x < n {
      var r: nat, j: nat := Follower(c, s, x);
      var m := |c.pat.lays[s].lits| - 1;
      LitsValid(c, s, m);
      LitsValid(c, r, j);
      OffsetsApart(c, r, j, s, m);
    }
    forall x, y | x in a && y in a && x < y ensures x + 1 < y {
      var r: nat, j: nat := Follower(c, s, x);
      var q: nat, k: nat := Follower(c, s, y);
      LitsValid(c, r, j);
      LitsValid(c, q, k);
      OffsetsApart(c, r, j, q, k);
      LiteralBytes(c, r, j);
    }
    SpacedSet(a, n);
    CapLast(c, s);
  }

  lemma CapLast(c: Job, s: nat)
    requires c.Valid() && s < |c.pat.lays|
    ensures LruCapForSegment(c.sk.segs[s]) >= LastOffset(c, s) + 1
  {
    hide Encode, Pattern.Valid, Layout.Valid;
    ShownOffset(c, s);
  }

  ghost function LastOffset(c: Job, s: nat): nat
    requires c.Valid() && s < |c.pat.lays|
  {
    c.pat.lays[s].lits[|c.pat.lays[s].lits| - 1].off
  }

  lemma Follower(c: Job, s: nat, x: nat) returns (r: nat, j: nat)
    requires s < |c.pat.lays| && x in Followed(c.pat, s)
    ensures r <= s && j + 1 < |c.pat.lays[r].lits| && x == c.pat.lays[r].lits[j].off
  {
    r, j :| r <= s && j < |c.pat.lays[r].lits| && j + 1 < |c.pat.lays[r].lits| && x == c.pat.lays[r].lits[j].off;
  }

  lemma LitsValid(c: Job, s: nat, j: nat)
    requires c.pat.Valid() && s < |c.pat.lays| && j < |c.pat.lays[s].lits|
    ensures c.IsLit(s, j)
  {
    ValidAt(c.pat, s);
  }

  lemma LiteralBytes(c: Job, s: nat, j: nat)
    requires c.pat.Valid() && c.IsLit(s, j)
    ensures |Encode(c.Codes(s, j))| > 0
  {
    hide Encode, Layout.Start, Layout.Width;
    var l := c.Codes(s, j);
    OffEnds(l);
    OffMonotone(l, 0, |l|);
  }

  /** Evicting an alignment whose literal is still to come takes a cache that is too small. */
  lemma EvictionNotRoomy(c: Job, s: nat, g: nat, idx: nat, l: seq<Entry>, e: Entry, cap: nat, r: nat, j: nat, z: Entry)
    requires c.Valid() && c.pat.Valid() && s < |c.pat.lays|
    requires c.EntriesSound(s, g, idx, l) && DistinctKeys(l) && Ordered(c, l) && c.EntryOk(s, g, idx, e)
    requires c.EntryAt(e, r, j, idx)
    requires z in Evicted(l, e, cap) && c.LiveEntry(s, idx, z)
    ensures !Roomy(c.pat, s, cap)
  {
    hide Pattern.Valid, Job.Valid, Ordered, DistinctKeys, Job.EntryOk, Followed, LongestLater, Job.LiveEntry, Without,
         HasKey, Job.EntryAt;
    var m := [e] + Without(l, e.key);
    WithoutFacts(l, e.key);
    PushKey(Without(l, e.key), e);
    OrderedUpserted(c, s, g, idx, l, e, 0, r, j);
    assert c.EntriesSound(s, g, idx, m);
    assert z == m[|m| - 1] && |m| > cap;
    TooManyLive(c, s, g, idx, m);
    if s == 0 && c.pat.anchored {
      SegmentsCount(c);
      TiedCount(c, g, idx, m);
    }
  }

  // ----- patterns that need no condition -----

  /** For such patterns the caches the code picks are always large enough. */
  lemma ShortRoomy(c: Job)
    requires c.Valid() && c.pat.Valid() && ShortLater(c.pat)
    ensures AllRoomy(c.pat, CodeCaps(c.sk))
  {
    hide Pattern.Valid, Job.Valid, Followed, LruCapForSegment;
    SegmentsCount(c);
    forall s | 0 <= s < |c.pat.lays| ensures Roomy(c.pat, s, CodeCaps(c.sk)[s]) {
      FollowedSpaced(c, s);
      if !(s == 0 && c.pat.anchored) {
        var lay := c.pat.lays[s];
        ShortLongest(lay, |lay.lits|);
        MoreRows(|Followed(c.pat, s)|, LongestLater(lay, |lay.lits|), 2);
      }
    }
  }

  /** A bound on the pattern alone: where a segment is not tied to the start of the text, as many literals as another
      one follows, times the longest of those, is no more than one above its longest run of underscores, or one above
      the offset of its last literal. */
  ghost predicate Fitted(pat: Pattern)
  {
    forall s :: 0 <= s < |pat.lays| && !(s == 0 && pat.anchored) ==> FittedAt(pat, s)
  }

  ghost predicate FittedAt(pat: Pattern, s: nat)
    requires s < |pat.lays|
  {
    var lay := pat.lays[s];
    var n := |Followed(pat, s)| * LongestLater(lay, |lay.lits|);
    lay.Valid() && lay.lits != [] && (n <= MaxRun(lay) + 1 || n <= lay.lits[|lay.lits| - 1].off + 1)
  }

  /** The capacity of a segment whose longest run of underscores is known: the larger of the two, and no more. */
  lemma CapExact(c: Job, s: nat)
    requires c.Valid() && c.pat.Valid() && s < |c.pat.lays|
    requires |c.sk.segs| == |c.pat.lays| && c.pat.lays[s].Valid()
    requires c.sk.segs[s].maxUnderscoreCnt == MaxRun(c.pat.lays[s])
    ensures LruCapForSegment(c.sk.segs[s]) >= MaxRun(c.pat.lays[s]) + 1
    ensures LruCapForSegment(c.sk.segs[s]) >= LastOffset(c, s) + 1
    ensures LruCapForSegment(c.sk.segs[s]) == MaxRun(c.pat.lays[s]) + 1
            || LruCapForSegment(c.sk.segs[s]) == LastOffset(c, s) + 1
  {
    hide Encode, Pattern.Valid, Layout.Valid, MaxRun;
    ShownOffset(c, s);
  }

  /** For such patterns the caches the code picks are large enough too. */
  lemma FittedRoomy(c: Job)
    requires c.Valid() && c.pat.Valid() && Fitted(c.pat) && |c.sk.segs| == |c.pat.lays|
    requires forall s :: 0 <= s < |c.pat.lays| ==>
                           c.pat.lays[s].Valid() && c.sk.segs[s].maxUnderscoreCnt == MaxRun(c.pat.lays[s])
    ensures AllRoomy(c.pat, CodeCaps(c.sk))
  {
    hide Pattern.Valid, Job.Valid, Followed, LruCapForSegment, MaxRun, Layout.Valid, LongestLater;
    SegmentsCount(c);
    forall s | 0 <= s < |c.pat.lays| ensures Roomy(c.pat, s, CodeCaps(c.sk)[s]) {
      if s == 0 && c.pat.anchored {
        FollowedSpaced(c, s);
      } else {
        assert FittedAt(c.pat, s);
        CapExact(c, s);
      }
    }
  }

  lemma {:induction false} ShortLongest(lay: Layout, n: nat)
    requires n <= |lay.lits| && forall j :: 0 < j < |lay.lits| ==> |lay.lits[j].codes| <= 2
    ensures LongestLater(lay, n) <= 2
  {
    if n >= 2 { ShortLongest(lay, n - 1); }
  }
}
