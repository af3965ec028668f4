/** The positional matcher of one pattern: which segment is next, from which text offset on, and which
    alignments of that segment are still alive. */
module Matchers {
  import opened Options
  import opened Utf8
  import opened LruCaches
  import opened DelayQueues
  import opened Skeletons

  const U64 := 0x1_0000_0000_0000_0000
  const U32 := 0x1_0000_0000

  /** Unsigned 64-bit subtraction. */
  function Diff(a: nat, b: nat): nat
    requires a < U64 && b < U64
  {
    if b <= a then a - b else a + U64 - b
  }

  lemma DiffIs(a: nat, b: nat)
    requires a < 0x1_0000_0000_0000_0000 && b < 0x1_0000_0000_0000_0000
    ensures Diff(a, b) == (a - b) % 0x1_0000_0000_0000_0000
  {
  }

  /** A hit of the automaton: literal `startPos` of a pattern stands at byte `textStartPos`. */
  datatype MatchingOutput = MatchingOutput(patternId: nat, startPos: nat, literalLen: nat, textStartPos: nat)

  // ----- helpers that walk the text -----

  /** `count` code points forward from byte `from`, if the text is long enough. */
  function Advance(text: seq<byte>, from: nat, count: nat): Option<nat>
    decreases count
  {
    if count == 0 then Some(from)
    else if from >= |text| then None
    else Advance(text, ReadCodePoint(text, from).next, count - 1)
  }

  method Utf8Advance(text: seq<byte>, from: nat, count: nat) returns (r: Option<nat>)
    ensures r == Advance(text, from, count)
  {
    hide ReadCodePoint;
    var cur: nat := from;
    var idx: nat := 0;
    while idx < count
      invariant idx <= count && Advance(text, cur, count - idx) == Advance(text, from, count)
    {
      if cur >= |text| { return None; }
      cur := ReadCodePoint(text, cur).next;
      idx := idx + 1;
    }
    return Some(cur);
  }

  lemma {:induction false} AdvanceEncoded(t: seq<Code>, i: nat, count: nat)
    requires i <= |t|
    ensures Advance(Encode(t), Off(t, i), count) == if i + count <= |t| then Some(Off(t, i + count)) else None
    decreases count
  {
    hide Encode, Off, ReadCodePoint;
    OffEnds(t);
    OffOrder(t, i, |t|);
    if count > 0 && i < |t| {
      ReadAt(t, i);
      AdvanceEncoded(t, i + 1, count - 1);
    }
  }

  function LruCapForSegment(seg: Segment): (cap: nat)
    ensures seg.literalOffset == [] ==> cap == seg.maxUnderscoreCnt + 1
    ensures seg.literalOffset != [] ==>
              var last := seg.literalOffset[|seg.literalOffset| - 1];
              cap > seg.maxUnderscoreCnt && cap > last && (cap == seg.maxUnderscoreCnt + 1 || cap == last + 1)
  {
    if seg.literalOffset == [] then seg.maxUnderscoreCnt + 1
    else Max(seg.maxUnderscoreCnt + 1, seg.literalOffset[|seg.literalOffset| - 1] + 1)
  }

  function SegmentTailEnd(sk: Skeleton, m: MatchingOutput, currSegmentIdx: nat, text: seq<byte>): Option<nat>
    requires currSegmentIdx < |sk.segs|
  {
    Advance(text, m.textStartPos + m.literalLen, sk.segs[currSegmentIdx].suffixUnderscoreCnt)
  }

  predicate ValidLastLiteral(sk: Skeleton, currSegmentIdx: nat, tailEnd: nat, textLength: nat)
    requires sk.segs != []
  {
    currSegmentIdx + 1 < |sk.segs| || sk.segs[|sk.segs| - 1].hasSuffixPercent || tailEnd == textLength
  }

  // ----- what one hit does, on values -----

  datatype MatcherState = MatcherState(segmentIdx: nat, minTextStartPos: nat, entries: seq<Entry>, cap: nat)

  /** The capacities the code picks, segment by segment. */
  ghost function CodeCaps(sk: Skeleton): (caps: seq<nat>)
    ensures |caps| == |sk.segs| && forall s :: 0 <= s < |caps| ==> caps[s] == LruCapForSegment(sk.segs[s])
  {
    seq(|sk.segs|, s requires 0 <= s < |sk.segs| => LruCapForSegment(sk.segs[s]))
  }

  ghost function CapAt(caps: seq<nat>, s: nat): nat
  {
    if s < |caps| then caps[s] else 0
  }

  ghost function InitialState(caps: seq<nat>): MatcherState
  {
    MatcherState(0, 0, [], CapAt(caps, 0))
  }

  ghost predicate SegsValid(sk: Skeleton)
  {
    forall s :: 0 <= s < |sk.segs| ==> sk.segs[s].Valid()
  }

  /** The hit belongs to the current segment and does not start too early. */
  ghost predicate Relevant(sk: Skeleton, st: MatcherState, m: MatchingOutput)
  {
    st.segmentIdx < |sk.segs| && sk.segs[st.segmentIdx].Contain(m.startPos) && st.minTextStartPos <= m.textStartPos
  }

  /** The first literal of the segment stands where it may. */
  ghost predicate FirstFits(sk: Skeleton, st: MatcherState, m: MatchingOutput, text: seq<byte>)
    requires st.segmentIdx < |sk.segs|
  {
    var seg := sk.segs[st.segmentIdx];
    var head := Advance(text, st.minTextStartPos, seg.prefixUnderscoreCnt);
    && head.Some?
    && (if seg.hasPrefixPercent then head.value <= m.textStartPos
        else st.segmentIdx == 0 && m.textStartPos == head.value)
  }

  ghost function KeyOf(m: MatchingOutput): nat
    requires m.textStartPos < U64 && m.startPos < U64
  {
    Diff(m.textStartPos, m.startPos)
  }

  ghost predicate Fits(sk: Skeleton, st: MatcherState, m: MatchingOutput, text: seq<byte>)
    requires SegsValid(sk) && m.textStartPos < U64 && m.startPos < U64
  {
    Relevant(sk, st, m) &&
    var seg := sk.segs[st.segmentIdx];
    if seg.IsFirstLiteral(m.startPos) then FirstFits(sk, st, m, text)
    else exists e :: e in st.entries && e.key == KeyOf(m) && seg.IsPreviousLiteral(e.prev, m.startPos)
  }

  /** A hit that asks the cache uses the alignment up, whether or not it is the right one. */
  ghost function Consume(sk: Skeleton, st: MatcherState, m: MatchingOutput): MatcherState
    requires m.textStartPos < U64 && m.startPos < U64
  {
    if Relevant(sk, st, m) && !sk.segs[st.segmentIdx].IsFirstLiteral(m.startPos)
    then st.(entries := Without(st.entries, KeyOf(m))) else st
  }

  ghost function Scheduled(sk: Skeleton, st: MatcherState, m: MatchingOutput, cpIdx: nat): multiset<DelayedMatch>
    requires SegsValid(sk) && Relevant(sk, st, m)
  {
    var seg := sk.segs[st.segmentIdx];
    if seg.IsLastLiteral(m.startPos) then multiset{}
    else
      var next := seg.GetNextLiteralOffset(m.startPos);
      multiset{DelayedMatch(m.patternId, next, m.startPos, (next - m.startPos - m.literalLen) % 0x1_0000_0000 + cpIdx)}
  }

  /** The state behind the current segment, with caches of these capacities. */
  ghost function NextSegment(sk: Skeleton, caps: seq<nat>, st: MatcherState, minStart: nat): MatcherState
  {
    var s := st.segmentIdx + 1;
    if s < |sk.segs| then MatcherState(s, minStart, [], CapAt(caps, s))
    else MatcherState(s, minStart, st.entries, st.cap)
  }

  class Matcher {
    var segmentIdx: nat
    var minTextStartPos: nat
    const match_: LRUCache

    ghost predicate Valid()
      reads this, match_
    {
      match_.Valid()
    }

    ghost function State(): MatcherState
      reads this, match_
    {
      MatcherState(segmentIdx, minTextStartPos, match_.Contents(), match_.maxSize)
    }

    constructor (maxSize: nat)
      ensures Valid() && fresh(match_) && State() == MatcherState(0, 0, [], maxSize)
    {
      segmentIdx, minTextStartPos := 0, 0;
      match_ := new LRUCache(maxSize);
    }

    method Reset(maxSize: nat)
      modifies this, match_
      ensures Valid() && State() == MatcherState(0, 0, [], maxSize)
    {
      segmentIdx, minTextStartPos := 0, 0;
      match_.Reset(maxSize);
    }

    method Upsert(key: nat, cursor: nat)
      requires Valid()
      modifies match_
      ensures Valid()
      ensures State() == old(State()).(entries := Upserted(old(State()).entries, Entry(key, cursor), old(State()).cap))
    {
      match_.Upsert(key, cursor);
    }

    method TryMatchingLiteral(sk: Skeleton, m: MatchingOutput, currCpIndex: nat, delayQueue: DelayedMatchQueue,
                              text: seq<byte>)
      returns (ok: bool)
      requires Valid() && SegsValid(sk) && m.textStartPos < U64 && m.startPos < U64 && delayQueue.Valid()
      modifies match_, delayQueue
      ensures Valid() && delayQueue.Valid()
      ensures ok <==> Fits(sk, old(State()), m, text)
      ensures State() == Consume(sk, old(State()), m)
      ensures delayQueue.queue == old(delayQueue.queue) +
                (if ok then Scheduled(sk, old(State()), m, currCpIndex) else multiset{})
    {
      hide Advance, Segment.Valid, Without, Diff, U64, Fits, Consume, Scheduled, FirstFits, Relevant, HasKey,
           LRUCache.Valid, LRUCache.Contents, DelayedMatchQueue.Valid;
      ghost var st := State();
      if segmentIdx >= |sk.segs| {
        IrrelevantHit(sk, st, m, text);
        return false;
      }
      var segment := sk.segs[segmentIdx];
      var patPos := m.startPos;
      if !segment.Contain(patPos) || m.textStartPos < minTextStartPos {
        IrrelevantHit(sk, st, m, text);
        return false;
      }
      ScheduledHit(sk, st, m, currCpIndex);
      if segment.IsFirstLiteral(patPos) {
        FirstHit(sk, st, m, text);
        var headEnd := Utf8Advance(text, minTextStartPos, segment.prefixUnderscoreCnt);
        if headEnd == None { return false; }
        if segment.hasPrefixPercent {
          if m.textStartPos < headEnd.value { return false; }
        } else if segmentIdx != 0 || m.textStartPos != headEnd.value {
          return false;
        }
      } else {
        var diff := Diff(m.textStartPos, patPos);
        LaterHit(sk, st, m, text);
        WithoutOne(match_, diff);
        var c := match_.Contain(diff);
        if !c { return false; }
        var prev := match_.GetAndRemove(diff);
        if !segment.IsPreviousLiteral(prev, patPos) { return false; }
      }
      if !segment.IsLastLiteral(patPos) {
        var nextOffset := segment.GetNextLiteralOffset(patPos);
        var underscoreCnt := (nextOffset - patPos - m.literalLen) % U32;
        delayQueue.Schedule(m.patternId, underscoreCnt + currCpIndex, nextOffset, patPos);
      }
      return true;
    }

    method AdvanceNextSegment(sk: Skeleton, minTextNextStartPos: nat) returns (more: bool)
      requires Valid()
      modifies this, match_
      ensures Valid()
      ensures State() == NextSegment(sk, CodeCaps(sk), old(State()), minTextNextStartPos)
      ensures more <==> old(segmentIdx) + 1 < |sk.segs|
    {
      segmentIdx := segmentIdx + 1;
      minTextStartPos := minTextNextStartPos;
      if segmentIdx < |sk.segs| {
        match_.Reset(LruCapForSegment(sk.segs[segmentIdx]));
        return true;
      }
      return false;
    }
  }

  lemma IrrelevantHit(sk: Skeleton, st: MatcherState, m: MatchingOutput, text: seq<byte>)
    requires SegsValid(sk) && m.textStartPos < U64 && m.startPos < U64
    requires st.segmentIdx >= |sk.segs| || !sk.segs[st.segmentIdx].Contain(m.startPos)
             || m.textStartPos < st.minTextStartPos
    ensures !Fits(sk, st, m, text) && Consume(sk, st, m) == st
  {
  }

  lemma FirstHit(sk: Skeleton, st: MatcherState, m: MatchingOutput, text: seq<byte>)
    requires SegsValid(sk) && m.textStartPos < U64 && m.startPos < U64
    requires st.segmentIdx < |sk.segs| && sk.segs[st.segmentIdx].Contain(m.startPos)
    requires st.minTextStartPos <= m.textStartPos && sk.segs[st.segmentIdx].IsFirstLiteral(m.startPos)
    ensures var seg, head := sk.segs[st.segmentIdx],
                             Advance(text, st.minTextStartPos, sk.segs[st.segmentIdx].prefixUnderscoreCnt);
            Fits(sk, st, m, text) <==>
            head.Some? && if seg.hasPrefixPercent then head.value <= m.textStartPos
                          else st.segmentIdx == 0 && m.textStartPos == head.value
    ensures Consume(sk, st, m) == st
  {
    hide Advance;
  }

  lemma LaterHit(sk: Skeleton, st: MatcherState, m: MatchingOutput, text: seq<byte>)
    requires SegsValid(sk) && m.textStartPos < U64 && m.startPos < U64
    requires st.segmentIdx < |sk.segs| && sk.segs[st.segmentIdx].Contain(m.startPos)
    requires st.minTextStartPos <= m.textStartPos && !sk.segs[st.segmentIdx].IsFirstLiteral(m.startPos)
    ensures var key := Diff(m.textStartPos, m.startPos);
            && (HasKey(st.entries, key) || (!Fits(sk, st, m, text) && Consume(sk, st, m) == st))
            && Consume(sk, st, m) == st.(entries := Without(st.entries, key))
            && (Fits(sk, st, m, text) <==>
                exists e :: e in st.entries && e.key == key
                            && sk.segs[st.segmentIdx].IsPreviousLiteral(e.prev, m.startPos))
  {
    hide Diff, U64, Segment.Valid;
    KeysAbsent(st.entries, Diff(m.textStartPos, m.startPos));
  }

  lemma ScheduledHit(sk: Skeleton, st: MatcherState, m: MatchingOutput, cpIdx: nat)
    requires SegsValid(sk) && st.segmentIdx < |sk.segs| && sk.segs[st.segmentIdx].Contain(m.startPos)
    requires st.minTextStartPos <= m.textStartPos
    ensures var seg := sk.segs[st.segmentIdx];
            && Relevant(sk, st, m)
            && (seg.IsLastLiteral(m.startPos) ==> Scheduled(sk, st, m, cpIdx) == multiset{})
            && (!seg.IsLastLiteral(m.startPos) ==>
                  var next := seg.GetNextLiteralOffset(m.startPos);
                  Scheduled(sk, st, m, cpIdx) ==
                  multiset{DelayedMatch(m.patternId, next, m.startPos,
                                        (next - m.startPos - m.literalLen) % 0x1_0000_0000 + cpIdx)})
  {
    hide Segment.Valid;
  }

  lemma KeysAbsent(l: seq<Entry>, key: nat)
    ensures !HasKey(l, key) ==> Without(l, key) == l && forall e :: e in l ==> e.key != key
  {
    if !HasKey(l, key) {
      forall e | e in l ensures e.key != key { }
      WithoutAbsent(l, key);
    }
  }

  /** One entry per key, so the one that is taken out is the only candidate. */
  lemma WithoutOne(c: LRUCache, key: nat)
    requires c.Valid()
    ensures forall x, y :: x in c.Contents() && y in c.Contents() && x.key == key && y.key == key ==> x == y
  {
    DistinctEntries(c.itemList);
  }
}
