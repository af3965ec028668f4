/** The probe: patterns compiled into one automaton, and the iterator that walks a text code point by code
    point, feeds the automaton's hits to the matchers and the due items of the delay queue to their caches. */
module Parsers {
  import opened Options
  import opened Utf8
  import opened LikePredicate
  import opened Layouts
  import opened Tokenizers
  import opened PatternTexts
  import opened Skeletons
  import opened Compiler
  import opened LruCaches
  import opened DelayQueues
  import opened Matchers
  import opened Alignments
  import opened Runs
  import opened Tries
  import opened SuffixLinks
  import opened AhoCorasicks
  import opened Scanning
  import opened Probing

  // ----- the build side -----

  /** What the automaton names while the literals of the last pattern are being inserted. */
  ghost predicate NamedSoFar(base: Occurrence, pats: seq<Pattern>, occ: Occurrence, lits: seq<Lit>, n: nat)
    requires n <= |lits|
  {
    forall l, ix :: In(occ, l, ix) <==>
                      || In(base, l, ix)
                      || (ix.patternId < |pats| && Lit(ix.startPos, l) in AllLits(pats[ix.patternId].lays))
                      || (ix.patternId == |pats| && Lit(ix.startPos, l) in lits[..n])
  }

  lemma NamedInsert(base: Occurrence, pats: seq<Pattern>, occ: Occurrence, lits: seq<Lit>, n: nat)
    requires n < |lits| && NamedSoFar(base, pats, occ, lits, n)
    ensures NamedSoFar(base, pats, Recorded(occ, lits[n].codes, PatternIndex(|pats|, lits[n].off)), lits, n + 1)
  {
    hide AllLits;
    var c, i := lits[n].codes, PatternIndex(|pats|, lits[n].off);
    var more := Recorded(occ, c, i);
    assert lits[..n + 1] == lits[..n] + [lits[n]];
    forall l, ix ensures In(more, l, ix) <==> In(occ, l, ix) || (l == c && ix == i) { }
  }

  lemma NamedStart(base: Occurrence, pats: seq<Pattern>, occ: Occurrence, lits: seq<Lit>)
    requires NamedOver(base, pats, occ)
    ensures NamedSoFar(base, pats, occ, lits, 0)
  {
    hide AllLits, In;
  }

  lemma NamedEnd(base: Occurrence, pats: seq<Pattern>, occ: Occurrence, pat: Pattern)
    requires NamedSoFar(base, pats, occ, AllLits(pat.lays), |AllLits(pat.lays)|)
    ensures NamedOver(base, pats + [pat], occ)
  {
    hide AllLits, In;
    var more, lits := pats + [pat], AllLits(pat.lays);
    assert lits[..|lits|] == lits;
    forall l, ix: PatternIndex ensures In(occ, l, ix) <==>
      In(base, l, ix) || (ix.patternId < |more| && Lit(ix.startPos, l) in AllLits(more[ix.patternId].lays))
    {
      assert ix.patternId < |pats| ==> more[ix.patternId] == pats[ix.patternId];
    }
  }

  lemma NamedBase(base: Occurrence)
    ensures NamedOver(base, [], base)
  {
  }

  /** Into an empty automaton. */
  lemma NamedAll(pats: seq<Pattern>, occ: Occurrence)
    requires NamedOver(map[], pats, occ)
    ensures Named(pats, occ)
  {
    hide AllLits;
  }

  /** A reported span is a literal that is not empty and ends within the pattern. */
  lemma SpanLit(p: seq<byte>, esc: Option<Code>, spans: seq<LiteralSpan>, pat: Pattern, k: nat)
    requires pat.Valid() && Spans(p, esc, spans, AllLits(pat.lays)) && k < |spans|
    ensures var l := AllLits(pat.lays)[k];
            && spans[k].End() <= |p| && l.codes != []
            && Stripped(p[spans[k].start..spans[k].End()], esc) == Encode(l.codes)
            && l.off == spans[k].start - spans[k].escapePrefixBeforeStart && l.End() <= |p|
  {
    hide Encode, AllLits, Stripped;
    var l := AllLits(pat.lays)[k];
    var s, j := LitAt(pat.lays, l);
    ValidAt(pat, s);
    StrippedShorter(p[spans[k].start..spans[k].End()], esc);
  }

  lemma {:induction false} StrippedShorter(s: seq<byte>, esc: Option<Code>)
    ensures |Stripped(s, esc)| <= |s|
  {
    if s == [] {
    } else if esc.Some? && s[0] == esc.value {
      if |s| > 1 { StrippedShorter(s[2..], esc); }
    } else {
      StrippedShorter(s[1..], esc);
    }
  }

  lemma CompiledIs(p: seq<byte>, sk: Skeleton, spans: seq<LiteralSpan>, pat: Pattern, src: Source)
    requires |p| <= PATTERN_MAX && CompilesTo(src, sk, pat) && forall t :: Like(src.Syms(), t) <==> Accepts(pat, t)
    requires Spans(p, src.esc, spans, AllLits(pat.lays)) && sk.onlyWildcard == (spans == [])
    requires sk.onlyWildcard ==> OnlyWildcards(src.Syms())
    requires !sk.onlyWildcard ==> |sk.segs| > 0 && forall s :: 0 <= s < |sk.segs| ==> sk.segs[s].HasLiteral()
    ensures Compiled(sk, pat, src)
  {
    hide Encode, AllLits, Like, Accepts, OnlyWildcards, Spans, CompilesTo, SegmentsReady;
    SpansSize(p, src.esc, spans, AllLits(pat.lays));
    CompiledShows(src, sk, pat);
    if !sk.onlyWildcard { CompiledReady(p, src.esc, sk, spans, pat); }
  }

  lemma CompiledShows(src: Source, sk: Skeleton, pat: Pattern)
    requires CompilesTo(src, sk, pat)
    ensures pat.Valid() && ShowsAll(sk.segs, pat)
  {
  }

  lemma CompiledReady(p: seq<byte>, esc: Option<Code>, sk: Skeleton, spans: seq<LiteralSpan>, pat: Pattern)
    requires |p| <= PATTERN_MAX && ShowsAll(sk.segs, pat) && pat.Valid() && Spans(p, esc, spans, AllLits(pat.lays))
    requires |sk.segs| > 0 && forall s :: 0 <= s < |sk.segs| ==> sk.segs[s].HasLiteral()
    ensures SegmentsReady(sk, pat)
  {
    hide Encode, AllLits, Spans, Pattern.Valid;
    forall s, j | 0 <= s < |pat.lays| && 0 <= j < |pat.lays[s].lits| ensures pat.lays[s].lits[j].End() <= PATTERN_MAX {
      LitWithin(p, esc, spans, pat, s, j);
    }
    forall s | 0 <= s < |pat.lays| ensures sk.segs[s].Valid() && pat.lays[s].lits != [] {
      assert Shows(sk.segs[s], pat.lays[s]);
    }
  }

  lemma LitWithin(p: seq<byte>, esc: Option<Code>, spans: seq<LiteralSpan>, pat: Pattern, s: nat, j: nat)
    requires pat.Valid() && Spans(p, esc, spans, AllLits(pat.lays)) && s < |pat.lays| && j < |pat.lays[s].lits|
    ensures pat.lays[s].lits[j].End() <= |p|
  {
    hide Encode, AllLits, Pattern.Valid, Layout.Valid, Spans;
    InAllLits(pat.lays, s, j);
    var k :| 0 <= k < |AllLits(pat.lays)| && AllLits(pat.lays)[k] == pat.lays[s].lits[j];
    SpansSize(p, esc, spans, AllLits(pat.lays));
    SpanLit(p, esc, spans, pat, k);
  }

  /** The pattern as bytes, short enough for offsets of 16 bits, and read right by the tokenizer. */
  ghost predicate Usable(p: seq<byte>, esc: Option<Code>, src: Source)
  {
    p == src.Bytes() && esc == src.esc && src.Valid() && src.Readable() && |p| <= PATTERN_MAX
  }

  /** The callback of the constructor, for every literal it reports: insert it without its escapes. */
  method InsertLiterals(p: seq<byte>, escape: Option<Code>, spans: seq<LiteralSpan>, trie: AhoCorasick, idx: nat,
                        ghost base: Occurrence, ghost ps: seq<Pattern>, ghost pat: Pattern)
    requires idx == |ps| && pat.Valid() && Spans(p, escape, spans, AllLits(pat.lays))
    requires trie.Valid() && NamedOver(base, ps, trie.Occ())
    modifies trie
    ensures trie.Valid() && NamedOver(base, ps + [pat], trie.Occ())
    ensures old(NoLinks(trie.nodes)) ==> NoLinks(trie.nodes)
  {
    hide Encode, AllLits, NamedOver, NamedSoFar, AhoCorasick.Valid, NoLinks, Recorded, Spans, Pattern.Valid, Stripped;
    SpansSize(p, escape, spans, AllLits(pat.lays));
    NamedStart(base, ps, trie.Occ(), AllLits(pat.lays));
    var tok := new Tokenizer(p, escape);
    for n := 0 to |spans|
      invariant trie.Valid() && (old(NoLinks(trie.nodes)) ==> NoLinks(trie.nodes))
      invariant NamedSoFar(base, ps, trie.Occ(), AllLits(pat.lays), n)
    {
      SpanLit(p, escape, spans, pat, n);
      NamedInsert(base, ps, trie.Occ(), AllLits(pat.lays), n);
      var sv := tok.StripEscapes(spans[n]);
      trie.Insert(sv, PatternIndex(idx, spans[n].start - spans[n].escapePrefixBeforeStart), AllLits(pat.lays)[n].codes);
    }
    NamedEnd(base, ps, trie.Occ(), pat);
  }

  class PatternAnalyzer {
    const skeletons: seq<Skeleton>
    ghost const pats: seq<Pattern>

    /** Compiles every pattern and inserts its literals, each with the pattern's index and its own offset. */
    constructor (patterns: seq<seq<byte>>, escape: Option<Code>, trie: AhoCorasick, ghost srcs: seq<Source>)
      requires |srcs| == |patterns| && forall k :: 0 <= k < |patterns| ==> Usable(patterns[k], escape, srcs[k])
      requires trie.Valid()
      modifies trie
      ensures trie.Valid() && (old(NoLinks(trie.nodes)) ==> NoLinks(trie.nodes))
      ensures |skeletons| == |pats| == |srcs| && NamedOver(old(trie.Occ()), pats, trie.Occ())
      ensures forall k :: 0 <= k < |srcs| ==> Compiled(skeletons[k], pats[k], srcs[k])
    {
      hide Encode, AllLits, Like, Accepts, OnlyWildcards, Compiled, NamedOver, NamedSoFar, AhoCorasick.Valid, NoLinks,
           Spans, Pattern.Valid, CompilesTo, Source.Bytes, Source.Readable, Source.Valid;
      var sks: seq<Skeleton> := [];
      ghost var ps: seq<Pattern> := [];
      ghost var base := trie.Occ();
      NamedBase(base);
      for idx := 0 to |patterns|
        invariant |sks| == |ps| == idx && trie.Valid() && (old(NoLinks(trie.nodes)) ==> NoLinks(trie.nodes))
        invariant forall k :: 0 <= k < idx ==> Compiled(sks[k], ps[k], srcs[k])
        invariant NamedOver(base, ps, trie.Occ())
      {
        assert Usable(patterns[idx], escape, srcs[idx]);
        var sk, spans;
        ghost var pat;
        sk, spans, pat := NewSkeleton(patterns[idx], escape, srcs[idx]);
        CompiledIs(patterns[idx], sk, spans, pat, srcs[idx]);
        CompiledShows(srcs[idx], sk, pat);
        InsertLiterals(patterns[idx], escape, spans, trie, idx, base, ps, pat);
        sks, ps := sks + [sk], ps + [pat];
      }
      skeletons := sks;
      pats := ps;
    }
  }

  // ----- the iterator -----

  method InitializeMatcher(sket: Skeleton) returns (m: Matcher)
    ensures fresh(m) && fresh(m.match_) && m.Valid() && m.State() == FreshState(sket)
  {
    if sket.segs == [] || sket.onlyWildcard {
      m := new Matcher(0);
    } else {
      m := new Matcher(LruCapForSegment(sket.segs[0]));
    }
  }

  method InitializeMatchers(skets: seq<Skeleton>) returns (ms: seq<Matcher>, ghost used: set<object>)
    ensures |ms| == |skets| && fresh(used)
    ensures forall i :: 0 <= i < |ms| ==> ms[i] in used && ms[i].match_ in used && ms[i].Valid()
    ensures forall i, j :: 0 <= i < j < |ms| ==> ms[i] != ms[j] && ms[i].match_ != ms[j].match_
    ensures forall i :: 0 <= i < |ms| ==> ms[i].State() == FreshState(skets[i])
  {
    hide FreshState, Matcher.Valid, Matcher.State;
    ms, used := [], {};
    for idx := 0 to |skets|
      invariant |ms| == idx && fresh(used)
      invariant forall i :: 0 <= i < idx ==> ms[i] in used && ms[i].match_ in used && ms[i].Valid()
      invariant forall i, j :: 0 <= i < j < idx ==> ms[i] != ms[j] && ms[i].match_ != ms[j].match_
      invariant forall i :: 0 <= i < idx ==> ms[i].State() == FreshState(skets[i])
    {
      var m := InitializeMatcher(skets[idx]);
      ms := ms + [m];
      used := used + {m, m.match_};
    }
  }

  class TextParserIterator {
    const automaton: AhoCorasick
    const buildSide: PatternAnalyzer
    const queue: DelayedMatchQueue
    const instances: seq<Matcher>
    var text: seq<byte>
    var textOffset: nat
    var codepointIdx: nat
    var ptr: nat
    var dirty: seq<bool>
    var dirtyList: seq<nat>
    var emitBuffer: seq<MatchingOutput>
    ghost const footprint: set<object>
    ghost const srcs: seq<Source>
    ghost var t: seq<Code>
    ghost var states: seq<MatcherState>
    ghost var seen: seq<MatchingOutput>
    ghost var evicted: seq<bool>
    ghost var hops: nat

    ghost function TheWorld(): World
      requires automaton.Valid()
      reads `t, automaton
    {
      World(buildSide.skeletons, buildSide.pats, srcs, automaton.Occ(), t)
    }

    ghost function Now(result: seq<bool>): Snapshot
      reads `states, `codepointIdx, `seen, `evicted, queue
    {
      Snapshot(states, queue.queue, result, codepointIdx, seen, evicted)
    }

    /** The automaton is complete, and names the literals of the patterns. */
    ghost predicate AutomatonOk()
      reads automaton
    {
      && automaton.Valid() && AllLinked(automaton.nodes, automaton.at, automaton.dict)
      && Built(buildSide.skeletons, buildSide.pats, srcs, automaton.Occ())
    }

    ghost predicate Apart()
    {
      this !in footprint && automaton !in footprint && queue !in footprint
    }

    /** Every pattern has a matcher and a cache of its own; `footprint` is all of them. */
    ghost predicate Separate()
    {
      && |instances| == |buildSide.skeletons|
      && (forall i :: 0 <= i < |instances| ==> instances[i] in footprint && instances[i].match_ in footprint)
      && (forall i, j :: 0 <= i < j < |instances| ==>
            instances[i] != instances[j] && instances[i].match_ != instances[j].match_)
    }

    ghost predicate StatesOk()
      reads `states, footprint
    {
      && |states| == |instances|
      && (forall i :: 0 <= i < |instances| ==> instances[i] in footprint && instances[i].match_ in footprint)
      && (forall i :: 0 <= i < |instances| ==> instances[i].Valid() && instances[i].State() == states[i])
    }

    /** Matchers that are not on the dirty list are as new. The list has no repeats. */
    ghost predicate DirtyOk()
      reads `dirty, `dirtyList, `states, queue
    {
      && queue.Valid() && |dirty| == |states| == |buildSide.skeletons|
      && (forall k :: 0 <= k < |dirty| ==> if dirty[k] then buildSide.skeletons[k].segs != []
                                                             && !buildSide.skeletons[k].onlyWildcard
                                           else states[k] == FreshState(buildSide.skeletons[k]))
      && (forall k: nat :: k in dirtyList <==> k < |dirty| && dirty[k])
      && (forall i, j :: 0 <= i < j < |dirtyList| ==> dirtyList[i] != dirtyList[j])
      && (forall d :: d in queue.queue ==> d.patternId < |dirty| && dirty[d.patternId]
                                           && !buildSide.skeletons[d.patternId].onlyWildcard
                                           && d.nextPatternPos <= PATTERN_MAX)
    }

    /** Where in the text it is; the node is that of the longest suffix in the trie; `hops` is how many suffix links
        have been followed so far. */
    ghost predicate PositionOk()
      reads `text, `t, `codepointIdx, `textOffset, `ptr, `hops, automaton
    {
      && text == Encode(t) && |text| < TEXT_MAX && codepointIdx <= |t| && textOffset == Off(t, codepointIdx)
      && AtDeepest(automaton.at, t[..codepointIdx], ptr) && hops == TotalLinks(automaton.at, t, codepointIdx)
    }

    ghost predicate Valid()
      reads this, automaton, queue, footprint
    {
      Apart() && AutomatonOk() && Separate() && StatesOk() && DirtyOk() && PositionOk() && |evicted| == |instances|
    }

    /** The state of an iterator that has not read anything yet. */
    ghost predicate Fresh()
      reads this, queue
    {
      && textOffset == 0 && codepointIdx == 0 && ptr == automaton.root && queue.queue == multiset{} && dirtyList == []
      && |dirty| == |states| == |evicted| == |buildSide.skeletons|
      && (forall k :: 0 <= k < |dirty| ==> !dirty[k] && states[k] == FreshState(buildSide.skeletons[k]))
      && seen == [] && (forall k :: 0 <= k < |evicted| ==> !evicted[k]) && hops == 0
    }

    constructor (analyzer: PatternAnalyzer, trie: AhoCorasick, ghost sources: seq<Source>)
      requires trie.Valid() && AllLinked(trie.nodes, trie.at, trie.dict)
      requires Built(analyzer.skeletons, analyzer.pats, sources, trie.Occ())
      ensures automaton == trie && buildSide == analyzer && srcs == sources && text == []
      ensures Valid() && Fresh()
      ensures fresh(queue) && fresh(footprint)
    {
      hide AhoCorasick.Valid, AllLinked, Built, Encode, FreshState, AtDeepest, Deepest, Matcher.Valid, Matcher.State;
      var ms;
      ghost var used;
      ms, used := InitializeMatchers(analyzer.skeletons);
      automaton, buildSide, instances, srcs, footprint := trie, analyzer, ms, sources, used;
      queue := new DelayedMatchQueue();
      text, textOffset, codepointIdx, ptr, emitBuffer := [], 0, 0, trie.root, [];
      dirty, dirtyList := seq(|analyzer.skeletons|, _ => false), [];
      t, seen, hops := [], [], 0;
      states := seq(|analyzer.skeletons|,
                    i requires 0 <= i < |analyzer.skeletons| => FreshState(analyzer.skeletons[i]));
      evicted := seq(|analyzer.skeletons|, _ => false);
      new;
      StartPosition(trie, []);
      assert Separate() && StatesOk() && DirtyOk();
      assert PositionOk();
    }

    // ----- the automaton -----

    /** Down the trie with the next code point, up the suffix links while that fails. `hops` counts them. */
    method FollowText(cp: seq<byte>, ghost w: seq<Code>, ghost c: Code) returns (found: bool)
      requires automaton.Valid() && AllLinked(automaton.nodes, automaton.at, automaton.dict)
      requires cp == WriteCodePoint(c) && AtDeepest(automaton.at, w, ptr)
      modifies `ptr, `hops
      ensures AtDeepest(automaton.at, w + [c], ptr) && hops == old(hops) + LinksFor(automaton.at, w, c)
      ensures found <==> Deepest(automaton.at, w + [c], 0) <= |w|
    {
      hide AhoCorasick.Valid, AllLinked, WriteCodePoint, Encode, Deepest, Shape, Climbed, Landing;
      ghost var ac := automaton;
      ghost var k := Deepest(ac.at, w, 0);
      ghost var j := k;
      ClimbStart(ac.at, w, k);
      TrieOf(ac);
      StepStart(ac.nodes, ac.root, ac.at, w, c);
      CodeBytes(c);
      VisitIs(ac.at, w[j..], c);
      var next := automaton.VisitCodePoint(ptr, cp, Encode(w[j..]));
      while ptr != automaton.root && next == None
        invariant j <= |w| && InTrie(ac.at, w[j..]) && ac.at[Encode(w[j..])] == ptr
        invariant NoneGoesOn(ac.at, w, c, 0, j) && k <= j && hops == old(hops) + |Climbed(ac.at, w, k, j)|
        invariant next == WordNode(ac.at, w[j..] + [c])
        decreases |w| - j
      {
        RootIsEnd(ac.nodes, ac.root, ac.at, w, j);
        AllLinkedAt(ac, w[j..]);
        NextMissing(ac.at, w[j..] + [c]);
        SuffixNext(ac.nodes, ac.root, ac.at, ac.dict, w, c, 0, j);
        ClimbNext(ac.at, w, k, j);
        j := Deepest(ac.at, w, j + 1);
        WordNodeIs(ac.at, w[j..]);
        ptr := automaton.nodes[ptr].suffix.value;
        hops := hops + 1;
        VisitIs(ac.at, w[j..], c);
        next := automaton.VisitCodePoint(ptr, cp, Encode(w[j..]));
      }
      RootIsEnd(ac.nodes, ac.root, ac.at, w, j);
      WordNodeIs(ac.at, w[j..] + [c]);
      LandingIs(ac.at, w, c, k, j);
      found := next != None;
      if found {
        WordNodeIs(ac.at, w[j..] + [c]);
        ChainFound(ac.at, w, c, 0, j);
        ptr := next.value;
      } else {
        NextMissing(ac.at, w[j..] + [c]);
        EmptyStep(ac.at, w, c, j);
        ChainExhausted(ac.at, w, c, 0);
        EmptyInTrie(ac.at);
      }
    }

    /** The hits of one literal, in some order. */
    method AppendResult(auxIndex: nat, cpLen: nat, out: seq<MatchingOutput>, ghost w: seq<Code>, ghost k: nat,
                        ghost got: set<(nat, PatternIndex)>)
      returns (more: seq<MatchingOutput>)
      requires automaton.Valid() && Disjoint(automaton.Occ()) && k <= |w| && w[k..] in automaton.dict
      requires auxIndex == automaton.dict[w[k..]] && textOffset + cpLen == |Encode(w)| < U64
      requires Exact(w, out, got) && Covered(automaton.Occ(), w, got, k)
      ensures Exact(w, more, got + PairsAt(automaton.Occ(), w, k))
      ensures Covered(automaton.Occ(), w, got + PairsAt(automaton.Occ(), w, k), k + 1)
    {
      hide AhoCorasick.Valid, Encode, Exact, Covered, Partly, Disjoint, Off, HitOf, In;
      LeafEntry(automaton, w[k..]);
      var entry := automaton.literalMap[auxIndex];
      SuffixOffset(w, k);
      var matchPos := (textOffset - entry.literalLen + cpLen) % U64;
      assert matchPos == Off(w, k);
      var rest := entry.bitmap;
      more := out;
      ghost var all := got;
      assert entry.bitmap - rest == {};
      PartlyStart(automaton.Occ(), w, got, k);
      while rest != {}
        invariant rest <= entry.bitmap && all == got + set ix | ix in entry.bitmap - rest :: (k, ix)
        invariant Exact(w, more, all) && Partly(automaton.Occ(), w, all, k, entry.bitmap - rest)
        decreases rest
      {
        var ix :| ix in rest;
        InIs(automaton.Occ(), w[k..], ix);
        PartlyNew(automaton.Occ(), w, all, k, entry.bitmap - rest, ix);
        ExactAdd(w, more, all, k, ix);
        HitIsNow(w, k, ix);
        more := more + [MatchingOutput(ix.patternId, ix.startPos, entry.literalLen, matchPos)];
        all := all + {(k, ix)};
        assert entry.bitmap - rest + {ix} == entry.bitmap - (rest - {ix});
        rest := rest - {ix};
      }
      assert entry.bitmap - rest == entry.bitmap;
      assert all == got + PairsAt(automaton.Occ(), w, k);
      PartlyEnd(automaton.Occ(), w, all, k);
    }

    /** The literal of the node itself, then those along the output links. */
    method EmitAll(found: bool, cpLen: nat, ghost w: seq<Code>) returns (out: seq<MatchingOutput>)
      requires automaton.Valid() && AllLinked(automaton.nodes, automaton.at, automaton.dict)
      requires Disjoint(automaton.Occ()) && textOffset + cpLen == |Encode(w)| < U64
      requires AtDeepest(automaton.at, w, ptr) && (found <==> Deepest(automaton.at, w, 0) < |w|)
      ensures Emission(automaton.Occ(), w, out)
    {
      hide AhoCorasick.Valid, AllLinked, Encode, Exact, Covered, Disjoint, Off, Deepest, Shape, Spells, NextOut, Linked,
           PairsAt;
      ghost var ac, occ := automaton, automaton.Occ();
      ghost var k, got := Deepest(ac.at, w, 0), {};
      TrieOf(ac);
      OccIsDict(ac);
      out := [];
      ExactNil(occ, w);
      NoneBefore(ac.nodes, ac.root, ac.at, ac.dict, w);
      CoverSkip(occ, w, got, 0, k);
      AllLinkedAt(ac, w[k..]);
      OutputOf(ac.nodes, ac.root, ac.at, ac.dict, w, k);
      TerminalIs(ac.nodes, ac.root, ac.at, ac.dict, w[k..]);
      assert k == |w| ==> w[k..] == [];
      if found && automaton.nodes[ptr].IsTerminalNode() {
        LeafEntry(ac, w[k..]);
        var leaf := automaton.nodes[ptr].children[0];
        out := AppendResult(leaf.auxIndex, cpLen, out, w, k, got);
        got := got + PairsAt(occ, w, k);
      } else {
        CoverSkip(occ, w, got, k, k + 1);
      }
      k := k + 1;
      var node := automaton.nodes[ptr].output;
      while node != None
        invariant k <= |w| + 1 && node == NextOut(ac.at, ac.dict, w, k)
        invariant Exact(w, out, got) && Covered(occ, w, got, k)
        decreases |w| + 1 - k
      {
        ghost var n := OutAt(ac, w, k);
        CoverSkip(occ, w, got, k, n);
        TerminalIs(ac.nodes, ac.root, ac.at, ac.dict, w[n..]);
        LeafEntry(ac, w[n..]);
        if automaton.nodes[node.value].IsTerminalNode() {
          var leaf := automaton.nodes[node.value].children[0];
          out := AppendResult(leaf.auxIndex, cpLen, out, w, n, got);
          got := got + PairsAt(occ, w, n);
        }
        k := n + 1;
        AllLinkedAt(ac, w[n..]);
        OutputOf(ac.nodes, ac.root, ac.at, ac.dict, w, n);
        node := automaton.nodes[node.value].output;
      }
      NoneLeft(ac, w, k);
      CoverSkip(occ, w, got, k, |w| + 1);
      CoveredIsEmission(occ, w, out, got);
    }

    /** One more code point of the text; `emitBuffer` is everything that ends with it. */
    method ContinueParseText()
      requires Valid() && textOffset < |text|
      modifies `textOffset, `codepointIdx, `ptr, `emitBuffer, `hops, `seen
      ensures Valid() && codepointIdx == old(codepointIdx) + 1 <= |t| && seen == []
      ensures Emission(automaton.Occ(), t[..codepointIdx], emitBuffer)
    {
      hide AutomatonOk, PositionOk, Separate, StatesOk, DirtyOk, Emission, AhoCorasick.Valid;
      ReadAndEmit();
      seen := [];
      StatesSame();
    }

    method ReadAndEmit()
      requires AutomatonOk() && PositionOk() && textOffset < |text|
      modifies `textOffset, `codepointIdx, `ptr, `emitBuffer, `hops
      ensures PositionOk() && codepointIdx == old(codepointIdx) + 1 <= |t|
      ensures automaton.Valid() && Emission(automaton.Occ(), t[..codepointIdx], emitBuffer)
    {
      hide AhoCorasick.Valid, AllLinked, Encode, Disjoint, Off, Deepest, AtDeepest, WriteCodePoint, ReadCodePoint,
           Emission, Built;
      ghost var w := t[..codepointIdx];
      OffEnds(t);
      OffOrder(t, codepointIdx, |t|);
      ReadNext(t, codepointIdx);
      var cpInfo := ReadCodePoint(text, textOffset);
      var cpLen: nat := cpInfo.next - textOffset;
      ghost var c := t[codepointIdx];
      ghost var v := t[..codepointIdx + 1];
      var found := FollowText(text[textOffset..cpInfo.next], w, c);
      BuiltDisjoint(buildSide, srcs, automaton.Occ());
      emitBuffer := EmitAll(found, cpLen, v);
      textOffset := textOffset + cpLen;
      codepointIdx := codepointIdx + 1;
    }

    /** Nothing has happened to the matchers. */
    twostate lemma StatesSame()
      requires old(StatesOk()) && states == old(states)
      requires forall i :: 0 <= i < |instances| ==> unchanged(instances[i]) && unchanged(instances[i].match_)
      ensures StatesOk()
    {
    }

    /** Nothing has happened but to the matchers, the queue and the dirty list. */
    twostate lemma ValidSame()
      requires old(Valid()) && StatesOk() && DirtyOk() && |evicted| == |old(evicted)| && unchanged(automaton)
      requires unchanged(`text, `t, `codepointIdx, `textOffset, `ptr, `hops)
      ensures Valid() && automaton.Valid() && TheWorld() == old(TheWorld())
    {
      hide Separate, StatesOk, DirtyOk, Built, AllLinked, AhoCorasick.Valid, AtDeepest, Deepest, Encode, Off;
    }

    // ----- one text after another -----

    method ResetMatcher(k: nat)
      requires Separate() && StatesOk() && k < |instances|
      requires buildSide.skeletons[k].segs != [] && !buildSide.skeletons[k].onlyWildcard
      modifies `states, instances[k], instances[k].match_
      ensures StatesOk() && states == old(states)[k := FreshState(buildSide.skeletons[k])]
    {
      hide LruCapForSegment;
      instances[k].Reset(LruCapForSegment(buildSide.skeletons[k].segs[0]));
      states := states[k := FreshState(buildSide.skeletons[k])];
    }

    /** Only the matchers on the dirty list are reset, and that is enough. */
    method ResetDirty()
      requires Apart() && Separate() && StatesOk() && DirtyOk()
      modifies `states, `dirty, `dirtyList, footprint
      ensures StatesOk() && dirtyList == [] && |dirty| == |states| == |buildSide.skeletons|
      ensures forall k :: 0 <= k < |dirty| ==> !dirty[k] && states[k] == FreshState(buildSide.skeletons[k])
    {
      hide FreshState, StatesOk;
      ghost var list := dirtyList;
      var i := 0;
      while i < |dirtyList|
        invariant i <= |dirtyList| && dirtyList == list && Separate() && StatesOk()
        invariant |dirty| == |states| == |buildSide.skeletons| && forall k :: k in list ==> k < |dirty|
        invariant forall k: nat :: k < |dirty| ==> (dirty[k] <==> k in list[i..])
        invariant forall k: nat :: k < |dirty| ==> if dirty[k] then buildSide.skeletons[k].segs != []
                                                             && !buildSide.skeletons[k].onlyWildcard
                                                   else states[k] == FreshState(buildSide.skeletons[k])
      {
        var k := dirtyList[i];
        assert k in list && list[i..] == [k] + list[i + 1..];
        assert forall j :: i < j < |list| ==> list[j] != k;
        ResetMatcher(k);
        dirty := dirty[k := false];
        i := i + 1;
      }
      dirtyList := [];
    }

    /** The part of a reset that is not about matchers. */
    method Restart(nextText: seq<byte>, ghost nt: seq<Code>)
      requires StatesOk() && automaton.Valid() && nextText == Encode(nt) && |nextText| < TEXT_MAX && queue.Valid()
      modifies queue, `text, `t, `textOffset, `codepointIdx, `ptr, `seen, `hops, `evicted
      ensures StatesOk() && PositionOk() && text == nextText && t == nt
      ensures queue.Valid() && queue.queue == multiset{}
      ensures textOffset == 0 && codepointIdx == 0 && ptr == automaton.root
      ensures seen == [] && hops == 0 && |evicted| == |states| && forall k :: 0 <= k < |evicted| ==> !evicted[k]
    {
      hide AhoCorasick.Valid, Encode, Deepest, AtDeepest, Off, StatesOk;
      queue.Clear();
      text, t := nextText, nt;
      textOffset, codepointIdx, ptr := 0, 0, automaton.root;
      seen, hops, evicted := [], 0, seq(|states|, _ => false);
      StartPosition(automaton, nt);
      StatesSame();
    }

    /** Whatever the last text left behind: afterwards the iterator is like a new one. */
    method ResetText(nextText: seq<byte>, ghost nt: seq<Code>)
      requires Valid() && nextText == Encode(nt) && |nextText| < TEXT_MAX
      modifies this, queue, footprint
      ensures Valid() && Fresh() && text == nextText && t == nt
    {
      hide AhoCorasick.Valid, AllLinked, Built, Encode, Deepest, AtDeepest, FreshState, Off, StatesOk, PositionOk;
      ResetDirty();
      Restart(nextText, nt);
    }

    // ----- one hit -----

    method MarkDirty(k: nat)
      requires DirtyOk() && k < |dirty| && buildSide.skeletons[k].segs != [] && !buildSide.skeletons[k].onlyWildcard
      modifies `dirty, `dirtyList
      ensures DirtyOk() && dirty == old(dirty)[k := true]
    {
      hide FreshState;
      if !dirty[k] {
        dirty := dirty[k := true];
        dirtyList := dirtyList + [k];
      }
    }

    method TryLiteral(k: nat, m: MatchingOutput) returns (ok: bool)
      requires Separate() && StatesOk() && k < |instances| && SegsValid(buildSide.skeletons[k])
      requires m.textStartPos < U64 && m.startPos < U64 && queue.Valid()
      modifies `states, instances[k].match_, queue
      ensures queue.Valid() && StatesOk() && (ok <==> Fits(buildSide.skeletons[k], old(states)[k], m, text))
      ensures states == old(states)[k := Consume(buildSide.skeletons[k], old(states)[k], m)]
      ensures queue.queue == old(queue.queue) +
                (if ok then Scheduled(buildSide.skeletons[k], old(states)[k], m, codepointIdx) else multiset{})
    {
      hide SegsValid, Fits, Consume, Scheduled, DelayedMatchQueue.Valid, Matcher.Valid, Matcher.State;
      ok := instances[k].TryMatchingLiteral(buildSide.skeletons[k], m, codepointIdx, queue, text);
      states := states[k := Consume(buildSide.skeletons[k], states[k], m)];
    }

    method NextSegmentOf(k: nat, tailEnd: nat) returns (more: bool)
      requires Separate() && StatesOk() && k < |instances|
      modifies `states, instances[k], instances[k].match_
      ensures StatesOk()
      ensures var sk := buildSide.skeletons[k];
              states == old(states)[k := NextSegment(sk, CodeCaps(sk), old(states)[k], tailEnd)]
      ensures more <==> old(states)[k].segmentIdx + 1 < |buildSide.skeletons[k].segs|
    {
      hide NextSegment, Matcher.Valid, LRUCache.Contents;
      more := instances[k].AdvanceNextSegment(buildSide.skeletons[k], tailEnd);
      states := states[k := NextSegment(buildSide.skeletons[k], CodeCaps(buildSide.skeletons[k]), states[k], tailEnd)];
    }

    /** One hit against the matcher of its pattern, and what follows when a segment is through. */
    method HandleHit(m: MatchingOutput, result: array<bool>, ghost c: Job)
      requires result !in footprint && Apart()
      requires Separate() && StatesOk() && DirtyOk()
      requires m.patternId < |instances| == |states| == |evicted| == result.Length
      requires |dirty| == |buildSide.skeletons| == |instances|
      requires c.sk == buildSide.skeletons[m.patternId] && c.t == t && c.pid == m.patternId && c.caps == CodeCaps(c.sk)
      requires text == Encode(t)
      requires SegsValid(c.sk) && !c.sk.onlyWildcard && states[m.patternId].segmentIdx < |c.sk.segs|
      requires m.startPos < U64 && m.textStartPos < U64 && !result[m.patternId]
      requires forall d :: d in QueueAfter(c, states[m.patternId], multiset{}, m, codepointIdx) ==>
                             d.patternId == m.patternId && d.nextPatternPos <= PATTERN_MAX
      modifies `states, `dirty, `dirtyList, queue, footprint, result
      ensures StatesOk() && DirtyOk()
      ensures var n := OnHit(c, old(Now(result[..]).RunOf(m.patternId)), m);
              && states == old(states)[m.patternId := n.st] && queue.queue == n.queue
              && result[..] == old(result[..])[m.patternId := n.matched]
    {
      hide Separate, StatesOk, DirtyOk, Consume, Fits, Scheduled, NextSegment, Encode, Segment.Valid, FreshState,
           SegmentTailEnd, ValidLastLiteral, OnHit, DoneBy, SegsValid, Matcher.State, QueueAfter,
           DelayedMatchQueue.Valid;
      var k := m.patternId;
      var sket := buildSide.skeletons[k];
      ghost var r := Now(result[..]).RunOf(k);
      var segmentIdx := CurrentSegmentIdx(k);
      var segment := sket.segs[segmentIdx];
      OnHitIs(c, r, m);
      Owned(k);
      MarkDirty(k);
      QueueReady();
      label Marked:
      var ok := TryLiteral(k, m);
      DirtyKept@Marked(k);
      assert result[..] == old(result[..])[k := false];
      if !ok { return; }
      if !segment.IsLastLiteral(m.startPos) { return; }
      var tailEnd := SegmentTailEnd(sket, m, segmentIdx, text);
      if tailEnd == None { return; }
      if ValidLastLiteral(sket, segmentIdx, tailEnd.value, |text|) {
        label Through:
        var more := NextSegmentOf(k, tailEnd.value);
        DirtyKept@Through(k);
        assert result[..] == old(result[..])[k := false];
        if !more {
          result[k] := true;
          assert result[..] == old(result[..])[k := true];
        }
      }
    }

    lemma Owned(k: nat)
      requires Separate() && k < |instances|
      ensures instances[k] in footprint && instances[k].match_ in footprint
    {
    }

    method CurrentSegmentIdx(k: nat) returns (s: nat)
      requires StatesOk() && k < |instances|
      ensures k < |states| && s == states[k].segmentIdx
    {
      s := instances[k].segmentIdx;
    }

    /** Only the matcher of a dirty pattern has changed, and only its items have been added. */
    twostate lemma DirtyKept(k: nat)
      requires old(DirtyOk()) && dirty == old(dirty) && dirtyList == old(dirtyList) && k < |dirty| && dirty[k]
      requires queue.Valid()
      requires |states| == |old(states)| && forall j :: 0 <= j < |states| && j != k ==> states[j] == old(states)[j]
      requires forall d :: d in queue.queue ==>
                             d in old(queue.queue) || (d.patternId == k && d.nextPatternPos <= PATTERN_MAX)
      ensures DirtyOk()
    {
      hide FreshState;
    }

    /** All hits of one more code point, each against its own pattern. */
    method IterateOneCodePoint(result: array<bool>)
      requires Valid() && textOffset < |text| && result.Length == |instances| && result !in footprint
      requires Settled(TheWorld(), Now(result[..]))
      modifies this, queue, footprint, result
      ensures Valid() && text == old(text) && t == old(t) && codepointIdx == old(codepointIdx) + 1
      ensures HitsDone(TheWorld(), Now(result[..])) && Untouched(TheWorld(), old(result[..]), result[..])
    {
      hide Valid, AutomatonOk, Separate, StatesOk, DirtyOk, PositionOk, HitsDone, Settled, AllReached, Emission,
           World.Valid, DoneBy, Untouched, AhoCorasick.Valid;
      Sizes();
      ReadOn();
      ghost var w, before := TheWorld(), Now(result[..]);
      NextStep(w, before);
      ContinueParseText();
      assert Now(result[..]) == before.(idx := before.idx + 1, seen := []);
      HandleHits(result, w);
    }

    method HandleHits(result: array<bool>, ghost w: World)
      requires Valid() && seen == [] && result.Length == |instances| && result !in footprint && codepointIdx <= |t|
      requires TheWorld() == w && Emission(w.occ, t[..codepointIdx], emitBuffer) && AllReached(w, Now(result[..]))
      modifies `states, `dirty, `dirtyList, `seen, queue, footprint, result
      ensures Valid() && TheWorld() == w && HitsDone(w, Now(result[..])) && Untouched(w, old(result[..]), result[..])
    {
      hide Valid, AutomatonOk, Separate, StatesOk, DirtyOk, PositionOk, HitsDone, AllReached, Emission, World.Valid,
           DoneBy, Untouched, AhoCorasick.Valid, DelayedMatchQueue.Valid;
      ghost var first := result[..];
      UntouchedSelf(w, first);
      Sizes();
      var n := 0;
      while n < |emitBuffer|
        invariant n <= |emitBuffer| && seen == emitBuffer[..n]
        invariant Valid() && automaton.Valid() && TheWorld() == w && AllReached(w, Now(result[..]))
        invariant Untouched(w, first, result[..])
      {
        NextHit(n, result, w, first);
        n := n + 1;
      }
      assert emitBuffer[..n] == emitBuffer;
      AllHitsDone(w, Now(result[..]), emitBuffer);
    }

    method NextHit(n: nat, result: array<bool>, ghost w: World, ghost first: seq<bool>)
      requires Valid() && result.Length == |instances| && result !in footprint && codepointIdx <= |t|
      requires automaton.Valid() && TheWorld() == w && Emission(w.occ, t[..codepointIdx], emitBuffer)
      requires AllReached(w, Now(result[..])) && Untouched(w, first, result[..])
      requires n < |emitBuffer| && seen == emitBuffer[..n]
      modifies `states, `dirty, `dirtyList, `seen, queue, footprint, result
      ensures Valid() && AllReached(w, Now(result[..])) && Untouched(w, first, result[..])
      ensures seen == emitBuffer[..n + 1]
    {
      hide Valid, AutomatonOk, Separate, StatesOk, DirtyOk, PositionOk, AllReached, Emission, World.Valid, DoneBy,
           IsHitAt, SegsValid, Untouched;
      Sizes();
      EmissionFacts(w, Now(result[..]), emitBuffer, n);
      NextSlice(emitBuffer, n);
      OneHit(emitBuffer[n], result, w);
      UntouchedTrans(w, first, old(result[..]), result[..]);
    }

    /** The hits of a pattern that has matched already are skipped. */
    method HitOrSkip(m: MatchingOutput, result: array<bool>, ghost w: World)
      requires Valid() && result.Length == |instances| && result !in footprint
      requires automaton.Valid() && TheWorld() == w && AllReached(w, Now(result[..]))
      requires w.Live(m.patternId) && IsHitAt(w.JobOf(m.patternId), m, codepointIdx) && SegsValid(w.sks[m.patternId])
      requires m.startPos < U64 && m.textStartPos < U64
      modifies `states, `dirty, `dirtyList, queue, footprint, result
      ensures StatesOk() && DirtyOk()
      ensures Now(result[..]) == AfterHit(w, old(Now(result[..])), m).(seen := seen)
    {
      hide AutomatonOk, Separate, StatesOk, DirtyOk, PositionOk, AllReached, OnHit, World.Valid, DoneBy,
           QueueAfter, Follows, IsHitAt, SegsValid, AfterHit;
      ghost var s := Now(result[..]);
      var k := m.patternId;
      Sizes();
      if !result[k] {
        HitReady(w, s, m);
        HandleHit(m, result, w.JobOf(k));
        HitHandled(w, s, m);
      } else {
        HitIgnored(w, s, m);
      }
    }

    method OneHit(m: MatchingOutput, result: array<bool>, ghost w: World)
      requires Valid() && result.Length == |instances| && result !in footprint
      requires automaton.Valid() && TheWorld() == w && AllReached(w, Now(result[..]))
      requires w.Live(m.patternId) && IsHitAt(w.JobOf(m.patternId), m, codepointIdx) && SegsValid(w.sks[m.patternId])
      requires m.startPos < U64 && m.textStartPos < U64 && m.startPos !in DoneBy(seen, m.patternId)
      modifies `states, `dirty, `dirtyList, `seen, queue, footprint, result
      ensures Valid() && seen == old(seen) + [m] && AllReached(w, Now(result[..]))
      ensures Untouched(w, old(result[..]), result[..])
    {
      hide Valid, AutomatonOk, Separate, StatesOk, DirtyOk, PositionOk, AllReached, World.Valid, DoneBy, Follows,
           IsHitAt, SegsValid, OnHit, AfterHit;
      Sizes();
      ghost var s := Now(result[..]);
      HitOrSkip(m, result, w);
      seen := seen + [m];
      HitKeeps(w, s, m);
      HitSeen(w, s, m);
      HitTouches(w, s, m);
      ValidSame();
      assert Now(result[..]) == AfterHit(w, s, m);
    }

    // ----- due items -----

    /** Everything that has become due goes into the cache of its matcher. */
    method ProcessDelayedMatching(ghost result: seq<bool>)
      requires Valid() && HitsDone(TheWorld(), Now(result))
      modifies `states, `evicted, queue, footprint
      ensures Valid() && Settled(TheWorld(), Now(result))
    {
      hide Valid, AutomatonOk, Separate, StatesOk, DirtyOk, PositionOk, HitsDone, World.Valid, DelayedMatchQueue.Valid,
           AhoCorasick.Valid;
      Sizes();
      ghost var w := TheWorld();
      QueueValid();
      var ready := queue.FrontReady(codepointIdx);
      while ready
        invariant Valid() && automaton.Valid() && TheWorld() == w && HitsDone(w, Now(result))
        invariant ready <==> exists m :: m in queue.queue && m.readyCpIdx <= codepointIdx
        decreases |queue.queue|
      {
        OneItem(result, w);
        QueueValid();
        ready := queue.FrontReady(codepointIdx);
      }
    }

    method OneItem(ghost result: seq<bool>, ghost w: World)
      requires Valid() && automaton.Valid() && TheWorld() == w && HitsDone(w, Now(result))
      requires exists m :: m in queue.queue && m.readyCpIdx <= codepointIdx
      modifies `states, `evicted, queue, footprint
      ensures Valid() && HitsDone(w, Now(result)) && |queue.queue| < old(|queue.queue|)
    {
      hide Valid, AutomatonOk, Separate, StatesOk, DirtyOk, PositionOk, HitsDone, World.Valid, AfterStore, Off,
           Upserted, TEXT_MAX, DueEntry, Diff, AhoCorasick.Valid, DelayedMatchQueue.Valid, AllReached, Settled;
      ghost var s := Now(result);
      Sizes();
      DoneSized(w, s);
      var item := StoreFront(w);
      evicted := AfterStore(w, s, item).evicted;
      StoredIs(w, s, item);
      ValidSame();
      assert Now(result) == AfterStore(w, s, item);
      StoreHits(w, s, item);
    }

    /** `Front`, `Upsert` and `Pop`. */
    method StoreFront(ghost w: World) returns (d: DelayedMatch)
      requires Valid() && automaton.Valid() && TheWorld() == w && |w.sks| == |w.pats|
      requires exists m :: m in queue.queue && m.readyCpIdx <= codepointIdx
      modifies `states, queue, footprint
      ensures StatesOk() && DirtyOk() && d in old(queue.queue) && queue.queue == old(queue.queue) - multiset{d}
      ensures d.readyCpIdx <= codepointIdx <= |w.t| && Off(w.t, codepointIdx) < TEXT_MAX
      ensures d.patternId < |old(states)| == |w.sks| && w.Live(d.patternId) && d.nextPatternPos <= PATTERN_MAX
      ensures var k, e := d.patternId, DueEntry(w.JobOf(d.patternId), d, codepointIdx);
              states ==
              old(states)[k := old(states)[k].(entries := Upserted(old(states)[k].entries, e, old(states)[k].cap))]
    {
      hide AutomatonOk, Separate, StatesOk, DirtyOk, PositionOk, World.Valid, Off, Upserted, TEXT_MAX, DueEntry, Diff,
           DelayedMatchQueue.Valid;
      Sizes();
      Position();
      QueueReady();
      d := queue.Front();
      ItemFacts(d);
      StoreItem(d, w.JobOf(d.patternId));
      DirtyKept(d.patternId);
      label Stored:
      queue.Pop();
      StatesSame@Stored();
      ItemTaken@Stored(d);
    }

    lemma QueueValid()
      requires Valid()
      ensures queue.Valid()
    {
      hide Separate, StatesOk, FreshState, AutomatonOk, PositionOk, DelayedMatchQueue.Valid;
    }

    lemma QueueReady()
      requires DirtyOk()
      ensures queue.Valid()
    {
      hide FreshState, DelayedMatchQueue.Valid;
    }

    /** What is in the queue belongs to a dirty pattern. */
    lemma ItemFacts(d: DelayedMatch)
      requires DirtyOk() && d in queue.queue
      ensures d.patternId < |dirty| == |states| && dirty[d.patternId] && d.nextPatternPos <= PATTERN_MAX
      ensures queue.Valid() && !buildSide.skeletons[d.patternId].onlyWildcard
    {
      hide FreshState;
    }

    /** Taking it out leaves the rest in order. */
    twostate lemma ItemTaken(d: DelayedMatch)
      requires old(DirtyOk()) && queue.Valid()
      requires dirty == old(dirty) && dirtyList == old(dirtyList) && states == old(states)
      requires d in old(queue.queue) && queue.queue == old(queue.queue) - multiset{d}
      ensures DirtyOk()
    {
      hide FreshState;
    }

    method StoreItem(d: DelayedMatch, ghost c: Job)
      requires Apart() && Separate() && StatesOk() && d.patternId < |instances| && d.nextPatternPos <= PATTERN_MAX
      requires c.t == t && codepointIdx <= |t| && textOffset == Off(t, codepointIdx) < TEXT_MAX
      modifies `states, footprint
      ensures StatesOk()
      ensures var k, e := d.patternId, DueEntry(c, d, old(codepointIdx));
              states ==
              old(states)[k := old(states)[k].(entries := Upserted(old(states)[k].entries, e, old(states)[k].cap))]
    {
      hide Upserted, Off, Diff;
      var k := d.patternId;
      instances[k].Upsert(Diff(textOffset, d.nextPatternPos), d.prevPatternPos);
      ghost var e := DueEntry(c, d, codepointIdx);
      states := states[k := states[k].(entries := Upserted(states[k].entries, e, states[k].cap))];
    }

    lemma Sizes()
      requires Valid()
      ensures |states| == |dirty| == |instances| == |buildSide.skeletons| == |evicted| && text == Encode(t)
      ensures automaton.Valid() && TheWorld().Valid() && Apart()
    {
      hide Encode, Built, AllLinked, AhoCorasick.Valid, AtDeepest, Deepest;
    }

    lemma Position()
      requires PositionOk()
      ensures codepointIdx <= |t| && textOffset == Off(t, codepointIdx) && Off(t, codepointIdx) < TEXT_MAX
    {
      hide Encode, AtDeepest, Deepest, Off;
      OffEnds(t);
      OffOrder(t, codepointIdx, |t|);
    }

    /** The text is over when all its code points have been read. Every suffix link shortens the suffix the
        automaton stands for by a code point, so there are no more of them than code points. */
    lemma Progress()
      requires Valid()
      ensures codepointIdx <= |t| && (textOffset < |text| <==> codepointIdx < |t|)
      ensures hops == TotalLinks(automaton.at, t, codepointIdx) <= codepointIdx
    {
      hide Encode, AtDeepest, Off, AutomatonOk, Separate, StatesOk, DirtyOk, TotalLinks, AhoCorasick.Valid;
      OffEnds(t);
      OffOrder(t, codepointIdx, |t|);
      Sizes();
      TrieOf(automaton);
      LinksLinear(automaton.nodes, automaton.root, automaton.at, t, codepointIdx);
    }

    lemma ReadOn()
      requires Valid() && textOffset < |text|
      ensures codepointIdx < |t| && automaton.Valid() && TheWorld().Valid()
    {
      hide Encode, Built, AllLinked, AhoCorasick.Valid, AtDeepest, Deepest, Off;
      OffEnds(t);
    }
  }

  lemma NextSlice<T>(s: seq<T>, n: nat)
    requires n < |s|
    ensures s[..n + 1] == s[..n] + [s[n]]
  {
  }

  lemma OnHitIs(c: Job, r: Run, m: MatchingOutput)
    requires SegsValid(c.sk) && m.startPos < U64 && m.textStartPos < U64 && !r.matched
    requires r.st.segmentIdx < |c.sk.segs|
    ensures Consume(c.sk, r.st, m).segmentIdx == r.st.segmentIdx
    ensures var n, seg, tail := OnHit(c, r, m), c.sk.segs[r.st.segmentIdx],
                                SegmentTailEnd(c.sk, m, r.st.segmentIdx, Encode(c.t));
            && n.queue == r.queue + QueueAfter(c, r.st, multiset{}, m, r.idx)
            && (!Fits(c.sk, r.st, m, Encode(c.t)) ==>
                  n.st == Consume(c.sk, r.st, m) && !n.matched
                  && QueueAfter(c, r.st, multiset{}, m, r.idx) == multiset{})
            && (Fits(c.sk, r.st, m, Encode(c.t)) ==>
                  && QueueAfter(c, r.st, multiset{}, m, r.idx) == Scheduled(c.sk, r.st, m, r.idx)
                  && seg.Valid() && seg.Contain(m.startPos)
                  && if seg.IsLastLiteral(m.startPos) && tail.Some?
                        && ValidLastLiteral(c.sk, r.st.segmentIdx, tail.value, |Encode(c.t)|)
                     then n.st == NextSegment(c.sk, c.caps, Consume(c.sk, r.st, m), tail.value)
                          && n.matched == (r.st.segmentIdx + 1 >= |c.sk.segs|)
                     else n.st == Consume(c.sk, r.st, m) && !n.matched)
  {
    hide NextSegment, Encode, Segment.Valid, SegmentTailEnd, Scheduled, ValidLastLiteral, Without;
    if Fits(c.sk, r.st, m, Encode(c.t)) { FitsRelevant(c, r.st, m); }
  }

  lemma BuiltDisjoint(analyzer: PatternAnalyzer, sources: seq<Source>, occ: Occurrence)
    requires Built(analyzer.skeletons, analyzer.pats, sources, occ)
    ensures Disjoint(occ)
  {
    hide Encode, Like, Accepts, Named, Disjoint, AllLits, SegmentsReady, Pattern.Valid, OnlyWildcards;
    forall k | 0 <= k < |analyzer.pats| ensures analyzer.pats[k].Valid() {
      assert Compiled(analyzer.skeletons[k], analyzer.pats[k], sources[k]);
    }
    NamedDisjoint(analyzer.pats, occ);
  }

  /** The literal at the next output node. */
  lemma OutAt(ac: AhoCorasick, w: seq<Code>, k: nat) returns (n: nat)
    requires ac.Valid() && NextOut(ac.at, ac.dict, w, k) != None
    ensures k <= n < |w| && w[n..] in ac.dict && InTrie(ac.at, w[n..])
    ensures NextOut(ac.at, ac.dict, w, k) == Some(ac.at[Encode(w[n..])])
    ensures forall i :: k <= i < n ==> w[i..] !in ac.dict
  {
    hide Encode, IsWord, Registered;
    n := NextLiteral(ac.dict, w, k);
    LiteralInTrie(ac.nodes, ac.root, ac.at, ac.dict, w[n..]);
  }

  lemma NoneLeft(ac: AhoCorasick, w: seq<Code>, k: nat)
    requires ac.Valid() && NextOut(ac.at, ac.dict, w, k) == None
    ensures forall i :: k <= i < |w| + 1 ==> w[i..] !in ac.dict
  {
    hide Encode, IsWord, Registered;
    EmptyNotLiteral(ac.nodes, ac.root, ac.at, ac.dict, w);
    LiteralsInTrie(ac);
  }

  lemma LiteralsInTrie(ac: AhoCorasick)
    requires ac.Valid()
    ensures forall l :: l in ac.dict ==> InTrie(ac.at, l)
  {
    hide Encode, IsWord, Registered;
  }

  /** Reading the code point at `i` yields it, and the offset of the one behind it. */
  lemma ReadNext(t: seq<Code>, i: nat)
    requires i < |t|
    ensures Off(t, i) < Off(t, i + 1) <= |Encode(t)| && t[..i + 1] == t[..i] + [t[i]]
    ensures ReadCodePoint(Encode(t), Off(t, i)) == ReadResult(Off(t, i + 1), t[i])
    ensures Encode(t)[Off(t, i)..Off(t, i + 1)] == WriteCodePoint(t[i])
    ensures Off(t, i + 1) == |Encode(t[..i + 1])|
  {
    hide Encode, WriteCodePoint, ReadCodePoint;
    ReadAt(t, i);
    OffStep(t, i);
    OffOrder(t, i, i + 1);
    OffIs(t, i + 1);
  }

  lemma StartPosition(ac: AhoCorasick, t: seq<Code>)
    requires ac.Valid()
    ensures t[..0] == [] && AtDeepest(ac.at, t[..0], ac.root) && Encode([]) == [] && Off(t, 0) == 0
  {
    hide IsWord, Registered, Spells;
    RootPath(ac.nodes, ac.root, ac.at);
    EmptyInTrie(ac.at);
    OffEnds(t);
  }

  lemma TrieOf(ac: AhoCorasick)
    requires ac.Valid()
    ensures Shape(ac.nodes, ac.root, ac.at) && Spells(ac.nodes, ac.root, ac.at, ac.dict) && [] in ac.at
    ensures forall k: seq<Code> :: k in ac.dict ==> k != []
  {
    hide Encode, IsWord;
  }

  lemma AllLinkedAt(ac: AhoCorasick, w: seq<Code>)
    requires AllLinked(ac.nodes, ac.at, ac.dict) && InTrie(ac.at, w)
    ensures Linked(ac.nodes, ac.at, ac.dict, w)
  {
    hide Linked;
  }

  lemma CodeBytes(c: Code)
    ensures 0 !in WriteCodePoint(c)
  {
    hide WriteCodePoint;
    EncodeOne(c);
    NoZero([c]);
  }

  lemma NextMissing(at: map<Path, nat>, w: seq<Code>)
    ensures WordNode(at, w) == None <==> !InTrie(at, w)
  {
  }

  lemma WordNodeIs(at: map<Path, nat>, w: seq<Code>)
    ensures InTrie(at, w) <==> WordNode(at, w) != None
    ensures InTrie(at, w) ==> WordNode(at, w) == Some(at[Encode(w)])
  {
  }

  lemma EmptyStep(at: map<Path, nat>, w: seq<Code>, c: Code, j: nat)
    requires j == |w| && NoneGoesOn(at, w, c, 0, j) && !InTrie(at, w[j..] + [c])
    ensures NoneGoesOn(at, w, c, 0, |w| + 1)
  {
    hide InTrie;
    assert (w + [c])[|w|..] == w[j..] + [c];
  }

  lemma SuffixOffset(w: seq<Code>, k: nat)
    requires k <= |w|
    ensures Off(w, k) + |Encode(w[k..])| == |Encode(w)|
  {
    hide Encode;
    EncodeSlice(w, k, |w|);
    assert w[k..|w|] == w[k..];
    OffEnds(w);
  }

  lemma PartlyStart(occ: Occurrence, w: seq<Code>, got: set<(nat, PatternIndex)>, k: nat)
    requires Covered(occ, w, got, k)
    ensures Partly(occ, w, got, k, {})
  {
  }

  lemma PartlyEnd(occ: Occurrence, w: seq<Code>, got: set<(nat, PatternIndex)>, k: nat)
    requires k <= |w| && w[k..] in occ && Partly(occ, w, got, k, occ[w[k..]])
    ensures Covered(occ, w, got, k + 1)
  {
  }

  lemma InIs(occ: Occurrence, l: seq<Code>, ix: PatternIndex)
    requires l in occ && ix in occ[l]
    ensures In(occ, l, ix)
  {
  }

  lemma HitIsNow(w: seq<Code>, k: nat, ix: PatternIndex)
    requires k <= |w|
    ensures HitOf(w, k, ix) == MatchingOutput(ix.patternId, ix.startPos, |Encode(w[k..])|, Off(w, k))
  {
  }
}
