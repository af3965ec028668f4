/** One automaton for many patterns, one row at a time. */
module Probe {
  import opened Options
  import opened Utf8
  import opened LikePredicate
  import opened Layouts
  import opened PatternTexts
  import opened Tokenizers
  import opened Skeletons
  import opened Compiler
  import opened Matchers
  import opened Alignments
  import opened Capacities
  import opened Tries
  import opened AhoCorasicks
  import opened Scanning
  import opened Probing
  import opened Parsers
  import opened WildcardOnly

  datatype AcBuild = AcBuild(trie: AhoCorasick, buildSide: PatternAnalyzer, patterns: seq<seq<byte>>,
                             wildcardOnly: seq<nat>)
  {
    ghost predicate Valid(srcs: seq<Source>)
      reads trie
    {
      && trie.Valid() && AllLinked(trie.nodes, trie.at, trie.dict)
      && Built(buildSide.skeletons, buildSide.pats, srcs, trie.Occ())
      && |buildSide.skeletons| == |patterns| == |srcs|
      && (forall k :: 0 <= k < |srcs| ==> Usable(patterns[k], srcs[k].esc, srcs[k]))
      && (forall k: nat :: k in wildcardOnly <==> k < |patterns| && NoLiteral(buildSide.skeletons[k]))
    }
  }

  predicate NoLiteral(sk: Skeleton)
  {
    sk.segs == [] || sk.onlyWildcard
  }

  /** A pattern as code points, with an escape character or without: it does not end in a bare escape character, and
      the tokenizer reads it right. */
  ghost predicate Accepted(pc: seq<Code>, esc: Option<Code>)
  {
    && ProperEscape(esc) && BareEscape !in Reads(pc, esc)
    && SourceOf(pc, esc).Readable() && |Encode(pc)| <= 0xFFFF
  }

  ghost function SourceFor(pc: seq<Code>, esc: Option<Code>): Source
    requires Accepted(pc, esc)
  {
    SourceOf(pc, esc)
  }

  ghost function Sources(codes: seq<seq<Code>>, esc: Option<Code>): (srcs: seq<Source>)
    requires forall k :: 0 <= k < |codes| ==> Accepted(codes[k], esc)
    ensures |srcs| == |codes| && forall k :: 0 <= k < |codes| ==> srcs[k] == SourceFor(codes[k], esc)
  {
    seq(|codes|, k requires 0 <= k < |codes| => SourceFor(codes[k], esc))
  }

  lemma SourceUsable(pc: seq<Code>, esc: Option<Code>)
    requires Accepted(pc, esc)
    ensures Usable(Encode(pc), esc, SourceFor(pc, esc)) && SourceFor(pc, esc).Syms() == Reads(pc, esc)
  {
    hide Encode, Source.Readable, Reads;
    TokensAre(pc, esc);
  }

  /** Without an ESCAPE clause only the length matters; with one it is enough that the escape character always stands
      in front of a wildcard. */
  lemma WildcardsAccepted(pc: seq<Code>, esc: Option<Code>)
    requires ProperEscape(esc) && |Encode(pc)| <= 0xFFFF
    requires forall x :: 0 <= x < |pc| && esc == Some(pc[x]) ==> x + 1 < |pc| && IsWildcard(pc[x + 1])
    ensures Accepted(pc, esc)
  {
    hide Encode, Source.Readable, Reads, Tokens;
    WildcardTokens(pc, esc);
    TokensAre(pc, esc);
    WildcardsEscaped(SourceOf(pc, esc));
  }

  method BuildAc(patterns: seq<seq<byte>>, escape: Option<Code>, ghost srcs: seq<Source>) returns (b: AcBuild)
    requires |srcs| == |patterns| && forall k :: 0 <= k < |patterns| ==> Usable(patterns[k], escape, srcs[k])
    ensures b.Valid(srcs) && b.patterns == patterns && fresh(b.trie)
  {
    hide AhoCorasick.Valid, AllLinked, Built, NoLinks, SuffixLinks.SameTree, Compiled, NamedOver;
    var trie := new AhoCorasick();
    var buildSide := new PatternAnalyzer(patterns, escape, trie, srcs);
    BuiltWhole(buildSide, srcs, trie.Occ());
    trie.BuildSuffixLink();
    BuiltSizes(buildSide, srcs, trie.Occ());
    var wildcardOnly: seq<nat> := [];
    for i := 0 to |patterns|
      invariant forall k: nat :: k in wildcardOnly <==> k < i && NoLiteral(buildSide.skeletons[k])
    {
      if NoLiteral(buildSide.skeletons[i]) { wildcardOnly := wildcardOnly + [i]; }
    }
    forall k | 0 <= k < |srcs| ensures Usable(patterns[k], srcs[k].esc, srcs[k]) {
      assert Usable(patterns[k], escape, srcs[k]);
    }
    b := AcBuild(trie, buildSide, patterns, wildcardOnly);
  }

  lemma BuiltWhole(analyzer: PatternAnalyzer, srcs: seq<Source>, occ: Occurrence)
    requires |analyzer.skeletons| == |analyzer.pats| == |srcs| && NamedOver(map[], analyzer.pats, occ)
    requires forall k :: 0 <= k < |srcs| ==> Compiled(analyzer.skeletons[k], analyzer.pats[k], srcs[k])
    ensures Built(analyzer.skeletons, analyzer.pats, srcs, occ)
  {
    hide Compiled, NamedOver, Named;
    NamedAll(analyzer.pats, occ);
  }

  lemma BuiltSizes(analyzer: PatternAnalyzer, srcs: seq<Source>, occ: Occurrence)
    requires Built(analyzer.skeletons, analyzer.pats, srcs, occ)
    ensures |analyzer.skeletons| == |analyzer.pats| == |srcs|
  {
    hide Compiled, Named;
  }

  /** Which patterns are answered without the automaton. */
  lemma NoLiteralIs(analyzer: PatternAnalyzer, srcs: seq<Source>, occ: Occurrence, k: nat)
    requires Built(analyzer.skeletons, analyzer.pats, srcs, occ) && k < |srcs|
    ensures NoLiteral(analyzer.skeletons[k]) <==> analyzer.skeletons[k].onlyWildcard
    ensures NoLiteral(analyzer.skeletons[k]) ==> OnlyWildcards(srcs[k].Syms())
  {
    hide Named, Like, Accepts, OnlyWildcards, Encode, SegsValid, ShowsAll, Pattern.Valid, AllLits, CompilesTo;
    assert Compiled(analyzer.skeletons[k], analyzer.pats[k], srcs[k]);
  }

  lemma NoLiteralAll(analyzer: PatternAnalyzer, srcs: seq<Source>, occ: Occurrence)
    requires Built(analyzer.skeletons, analyzer.pats, srcs, occ)
    ensures |analyzer.skeletons| == |srcs|
    ensures forall k :: 0 <= k < |srcs| ==> (NoLiteral(analyzer.skeletons[k]) <==> analyzer.skeletons[k].onlyWildcard)
  {
    hide Built, NoLiteral;
    BuiltSizes(analyzer, srcs, occ);
    forall k | 0 <= k < |srcs| ensures NoLiteral(analyzer.skeletons[k]) <==> analyzer.skeletons[k].onlyWildcard {
      NoLiteralIs(analyzer, srcs, occ, k);
    }
  }

  lemma BuildFacts(b: AcBuild, srcs: seq<Source>)
    requires b.Valid(srcs)
    ensures |b.patterns| == |srcs| == |b.buildSide.skeletons| == |b.buildSide.pats|
    ensures forall k :: 0 <= k < |srcs| ==>
                          (NoLiteral(b.buildSide.skeletons[k]) <==> b.buildSide.skeletons[k].onlyWildcard)
  {
    hide Built, NoLiteral, AhoCorasick.Valid, AllLinked, Usable;
    BuiltSizes(b.buildSide, srcs, b.trie.Occ());
    NoLiteralAll(b.buildSide, srcs, b.trie.Occ());
  }

  /** A pattern of wildcards only is read right with or without the ESCAPE clause; the probe reads it without. */
  lemma WildcardsPlain(p: seq<byte>, src: Source)
    requires Usable(p, src.esc, src) && OnlyWildcards(src.Syms())
    ensures var plain := Source(src.toks, None);
            plain.Valid() && plain.Readable() && p == plain.Bytes() && plain.Syms() == src.Syms()
  {
    hide Source.Readable;
    var plain := Source(src.toks, None);
    forall j | 0 <= j < |src.toks| ensures !src.toks[j].escaped {
      assert src.Syms()[j] == src.toks[j].Sym();
    }
    PlainBytes(src.toks, src.esc);
    WildcardsEscaped(plain);
  }

  lemma {:induction false} PlainBytes(toks: seq<Tok>, esc: Option<Code>)
    requires forall j :: 0 <= j < |toks| ==> !toks[j].escaped
    ensures BytesOf(toks, None) == BytesOf(toks, esc)
  {
    if toks != [] { PlainBytes(toks[1..], esc); }
  }

  /** The patterns without a literal, answered by counting; everything else starts as not matched. */
  method AnswerWildcards(b: AcBuild, text: seq<byte>, result: array<bool>, ghost srcs: seq<Source>, ghost t: seq<Code>)
    requires b.Valid(srcs) && text == Encode(t) && result.Length == |b.patterns|
    modifies result
    ensures forall k :: 0 <= k < |srcs| ==>
              (result[k] <==> NoLiteral(b.buildSide.skeletons[k]) && Like(srcs[k].Syms(), t))
  {
    hide AhoCorasick.Valid, AllLinked, Built, Encode, Like, OnlyWildcards, NoLiteral, Usable, Source.Valid,
         Source.Readable, Source.Bytes, Source.Syms;
    BuiltSizes(b.buildSide, srcs, b.trie.Occ());
    for i := 0 to result.Length
      invariant forall k :: 0 <= k < i ==> !result[k]
    {
      result[i] := false;
    }
    for i := 0 to |b.wildcardOnly|
      invariant forall k :: 0 <= k < |srcs| ==>
                  (result[k] <==> k in b.wildcardOnly[..i] && Like(srcs[k].Syms(), t))
    {
      var k := b.wildcardOnly[i];
      assert k in b.wildcardOnly && b.wildcardOnly[..i + 1] == b.wildcardOnly[..i] + [k];
      NoLiteralIs(b.buildSide, srcs, b.trie.Occ(), k);
      WildcardsPlain(b.patterns[k], srcs[k]);
      result[k] := SpecialMatchEmptyPattern(b.patterns[k], text, None, Source(srcs[k].toks, None), t);
    }
    assert b.wildcardOnly[..|b.wildcardOnly|] == b.wildcardOnly;
  }

  /** One code point: its hits, then what has become due. */
  method ProbeCodePoint(iter: TextParserIterator, result: array<bool>, ghost w: World)
    requires iter.Valid() && iter.automaton.Valid() && iter.TheWorld() == w && Settled(w, iter.Now(result[..]))
    requires iter.textOffset < |iter.text| && result.Length == |iter.instances| && result !in iter.footprint
    modifies iter, iter.queue, iter.footprint, result
    ensures iter.Valid() && iter.automaton.Valid() && iter.TheWorld() == w && Settled(w, iter.Now(result[..]))
    ensures iter.codepointIdx == old(iter.codepointIdx) + 1 && iter.t == old(iter.t) && iter.text == old(iter.text)
    ensures Untouched(w, old(result[..]), result[..])
  {
    hide TextParserIterator.Valid, Settled, HitsDone, Untouched, AhoCorasick.Valid;
    iter.Sizes();
    iter.IterateOneCodePoint(result);
    iter.Sizes();
    ghost var now := result[..];
    iter.ProcessDelayedMatching(now);
    iter.Sizes();
    assert result[..] == now;
  }

  lemma SettledAtStart(w: World, s: Snapshot)
    requires w.Valid() && s.Sized(|w.sks|) && s.queue == multiset{} && s.idx == 0 && s.seen == []
    requires forall k :: 0 <= k < |w.sks| ==> s.states[k] == FreshState(w.sks[k]) && !s.evicted[k]
    requires forall k :: 0 <= k < |w.sks| && w.Live(k) ==> !s.result[k]
    ensures Settled(w, s)
  {
    hide World.Valid, AllReached, FreshState, Job.AllDone;
    StartAll(w, s);
    assert forall k: nat :: DoneBy([], k) == {};
    forall k | 0 <= k < |w.sks| && w.Live(k) ensures w.JobOf(k).AllDone(0, DoneBy([], k)) {
      NothingAtStart(w, k);
    }
  }

  /** What the result says when the text is over. */
  lemma ProbeDecides(w: World, s: Snapshot, first: seq<bool>)
    requires Settled(w, s) && s.idx == |w.t| && Untouched(w, first, s.result) && |first| == |w.srcs|
    requires forall k :: 0 <= k < |first| ==> (first[k] <==> NoLiteral(w.sks[k]) && Like(w.srcs[k].Syms(), w.t))
    requires forall k :: 0 <= k < |first| ==> (NoLiteral(w.sks[k]) <==> w.sks[k].onlyWildcard)
    ensures |s.evicted| == |s.result| == |w.srcs| == |w.sks| == |w.pats|
    ensures forall k :: 0 <= k < |w.srcs| && s.result[k] ==> Like(w.srcs[k].Syms(), w.t)
    ensures forall k :: 0 <= k < |w.srcs| && (NoLiteral(w.sks[k]) || !s.evicted[k]) ==>
                          (s.result[k] <==> Like(w.srcs[k].Syms(), w.t))
    ensures forall k :: 0 <= k < |w.srcs| && (AllRoomy(w.pats[k], CodeCaps(w.sks[k])) || ShortLater(w.pats[k])
                                              || Fitted(w.pats[k])) ==>
                          (s.result[k] <==> Like(w.srcs[k].Syms(), w.t))
    ensures AllReached(w, s)
  {
    hide World.Valid, AllReached, Like, NoLiteral, AllRoomy, ShortLater, Fitted, Job.AllDone, DoneBy, Source.Syms;
    DoneSized(w, s);
    WorldSizes(w);
    SettledReached(w, s);
    forall k | 0 <= k < |w.srcs|
      ensures s.result[k] ==> Like(w.srcs[k].Syms(), w.t)
      ensures NoLiteral(w.sks[k]) || !s.evicted[k] ==> (s.result[k] <==> Like(w.srcs[k].Syms(), w.t))
      ensures AllRoomy(w.pats[k], CodeCaps(w.sks[k])) || ShortLater(w.pats[k]) || Fitted(w.pats[k]) ==>
                (s.result[k] <==> Like(w.srcs[k].Syms(), w.t))
    {
      if w.Live(k) { Decided(w, s, k); }
    }
  }

  /** `evicted` says what the runs say. */
  lemma SettledReached(w: World, s: Snapshot)
    requires Settled(w, s)
    ensures AllReached(w, s)
  {
  }

  lemma WorldSizes(w: World)
    requires w.Valid()
    ensures |w.sks| == |w.pats| == |w.srcs|
  {
    hide Compiled, Named, Encode;
  }

  /** Row `text` against all patterns. The iterator may have read anything before, up to any point. Afterwards it is,
      for every pattern with a literal, at the end of a run of that pattern over the text; `evicted` is what that run
      says: whether an alignment that was still waiting has been evicted. A pattern that is reported does match. One
      that matches is reported unless its run has evicted such an alignment, which caches of the right size rule out,
      and so do patterns whose later literals are short. Suffix links are followed no more often than there are code
      points. */
  method AcProbe(b: AcBuild, iter: TextParserIterator, text: seq<byte>, result: array<bool>,
                 ghost codes: seq<seq<Code>>, ghost esc: Option<Code>, ghost t: seq<Code>)
    requires forall k :: 0 <= k < |codes| ==> Accepted(codes[k], esc)
    requires b.Valid(Sources(codes, esc)) && iter.Valid() && iter.automaton == b.trie && iter.buildSide == b.buildSide
    requires iter.srcs == Sources(codes, esc) && text == Encode(t) && |text| < 0x8000_0000_0000_0000
    requires result.Length == |b.patterns| && result !in iter.footprint
    modifies iter, iter.queue, iter.footprint, result
    ensures iter.Valid() && iter.hops == TotalLinks(b.trie.at, t, |t|) <= |t| && iter.t == t && iter.codepointIdx == |t|
    ensures iter.automaton.Valid() && AllReached(iter.TheWorld(), iter.Now(result[..]))
    ensures |iter.evicted| == |codes| == |b.buildSide.skeletons| == |b.buildSide.pats|
    ensures forall k :: 0 <= k < |codes| && result[k] ==> LikeEscape(codes[k], esc, t)
    ensures forall k :: 0 <= k < |codes| && (NoLiteral(b.buildSide.skeletons[k]) || !iter.evicted[k]) ==>
                          (result[k] <==> LikeEscape(codes[k], esc, t))
    ensures forall k :: 0 <= k < |codes| && (AllRoomy(b.buildSide.pats[k], CodeCaps(b.buildSide.skeletons[k]))
                                             || ShortLater(b.buildSide.pats[k]) || Fitted(b.buildSide.pats[k])) ==>
                          (result[k] <==> LikeEscape(codes[k], esc, t))
  {
    hide TextParserIterator.Valid, AcBuild.Valid, Settled, HitsDone, Untouched, AhoCorasick.Valid, Like, Encode,
         AllRoomy, ShortLater, Fitted, NoLiteral, FreshState, World.Valid, Accepted, AllReached, Reads, Source.Syms;
    ghost var srcs := Sources(codes, esc);
    SourcesRead(codes, esc);
    BuildFacts(b, srcs);
    AnswerWildcards(b, text, result, srcs, t);
    ghost var first := result[..];
    iter.Sizes();
    ProbeRow(iter, text, result, t);
    iter.Sizes();
    ProbeDecides(iter.TheWorld(), iter.Now(result[..]), first);
  }

  /** What the sources say is what the code points say. */
  lemma SourcesRead(codes: seq<seq<Code>>, esc: Option<Code>)
    requires forall k :: 0 <= k < |codes| ==> Accepted(codes[k], esc)
    ensures forall k, t :: 0 <= k < |codes| ==>
              (Like(Sources(codes, esc)[k].Syms(), t) <==> LikeEscape(codes[k], esc, t))
  {
    hide Like, Accepted, Reads, Source.Syms;
    forall k | 0 <= k < |codes| ensures Sources(codes, esc)[k].Syms() == Reads(codes[k], esc) {
      SourceUsable(codes[k], esc);
    }
  }

  /** The row loop. */
  method ProbeRow(iter: TextParserIterator, text: seq<byte>, result: array<bool>, ghost t: seq<Code>)
    requires iter.Valid() && text == Encode(t) && |text| < 0x8000_0000_0000_0000
    requires result.Length == |iter.instances| && result !in iter.footprint
    requires iter.automaton.Valid() && forall k :: 0 <= k < result.Length && iter.TheWorld().Live(k) ==> !result[k]
    modifies iter, iter.queue, iter.footprint, result
    ensures iter.Valid() && iter.hops == TotalLinks(iter.automaton.at, t, |t|) <= |t|
    ensures iter.t == t && iter.codepointIdx == |t| && iter.automaton.Valid()
    ensures iter.TheWorld() == old(iter.TheWorld()).(t := t) && Settled(iter.TheWorld(), iter.Now(result[..]))
    ensures Untouched(iter.TheWorld(), old(result[..]), result[..])
  {
    hide TextParserIterator.Valid, Settled, HitsDone, Untouched, AhoCorasick.Valid, Encode, FreshState, World.Valid;
    ghost var first := result[..];
    iter.ResetText(text, t);
    iter.Sizes();
    iter.Progress();
    ghost var w := iter.TheWorld();
    SettledAtStart(w, iter.Now(first));
    UntouchedSelf(w, first);
    while iter.textOffset < |iter.text|
      invariant iter.Valid() && iter.automaton.Valid() && iter.TheWorld() == w && Settled(w, iter.Now(result[..]))
      invariant iter.text == text && iter.t == t && iter.codepointIdx <= |t| && Untouched(w, first, result[..])
      decreases |t| - iter.codepointIdx
    {
      ghost var last := result[..];
      ProbeCodePoint(iter, result, w);
      iter.Progress();
      UntouchedTrans(w, first, last, result[..]);
    }
    iter.Progress();
  }
}
