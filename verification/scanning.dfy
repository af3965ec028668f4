/** What the automaton reports behind one code point: the hits of all suffixes of the text read so far. */
module Scanning {
  import opened Options
  import opened Utf8
  import opened Tries
  import opened SuffixLinks
  import opened AhoCorasicks
  import opened Matchers

  type Occurrence = map<seq<Code>, set<PatternIndex>>

  ghost predicate In(occ: Occurrence, l: seq<Code>, ix: PatternIndex)
  {
    l in occ && ix in occ[l]
  }

  /** No position of a pattern stands for two literals. */
  ghost predicate Disjoint(occ: Occurrence)
  {
    forall k, l, ix :: In(occ, k, ix) && In(occ, l, ix) ==> k == l
  }

  /** The hit of the suffix `w[i..]` behind the code points `w`. */
  ghost function HitOf(w: seq<Code>, i: nat, ix: PatternIndex): MatchingOutput
    requires i <= |w|
  {
    MatchingOutput(ix.patternId, ix.startPos, |Encode(w[i..])|, Off(w, i))
  }

  ghost predicate NoRepeats(out: seq<MatchingOutput>)
  {
    forall a, b :: 0 <= a < b < |out| ==>
                     out[a].patternId != out[b].patternId || out[a].startPos != out[b].startPos
  }

  /** `out` are the hits behind `w`: each one that there is, once, and nothing else. */
  ghost predicate Emission(occ: Occurrence, w: seq<Code>, out: seq<MatchingOutput>)
  {
    && NoRepeats(out)
    && (forall m :: m in out ==> exists i: nat, ix :: i <= |w| && In(occ, w[i..], ix) && m == HitOf(w, i, ix))
    && (forall i: nat, ix :: i <= |w| && In(occ, w[i..], ix) ==> HitOf(w, i, ix) in out)
  }

  // ----- building the list -----

  /** `out` are the hits of the pairs in `got`. */
  ghost predicate Exact(w: seq<Code>, out: seq<MatchingOutput>, got: set<(nat, PatternIndex)>)
  {
    && NoRepeats(out)
    && (forall p :: p in got ==> p.0 <= |w| && HitOf(w, p.0, p.1) in out)
    && (forall m :: m in out ==> exists p :: p in got && p.0 <= |w| && m == HitOf(w, p.0, p.1))
  }

  /** The pairs so far: all of the suffixes from code points before `k`. */
  ghost predicate Covered(occ: Occurrence, w: seq<Code>, got: set<(nat, PatternIndex)>, k: nat)
  {
    forall i: nat, ix :: (i, ix) in got <==> i < k && i <= |w| && In(occ, w[i..], ix)
  }

  /** ... and those of `w[k..]` that are in `some`. */
  ghost predicate Partly(occ: Occurrence, w: seq<Code>, got: set<(nat, PatternIndex)>, k: nat, some: set<PatternIndex>)
  {
    forall i: nat, ix :: (i, ix) in got <==> i <= |w| && ((i < k && In(occ, w[i..], ix)) || (i == k && ix in some))
  }

  /** The pairs of the suffix from `k` on. */
  ghost function PairsAt(occ: Occurrence, w: seq<Code>, k: nat): set<(nat, PatternIndex)>
    requires k <= |w|
  {
    if w[k..] in occ then set ix | ix in occ[w[k..]] :: (k, ix) else {}
  }

  lemma ExactAdd(w: seq<Code>, out: seq<MatchingOutput>, got: set<(nat, PatternIndex)>, i: nat, ix: PatternIndex)
    requires Exact(w, out, got) && i <= |w| && forall p :: p in got ==> p.1 != ix
    ensures Exact(w, out + [HitOf(w, i, ix)], got + {(i, ix)})
  {
    hide Off, Encode;
    var more, h := out + [HitOf(w, i, ix)], HitOf(w, i, ix);
    forall m | m in out ensures m.patternId != ix.patternId || m.startPos != ix.startPos {
      var p :| p in got && p.0 <= |w| && m == HitOf(w, p.0, p.1);
    }
    assert NoRepeats(more);
    forall m | m in more ensures exists p :: p in got + {(i, ix)} && p.0 <= |w| && m == HitOf(w, p.0, p.1) {
      if m in out {
        var p :| p in got && p.0 <= |w| && m == HitOf(w, p.0, p.1);
        assert p in got + {(i, ix)};
      } else {
        assert m == h && (i, ix) in got + {(i, ix)};
      }
    }
  }

  lemma ExactNil(occ: Occurrence, w: seq<Code>)
    ensures Exact(w, [], {}) && Covered(occ, w, {}, 0)
  {
  }

  lemma CoverSkip(occ: Occurrence, w: seq<Code>, got: set<(nat, PatternIndex)>, k: nat, n: nat)
    requires Covered(occ, w, got, k) && k <= n && forall i :: k <= i < n && i <= |w| ==> w[i..] !in occ
    ensures Covered(occ, w, got, n)
  {
  }

  lemma PartlyNew(occ: Occurrence, w: seq<Code>, got: set<(nat, PatternIndex)>, k: nat, some: set<PatternIndex>,
                  ix: PatternIndex)
    requires Disjoint(occ) && k <= |w| && Partly(occ, w, got, k, some) && In(occ, w[k..], ix) && ix !in some
    ensures forall p :: p in got ==> p.1 != ix
    ensures Partly(occ, w, got + {(k, ix)}, k, some + {ix})
  {
    hide In;
    forall p | p in got ensures p.1 != ix {
      assert (p.0, p.1) in got;
      assert p.0 <= |w| ==> |w[p.0..]| == |w| - p.0;
    }
  }

  lemma CoveredIsEmission(occ: Occurrence, w: seq<Code>, out: seq<MatchingOutput>, got: set<(nat, PatternIndex)>)
    requires Exact(w, out, got) && Covered(occ, w, got, |w| + 1)
    ensures Emission(occ, w, out)
  {
    hide In, HitOf, NoRepeats;
    forall m | m in out ensures exists i: nat, ix :: i <= |w| && In(occ, w[i..], ix) && m == HitOf(w, i, ix) {
      var p :| p in got && p.0 <= |w| && m == HitOf(w, p.0, p.1);
      assert (p.0, p.1) in got;
    }
    forall i: nat, ix | i <= |w| && In(occ, w[i..], ix) ensures HitOf(w, i, ix) in out {
      assert (i, ix) in got;
    }
  }

  // ----- where the automaton stands -----

  /** `ptr` is the node of the longest suffix of `w` that is in the trie. */
  ghost predicate AtDeepest(at: map<Path, nat>, w: seq<Code>, ptr: nat)
  {
    InTrie(at, w[Deepest(at, w, 0)..]) && at[Encode(w[Deepest(at, w, 0)..])] == ptr
  }

  /** The node of the longest literal among the suffixes of `w` from `k` on. */
  ghost function NextOut(at: map<Path, nat>, dict: map<seq<Code>, nat>, w: seq<Code>, k: nat): Option<nat>
  {
    if k > |w| then None
    else
      var n := NextLiteral(dict, w, k);
      if n < |w| then WordNode(at, w[n..]) else None
  }

  /** The chain of output links from the node of `w[j..]` runs through the literals behind it. */
  lemma OutputOf(nodes: map<nat, N256>, root: nat, at: map<Path, nat>, dict: map<seq<Code>, nat>, w: seq<Code>, j: nat)
    requires Shape(nodes, root, at) && j <= |w| && InTrie(at, w[j..]) && Linked(nodes, at, dict, w[j..])
    ensures at[Encode(w[j..])] in nodes
    ensures nodes[at[Encode(w[j..])]].output == NextOut(at, dict, w, j + 1)
  {
    hide Shape, IsWord, Encode, SuffixWord;
    if j < |w| {
      NextLiteralShift(dict, w, j, 1);
      var d := NextLiteral(dict, w[j..], 1);
      if d < |w[j..]| { assert w[j..][d..] == w[j + d..]; }
    }
  }

  /** Before the first suffix in the trie there is no literal. */
  lemma NoneBefore(nodes: map<nat, N256>, root: nat, at: map<Path, nat>, dict: map<seq<Code>, nat>, w: seq<Code>)
    requires Shape(nodes, root, at) && Spells(nodes, root, at, dict)
    ensures forall i: nat :: i < Deepest(at, w, 0) && i <= |w| ==> w[i..] !in dict
  {
    hide Shape, Spells, IsWord, Encode, InTrie;
    forall i: nat | i < Deepest(at, w, 0) && i <= |w| ensures w[i..] !in dict {
      if w[i..] in dict { LiteralInTrie(nodes, root, at, dict, w[i..]); }
    }
  }

  lemma EmptyNotLiteral(nodes: map<nat, N256>, root: nat, at: map<Path, nat>, dict: map<seq<Code>, nat>, w: seq<Code>)
    requires Shape(nodes, root, at) && Spells(nodes, root, at, dict)
    ensures w[|w|..] !in dict
  {
    hide IsWord, Encode;
    assert w[|w|..] == [];
  }

  /** The leaf of a literal leads to its entry. */
  lemma LeafThere(nodes: map<nat, N256>, root: nat, at: map<Path, nat>, dict: map<seq<Code>, nat>, w: seq<Code>)
    requires Shape(nodes, root, at) && Spells(nodes, root, at, dict) && w in dict
    ensures InTrie(at, w) && at[Encode(w)] in nodes && 0 in nodes[at[Encode(w)]].children
    ensures nodes[at[Encode(w)]].children[0] == Leaf(dict[w])
  {
    hide IsWord, Encode;
  }

  lemma LeafEntry(ac: AhoCorasick, w: seq<Code>)
    requires ac.Valid() && w in ac.dict
    ensures InTrie(ac.at, w) && ac.at[Encode(w)] in ac.nodes && 0 in ac.nodes[ac.at[Encode(w)]].children
    ensures ac.nodes[ac.at[Encode(w)]].children[0] == Leaf(ac.dict[w]) && ac.dict[w] in ac.literalMap
    ensures ac.literalMap[ac.dict[w]].literalLen == |Encode(w)|
    ensures w in ac.Occ() && ac.Occ()[w] == ac.literalMap[ac.dict[w]].bitmap
  {
    hide IsWord, Encode, Shape, Spells;
    LeafThere(ac.nodes, ac.root, ac.at, ac.dict, w);
  }

  lemma OccIsDict(ac: AhoCorasick)
    requires ac.Valid()
    ensures ac.Occ().Keys == ac.dict.Keys
  {
    hide IsWord, Encode, Shape, Spells, Registered;
  }

  // ----- one code point further -----

  lemma StepStart(nodes: map<nat, N256>, root: nat, at: map<Path, nat>, w: seq<Code>, c: Code)
    requires Shape(nodes, root, at)
    ensures NoneGoesOn(at, w, c, 0, Deepest(at, w, 0))
  {
    hide IsWord, Shape, InTrie;
    forall i | 0 <= i < Deepest(at, w, 0) ensures !InTrie(at, (w + [c])[i..]) {
      assert (w + [c])[i..] == w[i..] + [c];
      assert (w[i..] + [c])[..|w| - i] == w[i..];
      if InTrie(at, w[i..] + [c]) { InTriePrefix(nodes, root, at, w[i..] + [c], |w| - i); }
    }
  }

  /** The suffixes before the landing place do not go on; where it lands is how far the longest suffix gets shorter. */
  lemma {:induction false} NoneBeforeLanding(nodes: map<nat, N256>, root: nat, at: map<Path, nat>, w: seq<Code>,
                                             c: Code, k: nat)
    requires Shape(nodes, root, at) && k <= |w| && NoneGoesOn(at, w, c, 0, k)
    ensures NoneGoesOn(at, w, c, 0, Landing(at, w, c, k))
    decreases |w| - k
  {
    hide IsWord, Shape, InTrie;
    if k < |w| && !(InTrie(at, w[k..]) && InTrie(at, w[k..] + [c])) {
      assert (w + [c])[k..] == w[k..] + [c] && (w[k..] + [c])[..|w| - k] == w[k..];
      if InTrie(at, w[k..] + [c]) { InTriePrefix(nodes, root, at, w[k..] + [c], |w| - k); }
      NoneBeforeLanding(nodes, root, at, w, c, k + 1);
    }
  }

  /** Every link costs at least one code point of the longest suffix. */
  lemma LinksPaid(nodes: map<nat, N256>, root: nat, at: map<Path, nat>, w: seq<Code>, c: Code)
    requires Shape(nodes, root, at)
    ensures Deepest(at, w, 0) + LinksFor(at, w, c) <= Deepest(at, w + [c], 0)
  {
    hide IsWord, Shape, InTrie, Climbed, Landing;
    var k := Deepest(at, w, 0);
    var j := Landing(at, w, c, k);
    StepStart(nodes, root, at, w, c);
    NoneBeforeLanding(nodes, root, at, w, c, k);
    ClimbShort(at, w, k, j);
    RootPath(nodes, root, at);
  }

  /** Over a whole text no more links are followed than there are code points. */
  lemma {:induction false} LinksLinear(nodes: map<nat, N256>, root: nat, at: map<Path, nat>, t: seq<Code>, n: nat)
    requires Shape(nodes, root, at) && n <= |t|
    ensures TotalLinks(at, t, n) <= Deepest(at, t[..n], 0) <= n
  {
    hide IsWord, Shape, InTrie, LinksFor;
    if n > 0 {
      LinksLinear(nodes, root, at, t, n - 1);
      LinksPaid(nodes, root, at, t[..n - 1], t[n - 1]);
      assert t[..n] == t[..n - 1] + [t[n - 1]];
    }
  }

  lemma RootIsEnd(nodes: map<nat, N256>, root: nat, at: map<Path, nat>, w: seq<Code>, j: nat)
    requires Shape(nodes, root, at) && j <= |w| && InTrie(at, w[j..])
    ensures at[Encode(w[j..])] == root <==> j == |w|
  {
    hide IsWord;
    EmptyInTrie(at);
    if at[Encode(w[j..])] == root { EncodeInjective(w[j..], []); }
    if j == |w| { assert w[j..] == []; }
  }

  /** Following the bytes of `c` from the node of `w[j..]`. */
  lemma VisitIs(at: map<Path, nat>, w: seq<Code>, c: Code)
    ensures Encode(w) + WriteCodePoint(c) == Encode(w + [c])
  {
    hide WriteCodePoint, Encode;
    EncodeConcat(w, [c]);
    EncodeOne(c);
  }
}
