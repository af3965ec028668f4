/** The automaton: the trie of all literals, which patterns each literal belongs to, and the links. */
module AhoCorasicks {
  import opened Options
  import opened Utf8
  import opened Tries
  import opened SuffixLinks

  datatype PatternIndex = PatternIndex(patternId: nat, startPos: nat)

  /** The occurrences of one literal in the patterns, and its length in bytes. */
  datatype LiteralEntry = LiteralEntry(bitmap: set<PatternIndex>, literalLen: nat)

  // ----- inserting a literal -----

  function GetNextChar(keyword: seq<byte>, index: nat): byte
  {
    if index >= |keyword| then 0 else keyword[index]
  }

  lemma WordPrefix(l: seq<Code>, k: nat, i: nat)
    requires k <= |Encode(l)| && i < |l| && Off(l, i) <= k < Off(l, i + 1)
    ensures IsWord(Encode(l)[..k]) <==> k == Off(l, i)
  {
    hide WriteCodePoint, CodeIndex;
    if k == Off(l, i) {
      EncodeSlice(l, 0, i);
      assert l[0..i] == l[..i] && l[..0] == [];
    }
    if w: seq<Code> :| Encode(l)[..k] == Encode(w) {
      EncodePrefix(w, l);
      assert l[..|w|] == w;
      OffOrder(l, i, |w|);
      OffOrder(l, |w|, i);
      OffOrder(l, i + 1, |w|);
      OffOrder(l, |w|, i + 1);
    }
  }

  lemma WholeWord(l: seq<Code>)
    ensures IsWord(Encode(l)) && Encode(l)[..|Encode(l)|] == Encode(l)
  {
  }

  /** Which prefixes of a keyword end a code point, as labels for the nodes of its path. */
  method EndFlags(keyword: seq<byte>, ghost l: seq<Code>) returns (flags: seq<bool>)
    requires keyword == Encode(l)
    ensures |flags| == |keyword| + 2
    ensures forall k :: 0 <= k <= |keyword| ==> (flags[k] <==> IsWord(keyword[..k]))
  {
    hide IsWord, Encode, Off, ReadCodePoint;
    var s := keyword + [0];
    flags := seq(|keyword| + 2, _ => true);
    var ptr: nat := 0;
    ghost var i := 0;
    OffEnds(l);
    while ptr < |keyword|
      invariant i <= |l| && ptr == Off(l, i) <= |keyword| && |flags| == |keyword| + 2
      invariant forall k :: 0 <= k < ptr ==> (flags[k] <==> IsWord(keyword[..k]))
      invariant forall k :: ptr <= k < |flags| ==> flags[k]
      decreases |keyword| - ptr
    {
      ReadTerminated(l, i);
      var next := ReadCodePoint(s, ptr).next;
      var b := ptr;
      while b < next - 1
        invariant ptr <= b <= next - 1 && |flags| == |keyword| + 2
        invariant forall k :: 0 <= k < ptr ==> (flags[k] <==> IsWord(keyword[..k]))
        invariant forall k :: ptr <= k < |flags| ==> (flags[k] <==> !(ptr < k <= b))
      {
        flags := flags[b + 1 := false];
        b := b + 1;
      }
      forall k | ptr <= k < next ensures flags[k] <==> IsWord(keyword[..k]) {
        WordPrefix(l, k, i);
      }
      ptr := next;
      i := i + 1;
    }
    OffOrder(l, i, |l|);
    WholeWord(l);
  }

  /** `ReadAt` with the terminator behind the text. */
  lemma ReadTerminated(l: seq<Code>, i: nat)
    requires i <= |l| && Off(l, i) < |Encode(l)|
    ensures i < |l| && ReadCodePoint(Encode(l) + [0], Off(l, i)).next == Off(l, i + 1) <= |Encode(l)|
    ensures Off(l, i) < Off(l, i + 1)
  {
    hide CodeIndex, WriteCodePoint, Encode, ReadCodePoint;
    OffEnds(l);
    OffStep(l, i);
    WriteShape(l[i]);
    var s := Encode(l) + [0];
    assert s[Off(l, i)..Off(l, i + 1)] == Encode(l)[Off(l, i)..Off(l, i + 1)];
    ReadWrite(l[i], s, Off(l, i));
  }

  /** The chain of new nodes for `kw[level + 1..]`, and the new edge that makes it part of the tree. The node
      of `kw[..k]` has id `base + |kw| - k`. */
  ghost predicate Grown(nodes: map<nat, N256>, more: map<nat, N256>, at: map<Path, nat>, kw: seq<byte>, level: nat,
                        base: nat, tid: nat)
  {
    && level <= |kw| && kw[..level] in at && at[kw[..level]] in nodes
    && (forall k :: k in nodes ==> k < base)
    && (forall k :: k in more <==> k in nodes || base <= k < base + |kw| - level)
    && (forall k :: k in nodes && k != at[kw[..level]] ==> more[k] == nodes[k])
    && (var n := nodes[at[kw[..level]]];
        more[at[kw[..level]]] ==
        n.(children := n.children[GetNextChar(kw, level) := ChainChild(kw, level, base, tid)]))
    && (forall k: nat :: level < k <= |kw| ==> ChainNode(more, kw, k, base, tid))
  }

  /** What the node of `kw[..k]` points at on the chain. */
  ghost function ChainChild(kw: seq<byte>, k: nat, base: nat, tid: nat): Child
    requires k <= |kw|
  {
    if k == |kw| then Leaf(tid) else Node(base + |kw| - k - 1)
  }

  ghost predicate ChainNode(more: map<nat, N256>, kw: seq<byte>, k: nat, base: nat, tid: nat)
    requires k <= |kw|
  {
    && base + |kw| - k in more
    && more[base + |kw| - k].children == map[GetNextChar(kw, k) := ChainChild(kw, k, base, tid)]
    && (more[base + |kw| - k].cpEnd <==> IsWord(kw[..k]))
  }

  ghost predicate GrownPaths(at: map<Path, nat>, more: map<Path, nat>, kw: seq<byte>, level: nat, base: nat)
    requires level <= |kw|
  {
    && (forall p :: p in at ==> p in more && more[p] == at[p])
    && (forall k: nat :: level < k <= |kw| ==> kw[..k] in more && more[kw[..k]] == base + |kw| - k)
    && (forall p :: p in more && p !in at ==> level < |p| <= |kw| && p == kw[..|p|])
  }


  /** A tree, and the tree with the new chain. */
  datatype Growth = Growth(nodes: map<nat, N256>, root: nat, at: map<Path, nat>, mNodes: map<nat, N256>,
                           mAt: map<Path, nat>, l: seq<Code>, level: nat, base: nat, tid: nat)
  {
    ghost function Kw(): Path { Encode(l) }

    ghost predicate Valid()
    {
      && Shape(nodes, root, at) && l != [] && Grown(nodes, mNodes, at, Kw(), level, base, tid)
      && GrownPaths(at, mAt, Kw(), level, base)
      && GetNextChar(Kw(), level) !in nodes[at[Kw()[..level]]].children
    }

    ghost function ChildAt(k: nat): Child
      requires k <= |Kw()|
    {
      ChainChild(Kw(), k, base, tid)
    }
  }

  lemma NoZero(l: seq<Code>)
    ensures 0 !in Encode(l)
  {
    hide WriteCodePoint, Encode;
    if k :| 0 <= k < |Encode(l)| && Encode(l)[k] == 0 { AsciiByte(l, k); }
  }

  /** The paths behind the new edge are new. */
  lemma NewAbsent(nodes: map<nat, N256>, root: nat, at: map<Path, nat>, kw: seq<byte>, level: nat, k: nat)
    requires Shape(nodes, root, at) && level < k <= |kw| && 0 !in kw && kw[..level] in at
    requires at[kw[..level]] in nodes && kw[level] !in nodes[at[kw[..level]]].children
    ensures kw[..k] !in at
  {
    hide IsWord, Shape;
    assert kw[..level + 1] == kw[..level] + [kw[level]];
    assert kw[level] in kw;
    assert kw[..k][..level + 1] == kw[..level + 1];
    ShapeChild(nodes, root, at, kw[..level], kw[level]);
    if kw[..k] in at { ShapePrefix(nodes, root, at, kw[..k], level + 1); }
  }

  lemma OldNode(g: Growth, p: Path)
    requires g.Valid() && p in g.at
    ensures g.at[p] in g.nodes && g.at[p] < g.base && g.at[p] in g.mNodes && p in g.mAt && g.mAt[p] == g.at[p]
    ensures g.mNodes[g.at[p]].cpEnd == g.nodes[g.at[p]].cpEnd
    ensures g.mNodes[g.at[p]].suffix == g.nodes[g.at[p]].suffix
    ensures g.mNodes[g.at[p]].output == g.nodes[g.at[p]].output
    ensures g.level <= |g.Kw()|
    ensures g.mNodes[g.at[p]].children ==
            if p == g.Kw()[..g.level] then g.nodes[g.at[p]].children[GetNextChar(g.Kw(), g.level) := g.ChildAt(g.level)]
            else g.nodes[g.at[p]].children
  {
    hide IsWord, Encode, ChainNode, ChainChild;
  }

  lemma NewNode(g: Growth, k: nat)
    requires g.Valid() && g.level < k <= |g.Kw()|
    ensures var p := g.Kw()[..k];
            && p in g.mAt && p !in g.at && g.mAt[p] == g.base + |g.Kw()| - k && g.mAt[p] in g.mNodes && 0 !in p
            && (g.mNodes[g.mAt[p]].cpEnd <==> IsWord(p))
            && g.mNodes[g.mAt[p]].children == map[GetNextChar(g.Kw(), k) := g.ChildAt(k)]
  {
    hide IsWord, Encode, ChainChild, Shape;
    NoZero(g.l);
    NewAbsent(g.nodes, g.root, g.at, g.Kw(), g.level, k);
    assert ChainNode(g.mNodes, g.Kw(), k, g.base, g.tid);
  }

  lemma NewPathIs(g: Growth, p: Path)
    requires g.Valid() && p in g.mAt && p !in g.at
    ensures g.level < |p| <= |g.Kw()| && p == g.Kw()[..|p|]
  {
    hide IsWord, Encode, ChainChild, Shape, Grown;
  }

  lemma GrowthStart(g: Growth)
    requires g.Valid()
    ensures g.level <= |g.Kw()| && g.Kw()[..g.level] in g.at && [] in g.at && g.at[[]] == g.root
  {
    hide IsWord, Encode, ChainNode, ChainChild;
  }

  /** The edge from `kw[..k]` to `kw[..k + 1]`. */
  lemma ChainEdge(g: Growth, k: nat)
    requires g.Valid() && g.level <= k <= |g.Kw()|
    ensures var kw := g.Kw();
            && kw[..k] in g.mAt && g.mAt[kw[..k]] in g.mNodes
            && GetNextChar(kw, k) in g.mNodes[g.mAt[kw[..k]]].children
            && var ch := g.mNodes[g.mAt[kw[..k]]].children[GetNextChar(kw, k)];
               if k == |kw| then GetNextChar(kw, k) == 0 && ch == Leaf(g.tid)
               else GetNextChar(kw, k) == kw[k] != 0 && kw[..k] + [kw[k]] in g.mAt
                    && ch == Node(g.mAt[kw[..k] + [kw[k]]])
  {
    hide IsWord, Encode, Growth.Valid, Growth.Kw;
    var kw := g.Kw();
    NoKwZero(g);
    if k == g.level {
      GrowthStart(g);
      OldNode(g, kw[..k]);
    } else {
      NewNode(g, k);
    }
    if k < |kw| {
      NewNode(g, k + 1);
      assert kw[..k + 1] == kw[..k] + [kw[k]] && kw[k] in kw;
    }
  }

  lemma NoKwZero(g: Growth)
    ensures 0 !in g.Kw()
  {
    hide Encode;
    NoZero(g.l);
  }

  lemma OldEdges(g: Growth, p: Path, b: byte)
    requires g.Valid() && p in g.at && b in g.nodes[g.at[p]].children
    ensures b != 0 ==> p + [b] in g.mAt && g.nodes[g.at[p]].children[b] == Node(g.mAt[p + [b]])
    ensures b == 0 ==> g.nodes[g.at[p]].children[b].Leaf?
  {
    hide IsWord, Encode, Grown, GrownPaths;
    if b != 0 {
      ShapeChild(g.nodes, g.root, g.at, p, b);
      OldNode(g, p + [b]);
    }
  }

  lemma GrownEdges(g: Growth, p: Path, b: byte)
    requires g.Valid() && p in g.mAt && g.mAt[p] in g.mNodes && b in g.mNodes[g.mAt[p]].children
    ensures b != 0 ==> p + [b] in g.mAt && g.mNodes[g.mAt[p]].children[b] == Node(g.mAt[p + [b]])
    ensures b == 0 ==> g.mNodes[g.mAt[p]].children[b].Leaf?
  {
    hide IsWord, Encode, Growth.Valid, Growth.Kw, Growth.ChildAt;
    var kw := g.Kw();
    if p in g.at {
      OldNode(g, p);
      if p == kw[..g.level] && b == GetNextChar(kw, g.level) {
        ChainEdge(g, g.level);
      } else {
        OldEdges(g, p, b);
      }
    } else {
      NewPathIs(g, p);
      NewNode(g, |p|);
      ChainEdge(g, |p|);
    }
  }

  lemma OldParent(g: Growth, p: Path)
    requires g.Valid() && p in g.at && p != []
    ensures var q := p[..|p| - 1]; q in g.at && p[|p| - 1] in g.nodes[g.at[q]].children
  {
    hide IsWord, Encode, Grown, GrownPaths;
  }

  lemma GrownParents(g: Growth, p: Path)
    requires g.Valid() && p in g.mAt && p != []
    ensures var q := p[..|p| - 1]; q in g.mAt && g.mAt[q] in g.mNodes && p[|p| - 1] in g.mNodes[g.mAt[q]].children
  {
    hide IsWord, Encode, Growth.Valid, Growth.Kw, Growth.ChildAt;
    var kw, q := g.Kw(), p[..|p| - 1];
    if p in g.at {
      OldParent(g, p);
      OldNode(g, q);
    } else {
      NewPathIs(g, p);
      assert q == kw[..|p| - 1] && p[|p| - 1] == kw[|p| - 1];
      ChainEdge(g, |p| - 1);
    }
  }

  lemma GrownNode(g: Growth, p: Path)
    requires g.Valid() && p in g.mAt
    ensures g.mAt[p] in g.mNodes && 0 !in p && (g.mNodes[g.mAt[p]].cpEnd <==> IsWord(p))
    ensures p in g.at <==> g.mAt[p] < g.base
    ensures p in g.at ==> g.mAt[p] == g.at[p]
    ensures p !in g.at ==> g.mAt[p] == g.base + |g.Kw()| - |p| && g.level < |p| <= |g.Kw()| && p == g.Kw()[..|p|]
  {
    hide IsWord, Encode, Grown, GrownPaths, ChainChild;
    if p in g.at {
      OldNode(g, p);
    } else {
      NewPathIs(g, p);
      NewNode(g, |p|);
    }
  }

  lemma GrownInjective(g: Growth, p: Path, q: Path)
    requires g.Valid() && p in g.mAt && q in g.mAt && g.mAt[p] == g.mAt[q]
    ensures p == q
  {
    hide IsWord, Encode, Grown, ChainChild;
    GrownNode(g, p);
    GrownNode(g, q);
  }

  /** The tree with the new chain is a tree. */
  lemma GrownShape(g: Growth)
    requires g.Valid()
    ensures Shape(g.mNodes, g.root, g.mAt)
  {
    hide IsWord, Encode, Growth.Valid, Growth.Kw;
    GrowthStart(g);
    OldNode(g, []);
    forall p | p in g.mAt
      ensures g.mAt[p] in g.mNodes && 0 !in p && (g.mNodes[g.mAt[p]].cpEnd <==> IsWord(p))
    {
      GrownNode(g, p);
    }
    forall p, b: byte | p in g.mAt && b in g.mNodes[g.mAt[p]].children
      ensures b != 0 ==> p + [b] in g.mAt && g.mNodes[g.mAt[p]].children[b] == Node(g.mAt[p + [b]])
      ensures b == 0 ==> g.mNodes[g.mAt[p]].children[b].Leaf?
    {
      GrownEdges(g, p, b);
    }
    forall p | p in g.mAt && p != []
      ensures p[..|p| - 1] in g.mAt && p[|p| - 1] in g.mNodes[g.mAt[p[..|p| - 1]]].children
    {
      GrownParents(g, p);
    }
    forall p, q | p in g.mAt && q in g.mAt && g.mAt[p] == g.mAt[q] ensures p == q {
      GrownInjective(g, p, q);
    }
  }

  /** The leaf of a path, before and after. */
  lemma GrownLeaf(g: Growth, p: Path)
    requires g.Valid() && p in g.mAt && g.mAt[p] in g.mNodes
    ensures p == g.Kw() ==> 0 in g.mNodes[g.mAt[p]].children && g.mNodes[g.mAt[p]].children[0] == Leaf(g.tid)
    ensures p in g.at && p != g.Kw() && 0 in g.nodes[g.at[p]].children ==>
              0 in g.mNodes[g.mAt[p]].children && g.mNodes[g.mAt[p]].children[0] == g.nodes[g.at[p]].children[0]
    ensures 0 in g.mNodes[g.mAt[p]].children ==> p == g.Kw() || (p in g.at && 0 in g.nodes[g.at[p]].children)
  {
    hide IsWord, Encode, Growth.Valid, Growth.Kw, Growth.ChildAt;
    var kw := g.Kw();
    GrowthStart(g);
    NoKwZero(g);
    GrowthStartKey(g);
    if p == kw {
      assert kw[..|kw|] == kw;
      ChainEdge(g, |kw|);
    } else if p in g.at {
      OldNode(g, p);
    } else {
      NewPathIs(g, p);
      NewNode(g, |p|);
      assert kw[|p|] in kw;
    }
  }

  lemma GrowthStartKey(g: Growth)
    requires g.Valid()
    ensures g.level < |g.Kw()| ==> GetNextChar(g.Kw(), g.level) != 0
    ensures g.level == |g.Kw()| ==> g.Kw()[..g.level] == g.Kw()
  {
    hide IsWord, Encode, Shape, Grown, GrownPaths;
    NoKwZero(g);
    if g.level < |g.Kw()| { assert g.Kw()[g.level] in g.Kw(); }
  }

  lemma GrownSpells(g: Growth, dict: map<seq<Code>, nat>)
    requires g.Valid() && Spells(g.nodes, g.root, g.at, dict) && g.l !in dict
    ensures Shape(g.mNodes, g.root, g.mAt) && Spells(g.mNodes, g.root, g.mAt, dict[g.l := g.tid])
  {
    hide IsWord, Encode, Growth.Valid, Shape, Growth.Kw;
    GrownShape(g);
    var more := dict[g.l := g.tid];
    KwIs(g);
    forall l | l in more
      ensures l != [] && Encode(l) in g.mAt && g.mAt[Encode(l)] in g.mNodes && 0 in g.mNodes[g.mAt[Encode(l)]].children
              && g.mNodes[g.mAt[Encode(l)]].children[0] == Leaf(more[l])
    {
      if l == g.l {
        assert g.Kw()[..|g.Kw()|] == g.Kw();
        GrowthStart(g);
        ChainEdge(g, |g.Kw()|);
      } else {
        if Encode(l) == g.Kw() { EncodeInjective(l, g.l); }
        OldNode(g, Encode(l));
        GrownLeaf(g, Encode(l));
      }
    }
    forall p | p in g.mAt
      ensures g.mAt[p] in g.mNodes
      ensures 0 in g.mNodes[g.mAt[p]].children ==> exists l :: l in more && p == Encode(l)
      ensures p != [] ==> exists l :: l in more && p <= Encode(l)
    {
      GrownNode(g, p);
      GrownLeaf(g, p);
      assert g.l in more;
      if p in g.at { SpelledBefore(g, dict, p); } else { assert p <= Encode(g.l); }
    }
  }

  lemma KwIs(g: Growth)
    requires g.Valid()
    ensures g.l != [] && g.Kw() == Encode(g.l) && Shape(g.nodes, g.root, g.at)
  {
    hide IsWord, Encode, Shape, Grown, GrownPaths;
  }

  lemma SpelledBefore(g: Growth, dict: map<seq<Code>, nat>, p: Path)
    requires g.Valid() && Spells(g.nodes, g.root, g.at, dict) && p in g.at
    ensures g.at[p] in g.nodes
    ensures 0 in g.nodes[g.at[p]].children ==> exists l :: l in dict[g.l := g.tid] && p == Encode(l)
    ensures p != [] ==> exists l :: l in dict[g.l := g.tid] && p <= Encode(l)
  {
    hide IsWord, Encode, Grown, GrownPaths;
    if 0 in g.nodes[g.at[p]].children {
      var l :| l in dict && p == Encode(l);
      assert l in dict[g.l := g.tid];
    }
    if p != [] {
      var l :| l in dict && p <= Encode(l);
      assert l in dict[g.l := g.tid];
    }
  }

  // ----- the automaton -----

  /** Ids are handed out densely, one per literal, each with the literal's length. */
  ghost predicate Registered(literalMap: map<nat, LiteralEntry>, cnt: nat, dict: map<seq<Code>, nat>)
  {
    && (forall k: nat :: k in literalMap <==> k < cnt)
    && (forall l :: l in dict ==> dict[l] < cnt && literalMap[dict[l]].literalLen == |Encode(l)|)
    && (forall k, l :: k in dict && l in dict && dict[k] == dict[l] ==> k == l)
    && (forall k :: k in literalMap ==> exists l :: l in dict && dict[l] == k)
  }

  /** Which pattern positions each literal stands for. */
  ghost function Occurrences(literalMap: map<nat, LiteralEntry>, cnt: nat, dict: map<seq<Code>, nat>)
    : map<seq<Code>, set<PatternIndex>>
    requires Registered(literalMap, cnt, dict)
  {
    map l | l in dict :: literalMap[dict[l]].bitmap
  }

  ghost function Recorded(occ: map<seq<Code>, set<PatternIndex>>, l: seq<Code>, ix: PatternIndex)
    : map<seq<Code>, set<PatternIndex>>
  {
    occ[l := (if l in occ then occ[l] else {}) + {ix}]
  }

  ghost predicate NoLinks(nodes: map<nat, N256>)
  {
    forall k :: k in nodes ==> nodes[k].suffix == None && nodes[k].output == None
  }

  class AhoCorasick {
    const root: nat := 0
    var nodes: map<nat, N256>
    var nextNode: nat
    var literalMap: map<nat, LiteralEntry>
    var uniqueLiteralCnt: nat
    ghost var at: map<Path, nat>
    ghost var dict: map<seq<Code>, nat>

    ghost predicate Valid()
      reads this
    {
      && Shape(nodes, root, at) && Spells(nodes, root, at, dict)
      && (forall k :: k in nodes ==> k < nextNode)
      && Registered(literalMap, uniqueLiteralCnt, dict)
    }

    ghost function Occ(): map<seq<Code>, set<PatternIndex>>
      requires Valid()
      reads this
    {
      Occurrences(literalMap, uniqueLiteralCnt, dict)
    }

    constructor ()
      ensures Valid() && Occ() == map[] && NoLinks(nodes)
    {
      nodes := map[0 := N256(true, map[], None, None)];
      nextNode, literalMap, uniqueLiteralCnt := 1, map[], 0;
      at, dict := map[[] := 0], map[];
      new;
      EmptyTrie(nodes);
    }

    /** `Tree::insert` with nobody else at work: walk down the path, then add what is missing, or add to the
        literal that is there. */
    method Insert(keyword: seq<byte>, ix: PatternIndex, ghost l: seq<Code>)
      requires Valid() && keyword == Encode(l) && l != []
      modifies this
      ensures Valid() && (old(NoLinks(nodes)) ==> NoLinks(nodes)) && Occ() == Recorded(old(Occ()), l, ix)
    {
      hide IsWord, Encode, Shape, Spells, Registered, Occurrences, Recorded, NoLinks, Growth.Valid, GetNextChar;
      var isEndCodePoint := EndFlags(keyword, l);
      InsertStart(nodes, root, at, keyword);
      var node := root;
      var level: nat := 0;
      var nodeKey := GetNextChar(keyword, level);
      var next := nodes[node].GetChild(nodeKey);
      while next != None && next.value.Node?
        invariant level <= |keyword| && keyword[..level] in at && at[keyword[..level]] == node && node in nodes
        invariant nodeKey == GetNextChar(keyword, level) && next == nodes[node].GetChild(nodeKey)
        invariant Valid() && nodes == old(nodes) && Occ() == old(Occ())
        decreases |keyword| - level
      {
        InsertDown(nodes, root, at, dict, l, level);
        level := level + 1;
        node := next.value.id;
        nodeKey := GetNextChar(keyword, level);
        next := nodes[node].GetChild(nodeKey);
      }
      if next == None {
        var tid := uniqueLiteralCnt;
        NotYetIn(nodes, root, at, dict, l, level);
        RecordNew(literalMap, uniqueLiteralCnt, dict, l, ix);
        uniqueLiteralCnt := uniqueLiteralCnt + 1;
        literalMap := literalMap[tid := LiteralEntry({ix}, |keyword|)];
        GrowSubtree(keyword, l, node, level, tid, isEndCodePoint);
        dict := dict[l := tid];
      } else {
        InsertDown(nodes, root, at, dict, l, level);
        var aux := next.value.auxIndex;
        RecordOld(literalMap, uniqueLiteralCnt, dict, l, ix, aux);
        literalMap := literalMap[aux := literalMap[aux].(bitmap := literalMap[aux].bitmap + {ix})];
      }
    }

    /** `generateVal` and the store that publishes what it built. */
    method GrowSubtree(keyword: seq<byte>, ghost l: seq<Code>, node: nat, level: nat, tid: nat,
                       isEndCodePoint: seq<bool>)
      requires Shape(nodes, root, at) && Spells(nodes, root, at, dict)
      requires forall k :: k in nodes ==> k < nextNode
      requires keyword == Encode(l) && l != [] && l !in dict && level <= |keyword| && keyword[..level] in at
      requires at[keyword[..level]] == node && node in nodes
      requires GetNextChar(keyword, level) !in nodes[node].children
      requires |isEndCodePoint| == |keyword| + 2
      requires forall k :: 0 <= k <= |keyword| ==> (isEndCodePoint[k] <==> IsWord(keyword[..k]))
      modifies `nodes, `nextNode, `at
      ensures Shape(nodes, root, at) && Spells(nodes, root, at, dict[l := tid])
      ensures old(NoLinks(nodes)) ==> NoLinks(nodes)
      ensures forall k :: k in nodes ==> k < nextNode
    {
      hide IsWord, Encode, Shape, Spells, Growth.Valid, ChainSoFar, GetNextChar;
      ghost var nodes0, at0, base := nodes, at, nextNode;
      ChainStart(nodes, at, keyword, level, base, tid);
      var lastNode := Leaf(tid);
      var idx: nat := |keyword|;
      while idx > level
        invariant level <= idx <= |keyword| && nextNode == base + |keyword| - idx
        invariant ChainSoFar(nodes0, nodes, at0, at, keyword, level, idx, base, tid, lastNode)
        invariant NoLinks(nodes0) ==> NoLinks(nodes)
      {
        NoZero(l);
        NewAbsent(nodes0, root, at0, keyword, level, idx) by { hide *; NextIs(keyword, level); }
        ChainRound(nodes0, nodes, at0, at, keyword, level, idx, base, tid, lastNode, isEndCodePoint[idx]);
        nodes := nodes[nextNode := N256(isEndCodePoint[idx], map[GetNextChar(keyword, idx) := lastNode], None, None)];
        at := at[keyword[..idx] := nextNode];
        lastNode := Node(nextNode);
        nextNode := nextNode + 1;
        idx := idx - 1;
      }
      ghost var g := Growth(nodes0, root, at0, nodes, at, l, level, base, tid);
      ChainDone(g, nodes, node, lastNode);
      nodes := nodes[node := nodes[node].(children := nodes[node].children[GetNextChar(keyword, level) := lastNode])];
      GrownSpells(g.(mNodes := nodes), dict);
    }

    /** Follow the bytes of a code point, or the first few of them, down the tree. */
    method VisitCodePoint(cur: nat, cp: seq<byte>, ghost p: Path) returns (next: Option<nat>)
      requires Valid() && p in at && at[p] == cur && 0 !in cp
      ensures next == if p + cp in at then Some(at[p + cp]) else None
    {
      hide IsWord, Spells, Registered, Shape;
      var node, idx: nat := cur, 0;
      assert p + cp[..0] == p;
      while idx < |cp|
        invariant idx <= |cp| && p + cp[..idx] in at && at[p + cp[..idx]] == node
      {
        ghost var q := p + cp[..idx];
        assert p + cp[..idx + 1] == q + [cp[idx]] && cp[idx] in cp;
        ShapeChild(nodes, root, at, q, cp[idx]);
        var child := nodes[node].GetChild(cp[idx]);
        if child == None {
          PrefixAbsent(nodes, root, at, p, cp, idx + 1);
          return None;
        }
        node := child.value.id;
        idx := idx + 1;
      }
      assert cp[..idx] == cp;
      next := Some(node);
    }

    /** Up the suffix links from the last code point node, until one goes on with the bytes of `c`. */
    method FindSuffix(last: nat, partial: seq<byte>, b: byte, ghost w: seq<Code>, ghost c: Code)
      returns (suffix: nat)
      requires Valid() && InTrie(at, w) && at[Encode(w)] == last && partial + [b] == WriteCodePoint(c)
      requires forall u :: InTrie(at, u) && |Encode(u)| <= |Encode(w)| ==> Linked(nodes, at, dict, u)
      ensures InTrie(at, SuffixWord(at, w + [c])) && suffix == at[Encode(SuffixWord(at, w + [c]))]
    {
      hide IsWord, Spells, Registered, Shape, WriteCodePoint, Deepest, NoneGoesOn, Encode;
      var suffixNode := nodes[last].suffix;
      ghost var j := if w == [] then 1 else Deepest(at, w, 1);
      SuffixStart(nodes, root, at, dict, w, c);
      NoZero([c]);
      EncodeOne(c);
      RootPath(nodes, root, at);
      while suffixNode != None
        invariant 1 <= j <= |w| + 1 && NoneGoesOn(at, w, c, 1, j)
        invariant suffixNode == None ==> j == |w| + 1
        invariant suffixNode != None ==> j <= |w| && InTrie(at, w[j..]) && at[Encode(w[j..])] == suffixNode.value
        decreases |w| + 1 - j
      {
        SuffixGoesOn(nodes, root, at, w[j..], c, partial, b);
        var possibleSuffix := VisitCodePoint(suffixNode.value, partial, Encode(w[j..]));
        var next := None;
        if possibleSuffix != None {
          next := nodes[possibleSuffix.value].GetChild(b);
        }
        if next != None {
          ChainFound(at, w, c, 1, j);
          suffix := next.value.id;
          return;
        }
        SuffixShorter(w, j);
        SuffixNext(nodes, root, at, dict, w, c, 1, j);
        suffixNode := nodes[suffixNode.value].suffix;
        j := if j == |w| then j + 1 else Deepest(at, w, j + 1);
      }
      ChainExhausted(at, w, c, 1);
      EmptyInTrie(at);
      suffix := root;
    }

    /** A child of the node being visited enters the queue. If it ends a code point its links are set first. */
    method LinkChild(item: BFSNodeItem, b: byte, child: nat, ghost v: Place) returns (it: BFSNodeItem, ghost nv: Place)
      requires Valid() && ItemOk(at, item, v) && b != 0 && v.path + [b] in at && child == at[v.path + [b]]
      requires forall u :: InTrie(at, u) && |Encode(u)| <= |v.path| ==> Linked(nodes, at, dict, u)
      requires Unlinked(nodes, child)
      modifies `nodes
      ensures Valid() && SameTree(old(nodes), nodes)
      ensures ItemOk(at, it, nv) && nv.path == v.path + [b]
      ensures forall u :: Encode(u) == v.path + [b] ==> Linked(nodes, at, dict, u)
      ensures forall u :: Encode(u) != v.path + [b] && Linked(old(nodes), at, dict, u) ==> Linked(nodes, at, dict, u)
      ensures forall q :: q in at && q != v.path + [b] && Unlinked(old(nodes), at[q]) ==> Unlinked(nodes, at[q])
    {
      hide IsWord, Shape, Spells, Registered, LastWord, Linked, Encode, Unlinked, SuffixWord, SameTree, SetLinks;
      ghost var p, w := v.path, v.word;
      ChildFacts(nodes, root, at, p, b);
      if !nodes[child].cpEnd {
        MiddleChild(p, w, b);
        it := BFSNodeItem(child, item.lastCodepointNode, item.bytesSinceLastCp + [b]);
        nv := Place(p + [b], w);
        assert p + [b] == Encode(w) + it.bytesSinceLastCp;
        NotWord(p + [b]);
        SameTreeSelf(nodes);
        return;
      }
      ghost var c := WordChild(p, w, item.bytesSinceLastCp, b);
      ghost var n := w + [c];
      WordIsLast(n);
      nv := Place(p + [b], n);
      assert Encode(n) + [] == Encode(n);
      it := BFSNodeItem(child, child, []);
      if item.node == root {
        RootChild(nodes, root, at, dict, p, w, item.bytesSinceLastCp, c);
        LinksSet(nodes, root, at, dict, n, Some(root), None);
        nodes := SetLinks(nodes, child, Some(root), None);
      } else {
        var suffixNode := FindSuffix(item.lastCodepointNode, item.bytesSinceLastCp, b, w, c);
        SuffixLinked(at, nodes, dict, n, p);
        OutputIs(nodes, root, at, dict, n);
        TerminalIs(nodes, root, at, dict, SuffixWord(at, n));
        var output := if nodes[suffixNode].IsTerminalNode() then Some(suffixNode) else nodes[suffixNode].output;
        LinksSet(nodes, root, at, dict, n, Some(suffixNode), output);
        nodes := SetLinks(nodes, child, Some(suffixNode), output);
      }
    }

    /** Breadth first, every node's children in byte order: a node's links are set before it enters the queue. */
    method BuildSuffixLink()
      requires Valid() && NoLinks(nodes)
      modifies `nodes
      ensures Valid() && AllLinked(nodes, at, dict) && SameTree(old(nodes), nodes) && Occ() == old(Occ())
    {
      hide IsWord, Shape, Spells, Registered, ItemOk, AllLinked, Unlinked, Encode, Linked, SameTree, Bfs.Inv,
           Bfs.Items, Bfs.Sets, Bfs.Links, Bfs.Depths, Bfs.Tree, NoLinks;
      var bfsQueue := [BFSNodeItem(root, root, [])];
      ghost var places: seq<Place>, seen: set<Path>, done: set<Path> := [Place([], [])], {[]}, {};
      BfsStart(nodes, root, at, dict);
      SameTreeSelf(nodes);
      while bfsQueue != []
        invariant Valid() && SameTree(old(nodes), nodes)
        invariant Bfs(nodes, root, at, dict, bfsQueue, places, seen, done).Inv(None, 0)
        decreases at.Keys - done
      {
        BfsPop(Bfs(nodes, root, at, dict, bfsQueue, places, seen, done));
        BfsFront(Bfs(nodes, root, at, dict, bfsQueue, places, seen, done));
        var item := bfsQueue[0];
        ghost var v := places[0];
        bfsQueue, places := bfsQueue[1..], places[1..];
        done := done + {v.path};
        var b: nat := 0;
        while b < 256
          invariant b <= 256
          invariant Valid() && SameTree(old(nodes), nodes) && ItemOk(at, item, v)
          invariant Bfs(nodes, root, at, dict, bfsQueue, places, seen, done).Inv(Some(v.path), b)
        {
          ghost var s := Bfs(nodes, root, at, dict, bfsQueue, places, seen, done);
          VisitFacts(s, item, v, b);
          var child := nodes[item.node].GetChild(b);
          if child != None && child.value.Node? {
            BfsLinked(s, v.path, b);
            var it, nv := LinkChild(item, b, child.value.id, v);
            bfsQueue, places, seen := bfsQueue + [it], places + [nv], seen + {v.path + [b]};
            ghost var n := Bfs(nodes, root, at, dict, bfsQueue, places, seen, done);
            TreeIs(n);
            BfsPush(s, v.path, b, it, nv, n);
            SameTreeTrans(old(nodes), s.nodes, nodes);
          } else {
            BfsSkip(s, v.path, b);
          }
          b := b + 1;
        }
        BfsFinish(Bfs(nodes, root, at, dict, bfsQueue, places, seen, done), v.path);
      }
      BfsEnd(Bfs(nodes, root, at, dict, bfsQueue, places, seen, done));
    }
  }

  lemma ChildFacts(nodes: map<nat, N256>, root: nat, at: map<Path, nat>, p: Path, b: byte)
    requires Shape(nodes, root, at) && p + [b] in at
    ensures at[p + [b]] in nodes && (nodes[at[p + [b]]].cpEnd <==> IsWord(p + [b]))
    ensures [] in at && at[[]] == root && (p in at && at[p] == root ==> p == [])
  {
    hide IsWord;
  }

  lemma NotWord(p: Path)
    requires !IsWord(p)
    ensures forall u :: Encode(u) != p
  {
  }

  lemma SameTreeSelf(nodes: map<nat, N256>)
    ensures SameTree(nodes, nodes)
  {
  }

  lemma SameTreeTrans(a: map<nat, N256>, b: map<nat, N256>, c: map<nat, N256>)
    requires SameTree(a, b) && SameTree(b, c)
    ensures SameTree(a, c)
  {
  }

  /** The first code point: nothing but the empty word is shorter. */
  lemma RootChild(nodes: map<nat, N256>, root: nat, at: map<Path, nat>, dict: map<seq<Code>, nat>, p: Path,
                  w: seq<Code>, partial: seq<byte>, c: Code)
    requires Shape(nodes, root, at) && Spells(nodes, root, at, dict) && p in at && at[p] == root
    requires p == Encode(w) + partial
    ensures Some(root) == WordNode(at, SuffixWord(at, w + [c])) && None == OutputNode(at, dict, w + [c])
  {
    hide IsWord, Spells, WriteCodePoint, CodeIndex;
    assert p == [];
    EncodeInjective(w, []);
    EmptyInTrie(at);
    assert ([] + [c])[1..] == [];
    LiteralNotEmpty(nodes, root, at, dict);
  }

  /** The suffix word is shorter in bytes, so its links have been set. */
  lemma SuffixLinked(at: map<Path, nat>, nodes: map<nat, N256>, dict: map<seq<Code>, nat>, n: seq<Code>, p: Path)
    requires n != [] && InTrie(at, SuffixWord(at, n)) && |Encode(n)| == |p| + 1
    requires forall u :: InTrie(at, u) && |Encode(u)| <= |p| ==> Linked(nodes, at, dict, u)
    ensures Linked(nodes, at, dict, SuffixWord(at, n))
  {
    hide Linked, Encode, InTrie;
    SuffixShorter(n, Deepest(at, n, 1));
  }

  /** Setting the links of `w` to what they should be. */
  lemma LinksSet(nodes: map<nat, N256>, root: nat, at: map<Path, nat>, dict: map<seq<Code>, nat>, w: seq<Code>,
                 suffix: Option<nat>, output: Option<nat>)
    requires Shape(nodes, root, at) && Spells(nodes, root, at, dict) && InTrie(at, w) && w != []
    requires at[Encode(w)] in nodes
    requires suffix == WordNode(at, SuffixWord(at, w)) && output == OutputNode(at, dict, w)
    ensures var more := SetLinks(nodes, at[Encode(w)], suffix, output);
            && SameTree(nodes, more) && more.Keys == nodes.Keys && Shape(more, root, at) && Spells(more, root, at, dict)
            && (forall u :: Encode(u) == Encode(w) ==> Linked(more, at, dict, u))
            && (forall u :: Encode(u) != Encode(w) && Linked(nodes, at, dict, u) ==> Linked(more, at, dict, u))
            && (forall q :: q in at && q != Encode(w) && Unlinked(nodes, at[q]) ==> Unlinked(more, at[q]))
  {
    hide IsWord, Encode, SuffixWord, OutputNode, Shape, Spells, Linked, Unlinked;
    var more := SetLinks(nodes, at[Encode(w)], suffix, output);
    assert SameTree(nodes, more);
    SameTreeShape(nodes, more, root, at);
    SameTreeSpells(nodes, more, root, at, dict);
    JustLinked(nodes, at, dict, w, suffix, output);
    forall u | Encode(u) != Encode(w) && Linked(nodes, at, dict, u) ensures Linked(more, at, dict, u) {
      SetLinksLinked(nodes, root, at, dict, w, suffix, output, u);
    }
    forall q | q in at && q != Encode(w) && Unlinked(nodes, at[q]) ensures Unlinked(more, at[q]) {
      StillUnlinked(nodes, root, at, w, suffix, output, q);
    }
  }

  lemma JustLinked(nodes: map<nat, N256>, at: map<Path, nat>, dict: map<seq<Code>, nat>, w: seq<Code>,
                   suffix: Option<nat>, output: Option<nat>)
    requires w != [] && Encode(w) in at && at[Encode(w)] in nodes
    requires suffix == WordNode(at, SuffixWord(at, w)) && output == OutputNode(at, dict, w)
    ensures forall u :: Encode(u) == Encode(w) ==>
              Linked(SetLinks(nodes, at[Encode(w)], suffix, output), at, dict, u)
  {
    hide Encode, SuffixWord, OutputNode;
    forall u | Encode(u) == Encode(w) ensures u == w { EncodeInjective(u, w); }
  }

  lemma StillUnlinked(nodes: map<nat, N256>, root: nat, at: map<Path, nat>, w: seq<Code>, suffix: Option<nat>,
                      output: Option<nat>, q: Path)
    requires Shape(nodes, root, at) && Encode(w) in at && at[Encode(w)] in nodes
    requires q in at && q != Encode(w) && Unlinked(nodes, at[q])
    ensures Unlinked(SetLinks(nodes, at[Encode(w)], suffix, output), at[q])
  {
    hide IsWord, Encode;
  }

  lemma BfsStart(nodes: map<nat, N256>, root: nat, at: map<Path, nat>, dict: map<seq<Code>, nat>)
    requires Shape(nodes, root, at) && Spells(nodes, root, at, dict) && NoLinks(nodes)
    ensures Bfs(nodes, root, at, dict, [BFSNodeItem(root, root, [])], [Place([], [])], {[]}, {}).Inv(None, 0)
  {
    hide IsWord, Shape, Spells, NoLinks, ItemOk, Linked, Unlinked;
    var s := Bfs(nodes, root, at, dict, [BFSNodeItem(root, root, [])], [Place([], [])], {[]}, {});
    RootPath(nodes, root, at);
    StartItem(at, root);
    assert s.Items() && s.Depths(None);
    assert s.places[0].path == [];
    assert s.Sets(None, 0);
    StartLinks(nodes, root, at, dict);
  }

  lemma StartItem(at: map<Path, nat>, root: nat)
    requires [] in at && at[[]] == root
    ensures ItemOk(at, BFSNodeItem(root, root, []), Place([], []))
  {
    hide IsWord;
    assert Encode([]) == [] && [] == Encode([]) + [];
  }

  lemma StartLinks(nodes: map<nat, N256>, root: nat, at: map<Path, nat>, dict: map<seq<Code>, nat>)
    requires Shape(nodes, root, at) && NoLinks(nodes)
    ensures forall w :: Encode(w) in {[]} ==> Linked(nodes, at, dict, w)
    ensures forall p :: p in at ==> Unlinked(nodes, at[p])
  {
    hide IsWord, Encode;
    assert Encode([]) == [] by { EmptyInTrie(at); }
    forall w | Encode(w) in {[]} ensures w == [] { EncodeInjective(w, []); }
  }

  lemma BfsFront(s: Bfs)
    requires s.Inv(None, 0) && s.queue != []
    ensures s.places != [] && ItemOk(s.at, s.queue[0], s.places[0])
  {
    hide IsWord, ItemOk, Bfs.Sets, Bfs.Links, Bfs.Tree, Bfs.Depths;
  }

  /** What the child at byte `b` is. */
  lemma VisitFacts(s: Bfs, item: BFSNodeItem, v: Place, b: byte)
    requires s.Inv(Some(v.path), b) && ItemOk(s.at, item, v)
    ensures v.path in s.at && item.node in s.nodes
    ensures var ch := s.nodes[item.node].GetChild(b);
            if ch != None && ch.value.Node? then b != 0 && v.path + [b] in s.at && ch.value.id == s.at[v.path + [b]]
            else v.path + [b] !in s.at
  {
    hide IsWord, Shape, Spells, LastWord, Encode, Bfs.Items, Bfs.Sets, Bfs.Depths, Bfs.Links;
    NodeAt(s.nodes, s.root, s.at, v.path);
    if b == 0 {
      NoZeroPath(s.nodes, s.root, s.at, v.path);
    } else {
      ShapeChild(s.nodes, s.root, s.at, v.path, b);
    }
  }

  lemma NoZeroPath(nodes: map<nat, N256>, root: nat, at: map<Path, nat>, p: Path)
    requires Shape(nodes, root, at) && p in at && at[p] in nodes
    ensures p + [0] !in at
    ensures 0 in nodes[at[p]].children ==> nodes[at[p]].children[0].Leaf?
  {
    hide IsWord;
    assert 0 in p + [0];
  }

  lemma BfsLinked(s: Bfs, p: Path, b: byte)
    requires s.Inv(Some(p), b) && p + [b] in s.at
    ensures Unlinked(s.nodes, s.at[p + [b]])
    ensures forall u :: InTrie(s.at, u) && |Encode(u)| <= |p| ==> Linked(s.nodes, s.at, s.dict, u)
    ensures forall u :: Encode(u) in s.seen ==> Linked(s.nodes, s.at, s.dict, u)
  {
    hide IsWord, Encode, Linked, Unlinked, Bfs.Tree, Bfs.Items, Bfs.Depths;
    assert (p + [b])[..|p|] == p && (p + [b])[|p|] == b;
    assert !s.Entered(Some(p), b, p + [b]);
    forall u | InTrie(s.at, u) && |Encode(u)| <= |p| ensures Linked(s.nodes, s.at, s.dict, u) {
      BfsReached(s, p, b, Encode(u));
    }
  }

  lemma TreeIs(s: Bfs)
    requires Shape(s.nodes, s.root, s.at) && Spells(s.nodes, s.root, s.at, s.dict)
    ensures s.Tree()
  {
  }

  /** A path needs all of its prefixes. */
  lemma PrefixAbsent(nodes: map<nat, N256>, root: nat, at: map<Path, nat>, p: Path, cp: seq<byte>, k: nat)
    requires Shape(nodes, root, at) && k <= |cp| && p + cp[..k] !in at
    ensures p + cp !in at
  {
    hide Shape;
    var n := |p| + k;
    assert (p + cp)[..n] == p + cp[..k];
    if p + cp in at { ShapePrefix(nodes, root, at, p + cp, n); }
  }

  lemma SuffixStart(nodes: map<nat, N256>, root: nat, at: map<Path, nat>, dict: map<seq<Code>, nat>, w: seq<Code>,
                    c: Code)
    requires Shape(nodes, root, at) && InTrie(at, w) && Linked(nodes, at, dict, w)
    ensures at[Encode(w)] in nodes
    ensures var j := if w == [] then 1 else Deepest(at, w, 1);
            && 1 <= j <= |w| + 1 && NoneGoesOn(at, w, c, 1, j)
            && nodes[at[Encode(w)]].suffix == (if w == [] then None else WordNode(at, w[j..]))
            && (w != [] ==> j <= |w| && InTrie(at, w[j..]))
  {
    hide IsWord, Encode;
    if w != [] {
      forall i | 1 <= i < Deepest(at, w, 1) ensures !InTrie(at, (w + [c])[i..]) {
        assert (w + [c])[i..] == w[i..] + [c] && (w[i..] + [c])[..|w| - i] == w[i..];
        if InTrie(at, w[i..] + [c]) { InTriePrefix(nodes, root, at, w[i..] + [c], |w| - i); }
      }
    }
  }

  lemma SuffixGoesOn(nodes: map<nat, N256>, root: nat, at: map<Path, nat>, u: seq<Code>, c: Code, partial: seq<byte>,
                     b: byte)
    requires Shape(nodes, root, at) && InTrie(at, u) && partial + [b] == WriteCodePoint(c)
    ensures InTrie(at, u + [c]) ==> Encode(u) + partial in at
    ensures Encode(u) + partial in at ==>
              && at[Encode(u) + partial] in nodes
              && var ch := nodes[at[Encode(u) + partial]].GetChild(b);
                 if InTrie(at, u + [c]) then ch == Some(Node(at[Encode(u + [c])])) else ch == None
  {
    hide IsWord, WriteCodePoint, Encode, Shape;
    EncodeConcat(u, [c]);
    EncodeOne(c);
    NoZero([c]);
    assert b in partial + [b];
    var q := Encode(u) + partial;
    assert q + [b] == Encode(u + [c]);
    if InTrie(at, u + [c]) {
      ShapePrefix(nodes, root, at, q + [b], |q|);
      assert (q + [b])[..|q|] == q;
    }
    if q in at { ShapeChild(nodes, root, at, q, b); }
  }

  /** The suffix `w[j..]` does not go on with `c`; the next one to try is that of its suffix link. */
  lemma SuffixNext(nodes: map<nat, N256>, root: nat, at: map<Path, nat>, dict: map<seq<Code>, nat>, w: seq<Code>,
                   c: Code, from: nat, j: nat)
    requires Shape(nodes, root, at) && from <= j <= |w| && NoneGoesOn(at, w, c, from, j)
    requires InTrie(at, w[j..]) && !InTrie(at, w[j..] + [c]) && Linked(nodes, at, dict, w[j..])
    ensures at[Encode(w[j..])] in nodes
    ensures var k := if j == |w| then j + 1 else Deepest(at, w, j + 1);
            && NoneGoesOn(at, w, c, from, k)
            && nodes[at[Encode(w[j..])]].suffix == (if j == |w| then None else WordNode(at, w[k..]))
            && (j < |w| ==> InTrie(at, w[k..]))
  {
    hide IsWord, Encode, Shape;
    if j == |w| {
      assert (w + [c])[j..] == w[j..] + [c];
    } else {
      RootPath(nodes, root, at);
      ChainStep(nodes, root, at, w, c, from, j);
      DeepestShift(at, w, j, 1);
      var k := Deepest(at, w, j + 1);
      assert w[j..][k - j..] == w[k..];
    }
  }

  lemma RootPath(nodes: map<nat, N256>, root: nat, at: map<Path, nat>)
    requires Shape(nodes, root, at)
    ensures [] in at && at[[]] == root
  {
  }

  lemma NextIs(kw: seq<byte>, level: nat)
    ensures level < |kw| ==> GetNextChar(kw, level) == kw[level]
  {
  }

  lemma EmptyTrie(nodes: map<nat, N256>)
    requires nodes == map[0 := N256(true, map[], None, None)]
    ensures Shape(nodes, 0, map[[] := 0]) && Spells(nodes, 0, map[[] := 0], map[]) && Registered(map[], 0, map[])
    ensures Occurrences(map[], 0, map[]) == map[]
  {
    EmptyIsWord();
  }

  /** The bottom-up loop: the nodes below level `idx` are built, and nothing points at them yet. */
  ghost predicate ChainSoFar(nodes0: map<nat, N256>, nodes: map<nat, N256>, at0: map<Path, nat>, at: map<Path, nat>,
                             kw: seq<byte>, level: nat, idx: nat, base: nat, tid: nat, last: Child)
  {
    && level <= idx <= |kw| && last == ChainChild(kw, idx, base, tid)
    && (forall k :: k in nodes0 ==> k < base)
    && (forall k :: k in nodes <==> k in nodes0 || base <= k < base + |kw| - idx)
    && (forall k :: k in nodes0 ==> nodes[k] == nodes0[k])
    && (forall k: nat :: idx < k <= |kw| ==> ChainNode(nodes, kw, k, base, tid))
    && GrownPaths(at0, at, kw, idx, base)
  }

  lemma ChainStart(nodes: map<nat, N256>, at: map<Path, nat>, kw: seq<byte>, level: nat, base: nat, tid: nat)
    requires level <= |kw| && forall k :: k in nodes ==> k < base
    ensures ChainSoFar(nodes, nodes, at, at, kw, level, |kw|, base, tid, Leaf(tid))
  {
    hide IsWord;
  }

  lemma ChainRound(nodes0: map<nat, N256>, nodes: map<nat, N256>, at0: map<Path, nat>, at: map<Path, nat>,
                   kw: seq<byte>, level: nat, idx: nat, base: nat, tid: nat, last: Child, cpEnd: bool)
    requires ChainSoFar(nodes0, nodes, at0, at, kw, level, idx, base, tid, last) && level < idx
    requires (cpEnd <==> IsWord(kw[..idx])) && kw[..idx] !in at0
    ensures var id := base + |kw| - idx;
            ChainSoFar(nodes0, nodes[id := N256(cpEnd, map[GetNextChar(kw, idx) := last], None, None)], at0,
                       at[kw[..idx] := id], kw, level, idx - 1, base, tid, Node(id))
  {
    hide IsWord, ChainNode, GrownPaths, GetNextChar;
    ChainExtends(nodes, kw, idx, base, tid, cpEnd, last);
    PathsExtend(at0, at, kw, idx, base);
  }

  /** Setting the edge makes the chain part of the tree. */
  lemma ChainDone(g: Growth, built: map<nat, N256>, node: nat, last: Child)
    requires Shape(g.nodes, g.root, g.at) && g.l != [] && g.level <= |g.Kw()| && g.Kw()[..g.level] in g.at
    requires g.at[g.Kw()[..g.level]] == node && node in g.nodes
    requires GetNextChar(g.Kw(), g.level) !in g.nodes[node].children
    requires ChainSoFar(g.nodes, built, g.at, g.mAt, g.Kw(), g.level, g.level, g.base, g.tid, last)
    ensures node in built
    ensures g.(mNodes := built[node := built[node].(children :=
                           built[node].children[GetNextChar(g.Kw(), g.level) := last])]).Valid()
    ensures forall k :: k in built ==> k < g.base + |g.Kw()| - g.level
  {
    hide IsWord, Encode, Shape, GrownPaths, ChainNode, GetNextChar;
    var nodes := built[node := built[node].(children := built[node].children[GetNextChar(g.Kw(), g.level) := last])];
    ChainUnder(built, nodes, g.Kw(), g.level, g.base, g.tid);
  }

  /** One more node in front of the chain. */
  lemma ChainExtends(nodes: map<nat, N256>, kw: seq<byte>, idx: nat, base: nat, tid: nat, cpEnd: bool, child: Child)
    requires 0 < idx <= |kw| && (cpEnd <==> IsWord(kw[..idx])) && child == ChainChild(kw, idx, base, tid)
    requires forall k: nat :: idx < k <= |kw| ==> ChainNode(nodes, kw, k, base, tid)
    ensures var id := base + |kw| - idx;
            var more := nodes[id := N256(cpEnd, map[GetNextChar(kw, idx) := child], None, None)];
            && (forall k: nat :: idx - 1 < k <= |kw| ==> ChainNode(more, kw, k, base, tid))
            && ChainChild(kw, idx - 1, base, tid) == Node(id)
  {
    hide IsWord;
    var more := nodes[base + |kw| - idx := N256(cpEnd, map[GetNextChar(kw, idx) := child], None, None)];
    forall k: nat | idx - 1 < k <= |kw| ensures ChainNode(more, kw, k, base, tid) {
      if k > idx { assert ChainNode(nodes, kw, k, base, tid); }
    }
  }

  /** ... and one more path. */
  lemma PathsExtend(at0: map<Path, nat>, at: map<Path, nat>, kw: seq<byte>, idx: nat, base: nat)
    requires 0 < idx <= |kw| && GrownPaths(at0, at, kw, idx, base) && kw[..idx] !in at0
    ensures GrownPaths(at0, at[kw[..idx] := base + |kw| - idx], kw, idx - 1, base)
  {
    forall k: nat | idx - 1 < k <= |kw| ensures k == idx || kw[..k] != kw[..idx] {
      assert |kw[..k]| == k;
    }
  }

  /** The chain does not notice what happens to older nodes. */
  lemma ChainUnder(built: map<nat, N256>, nodes: map<nat, N256>, kw: seq<byte>, level: nat, base: nat, tid: nat)
    requires level <= |kw| && forall k: nat :: level < k <= |kw| ==> ChainNode(built, kw, k, base, tid)
    requires forall k :: k in built && k >= base ==> k in nodes && nodes[k] == built[k]
    ensures forall k: nat :: level < k <= |kw| ==> ChainNode(nodes, kw, k, base, tid)
  {
    hide IsWord;
    forall k: nat | level < k <= |kw| ensures ChainNode(nodes, kw, k, base, tid) {
      assert ChainNode(built, kw, k, base, tid);
    }
  }

  lemma InsertStart(nodes: map<nat, N256>, root: nat, at: map<Path, nat>, kw: seq<byte>)
    requires Shape(nodes, root, at)
    ensures kw[..0] in at && at[kw[..0]] == root && root in nodes
  {
    hide IsWord;
    assert kw[..0] == [];
  }

  /** Following an edge of the keyword, or finding its leaf. */
  lemma InsertDown(nodes: map<nat, N256>, root: nat, at: map<Path, nat>, dict: map<seq<Code>, nat>, l: seq<Code>,
                   level: nat)
    requires Shape(nodes, root, at) && Spells(nodes, root, at, dict) && level <= |Encode(l)|
    requires Encode(l)[..level] in at && at[Encode(l)[..level]] in nodes
    requires GetNextChar(Encode(l), level) in nodes[at[Encode(l)[..level]]].children
    ensures var kw := Encode(l);
            var ch := nodes[at[kw[..level]]].children[GetNextChar(kw, level)];
            if level == |kw| then l in dict && ch == Leaf(dict[l])
            else kw[..level + 1] in at && ch == Node(at[kw[..level + 1]]) && at[kw[..level + 1]] in nodes
  {
    hide IsWord, Encode, Shape, Spells;
    var kw := Encode(l);
    NoZero(l);
    if level == |kw| {
      assert kw[..level] == kw;
      FoundLeaf(nodes, root, at, dict, l);
    } else {
      assert kw[level] in kw && kw[..level + 1] == kw[..level] + [kw[level]];
      ShapeChild(nodes, root, at, kw[..level], kw[level]);
      if kw[..level + 1] in at { NodeAt(nodes, root, at, kw[..level + 1]); }
    }
  }

  lemma NodeAt(nodes: map<nat, N256>, root: nat, at: map<Path, nat>, p: Path)
    requires Shape(nodes, root, at) && p in at
    ensures at[p] in nodes
  {
    hide IsWord;
  }

  lemma FoundLeaf(nodes: map<nat, N256>, root: nat, at: map<Path, nat>, dict: map<seq<Code>, nat>, l: seq<Code>)
    requires Shape(nodes, root, at) && Spells(nodes, root, at, dict)
    requires Encode(l) in at && at[Encode(l)] in nodes && 0 in nodes[at[Encode(l)]].children
    ensures l in dict && nodes[at[Encode(l)]].children[0] == Leaf(dict[l])
  {
    hide IsWord, Encode, Shape;
    var k :| k in dict && Encode(l) == Encode(k);
    EncodeInjective(k, l);
  }

  lemma NotYetIn(nodes: map<nat, N256>, root: nat, at: map<Path, nat>, dict: map<seq<Code>, nat>, l: seq<Code>,
                 level: nat)
    requires Shape(nodes, root, at) && Spells(nodes, root, at, dict) && level <= |Encode(l)|
    requires Encode(l)[..level] in at && at[Encode(l)[..level]] in nodes
    requires GetNextChar(Encode(l), level) !in nodes[at[Encode(l)[..level]]].children
    ensures l !in dict
  {
    hide IsWord, Encode;
    var kw := Encode(l);
    NoZero(l);
    if level == |kw| {
      assert kw[..level] == kw;
    } else {
      assert kw[..|kw|] == kw;
      NewAbsent(nodes, root, at, kw, level, |kw|);
    }
  }

  lemma RecordOld(literalMap: map<nat, LiteralEntry>, cnt: nat, dict: map<seq<Code>, nat>, l: seq<Code>,
                  ix: PatternIndex, aux: nat)
    requires Registered(literalMap, cnt, dict) && l in dict && aux == dict[l]
    ensures aux in literalMap
    ensures var more := literalMap[aux := literalMap[aux].(bitmap := literalMap[aux].bitmap + {ix})];
            Registered(more, cnt, dict) &&
            Occurrences(more, cnt, dict) == Recorded(Occurrences(literalMap, cnt, dict), l, ix)
  {
    hide Encode;
    var more := literalMap[aux := literalMap[aux].(bitmap := literalMap[aux].bitmap + {ix})];
    assert Registered(more, cnt, dict);
    var a, b := Occurrences(more, cnt, dict), Recorded(Occurrences(literalMap, cnt, dict), l, ix);
    assert a.Keys == b.Keys;
    forall k | k in a ensures a[k] == b[k] { }
  }

  lemma RegisterNew(literalMap: map<nat, LiteralEntry>, cnt: nat, dict: map<seq<Code>, nat>, l: seq<Code>,
                    e: LiteralEntry)
    requires Registered(literalMap, cnt, dict) && l !in dict && e.literalLen == |Encode(l)|
    ensures Registered(literalMap[cnt := e], cnt + 1, dict[l := cnt])
  {
    hide Encode;
    var more, d := literalMap[cnt := e], dict[l := cnt];
    forall k | k in more ensures exists w :: w in d && d[w] == k {
      if k != cnt {
        var w :| w in dict && dict[w] == k;
        assert w in d && d[w] == k;
      } else {
        assert l in d && d[l] == k;
      }
    }
  }

  lemma RecordNew(literalMap: map<nat, LiteralEntry>, cnt: nat, dict: map<seq<Code>, nat>, l: seq<Code>,
                  ix: PatternIndex)
    requires Registered(literalMap, cnt, dict) && l !in dict
    ensures var more := literalMap[cnt := LiteralEntry({ix}, |Encode(l)|)];
            Registered(more, cnt + 1, dict[l := cnt]) &&
            Occurrences(more, cnt + 1, dict[l := cnt]) == Recorded(Occurrences(literalMap, cnt, dict), l, ix)
  {
    hide Encode;
    RegisterNew(literalMap, cnt, dict, l, LiteralEntry({ix}, |Encode(l)|));
    var more, d := literalMap[cnt := LiteralEntry({ix}, |Encode(l)|)], dict[l := cnt];
    RecordNewSame(literalMap, more, cnt, dict, l, ix);
  }

  lemma RecordNewSame(literalMap: map<nat, LiteralEntry>, more: map<nat, LiteralEntry>, cnt: nat,
                      dict: map<seq<Code>, nat>, l: seq<Code>, ix: PatternIndex)
    requires Registered(literalMap, cnt, dict) && l !in dict && Registered(more, cnt + 1, dict[l := cnt])
    requires cnt in more && more[cnt].bitmap == {ix}
    requires forall k :: k in literalMap ==> k in more && more[k] == literalMap[k]
    ensures Occurrences(more, cnt + 1, dict[l := cnt]) == Recorded(Occurrences(literalMap, cnt, dict), l, ix)
  {
    hide Registered;
    IdsBelow(literalMap, cnt, dict);
    var a, b := Occurrences(more, cnt + 1, dict[l := cnt]), Recorded(Occurrences(literalMap, cnt, dict), l, ix);
    assert forall k :: k in a <==> k in b;
    assert forall k :: k in a ==> a[k] == b[k];
  }

  lemma IdsBelow(literalMap: map<nat, LiteralEntry>, cnt: nat, dict: map<seq<Code>, nat>)
    requires Registered(literalMap, cnt, dict)
    ensures forall k :: k in dict ==> dict[k] < cnt && dict[k] in literalMap
  {
    hide Encode;
  }
}
