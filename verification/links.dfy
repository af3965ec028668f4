/** The breadth-first pass that sets suffix and output links, and why every link is set before it is read. */
module SuffixLinks {
  import opened Options
  import opened Utf8
  import opened Tries

  /** A node to visit, the last node above it that ends a code point, and the bytes in between. */
  datatype BFSNodeItem = BFSNodeItem(node: nat, lastCodepointNode: nat, bytesSinceLastCp: seq<byte>)

  /** Where an item stands: its path, and the code points up to its last code point node. */
  datatype Place = Place(path: Path, word: seq<Code>)

  /** `w` is the longest word on the way to `p`. */
  ghost predicate LastWord(p: Path, w: seq<Code>)
  {
    Encode(w) <= p && forall k :: |Encode(w)| < k <= |p| ==> !IsWord(p[..k])
  }

  ghost predicate ItemOk(at: map<Path, nat>, it: BFSNodeItem, v: Place)
  {
    && v.path in at && at[v.path] == it.node && Encode(v.word) in at && at[Encode(v.word)] == it.lastCodepointNode
    && v.path == Encode(v.word) + it.bytesSinceLastCp && LastWord(v.path, v.word)
  }

  function SetLinks(nodes: map<nat, N256>, id: nat, suffix: Option<nat>, output: Option<nat>): map<nat, N256>
    requires id in nodes
  {
    nodes[id := nodes[id].(suffix := suffix, output := output)]
  }

  /** Links aside, the same nodes. */
  ghost predicate SameTree(nodes: map<nat, N256>, more: map<nat, N256>)
  {
    && more.Keys == nodes.Keys
    && forall k :: k in nodes ==> more[k].children == nodes[k].children && more[k].cpEnd == nodes[k].cpEnd
  }

  lemma SameTreeShape(nodes: map<nat, N256>, more: map<nat, N256>, root: nat, at: map<Path, nat>)
    requires Shape(nodes, root, at) && SameTree(nodes, more)
    ensures Shape(more, root, at)
  {
    hide IsWord;
  }

  lemma SameTreeSpells(nodes: map<nat, N256>, more: map<nat, N256>, root: nat, at: map<Path, nat>,
                       dict: map<seq<Code>, nat>)
    requires Shape(nodes, root, at) && Shape(more, root, at) && Spells(nodes, root, at, dict) && SameTree(nodes, more)
    ensures Spells(more, root, at, dict)
  {
    hide IsWord, Encode, Shape;
    forall p | p in at ensures at[p] in nodes && nodes[at[p]].children == more[at[p]].children {
      NodeThere(nodes, root, at, p);
    }
    SpellsMoves(nodes, more, root, at, dict);
  }

  lemma SpellsMoves(nodes: map<nat, N256>, more: map<nat, N256>, root: nat, at: map<Path, nat>,
                    dict: map<seq<Code>, nat>)
    requires Shape(nodes, root, at) && Shape(more, root, at) && Spells(nodes, root, at, dict)
    requires forall p :: p in at ==> at[p] in nodes && at[p] in more && nodes[at[p]].children == more[at[p]].children
    ensures Spells(more, root, at, dict)
  {
    hide IsWord, Encode, Shape;
  }

  lemma NodeThere(nodes: map<nat, N256>, root: nat, at: map<Path, nat>, p: Path)
    requires Shape(nodes, root, at) && p in at
    ensures at[p] in nodes
  {
    hide IsWord;
  }

  lemma SetLinksLinked(nodes: map<nat, N256>, root: nat, at: map<Path, nat>, dict: map<seq<Code>, nat>, w: seq<Code>,
                       suffix: Option<nat>, output: Option<nat>, u: seq<Code>)
    requires Shape(nodes, root, at) && Encode(w) in at && at[Encode(w)] in nodes
    requires u != w && Linked(nodes, at, dict, u)
    ensures Linked(SetLinks(nodes, at[Encode(w)], suffix, output), at, dict, u)
  {
    hide IsWord, Encode, SuffixWord, OutputNode;
    if Encode(u) == Encode(w) { EncodeInjective(u, w); }
  }

  // ----- one edge down -----

  /** A word that ends right behind `q`, where `w` is the last word so far, is one code point longer. */
  lemma PrefixOfWord(w: seq<Code>, v: seq<Code>, q: Path, b: byte)
    requires LastWord(q, w) && q + [b] == Encode(v)
    ensures |v| == |w| + 1 && v[..|w|] == w
  {
    hide IsWord, WriteCodePoint, CodeIndex, Encode;
    var p, n := q + [b], |w| + 1;
    assert Encode(w) <= p by { assert p[..|q|] == q; }
    EncodePrefix(w, v);
    assert v[..|w|] == w;
    assert |v| == |w| ==> v == w;
    IsWordSlice(v, n);
    OffMonotone(v, |w|, n);
    OffIs(v, |w|);
    assert forall k :: 0 <= k <= |q| ==> p[..k] == q[..k];
    OffEnds(v);
    OffOrder(v, n, |v|);
  }

  lemma IsWordSlice(v: seq<Code>, n: nat)
    requires n <= |v|
    ensures Off(v, n) <= |Encode(v)| && IsWord(Encode(v)[..Off(v, n)])
  {
    EncodeSlice(v, 0, n);
    assert v[0..n] == v[..n] && v[..0] == [];
  }

  /** A child that ends a code point is the word one code point longer. */
  lemma WordChild(p: Path, w: seq<Code>, bytes: seq<byte>, b: byte) returns (c: Code)
    requires p == Encode(w) + bytes && LastWord(p, w) && IsWord(p + [b])
    ensures p + [b] == Encode(w + [c]) && bytes + [b] == WriteCodePoint(c)
  {
    hide WriteCodePoint, CodeIndex, Encode;
    var v: seq<Code> :| p + [b] == Encode(v);
    PrefixOfWord(w, v, p, b);
    c := v[|w|];
    assert v == w + [c];
    EncodeConcat(w, [c]);
    EncodeOne(c);
    SameTail(Encode(w), bytes, b, WriteCodePoint(c));
  }

  lemma SameTail(a: seq<byte>, x: seq<byte>, b: byte, y: seq<byte>)
    requires a + x + [b] == a + y
    ensures x + [b] == y
  {
    assert (a + x + [b])[|a|..] == x + [b] && (a + y)[|a|..] == y;
  }

  /** A child in the middle of a code point has the same last word. */
  lemma MiddleChild(p: Path, w: seq<Code>, b: byte)
    requires LastWord(p, w) && !IsWord(p + [b])
    ensures LastWord(p + [b], w)
  {
    hide IsWord, Encode;
    forall k | |Encode(w)| < k <= |p| + 1 ensures !IsWord((p + [b])[..k]) {
      if k <= |p| { assert (p + [b])[..k] == p[..k]; } else { assert (p + [b])[..k] == p + [b]; }
    }
  }

  lemma WordIsLast(w: seq<Code>)
    ensures LastWord(Encode(w), w) && IsWord(Encode(w))
  {
  }

  lemma SuffixShorter(w: seq<Code>, j: nat)
    requires j <= |w|
    ensures |Encode(w[j..])| <= |Encode(w)| && (j > 0 ==> |Encode(w[j..])| < |Encode(w)|)
  {
    hide WriteCodePoint, Encode;
    assert w == w[..j] + w[j..];
    EncodeConcat(w[..j], w[j..]);
    if j > 0 {
      OffMonotone(w, 0, j);
      OffEnds(w);
      OffIs(w, j);
    }
  }

  lemma OffIs(w: seq<Code>, j: nat)
    requires j <= |w|
    ensures Off(w, j) == |Encode(w[..j])|
  {
  }

  // ----- links of a word -----

  lemma TerminalIs(nodes: map<nat, N256>, root: nat, at: map<Path, nat>, dict: map<seq<Code>, nat>, w: seq<Code>)
    requires Shape(nodes, root, at) && Spells(nodes, root, at, dict) && InTrie(at, w)
    ensures at[Encode(w)] in nodes && (nodes[at[Encode(w)]].IsTerminalNode() <==> w in dict)
  {
    hide IsWord, Encode;
    if nodes[at[Encode(w)]].IsTerminalNode() {
      var l :| l in dict && Encode(w) == Encode(l);
      EncodeInjective(l, w);
    }
  }

  lemma LiteralInTrie(nodes: map<nat, N256>, root: nat, at: map<Path, nat>, dict: map<seq<Code>, nat>, w: seq<Code>)
    requires Shape(nodes, root, at) && Spells(nodes, root, at, dict) && w in dict
    ensures InTrie(at, w) && w != []
  {
    hide IsWord, Encode;
  }

  /** The output link from the suffix node: the suffix itself if it is a literal, else its own output. */
  lemma OutputIs(nodes: map<nat, N256>, root: nat, at: map<Path, nat>, dict: map<seq<Code>, nat>, w: seq<Code>)
    requires Shape(nodes, root, at) && Spells(nodes, root, at, dict) && w != []
    requires Linked(nodes, at, dict, SuffixWord(at, w))
    ensures var s := SuffixWord(at, w);
            && at[Encode(s)] in nodes
            && OutputNode(at, dict, w) == if s in dict then Some(at[Encode(s)]) else nodes[at[Encode(s)]].output
  {
    hide IsWord, Encode, Shape, Spells;
    var j, s := Deepest(at, w, 1), SuffixWord(at, w);
    var k := NextLiteral(dict, w, 1);
    if k < j { LiteralInTrie(nodes, root, at, dict, w[k..]); }
    if s !in dict && s != [] {
      NextLiteralShift(dict, w, j, 1);
      var d := NextLiteral(dict, s, 1);
      if d < |s| { assert s[d..] == w[j + d..]; }
      NextLiteralFrom(dict, w, 1, j + 1);
    }
    if s == [] { LiteralNotEmpty(nodes, root, at, dict); }
  }

  lemma LiteralNotEmpty(nodes: map<nat, N256>, root: nat, at: map<Path, nat>, dict: map<seq<Code>, nat>)
    requires Shape(nodes, root, at) && Spells(nodes, root, at, dict)
    ensures [] !in dict
  {
    hide IsWord, Encode;
  }

  /** Nothing found up to `j`: the search may start at `j`. */
  lemma {:induction false} NextLiteralFrom(dict: map<seq<Code>, nat>, w: seq<Code>, i: nat, j: nat)
    requires i <= j <= |w| && forall k :: i <= k < j ==> w[k..] !in dict
    ensures NextLiteral(dict, w, i) == NextLiteral(dict, w, j)
    decreases j - i
  {
    if i < j { NextLiteralFrom(dict, w, i + 1, j); }
  }

  // ----- the queue -----

  ghost predicate Unlinked(nodes: map<nat, N256>, id: nat)
  {
    id in nodes && nodes[id].suffix == None && nodes[id].output == None
  }

  /** The state of the pass. `seen` are the paths that have entered the queue, `done` those that have left it. */
  datatype Bfs = Bfs(nodes: map<nat, N256>, root: nat, at: map<Path, nat>, dict: map<seq<Code>, nat>,
                     queue: seq<BFSNodeItem>, places: seq<Place>, seen: set<Path>, done: set<Path>)
  {
    ghost predicate Tree()
    {
      Shape(nodes, root, at) && Spells(nodes, root, at, dict)
    }

    ghost predicate Items()
    {
      && |queue| == |places| && (forall k :: 0 <= k < |queue| ==> ItemOk(at, queue[k], places[k]))
      && (forall i, j :: 0 <= i < j < |places| ==>
            places[i].path != places[j].path && |places[i].path| <= |places[j].path|)
    }

    /** `cur` is being visited and its children below byte `b` have been looked at. */
    ghost predicate Entered(cur: Option<Path>, b: nat, p: Path)
    {
      p in at && (p == [] || (p[..|p| - 1] in done && (cur == Some(p[..|p| - 1]) ==> p[|p| - 1] < b)))
    }

    ghost predicate Sets(cur: Option<Path>, b: nat)
    {
      && (forall p :: p in seen <==> Entered(cur, b, p))
      && (forall p :: p in done ==> p in seen)
      && (forall p :: p in seen ==> p in done || exists k :: 0 <= k < |places| && places[k].path == p)
      && (forall k :: 0 <= k < |places| ==> places[k].path in seen && places[k].path !in done)
    }

    ghost predicate Depths(cur: Option<Path>)
    {
      if cur.Some? then cur.value in done && forall k :: 0 <= k < |places| ==>
                          |cur.value| <= |places[k].path| <= |cur.value| + 1
      else forall k :: 0 <= k < |places| ==> |places[k].path| <= |places[0].path| + 1
    }

    ghost predicate Links()
    {
      && (forall w :: Encode(w) in seen ==> Linked(nodes, at, dict, w))
      && (forall p :: p in at && p !in seen ==> Unlinked(nodes, at[p]))
    }

    ghost predicate Inv(cur: Option<Path>, b: nat)
    {
      Tree() && Items() && Sets(cur, b) && Depths(cur) && Links()
    }
  }

  lemma SetsPop(s: Bfs)
    requires s.Sets(None, 0) && s.Items() && s.queue != []
    ensures var p := s.places[0].path;
            s.(queue := s.queue[1..], places := s.places[1..], done := s.done + {p}).Sets(Some(p), 0)
  {
    hide IsWord, ItemOk;
    var p := s.places[0].path;
    var n := s.(queue := s.queue[1..], places := s.places[1..], done := s.done + {p});
    forall q | q in s.seen ensures q in n.done || exists k :: 0 <= k < |n.places| && n.places[k].path == q {
      if q !in n.done {
        var k :| 0 <= k < |s.places| && s.places[k].path == q;
        assert n.places[k - 1].path == q;
      }
    }
    forall q ensures q in n.seen <==> n.Entered(Some(p), 0, q) {
      assert s.Entered(None, 0, q) <==> n.Entered(Some(p), 0, q);
    }
  }

  /** Taking the first item out of the queue. */
  lemma BfsPop(s: Bfs)
    requires s.Inv(None, 0) && s.queue != []
    ensures var p := s.places[0].path;
            s.(queue := s.queue[1..], places := s.places[1..], done := s.done + {p}).Inv(Some(p), 0)
    ensures s.places[0].path in s.at && s.places[0].path !in s.done
  {
    hide IsWord, ItemOk, Bfs.Sets, Bfs.Links, Bfs.Tree;
    SetsPop(s);
    PlaceSeen(s, 0);
    LinksDone(s, s.(queue := s.queue[1..], places := s.places[1..], done := s.done + {s.places[0].path}));
    TreeDone(s, s.(queue := s.queue[1..], places := s.places[1..], done := s.done + {s.places[0].path}));
  }

  lemma PlaceSeen(s: Bfs, k: nat)
    requires s.Sets(None, 0) && k < |s.places|
    ensures s.places[k].path in s.seen && s.places[k].path !in s.done && s.places[k].path in s.at
  {
    assert s.Entered(None, 0, s.places[k].path);
  }

  lemma LinksDone(s: Bfs, n: Bfs)
    requires s.Links() && n == s.(queue := n.queue, places := n.places, done := n.done)
    ensures n.Links()
  {
    hide Linked, Encode;
  }

  lemma TreeDone(s: Bfs, n: Bfs)
    requires s.Tree() && n == s.(queue := n.queue, places := n.places, done := n.done)
    ensures n.Tree()
  {
    hide Shape, Spells;
  }

  /** A byte without a child, or the leaf, passes. */
  lemma BfsSkip(s: Bfs, p: Path, b: byte)
    requires s.Inv(Some(p), b) && p + [b] !in s.at
    ensures s.Inv(Some(p), b + 1)
  {
    hide IsWord, ItemOk, Bfs.Links, Bfs.Tree, Bfs.Items;
    forall q ensures s.Entered(Some(p), b, q) <==> s.Entered(Some(p), b + 1, q) {
      if s.Entered(Some(p), b + 1, q) && q != [] { assert q == q[..|q| - 1] + [q[|q| - 1]]; }
    }
  }

  lemma SetsPush(s: Bfs, p: Path, b: byte, it: BFSNodeItem, v: Place, nodes: map<nat, N256>)
    requires s.Sets(Some(p), b) && p in s.done && p + [b] in s.at && v.path == p + [b]
    ensures p + [b] !in s.seen
    ensures s.(nodes := nodes, queue := s.queue + [it], places := s.places + [v], seen := s.seen + {p + [b]})
              .Sets(Some(p), b + 1)
  {
    hide IsWord;
    var n := s.(nodes := nodes, queue := s.queue + [it], places := s.places + [v], seen := s.seen + {p + [b]});
    assert (p + [b])[..|p|] == p && (p + [b])[|p|] == b;
    assert !s.Entered(Some(p), b, p + [b]);
    forall q ensures q in n.seen <==> n.Entered(Some(p), b + 1, q) {
      assert q != [] ==> q == q[..|q| - 1] + [q[|q| - 1]];
      assert q != p + [b] ==> (s.Entered(Some(p), b, q) <==> n.Entered(Some(p), b + 1, q));
    }
    forall q | q in n.seen ensures q in n.done || exists k :: 0 <= k < |n.places| && n.places[k].path == q {
      if q == p + [b] {
        assert n.places[|s.places|].path == q;
      } else if q !in n.done {
        var k :| 0 <= k < |s.places| && s.places[k].path == q;
        assert n.places[k].path == q;
      }
    }
  }

  lemma ItemsPush(s: Bfs, p: Path, b: byte, it: BFSNodeItem, v: Place, n: Bfs)
    requires s.Items() && s.Depths(Some(p)) && s.Sets(Some(p), b) && p + [b] !in s.seen
    requires ItemOk(s.at, it, v) && v.path == p + [b]
    requires n == s.(nodes := n.nodes, queue := s.queue + [it], places := s.places + [v], seen := n.seen)
    ensures n.Items() && n.Depths(Some(p))
  {
    hide IsWord, ItemOk, Bfs.Entered;
  }

  /** A child enters the queue; if it ends a code point its links have just been set, to what they should be. */
  lemma BfsPush(s: Bfs, p: Path, b: byte, it: BFSNodeItem, v: Place, n: Bfs)
    requires s.Inv(Some(p), b) && p + [b] in s.at && v.path == p + [b] && ItemOk(s.at, it, v)
    requires n == s.(nodes := n.nodes, queue := s.queue + [it], places := s.places + [v], seen := s.seen + {p + [b]})
    requires n.Tree() && forall w :: Encode(w) == p + [b] ==> Linked(n.nodes, s.at, s.dict, w)
    requires forall w :: Encode(w) in s.seen ==> Linked(n.nodes, s.at, s.dict, w)
    requires forall q :: q in s.at && q != p + [b] && Unlinked(s.nodes, s.at[q]) ==> Unlinked(n.nodes, s.at[q])
    ensures n.Inv(Some(p), b + 1)
  {
    hide IsWord, ItemOk, Bfs.Tree, Linked, Encode, Bfs.Sets, Bfs.Items, Unlinked;
    SetsPush(s, p, b, it, v, n.nodes);
    ItemsPush(s, p, b, it, v, n);
  }

  lemma BfsFinish(s: Bfs, p: Path)
    requires s.Inv(Some(p), 256)
    ensures s.Inv(None, 0)
  {
    hide IsWord, ItemOk, Bfs.Links, Bfs.Tree;
    forall q ensures s.Entered(Some(p), 256, q) <==> s.Entered(None, 0, q) { }
  }

  /** While `p` is visited, every path no longer than it has been seen. */
  lemma {:induction false} BfsReached(s: Bfs, p: Path, b: nat, q: Path)
    requires s.Inv(Some(p), b) && q in s.at && |q| <= |p|
    ensures q in s.seen
    decreases |q|
  {
    hide IsWord, ItemOk, Bfs.Links, Spells;
    assert s.Entered(Some(p), b, q) by {
      if q != [] {
        var r := q[..|q| - 1];
        BfsReached(s, p, b, r);
        assert forall k :: 0 <= k < |s.places| ==> s.places[k].path != r;
      }
    }
  }

  /** When the queue is empty, every path has been seen. */
  lemma {:induction false} BfsAll(s: Bfs, q: Path)
    requires s.Inv(None, 0) && s.queue == [] && q in s.at
    ensures q in s.seen
    decreases |q|
  {
    hide IsWord, ItemOk, Bfs.Links, Spells;
    assert s.Entered(None, 0, q) by {
      if q != [] { BfsAll(s, q[..|q| - 1]); }
    }
  }

  lemma BfsEnd(s: Bfs)
    requires s.Inv(None, 0) && s.queue == []
    ensures AllLinked(s.nodes, s.at, s.dict)
  {
    hide IsWord, Bfs.Tree, Linked, Bfs.Sets, Bfs.Items;
    forall w | InTrie(s.at, w) ensures Linked(s.nodes, s.at, s.dict, w) {
      BfsAll(s, Encode(w));
    }
  }
}
