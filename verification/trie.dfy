/** The byte trie of the literals. Nodes live in an arena, `nodes`, and point at each other by id; leaves
    hang off the zero byte. `at` names the node of every path. */
module Tries {
  import opened Options
  import opened Utf8

  datatype Child = Node(id: nat) | Leaf(auxIndex: nat)

  /** `cpEnd`: the path ends a code point. Only such nodes carry links. */
  datatype N256 = N256(cpEnd: bool, children: map<byte, Child>, suffix: Option<nat>, output: Option<nat>)
  {
    function GetChild(b: byte): Option<Child>
    {
      if b in children then Some(children[b]) else None
    }

    predicate IsTerminalNode()
    {
      0 in children
    }
  }

  type Path = seq<byte>

  ghost predicate IsWord(p: Path)
  {
    exists w: seq<Code> :: p == Encode(w)
  }

  /** The nodes form one tree, with `at` its paths. */
  ghost predicate Shape(nodes: map<nat, N256>, root: nat, at: map<Path, nat>)
  {
    && [] in at && at[[]] == root
    && (forall p :: p in at ==> at[p] in nodes && 0 !in p && (nodes[at[p]].cpEnd <==> IsWord(p)))
    && (forall p, q :: p in at && q in at && at[p] == at[q] ==> p == q)
    && (forall p, b: byte :: p in at && b != 0 && b in nodes[at[p]].children ==>
          p + [b] in at && nodes[at[p]].children[b] == Node(at[p + [b]]))
    && (forall p :: p in at && p != [] ==>
          p[..|p| - 1] in at && p[|p| - 1] in nodes[at[p[..|p| - 1]]].children)
    && (forall p :: p in at && 0 in nodes[at[p]].children ==> nodes[at[p]].children[0].Leaf?)
  }

  /** The tree spells the literals of `dict`, each with its leaf, and nothing more. */
  ghost predicate Spells(nodes: map<nat, N256>, root: nat, at: map<Path, nat>, dict: map<seq<Code>, nat>)
    requires Shape(nodes, root, at)
  {
    && (forall l :: l in dict ==> l != [] && Encode(l) in at && 0 in nodes[at[Encode(l)]].children
                                  && nodes[at[Encode(l)]].children[0] == Leaf(dict[l]))
    && (forall p :: p in at && 0 in nodes[at[p]].children ==> exists l :: l in dict && p == Encode(l))
    && (forall p :: p in at && p != [] ==> exists l :: l in dict && p <= Encode(l))
  }

  lemma EmptyIsWord()
    ensures IsWord([])
  {
    assert Encode([]) == [];
  }

  lemma ShapeChild(nodes: map<nat, N256>, root: nat, at: map<Path, nat>, p: Path, b: byte)
    requires Shape(nodes, root, at) && p in at && b != 0
    ensures at[p] in nodes
    ensures b in nodes[at[p]].children <==> p + [b] in at
    ensures p + [b] in at ==> nodes[at[p]].children[b] == Node(at[p + [b]])
  {
    hide IsWord;
    if p + [b] in at {
      var q := p + [b];
      assert q[..|q| - 1] == p && q[|q| - 1] == b;
    }
  }

  /** Every prefix of a path is a path. */
  lemma ShapeParent(nodes: map<nat, N256>, root: nat, at: map<Path, nat>, p: Path)
    requires Shape(nodes, root, at) && p in at && p != []
    ensures p[..|p| - 1] in at
  {
    hide IsWord;
  }

  lemma {:induction false} ShapePrefix(nodes: map<nat, N256>, root: nat, at: map<Path, nat>, p: Path, n: nat)
    requires Shape(nodes, root, at) && p in at && n <= |p|
    ensures p[..n] in at
    decreases |p| - n
  {
    hide IsWord, Shape;
    if n < |p| {
      ShapePrefix(nodes, root, at, p, n + 1);
      ShapeParent(nodes, root, at, p[..n + 1]);
      assert p[..n + 1][..n] == p[..n];
    } else {
      assert p[..n] == p;
    }
  }

  // ----- words: paths that end a code point -----

  ghost predicate InTrie(at: map<Path, nat>, w: seq<Code>)
  {
    Encode(w) in at
  }

  lemma InTriePrefix(nodes: map<nat, N256>, root: nat, at: map<Path, nat>, w: seq<Code>, n: nat)
    requires Shape(nodes, root, at) && InTrie(at, w) && n <= |w|
    ensures InTrie(at, w[..n])
  {
    hide IsWord;
    EncodeSlice(w, 0, n);
    assert w[0..n] == w[..n] && w[..0] == [];
    ShapePrefix(nodes, root, at, Encode(w), Off(w, n));
  }

  /** The first `j' >= j` such that the rest of `w` from there on is in the trie. */
  ghost function Deepest(at: map<Path, nat>, w: seq<Code>, j: nat): (k: nat)
    requires j <= |w|
    ensures j <= k <= |w|
    ensures [] in at ==> InTrie(at, w[k..])
    ensures forall i :: j <= i < k ==> !InTrie(at, w[i..])
    decreases |w| - j
  {
    if j == |w| || InTrie(at, w[j..]) then (assert j == |w| ==> w[j..] == []; j) else Deepest(at, w, j + 1)
  }

  lemma DeepestUnique(at: map<Path, nat>, w: seq<Code>, j: nat, k: nat)
    requires j <= k <= |w| && [] in at && InTrie(at, w[k..]) && forall i :: j <= i < k ==> !InTrie(at, w[i..])
    ensures Deepest(at, w, j) == k
  {
    hide InTrie;
    var d := Deepest(at, w, j);
  }

  /** Searching the rest of a word is searching the word from there. */
  lemma DeepestShift(at: map<Path, nat>, w: seq<Code>, j: nat, k: nat)
    requires j + k <= |w| && [] in at
    ensures Deepest(at, w[j..], k) + j == Deepest(at, w, j + k)
  {
    hide InTrie;
    var d := Deepest(at, w[j..], k);
    assert w[j..][d..] == w[j + d..];
    forall i | j + k <= i < j + d ensures !InTrie(at, w[i..]) {
      assert w[j..][i - j..] == w[i..];
    }
    DeepestUnique(at, w, j + k, j + d);
  }

  /** The first `j' >= j` such that the rest of `w` is a literal; `|w|` if there is none. */
  ghost function NextLiteral(dict: map<seq<Code>, nat>, w: seq<Code>, j: nat): (k: nat)
    requires j <= |w|
    ensures j <= k <= |w| && (k < |w| ==> w[k..] in dict)
    ensures forall i :: j <= i < k ==> w[i..] !in dict
    decreases |w| - j
  {
    if j == |w| || w[j..] in dict then j else NextLiteral(dict, w, j + 1)
  }

  lemma NextLiteralShift(dict: map<seq<Code>, nat>, w: seq<Code>, j: nat, k: nat)
    requires j + k <= |w|
    ensures NextLiteral(dict, w[j..], k) + j == NextLiteral(dict, w, j + k)
  {
    var d, e := NextLiteral(dict, w[j..], k), NextLiteral(dict, w, j + k);
    if d < |w| - j { assert w[j..][d..] == w[j + d..]; }
    if e < |w| { assert w[j..][e - j..] == w[e..]; }
  }

  // ----- links -----

  /** The longest proper suffix of `w` that is in the trie, at code point boundaries. */
  ghost function SuffixWord(at: map<Path, nat>, w: seq<Code>): seq<Code>
    requires w != []
  {
    w[Deepest(at, w, 1)..]
  }

  ghost function WordNode(at: map<Path, nat>, w: seq<Code>): Option<nat>
  {
    if Encode(w) in at then Some(at[Encode(w)]) else None
  }

  /** The longest proper suffix of `w` that is a literal. */
  ghost function OutputNode(at: map<Path, nat>, dict: map<seq<Code>, nat>, w: seq<Code>): Option<nat>
    requires w != []
  {
    var k := NextLiteral(dict, w, 1);
    if k < |w| then WordNode(at, w[k..]) else None
  }

  /** The links of the node of `w` are exact. */
  ghost predicate Linked(nodes: map<nat, N256>, at: map<Path, nat>, dict: map<seq<Code>, nat>, w: seq<Code>)
  {
    && Encode(w) in at && at[Encode(w)] in nodes
    && var n := nodes[at[Encode(w)]];
       if w == [] then n.suffix == None && n.output == None
       else n.suffix == WordNode(at, SuffixWord(at, w)) && n.output == OutputNode(at, dict, w)
  }

  ghost predicate AllLinked(nodes: map<nat, N256>, at: map<Path, nat>, dict: map<seq<Code>, nat>)
  {
    forall w :: InTrie(at, w) ==> Linked(nodes, at, dict, w)
  }

  // ----- one more code point -----

  /** None of the suffixes of `w` from `from` up to `j` goes on with `c`. */
  ghost predicate NoneGoesOn(at: map<Path, nat>, w: seq<Code>, c: Code, from: nat, j: nat)
    requires j <= |w| + 1
  {
    forall i :: from <= i < j ==> !InTrie(at, (w + [c])[i..])
  }

  /** A suffix that does not go on may be left for the next one in the trie. */
  lemma ChainStep(nodes: map<nat, N256>, root: nat, at: map<Path, nat>, w: seq<Code>, c: Code, from: nat, j: nat)
    requires Shape(nodes, root, at) && from <= j < |w| && NoneGoesOn(at, w, c, from, j)
    requires !InTrie(at, w[j..] + [c])
    ensures NoneGoesOn(at, w, c, from, Deepest(at, w, j + 1))
  {
    hide IsWord, InTrie, Shape, Deepest;
    forall i | from <= i < Deepest(at, w, j + 1) ensures !InTrie(at, (w + [c])[i..]) {
      assert (w + [c])[i..] == w[i..] + [c];
      assert (w[i..] + [c])[..|w| - i] == w[i..];
      if i > j && InTrie(at, w[i..] + [c]) {
        InTriePrefix(nodes, root, at, w[i..] + [c], |w| - i);
      }
    }
  }

  /** The suffix that goes on first is the longest suffix of the longer word. */
  lemma ChainFound(at: map<Path, nat>, w: seq<Code>, c: Code, from: nat, j: nat)
    requires from <= j <= |w| && [] in at && NoneGoesOn(at, w, c, from, j) && InTrie(at, w[j..] + [c])
    ensures Deepest(at, w + [c], from) == j && (w + [c])[j..] == w[j..] + [c]
  {
    hide InTrie;
    assert (w + [c])[j..] == w[j..] + [c];
    DeepestUnique(at, w + [c], from, j);
  }

  lemma ChainExhausted(at: map<Path, nat>, w: seq<Code>, c: Code, from: nat)
    requires from <= |w| + 1 && [] in at && NoneGoesOn(at, w, c, from, |w| + 1)
    ensures Deepest(at, w + [c], from) == |w| + 1 && (w + [c])[|w| + 1..] == []
  {
    hide InTrie;
    EmptyInTrie(at);
    assert (w + [c])[|w| + 1..] == [];
    DeepestUnique(at, w + [c], from, |w| + 1);
  }

  // ----- how many links that takes -----

  /** Where the climb for `c` ends: at the first suffix of `w` from `j` on that the trie has and that goes on with `c`,
      or at the empty one. */
  ghost function Landing(at: map<Path, nat>, w: seq<Code>, c: Code, j: nat): (k: nat)
    requires j <= |w|
    ensures j <= k <= |w|
    decreases |w| - j
  {
    if j == |w| || (InTrie(at, w[j..]) && InTrie(at, w[j..] + [c])) then j else Landing(at, w, c, j + 1)
  }

  /** The suffixes of `w` in the trie behind `k`, up to `j`. */
  ghost function Climbed(at: map<Path, nat>, w: seq<Code>, k: nat, j: nat): set<nat>
    requires j <= |w|
  {
    set i: nat | k < i <= j && InTrie(at, w[i..])
  }

  /** The suffix links from the longest suffix of `w` to where the climb for `c` ends: one to each shorter one. */
  ghost function LinksFor(at: map<Path, nat>, w: seq<Code>, c: Code): nat
  {
    var k := Deepest(at, w, 0);
    |Climbed(at, w, k, Landing(at, w, c, k))|
  }

  /** ... for all code points of a text up to `n`. */
  ghost function TotalLinks(at: map<Path, nat>, t: seq<Code>, n: nat): nat
    requires n <= |t|
  {
    if n == 0 then 0 else TotalLinks(at, t, n - 1) + LinksFor(at, t[..n - 1], t[n - 1])
  }

  lemma ClimbNext(at: map<Path, nat>, w: seq<Code>, k: nat, j: nat)
    requires [] in at && k <= j < |w|
    ensures |Climbed(at, w, k, Deepest(at, w, j + 1))| == |Climbed(at, w, k, j)| + 1
  {
    hide InTrie;
    var d := Deepest(at, w, j + 1);
    assert Climbed(at, w, k, d) == Climbed(at, w, k, j) + {d};
  }

  lemma ClimbStart(at: map<Path, nat>, w: seq<Code>, k: nat)
    requires k <= |w|
    ensures |Climbed(at, w, k, k)| == 0
  {
    assert Climbed(at, w, k, k) == {};
  }

  /** No suffix before the landing place goes on. */
  lemma {:induction false} LandingIs(at: map<Path, nat>, w: seq<Code>, c: Code, k: nat, j: nat)
    requires k <= j <= |w| && NoneGoesOn(at, w, c, k, j)
    requires j == |w| || (InTrie(at, w[j..]) && InTrie(at, w[j..] + [c]))
    ensures Landing(at, w, c, k) == j
    decreases j - k
  {
    hide InTrie;
    if k < j {
      assert (w + [c])[k..] == w[k..] + [c];
      LandingIs(at, w, c, k + 1, j);
    }
  }

  lemma {:induction false} ClimbShort(at: map<Path, nat>, w: seq<Code>, k: nat, j: nat)
    requires k <= j <= |w|
    ensures |Climbed(at, w, k, j)| <= j - k
    decreases j
  {
    hide InTrie;
    if k < j {
      ClimbShort(at, w, k, j - 1);
      assert Climbed(at, w, k, j) == Climbed(at, w, k, j - 1) + if InTrie(at, w[j..]) then {j} else {};
    } else {
      ClimbStart(at, w, k);
    }
  }

  lemma EmptyInTrie(at: map<Path, nat>)
    requires [] in at
    ensures InTrie(at, []) && Encode([]) == []
  {
    assert Encode([]) == [];
  }
}
