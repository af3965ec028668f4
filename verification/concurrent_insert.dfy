/** Any number of `Tree::insert` calls at once, by optimistic lock coupling, as a transition system. One step of
    one call is one access to shared memory: a version, a child pointer, the id counter, the literal map. The
    nodes a call builds are its own until one store hangs them into the tree. */
module ConcurrentInsert {
  import opened Options
  import opened Utf8
  import opened Tries
  import opened AhoCorasicks

  /** Where a call stands. From `NewId` to `Unlock` it holds the lock of `node`. */
  datatype Pc = ReadLock | ReadChild | Validate | ParentCheck | Descend | UpgradeLeaf | Upsert
              | AttachCheck | Upgrade | NewId | NewEntry | Publish | Unlock | Done

  /** One call: the literal and the pattern position to record, and the local variables. `mark` and
      `parentMark` say how many locks had been taken when `v` and `parentV` were read. */
  datatype Call = Call(l: seq<Code>, ix: PatternIndex, pc: Pc, node: nat, v: nat, parent: Option<nat>, parentV: nat,
                       level: nat, next: Option<Child>, tid: nat, mark: nat, parentMark: nat)
  {
    ghost function Kw(): seq<byte> { Encode(l) }

    ghost function Key(): byte { GetNextChar(Encode(l), level) }

    ghost predicate Holding() { pc.Upsert? || pc.NewId? || pc.NewEntry? || pc.Publish? || pc.Unlock? }

    /** The call has had its effect. */
    ghost predicate Effective() { pc.Unlock? || pc.Done? }

    /** It has taken an id that is not in the tree yet. */
    ghost predicate Pending() { pc.NewEntry? || pc.Publish? }
  }

  /** The shared memory. `version` is even while a node is free. `at` and `dict` name the paths and the words
      of the tree; `locks` lists the locks taken so far, by call and node. */
  datatype Shared = Shared(nodes: map<nat, N256>, root: nat, nextNode: nat, version: map<nat, nat>,
                           literalMap: map<nat, LiteralEntry>, cnt: nat, at: map<Path, nat>,
                           dict: map<seq<Code>, nat>, locks: seq<(nat, nat)>)

  datatype Sys = Sys(mem: Shared, calls: seq<Call>)

  // ----- the steps -----

  ghost function Restart(m: Shared, c: Call): Call
  {
    c.(pc := ReadLock, node := m.root, parent := None, level := 0)
  }

  /** `compare_exchange` from `v` to the locked version. */
  ghost function Locked(m: Shared, i: nat, c: Call): Shared
    requires c.node in m.version
  {
    m.(version := m.version[c.node := c.v + 1], locks := m.locks + [(i, c.node)])
  }

  ghost function NewIds(base: nat, n: nat): (r: set<nat>)
    ensures forall k: nat :: k in r <==> base <= k < base + n
  {
    if n == 0 then {} else NewIds(base, n - 1) + {base + n - 1}
  }

  /** The arena with the chain for `kw[level + 1..]` and its leaf hung under `node`. */
  ghost function GrowNodes(nodes: map<nat, N256>, node: nat, kw: seq<byte>, level: nat, base: nat, tid: nat)
    : map<nat, N256>
    requires level <= |kw| && node in nodes
  {
    map k | k in nodes.Keys + NewIds(base, |kw| - level) ::
      if k == node then
        nodes[k].(children := nodes[k].children[GetNextChar(kw, level) := ChainChild(kw, level, base, tid)])
      else if k in nodes then nodes[k]
      else
        var j := base + |kw| - k;
        N256(IsWord(kw[..j]), map[GetNextChar(kw, j) := ChainChild(kw, j, base, tid)], None, None)
  }

  ghost function GrowPaths(at: map<Path, nat>, kw: seq<byte>, level: nat, base: nat): map<Path, nat>
    requires level <= |kw|
  {
    map p | p in at.Keys + (set k: nat | level < k <= |kw| :: kw[..k]) ::
      if p in at then at[p] else base + |kw| - |p|
  }

  ghost function GrowVersions(version: map<nat, nat>, base: nat, n: nat): map<nat, nat>
  {
    map k | k in version.Keys + NewIds(base, n) :: if k in version then version[k] else 2
  }

  ghost function Published(m: Shared, c: Call): Shared
    requires c.level <= |c.Kw()| && c.node in m.nodes
  {
    var n := |c.Kw()| - c.level;
    m.(nodes := GrowNodes(m.nodes, c.node, c.Kw(), c.level, m.nextNode, c.tid), nextNode := m.nextNode + n,
       version := GrowVersions(m.version, m.nextNode, n),
       at := GrowPaths(m.at, c.Kw(), c.level, m.nextNode), dict := m.dict[c.l := c.tid])
  }

  /** The pointers a call follows lead to nodes; what it stores under a lock has a place. */
  ghost predicate Steppable(m: Shared, c: Call)
  {
    && c.node in m.nodes && c.node in m.version && c.level <= |c.Kw()|
    && (c.parent.Some? ==> c.parent.value in m.version)
    && (c.pc.Descend? ==> c.next.Some?)
    && (c.pc.Upsert? ==> c.next.Some? && c.next.value.Leaf? && c.next.value.auxIndex in m.literalMap)
  }

  /** What a step does to the shared memory ... */
  ghost function MemAfter(m: Shared, i: nat, c: Call): Shared
    requires Steppable(m, c)
  {
    match c.pc
    case UpgradeLeaf => if m.version[c.node] == c.v then Locked(m, i, c) else m
    case Upgrade => if m.version[c.node] == c.v then Locked(m, i, c) else m
    case Upsert =>
      var aux := c.next.value.auxIndex;
      m.(literalMap := m.literalMap[aux := m.literalMap[aux].(bitmap := m.literalMap[aux].bitmap + {c.ix})])
    case NewId => m.(cnt := m.cnt + 1)
    case NewEntry => m.(literalMap := m.literalMap[c.tid := LiteralEntry({c.ix}, |c.Kw()|)])
    case Publish => Published(m, c)
    case Unlock => m.(version := m.version[c.node := m.version[c.node] + 1])
    case _ => m
  }

  /** ... and to the call itself. */
  ghost function CallAfter(m: Shared, c: Call): Call
    requires Steppable(m, c)
  {
    match c.pc
    case ReadLock =>
      if m.version[c.node] % 2 == 1 then Restart(m, c)
      else c.(v := m.version[c.node], mark := |m.locks|, pc := ReadChild)
    case ReadChild => c.(next := m.nodes[c.node].GetChild(c.Key()), pc := Validate)
    case Validate =>
      if m.version[c.node] != c.v then Restart(m, c)
      else c.(pc := if c.next == None then AttachCheck else ParentCheck)
    case ParentCheck =>
      if c.parent.Some? && m.version[c.parent.value] != c.parentV then Restart(m, c)
      else c.(pc := Descend)
    case Descend =>
      if c.next.value.Leaf? then c.(pc := UpgradeLeaf)
      else c.(pc := ReadLock, parent := Some(c.node), parentV := c.v, parentMark := c.mark, node := c.next.value.id,
              level := c.level + 1)
    case UpgradeLeaf => if m.version[c.node] == c.v then c.(pc := Upsert) else Restart(m, c)
    case Upsert => c.(pc := Unlock)
    case AttachCheck =>
      if c.parent.Some? && m.version[c.parent.value] != c.parentV then Restart(m, c)
      else c.(pc := Upgrade)
    case Upgrade => if m.version[c.node] == c.v then c.(pc := NewId) else Restart(m, c)
    case NewId => c.(tid := m.cnt, pc := NewEntry)
    case NewEntry => c.(pc := Publish)
    case Publish => c.(pc := Unlock)
    case Unlock => c.(pc := Done)
    case Done => c
  }

  ghost function Step(s: Sys, i: nat): Sys
    requires i < |s.calls| && Steppable(s.mem, s.calls[i])
  {
    Sys(MemAfter(s.mem, i, s.calls[i]), s.calls[i := CallAfter(s.mem, s.calls[i])])
  }

  // ----- the invariant -----

  ghost predicate TreeOk(m: Shared)
  {
    && Shape(m.nodes, m.root, m.at) && Spells(m.nodes, m.root, m.at, m.dict)
    && (forall k :: k in m.nodes ==> k < m.nextNode) && m.version.Keys == m.nodes.Keys
    && NoLinks(m.nodes)
  }

  /** What the call saw under its key, as long as the version it read still stands. */
  ghost predicate SawOk(m: Shared, c: Call)
    requires c.node in m.nodes && c.node in m.version
  {
    m.version[c.node] == c.v ==> m.nodes[c.node].GetChild(c.Key()) == c.next
  }

  /** What the pointer it follows leads to. */
  ghost predicate NextOk(m: Shared, c: Call)
  {
    c.next.Some? &&
    match c.next.value
    case Node(id) => c.level < |c.Kw()| && c.Kw()[..c.level + 1] in m.at && id == m.at[c.Kw()[..c.level + 1]]
    case Leaf(aux) => c.level == |c.Kw()| && c.l in m.dict && aux == m.dict[c.l]
  }

  ghost predicate PlaceOk(m: Shared, c: Call)
  {
    && c.l != [] && c.level <= |c.Kw()| && c.Kw()[..c.level] in m.at && m.at[c.Kw()[..c.level]] == c.node
    && c.node in m.nodes && c.node in m.version
  }

  ghost predicate ReadOk(m: Shared, c: Call)
    requires PlaceOk(m, c)
  {
    match c.pc
    case ReadLock => true
    case ReadChild => c.v % 2 == 0 && c.v <= m.version[c.node]
    case Validate => c.v % 2 == 0 && c.v <= m.version[c.node] && SawOk(m, c)
    case AttachCheck => c.v % 2 == 0 && c.v <= m.version[c.node] && SawOk(m, c) && c.next == None
    case Upgrade => c.v % 2 == 0 && c.v <= m.version[c.node] && SawOk(m, c) && c.next == None
    case ParentCheck => c.v % 2 == 0 && c.v <= m.version[c.node] && NextOk(m, c)
    case Descend => c.v % 2 == 0 && c.v <= m.version[c.node] && NextOk(m, c)
    case UpgradeLeaf => c.v % 2 == 0 && c.v <= m.version[c.node] && NextOk(m, c) && c.next.value.Leaf?
    case Upsert => m.version[c.node] % 2 == 1 && NextOk(m, c) && c.next.value.Leaf?
    case Unlock => m.version[c.node] % 2 == 1 && c.l in m.dict
    case Done => c.l in m.dict
    case _ => m.version[c.node] % 2 == 1 && m.nodes[c.node].GetChild(c.Key()) == None
  }

  ghost predicate CallOk(m: Shared, c: Call)
  {
    && PlaceOk(m, c) && ReadOk(m, c)
    && (c.parent.Some? ==> c.parent.value in m.version && c.parentV % 2 == 0 && c.parentV <= m.version[c.parent.value])
  }

  /** A locked node has one holder, a free node none. */
  ghost predicate LocksOk(s: Sys)
  {
    && (forall i, j :: 0 <= i < j < |s.calls| && s.calls[i].Holding() && s.calls[j].Holding() ==>
          s.calls[i].node != s.calls[j].node)
    && (forall n :: n in s.mem.version && s.mem.version[n] % 2 == 1 ==>
          exists i :: 0 <= i < |s.calls| && s.calls[i].Holding() && s.calls[i].node == n)
  }

  /** Ids below the counter belong to one word of the tree or to one call about to hang its leaf in. */
  ghost predicate IdsOk(s: Sys)
  {
    && (forall k :: k in s.mem.literalMap ==> k < s.mem.cnt)
    && (forall l :: l in s.mem.dict ==> s.mem.dict[l] in s.mem.literalMap
                                        && s.mem.literalMap[s.mem.dict[l]].literalLen == |Encode(l)|)
    && (forall k, l :: k in s.mem.dict && l in s.mem.dict && s.mem.dict[k] == s.mem.dict[l] ==> k == l)
    && (forall i :: 0 <= i < |s.calls| && s.calls[i].Pending() ==>
          s.calls[i].tid < s.mem.cnt && forall l :: l in s.mem.dict ==> s.mem.dict[l] != s.calls[i].tid)
    && (forall i, j :: 0 <= i < j < |s.calls| && s.calls[i].Pending() && s.calls[j].Pending() ==>
          s.calls[i].tid != s.calls[j].tid)
    && (forall i :: 0 <= i < |s.calls| && s.calls[i].pc.Publish? ==>
          s.calls[i].tid in s.mem.literalMap
          && s.mem.literalMap[s.calls[i].tid] == LiteralEntry({s.calls[i].ix}, |s.calls[i].Kw()|))
    && (forall k: nat :: k < s.mem.cnt ==> InUse(s, k))
  }

  ghost predicate InUse(s: Sys, k: nat)
  {
    || (exists l :: l in s.mem.dict && s.mem.dict[l] == k)
    || (exists i :: 0 <= i < |s.calls| && s.calls[i].Pending() && s.calls[i].tid == k)
  }

  /** The pattern positions recorded for `l` by the calls that have had their effect. */
  ghost function Recorders(calls: seq<Call>, l: seq<Code>): set<PatternIndex>
  {
    set i | 0 <= i < |calls| && calls[i].Effective() && calls[i].l == l :: calls[i].ix
  }

  /** No insert is lost and none is made up. */
  ghost predicate BitsOk(s: Sys)
    requires forall l :: l in s.mem.dict ==> s.mem.dict[l] in s.mem.literalMap
  {
    forall l :: l in s.mem.dict ==>
                  s.mem.literalMap[s.mem.dict[l]].bitmap == Recorders(s.calls, l) && Recorders(s.calls, l) != {}
  }

  ghost predicate CallsOk(s: Sys)
  {
    forall i :: 0 <= i < |s.calls| ==> CallOk(s.mem, s.calls[i])
  }

  ghost predicate Inv(s: Sys)
  {
    TreeOk(s.mem) && CallsOk(s) && LocksOk(s) && IdsOk(s) && BitsOk(s)
  }

  // ----- what a step leaves alone -----

  ghost predicate Later(m: Shared, n: Shared)
  {
    && n.root == m.root
    && (forall p :: p in m.at ==> p in n.at && n.at[p] == m.at[p])
    && (forall l :: l in m.dict ==> l in n.dict && n.dict[l] == m.dict[l])
    && (forall k :: k in m.nodes ==> k in n.nodes)
    && (forall k :: k in m.version ==> k in n.version && m.version[k] <= n.version[k])
  }

  ghost predicate Untouched(m: Shared, n: Shared, k: nat)
  {
    && k in m.nodes && k in n.nodes && k in m.version && k in n.version
    && n.version[k] == m.version[k] && n.nodes[k].children == m.nodes[k].children
  }

  /** Children change under the lock only. */
  ghost predicate FreeStable(m: Shared, n: Shared)
  {
    forall k :: k in m.nodes && k in m.version && m.version[k] % 2 == 0 ==>
                  k in n.nodes && n.nodes[k].children == m.nodes[k].children
  }

  lemma CallKept(m: Shared, n: Shared, c: Call)
    requires CallOk(m, c) && Later(m, n) && FreeStable(m, n) && (c.Holding() ==> Untouched(m, n, c.node))
    ensures CallOk(n, c)
  {
    hide Encode;
  }

  lemma NodesGrown(nodes: map<nat, N256>, at: map<Path, nat>, kw: seq<byte>, level: nat, base: nat, tid: nat)
    requires level <= |kw| && kw[..level] in at && at[kw[..level]] in nodes && forall k :: k in nodes ==> k < base
    ensures Grown(nodes, GrowNodes(nodes, at[kw[..level]], kw, level, base, tid), at, kw, level, base, tid)
  {
    hide IsWord, ChainChild, GetNextChar;
    var more := GrowNodes(nodes, at[kw[..level]], kw, level, base, tid);
    forall k: nat | level < k <= |kw| ensures ChainNode(more, kw, k, base, tid) {
      assert base + |kw| - k in NewIds(base, |kw| - level);
    }
  }

  lemma GrownIs(m: Shared, c: Call)
    requires TreeOk(m) && CallOk(m, c) && c.pc.Publish?
    ensures Growth(m.nodes, m.root, m.at, Published(m, c).nodes, Published(m, c).at, c.l, c.level, m.nextNode,
                   c.tid).Valid()
  {
    hide IsWord, Encode, Shape, Spells, NoLinks, ChainChild, Grown, GrownPaths, GrowNodes, GrowPaths, GrowVersions;
    NodesGrown(m.nodes, m.at, c.Kw(), c.level, m.nextNode, c.tid);
    PathsGrown(m, c);
  }

  lemma PathsGrown(m: Shared, c: Call)
    requires TreeOk(m) && CallOk(m, c) && c.pc.Publish?
    ensures GrownPaths(m.at, Published(m, c).at, c.Kw(), c.level, m.nextNode)
  {
    hide IsWord, Encode, Shape, Spells, NoLinks, GrowNodes, GrowVersions;
    var kw := c.Kw();
    var more := Published(m, c).at;
    NoZero(c.l);
    forall k: nat | c.level < k <= |kw| ensures kw[..k] in more && more[kw[..k]] == m.nextNode + |kw| - k {
      assert GetNextChar(kw, c.level) == kw[c.level];
      NewAbsent(m.nodes, m.root, m.at, kw, c.level, k);
    }
  }

  // ----- what a step does, kind by kind -----

  lemma PublishLater(m: Shared, c: Call)
    requires TreeOk(m) && CallOk(m, c) && c.pc.Publish? && c.l !in m.dict
    ensures Later(m, Published(m, c)) && FreeStable(m, Published(m, c))
    ensures forall k :: k in m.nodes && k != c.node ==> Untouched(m, Published(m, c), k)
    ensures Published(m, c).version[c.node] == m.version[c.node]
  {
    hide IsWord, Encode, Shape, Spells, NoLinks, GrowNodes, GrowVersions, GrowPaths;
    PublishedNodes(m, c);
    PublishedVersions(m, c);
    PublishedPaths(m, c);
  }

  lemma PublishedNodes(m: Shared, c: Call)
    requires TreeOk(m) && CallOk(m, c) && c.pc.Publish?
    ensures forall k :: k in m.nodes ==> k in Published(m, c).nodes
    ensures forall k :: k in m.nodes && k != c.node ==> Published(m, c).nodes[k] == m.nodes[k]
  {
    hide IsWord, Encode, Shape, Spells, NoLinks, ChainChild, GetNextChar, GrowVersions, GrowPaths;
  }

  lemma PublishedVersions(m: Shared, c: Call)
    requires TreeOk(m) && CallOk(m, c) && c.pc.Publish?
    ensures m.nodes.Keys == m.version.Keys && m.version[c.node] % 2 == 1
    ensures forall k :: k in m.version ==> k in Published(m, c).version && Published(m, c).version[k] == m.version[k]
    ensures forall k :: k in Published(m, c).version && k !in m.version ==> Published(m, c).version[k] == 2
  {
    hide IsWord, Encode, Shape, Spells, NoLinks, GrowNodes, GrowPaths;
  }

  lemma PublishedPaths(m: Shared, c: Call)
    requires TreeOk(m) && CallOk(m, c) && c.pc.Publish?
    ensures forall p :: p in m.at ==> p in Published(m, c).at && Published(m, c).at[p] == m.at[p]
  {
    hide IsWord, Encode, Shape, Spells, NoLinks, GrowNodes, GrowVersions;
  }

  lemma PublishTree(m: Shared, c: Call)
    requires TreeOk(m) && CallOk(m, c) && c.pc.Publish? && c.l !in m.dict
    ensures TreeOk(Published(m, c))
  {
    hide IsWord, Encode, Shape, Spells, Growth.Valid, ChainChild, GetNextChar;
    GrownIs(m, c);
    GrownSpells(Growth(m.nodes, m.root, m.at, Published(m, c).nodes, Published(m, c).at, c.l, c.level, m.nextNode,
                       c.tid),
                m.dict);
  }

  /** A call under the lock whose key has no child may be the first to insert its literal. */
  lemma StillAbsent(m: Shared, c: Call)
    requires TreeOk(m) && CallOk(m, c) && c.pc.Publish?
    ensures c.l !in m.dict
  {
    hide IsWord, Encode, Shape, Spells, NoLinks;
    NotYetIn(m.nodes, m.root, m.at, m.dict, c.l, c.level);
  }

  lemma StepSteppable(s: Sys, i: nat)
    requires Inv(s) && i < |s.calls|
    ensures Steppable(s.mem, s.calls[i])
  {
    hide IsWord, Encode, Shape, Spells, NoLinks, Recorders;
    assert CallOk(s.mem, s.calls[i]);
  }

  lemma StepLater(s: Sys, i: nat)
    requires Inv(s) && i < |s.calls| && Steppable(s.mem, s.calls[i])
    ensures Later(s.mem, Step(s, i).mem) && FreeStable(s.mem, Step(s, i).mem)
    ensures forall k :: k in s.mem.nodes && k != s.calls[i].node ==> Untouched(s.mem, Step(s, i).mem, k)
  {
    hide IsWord, Encode, Shape, Spells, NoLinks, Recorders, Published, LocksOk, IdsOk, BitsOk, CallAfter, MemAfter,
         ReadOk;
    var c := s.calls[i];
    assert CallOk(s.mem, c);
    if c.pc.Publish? {
      StillAbsent(s.mem, c);
      PublishLater(s.mem, c);
      PublishIs(s.mem, i, c);
    } else {
      QuietStep(s.mem, i, c);
    }
  }

  lemma PublishIs(m: Shared, i: nat, c: Call)
    requires Steppable(m, c) && c.pc.Publish?
    ensures MemAfter(m, i, c) == Published(m, c)
  {
  }

  /** Any step but publishing leaves the tree alone, and moves one version at most. */
  lemma QuietStep(m: Shared, i: nat, c: Call)
    requires Steppable(m, c) && !c.pc.Publish?
    ensures var n := MemAfter(m, i, c);
            && n.root == m.root && n.at == m.at && n.dict == m.dict && n.nodes == m.nodes
            && n.version == m.version[c.node := VersionAfter(m, c)]
  {
    hide Published, Call.Kw, Encode;
    match c.pc {
      case UpgradeLeaf =>
      case Upgrade =>
      case Upsert =>
      case NewId =>
      case NewEntry =>
      case Unlock =>
      case _ =>
    }
  }

  ghost function VersionAfter(m: Shared, c: Call): (v: nat)
    requires Steppable(m, c)
    ensures v >= m.version[c.node]
  {
    if Acquires(m, c) || c.pc.Unlock? then m.version[c.node] + 1 else m.version[c.node]
  }

  lemma StepTree(s: Sys, i: nat)
    requires Inv(s) && i < |s.calls| && Steppable(s.mem, s.calls[i])
    ensures TreeOk(Step(s, i).mem)
  {
    hide IsWord, Encode, Shape, Spells, NoLinks, Recorders, Published, LocksOk, IdsOk;
    var c := s.calls[i];
    assert CallOk(s.mem, c);
    if c.pc.Publish? {
      StillAbsent(s.mem, c);
      PublishTree(s.mem, c);
    }
  }

  lemma RestartOk(m: Shared, c: Call)
    requires TreeOk(m) && c.l != []
    ensures CallOk(m, Restart(m, c))
  {
    hide IsWord, Encode, Shape, Spells, NoLinks;
    InsertStart(m.nodes, m.root, m.at, c.Kw());
  }

  /** A child that was read while the node was free is the next node of the path, or the literal's leaf. */
  lemma SeenNext(m: Shared, c: Call)
    requires TreeOk(m) && PlaceOk(m, c) && m.nodes[c.node].GetChild(c.Key()) == c.next && c.next != None
    ensures NextOk(m, c)
  {
    hide IsWord, Encode, Shape, Spells, NoLinks, GetNextChar;
    InsertDown(m.nodes, m.root, m.at, m.dict, c.l, c.level);
  }

  lemma DescendOk(m: Shared, c: Call)
    requires TreeOk(m) && CallOk(m, c) && c.pc.Descend? && c.next.value.Node?
    ensures Steppable(m, c) && CallOk(m, CallAfter(m, c))
  {
    hide IsWord, Encode, Shape, Spells, NoLinks;
    NodeAt(m.nodes, m.root, m.at, c.Kw()[..c.level + 1]);
  }

  lemma ReadStepOk(m: Shared, c: Call)
    requires TreeOk(m) && CallOk(m, c) && Steppable(m, c)
    requires c.pc.ReadLock? || c.pc.ReadChild? || c.pc.Validate? || c.pc.ParentCheck? || c.pc.Descend?
             || c.pc.AttachCheck?
             || c.pc.Done?
    ensures CallOk(m, CallAfter(m, c))
  {
    hide IsWord, Encode, Shape, Spells, NoLinks, GetNextChar;
    RestartOk(m, c);
    if c.pc.Validate? && m.version[c.node] == c.v && c.next != None { SeenNext(m, c); }
    if c.pc.Descend? && c.next.value.Node? { DescendOk(m, c); }
  }

  lemma WriteStepOk(m: Shared, i: nat, c: Call)
    requires TreeOk(m) && CallOk(m, c) && Steppable(m, c)
    requires c.pc.UpgradeLeaf? || c.pc.Upgrade? || c.pc.Upsert? || c.pc.NewId? || c.pc.NewEntry? || c.pc.Unlock?
    ensures CallOk(MemAfter(m, i, c), CallAfter(m, c))
  {
    hide IsWord, Encode, Shape, Spells, NoLinks, GetNextChar;
    RestartOk(m, c);
  }

  lemma PublishOk(m: Shared, c: Call)
    requires TreeOk(m) && CallOk(m, c) && c.pc.Publish? && c.l !in m.dict
    ensures CallOk(Published(m, c), c.(pc := Unlock))
  {
    hide IsWord, Encode, Shape, Spells, NoLinks, GetNextChar, FreeStable, Untouched, GrowNodes, GrowPaths, GrowVersions;
    PublishLater(m, c);
  }

  lemma StepSelf(s: Sys, i: nat)
    requires Inv(s) && i < |s.calls| && Steppable(s.mem, s.calls[i])
    ensures CallOk(Step(s, i).mem, Step(s, i).calls[i])
  {
    hide IsWord, Encode, Shape, Spells, NoLinks, Recorders, Published, LocksOk, IdsOk, CallOk, TreeOk;
    var m, c := s.mem, s.calls[i];
    assert CallOk(m, c);
    match c.pc
    case Publish =>
      StillAbsent(m, c);
      PublishOk(m, c);
    case UpgradeLeaf => WriteStepOk(m, i, c);
    case Upgrade => WriteStepOk(m, i, c);
    case Upsert => WriteStepOk(m, i, c);
    case NewId => WriteStepOk(m, i, c);
    case NewEntry => WriteStepOk(m, i, c);
    case Unlock => WriteStepOk(m, i, c);
    case _ => ReadStepOk(m, c);
  }

  lemma StepCalls(s: Sys, i: nat)
    requires Inv(s) && i < |s.calls| && Steppable(s.mem, s.calls[i])
    ensures CallsOk(Step(s, i))
  {
    hide TreeOk, CallOk, IdsOk, BitsOk, Recorders, MemAfter, CallAfter, Later, FreeStable;
    StepSelf(s, i);
    StepLater(s, i);
    forall j | 0 <= j < |s.calls| && j != i ensures CallOk(Step(s, i).mem, s.calls[j]) {
      assert CallOk(s.mem, s.calls[j]) && CallOk(s.mem, s.calls[i]);
      if s.calls[j].Holding() { HeldApart(s, i, j); }
      CallKept(s.mem, Step(s, i).mem, s.calls[j]);
    }
  }

  /** A step of one call leaves the node another one holds untouched. */
  lemma HeldApart(s: Sys, i: nat, j: nat)
    requires Inv(s) && i < |s.calls| && j < |s.calls| && i != j && Steppable(s.mem, s.calls[i]) && s.calls[j].Holding()
    ensures Untouched(s.mem, Step(s, i).mem, s.calls[j].node)
  {
    hide IsWord, Encode, TreeOk, IdsOk, BitsOk, Recorders, Later, FreeStable, Published;
    StepLater(s, i);
    assert CallOk(s.mem, s.calls[j]) && CallOk(s.mem, s.calls[i]);
    var c := s.calls[i];
    if s.calls[j].node == c.node {
      assert !c.Holding();
      assert s.mem.version[c.node] % 2 == 1;
    }
  }

  // ----- locks -----

  ghost predicate Acquires(m: Shared, c: Call)
    requires c.node in m.version
  {
    (c.pc.Upgrade? || c.pc.UpgradeLeaf?) && m.version[c.node] == c.v
  }

  lemma StepVersions(m: Shared, i: nat, c: Call)
    requires TreeOk(m) && CallOk(m, c) && Steppable(m, c)
    ensures var n := MemAfter(m, i, c);
            && (forall k :: k in m.version && k != c.node ==> k in n.version && n.version[k] == m.version[k])
            && (forall k :: k in n.version && k !in m.version ==> n.version[k] == 2)
            && c.node in n.version
            && (if Acquires(m, c) then m.version[c.node] % 2 == 0 && n.version[c.node] % 2 == 1
                else if c.pc.Unlock? then n.version[c.node] % 2 == 0
                else n.version[c.node] == m.version[c.node])
  {
    hide IsWord, Encode, TreeOk, PlaceOk, GetNextChar, NextOk, SawOk, Published, MemAfter, Call.Kw;
    if c.pc.Publish? {
      PublishedVersions(m, c);
      PublishIs(m, i, c);
    } else {
      QuietStep(m, i, c);
    }
  }

  lemma StepHolding(m: Shared, c: Call)
    requires Steppable(m, c)
    ensures var d := CallAfter(m, c);
            if Acquires(m, c) then !c.Holding() && d.Holding() && d.node == c.node
            else if c.pc.Unlock? then !d.Holding()
            else d.Holding() == c.Holding() && (c.Holding() ==> d.node == c.node)
  {
    hide Encode, GetNextChar, Call.Kw;
  }

  lemma StepLocks(s: Sys, i: nat)
    requires Inv(s) && i < |s.calls| && Steppable(s.mem, s.calls[i])
    ensures LocksOk(Step(s, i))
  {
    hide TreeOk, PlaceOk, ReadOk, IdsOk, BitsOk, Recorders, MemAfter, CallAfter, Call.Holding;
    var m, c, n, t := s.mem, s.calls[i], Step(s, i).mem, Step(s, i);
    assert CallOk(m, c);
    StepVersions(m, i, c);
    StepHolding(m, c);
    forall j | 0 <= j < |s.calls| && j != i && s.calls[j].Holding() && t.calls[i].Holding()
      ensures s.calls[j].node != t.calls[i].node
    {
      assert CallOk(m, s.calls[j]);
      HolderOdd(m, s.calls[j]);
    }
    assert forall j :: 0 <= j < |s.calls| && j != i ==> t.calls[j] == s.calls[j];
    forall k | k in n.version && n.version[k] % 2 == 1
      ensures exists j :: 0 <= j < |t.calls| && t.calls[j].Holding() && t.calls[j].node == k
    {
      if k == c.node && Acquires(m, c) {
        assert t.calls[i].Holding() && t.calls[i].node == k;
      } else {
        var j :| 0 <= j < |s.calls| && s.calls[j].Holding() && s.calls[j].node == k;
        assert j == i ==> t.calls[i].Holding() && t.calls[i].node == k;
        assert t.calls[j].Holding() && t.calls[j].node == k;
      }
    }
  }

  lemma HolderOdd(m: Shared, c: Call)
    requires CallOk(m, c) && c.Holding()
    ensures c.node in m.version && m.version[c.node] % 2 == 1
  {
    hide Encode;
  }

  // ----- ids and bitmaps -----

  /** Neither ids nor bitmaps nor words change, and the call is as pending as before. */
  lemma IdsSame(s: Sys, t: Sys, i: nat)
    requires IdsOk(s) && BitsOk(s) && i < |s.calls| == |t.calls| && t.calls == s.calls[i := t.calls[i]]
    requires t.mem.literalMap == s.mem.literalMap && t.mem.cnt == s.mem.cnt && t.mem.dict == s.mem.dict
    requires var c, d := s.calls[i], t.calls[i];
             !c.Pending() && !d.Pending() && d.l == c.l && d.ix == c.ix && d.Effective() == c.Effective()
    ensures IdsOk(t) && BitsOk(t)
  {
    hide Encode;
    forall k: nat | k < t.mem.cnt ensures InUse(t, k) { InUseSame(s, t, i, k); }
    forall l ensures Recorders(t.calls, l) == Recorders(s.calls, l) { RecordersSame(s.calls, t.calls, i, l); }
  }

  lemma InUseSame(s: Sys, t: Sys, i: nat, k: nat)
    requires InUse(s, k) && i < |s.calls| == |t.calls| && t.calls == s.calls[i := t.calls[i]]
    requires forall l :: l in s.mem.dict ==> l in t.mem.dict && t.mem.dict[l] == s.mem.dict[l]
    requires s.calls[i].Pending() && s.calls[i].tid == k ==> InUse(t, k)
    ensures InUse(t, k)
  {
    if l :| l in s.mem.dict && s.mem.dict[l] == k {
      assert l in t.mem.dict && t.mem.dict[l] == k;
    } else {
      var j :| 0 <= j < |s.calls| && s.calls[j].Pending() && s.calls[j].tid == k;
      if j != i { assert t.calls[j].Pending() && t.calls[j].tid == k; }
    }
  }

  lemma RecordersSame(a: seq<Call>, b: seq<Call>, i: nat, l: seq<Code>)
    requires i < |a| == |b| && b == a[i := b[i]] && b[i].l == a[i].l && b[i].ix == a[i].ix
    requires b[i].Effective() == a[i].Effective()
    ensures Recorders(b, l) == Recorders(a, l)
  {
    assert forall j :: 0 <= j < |a| && j != i ==> b[j] == a[j];
    forall x ensures x in Recorders(b, l) <==> x in Recorders(a, l) {
      if x in Recorders(a, l) {
        var j :| 0 <= j < |a| && a[j].Effective() && a[j].l == l && a[j].ix == x;
        assert b[j].Effective() && b[j].l == l && b[j].ix == x;
      }
      if x in Recorders(b, l) {
        var j :| 0 <= j < |b| && b[j].Effective() && b[j].l == l && b[j].ix == x;
        assert a[j].Effective() && a[j].l == l && a[j].ix == x;
      }
    }
  }

  /** A call has its effect: its position is added to its word. */
  lemma RecordersMore(a: seq<Call>, b: seq<Call>, i: nat, l: seq<Code>)
    requires i < |a| == |b| && b == a[i := b[i]] && b[i].l == a[i].l && b[i].ix == a[i].ix
    requires b[i].Effective() && !a[i].Effective()
    ensures Recorders(b, l) == if l == a[i].l then Recorders(a, l) + {a[i].ix} else Recorders(a, l)
  {
    assert forall j :: 0 <= j < |a| && j != i ==> b[j] == a[j];
    forall x ensures x in Recorders(b, l) <==> x in Recorders(a, l) || (l == a[i].l && x == a[i].ix) {
      if x in Recorders(a, l) {
        var j :| 0 <= j < |a| && a[j].Effective() && a[j].l == l && a[j].ix == x;
        assert b[j].Effective() && b[j].l == l && b[j].ix == x;
      }
      if l == a[i].l && x == a[i].ix { assert b[i].Effective() && b[i].l == l && b[i].ix == x; }
      if x in Recorders(b, l) {
        var j :| 0 <= j < |b| && b[j].Effective() && b[j].l == l && b[j].ix == x;
        assert j != i ==> a[j].Effective() && a[j].l == l && a[j].ix == x;
      }
    }
  }

  lemma IdsNewId(s: Sys, i: nat)
    requires IdsOk(s) && BitsOk(s) && i < |s.calls| && s.calls[i].pc.NewId?
    ensures var t := Sys(s.mem.(cnt := s.mem.cnt + 1), s.calls[i := s.calls[i].(tid := s.mem.cnt, pc := NewEntry)]);
            IdsOk(t) && BitsOk(t)
  {
    hide Encode;
    var t := Sys(s.mem.(cnt := s.mem.cnt + 1), s.calls[i := s.calls[i].(tid := s.mem.cnt, pc := NewEntry)]);
    assert t.calls[i].Pending() && t.calls[i].tid == s.mem.cnt;
    forall k: nat | k < t.mem.cnt ensures InUse(t, k) {
      if k < s.mem.cnt { InUseSame(s, t, i, k); }
    }
    forall l ensures Recorders(t.calls, l) == Recorders(s.calls, l) { RecordersSame(s.calls, t.calls, i, l); }
  }

  lemma IdsNewEntry(s: Sys, i: nat)
    requires IdsOk(s) && BitsOk(s) && i < |s.calls| && s.calls[i].pc.NewEntry?
    ensures var c := s.calls[i];
            var t := Sys(s.mem.(literalMap := s.mem.literalMap[c.tid := LiteralEntry({c.ix}, |c.Kw()|)]),
                         s.calls[i := c.(pc := Publish)]);
            IdsOk(t) && BitsOk(t)
  {
    hide Encode, Recorders;
    var c := s.calls[i];
    var t := Sys(s.mem.(literalMap := s.mem.literalMap[c.tid := LiteralEntry({c.ix}, |c.Kw()|)]),
                 s.calls[i := c.(pc := Publish)]);
    assert t.calls[i].Pending() && t.calls[i].tid == c.tid;
    forall k: nat | k < t.mem.cnt ensures InUse(t, k) { InUseSame(s, t, i, k); }
    forall l ensures Recorders(t.calls, l) == Recorders(s.calls, l) { RecordersSame(s.calls, t.calls, i, l); }
  }

  lemma NoneRecorded(s: Sys, l: seq<Code>)
    requires CallsOk(s) && l !in s.mem.dict
    ensures Recorders(s.calls, l) == {}
  {
    hide Encode, PlaceOk;
    forall i | 0 <= i < |s.calls| && s.calls[i].Effective() ensures s.calls[i].l in s.mem.dict {
      assert CallOk(s.mem, s.calls[i]);
    }
  }

  lemma IdsPublish(s: Sys, t: Sys, i: nat)
    requires IdsOk(s) && BitsOk(s) && CallsOk(s)
    requires i < |s.calls| && s.calls[i].pc.Publish? && s.calls[i].l !in s.mem.dict
    requires t.calls == s.calls[i := s.calls[i].(pc := Unlock)]
    requires t.mem.literalMap == s.mem.literalMap && t.mem.cnt == s.mem.cnt
    requires t.mem.dict == s.mem.dict[s.calls[i].l := s.calls[i].tid]
    ensures IdsOk(t) && BitsOk(t)
  {
    hide Encode, CallsOk, Recorders;
    var c := s.calls[i];
    assert c.l in t.mem.dict && t.mem.dict[c.l] == c.tid;
    forall k: nat | k < t.mem.cnt ensures InUse(t, k) {
      if k == c.tid { assert InUse(t, k); } else { InUseSame(s, t, i, k); }
    }
    NoneRecorded(s, c.l);
    forall l | l in t.mem.dict ensures t.mem.literalMap[t.mem.dict[l]].bitmap == Recorders(t.calls, l) {
      RecordersMore(s.calls, t.calls, i, l);
    }
  }

  lemma IdsUpsert(s: Sys, t: Sys, i: nat)
    requires IdsOk(s) && BitsOk(s) && i < |s.calls| && s.calls[i].pc.Upsert? && s.calls[i].l in s.mem.dict
    requires t.calls == s.calls[i := s.calls[i].(pc := Unlock)] && t.mem.cnt == s.mem.cnt && t.mem.dict == s.mem.dict
    requires var aux := s.mem.dict[s.calls[i].l];
             t.mem.literalMap ==
             s.mem.literalMap[aux := s.mem.literalMap[aux].(bitmap := s.mem.literalMap[aux].bitmap + {s.calls[i].ix})]
    ensures IdsOk(t) && BitsOk(t)
  {
    hide Encode, Recorders;
    forall k: nat | k < t.mem.cnt ensures InUse(t, k) { InUseSame(s, t, i, k); }
    forall l | l in t.mem.dict ensures t.mem.literalMap[t.mem.dict[l]].bitmap == Recorders(t.calls, l) {
      RecordersMore(s.calls, t.calls, i, l);
    }
  }

  lemma StepIds(s: Sys, i: nat)
    requires Inv(s) && i < |s.calls| && Steppable(s.mem, s.calls[i])
    ensures IdsOk(Step(s, i)) && BitsOk(Step(s, i))
  {
    hide Encode, TreeOk, PlaceOk, IdsOk, BitsOk, Recorders, LocksOk, CallsOk, GrowNodes, GrowPaths, GrowVersions,
         CallOk;
    var c := s.calls[i];
    assert CallOk(s.mem, c) by { CallAt(s, i); }
    match c.pc
    case NewId => IdsNewId(s, i);
    case NewEntry => IdsNewEntry(s, i);
    case Publish =>
      StillAbsent(s.mem, c);
      IdsPublish(s, Step(s, i), i);
    case Upsert =>
      UpsertKey(s.mem, c);
      IdsUpsert(s, Step(s, i), i);
    case _ => IdsSame(s, Step(s, i), i);
  }

  lemma CallAt(s: Sys, i: nat)
    requires CallsOk(s) && i < |s.calls|
    ensures CallOk(s.mem, s.calls[i])
  {
  }

  lemma UpsertKey(m: Shared, c: Call)
    requires CallOk(m, c) && c.pc.Upsert?
    ensures c.l in m.dict && c.next.Some? && c.next.value.Leaf? && c.next.value.auxIndex == m.dict[c.l]
  {
    hide Encode, PlaceOk;
  }

  // ----- every reachable state -----

  lemma StepInv(s: Sys, i: nat)
    requires Inv(s) && i < |s.calls|
    ensures Steppable(s.mem, s.calls[i]) && Inv(Step(s, i))
  {
    hide TreeOk, CallsOk, LocksOk, IdsOk, BitsOk, Steppable, MemAfter, CallAfter;
    StepSteppable(s, i);
    StepTree(s, i);
    StepCalls(s, i);
    StepLocks(s, i);
    StepIds(s, i);
  }

  /** An empty tree, and calls that have not begun. */
  ghost predicate Initial(s: Sys)
  {
    && s.mem == Shared(map[0 := N256(true, map[], None, None)], 0, 1, map[0 := 2], map[], 0, map[[] := 0], map[], [])
    && forall i :: 0 <= i < |s.calls| ==>
                     var c := s.calls[i];
                     c.l != [] && c.pc.ReadLock? && c.node == 0 && c.parent == None && c.level == 0
  }

  lemma InitialInv(s: Sys)
    requires Initial(s)
    ensures Inv(s)
  {
    hide Encode, IsWord, Shape, Spells, TreeOk, CallOk, BitsOk, InUse;
    InitialTree(s.mem);
    forall i | 0 <= i < |s.calls| ensures CallOk(s.mem, s.calls[i]) {
      InitialCall(s, i);
    }
    assert IdsOk(s);
    InitialBits(s);
  }

  lemma InitialTree(m: Shared)
    requires m == Shared(map[0 := N256(true, map[], None, None)], 0, 1, map[0 := 2], map[], 0, map[[] := 0], map[], [])
    ensures TreeOk(m)
  {
    hide IsWord, Encode, Shape, Spells;
    EmptyTrie(m.nodes);
  }

  lemma InitialCall(s: Sys, i: nat)
    requires Initial(s) && i < |s.calls|
    ensures CallOk(s.mem, s.calls[i]) && !s.calls[i].Holding()
  {
    hide Encode;
    assert s.calls[i].Kw()[..0] == [];
  }

  lemma InitialBits(s: Sys)
    requires Initial(s)
    ensures BitsOk(s)
  {
    hide Encode;
  }

  /** `t` is reached from `s` in `n` steps of any of the calls, in any order. */
  ghost predicate ReachedIn(s: Sys, t: Sys, n: nat)
    decreases n
  {
    if n == 0 then s == t
    else
      var k := n - 1;
      exists u: Sys, i: nat :: ReachedIn(s, u, k) && i < |u.calls| && Steppable(u.mem, u.calls[i]) && t == Step(u, i)
  }

  lemma {:induction false} InvAlways(s: Sys, t: Sys, n: nat)
    requires Initial(s) && ReachedIn(s, t, n)
    ensures Inv(t)
    decreases n
  {
    hide Inv, Steppable, Step, Initial;
    if n == 0 {
      InitialInv(s);
    } else {
      var u: Sys, i: nat :| ReachedIn(s, u, n - 1) && i < |u.calls| && Steppable(u.mem, u.calls[i]) && t == Step(u, i);
      InvAlways(s, u, n - 1);
      StepInv(u, i);
    }
  }

  // ----- every call takes effect at one step, as the sequential insert does -----

  /** What the tree says: the words, and the pattern positions recorded for each. */
  ghost function Words(s: Sys): map<seq<Code>, set<PatternIndex>>
    requires IdsOk(s)
  {
    map l | l in s.mem.dict :: s.mem.literalMap[s.mem.dict[l]].bitmap
  }

  ghost predicate TakesEffect(m: Shared, c: Call)
    requires Steppable(m, c)
  {
    !c.Effective() && CallAfter(m, c).Effective()
  }

  lemma StepRefines(s: Sys, i: nat)
    requires Inv(s) && i < |s.calls|
    ensures Steppable(s.mem, s.calls[i]) && Inv(Step(s, i))
    ensures var c := s.calls[i];
            && Words(Step(s, i)) == (if TakesEffect(s.mem, c) then Recorded(Words(s), c.l, c.ix) else Words(s))
            && (c.Effective() ==> CallAfter(s.mem, c).Effective())
            && CallAfter(s.mem, c).l == c.l && CallAfter(s.mem, c).ix == c.ix
  {
    hide TreeOk, CallsOk, LocksOk, BitsOk, IdsOk, GrowNodes, GrowPaths, GrowVersions, Encode, GetNextChar, Words,
         Steppable, CallOk;
    StepInv(s, i);
    var c := s.calls[i];
    CallAt(s, i);
    match c.pc
    case Publish =>
      StillAbsent(s.mem, c);
      WordsPublish(s, Step(s, i), i);
    case Upsert =>
      UpsertKey(s.mem, c);
      KeyMapped(s, c.l);
      WordsUpsert(s, Step(s, i), i);
    case NewEntry =>
      WordsEntry(s, Step(s, i), i);
    case _ =>
      WordsKeep(s, Step(s, i));
  }

  lemma WordsKeep(s: Sys, t: Sys)
    requires IdsOk(s) && IdsOk(t) && t.mem.dict == s.mem.dict && t.mem.literalMap == s.mem.literalMap
    ensures Words(t) == Words(s)
  {
    hide IdsOk;
  }

  lemma WordsEntry(s: Sys, t: Sys, i: nat)
    requires IdsOk(s) && IdsOk(t) && i < |s.calls| && s.calls[i].pc.NewEntry? && t.mem.dict == s.mem.dict
    requires t.mem.literalMap == s.mem.literalMap[s.calls[i].tid := LiteralEntry({s.calls[i].ix}, |s.calls[i].Kw()|)]
    ensures Words(t) == Words(s)
  {
    hide Encode, InUse;
    assert s.calls[i].Pending();
  }

  lemma WordsPublish(s: Sys, t: Sys, i: nat)
    requires IdsOk(s) && IdsOk(t) && i < |s.calls| && s.calls[i].pc.Publish? && s.calls[i].l !in s.mem.dict
    requires t.mem.dict == s.mem.dict[s.calls[i].l := s.calls[i].tid] && t.mem.literalMap == s.mem.literalMap
    ensures Words(t) == Recorded(Words(s), s.calls[i].l, s.calls[i].ix)
  {
    hide Encode, InUse;
    var c := s.calls[i];
    assert s.mem.literalMap[c.tid].bitmap == {c.ix};
    assert {} + {c.ix} == {c.ix};
    assert Words(t).Keys == Recorded(Words(s), c.l, c.ix).Keys;
  }

  lemma KeyMapped(s: Sys, l: seq<Code>)
    requires IdsOk(s) && l in s.mem.dict
    ensures s.mem.dict[l] in s.mem.literalMap
  {
    hide Encode, InUse;
  }

  lemma WordsUpsert(s: Sys, t: Sys, i: nat)
    requires IdsOk(s) && IdsOk(t) && i < |s.calls| && s.calls[i].l in s.mem.dict && t.mem.dict == s.mem.dict
    requires var aux := s.mem.dict[s.calls[i].l];
             aux in s.mem.literalMap &&
             t.mem.literalMap ==
             s.mem.literalMap[aux := s.mem.literalMap[aux].(bitmap := s.mem.literalMap[aux].bitmap + {s.calls[i].ix})]
    ensures Words(t) == Recorded(Words(s), s.calls[i].l, s.calls[i].ix)
  {
    hide Encode, InUse;
  }

  ghost predicate AllDone(s: Sys)
  {
    forall i :: 0 <= i < |s.calls| ==> s.calls[i].pc.Done?
  }

  ghost function Literals(calls: seq<Call>): set<seq<Code>>
  {
    set i | 0 <= i < |calls| :: calls[i].l
  }

  ghost function PositionsOf(calls: seq<Call>, l: seq<Code>): set<PatternIndex>
  {
    set i | 0 <= i < |calls| && calls[i].l == l :: calls[i].ix
  }

  /** When all calls have returned: one tree that spells exactly their literals, one leaf and one id each, ids
      without gaps, and for every literal the positions of all calls that inserted it. Nothing is locked, and the
      links can be built. */
  lemma AllReturned(s: Sys)
    requires Inv(s) && AllDone(s)
    ensures Shape(s.mem.nodes, s.mem.root, s.mem.at) && Spells(s.mem.nodes, s.mem.root, s.mem.at, s.mem.dict)
    ensures Registered(s.mem.literalMap, s.mem.cnt, s.mem.dict) && NoLinks(s.mem.nodes)
    ensures s.mem.dict.Keys == Literals(s.calls)
    ensures forall l :: l in s.mem.dict ==>
              Occurrences(s.mem.literalMap, s.mem.cnt, s.mem.dict)[l] ==
              PositionsOf(s.calls, l)
    ensures forall n :: n in s.mem.version ==> s.mem.version[n] % 2 == 0
  {
    hide TreeOk, CallsOk, LocksOk, IdsOk, BitsOk, AllDone, Encode, Shape, Spells, Registered, NoLinks, PositionsOf,
         Literals;
    TreeOf(s.mem);
    AllRegistered(s);
    AllWords(s);
    AllUnlocked(s);
    forall l | l in s.mem.dict
      ensures Occurrences(s.mem.literalMap, s.mem.cnt, s.mem.dict)[l] == PositionsOf(s.calls, l)
    {
      AllRecorded(s, l);
    }
  }

  lemma AllWords(s: Sys)
    requires CallsOk(s) && IdsOk(s) && BitsOk(s) && AllDone(s)
    ensures s.mem.dict.Keys == Literals(s.calls)
  {
    hide IdsOk, BitsOk, CallsOk, Encode;
    forall i | 0 <= i < |s.calls| ensures s.calls[i].l in s.mem.dict { DoneInDict(s, i); }
    forall l | l in s.mem.dict ensures exists i :: 0 <= i < |s.calls| && s.calls[i].l == l { SomeRecorder(s, l); }
  }

  lemma DoneInDict(s: Sys, i: nat)
    requires CallsOk(s) && i < |s.calls| && s.calls[i].pc.Done?
    ensures s.calls[i].l in s.mem.dict
  {
    hide Encode, PlaceOk;
    assert CallOk(s.mem, s.calls[i]);
  }

  lemma AllUnlocked(s: Sys)
    requires LocksOk(s) && AllDone(s)
    ensures forall n :: n in s.mem.version ==> s.mem.version[n] % 2 == 0
  {
  }

  lemma AllRecorded(s: Sys, l: seq<Code>)
    requires IdsOk(s) && BitsOk(s) && AllDone(s) && l in s.mem.dict
    ensures s.mem.dict[l] in s.mem.literalMap
    ensures s.mem.literalMap[s.mem.dict[l]].bitmap == PositionsOf(s.calls, l)
  {
    hide Encode, InUse;
  }

  lemma TreeOf(m: Shared)
    requires TreeOk(m)
    ensures Shape(m.nodes, m.root, m.at) && Spells(m.nodes, m.root, m.at, m.dict) && NoLinks(m.nodes)
  {
  }

  lemma AllRegistered(s: Sys)
    requires IdsOk(s) && AllDone(s)
    ensures Registered(s.mem.literalMap, s.mem.cnt, s.mem.dict)
  {
    hide Encode;
    assert forall k: nat :: k < s.mem.cnt ==> InUse(s, k);
    forall k: nat ensures k in s.mem.literalMap <==> k < s.mem.cnt { assert k < s.mem.cnt ==> InUse(s, k); }
    forall k | k in s.mem.literalMap ensures exists l :: l in s.mem.dict && s.mem.dict[l] == k { assert InUse(s, k); }
  }

  lemma SomeRecorder(s: Sys, l: seq<Code>)
    requires IdsOk(s) && BitsOk(s) && l in s.mem.dict
    ensures exists i :: 0 <= i < |s.calls| && s.calls[i].l == l
  {
    hide Encode, IdsOk;
    var x :| x in Recorders(s.calls, l);
  }

  // ----- who makes a call start again -----

  /** After the first `mark` locks, a call other than `i` has locked `n`. */
  ghost predicate TakenSince(locks: seq<(nat, nat)>, n: nat, mark: nat, i: nat)
  {
    exists k :: mark <= k < |locks| && locks[k].0 != i && locks[k].1 == n
  }

  /** The call has read the version of its node and not locked it yet. */
  ghost predicate Reading(c: Call)
  {
    !c.Holding() && !c.pc.Done? && !c.pc.ReadLock?
  }

  ghost predicate BlameCall(m: Shared, i: nat, c: Call)
  {
    && (Reading(c) ==> c.mark <= |m.locks| && c.node in m.version
                       && (m.version[c.node] != c.v ==> TakenSince(m.locks, c.node, c.mark, i)))
    && (!c.Holding() && !c.pc.Done? && c.parent.Some? ==>
          c.parentMark <= |m.locks| && c.parent.value in m.version
          && (m.version[c.parent.value] != c.parentV ==> TakenSince(m.locks, c.parent.value, c.parentMark, i)))
  }

  ghost predicate Blame(s: Sys)
  {
    forall i :: 0 <= i < |s.calls| ==> BlameCall(s.mem, i, s.calls[i])
  }

  lemma TakenMore(a: seq<(nat, nat)>, x: (nat, nat), n: nat, mark: nat, i: nat)
    requires TakenSince(a, n, mark, i) || (mark <= |a| && x.0 != i && x.1 == n)
    ensures TakenSince(a + [x], n, mark, i)
  {
    var b := a + [x];
    if TakenSince(a, n, mark, i) {
      var k :| mark <= k < |a| && a[k].0 != i && a[k].1 == n;
      assert b[k].0 != i && b[k].1 == n;
    } else {
      assert b[|a|].0 != i && b[|a|].1 == n;
    }
  }

  /** A version changes under a lock: what differs now from an even version differed before, or has just been locked. */
  lemma VersionBlame(m: Shared, j: nat, c: Call, n: nat, v: nat, mark: nat, i: nat)
    requires TreeOk(m) && CallOk(m, c) && Steppable(m, c) && i != j && n in m.version && v % 2 == 0 && mark <= |m.locks|
    requires m.version[n] != v ==> TakenSince(m.locks, n, mark, i)
    ensures var t := MemAfter(m, j, c);
            && n in t.version && mark <= |t.locks|
            && (t.version[n] != v ==> TakenSince(t.locks, n, mark, i))
  {
    hide IsWord, Encode, Shape, Spells, NoLinks, GetNextChar, NextOk, SawOk, GrowNodes, GrowPaths, TakenSince;
    if Acquires(m, c) {
      if n == c.node || TakenSince(m.locks, n, mark, i) { TakenMore(m.locks, (j, c.node), n, mark, i); }
    }
  }

  lemma BlameOther(m: Shared, j: nat, c: Call, i: nat, d: Call)
    requires TreeOk(m) && CallOk(m, c) && Steppable(m, c) && i != j && CallOk(m, d) && BlameCall(m, i, d)
    ensures BlameCall(MemAfter(m, j, c), i, d)
  {
    hide IsWord, Encode, Shape, Spells, NoLinks, GetNextChar, NextOk, SawOk, TakenSince, MemAfter, TreeOk, PlaceOk;
    if Reading(d) { VersionBlame(m, j, c, d.node, d.v, d.mark, i); }
    if !d.Holding() && !d.pc.Done? && d.parent.Some? {
      VersionBlame(m, j, c, d.parent.value, d.parentV, d.parentMark, i);
    }
  }

  lemma BlameSelf(m: Shared, i: nat, c: Call)
    requires TreeOk(m) && CallOk(m, c) && Steppable(m, c) && BlameCall(m, i, c)
    ensures BlameCall(MemAfter(m, i, c), i, CallAfter(m, c))
  {
    hide IsWord, Encode, Shape, Spells, NoLinks, GetNextChar, NextOk, SawOk, TakenSince, GrowNodes, GrowPaths,
         GrowVersions;
  }

  lemma BlameStep(s: Sys, i: nat)
    requires Inv(s) && Blame(s) && i < |s.calls|
    ensures Steppable(s.mem, s.calls[i]) && Blame(Step(s, i))
  {
    hide TreeOk, CallOk, BlameCall, MemAfter, CallAfter, IdsOk, BitsOk, LocksOk, Steppable;
    StepSteppable(s, i);
    forall j | 0 <= j < |s.calls| ensures BlameCall(Step(s, i).mem, j, Step(s, i).calls[j]) {
      assert CallOk(s.mem, s.calls[i]) && CallOk(s.mem, s.calls[j]);
      if j == i { BlameSelf(s.mem, i, s.calls[i]); } else { BlameOther(s.mem, i, s.calls[i], j, s.calls[j]); }
    }
  }

  lemma {:induction false} BlameAlways(s: Sys, t: Sys, n: nat)
    requires Initial(s) && ReachedIn(s, t, n)
    ensures Inv(t) && Blame(t)
    decreases n
  {
    hide Inv, Blame, Steppable, Step, Initial;
    if n == 0 {
      InitialInv(s);
      assert Blame(s) by { BlameInitial(s); }
    } else {
      var u: Sys, i: nat :| ReachedIn(s, u, n - 1) && i < |u.calls| && Steppable(u.mem, u.calls[i]) && t == Step(u, i);
      BlameAlways(s, u, n - 1);
      StepInv(u, i);
      BlameStep(u, i);
    }
  }

  lemma BlameInitial(s: Sys)
    requires Initial(s)
    ensures Blame(s)
  {
  }

  /** The step sends the call back to the root. */
  ghost predicate Restarts(m: Shared, c: Call)
    requires Steppable(m, c)
  {
    !c.pc.Descend? && CallAfter(m, c).pc.ReadLock?
  }

  /** A call starts again only because of another call: one that holds the node it has come to, or one that has
      locked the node, or the node above it, since it read that node's version. A call under a lock never does. */
  lemma RestartBlame(s: Sys, i: nat)
    requires Inv(s) && Blame(s) && i < |s.calls| && Steppable(s.mem, s.calls[i]) && Restarts(s.mem, s.calls[i])
    ensures !s.calls[i].Holding() && CallAfter(s.mem, s.calls[i]) == Restart(s.mem, s.calls[i])
    ensures var m, c := s.mem, s.calls[i];
            || (c.pc.ReadLock? &&
                exists j :: 0 <= j < |s.calls| && j != i && s.calls[j].Holding() && s.calls[j].node == c.node)
            || (Reading(c) && TakenSince(m.locks, c.node, c.mark, i))
            || (c.parent.Some? && TakenSince(m.locks, c.parent.value, c.parentMark, i))
  {
    hide TreeOk, IdsOk, BitsOk, PlaceOk, TakenSince, Encode;
    assert CallOk(s.mem, s.calls[i]) && BlameCall(s.mem, i, s.calls[i]);
  }

  // ----- no deadlock -----

  /** The state after the calls of `sched` have made one step each, in this order. */
  ghost function Runs(s: Sys, sched: seq<nat>): (t: Sys)
    requires Inv(s) && forall k :: 0 <= k < |sched| ==> sched[k] < |s.calls|
    ensures Inv(t) && |t.calls| == |s.calls|
    decreases |sched|
  {
    if sched == [] then s
    else
      StepInv(s, sched[0]);
      Runs(Step(s, sched[0]), sched[1..])
  }

  ghost predicate Within(sched: seq<nat>, n: nat)
  {
    forall k :: 0 <= k < |sched| ==> sched[k] < n
  }

  lemma {:induction false} RunsConcat(s: Sys, a: seq<nat>, b: seq<nat>)
    requires Inv(s) && Within(a, |s.calls|) && Within(b, |s.calls|)
    ensures Within(a + b, |s.calls|) && Runs(s, a + b) == Runs(Runs(s, a), b)
    decreases |a|
  {
    hide Inv, Step;
    if a == [] {
      assert a + b == b;
    } else {
      StepInv(s, a[0]);
      StepOthers(s, a[0]);
      assert (a + b)[1..] == a[1..] + b;
      assert forall k :: 0 <= k < |a[1..]| ==> a[1..][k] == a[k + 1];
      RunsConcat(Step(s, a[0]), a[1..], b);
    }
  }

  /** How far a call under a lock is from the end, and one without from taking it. */
  ghost function Rank(c: Call): nat
  {
    match c.pc
    case ReadLock => 12
    case ReadChild => 11
    case Validate => 10
    case ParentCheck => 9
    case AttachCheck => 9
    case Descend => 8
    case Upgrade => 8
    case UpgradeLeaf => 7
    case NewId => 5
    case NewEntry => 4
    case Publish => 3
    case Upsert => 3
    case Unlock => 2
    case Done => 0
  }

  /** A call under a lock never waits and never starts again: whatever the others do, each of its own steps
      brings it closer to letting go. */
  lemma HolderProceeds(s: Sys, i: nat)
    requires Inv(s) && i < |s.calls| && s.calls[i].Holding()
    ensures Steppable(s.mem, s.calls[i])
    ensures var c, d := s.calls[i], CallAfter(s.mem, s.calls[i]);
            Rank(d) < Rank(c) <= 5 && (d.Holding() || d.pc.Done?) && d.node == c.node
  {
    hide TreeOk, CallsOk, LocksOk, IdsOk, BitsOk, Steppable;
    StepSteppable(s, i);
  }

  /** What the call has read still stands. */
  ghost predicate UpToDate(m: Shared, c: Call)
    requires c.node in m.version && (c.parent.Some? ==> c.parent.value in m.version)
  {
    c.Holding() || c.pc.Done? ||
    ((!c.pc.ReadLock? ==> m.version[c.node] == c.v)
     && (c.parent.Some? ==> m.version[c.parent.value] == c.parentV))
  }

  /** Nobody but call `i` holds a lock. */
  ghost predicate Alone(s: Sys, i: nat)
  {
    forall j :: 0 <= j < |s.calls| && j != i ==> !s.calls[j].Holding()
  }

  ghost predicate Forward(c: Call, d: Call)
  {
    d.level > c.level || (d.level == c.level && Rank(d) < Rank(c))
  }

  /** Alone, a call that has not taken its lock changes nothing but itself, and goes forward: it starts again at
      most once, and then only because what it read before is out of date. */
  lemma AloneStep(s: Sys, i: nat)
    requires Inv(s) && i < |s.calls| && Alone(s, i) && !s.calls[i].pc.Done?
    ensures Steppable(s.mem, s.calls[i]) && Inv(Step(s, i)) && Alone(Step(s, i), i)
    ensures var m, c, n, d := s.mem, s.calls[i], Step(s, i).mem, Step(s, i).calls[i];
            && (UpToDate(m, c) ==> UpToDate(n, d) && Forward(c, d))
            && (!UpToDate(m, c) ==> UpToDate(n, d) || Forward(c, d))
            && d.level <= |d.Kw()| && d.l == c.l
  {
    hide TreeOk, CallsOk, IdsOk, BitsOk, LocksOk, Encode, CallOk, Steppable, UpToDate, MemAfter, CallAfter;
    StepInv(s, i);
    StepOthers(s, i);
    StepOwn(s, i);
    FreeAlone(s, i);
    CallAt(s, i);
    CallAt(Step(s, i), i);
    StepSteppable(Step(s, i), i);
    AloneCall(s.mem, i, s.calls[i]);
    LevelOk(Step(s, i).mem, Step(s, i).calls[i]);
  }

  lemma LevelOk(m: Shared, c: Call)
    requires CallOk(m, c)
    ensures c.level <= |c.Kw()|
  {
    hide Encode;
  }

  lemma AloneCall(m: Shared, i: nat, c: Call)
    requires CallOk(m, c) && Steppable(m, c) && !c.pc.Done? && TreeOk(m)
    requires !c.Holding() ==> forall n :: n in m.version ==> m.version[n] % 2 == 0
    requires Steppable(MemAfter(m, i, c), CallAfter(m, c))
    ensures var n, d := MemAfter(m, i, c), CallAfter(m, c);
            && (UpToDate(m, c) ==> UpToDate(n, d) && Forward(c, d))
            && (!UpToDate(m, c) ==> UpToDate(n, d) || Forward(c, d))
            && d.l == c.l
  {
    hide TreeOk, Encode, Published, GetNextChar, NextOk, SawOk;
  }

  /** Alone and without a lock: every node is free. */
  lemma FreeAlone(s: Sys, i: nat)
    requires Inv(s) && i < |s.calls| && Alone(s, i)
    ensures !s.calls[i].Holding() ==> forall n :: n in s.mem.version ==> s.mem.version[n] % 2 == 0
  {
    hide TreeOk, IdsOk, BitsOk, CallOk;
  }

  ghost predicate Current(s: Sys, i: nat)
    requires i < |s.calls|
  {
    Steppable(s.mem, s.calls[i]) && UpToDate(s.mem, s.calls[i])
  }

  /** Alone, a call comes to its end. */
  lemma {:induction false} FinishAlone(s: Sys, i: nat) returns (sched: seq<nat>)
    requires Inv(s) && i < |s.calls| && Alone(s, i)
    ensures Within(sched, |s.calls|) && Runs(s, sched).calls[i].pc.Done?
    ensures forall j :: 0 <= j < |s.calls| && j != i ==> Runs(s, sched).calls[j] == s.calls[j]
    decreases if Current(s, i) then 0 else 1, |s.calls[i].Kw()| - s.calls[i].level, Rank(s.calls[i])
  {
    hide Inv, Step, CallAfter, MemAfter, Steppable, UpToDate, Rank, Alone;
    if s.calls[i].pc.Done? {
      sched := [];
    } else {
      AloneStep(s, i);
      var t := Step(s, i);
      StepOthers(s, i);
      StepSteppable(t, i);
      var rest := FinishAlone(t, i);
      sched := [i] + rest;
      assert sched[1..] == rest;
    }
  }

  lemma StepOthers(s: Sys, i: nat)
    requires i < |s.calls| && Steppable(s.mem, s.calls[i])
    ensures |Step(s, i).calls| == |s.calls|
    ensures forall j :: 0 <= j < |s.calls| && j != i ==> Step(s, i).calls[j] == s.calls[j]
  {
    hide CallAfter, MemAfter, Steppable;
  }

  /** A call under a lock comes to its end, whatever locks others hold. */
  lemma {:induction false} FinishHolder(s: Sys, i: nat) returns (sched: seq<nat>)
    requires Inv(s) && i < |s.calls| && (s.calls[i].Holding() || s.calls[i].pc.Done?)
    ensures Within(sched, |s.calls|) && Runs(s, sched).calls[i].pc.Done? && |sched| <= 5
    ensures |sched| <= Rank(s.calls[i])
    ensures forall j :: 0 <= j < |s.calls| && j != i ==> Runs(s, sched).calls[j] == s.calls[j]
    decreases Rank(s.calls[i])
  {
    hide Inv, Step, CallAfter, MemAfter, Steppable;
    if s.calls[i].pc.Done? {
      sched := [];
    } else {
      HolderProceeds(s, i);
      StepInv(s, i);
      StepOthers(s, i);
      StepOwn(s, i);
      var rest := FinishHolder(Step(s, i), i);
      sched := [i] + rest;
      assert sched[1..] == rest;
    }
  }

  lemma StepOwn(s: Sys, i: nat)
    requires i < |s.calls| && Steppable(s.mem, s.calls[i])
    ensures Step(s, i).calls[i] == CallAfter(s.mem, s.calls[i])
  {
    hide CallAfter, MemAfter, Steppable;
  }

  ghost function Unfinished(calls: seq<Call>): set<nat>
  {
    set i: nat | i < |calls| && !calls[i].pc.Done?
  }

  lemma FewerUnfinished(a: seq<Call>, b: seq<Call>, i: nat)
    requires i < |a| == |b| && !a[i].pc.Done? && b[i].pc.Done? && forall j :: 0 <= j < |a| && j != i ==> b[j] == a[j]
    ensures |Unfinished(b)| < |Unfinished(a)|
  {
    assert Unfinished(b) == Unfinished(a) - {i};
    assert i in Unfinished(a);
  }

  /** From every state, all calls can still come to their end: no state is a deadlock. */
  lemma {:induction false} NoDeadlock(s: Sys) returns (sched: seq<nat>)
    requires Inv(s)
    ensures Within(sched, |s.calls|) && AllDone(Runs(s, sched))
    decreases |Unfinished(s.calls)|
  {
    hide Inv, Step, Alone;
    if AllDone(s) {
      sched := [];
    } else {
      var i: nat, first := FinishOne(s);
      FewerUnfinished(s.calls, Runs(s, first).calls, i);
      var rest := NoDeadlock(Runs(s, first));
      sched := first + rest;
      RunsConcat(s, first, rest);
    }
  }

  /** A holder if there is one, else any call that is not done. */
  lemma FinishOne(s: Sys) returns (i: nat, sched: seq<nat>)
    requires Inv(s) && !AllDone(s)
    ensures Within(sched, |s.calls|) && i < |s.calls| && !s.calls[i].pc.Done? && Runs(s, sched).calls[i].pc.Done?
    ensures forall j :: 0 <= j < |s.calls| && j != i ==> Runs(s, sched).calls[j] == s.calls[j]
  {
    hide Inv, Runs;
    if k: nat :| k < |s.calls| && s.calls[k].Holding() {
      i := k;
      sched := FinishHolder(s, i);
    } else {
      i :| 0 <= i < |s.calls| && !s.calls[i].pc.Done?;
      sched := FinishAlone(s, i);
    }
  }

  // ----- whole runs -----

  lemma SameCall(m: Shared, c: Call)
    requires Steppable(m, c)
    ensures CallAfter(m, c).l == c.l && CallAfter(m, c).ix == c.ix
  {
    hide Encode, GetNextChar, Call.Kw;
  }

  lemma {:induction false} SameCalls(s: Sys, t: Sys, n: nat)
    requires ReachedIn(s, t, n)
    ensures |t.calls| == |s.calls|
    ensures forall i :: 0 <= i < |s.calls| ==> t.calls[i].l == s.calls[i].l && t.calls[i].ix == s.calls[i].ix
    decreases n
  {
    hide Steppable, MemAfter, CallAfter;
    if n > 0 {
      var u: Sys, i: nat :| ReachedIn(s, u, n - 1) && i < |u.calls| && Steppable(u.mem, u.calls[i]) && t == Step(u, i);
      SameCalls(s, u, n - 1);
      SameCall(u.mem, u.calls[i]);
    }
  }

  /** No insert is lost: whatever the interleaving, when all calls have returned the tree and the literal map are
      those of inserting the same literals one after the other, in any order. */
  lemma InsertsLinearize(s: Sys, t: Sys, n: nat)
    requires Initial(s) && ReachedIn(s, t, n) && AllDone(t)
    ensures Shape(t.mem.nodes, t.mem.root, t.mem.at) && Spells(t.mem.nodes, t.mem.root, t.mem.at, t.mem.dict)
    ensures Registered(t.mem.literalMap, t.mem.cnt, t.mem.dict) && NoLinks(t.mem.nodes)
    ensures Occurrences(t.mem.literalMap, t.mem.cnt, t.mem.dict) == Inserted(s.calls)
  {
    hide Inv, Shape, Spells, Registered, NoLinks, Initial, ReachedIn, Encode;
    InvAlways(s, t, n);
    SameCalls(s, t, n);
    AllReturned(t);
    InsertedAre(s.calls);
    var a, b := Occurrences(t.mem.literalMap, t.mem.cnt, t.mem.dict), Inserted(s.calls);
    assert a.Keys == b.Keys;
    forall l | l in a ensures a[l] == b[l] { }
  }

  /** Inserting one after the other. */
  ghost function Inserted(calls: seq<Call>): map<seq<Code>, set<PatternIndex>>
  {
    if calls == [] then map[]
    else
      var k := |calls| - 1;
      Recorded(Inserted(calls[..k]), calls[k].l, calls[k].ix)
  }

  lemma {:induction false} InsertedAre(calls: seq<Call>)
    ensures Inserted(calls).Keys == Literals(calls)
    ensures forall l :: l in Inserted(calls) ==> Inserted(calls)[l] == PositionsOf(calls, l)
  {
    if calls != [] {
      var k := |calls| - 1;
      InsertedAre(calls[..k]);
      LastLiteral(calls, k);
      forall l | l in Inserted(calls) ensures Inserted(calls)[l] == PositionsOf(calls, l) {
        LastPosition(calls, k, l);
        if l !in Inserted(calls[..k]) { NoPosition(calls[..k], l); }
      }
    }
  }

  lemma NoPosition(calls: seq<Call>, l: seq<Code>)
    requires l !in Literals(calls)
    ensures PositionsOf(calls, l) == {}
  {
  }

  lemma LastLiteral(calls: seq<Call>, k: nat)
    requires |calls| == k + 1
    ensures Literals(calls) == Literals(calls[..k]) + {calls[k].l}
  {
    assert forall i :: 0 <= i < k ==> calls[..k][i] == calls[i];
    forall x ensures x in Literals(calls) <==> x in Literals(calls[..k]) || x == calls[k].l {
      if x in Literals(calls) {
        var i :| 0 <= i < |calls| && calls[i].l == x;
        assert i < k ==> calls[..k][i].l == x;
      }
    }
  }

  lemma LastPosition(calls: seq<Call>, k: nat, l: seq<Code>)
    requires |calls| == k + 1
    ensures PositionsOf(calls, l) == PositionsOf(calls[..k], l) + if calls[k].l == l then {calls[k].ix} else {}
  {
    assert forall i :: 0 <= i < k ==> calls[..k][i] == calls[i];
    forall x
      ensures x in PositionsOf(calls, l) <==> x in PositionsOf(calls[..k], l) || (calls[k].l == l && x == calls[k].ix)
    {
      if x in PositionsOf(calls, l) {
        var i :| 0 <= i < |calls| && calls[i].l == l && calls[i].ix == x;
        assert i < k ==> calls[..k][i].l == l && calls[..k][i].ix == x;
      }
    }
  }
}
