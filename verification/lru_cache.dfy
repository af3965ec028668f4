/** The alignment cache of a matcher: a list, most recently stored first, and a hash map into it. */
module LruCaches {

  /** One stored alignment: text position minus pattern position, and the literal that was matched. */
  datatype Entry = Entry(key: nat, prev: nat)

  ghost predicate DistinctKeys(l: seq<Entry>)
  {
    forall i, j :: 0 <= i < j < |l| ==> l[i].key != l[j].key
  }

  /** `l` without the entry for `key`. */
  ghost function Without(l: seq<Entry>, key: nat): seq<Entry>
  {
    if l == [] then [] else if l[0].key == key then l[1..] else [l[0]] + Without(l[1..], key)
  }

  ghost predicate HasKey(l: seq<Entry>, key: nat)
  {
    exists i :: 0 <= i < |l| && l[i].key == key
  }

  /** What storing does: the entry moves to or enters at the front, the last one falls out above capacity. */
  ghost function Upserted(l: seq<Entry>, e: Entry, cap: nat): seq<Entry>
  {
    var m := [e] + Without(l, e.key);
    if |m| > cap then m[..|m| - 1] else m
  }

  lemma {:induction false} WithoutFacts(l: seq<Entry>, key: nat)
    requires DistinctKeys(l)
    ensures DistinctKeys(Without(l, key)) && !HasKey(Without(l, key), key)
    ensures |Without(l, key)| == |l| - (if HasKey(l, key) then 1 else 0)
    ensures forall e :: e in Without(l, key) <==> e in l && e.key != key
  {
    hide HasKey;
    WithoutIn(l, key);
    if l != [] {
      KeyOnce(l);
      HasKeySplit(l, key);
      WithoutFacts(l[1..], key);
      if l[0].key != key { KeyOnceMore(l[0], Without(l[1..], key)); }
    }
    NoKey(Without(l, key), key);
  }

  lemma {:induction false} WithoutIn(l: seq<Entry>, key: nat)
    requires DistinctKeys(l)
    ensures forall e :: e in Without(l, key) <==> e in l && e.key != key
  {
    if l != [] {
      KeyOnce(l);
      WithoutIn(l[1..], key);
      assert l == [l[0]] + l[1..];
    }
  }

  lemma KeyOnce(l: seq<Entry>)
    requires DistinctKeys(l) && l != []
    ensures DistinctKeys(l[1..]) && forall e :: e in l[1..] ==> e.key != l[0].key
  {
  }

  lemma KeyOnceMore(e: Entry, l: seq<Entry>)
    requires DistinctKeys(l) && forall d :: d in l ==> d.key != e.key
    ensures DistinctKeys([e] + l)
  {
    assert forall j :: 0 <= j < |l| ==> l[j] in l;
  }

  lemma HasKeySplit(l: seq<Entry>, key: nat)
    requires l != []
    ensures HasKey(l, key) <==> l[0].key == key || HasKey(l[1..], key)
    ensures HasKey(l[1..], key) ==> exists e :: e in l[1..] && e.key == key
  {
    if i :| 0 <= i < |l| && l[i].key == key { assert i > 0 ==> l[1..][i - 1].key == key; }
    if i :| 0 <= i < |l[1..]| && l[1..][i].key == key { assert l[i + 1].key == key; }
  }

  lemma NoKey(l: seq<Entry>, key: nat)
    requires forall e :: e in l ==> e.key != key
    ensures !HasKey(l, key)
  {
    assert forall j :: 0 <= j < |l| ==> l[j] in l;
  }

  /** A node of the list. Iterators of the original are node ids here: they stay good while the list changes. */
  datatype ListNode = ListNode(id: nat, entry: Entry)

  ghost function Entries(l: seq<ListNode>): seq<Entry>
  {
    if l == [] then [] else [l[0].entry] + Entries(l[1..])
  }

  function EraseNode(l: seq<ListNode>, id: nat): seq<ListNode>
  {
    if l == [] then [] else if l[0].id == id then l[1..] else [l[0]] + EraseNode(l[1..], id)
  }

  function FindNode(l: seq<ListNode>, id: nat): (n: ListNode)
    requires exists i :: 0 <= i < |l| && l[i].id == id
    ensures n in l && n.id == id
  {
    if l[0].id == id then l[0] else FindNode(l[1..], id)
  }

  lemma {:induction false} EntriesAt(l: seq<ListNode>)
    ensures |Entries(l)| == |l| && forall i :: 0 <= i < |l| ==> Entries(l)[i] == l[i].entry
  {
    if l != [] { EntriesAt(l[1..]); }
  }

  /** Nodes have ids of their own and keys of their own. */
  ghost predicate Distinct(l: seq<ListNode>)
  {
    forall i, j :: 0 <= i < j < |l| ==> l[i].id != l[j].id && l[i].entry.key != l[j].entry.key
  }

  lemma {:induction false} EraseFacts(l: seq<ListNode>, id: nat, key: nat)
    requires Distinct(l) && forall n :: n in l ==> (n.id == id <==> n.entry.key == key)
    ensures Entries(EraseNode(l, id)) == Without(Entries(l), key)
    ensures forall n :: n in EraseNode(l, id) <==> n in l && n.id != id
    ensures Distinct(EraseNode(l, id))
  {
    if l != [] {
      assert l == [l[0]] + l[1..];
      assert Distinct(l[1..]);
      EraseFacts(l[1..], id, key);
      var r := EraseNode(l[1..], id);
      hide EraseNode, Without, Entries;
      if l[0].id != id { DistinctCons(l[0], l[1..], r); }
    }
  }

  lemma DistinctCons(h: ListNode, l: seq<ListNode>, r: seq<ListNode>)
    requires Distinct([h] + l) && Distinct(r) && forall n :: n in r ==> n in l
    ensures Distinct([h] + r)
  {
    forall j | 0 <= j < |r| ensures r[j].id != h.id && r[j].entry.key != h.entry.key {
      assert r[j] in r;
      var k :| 0 <= k < |l| && l[k] == r[j];
      assert ([h] + l)[k + 1] == r[j] && ([h] + l)[0] == h;
    }
  }

  /** `m` finds every node of `l` by its key, and nothing else. */
  ghost predicate Indexes(m: map<nat, nat>, l: seq<ListNode>)
  {
    && |m| == |l|
    && (forall n :: n in l ==> n.entry.key in m && m[n.entry.key] == n.id)
    && (forall k :: k in m ==> exists n :: n in l && n.entry.key == k)
  }

  lemma {:induction false} EraseLength(l: seq<ListNode>, id: nat)
    requires exists n :: n in l && n.id == id
    ensures |EraseNode(l, id)| == |l| - 1
  {
    if l[0].id != id { EraseLength(l[1..], id); }
  }

  /** The node that the map finds by a key is the only one with that key. */
  lemma NodeIs(m: map<nat, nat>, l: seq<ListNode>, key: nat)
    requires Distinct(l) && Indexes(m, l) && key in m
    ensures exists n :: n in l && n.id == m[key]
    ensures forall n :: n in l ==> (n.id == m[key] <==> n.entry.key == key)
  {
    var h :| h in l && h.entry.key == key;
    var i :| 0 <= i < |l| && l[i] == h;
    forall n | n in l ensures n.id == m[key] <==> n.entry.key == key {
      var j :| 0 <= j < |l| && l[j] == n;
    }
  }

  /** Taking a node out of the list and its key out of the map keeps them in agreement. */
  lemma EraseIndexes(m: map<nat, nat>, l: seq<ListNode>, key: nat)
    requires Distinct(l) && Indexes(m, l) && key in m
    ensures Entries(EraseNode(l, m[key])) == Without(Entries(l), key)
    ensures Distinct(EraseNode(l, m[key])) && Indexes(m - {key}, EraseNode(l, m[key]))
    ensures forall n :: n in EraseNode(l, m[key]) <==> n in l && n.id != m[key]
    ensures |EraseNode(l, m[key])| == |l| - 1
  {
    hide Entries, Without, EraseNode, Distinct;
    NodeIs(m, l, key);
    EraseFacts(l, m[key], key);
    EraseLength(l, m[key]);
    assert (m - {key}).Keys == m.Keys - {key};
    assert |m.Keys - {key}| == |m| - 1;
  }

  lemma AbsentKey(m: map<nat, nat>, l: seq<ListNode>, key: nat)
    requires Indexes(m, l) && key !in m
    ensures Without(Entries(l), key) == Entries(l)
  {
    EntriesAt(l);
    WithoutAbsent(Entries(l), key);
  }

  lemma {:induction false} WithoutAbsent(l: seq<Entry>, key: nat)
    requires forall e :: e in l ==> e.key != key
    ensures Without(l, key) == l
  {
    if l != [] { WithoutAbsent(l[1..], key); }
  }

  lemma AddKey(m: map<nat, nat>, key: nat, v: nat)
    requires key !in m
    ensures |m[key := v]| == |m| + 1
  {
    assert m[key := v].Keys == m.Keys + {key};
  }

  lemma DropKey(m: map<nat, nat>, key: nat)
    requires key in m
    ensures |m - {key}| == |m| - 1
  {
    assert (m - {key}).Keys == m.Keys - {key};
  }

  lemma PushDistinct(m: map<nat, nat>, l: seq<ListNode>, n: ListNode)
    requires Distinct(l) && Indexes(m, l) && n.entry.key !in m && forall o :: o in l ==> o.id != n.id
    ensures Distinct([n] + l)
  {
    forall j | 0 <= j < |l| ensures l[j].id != n.id && l[j].entry.key != n.entry.key { assert l[j] in l; }
  }

  /** A new node at the front with a key the map does not know. */
  lemma PushIndexes(m: map<nat, nat>, l: seq<ListNode>, n: ListNode)
    requires Indexes(m, l) && n.entry.key !in m
    ensures Indexes(m[n.entry.key := n.id], [n] + l)
  {
    AddKey(m, n.entry.key, n.id);
    var r := [n] + l;
    assert forall o :: o in r <==> o == n || o in l;
  }

  lemma PopDistinct(l: seq<ListNode>, n: ListNode)
    requires Distinct(l + [n])
    ensures Distinct(l) && forall o :: o in l ==> o.entry.key != n.entry.key
    ensures Entries(l + [n]) == Entries(l) + [n.entry]
  {
    var r := l + [n];
    EntriesAt(l);
    EntriesAt(r);
    assert r[|l|] == n;
    assert forall j :: 0 <= j < |l| ==> r[j] == l[j];
  }

  /** Dropping the last node and its key. */
  lemma PopIndexes(m: map<nat, nat>, l: seq<ListNode>, n: ListNode)
    requires Indexes(m, l + [n]) && forall o :: o in l ==> o.entry.key != n.entry.key
    ensures n.entry.key in m && Indexes(m - {n.entry.key}, l)
  {
    assert forall o :: o in l + [n] <==> o in l || o == n;
    DropKey(m, n.entry.key);
  }

  lemma PopLast(m: map<nat, nat>, l: seq<ListNode>)
    requires l != [] && Distinct(l) && Indexes(m, l)
    ensures var k := |l| - 1;
            l[k].entry.key in m && Distinct(l[..k]) && Indexes(m - {l[k].entry.key}, l[..k])
  {
    hide Distinct, Indexes;
    var k := |l| - 1;
    assert l == l[..k] + [l[k]];
    PopDistinct(l[..k], l[k]);
    PopIndexes(m, l[..k], l[k]);
  }

  /** The list after storing, before and after the last node falls out, holds the entries `Upserted` says. */
  lemma UpsertedEntries(l: seq<ListNode>, tail: seq<ListNode>, n: ListNode, cap: nat)
    requires Entries(tail) == Without(Entries(l), n.entry.key)
    ensures var r := [n] + tail;
            Upserted(Entries(l), n.entry, cap) == if |r| > cap then Entries(r[..|r| - 1]) else Entries(r)
  {
    var r := [n] + tail;
    EntriesCons(n, tail);
    EntriesAt(r);
    EntriesAt(r[..|r| - 1]);
    assert Entries(r)[..|r| - 1] == Entries(r[..|r| - 1]);
  }

  class LRUCache {
    var itemList: seq<ListNode>
    var itemMap: map<nat, nat>
    var maxSize: nat
    var nextId: nat

    /** List and map hold the same keys, once each, and never more than the capacity. */
    ghost predicate Valid()
      reads this
    {
      && |itemList| <= maxSize && Distinct(itemList) && Indexes(itemMap, itemList)
      && (forall n :: n in itemList ==> n.id < nextId)
    }

    ghost function Contents(): seq<Entry>
      reads this
    {
      Entries(itemList)
    }

    constructor (maxSize: nat)
      ensures Valid() && Contents() == [] && this.maxSize == maxSize
    {
      itemList, itemMap, this.maxSize, nextId := [], map[], maxSize, 0;
    }

    method Upsert(key: nat, value: nat)
      requires Valid()
      modifies this
      ensures Valid() && maxSize == old(maxSize)
      ensures Contents() == Upserted(old(Contents()), Entry(key, value), maxSize)
    {
      hide Distinct, Indexes, Without, Entries, EraseNode, Upserted;
      var it := key in itemMap;
      var node := ListNode(nextId, Entry(key, value));
      itemList := [node] + itemList;
      nextId := nextId + 1;
      ghost var tail := old(itemList);
      if it {
        tail := EraseNode(old(itemList), itemMap[key]);
        EraseIndexes(old(itemMap), old(itemList), key);
        NodeOf(old(itemMap), old(itemList), key);
        EraseBehind(node, old(itemList), itemMap[key]);
        itemList := EraseNode(itemList, itemMap[key]);
        itemMap := itemMap - {key};
      } else {
        AbsentKey(old(itemMap), old(itemList), key);
      }
      assert itemList == [node] + tail;
      PushDistinct(itemMap, tail, node);
      PushIndexes(itemMap, tail, node);
      EntriesCons(node, tail);
      itemMap := itemMap[key := node.id];
      MapSize(itemMap, itemList);
      UpsertedEntries(old(itemList), tail, node, maxSize);
      if |itemMap| > maxSize {
        PopLast(itemMap, itemList);
        itemMap := itemMap - {itemList[|itemList| - 1].entry.key};
        itemList := itemList[..|itemList| - 1];
      }
    }

    method GetAndRemove(key: nat) returns (value: nat)
      requires Valid() && key in itemMap
      modifies this
      ensures Valid() && maxSize == old(maxSize)
      ensures Entry(key, value) in old(Contents())
      ensures Contents() == Without(old(Contents()), key)
    {
      hide Without, Entries, Distinct, Indexes;
      EraseIndexes(itemMap, itemList, key);
      NodeOf(itemMap, itemList, key);
      value := FindNode(itemList, itemMap[key]).entry.prev;
      itemList := EraseNode(itemList, itemMap[key]);
      itemMap := itemMap - {key};
    }

    method Contain(key: nat) returns (r: bool)
      requires Valid()
      ensures r <==> key in itemMap
      ensures r <==> HasKey(Contents(), key)
    {
      r := key in itemMap;
      EntriesAt(itemList);
      if r {
        NodeOf(itemMap, itemList, key);
        var n := FindNode(itemList, itemMap[key]);
        var i :| 0 <= i < |itemList| && itemList[i] == n;
        assert Contents()[i].key == key;
      } else {
        assert forall i :: 0 <= i < |itemList| ==> itemList[i] in itemList;
      }
    }

    method Reset(maxSize: nat)
      modifies this
      ensures Valid() && Contents() == [] && this.maxSize == maxSize
    {
      itemList, itemMap := [], map[];
      this.maxSize := maxSize;
    }
  }

  lemma DistinctEntries(l: seq<ListNode>)
    requires Distinct(l)
    ensures DistinctKeys(Entries(l))
  {
    EntriesAt(l);
  }

  lemma EntriesCons(n: ListNode, l: seq<ListNode>)
    ensures Entries([n] + l) == [n.entry] + Entries(l)
  {
    assert ([n] + l)[1..] == l;
  }

  /** Erasing an older node leaves the one in front of it alone. */
  lemma EraseBehind(n: ListNode, l: seq<ListNode>, id: nat)
    requires n.id != id
    ensures EraseNode([n] + l, id) == [n] + EraseNode(l, id)
  {
    assert ([n] + l)[1..] == l;
  }

  lemma MapSize(m: map<nat, nat>, l: seq<ListNode>)
    requires Indexes(m, l)
    ensures |m| == |l|
  {
  }

  /** The node the map points at holds the key. */
  lemma NodeOf(m: map<nat, nat>, l: seq<ListNode>, key: nat)
    requires Distinct(l) && Indexes(m, l) && key in m
    ensures exists i :: 0 <= i < |l| && l[i].id == m[key]
    ensures FindNode(l, m[key]).entry.key == key && FindNode(l, m[key]).entry in Entries(l)
    ensures exists o :: o in l && o.id == m[key]
  {
    var n :| n in l && n.entry.key == key;
    var i :| 0 <= i < |l| && l[i] == n;
    var f := FindNode(l, m[key]);
    var j :| 0 <= j < |l| && l[j] == f;
    EntriesAt(l);
    assert Entries(l)[j] == f.entry;
  }
}
