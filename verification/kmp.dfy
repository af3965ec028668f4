/** The Knuth-Morris-Pratt search the repository keeps for comparison. */
module Kmp {
  import opened Options
  import opened Utf8

  /** The first `k` bytes of `p` end the text at `i`. */
  ghost predicate EndsAt(p: seq<byte>, t: seq<byte>, i: nat, k: nat)
  {
    k <= i <= |t| && k <= |p| && t[i - k..i] == p[..k]
  }

  /** `p[..k]` is a proper border of `p[..n]`. */
  ghost predicate Border(p: seq<byte>, n: nat, k: nat)
  {
    k < n <= |p| && EndsAt(p, p, n, k)
  }

  ghost predicate LongestBorder(p: seq<byte>, n: nat, k: nat)
  {
    Border(p, n, k) && forall j: nat :: Border(p, n, j) ==> j <= k
  }

  ghost predicate OccursIn(p: seq<byte>, t: seq<byte>)
  {
    exists i: nat :: EndsAt(p, t, i, |p|)
  }

  /** The first occurrence starts at `i`. */
  ghost predicate FirstOccurrence(p: seq<byte>, t: seq<byte>, i: nat)
  {
    EndsAt(p, t, i + |p|, |p|) && forall k: nat :: EndsAt(p, t, k, |p|) ==> i + |p| <= k
  }

  lemma OccurrenceUnique(p: seq<byte>, t: seq<byte>, i: nat, k: nat)
    requires FirstOccurrence(p, t, i) && FirstOccurrence(p, t, k)
    ensures i == k
  {
  }

  /** `a` in `a`: the first occurrence starts at 0, which is not the length of the pattern. */
  lemma NotThePosition()
    ensures FirstOccurrence([0x61], [0x61], 0) && |[0x61]| != 0
  {
    var p: seq<byte> := [0x61];
    assert p[0..1] == p[..1];
  }

  /** Of two prefixes of `p` that end at the same place the shorter one is a border of the longer. */
  lemma Nested(p: seq<byte>, t: seq<byte>, i: nat, k: nat, j: nat)
    requires EndsAt(p, t, i, k) && j < k
    ensures EndsAt(p, t, i, j) <==> Border(p, k, j)
  {
    assert t[i - k..i][k - j..] == t[i - j..i];
    assert p[..k][k - j..k] == p[k - j..k];
  }

  lemma Longer(p: seq<byte>, t: seq<byte>, i: nat, k: nat)
    requires k < |p| && i < |t|
    ensures EndsAt(p, t, i + 1, k + 1) <==> EndsAt(p, t, i, k) && p[k] == t[i]
  {
    if k <= i {
      assert t[i - k..i + 1] == t[i - k..i] + [t[i]];
      assert p[..k + 1] == p[..k] + [p[k]];
    }
  }

  /** Every prefix that ends at `i` and goes on with `t[i]` is no longer than `k`. */
  ghost predicate NoneBeyond(p: seq<byte>, t: seq<byte>, i: nat, k: nat)
    requires i < |t|
  {
    forall j: nat :: j < |p| && EndsAt(p, t, i, j) && p[j] == t[i] ==> j <= k
  }

  /** When `p[..k]` does not go on, its longest border is the next to try. */
  lemma FallBack(p: seq<byte>, t: seq<byte>, i: nat, k: nat, b: nat)
    requires i < |t| && k < |p| && EndsAt(p, t, i, k) && p[k] != t[i]
    requires NoneBeyond(p, t, i, k) && LongestBorder(p, k, b)
    ensures EndsAt(p, t, i, b) && NoneBeyond(p, t, i, b)
  {
    Nested(p, t, i, k, b);
    forall j: nat | j < |p| && EndsAt(p, t, i, j) && p[j] == t[i] ensures j <= b {
      Nested(p, t, i, k, if j < k then j else b);
    }
  }

  class KMPAlgorithm {
    const lpsTable: seq<nat>

    /** Every entry is the length of the longest proper border of that prefix. */
    ghost predicate Valid(p: seq<byte>)
    {
      |lpsTable| == |p| && forall i: nat :: i < |p| ==> LongestBorder(p, i + 1, lpsTable[i])
    }

    constructor (pattern: seq<byte>)
      requires pattern != []
      ensures Valid(pattern)
    {
      hide EndsAt;
      var table: seq<nat> := [0];
      FirstBorder(pattern);
      for idx := 1 to |pattern|
        invariant |table| == idx && forall i: nat :: i < idx ==> LongestBorder(pattern, i + 1, table[i])
      {
        var k: nat := table[idx - 1];
        assert LongestBorder(pattern, idx - 1 + 1, table[idx - 1]);
        BorderStart(pattern, idx, k);
        while k > 0 && pattern[idx] != pattern[k]
          invariant k < idx && EndsAt(pattern, pattern, idx, k) && ProperBeyond(pattern, idx, k)
        {
          assert LongestBorder(pattern, k - 1 + 1, table[k - 1]);
          BorderBack(pattern, idx, k, table[k - 1]);
          k := table[k - 1];
        }
        BorderEnd(pattern, idx, k);
        if pattern[idx] == pattern[k] { k := k + 1; }
        table := table + [k];
      }
      lpsTable := table;
    }

    /** Something other than `None` exactly if the pattern occurs. The search stops at the end of the first occurrence,
        which starts at `first`; the number it returns is the length of the pattern, and that is `first` only by
        chance. */
    method Match(pattern: seq<byte>, text: seq<byte>) returns (r: Option<nat>, ghost first: nat)
      requires pattern != [] && Valid(pattern)
      ensures r.Some? <==> OccursIn(pattern, text)
      ensures r.Some? ==> r.value == |pattern| && FirstOccurrence(pattern, text, first)
      ensures r.Some? ==> (r.value == first <==> FirstOccurrence(pattern, text, |pattern|))
    {
      hide EndsAt;
      var matchPos: nat := 0;
      MatchStart(pattern, text);
      for idx := 0 to |text|
        invariant matchPos < |pattern| && EndsAt(pattern, text, idx, matchPos)
        invariant forall j: nat :: j < |pattern| && EndsAt(pattern, text, idx, j) ==> j <= matchPos
        invariant forall i: nat :: i <= idx ==> !EndsAt(pattern, text, i, |pattern|)
      {
        while matchPos > 0 && pattern[matchPos] != text[idx]
          invariant matchPos < |pattern| && EndsAt(pattern, text, idx, matchPos)
          invariant NoneBeyond(pattern, text, idx, matchPos)
        {
          assert LongestBorder(pattern, matchPos - 1 + 1, lpsTable[matchPos - 1]);
          FallBack(pattern, text, idx, matchPos, lpsTable[matchPos - 1]);
          matchPos := lpsTable[matchPos - 1];
        }
        MatchNext(pattern, text, idx, matchPos);
        if pattern[matchPos] == text[idx] { matchPos := matchPos + 1; }
        if matchPos == |pattern| {
          FirstIs(pattern, text, idx + 1);
          first := idx + 1 - |pattern|;
          if FirstOccurrence(pattern, text, |pattern|) { OccurrenceUnique(pattern, text, first, |pattern|); }
          return Some(matchPos), first;
        }
      }
      NeverLater(pattern, text);
      return None, 0;
    }
  }

  lemma FirstBorder(p: seq<byte>)
    requires p != []
    ensures LongestBorder(p, 1, 0)
  {
  }

  /** `NoneBeyond` for borders: the prefix itself does not count. */
  ghost predicate ProperBeyond(p: seq<byte>, n: nat, k: nat)
    requires n < |p|
  {
    forall j: nat :: Border(p, n, j) && p[j] == p[n] ==> j <= k
  }

  lemma BorderStart(p: seq<byte>, n: nat, k: nat)
    requires 0 < n < |p| && LongestBorder(p, n, k)
    ensures k < n && EndsAt(p, p, n, k) && ProperBeyond(p, n, k)
  {
  }

  lemma BorderBack(p: seq<byte>, n: nat, k: nat, b: nat)
    requires 0 < k < n < |p| && EndsAt(p, p, n, k) && ProperBeyond(p, n, k) && p[k] != p[n] && LongestBorder(p, k, b)
    ensures b < k && EndsAt(p, p, n, b) && ProperBeyond(p, n, b)
  {
    hide EndsAt;
    Nested(p, p, n, k, b);
    forall j: nat | Border(p, n, j) && p[j] == p[n] ensures j <= b {
      if j < k { Nested(p, p, n, k, j); }
    }
  }

  lemma BorderEnd(p: seq<byte>, n: nat, k: nat)
    requires k < n < |p| && EndsAt(p, p, n, k) && ProperBeyond(p, n, k) && (k == 0 || p[k] == p[n])
    ensures LongestBorder(p, n + 1, if p[n] == p[k] then k + 1 else k)
  {
    hide EndsAt;
    Longer(p, p, n, k);
    EndsEmpty(p, p, n + 1);
    var m := n + 1;
    forall j: nat | Border(p, m, j) ensures j <= if p[n] == p[k] then k + 1 else k {
      if j > 0 {
        var i: nat := j - 1;
        Longer(p, p, n, i);
        assert Border(p, n, i);
      }
    }
  }

  lemma EndsEmpty(p: seq<byte>, t: seq<byte>, i: nat)
    requires i <= |t|
    ensures EndsAt(p, t, i, 0)
  {
  }

  lemma MatchStart(p: seq<byte>, t: seq<byte>)
    requires p != []
    ensures EndsAt(p, t, 0, 0) && !EndsAt(p, t, 0, |p|) && forall j: nat :: EndsAt(p, t, 0, j) ==> j == 0
  {
  }

  lemma MatchNext(p: seq<byte>, t: seq<byte>, i: nat, k: nat)
    requires i < |t| && k < |p| && EndsAt(p, t, i, k) && NoneBeyond(p, t, i, k) && (k == 0 || p[k] == t[i])
    ensures var n, m := if p[k] == t[i] then k + 1 else k, i + 1;
            && EndsAt(p, t, m, n) && (forall j: nat :: j <= |p| && EndsAt(p, t, m, j) ==> j <= n)
            && (n == |p| ==> OccursIn(p, t))
  {
    hide EndsAt;
    Longer(p, t, i, k);
    EndsEmpty(p, t, i + 1);
    var n, m := if p[k] == t[i] then k + 1 else k, i + 1;
    forall j: nat | j <= |p| && EndsAt(p, t, m, j) ensures j <= n {
      if j > 0 { Longer(p, t, i, j - 1); }
    }
  }

  lemma FirstIs(p: seq<byte>, t: seq<byte>, end: nat)
    requires EndsAt(p, t, end, |p|) && forall i: nat :: i < end ==> !EndsAt(p, t, i, |p|)
    ensures |p| <= end && FirstOccurrence(p, t, end - |p|)
  {
  }

  lemma NeverLater(p: seq<byte>, t: seq<byte>)
    ensures forall i: nat :: EndsAt(p, t, i, |p|) ==> i <= |t|
  {
  }
}
