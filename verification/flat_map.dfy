/** The hash table behind the alignment cache and the segment maps: values without holes in one vector, and a
    Robin Hood table of buckets that point into it. A bucket holds its distance from home and one byte of the
    hash in one number, and the index of its value. */
module FlatMaps {
  import opened Options

  const DIST_INC := 256
  const HASHES := 0x1_0000_0000_0000_0000

  /** `df`: the distance from home, counted from 1, times 256, plus the fingerprint; 0 means empty. */
  datatype Bucket = Bucket(df: nat, idx: nat)

  // ----- going round -----

  function Next(b: nat, n: nat): nat
    requires b < n
  {
    if b + 1 == n then 0 else b + 1
  }

  /** `j` buckets behind `h`. */
  function Walk(h: nat, j: nat, n: nat): (b: nat)
    requires h < n && j <= n
    ensures b < n
  {
    if h + j < n then h + j else h + j - n
  }

  /** How far `b` is behind `h`. */
  function Ahead(h: nat, b: nat, n: nat): (j: nat)
    requires h < n && b < n
    ensures j < n && Walk(h, j, n) == b
  {
    if h <= b then b - h else b + n - h
  }

  lemma WalkNext(h: nat, j: nat, n: nat)
    requires h < n && j < n
    ensures Next(Walk(h, j, n), n) == Walk(h, j + 1, n)
  {
  }

  lemma WalkOnce(h: nat, i: nat, j: nat, n: nat)
    requires h < n && i < n && j < n && Walk(h, i, n) == Walk(h, j, n)
    ensures i == j
  {
  }

  // ----- where a key belongs -----

  /** `hash >> shifts`, for `n == 1 << (64 - shifts)` buckets. */
  function Home(hash: nat, n: nat): (b: nat)
    requires 0 < n
    ensures b < n
  {
    HomeBelow(hash % HASHES, n);
    hash % HASHES * n / HASHES
  }

  function Pow2(k: nat): (n: nat)
    ensures n > 0
  {
    if k == 0 then 1 else 2 * Pow2(k - 1)
  }

  lemma {:induction false} Pow2Sum(a: nat, b: nat)
    ensures Pow2(a) * Pow2(b) == Pow2(a + b)
    decreases b
  {
    if b > 0 {
      Pow2Sum(a, b - 1);
      assert Pow2(a) * Pow2(b) == 2 * (Pow2(a) * Pow2(b - 1));
    }
  }

  lemma Pow32()
    ensures Pow2(32) == 0x1_0000_0000
  {
    assert Pow2(8) == 0x100;
    Pow2Sum(8, 8);
    Pow2Sum(16, 16);
  }

  lemma Pow64()
    ensures Pow2(64) == HASHES
  {
    Pow32();
    Pow2Sum(32, 32);
  }

  /** It is the shift, for a power of two. */
  lemma HomeIsShift(hash: nat, n: nat, w: nat)
    requires 0 < n && n * w == HASHES
    ensures Home(hash, n) == hash % HASHES / w
  {
    var h := hash % HASHES;
    var q, r := h / w, h % w;
    assert h * n == q * HASHES + r * n by {
      assert h == q * w + r;
      assert (q * w + r) * n == q * (n * w) + r * n;
    }
    assert 0 <= r * n < HASHES by {
      assert r < w;
      assert r * n <= (w - 1) * n;
    }
  }

  lemma HomeBelow(hash: nat, n: nat)
    requires 0 < n && hash < HASHES
    ensures 0 <= hash * n / HASHES < n
  {
    MoreOf(hash, HASHES, n);
    Quotient(hash * n, n);
  }

  lemma MoreOf(a: nat, b: nat, n: nat)
    requires a < b && 0 < n
    ensures a * n < b * n
  {
    assert b * n == a * n + (b - a) * n;
    assert (b - a) * n > 0;
  }

  lemma Quotient(a: nat, n: nat)
    requires a < HASHES * n
    ensures a / HASHES < n
  {
  }

  /** What a bucket of a key with this hash holds `j` places from home. */
  function Df(hash: nat, j: nat): nat
  {
    DIST_INC * (j + 1) + hash % DIST_INC
  }

  /** The distance is in the bits above the lowest eight, the fingerprint is the lowest byte of the hash. */
  lemma DfFields(hash: nat, j: nat)
    ensures Df(hash, j) / 0x100 == j + 1 && Df(hash, j) % 0x100 == hash % 0x100
    ensures Df(hash, j + 1) == Df(hash, j) + 0x100
  {
  }

  /** The stored hash function; any function of the key will do. Hashes have 64 bits. */
  type Hash = nat -> nat

  type Entry = (nat, nat)

  ghost predicate PlacedAs(s: seq<Bucket>, vals: seq<Entry>, f: Hash, b: nat, j: nat)
  {
    && b < |s| && j < |s| && s[b].idx < |vals|
    && var h := f(vals[s[b].idx].0); b == Walk(Home(h, |s|), j, |s|) && s[b].df == Df(h, j)
  }

  ghost predicate Placed(s: seq<Bucket>, vals: seq<Entry>, f: Hash, b: nat)
    requires b < |s|
  {
    s[b].df == 0 || exists j: nat :: PlacedAs(s, vals, f, b, j)
  }

  /** `e` may stand behind `d`: nobody behind could have gone in front, and behind a gap one is at home. */
  ghost predicate MayFollow(d: nat, e: nat)
  {
    e <= if d == 0 then 2 * DIST_INC - 1 else d + DIST_INC
  }

  ghost predicate Neighbours(s: seq<Bucket>)
  {
    forall b: nat {:trigger Next(b, |s|)} :: b < |s| ==> MayFollow(s[b].df, s[Next(b, |s|)].df)
  }

  ghost predicate PointsAt(s: seq<Bucket>, b: nat, i: nat)
  {
    b < |s| && s[b].df > 0 && s[b].idx == i
  }

  /** The first `m` values have one bucket each, and there are no other buckets. */
  ghost predicate OneToOne(s: seq<Bucket>, m: nat)
  {
    && (forall b: nat :: b < |s| && s[b].df > 0 ==> s[b].idx < m)
    && (forall b: nat, c: nat :: b < |s| && c < |s| && s[b].df > 0 && s[c].df > 0 && s[b].idx == s[c].idx ==> b == c)
    && (forall i: nat :: i < m ==> Held(s, i))
  }

  ghost predicate Held(s: seq<Bucket>, i: nat)
  {
    exists b: nat :: PointsAt(s, b, i)
  }

  ghost predicate Sane(s: seq<Bucket>, vals: seq<Entry>, f: Hash, m: nat)
  {
    && 0 < |s| && m <= |vals| && Neighbours(s) && OneToOne(s, m)
    && (forall b: nat :: b < |s| ==> Placed(s, vals, f, b))
  }

  ghost predicate DistinctKeys(vals: seq<Entry>)
  {
    forall i, j :: 0 <= i < j < |vals| ==> vals[i].0 != vals[j].0
  }

  /** All the way from home to where a key stands the buckets are at least as far from theirs. */
  lemma {:induction false} Backward(s: seq<Bucket>, vals: seq<Entry>, f: Hash, b: nat, j: nat, i: nat)
    requires Neighbours(s) && PlacedAs(s, vals, f, b, j) && i <= j
    ensures var h := f(vals[s[b].idx].0); s[Walk(Home(h, |s|), i, |s|)].df >= Df(h, i)
    decreases j - i
  {
    hide Home;
    if i < j {
      Backward(s, vals, f, b, j, i + 1);
      WalkNext(Home(f(vals[s[b].idx].0), |s|), i, |s|);
    }
  }

  // ----- a free bucket -----

  lemma {:induction false} Pigeons(xs: seq<nat>, m: nat)
    requires forall i, j :: 0 <= i < j < |xs| ==> xs[i] != xs[j]
    requires forall i :: 0 <= i < |xs| ==> xs[i] < m
    ensures |xs| <= m
    decreases |xs|
  {
    if xs != [] {
      var n := |xs| - 1;
      var x, rest := xs[n], xs[..n];
      if i :| 0 <= i < n && xs[i] == m - 1 { rest := rest[i := x]; }
      Pigeons(rest, m - 1);
    }
  }

  ghost predicate Free(s: seq<Bucket>, b: nat)
  {
    b < |s| && s[b].df == 0
  }

  /** An empty bucket, or one that is at home. */
  ghost predicate AtRest(s: seq<Bucket>, b: nat)
  {
    b < |s| && s[b].df < 2 * DIST_INC
  }

  /** What taking a bucket out needs to come to an end; also when the table is full. */
  ghost predicate Rests(s: seq<Bucket>)
  {
    exists b: nat :: AtRest(s, b)
  }

  lemma FreeRests(s: seq<Bucket>, b: nat)
    requires Free(s, b)
    ensures Rests(s)
  {
    assert AtRest(s, b);
  }

  /** Fewer values than buckets: one bucket is free. */
  lemma SomeFree(s: seq<Bucket>, m: nat) returns (b: nat)
    requires OneToOne(s, m) && m < |s|
    ensures Free(s, b)
  {
    if forall b: nat :: b < |s| ==> s[b].df > 0 {
      var xs := seq(|s|, b requires 0 <= b < |s| => s[b].idx);
      Pigeons(xs, m);
      assert false;
    }
    b :| b < |s| && s[b].df == 0;
  }

  // ----- searching -----

  ghost function KeyAt(s: seq<Bucket>, vals: seq<Entry>, b: nat): nat
    requires b < |s| && s[b].idx < |vals|
  {
    vals[s[b].idx].0
  }

  /** No bucket of `key` is nearer to home than `i`. */
  ghost predicate NotBefore(s: seq<Bucket>, vals: seq<Entry>, f: Hash, key: nat, i: nat)
  {
    forall b: nat, j: nat :: PlacedAs(s, vals, f, b, j) && KeyAt(s, vals, b) == key ==> i <= j
  }

  ghost predicate Absent(s: seq<Bucket>, vals: seq<Entry>, key: nat)
  {
    forall b: nat :: b < |s| && s[b].df > 0 && s[b].idx < |vals| ==> vals[s[b].idx].0 != key
  }

  lemma SearchOn(s: seq<Bucket>, vals: seq<Entry>, f: Hash, m: nat, key: nat, i: nat)
    requires Sane(s, vals, f, m) && i < |s| && NotBefore(s, vals, f, key, i)
    requires var b := Walk(Home(f(key), |s|), i, |s|);
             s[b].df == Df(f(key), i) ==> s[b].idx < |vals| && vals[s[b].idx].0 != key
    ensures NotBefore(s, vals, f, key, i + 1)
  {
    hide Home, Neighbours, OneToOne;
  }

  /** The early exit misses nothing: a key farther on would have pushed this bucket away. */
  lemma SearchOver(s: seq<Bucket>, vals: seq<Entry>, f: Hash, m: nat, key: nat, i: nat)
    requires Sane(s, vals, f, m) && i <= |s| && NotBefore(s, vals, f, key, i)
    requires i == |s| || Df(f(key), i) > s[Walk(Home(f(key), |s|), i, |s|)].df
    ensures Absent(s, vals, key)
  {
    hide Home, OneToOne;
    forall b: nat | b < |s| && s[b].df > 0 && s[b].idx < |vals| && vals[s[b].idx].0 == key ensures false {
      assert Placed(s, vals, f, b);
      var j: nat :| PlacedAs(s, vals, f, b, j);
      assert KeyAt(s, vals, b) == key;
      if i < |s| { Backward(s, vals, f, b, j, i); }
    }
  }

  /** Once round every search is over. */
  lemma FarAway(s: seq<Bucket>, vals: seq<Entry>, f: Hash, m: nat, hash: nat, i: nat, b: nat)
    requires Sane(s, vals, f, m) && b < |s| <= i
    ensures Df(hash, i) > s[b].df
  {
    hide Home, OneToOne, Neighbours;
    assert Placed(s, vals, f, b);
  }

  /** A bucket that is as far from home with the same fingerprint points at a value. */
  lemma Pointed(s: seq<Bucket>, vals: seq<Entry>, f: Hash, m: nat, b: nat)
    requires Sane(s, vals, f, m) && b < |s| && s[b].df > 0
    ensures s[b].idx < m <= |vals|
  {
    hide Home, Neighbours;
  }

  lemma SearchStart(s: seq<Bucket>, vals: seq<Entry>, f: Hash, key: nat)
    ensures NotBefore(s, vals, f, key, 0)
  {
  }

  // ----- hanging in a bucket -----

  function Inc(x: Bucket): Bucket
  {
    Bucket(x.df + DIST_INC, x.idx)
  }

  /** `t` is `s` with `x` at `p` and everything from there up to the free bucket `g` places on shifted by one. */
  ghost predicate ShiftedUp(s: seq<Bucket>, t: seq<Bucket>, p: nat, g: nat, x: Bucket)
  {
    var n := |s|;
    && p < n && g < n && |t| == n
    && (forall i: nat :: i < g ==> s[Walk(p, i, n)].df > 0) && s[Walk(p, g, n)].df == 0
    && t[p] == x
    && (forall i: nat :: i < g ==> t[Walk(p, i + 1, n)] == Inc(s[Walk(p, i, n)]))
    && (forall b: nat :: b < n && Ahead(p, b, n) > g ==> t[b] == s[b])
  }

  /** Where the bucket at `b` of `t` comes from. */
  lemma UpFrom(s: seq<Bucket>, t: seq<Bucket>, p: nat, g: nat, x: Bucket, b: nat)
    requires ShiftedUp(s, t, p, g, x) && b < |s|
    ensures var n, a := |s|, Ahead(p, b, |s|);
            && (a == 0 ==> b == p && t[b] == x)
            && (0 < a <= g ==> s[Walk(p, a - 1, n)].df > 0 && t[b] == Inc(s[Walk(p, a - 1, n)])
                               && Next(Walk(p, a - 1, n), n) == b)
            && (a > g ==> t[b] == s[b])
  {
    var n, a := |s|, Ahead(p, b, |s|);
    if 0 < a <= g {
      var i: nat := a - 1;
      assert t[Walk(p, i + 1, n)] == Inc(s[Walk(p, i, n)]);
      WalkNext(p, i, n);
    }
  }

  lemma AheadNext(p: nat, b: nat, n: nat)
    requires p < n && b < n
    ensures Next(b, n) < n && Ahead(p, Next(b, n), n) == if Ahead(p, b, n) + 1 == n then 0 else Ahead(p, b, n) + 1
    ensures Ahead(p, b, n) + 1 == n <==> Next(b, n) == p
  {
  }

  ghost predicate Full256(s: seq<Bucket>)
  {
    forall b: nat :: b < |s| ==> s[b].df == 0 || s[b].df >= DIST_INC
  }

  /** `x` may stand at `p` and in front of what stands there. */
  ghost predicate Fits(s: seq<Bucket>, p: nat, x: Bucket)
  {
    && p < |s| && s[p].df <= x.df && x.df >= DIST_INC
    && MayFollow(s[Walk(p, |s| - 1, |s|)].df, x.df)
  }

  lemma UpNeighbour(s: seq<Bucket>, t: seq<Bucket>, p: nat, g: nat, x: Bucket, b: nat)
    requires ShiftedUp(s, t, p, g, x) && Neighbours(s) && Full256(s) && Fits(s, p, x) && b < |s|
    ensures Next(b, |s|) < |s| == |t| && MayFollow(t[b].df, t[Next(b, |s|)].df)
  {
    var n, a, c := |s|, Ahead(p, b, |s|), Next(b, |s|);
    AheadNext(p, b, n);
    UpFrom(s, t, p, g, x, b);
    UpFrom(s, t, p, g, x, c);
    UpSize(s, t, p, g, x);
    hide ShiftedUp;
    assert MayFollow(s[b].df, s[c].df);
    if 0 < a <= g {
      var d := Walk(p, a - 1, n);
      assert MayFollow(s[d].df, s[b].df);
    }
  }

  lemma UpSize(s: seq<Bucket>, t: seq<Bucket>, p: nat, g: nat, x: Bucket)
    requires ShiftedUp(s, t, p, g, x)
    ensures |t| == |s| && p < |s| && g < |s| && s[Walk(p, g, |s|)].df == 0
  {
  }

  lemma UpNeighbours(s: seq<Bucket>, t: seq<Bucket>, p: nat, g: nat, x: Bucket)
    requires ShiftedUp(s, t, p, g, x) && Neighbours(s) && Full256(s) && Fits(s, p, x)
    ensures Neighbours(t)
  {
    hide ShiftedUp, Fits;
    UpSize(s, t, p, g, x);
    forall b: nat | b < |t| ensures MayFollow(t[b].df, t[Next(b, |t|)].df) { UpNeighbour(s, t, p, g, x, b); }
  }

  lemma SaneFull(s: seq<Bucket>, vals: seq<Entry>, f: Hash, m: nat)
    requires Sane(s, vals, f, m)
    ensures Full256(s)
  {
    hide Home, OneToOne, Neighbours;
    forall b: nat | b < |s| ensures s[b].df == 0 || s[b].df >= DIST_INC { assert Placed(s, vals, f, b); }
  }

  /** A bucket that moves on is still right, one place farther from home, as long as a bucket was free. */
  lemma MovedOn(s: seq<Bucket>, vals: seq<Entry>, f: Hash, m: nat, b: nat, e: nat) returns (j: nat)
    requires Sane(s, vals, f, m) && b < |s| && s[b].df > 0 && Free(s, e)
    ensures j + 1 < |s| && PlacedAs(s, vals, f, b, j)
    ensures var h := f(vals[s[b].idx].0);
            Next(b, |s|) == Walk(Home(h, |s|), j + 1, |s|) && s[b].df + DIST_INC == Df(h, j + 1)
  {
    hide Home, OneToOne, Neighbours;
    assert Placed(s, vals, f, b);
    j :| PlacedAs(s, vals, f, b, j);
    var n, h := |s|, Home(f(vals[s[b].idx].0), |s|);
    WalkNext(h, j, n);
    if j + 1 == n {
      Backward(s, vals, f, b, j, Ahead(h, e, n));
    }
  }

  lemma UpPlaced(s: seq<Bucket>, t: seq<Bucket>, vals: seq<Entry>, f: Hash, m: nat, p: nat, g: nat, x: Bucket, b: nat)
    requires Sane(s, vals, f, m) && ShiftedUp(s, t, p, g, x) && b < |t|
    requires exists j: nat :: PlacedAs(t, vals, f, p, j)
    ensures Placed(t, vals, f, b)
  {
    hide Home, OneToOne, Neighbours;
    UpSize(s, t, p, g, x);
    UpFrom(s, t, p, g, x, b);
    hide ShiftedUp;
    var n, a := |s|, Ahead(p, b, |s|);
    if 0 < a <= g {
      var d: nat := Walk(p, a - 1, n);
      var j := MovedOn(s, vals, f, m, d, Walk(p, g, n));
      var k := j + 1;
      assert PlacedAs(t, vals, f, b, k);
    } else if a > g && t[b].df > 0 {
      assert Placed(s, vals, f, b);
      var j: nat :| PlacedAs(s, vals, f, b, j);
      assert PlacedAs(t, vals, f, b, j);
    }
  }

  /** Which bucket of `s` the one at `b` of `t` is; `b` itself is new if it is `p`. */
  ghost function Before(p: nat, g: nat, b: nat, n: nat): nat
    requires p < n && b < n && b != p
  {
    if Ahead(p, b, n) <= g then Walk(p, Ahead(p, b, n) - 1, n) else b
  }

  lemma BeforeIs(s: seq<Bucket>, t: seq<Bucket>, p: nat, g: nat, x: Bucket, b: nat)
    requires ShiftedUp(s, t, p, g, x) && b < |t| && b != p && t[b].df > 0
    ensures |t| == |s| && p < |s|
    ensures var a := Before(p, g, b, |s|); a < |s| && s[a].df > 0 && s[a].idx == t[b].idx
  {
    UpSize(s, t, p, g, x);
    UpFrom(s, t, p, g, x, b);
  }

  lemma BeforeOnce(s: seq<Bucket>, t: seq<Bucket>, p: nat, g: nat, x: Bucket, b: nat, c: nat)
    requires ShiftedUp(s, t, p, g, x) && b < |t| && c < |t| && b != p && c != p && t[b].df > 0 && t[c].df > 0
    ensures |t| == |s| && p < |s| && (Before(p, g, b, |s|) == Before(p, g, c, |s|) ==> b == c)
  {
    UpSize(s, t, p, g, x);
    UpFrom(s, t, p, g, x, b);
    UpFrom(s, t, p, g, x, c);
    hide ShiftedUp;
    var n := |s|;
    if Before(p, g, b, n) == Before(p, g, c, n) {
      var i, j := Ahead(p, b, n), Ahead(p, c, n);
      if i <= g && j <= g { WalkOnce(p, i - 1, j - 1, n); }
    }
  }

  lemma UpHeld(s: seq<Bucket>, t: seq<Bucket>, p: nat, g: nat, x: Bucket, i: nat)
    requires ShiftedUp(s, t, p, g, x) && Held(s, i)
    ensures Held(t, i)
  {
    var b: nat :| PointsAt(s, b, i);
    var n := |s|;
    var a := Ahead(p, b, n);
    var c := if a < g then Next(b, n) else b;
    UpSize(s, t, p, g, x);
    AheadNext(p, b, n);
    UpFrom(s, t, p, g, x, c);
    assert a != g;
    assert PointsAt(t, c, i);
  }

  lemma UpOneToOne(s: seq<Bucket>, t: seq<Bucket>, p: nat, g: nat, x: Bucket, m: nat)
    requires ShiftedUp(s, t, p, g, x) && OneToOne(s, m) && x.idx == m && x.df > 0
    ensures OneToOne(t, m + 1)
  {
    UpSize(s, t, p, g, x);
    UpFrom(s, t, p, g, x, p);
    hide ShiftedUp, Held;
    forall b: nat | b < |t| && t[b].df > 0 && b != p ensures t[b].idx < m { BeforeIs(s, t, p, g, x, b); }
    forall b: nat, c: nat | b < |t| && c < |t| && t[b].df > 0 && t[c].df > 0 && t[b].idx == t[c].idx ensures b == c {
      if b != p && c != p {
        BeforeIs(s, t, p, g, x, b);
        BeforeIs(s, t, p, g, x, c);
        BeforeOnce(s, t, p, g, x, b, c);
      }
    }
    forall i: nat | i < m + 1 ensures Held(t, i) {
      if i == m {
        assert Held(t, i) by { assert PointsAt(t, p, i); }
      } else {
        UpHeld(s, t, p, g, x, i);
      }
    }
  }

  /** Hanging in the bucket of value `m` where its search ended keeps the table sane. */
  lemma UpSane(s: seq<Bucket>, t: seq<Bucket>, vals: seq<Entry>, f: Hash, m: nat, p: nat, g: nat, x: Bucket, i: nat)
    requires Sane(s, vals, f, m) && ShiftedUp(s, t, p, g, x) && m < |vals| && Fits(s, p, x) && x.idx == m && i < |s|
    requires p == Walk(Home(f(vals[m].0), |s|), i, |s|) && x.df == Df(f(vals[m].0), i)
    ensures Sane(t, vals, f, m + 1)
  {
    hide Home, ShiftedUp, Fits, OneToOne, Neighbours;
    UpSize(s, t, p, g, x);
    SaneFull(s, vals, f, m);
    UpNeighbours(s, t, p, g, x);
    assert x.df > 0;
    UpOneToOne(s, t, p, g, x, m);
    UpFrom(s, t, p, g, x, p);
    assert PlacedAs(t, vals, f, p, i);
    forall b: nat | b < |t| ensures Placed(t, vals, f, b) { UpPlaced(s, t, vals, f, m, p, g, x, b); }
  }

  /** Behind the bucket that was free everything is at home: what fills it leaves one at rest, even if it is the
      last one. */
  lemma UpRests(s: seq<Bucket>, t: seq<Bucket>, p: nat, g: nat, x: Bucket, hash: nat, i: nat)
    requires ShiftedUp(s, t, p, g, x) && Neighbours(s) && 1 < |s| && i < |s| && Passed(s, hash, i)
    requires p == Walk(Home(hash, |s|), i, |s|) && x.df == Df(hash, i)
    ensures Rests(t)
  {
    hide Home, ShiftedUp, Walk, Passed, Rests, Df;
    UpSize(s, t, p, g, x);
    var n, fb := |s|, Walk(p, g, |s|);
    var c := Next(fb, n);
    AheadWalk(p, g, n);
    AheadNext(p, fb, n);
    UpFrom(s, t, p, g, x, c);
    if c == p {
      FilledFirst(s, p, hash, i, fb);
      RestsAt(t, p);
    } else {
      assert MayFollow(s[fb].df, s[c].df);
      RestsAt(t, c);
    }
  }

  lemma RestsAt(s: seq<Bucket>, b: nat)
    requires AtRest(s, b)
    ensures Rests(s)
  {
  }

  /** A search that ends right behind a free bucket has not passed it, so it ends at home. */
  lemma FilledFirst(s: seq<Bucket>, p: nat, hash: nat, i: nat, fb: nat)
    requires 0 < |s| && i < |s| && Passed(s, hash, i) && p == Walk(Home(hash, |s|), i, |s|)
    requires fb < |s| && s[fb].df == 0 && Next(fb, |s|) == p
    ensures Df(hash, i) < 2 * DIST_INC
  {
    hide Home, Passed;
    if i > 0 {
      var k: nat := i - 1;
      assert Walk(Home(hash, |s|), k, |s|) == fb;
      PassedAt(s, hash, i, k);
    }
  }

  lemma PassedAt(s: seq<Bucket>, hash: nat, i: nat, k: nat)
    requires 0 < |s| && Passed(s, hash, i) && k < i && k < |s|
    ensures s[Walk(Home(hash, |s|), k, |s|)].df >= Df(hash, k) >= DIST_INC
  {
    hide Home, Walk;
  }

  // ----- taking a bucket out -----

  function Dec(x: Bucket): Bucket
    requires x.df >= DIST_INC
  {
    Bucket(x.df - DIST_INC, x.idx)
  }

  /** `t` is `s` without the bucket at `p`; the `g` buckets behind it that were not at home have moved up. */
  ghost predicate ShiftedDown(s: seq<Bucket>, t: seq<Bucket>, p: nat, g: nat)
  {
    var n := |s|;
    && g < n && p < n && |t| == n
    && (forall b: nat :: b < n && Ahead(p, b, n) < g ==>
          s[Next(b, n)].df >= 2 * DIST_INC && t[b] == Dec(s[Next(b, n)]))
    && s[Walk(p, g + 1, n)].df < 2 * DIST_INC && t[Walk(p, g, n)] == Bucket(0, 0)
    && (forall b: nat :: b < n && Ahead(p, b, n) > g ==> t[b] == s[b])
  }

  lemma DownSize(s: seq<Bucket>, t: seq<Bucket>, p: nat, g: nat)
    requires ShiftedDown(s, t, p, g)
    ensures |t| == |s| && p < |s| && g < |s|
  {
  }

  lemma DownFrom(s: seq<Bucket>, t: seq<Bucket>, p: nat, g: nat, b: nat)
    requires ShiftedDown(s, t, p, g) && b < |s|
    ensures var n, a := |s|, Ahead(p, b, |s|);
            && (a < g ==> s[Next(b, n)].df >= 2 * DIST_INC && t[b] == Dec(s[Next(b, n)]))
            && (a == g ==> t[b] == Bucket(0, 0) && s[Next(b, n)].df < 2 * DIST_INC)
            && (a > g ==> t[b] == s[b])
  {
    if Ahead(p, b, |s|) == g { WalkNext(p, g, |s|); }
  }

  lemma DownNeighbour(s: seq<Bucket>, t: seq<Bucket>, p: nat, g: nat, b: nat)
    requires ShiftedDown(s, t, p, g) && Neighbours(s) && p < |s| && s[p].df > 0 && b < |s|
    ensures Next(b, |s|) < |s| == |t| && MayFollow(t[b].df, t[Next(b, |s|)].df)
  {
    var n, a, c := |s|, Ahead(p, b, |s|), Next(b, |s|);
    AheadNext(p, b, n);
    DownFrom(s, t, p, g, b);
    DownFrom(s, t, p, g, c);
    DownSize(s, t, p, g);
    hide ShiftedDown;
    assert MayFollow(s[b].df, s[c].df) && MayFollow(s[c].df, s[Next(c, n)].df);
  }

  /** A bucket that was not at home moves one place towards it. */
  lemma MovedBack(s: seq<Bucket>, t: seq<Bucket>, vals: seq<Entry>, f: Hash, b: nat)
    requires |t| == |s| && b < |s| && Placed(s, vals, f, Next(b, |s|))
    requires s[Next(b, |s|)].df >= 2 * DIST_INC && t[b] == Dec(s[Next(b, |s|)])
    ensures Placed(t, vals, f, b)
  {
    hide Home;
    var n, d := |s|, Next(b, |s|);
    var j: nat :| PlacedAs(s, vals, f, d, j);
    var k: nat := j - 1;
    WalkNext(Home(f(vals[s[d].idx].0), n), k, n);
    assert PlacedAs(t, vals, f, b, k);
  }

  lemma DownPlaced(s: seq<Bucket>, t: seq<Bucket>, vals: seq<Entry>, f: Hash, m: nat, p: nat, g: nat, b: nat)
    requires Sane(s, vals, f, m) && ShiftedDown(s, t, p, g) && b < |t|
    ensures Placed(t, vals, f, b)
  {
    hide Home, OneToOne, Neighbours;
    DownSize(s, t, p, g);
    DownFrom(s, t, p, g, b);
    hide ShiftedDown;
    var n, a := |s|, Ahead(p, b, |s|);
    if a < g {
      assert Placed(s, vals, f, Next(b, n));
      MovedBack(s, t, vals, f, b);
    } else if a > g && t[b].df > 0 {
      assert Placed(s, vals, f, b);
      var j: nat :| PlacedAs(s, vals, f, b, j);
      assert PlacedAs(t, vals, f, b, j);
    }
  }

  /** `OneToOne` but for value `v`, which no bucket points at. */
  ghost predicate AllBut(s: seq<Bucket>, m: nat, v: nat)
  {
    && (forall b: nat :: b < |s| && s[b].df > 0 ==> s[b].idx < m && s[b].idx != v)
    && (forall b: nat, c: nat :: b < |s| && c < |s| && s[b].df > 0 && s[c].df > 0 && s[b].idx == s[c].idx ==> b == c)
    && (forall i: nat :: i < m && i != v ==> Held(s, i))
  }

  /** Which bucket of `s` the one at `b` of `t` is. */
  ghost function Source(p: nat, g: nat, b: nat, n: nat): nat
    requires p < n && b < n
  {
    if Ahead(p, b, n) < g then Next(b, n) else b
  }

  lemma SourceIs(s: seq<Bucket>, t: seq<Bucket>, p: nat, g: nat, b: nat)
    requires ShiftedDown(s, t, p, g) && b < |t| && t[b].df > 0
    ensures |t| == |s| && p < |s|
    ensures var a := Source(p, g, b, |s|); a < |s| && a != p && s[a].df > 0 && s[a].idx == t[b].idx
  {
    DownSize(s, t, p, g);
    DownFrom(s, t, p, g, b);
    AheadNext(p, b, |s|);
  }

  lemma SourceOnce(p: nat, g: nat, b: nat, c: nat, n: nat)
    requires p < n && b < n && c < n && Ahead(p, b, n) != g && Ahead(p, c, n) != g && g < n
    requires Source(p, g, b, n) == Source(p, g, c, n)
    ensures b == c
  {
    AheadNext(p, b, n);
    AheadNext(p, c, n);
  }

  lemma DownHeld(s: seq<Bucket>, t: seq<Bucket>, p: nat, g: nat, i: nat)
    requires ShiftedDown(s, t, p, g) && Held(s, i) && p < |s| && s[p].idx != i
    ensures Held(t, i)
  {
    hide ShiftedDown;
    var b: nat :| PointsAt(s, b, i);
    DownSize(s, t, p, g);
    if Ahead(p, b, |s|) <= g {
      var c := BackOne(p, b, |s|);
      DownFrom(s, t, p, g, c);
      assert PointsAt(t, c, i);
    } else {
      DownFrom(s, t, p, g, b);
      assert PointsAt(t, b, i);
    }
  }

  /** The bucket in front of `b`, which is not `p`. */
  lemma BackOne(p: nat, b: nat, n: nat) returns (c: nat)
    requires p < n && b < n && b != p
    ensures c < n && Next(c, n) == b && Ahead(p, c, n) + 1 == Ahead(p, b, n)
  {
    c := if b == 0 then n - 1 else b - 1;
  }

  lemma DownAllBut(s: seq<Bucket>, t: seq<Bucket>, p: nat, g: nat, m: nat)
    requires ShiftedDown(s, t, p, g) && OneToOne(s, m) && p < |s| && s[p].df > 0
    ensures AllBut(t, m, s[p].idx)
  {
    DownSize(s, t, p, g);
    forall b: nat | b < |t| && t[b].df > 0 ensures Ahead(p, b, |s|) != g { DownFrom(s, t, p, g, b); }
    hide ShiftedDown, Held;
    forall b: nat | b < |t| && t[b].df > 0 ensures t[b].idx < m && t[b].idx != s[p].idx { SourceIs(s, t, p, g, b); }
    forall b: nat, c: nat | b < |t| && c < |t| && t[b].df > 0 && t[c].df > 0 && t[b].idx == t[c].idx ensures b == c {
      SourceIs(s, t, p, g, b);
      SourceIs(s, t, p, g, c);
      SourceOnce(p, g, b, c, |s|);
    }
    forall i: nat | i < m && i != s[p].idx ensures Held(t, i) { DownHeld(s, t, p, g, i); }
  }

  /** A table that is sane but for value `v`, which has no bucket any more. */
  ghost predicate SaneBut(s: seq<Bucket>, vals: seq<Entry>, f: Hash, m: nat, v: nat)
  {
    && 0 < |s| && m <= |vals| && Neighbours(s) && AllBut(s, m, v) && v < m
    && (forall b: nat :: b < |s| ==> Placed(s, vals, f, b))
  }

  lemma DownSane(s: seq<Bucket>, t: seq<Bucket>, vals: seq<Entry>, f: Hash, m: nat, p: nat, g: nat)
    requires Sane(s, vals, f, m) && ShiftedDown(s, t, p, g) && p < |s| && s[p].df > 0
    ensures SaneBut(t, vals, f, m, s[p].idx)
  {
    hide Home, ShiftedDown, OneToOne, AllBut, Neighbours, Placed;
    DownSize(s, t, p, g);
    DownAllBut(s, t, p, g, m);
    assert Neighbours(t) by { DownNeighbours(s, t, p, g); }
    forall b: nat | b < |t| ensures Placed(t, vals, f, b) { DownPlaced(s, t, vals, f, m, p, g, b); }
    Pointed(s, vals, f, m, p);
  }

  lemma DownNeighbours(s: seq<Bucket>, t: seq<Bucket>, p: nat, g: nat)
    requires ShiftedDown(s, t, p, g) && Neighbours(s) && p < |s| && s[p].df > 0
    ensures Neighbours(t)
  {
    hide ShiftedDown;
    DownSize(s, t, p, g);
    forall b: nat | b < |t| ensures MayFollow(t[b].df, t[Next(b, |t|)].df) { DownNeighbour(s, t, p, g, b); }
  }

  // ----- the loops over the buckets -----

  /** The bucket in hand after `g` exchanges. */
  ghost function Carried(s: seq<Bucket>, p: nat, g: nat, x: Bucket): Bucket
    requires p < |s| && g <= |s|
  {
    if g == 0 then x else Inc(s[Walk(p, g - 1, |s|)])
  }

  /** `g` buckets have been exchanged. */
  ghost predicate UpPart(s: seq<Bucket>, t: seq<Bucket>, p: nat, g: nat, x: Bucket)
  {
    var n := |s|;
    && p < n && g < n && |t| == n
    && (forall i: nat :: i < g ==> s[Walk(p, i, n)].df > 0)
    && (forall b: nat :: b < n ==> t[b] == if Ahead(p, b, n) < g then Carried(s, p, Ahead(p, b, n), x) else s[b])
  }

  lemma AheadWalk(p: nat, g: nat, n: nat)
    requires p < n && g < n
    ensures Ahead(p, Walk(p, g, n), n) == g
  {
  }

  lemma UpPartNext(s: seq<Bucket>, t: seq<Bucket>, p: nat, g: nat, x: Bucket)
    requires UpPart(s, t, p, g, x) && s[Walk(p, g, |s|)].df > 0 && g + 1 < |s|
    ensures t[Walk(p, g, |s|)] == s[Walk(p, g, |s|)]
    ensures UpPart(s, t[Walk(p, g, |s|) := Carried(s, p, g, x)], p, g + 1, x)
    ensures Carried(s, p, g + 1, x) == Inc(s[Walk(p, g, |s|)])
  {
    hide Inc, Walk, Ahead, Carried;
    CarriedNext(s, p, g, x);
    AheadWalk(p, g, |s|);
  }

  lemma UpPartEnd(s: seq<Bucket>, t: seq<Bucket>, p: nat, g: nat, x: Bucket)
    requires UpPart(s, t, p, g, x) && s[Walk(p, g, |s|)].df == 0
    ensures ShiftedUp(s, t[Walk(p, g, |s|) := Carried(s, p, g, x)], p, g, x)
  {
    hide Inc, Walk, Ahead, Carried;
    var n := |s|;
    var w, r := Walk(p, g, n), t[Walk(p, g, n) := Carried(s, p, g, x)];
    AheadWalk(p, g, n);
    forall i: nat | i <= g ensures r[Walk(p, i, n)] == Carried(s, p, i, x) {
      AheadWalk(p, i, n);
    }
    forall i: nat | i < g ensures r[Walk(p, i + 1, n)] == Inc(s[Walk(p, i, n)]) {
      CarriedNext(s, p, i, x);
    }
    CarriedFirst(s, p, x);
    assert r[Walk(p, 0, n)] == Carried(s, p, 0, x);
  }

  lemma CarriedNext(s: seq<Bucket>, p: nat, i: nat, x: Bucket)
    requires p < |s| && i < |s|
    ensures Carried(s, p, i + 1, x) == Inc(s[Walk(p, i, |s|)])
  {
  }

  lemma UpPartStart(s: seq<Bucket>, p: nat, x: Bucket)
    requires p < |s|
    ensures UpPart(s, s, p, 0, x)
  {
  }

  /** The free bucket has not been passed. */
  lemma UpPartFree(s: seq<Bucket>, t: seq<Bucket>, p: nat, g: nat, x: Bucket, e: nat)
    requires UpPart(s, t, p, g, x) && Free(s, e)
    ensures g <= Ahead(p, e, |s|) && t[Walk(p, g, |s|)] == s[Walk(p, g, |s|)]
    ensures s[Walk(p, g, |s|)].df > 0 ==> g + 1 <= Ahead(p, e, |s|)
  {
    assert Walk(p, Ahead(p, e, |s|), |s|) == e;
  }

  /** `place_and_shift_up`. */
  method PlaceAndShiftUp(buckets: array<Bucket>, bucket0: Bucket, place0: nat, ghost e: nat) returns (ghost g: nat)
    requires place0 < buckets.Length && Free(buckets[..], e)
    modifies buckets
    ensures ShiftedUp(old(buckets[..]), buckets[..], place0, g, bucket0)
  {
    hide UpPart, ShiftedUp, Carried, Inc, Walk, Ahead;
    ghost var s, n := buckets[..], buckets.Length;
    var bucket, place := bucket0, place0;
    g := 0;
    UpPartStart(s, place0, bucket0);
    CarriedFirst(s, place0, bucket0);
    UpPartFree(s, s, place0, 0, bucket0, e);
    while buckets[place].df != 0
      invariant g <= Ahead(place0, e, n) && g < n && place == Walk(place0, g, n) && place < n
      invariant UpPart(s, buckets[..], place0, g, bucket0) && bucket == Carried(s, place0, g, bucket0)
      decreases Ahead(place0, e, n) - g
    {
      ghost var t := buckets[..];
      UpPartFree(s, t, place0, g, bucket0, e);
      UpPartNext(s, t, place0, g, bucket0);
      var there := buckets[place];
      buckets[place] := bucket;
      assert buckets[..] == t[place := bucket];
      bucket := Inc(there);
      WalkNext(place0, g, n);
      place := Next(place, buckets.Length);
      g := g + 1;
    }
    ghost var t := buckets[..];
    UpPartFree(s, t, place0, g, bucket0, e);
    UpPartEnd(s, t, place0, g, bucket0);
    buckets[place] := bucket;
    assert buckets[..] == t[place := bucket];
  }

  lemma CarriedFirst(s: seq<Bucket>, p: nat, x: Bucket)
    requires p < |s|
    ensures Carried(s, p, 0, x) == x && Walk(p, 0, |s|) == p
  {
  }

  /** `g` buckets have moved up, the hole is behind them. */
  ghost predicate DownPart(s: seq<Bucket>, t: seq<Bucket>, p: nat, g: nat)
  {
    var n := |s|;
    && p < n && g < n && |t| == n
    && (forall b: nat :: b < n && Ahead(p, b, n) < g ==>
          s[Next(b, n)].df >= 2 * DIST_INC && t[b] == Dec(s[Next(b, n)]))
    && (forall b: nat :: b < n && Ahead(p, b, n) >= g ==> t[b] == s[b])
  }

  lemma DownPartNext(s: seq<Bucket>, t: seq<Bucket>, p: nat, g: nat)
    requires DownPart(s, t, p, g) && g + 1 < |s| && s[Walk(p, g + 1, |s|)].df >= 2 * DIST_INC
    ensures t[Walk(p, g + 1, |s|)] == s[Walk(p, g + 1, |s|)]
    ensures DownPart(s, t[Walk(p, g, |s|) := Dec(s[Walk(p, g + 1, |s|)])], p, g + 1)
  {
    WalkNext(p, g, |s|);
  }

  lemma DownPartEnd(s: seq<Bucket>, t: seq<Bucket>, p: nat, g: nat)
    requires DownPart(s, t, p, g) && s[Walk(p, g + 1, |s|)].df < 2 * DIST_INC
    ensures ShiftedDown(s, t[Walk(p, g, |s|) := Bucket(0, 0)], p, g)
  {
  }

  /** How many buckets behind `p` the bucket `e` is; once round, if it is `p` itself. */
  ghost function Behind(p: nat, e: nat, n: nat): (d: nat)
    requires p < n && e < n
    ensures 0 < d <= n && Walk(p, d, n) == e
  {
    if e == p then n else Ahead(p, e, n)
  }

  /** A bucket that is empty or at home has not been passed. When the hole has gone all the way round, what has
      moved to `p` in the meantime is at home. */
  lemma DownPartRest(s: seq<Bucket>, t: seq<Bucket>, p: nat, g: nat, e: nat)
    requires DownPart(s, t, p, g) && AtRest(s, e) && Neighbours(s)
    ensures g + 1 <= Behind(p, e, |s|) <= |s| == |t| && Walk(p, g + 1, |s|) < |s|
    ensures t[Walk(p, g + 1, |s|)].df < 2 * DIST_INC ==> s[Walk(p, g + 1, |s|)].df < 2 * DIST_INC
    ensures t[Walk(p, g + 1, |s|)].df >= 2 * DIST_INC ==>
              g + 2 <= Behind(p, e, |s|) && t[Walk(p, g + 1, |s|)] == s[Walk(p, g + 1, |s|)]
  {
    hide Walk, Ahead, Neighbours, Behind;
    var n, d := |s|, Behind(p, e, |s|);
    WalkStart(p, n);
    NotPassed(s, t, p, g, e);
    if g + 1 < n {
      AheadWalk(p, g + 1, n);
    } else {
      OnceRound(s, t, p, g, e);
    }
  }

  lemma NotPassed(s: seq<Bucket>, t: seq<Bucket>, p: nat, g: nat, e: nat)
    requires DownPart(s, t, p, g) && AtRest(s, e)
    ensures g < Behind(p, e, |s|)
  {
    hide Walk, Ahead, Behind;
    var d := Behind(p, e, |s|);
    if d <= g {
      var i: nat := d - 1;
      WalkNext(p, i, |s|);
      AheadWalk(p, i, |s|);
    }
  }

  lemma OnceRound(s: seq<Bucket>, t: seq<Bucket>, p: nat, g: nat, e: nat)
    requires DownPart(s, t, p, g) && AtRest(s, e) && Neighbours(s) && g + 1 == |s| == Behind(p, e, |s|)
    ensures Walk(p, |s|, |s|) == p == e && s[p].df < 2 * DIST_INC && t[p].df < 2 * DIST_INC
  {
    assert MayFollow(s[p].df, s[Next(p, |s|)].df);
    assert Ahead(p, p, |s|) == 0;
  }

  /** `erase_and_shift_down`. */
  method EraseAndShiftDown(buckets: array<Bucket>, bucketIdx0: nat, ghost e: nat) returns (ghost g: nat)
    requires bucketIdx0 < buckets.Length && AtRest(buckets[..], e) && Neighbours(buckets[..])
    modifies buckets
    ensures ShiftedDown(old(buckets[..]), buckets[..], bucketIdx0, g)
  {
    hide DownPart, ShiftedDown, Dec, Walk, Ahead, Behind, Neighbours;
    ghost var s, n := buckets[..], buckets.Length;
    var bucketIdx := bucketIdx0;
    var nextBucketIdx := Next(bucketIdx, buckets.Length);
    g := 0;
    WalkStart(bucketIdx0, n);
    DownPartStart(s, bucketIdx0);
    DownPartRest(s, s, bucketIdx0, 0, e);
    while buckets[nextBucketIdx].df >= 2 * DIST_INC
      invariant g + 1 <= Behind(bucketIdx0, e, n) <= n && bucketIdx == Walk(bucketIdx0, g, n) && bucketIdx < n
      invariant nextBucketIdx == Walk(bucketIdx0, g + 1, n) == Next(bucketIdx, n) && nextBucketIdx < n
      invariant DownPart(s, buckets[..], bucketIdx0, g)
      decreases Behind(bucketIdx0, e, n) - g
    {
      ghost var t := buckets[..];
      DownPartRest(s, t, bucketIdx0, g, e);
      DownPartNext(s, t, bucketIdx0, g);
      buckets[bucketIdx] := Dec(buckets[nextBucketIdx]);
      assert buckets[..] == t[bucketIdx := Dec(s[nextBucketIdx])];
      WalkNext(bucketIdx0, g + 1, n);
      bucketIdx, nextBucketIdx := nextBucketIdx, Next(nextBucketIdx, buckets.Length);
      g := g + 1;
    }
    ghost var t := buckets[..];
    DownPartRest(s, t, bucketIdx0, g, e);
    DownPartEnd(s, t, bucketIdx0, g);
    buckets[bucketIdx] := Bucket(0, 0);
    assert buckets[..] == t[bucketIdx := Bucket(0, 0)];
  }

  lemma WalkStart(p: nat, n: nat)
    requires p < n
    ensures Walk(p, 0, n) == p && Walk(p, 1, n) == Next(p, n)
  {
  }

  lemma DownPartStart(s: seq<Bucket>, p: nat)
    requires p < |s|
    ensures DownPart(s, s, p, 0)
  {
  }

  // ----- the table -----

  ghost function MapOf(vals: seq<Entry>): map<nat, nat>
  {
    if vals == [] then map[] else MapOf(vals[..|vals| - 1])[vals[|vals| - 1].0 := vals[|vals| - 1].1]
  }

  /** `num_buckets * 0.8f`, rounded down: 0.8f is 13421773 / 2^24. */
  function MaxCapacity(n: nat): (c: nat)
    ensures n > 0 ==> c < n
  {
    13421773 * n / 0x100_0000
  }

  /** `max_bucket_count`: as many as a 32-bit index can tell apart. */
  const MAX_BITS: nat := 32

  function MaxBuckets(): (n: nat)
    ensures n == 0x1_0000_0000 == Pow2(MAX_BITS)
  {
    Pow32();
    0x1_0000_0000
  }

  /** How many values `2 ^ bits` buckets take. The largest table is used to the last bucket. */
  function Capacity(bits: nat): (c: nat)
    ensures c <= Pow2(bits) && (bits != MAX_BITS ==> c < Pow2(bits))
  {
    if bits == MAX_BITS then Pow2(bits) else MaxCapacity(Pow2(bits))
  }

  class Table {
    const hash: Hash
    var values: seq<Entry>
    var buckets: array<Bucket>
    var maxBucketCapacity: nat
    var bits: nat  // 64 less the number of bits by which a hash is shifted

    ghost predicate Valid()
      reads this, buckets
    {
      && 2 <= bits <= MAX_BITS && buckets.Length == Pow2(bits) >= 4
      && maxBucketCapacity == Capacity(bits) && |values| <= maxBucketCapacity
      && Sane(buckets[..], values, hash, |values|) && Rests(buckets[..]) && DistinctKeys(values)
    }

    /** The first bucket for a hash is the hash shifted to the right. */
    lemma FirstBucket(h: nat)
      requires Valid()
      ensures Home(h, buckets.Length) == h % HASHES / Pow2(64 - bits)
    {
      hide Sane, DistinctKeys;
      Pow2Sum(bits, 64 - bits);
      Pow64();
      HomeIsShift(h, buckets.Length, Pow2(64 - bits));
    }

    ghost function Contents(): map<nat, nat>
      reads this
    {
      MapOf(values)
    }

    constructor (hash: Hash)
      ensures Valid() && fresh(buckets) && Contents() == map[]
    {
      this.hash, values := hash, [];
      buckets := new Bucket[4](_ => Bucket(0, 0));
      maxBucketCapacity, bits := MaxCapacity(4), 2;
      new;
      assert Pow2(2) == 4;
      EmptySane(buckets[..], [], hash);
      FreeRests(buckets[..], 0);
    }

    /** The index of the value with this key. The first two probes do not look for the early exit. */
    method Find(key: nat) returns (r: Option<nat>)
      requires Valid()
      ensures r.Some? <==> key in Contents()
      ensures r.Some? ==> r.value < |values| && values[r.value] == (key, Contents()[key])
    {
      hide Sane, NotBefore, Df, Home, Walk, Next, Absent, MapOf;
      MapOfIs(values);
      if |values| == 0 { return None; }
      ghost var s := buckets[..];
      var mh := hash(key);
      var df := DIST_INC + mh % DIST_INC;
      var bucketIdx := Home(mh, buckets.Length);
      SearchStart(s, values, hash, key);
      DfStart(mh, bucketIdx, buckets.Length);
      Probed(s, values, hash, |values|, key, 0);
      if df == buckets[bucketIdx].df && key == values[buckets[bucketIdx].idx].0 {
        return Some(buckets[bucketIdx].idx);
      }
      NextProbe(s, values, hash, |values|, key, 0);
      df, bucketIdx := df + DIST_INC, Next(bucketIdx, buckets.Length);
      if df == buckets[bucketIdx].df && key == values[buckets[bucketIdx].idx].0 {
        return Some(buckets[bucketIdx].idx);
      }
      NextProbe(s, values, hash, |values|, key, 1);
      df, bucketIdx := df + DIST_INC, Next(bucketIdx, buckets.Length);
      r := FindFrom(key, mh, df, bucketIdx, 2);
    }

    /** The loop behind the first two probes. */
    method FindFrom(key: nat, mh: nat, df0: nat, bucketIdx0: nat, ghost i0: nat) returns (r: Option<nat>)
      requires 0 < buckets.Length && Sane(buckets[..], values, hash, |values|)
      requires mh == hash(key) && i0 < buckets.Length && NotBefore(buckets[..], values, hash, key, i0)
      requires df0 == Df(mh, i0) && bucketIdx0 == Walk(Home(mh, buckets.Length), i0, buckets.Length)
      ensures r.Some? ==> r.value < |values| && values[r.value].0 == key
      ensures r.None? ==> forall i :: 0 <= i < |values| ==> values[i].0 != key
    {
      hide *;
      ghost var s, vals, f, n := buckets[..], values, hash, buckets.Length;
      var df, bucketIdx := df0, bucketIdx0;
      ghost var i := i0;
      while true
        invariant i <= n && NotBefore(s, vals, f, key, i)
        invariant df == Df(mh, i) && bucketIdx == Walk(Home(mh, n), i, n)
        decreases n - i
      {
        LastProbe(s, vals, f, |vals|, key, i);
        var bucketDf: nat, valueIdx: nat := buckets[bucketIdx].df, buckets[bucketIdx].idx;
        if df == bucketDf {
          if key == values[valueIdx].0 {
            return Some(valueIdx);
          }
        } else if df > bucketDf {
          SearchOver(s, vals, f, |vals|, key, i);
          AbsentKey(s, vals, f, |vals|, key);
          return None;
        }
        NextProbe(s, vals, f, |vals|, key, i);
        df, bucketIdx := df + DIST_INC, Next(bucketIdx, buckets.Length);
        i := i + 1;
      }
    }

    /** Where a key would stand: past every bucket that is farther from its home. */
    method NextWhileLess(key: nat, ghost m: nat) returns (df: nat, bucketIdx: nat, ghost i: nat)
      requires 0 < buckets.Length && Sane(buckets[..], values, hash, m)
      ensures i <= buckets.Length && df == Df(hash(key), i)
      ensures bucketIdx == Walk(Home(hash(key), buckets.Length), i, buckets.Length) && bucketIdx < buckets.Length
      ensures Passed(buckets[..], hash(key), i) && NotBefore(buckets[..], values, hash, key, i)
      ensures buckets[bucketIdx].df <= df
    {
      hide Sane, NotBefore, Df, Home, Walk, Next, Passed, Free;
      ghost var s, n := buckets[..], buckets.Length;
      var mh := hash(key);
      df := DIST_INC + mh % DIST_INC;
      bucketIdx := Home(mh, buckets.Length);
      i := 0;
      SearchStart(s, values, hash, key);
      DfStart(mh, bucketIdx, n);
      PassedStart(s, mh);
      while df < buckets[bucketIdx].df
        invariant i <= n && df == Df(mh, i) && bucketIdx == Walk(Home(mh, n), i, n) && bucketIdx < n
        invariant Passed(s, mh, i) && NotBefore(s, values, hash, key, i)
        decreases n - i
      {
        LastProbe(s, values, hash, m, key, i);
        SearchOn(s, values, hash, m, key, i);
        PassedNext(s, mh, i);
        DfNext(mh, i, n);
        df, bucketIdx := df + DIST_INC, Next(bucketIdx, buckets.Length);
        i := i + 1;
      }
    }

    /** The bucket of value `m` goes where its search has ended. */
    method HangIn(df: nat, bucketIdx: nat, m: nat, ghost i: nat, ghost e: nat)
      requires 1 < buckets.Length && Sane(buckets[..], values, hash, m) && m < |values| && Free(buckets[..], e)
      requires i <= buckets.Length && Passed(buckets[..], hash(values[m].0), i) && df == Df(hash(values[m].0), i)
      requires bucketIdx == Walk(Home(hash(values[m].0), buckets.Length), i, buckets.Length)
      requires bucketIdx < buckets.Length
      requires buckets[bucketIdx].df <= df
      modifies buckets
      ensures Sane(buckets[..], values, hash, m + 1) && Rests(buckets[..])
    {
      hide Sane, Df, Home, Walk, Passed, Free, Fits, ShiftedUp, Rests, Neighbours;
      ghost var s := buckets[..];
      StopsEarly(s, hash(values[m].0), i, e);
      SaneNeighbours(s, values, hash, m);
      FitsThere(s, values, hash, m, hash(values[m].0), i, m);
      ghost var g := PlaceAndShiftUp(buckets, Bucket(df, m), bucketIdx, e);
      UpSane(s, buckets[..], values, hash, m, bucketIdx, g, Bucket(df, m), i);
      UpRests(s, buckets[..], bucketIdx, g, Bucket(df, m), hash(values[m].0), i);
    }

    /** `clear_and_fill_buckets_from_values`. */
    method ClearAndFillBucketsFromValues()
      requires |values| < buckets.Length && 1 < buckets.Length
      modifies buckets
      ensures Sane(buckets[..], values, hash, |values|) && Rests(buckets[..])
    {
      hide Sane, Df, Home, Walk, Passed, Free, NotBefore, OneToOne, Rests;
      for b := 0 to buckets.Length
        invariant forall k :: 0 <= k < b ==> buckets[k] == Bucket(0, 0)
      {
        buckets[b] := Bucket(0, 0);
      }
      EmptySane(buckets[..], values, hash);
      RestsAt(buckets[..], 0);
      for valueIdx := 0 to |values|
        invariant Sane(buckets[..], values, hash, valueIdx) && Rests(buckets[..])
      {
        SaneOneToOne(buckets[..], values, hash, valueIdx);
        ghost var e := SomeFree(buckets[..], valueIdx);
        var df, bucketIdx;
        ghost var i;
        df, bucketIdx, i := NextWhileLess(values[valueIdx].0, valueIdx);
        HangIn(df, bucketIdx, valueIdx, i, e);
      }
    }

    /** Twice the buckets, filled again from the values. At the largest number of buckets the value that was pushed
        last is taken back instead, and it fails. */
    method IncreaseSize() returns (ok: bool)
      requires 2 <= bits <= MAX_BITS && 4 <= buckets.Length == Pow2(bits) && maxBucketCapacity == Capacity(bits)
      requires |values| == maxBucketCapacity + 1
      modifies `values, `buckets, `maxBucketCapacity, `bits
      ensures ok <==> old(buckets.Length) < 0x1_0000_0000
      ensures ok <==> old(bits) < MAX_BITS
      ensures ok ==>
                && values == old(values) && fresh(buckets) && bits == old(bits) + 1
                && buckets.Length == Pow2(bits) == 2 * old(buckets.Length)
                && maxBucketCapacity == Capacity(bits) && |values| <= maxBucketCapacity
                && Sane(buckets[..], values, hash, |values|) && Rests(buckets[..])
      ensures !ok ==>
                && values == old(values)[..|old(values)| - 1] && buckets == old(buckets) && bits == old(bits)
                && maxBucketCapacity == old(maxBucketCapacity)
    {
      hide Sane, Rests, Pow2, MaxCapacity, MaxBuckets;
      CapacityMax(bits);
      if maxBucketCapacity == MaxBuckets() {
        values := values[..|values| - 1];
        return false;
      }
      RoomDoubles(bits);
      bits := bits + 1;
      buckets := new Bucket[2 * buckets.Length](_ => Bucket(0, 0));
      maxBucketCapacity := if buckets.Length == MaxBuckets() then MaxBuckets() else MaxCapacity(buckets.Length);
      ClearAndFillBucketsFromValues();
      return true;
    }

    /** Adds a key where its search has ended. It fails, and changes nothing, only if every index is taken. */
    method DoPlaceElement(df: nat, bucketIdx: nat, key: nat, value: nat, ghost i: nat) returns (ok: bool, idx: nat)
      requires Valid() && i <= buckets.Length && Passed(buckets[..], hash(key), i) && df == Df(hash(key), i)
      requires bucketIdx == Walk(Home(hash(key), buckets.Length), i, buckets.Length) && bucketIdx < buckets.Length
      requires buckets[bucketIdx].df <= df && forall k :: 0 <= k < |values| ==> values[k].0 != key
      modifies `values, `buckets, `maxBucketCapacity, `bits, buckets
      ensures Valid() && (ok <==> |old(values)| < 0x1_0000_0000)
      ensures ok ==> bits == old(bits) + if |values| > Capacity(old(bits)) then 1 else 0
      ensures buckets == old(buckets) || fresh(buckets)
      ensures ok ==> idx == |old(values)| && values == old(values) + [(key, value)]
      ensures ok ==> Contents() == old(Contents())[key := value]
      ensures !ok ==> values == old(values) && buckets == old(buckets) && buckets[..] == old(buckets[..])
    {
      hide Sane, Df, Home, Walk, Passed, Free, NotBefore, OneToOne, MapOf, Pow2, MaxBuckets, MaxCapacity, Capacity,
           Rests;
      ghost var was := values;
      MapOfAppend(values, (key, value));
      SaneMore(buckets[..], values, hash, |values|, (key, value));
      SaneOneToOne(buckets[..], values, hash, |values|);
      CapacityRoom(bits, |values|);
      idx := |values|;
      values := values + [(key, value)];
      ok := true;
      if |values| > maxBucketCapacity {
        ok := IncreaseSize();
        assert !ok ==> values == was;
      } else {
        ghost var e := SomeFree(buckets[..], idx);
        HangIn(df, bucketIdx, idx, i, e);
      }
    }

    /** Finds the key, or adds it with `value`. */
    method TryEmplace(key: nat, value: nat) returns (ok: bool, idx: nat, inserted: bool)
      requires Valid()
      modifies `values, `buckets, `maxBucketCapacity, `bits, buckets
      ensures Valid() && (buckets == old(buckets) || fresh(buckets))
      ensures ok <==> (exists k :: 0 <= k < |old(values)| && old(values)[k].0 == key) || |old(values)| < 0x1_0000_0000
      ensures inserted ==> bits == old(bits) + if |values| > Capacity(old(bits)) then 1 else 0
      ensures ok ==> idx < |values| && values[idx].0 == key
      ensures inserted <==> ok && forall k :: 0 <= k < |old(values)| ==> old(values)[k].0 != key
      ensures values == if inserted then old(values) + [(key, value)] else old(values)
      ensures Contents() == if inserted then old(Contents())[key := value] else old(Contents())
      ensures !inserted ==> buckets == old(buckets) && buckets[..] == old(buckets[..])
    {
      hide Sane, Df, Home, Walk, Next, Passed, Free, NotBefore, OneToOne, MapOf, Absent, DistinctKeys, MaxBuckets,
           Rests, Pow2, Capacity;
      ghost var s, n := buckets[..], buckets.Length;
      SaneOneToOne(s, values, hash, |values|);
      var mh := hash(key);
      var df := DIST_INC + mh % DIST_INC;
      var bucketIdx := Home(mh, buckets.Length);
      ghost var i := 0;
      SearchStart(s, values, hash, key);
      DfStart(mh, bucketIdx, n);
      PassedStart(s, mh);
      while true
        invariant i <= n && df == Df(mh, i) && bucketIdx == Walk(Home(mh, n), i, n) && bucketIdx < n
        invariant Passed(s, mh, i) && NotBefore(s, values, hash, key, i)
        invariant Valid() && buckets == old(buckets) && buckets[..] == s && values == old(values) && bits == old(bits)
        decreases n - i
      {
        LastProbe(s, values, hash, |values|, key, i);
        if df == buckets[bucketIdx].df {
          if key == values[buckets[bucketIdx].idx].0 {
            return true, buckets[bucketIdx].idx, false;
          }
        } else if df > buckets[bucketIdx].df {
          SearchOver(s, values, hash, |values|, key, i);
          AbsentKey(s, values, hash, |values|, key);
          ok, idx := DoPlaceElement(df, bucketIdx, key, value, i);
          return ok, idx, ok;
        }
        PassedOn(s, values, hash, |values|, key, i);
        df, bucketIdx := df + DIST_INC, Next(bucketIdx, buckets.Length);
        i := i + 1;
      }
    }

    /** The same, but the value is pushed first and taken back when the key is there already or there is no room. */
    method Emplace(key: nat, value: nat) returns (ok: bool, idx: nat, inserted: bool)
      requires Valid()
      modifies `values, `buckets, `maxBucketCapacity, `bits, buckets
      ensures Valid() && (buckets == old(buckets) || fresh(buckets))
      ensures ok <==> (exists k :: 0 <= k < |old(values)| && old(values)[k].0 == key) || |old(values)| < 0x1_0000_0000
      ensures inserted ==> bits == old(bits) + if |values| > Capacity(old(bits)) then 1 else 0
      ensures ok ==> idx < |values| && values[idx].0 == key
      ensures inserted <==> ok && forall k :: 0 <= k < |old(values)| ==> old(values)[k].0 != key
      ensures values == if inserted then old(values) + [(key, value)] else old(values)
      ensures Contents() == if inserted then old(Contents())[key := value] else old(Contents())
      ensures !inserted ==> buckets == old(buckets) && buckets[..] == old(buckets[..])
    {
      hide Sane, Df, Home, Walk, Next, Passed, Free, NotBefore, OneToOne, MapOf, Absent, DistinctKeys, MaxBuckets,
           Rests, Pow2, Capacity;
      ghost var s, n, m := buckets[..], buckets.Length, |values|;
      SaneOneToOne(s, values, hash, m);
      SaneMore(s, values, hash, m, (key, value));
      CapacityRoom(bits, m);
      values := values + [(key, value)];
      ghost var vals := values;
      var mh := hash(key);
      var df := DIST_INC + mh % DIST_INC;
      var bucketIdx := Home(mh, buckets.Length);
      ghost var i := 0;
      SearchStart(s, vals, hash, key);
      DfStart(mh, bucketIdx, n);
      PassedStart(s, mh);
      LastProbe(s, vals, hash, m, key, 0);
      while df <= buckets[bucketIdx].df
        invariant i <= n && df == Df(mh, i) && bucketIdx == Walk(Home(mh, n), i, n) && bucketIdx < n
        invariant Passed(s, mh, i) && NotBefore(s, vals, hash, key, i)
        invariant buckets == old(buckets) && buckets[..] == s && values == vals && Sane(s, vals, hash, m)
        invariant maxBucketCapacity == old(maxBucketCapacity) && bits == old(bits)
        decreases n - i
      {
        LastProbe(s, vals, hash, m, key, i);
        if df == buckets[bucketIdx].df && key == values[buckets[bucketIdx].idx].0 {
          values := values[..|values| - 1];
          assert values == old(values);
          return true, buckets[bucketIdx].idx, false;
        }
        PassedOn(s, vals, hash, m, key, i);
        df, bucketIdx := df + DIST_INC, Next(bucketIdx, buckets.Length);
        i := i + 1;
      }
      SearchOver(s, vals, hash, m, key, i);
      AbsentKey(s, vals, hash, m, key);
      assert forall k :: 0 <= k < m ==> vals[k].0 == old(values)[k].0;
      idx, ok := |values| - 1, true;
      MapOfAppend(old(values), (key, value));
      if |values| > maxBucketCapacity {
        ok := IncreaseSize();
        assert !ok ==> values == old(values);
      } else {
        ghost var e := SomeFree(s, m);
        HangIn(df, bucketIdx, idx, i, e);
      }
      inserted := ok;
    }

    /** From home on, the bucket that points at value `v`. There is one before any free bucket. */
    method BucketOf(v: nat, start: nat, ghost c: nat, ghost j: nat) returns (bucketIdx: nat)
      requires 0 < buckets.Length && PlacedAs(buckets[..], values, hash, c, j) && Neighbours(buckets[..])
      requires PointsAt(buckets[..], c, v) && start == Home(hash(values[v].0), buckets.Length)
      requires forall b: nat :: PointsAt(buckets[..], b, v) ==> b == c
      ensures bucketIdx == c
    {
      hide Home, Df, Neighbours, Walk, Next;
      ghost var s, n := buckets[..], buckets.Length;
      bucketIdx := start;
      ghost var i := 0;
      DfStart(hash(values[v].0), start, n);
      AtHome(s, values, hash, c, j, v);
      while v != buckets[bucketIdx].idx
        invariant i <= j && bucketIdx == Walk(start, i, n) && bucketIdx < n
        decreases j - i
      {
        assert bucketIdx != c;
        DfNext(hash(values[v].0), i, n);
        bucketIdx := Next(bucketIdx, buckets.Length);
        i := i + 1;
      }
      Backward(s, values, hash, c, j, i);
      DfPositive(hash(values[v].0), i);
      assert PointsAt(s, bucketIdx, v);
    }

    /** Removes the value a bucket points at: the bucket first, then the last value takes the value's place. */
    method DoErase(bucketIdx: nat)
      requires Valid() && bucketIdx < buckets.Length && buckets[bucketIdx].df > 0 && buckets[bucketIdx].idx < |values|
      modifies `values, buckets
      ensures Valid() && Contents() == old(Contents()) - {old(values[buckets[bucketIdx].idx].0)}
      ensures |values| + 1 == old(|values|)
    {
      hide Sane, SaneBut, AllBut, Home, Df, Walk, Passed, Free, OneToOne, MapOf, ShiftedDown, DistinctKeys, AtRest,
           Neighbours, Capacity, Pow2;
      ghost var s, vals, m := buckets[..], values, |values|;
      SaneNeighbours(s, values, hash, m);
      ghost var e: nat :| AtRest(s, e);
      var v := buckets[bucketIdx].idx;
      ghost var g := EraseAndShiftDown(buckets, bucketIdx, e);
      ghost var t := buckets[..];
      DownSane(s, t, values, hash, m, bucketIdx, g);
      MapOfErase(vals, v);
      if v != |values| - 1 {
        var val := values[|values| - 1];
        ghost var c, j := LastBucket(t, vals, hash, m, v);
        LastUnique(t, m, v, c, |values| - 1);
        var start := Home(hash(val.0), buckets.Length);
        var back := BucketOf(|values| - 1, start, c, j);
        values := values[v := val];
        buckets[back] := Bucket(buckets[back].df, v);
        assert buckets[..] == t[c := Bucket(t[c].df, v)];
        Renumbered(t, vals, hash, m, v, c);
      } else {
        PopLast(t, vals, hash, m);
        assert vals[v := vals[m - 1]] == vals;
      }
      values := values[..|values| - 1];
      LessRests(buckets[..], values, hash, m - 1);
    }

    method EraseKey(key: nat) returns (erased: nat)
      requires Valid()
      modifies `values, buckets
      ensures Valid() && Contents() == old(Contents()) - {key}
      ensures erased == if key in old(Contents()) then 1 else 0
    {
      hide Sane, Df, Home, Walk, Next, Passed, Free, NotBefore, OneToOne, MapOf, Absent;
      MapOfIs(values);
      if |values| == 0 { return 0; }
      ghost var s, n := buckets[..], buckets.Length;
      var df, bucketIdx;
      ghost var i;
      df, bucketIdx, i := NextWhileLess(key, |values|);
      LastProbe(s, values, hash, |values|, key, i);
      DfPositive(hash(key), i);
      while df == buckets[bucketIdx].df && key != values[buckets[bucketIdx].idx].0
        invariant i <= n && df == Df(hash(key), i) && bucketIdx == Walk(Home(hash(key), n), i, n) && bucketIdx < n
        invariant Passed(s, hash(key), i) && NotBefore(s, values, hash, key, i) && buckets[bucketIdx].df <= df
        invariant df == buckets[bucketIdx].df ==> buckets[bucketIdx].df > 0 && buckets[bucketIdx].idx < |values|
        invariant Valid() && buckets[..] == s && values == old(values)
        decreases n - i
      {
        LastProbe(s, values, hash, |values|, key, i);
        PassedOn(s, values, hash, |values|, key, i);
        LastProbe(s, values, hash, |values|, key, i + 1);
        DfPositive(hash(key), i + 1);
        Follower(s, values, hash, |values|, bucketIdx);
        df, bucketIdx := df + DIST_INC, Next(bucketIdx, buckets.Length);
        i := i + 1;
      }
      if df != buckets[bucketIdx].df {
        SearchOver(s, values, hash, |values|, key, i);
        AbsentKey(s, values, hash, |values|, key);
        return 0;
      }
      DoErase(bucketIdx);
      return 1;
    }

    /** `erase` of an iterator: the value at an index. */
    method EraseAt(valueIdx: nat)
      requires Valid() && valueIdx < |values|
      modifies `values, buckets
      ensures Valid() && Contents() == old(Contents()) - {old(values[valueIdx].0)}
      ensures |values| + 1 == old(|values|)
    {
      hide Sane, Df, Home, Walk, MapOf, DistinctKeys, OneToOne;
      ghost var s := buckets[..];
      SaneOneToOne(s, values, hash, |values|);
      ghost var c, j := BucketAt(s, values, hash, |values|, valueIdx);
      var start := Home(hash(values[valueIdx].0), buckets.Length);
      var bucketIdx := BucketOf(valueIdx, start, c, j);
      DoErase(bucketIdx);
    }

    method Clear()
      requires Valid()
      modifies `values, buckets
      ensures Valid() && Contents() == map[]
    {
      values := [];
      ClearAndFillBucketsFromValues();
    }
  }

  lemma AtHome(s: seq<Bucket>, vals: seq<Entry>, f: Hash, c: nat, j: nat, v: nat)
    requires PlacedAs(s, vals, f, c, j) && PointsAt(s, c, v)
    ensures v < |vals| && j < |s| && c == Walk(Home(f(vals[v].0), |s|), j, |s|)
  {
    hide Home, Walk, Df;
  }

  lemma Follower(s: seq<Bucket>, vals: seq<Entry>, f: Hash, m: nat, b: nat)
    requires Sane(s, vals, f, m) && b < |s| && s[b].df > 0
    ensures Next(b, |s|) < |s| && s[Next(b, |s|)].df <= s[b].df + DIST_INC
  {
    hide Home, Walk, Df, OneToOne;
    assert MayFollow(s[b].df, s[Next(b, |s|)].df);
  }

  lemma BucketAt(s: seq<Bucket>, vals: seq<Entry>, f: Hash, m: nat, v: nat) returns (c: nat, j: nat)
    requires Sane(s, vals, f, m) && v < m
    ensures Neighbours(s) && PointsAt(s, c, v) && PlacedAs(s, vals, f, c, j)
    ensures forall b: nat :: PointsAt(s, b, v) ==> b == c
  {
    hide Home, Walk, Df, Neighbours;
    assert Held(s, v);
    c :| PointsAt(s, c, v);
    assert Placed(s, vals, f, c);
    j :| PlacedAs(s, vals, f, c, j);
  }

  lemma LastBucket(s: seq<Bucket>, vals: seq<Entry>, f: Hash, m: nat, v: nat) returns (c: nat, j: nat)
    requires SaneBut(s, vals, f, m, v) && v + 1 < m
    ensures Neighbours(s) && AllBut(s, m, v) && PointsAt(s, c, m - 1) && PlacedAs(s, vals, f, c, j)
  {
    hide Home, Walk, Df, Neighbours;
    var last: nat := m - 1;
    assert Held(s, last);
    c :| PointsAt(s, c, last);
    assert Placed(s, vals, f, c);
    j :| PlacedAs(s, vals, f, c, j);
  }

  lemma LastUnique(s: seq<Bucket>, m: nat, v: nat, c: nat, last: nat)
    requires AllBut(s, m, v) && PointsAt(s, c, last)
    ensures forall b: nat :: PointsAt(s, b, last) ==> b == c
  {
  }

  lemma PassedOn(s: seq<Bucket>, vals: seq<Entry>, f: Hash, m: nat, key: nat, i: nat)
    requires 0 < |s| && Sane(s, vals, f, m) && i < |s| && NotBefore(s, vals, f, key, i)
    requires Passed(s, f(key), i) && s[Walk(Home(f(key), |s|), i, |s|)].df >= Df(f(key), i)
    requires var b := Walk(Home(f(key), |s|), i, |s|);
             s[b].df == Df(f(key), i) ==> s[b].idx < |vals| && vals[s[b].idx].0 != key
    ensures NotBefore(s, vals, f, key, i + 1) && Passed(s, f(key), i + 1)
    ensures Df(f(key), i + 1) == Df(f(key), i) + DIST_INC
    ensures Next(Walk(Home(f(key), |s|), i, |s|), |s|) == Walk(Home(f(key), |s|), i + 1, |s|) < |s|
  {
    hide Sane, NotBefore, Df, Home, Walk, Next, Passed, Free;
    SearchOn(s, vals, f, m, key, i);
    PassedNext(s, f(key), i);
    DfNext(f(key), i, |s|);
  }

  lemma PassedStart(s: seq<Bucket>, hash: nat)
    requires 0 < |s|
    ensures Passed(s, hash, 0)
  {
  }

  lemma SaneOneToOne(s: seq<Bucket>, vals: seq<Entry>, f: Hash, m: nat)
    requires Sane(s, vals, f, m)
    ensures OneToOne(s, m) && 0 < |s|
  {
  }

  lemma {:induction false} Pow2Monotone(a: nat, b: nat)
    requires a <= b
    ensures Pow2(a) <= Pow2(b) && (a < b ==> 2 * Pow2(a) <= Pow2(b))
    decreases b
  {
    if a < b { Pow2Monotone(a, b - 1); }
  }

  /** Only the largest table takes as many values as there may be buckets. */
  lemma CapacityMax(bits: nat)
    requires bits <= MAX_BITS
    ensures Pow2(bits) <= MaxBuckets() && (Pow2(bits) == MaxBuckets() <==> bits == MAX_BITS)
    ensures Capacity(bits) == MaxBuckets() <==> bits == MAX_BITS
  {
    hide Pow2, MaxCapacity;
    Pow2Monotone(bits, MAX_BITS);
    Pow2Positive(bits);
  }

  lemma Pow2Positive(k: nat)
    ensures Pow2(k) > 0
  {
  }

  /** When there is room for one more value, a bucket is free; when there is none and the table cannot grow, every
      index is taken. */
  lemma CapacityRoom(bits: nat, m: nat)
    requires bits <= MAX_BITS && m <= Capacity(bits)
    ensures m < Capacity(bits) ==> m < Pow2(bits)
    ensures m < 0x1_0000_0000 <==> m < Capacity(bits) || bits < MAX_BITS
  {
    hide Pow2, MaxCapacity;
    CapacityMax(bits);
  }

  lemma RoomDoubles(bits: nat)
    requires bits < MAX_BITS && Pow2(bits) >= 4
    ensures Pow2(bits + 1) == 2 * Pow2(bits)
    ensures Capacity(bits) + 1 <= Capacity(bits + 1) && Capacity(bits) + 1 <= Pow2(bits)
    ensures Pow2(bits + 1) == MaxBuckets() <==> bits + 1 == MAX_BITS
    ensures Capacity(bits + 1) == if bits + 1 == MAX_BITS then MaxBuckets() else MaxCapacity(Pow2(bits + 1))
  {
    hide MaxBuckets;
    CapacityMax(bits + 1);
    MoreRoom(Pow2(bits));
  }

  lemma MoreRoom(n: nat)
    requires n >= 4
    ensures MaxCapacity(n) + 1 <= MaxCapacity(2 * n) && MaxCapacity(n) + 1 <= n
  {
  }

  /** The bound on the load in numbers: `n * 0.8f` rounded down, which is four fifths for tables that are not huge. */
  lemma FourFifths(n: nat)
    ensures MaxCapacity(n) == (n as real * 0.800000011920928955078125).Floor
    ensures n < 0x100_0000 ==> MaxCapacity(n) == 4 * n / 5
  {
    var q, r := 13421773 * n / 0x100_0000, 13421773 * n % 0x100_0000;
    assert n as real * 0.800000011920928955078125 == q as real + r as real / 16777216.0;
  }

  lemma SaneNeighbours(s: seq<Bucket>, vals: seq<Entry>, f: Hash, m: nat)
    requires Sane(s, vals, f, m)
    ensures Neighbours(s)
  {
  }

  lemma LessRests(s: seq<Bucket>, vals: seq<Entry>, f: Hash, m: nat)
    requires Sane(s, vals, f, m) && m < |s|
    ensures Rests(s)
  {
    hide Rests, Sane, OneToOne, Free;
    SaneOneToOne(s, vals, f, m);
    var e := SomeFree(s, m);
    FreeRests(s, e);
  }

  /** The next probe: not found so far, and what the next bucket looks like. */
  lemma NextProbe(s: seq<Bucket>, vals: seq<Entry>, f: Hash, m: nat, key: nat, i: nat)
    requires Sane(s, vals, f, m) && i < |s| && NotBefore(s, vals, f, key, i)
    requires var b := Walk(Home(f(key), |s|), i, |s|);
             s[b].df == Df(f(key), i) ==> s[b].idx < |vals| && vals[s[b].idx].0 != key
    ensures NotBefore(s, vals, f, key, i + 1) && Df(f(key), i + 1) == Df(f(key), i) + DIST_INC
    ensures var b := Next(Walk(Home(f(key), |s|), i, |s|), |s|);
            && b == Walk(Home(f(key), |s|), i + 1, |s|) < |s|
            && (i + 1 < |s| && s[b].df == Df(f(key), i + 1) ==> s[b].idx < m <= |vals|)
  {
    hide Sane, NotBefore, Df, Home, Walk, Next;
    SearchOn(s, vals, f, m, key, i);
    DfNext(f(key), i, |s|);
    if i + 1 < |s| { Probed(s, vals, f, m, key, i + 1); }
  }

  /** Once round, the search is over; before, a bucket that looks right points at a value. */
  lemma LastProbe(s: seq<Bucket>, vals: seq<Entry>, f: Hash, m: nat, key: nat, i: nat)
    requires 0 < |s| && Sane(s, vals, f, m) && i <= |s|
    ensures var b := Walk(Home(f(key), |s|), i, |s|);
            && b < |s| && (i < |s| && s[b].df == Df(f(key), i) ==> s[b].idx < m <= |vals|)
            && (i == |s| ==> Df(f(key), i) > s[b].df)
  {
    hide Sane, Df, Home, Walk;
    if i < |s| {
      Probed(s, vals, f, m, key, i);
    } else {
      FarAway(s, vals, f, m, f(key), i, Walk(Home(f(key), |s|), i, |s|));
    }
  }

  lemma EmptySane(s: seq<Bucket>, vals: seq<Entry>, f: Hash)
    requires 0 < |s| && forall b :: 0 <= b < |s| ==> s[b] == Bucket(0, 0)
    ensures Sane(s, vals, f, 0)
  {
  }

  lemma DfStart(hash: nat, h: nat, n: nat)
    requires h < n
    ensures Df(hash, 0) == DIST_INC + hash % DIST_INC && Walk(h, 0, n) == h
  {
  }

  lemma DfNext(hash: nat, i: nat, n: nat)
    requires i < n
    ensures Df(hash, i + 1) == Df(hash, i) + DIST_INC
    ensures Next(Walk(Home(hash, n), i, n), n) == Walk(Home(hash, n), i + 1, n) < n
  {
    hide Home;
    WalkNext(Home(hash, n), i, n);
  }

  /** A probed bucket that looks right points at a value. */
  lemma Probed(s: seq<Bucket>, vals: seq<Entry>, f: Hash, m: nat, key: nat, i: nat)
    requires Sane(s, vals, f, m) && i < |s|
    ensures var b := Walk(Home(f(key), |s|), i, |s|);
            b < |s| && (s[b].df == Df(f(key), i) ==> s[b].df > 0 && s[b].idx < m <= |vals|)
  {
    hide Home, Sane;
    var b := Walk(Home(f(key), |s|), i, |s|);
    if s[b].df > 0 { Pointed(s, vals, f, m, b); }
  }

  lemma AbsentKey(s: seq<Bucket>, vals: seq<Entry>, f: Hash, m: nat, key: nat)
    requires Sane(s, vals, f, m) && Absent(s, vals, key)
    ensures forall i :: 0 <= i < m ==> vals[i].0 != key
  {
    hide Home, Neighbours, Placed;
    forall i: nat | i < m ensures vals[i].0 != key {
      assert Held(s, i);
      var b: nat :| PointsAt(s, b, i);
    }
  }

  // ----- where a new bucket goes -----

  /** The buckets from home up to the `i`th are all at least as far from theirs. */
  ghost predicate Passed(s: seq<Bucket>, hash: nat, i: nat)
    requires 0 < |s|
  {
    forall k: nat :: k < i && k < |s| ==> s[Walk(Home(hash, |s|), k, |s|)].df >= Df(hash, k)
  }

  lemma DfPositive(hash: nat, i: nat)
    ensures Df(hash, i) >= DIST_INC
  {
  }

  /** As long as a bucket is free, a search stops before it has gone round. */
  lemma StopsEarly(s: seq<Bucket>, hash: nat, i: nat, e: nat)
    requires 0 < |s| && Passed(s, hash, i) && Free(s, e) && i <= |s|
    ensures i < |s|
    ensures s[Walk(Home(hash, |s|), i, |s|)].df >= Df(hash, i) ==> i + 1 < |s|
  {
    hide Home, Df, Walk;
    var h := Home(hash, |s|);
    var a := Ahead(h, e, |s|);
    DfPositive(hash, a);
    assert Walk(h, a, |s|) == e;
  }

  lemma PassedNext(s: seq<Bucket>, hash: nat, i: nat)
    requires 0 < |s| && i <= |s| && Passed(s, hash, i) && s[Walk(Home(hash, |s|), i, |s|)].df >= Df(hash, i)
    ensures Passed(s, hash, i + 1)
  {
    hide Home, Df, Walk;
  }

  lemma WalkBack(h: nat, i: nat, n: nat)
    requires h < n && i < n
    ensures Walk(Walk(h, i, n), n - 1, n) == if i > 0 then Walk(h, i - 1, n) else if h == 0 then n - 1 else h - 1
  {
  }

  lemma HomeDf(hash: nat)
    ensures Df(hash, 0) < 2 * DIST_INC && forall i: nat :: Df(hash, i + 1) == Df(hash, i) + DIST_INC
  {
  }

  lemma FitsThere(s: seq<Bucket>, vals: seq<Entry>, f: Hash, m: nat, hash: nat, i: nat, idx: nat)
    requires Sane(s, vals, f, m) && i < |s| && Passed(s, hash, i)
    requires s[Walk(Home(hash, |s|), i, |s|)].df <= Df(hash, i)
    ensures Fits(s, Walk(Home(hash, |s|), i, |s|), Bucket(Df(hash, i), idx))
  {
    var n, h := |s|, Home(hash, |s|);
    SaneFull(s, vals, f, m);
    hide Home, Walk, Df, Sane;
    WalkBack(h, i, n);
    HomeDf(hash);
    DfPositive(hash, i);
    if i > 0 {
      var k: nat := i - 1;
      DfPositive(hash, k);
      assert s[Walk(h, k, n)].df >= Df(hash, k);
      assert Df(hash, k + 1) == Df(hash, k) + DIST_INC;
    }
  }

  /** More values do not matter to the buckets. */
  lemma SaneMore(s: seq<Bucket>, vals: seq<Entry>, f: Hash, m: nat, x: Entry)
    requires Sane(s, vals, f, m)
    ensures Sane(s, vals + [x], f, m)
  {
    hide Home, Neighbours, Walk, Df;
    forall b: nat | b < |s| ensures Placed(s, vals + [x], f, b) {
      assert Placed(s, vals, f, b);
      if s[b].df > 0 {
        var j: nat :| PlacedAs(s, vals, f, b, j);
        assert PlacedAs(s, vals + [x], f, b, j);
      }
    }
  }

  // ----- taking a value out -----

  /** Without its last value, which has no bucket any more. */
  lemma PopLast(s: seq<Bucket>, vals: seq<Entry>, f: Hash, m: nat)
    requires m > 0 && |vals| == m && SaneBut(s, vals, f, m, m - 1)
    ensures Sane(s, vals[..m - 1], f, m - 1)
  {
    hide Home, Neighbours, Walk, Df;
    var w := vals[..m - 1];
    forall b: nat | b < |s| ensures Placed(s, w, f, b) {
      assert Placed(s, vals, f, b);
      if s[b].df > 0 {
        var j: nat :| PlacedAs(s, vals, f, b, j);
        assert PlacedAs(s, w, f, b, j);
      }
    }
  }

  /** The last value moves to place `v`, and its bucket with it. */
  lemma Renumbered(s: seq<Bucket>, vals: seq<Entry>, f: Hash, m: nat, v: nat, c: nat)
    requires v + 1 < m && |vals| == m && SaneBut(s, vals, f, m, v) && PointsAt(s, c, m - 1)
    ensures Sane(s[c := Bucket(s[c].df, v)], vals[v := vals[m - 1]][..m - 1], f, m - 1)
  {
    hide Home, Neighbours, Walk, Df;
    var t, w := s[c := Bucket(s[c].df, v)], vals[v := vals[m - 1]][..m - 1];
    assert Neighbours(t) by { SameNeighbours(s, t); }
    forall b: nat | b < |t| ensures Placed(t, w, f, b) {
      assert Placed(s, vals, f, b);
      if s[b].df > 0 {
        var j: nat :| PlacedAs(s, vals, f, b, j);
        assert PlacedAs(t, w, f, b, j);
      }
    }
    forall i: nat | i < m - 1 ensures Held(t, i) {
      if i == v {
        assert PointsAt(t, c, i);
      } else {
        assert Held(s, i);
        var b: nat :| PointsAt(s, b, i);
        assert PointsAt(t, b, i);
      }
    }
  }

  lemma SameNeighbours(s: seq<Bucket>, t: seq<Bucket>)
    requires Neighbours(s) && |t| == |s| && forall b :: 0 <= b < |s| ==> t[b].df == s[b].df
    ensures Neighbours(t)
  {
  }

  // ----- contents -----

  lemma {:induction false} MapOfIs(vals: seq<Entry>)
    requires DistinctKeys(vals)
    ensures forall k :: k in MapOf(vals) <==> exists i :: 0 <= i < |vals| && vals[i].0 == k
    ensures forall i :: 0 <= i < |vals| ==> vals[i].0 in MapOf(vals) && MapOf(vals)[vals[i].0] == vals[i].1
  {
    if vals != [] {
      var n := |vals| - 1;
      var w := vals[..n];
      MapOfIs(w);
      assert forall i :: 0 <= i < n ==> w[i] == vals[i];
      forall k ensures k in MapOf(vals) <==> exists i :: 0 <= i < |vals| && vals[i].0 == k {
        if i :| 0 <= i < |vals| && vals[i].0 == k { assert i < n ==> w[i].0 == k; }
        if k in MapOf(w) {
          var i :| 0 <= i < |w| && w[i].0 == k;
          assert vals[i].0 == k;
        }
        assert vals[n].0 == k ==> k in MapOf(vals);
      }
    }
  }

  lemma EraseKeys(vals: seq<Entry>, v: nat)
    requires DistinctKeys(vals) && v < |vals|
    ensures var w := vals[v := vals[|vals| - 1]][..|vals| - 1];
            DistinctKeys(w) && forall i :: 0 <= i < |w| ==> w[i].0 != vals[v].0
  {
  }

  lemma MapOfErase(vals: seq<Entry>, v: nat)
    requires DistinctKeys(vals) && v < |vals|
    ensures var w := vals[v := vals[|vals| - 1]][..|vals| - 1];
            DistinctKeys(w) && MapOf(w) == MapOf(vals) - {vals[v].0}
  {
    hide MapOf;
    var n := |vals| - 1;
    var w := vals[v := vals[n]][..n];
    EraseKeys(vals, v);
    MapOfIs(vals);
    MapOfIs(w);
    var a, b := MapOf(w), MapOf(vals) - {vals[v].0};
    forall k | k in a ensures k in b && a[k] == b[k] {
      var i :| 0 <= i < |w| && w[i].0 == k;
      assert w[i] == vals[if i == v then n else i];
    }
    forall k | k in b ensures k in a {
      var i :| 0 <= i < |vals| && vals[i].0 == k;
      assert w[if i == n then v else i].0 == k;
    }
    forall k | k in a ensures a[k] == b[k] {
      var i :| 0 <= i < |w| && w[i].0 == k;
      assert vals[if i == v then n else i] == w[i];
    }
  }

  lemma MapOfAppend(vals: seq<Entry>, x: Entry)
    requires DistinctKeys(vals) && forall i :: 0 <= i < |vals| ==> vals[i].0 != x.0
    ensures DistinctKeys(vals + [x]) && MapOf(vals + [x]) == MapOf(vals)[x.0 := x.1]
  {
    assert (vals + [x])[..|vals|] == vals;
  }
}
