/**
 * The compact AnchorHash: the same arrays over 16-bit bucket ids, a lenient
 * REMOVEBUCKET, a GETPATH diagnostic and probes drawn from a small PRNG.
 *
 * The PRNG seeding (fleaInit), its round (fleaRound) and the range reduction
 * (fastMod) are not part of this model; lookups take them as function
 * parameters and only rely on fastMod(x, m) < m for m > 0.
 */
module Compact {
  import opened AnchorModel

  /** Bucket ids, statuses and N are uint16. */
  const IdLimit: nat := 0x1_0000

  /** The four 32-bit words fleaInit produces and fleaRound transforms. */
  datatype Flea = Flea(a: bv32, b: bv32, c: bv32, d: bv32)

  /** The one property lookups need of fastMod: it reduces into [0, m). */
  ghost predicate Bounded(fastMod: (nat, nat) -> nat) {
    forall x: nat, m: nat {:trigger fastMod(x, m)} :: 0 < m ==> fastMod(x, m) < m
  }

  // ---------------------------------------------------------------------------
  // Lookups on a store

  /**
   * The successors the inner loop of GETPATH appends after probing h with
   * threshold t, in visiting order.
   */
  function ChaseRest(s: Store, t: nat, h: nat): (p: seq<nat>)
    requires Inv(s) && h < |s.A| && s.L[h] < t
    decreases s.A[h]
  {
    if s.A[h] < t then [] else [s.K[h]] + ChaseRest(s, t, s.K[h])
  }

  /** Every id in p is below n. */
  ghost predicate Below(p: seq<nat>, n: nat) {
    forall i | 0 <= i < |p| :: p[i] < n
  }

  /** The successor walk visits only buckets and stops where Chase stops. */
  lemma {:induction false} ChaseRestEnds(s: Store, t: nat, h: nat)
    requires Inv(s) && h < |s.A| && s.L[h] < t
    ensures Below(ChaseRest(s, t, h), |s.A|)
    ensures ChaseRest(s, t, h) == [] ==> Chase(s, t, h) == h
    ensures ChaseRest(s, t, h) != [] ==> ChaseRest(s, t, h)[|ChaseRest(s, t, h)| - 1] == Chase(s, t, h)
    decreases s.A[h]
  {
    if s.A[h] >= t {
      var k := s.K[h];
      assert s.L[k] <= s.L[h];
      ChaseRestEnds(s, t, k);
      BelowConcat([k], ChaseRest(s, t, k), |s.A|);
    }
  }

  lemma BelowConcat(p: seq<nat>, q: seq<nat>, n: nat)
    requires Below(p, n) && Below(q, n)
    ensures Below(p + q, n)
  {
    forall i | 0 <= i < |p + q|
      ensures (p + q)[i] < n
    {
      if i >= |p| {
        assert (p + q)[i] == q[i - |p|];
      }
    }
  }

  /**
   * GETBUCKET from bucket b with PRNG state st: each removed bucket left costs
   * one fleaRound; its probe fastMod(d, A[b]) is chased to a bucket of lower
   * status. Ends on a working bucket.
   */
  function Probe(s: Store, st: Flea, b: nat, fleaRound: Flea -> Flea, fastMod: (nat, nat) -> nat): (r: nat)
    requires Inv(s) && b < |s.A| && Bounded(fastMod)
    ensures r < |s.A| && s.A[r] == 0
    decreases s.A[b]
  {
    if s.A[b] == 0 then b
    else
      var next := fleaRound(st);
      var h := fastMod(next.d as nat, s.A[b]);
      assert h < s.A[b] && s.L[h] <= h;
      Probe(s, next, Chase(s, s.A[b], h), fleaRound, fastMod)
  }

  /** The ids GETPATH appends after reaching b: each probe, then its successors. */
  function PathFrom(s: Store, st: Flea, b: nat, fleaRound: Flea -> Flea, fastMod: (nat, nat) -> nat): (p: seq<nat>)
    requires Inv(s) && b < |s.A| && Bounded(fastMod)
    decreases s.A[b]
  {
    if s.A[b] == 0 then []
    else
      var next := fleaRound(st);
      var h := fastMod(next.d as nat, s.A[b]);
      assert h < s.A[b] && s.L[h] <= h;
      [h] + (ChaseRest(s, s.A[b], h) + PathFrom(s, next, Chase(s, s.A[b], h), fleaRound, fastMod))
  }

  /** The first bucket a key lands on: its initial PRNG word reduced modulo the capacity. */
  function Start(s: Store, key: bv64, fleaInit: bv64 -> Flea, fastMod: (nat, nat) -> nat): (b: nat)
    requires |s.A| > 0 && Bounded(fastMod)
    ensures b < |s.A|
  {
    fastMod(fleaInit(key).d as nat, |s.A|)
  }

  /** The bucket GETBUCKET assigns to key. */
  function Bucket(s: Store, key: bv64, fleaInit: bv64 -> Flea, fleaRound: Flea -> Flea, fastMod: (nat, nat) -> nat): (r: nat)
    requires Inv(s) && |s.A| > 0 && Bounded(fastMod)
    ensures r < |s.A| && s.A[r] == 0
  {
    Probe(s, fleaInit(key), Start(s, key, fleaInit, fastMod), fleaRound, fastMod)
  }

  /** The path GETPATH appends for key. */
  function Path(s: Store, key: bv64, fleaInit: bv64 -> Flea, fleaRound: Flea -> Flea, fastMod: (nat, nat) -> nat): (p: seq<nat>)
    requires Inv(s) && |s.A| > 0 && Bounded(fastMod)
  {
    var b := Start(s, key, fleaInit, fastMod);
    [b] + PathFrom(s, fleaInit(key), b, fleaRound, fastMod)
  }

  /** Every id on the path from b is a bucket, and the path ends where the probe ends. */
  lemma {:induction false} PathFromEnds(s: Store, st: Flea, b: nat, fleaRound: Flea -> Flea, fastMod: (nat, nat) -> nat)
    requires Inv(s) && b < |s.A| && Bounded(fastMod)
    ensures Below(PathFrom(s, st, b, fleaRound, fastMod), |s.A|)
    ensures PathFrom(s, st, b, fleaRound, fastMod) == [] ==> Probe(s, st, b, fleaRound, fastMod) == b
    ensures var p := PathFrom(s, st, b, fleaRound, fastMod);
      p != [] ==> p[|p| - 1] == Probe(s, st, b, fleaRound, fastMod)
    decreases s.A[b]
  {
    if s.A[b] != 0 {
      var next := fleaRound(st);
      var t := s.A[b];
      var h := fastMod(next.d as nat, t);
      assert h < t && s.L[h] <= h;
      var c := Chase(s, t, h);
      ChaseRestEnds(s, t, h);
      PathFromEnds(s, next, c, fleaRound, fastMod);
      var rest := ChaseRest(s, t, h);
      var tail := PathFrom(s, next, c, fleaRound, fastMod);
      assert PathFrom(s, st, b, fleaRound, fastMod) == [h] + (rest + tail);
      BelowConcat(rest, tail, |s.A|);
      BelowConcat([h], rest + tail, |s.A|);
    }
  }

  /** The last id of a key's path is the bucket GETBUCKET assigns it, and every id on it is a bucket. */
  lemma PathEndsAtBucket(s: Store, key: bv64, fleaInit: bv64 -> Flea, fleaRound: Flea -> Flea, fastMod: (nat, nat) -> nat)
    requires Inv(s) && |s.A| > 0 && Bounded(fastMod)
    ensures var p := Path(s, key, fleaInit, fleaRound, fastMod);
      && |p| >= 1
      && Below(p, |s.A|)
      && p[|p| - 1] == Bucket(s, key, fleaInit, fleaRound, fastMod)
  {
    var b := Start(s, key, fleaInit, fastMod);
    PathFromEnds(s, fleaInit(key), b, fleaRound, fastMod);
    BelowConcat([b], PathFrom(s, fleaInit(key), b, fleaRound, fastMod), |s.A|);
  }

  // ---------------------------------------------------------------------------
  // The lenient removal

  /** REMOVEBUCKET(b) of the compact variant: nothing happens unless b is working. */
  function LenientRemove(s: Store, b: nat): (r: Store)
    requires Shape(s) && b < |s.A| && (s.A[b] == 0 ==> s.N >= 1)
    ensures Shape(r) && |r.A| == |s.A|
    ensures s.A[b] != 0 ==> r == s
    ensures s.A[b] == 0 ==> r == Remove(s, b)
  {
    if s.A[b] != 0 then s else Remove(s, b)
  }

  /** Removing a bucket twice is the same as removing it once. */
  lemma DuplicateRemovalIgnored(s: Store, b: nat)
    requires Inv(s) && b < |s.A| && s.A[b] == 0 && s.N >= 2
    ensures var r := Remove(s, b); r.A[b] != 0 && LenientRemove(r, b) == r
  {
  }

  // ---------------------------------------------------------------------------
  // Construction as written

  /**
   * The store NewCompactAnchor(C, w) builds: A, R and N as INITANCHOR says,
   * but K, W and L hold b only below w and stay 0 above it.
   */
  function AsWrittenInitial(C: nat, w: nat): (s: Store)
    requires w <= C
    ensures Shape(s) && |s.A| == C && s.N == w && s.R == Descending(C, w)
    ensures w < C ==> s.W[w] == 0 && s.L[w] == 0 && s.K[w] == 0
    ensures forall b | 0 <= b < w :: s.W[b] == b && s.L[b] == b && s.K[b] == b
    ensures forall b | 0 <= b < C :: s.A[b] == Initial(C, w).A[b]
  {
    var id := seq(C, b => if b < w then b else 0);
    Store(seq(C, b => if b >= w then b else 0), id, id, id, Descending(C, w), w)
  }

  /** With an unused bucket, the constructor's store is not INITANCHOR's: W[w] is 0, not w. */
  lemma AsWrittenDiffers(C: nat, w: nat)
    requires 1 <= w < C
    ensures AsWrittenInitial(C, w) != Initial(C, w)
  {
    assert AsWrittenInitial(C, w).W[w] == 0;
    assert Initial(C, w).W[w] == w;
  }

  /** The as-written constructor still gets the stack right: A[R[i]] == C-1-i. */
  lemma AsWrittenStackOrdered(C: nat, w: nat)
    requires 1 <= w <= C
    ensures StackOrdered(AsWrittenInitial(C, w))
  {
    var s := AsWrittenInitial(C, w);
    forall i | 0 <= i < |s.R|
      ensures s.A[s.R[i]] == C - 1 - i
    {
      assert s.R[i] == C - 1 - i >= w;
      assert s.A[s.R[i]] == Initial(C, w).A[C - 1 - i];
    }
  }

  // The capacity-5 counterexample, one store per step.

  function Trap0(): Store { Store([0, 0, 2, 3, 4], [0, 1, 0, 0, 0], [0, 1, 0, 0, 0], [0, 1, 0, 0, 0], [4, 3, 2], 2) }
  function Trap1(): Store { Store([0, 0, 0, 3, 4], [2, 1, 0, 0, 0], [2, 1, 0, 0, 0], [0, 1, 2, 0, 0], [4, 3], 3) }
  function Trap2(): Store { Store([0, 0, 0, 0, 4], [3, 1, 0, 0, 0], [3, 1, 0, 0, 0], [0, 1, 2, 3, 0], [4], 4) }
  function Trap3(): Store { Store([0, 0, 0, 3, 4], [0, 1, 0, 0, 0], [0, 1, 0, 0, 0], [0, 1, 2, 0, 0], [4, 3], 3) }
  function Trap4(): Store { Store([2, 0, 0, 3, 4], [0, 1, 0, 0, 0], [0, 1, 0, 0, 0], [0, 1, 2, 0, 0], [4, 3, 0], 2) }

  lemma TrapStart()
    ensures AsWrittenInitial(5, 2) == Trap0()
  {
    var s := AsWrittenInitial(5, 2);
    assert Descending(5, 2) == [4, 3, 2];
    assert s.A[0] == 0 && s.A[1] == 0 && s.A[2] == 2 && s.A[3] == 3 && s.A[4] == 4;
    assert s.A == Trap0().A;
    assert s.W[0] == 0 && s.W[1] == 1 && s.W[2] == 0 && s.W[3] == 0 && s.W[4] == 0;
    assert s.W == Trap0().W;
  }

  lemma TrapFirstAdd()
    ensures Shape(Trap0()) && Add(Trap0()) == Trap1()
  {
    var a := Add(Trap0());
    assert a.A == Trap1().A && a.W == Trap1().W && a.L == Trap1().L && a.K == Trap1().K;
  }

  lemma TrapSecondAdd()
    ensures Shape(Trap1()) && Add(Trap1()) == Trap2()
  {
    var b := Add(Trap1());
    assert b.A == Trap2().A && b.W == Trap2().W && b.L == Trap2().L && b.K == Trap2().K;
  }

  lemma TrapFirstRemove()
    ensures Shape(Trap2()) && Trap2().N >= 1 && LenientRemove(Trap2(), 3) == Trap3()
  {
    var a := Remove(Trap2(), 3);
    assert a.A == Trap3().A && a.W == Trap3().W && a.L == Trap3().L && a.K == Trap3().K;
  }

  lemma TrapSecondRemove()
    ensures Shape(Trap3()) && Trap3().N >= 1 && LenientRemove(Trap3(), 0) == Trap4()
  {
    var b := Remove(Trap3(), 0);
    assert b.A == Trap4().A && b.W == Trap4().W && b.L == Trap4().L && b.K == Trap4().K;
  }

  /** After the two adds, W[2] holds bucket 0, whose location is 0, not 2: the working list is broken. */
  lemma TrapNotListed()
    ensures Shape(Trap2()) && !Listed(Trap2()) && !Inv(Trap2())
    ensures Trap2().W[..4] == [3, 1, 0, 0]
  {
    var s := Trap2();
    assert s.W[2] == 0 && s.L[0] == 3;
    assert s.W[..4] == [3, 1, 0, 0];
  }

  /**
   * NewCompactAnchor(5, 2), two ADDBUCKETs, then REMOVEBUCKET(3) and
   * REMOVEBUCKET(0). After the adds W[0..4) is [3, 1, 0, 0]: working bucket 2
   * is missing and 0 is listed twice. After the removals bucket 0 is removed
   * (A[0] == 2) yet is its own successor, so the loop `A[h] >= A[b]` with
   * b == h == 0 never advances.
   */
  lemma AsWrittenTrap()
    ensures AsWrittenInitial(5, 2) == Trap0()
    ensures Shape(Trap0()) && Add(Trap0()) == Trap1()
    ensures Shape(Trap1()) && Add(Trap1()) == Trap2()
    ensures Trap2().W[..4] == [3, 1, 0, 0] && !Inv(Trap2())
    ensures Shape(Trap2()) && Trap2().N >= 1 && LenientRemove(Trap2(), 3) == Trap3()
    ensures Shape(Trap3()) && Trap3().N >= 1 && LenientRemove(Trap3(), 0) == Trap4()
    ensures Trap4().A[0] == 2 && Trap4().K[0] == 0
    ensures forall n: nat :: Hops(Trap4().K, 0, n) == 0
  {
    TrapStart();
    TrapFirstAdd();
    TrapSecondAdd();
    TrapFirstRemove();
    TrapSecondRemove();
    TrapNotListed();
    forall n: nat
      ensures Hops(Trap4().K, 0, n) == 0
    {
      SelfSuccessorStays(Trap4().K, 0, n);
    }
  }

  /** The successor hops the inner lookup loop makes from h. */
  function Hops(K: seq<nat>, h: nat, n: nat): (r: nat)
    requires h < |K| && forall i | 0 <= i < |K| :: K[i] < |K|
    ensures r < |K|
    decreases n
  {
    if n == 0 then h else Hops(K, K[h], n - 1)
  }

  /** A bucket that is its own successor is never left, however many hops the loop makes. */
  lemma {:induction false} SelfSuccessorStays(K: seq<nat>, h: nat, n: nat)
    requires h < |K| && (forall i | 0 <= i < |K| :: K[i] < |K|) && K[h] == h
    ensures Hops(K, h, n) == h
  {
    if n > 0 {
      SelfSuccessorStays(K, h, n - 1);
    }
  }

  // ---------------------------------------------------------------------------
  // The class

  /** Concatenation is associative. */
  lemma Shift(p: seq<nat>, q: seq<nat>, r: seq<nat>)
    ensures p + q + r == p + (q + r)
  {
  }

  /**
   * The two loops of NEWCOMPACTANCHOR: K, W and L get the identity below
   * upto and stay 0 above it; every bucket from buckets-1 down to used gets
   * its own id as status and is pushed on R.
   */
  method InitialArrays(buckets: nat, used: nat, upto: nat) returns (a: array<nat>, k: array<nat>, w: array<nat>, l: array<nat>, r: seq<nat>)
    requires 1 <= used <= buckets && used <= upto <= buckets
    ensures fresh(a) && fresh(k) && fresh(w) && fresh(l)
    ensures a != k && a != w && a != l && k != w && k != l && w != l
    ensures a[..] == Initial(buckets, used).A && r == Descending(buckets, used)
    ensures k[..] == w[..] == l[..] == seq(buckets, x => if x < upto then x else 0)
  {
    a := new nat[buckets](_ => 0);
    k := new nat[buckets](_ => 0);
    w := new nat[buckets](_ => 0);
    l := new nat[buckets](_ => 0);
    r := seq(buckets - used, _ => 0);
    for b := 0 to upto
      invariant forall i | 0 <= i < buckets :: k[i] == w[i] == l[i] == if i < b then i else 0
      invariant forall i | 0 <= i < buckets :: a[i] == 0
    {
      k[b], w[b], l[b] := b, b, b;
    }
    var b: int, i: nat := buckets - 1, 0;
    while b >= used
      invariant used - 1 <= b < buckets && i == buckets - 1 - b && |r| == buckets - used
      invariant forall j | 0 <= j < i :: r[j] == buckets - 1 - j
      invariant forall x | 0 <= x < buckets :: a[x] == if x > b then x else 0
      invariant forall x | 0 <= x < buckets :: k[x] == w[x] == l[x] == if x < upto then x else 0
      decreases b
    {
      a[b], r := b, r[i := b];
      b, i := b - 1, i + 1;
    }
  }

  class CompactAnchor {
    /** Status of each bucket: 0 when working, else |W_b| just after its removal. */
    const A: array<nat>
    /** Successor of each removed bucket. */
    const K: array<nat>
    /** Working buckets in W[0..N). */
    const W: array<nat>
    /** Most recent location of each bucket in W. */
    const L: array<nat>
    /** Removed buckets, most recent last. */
    var R: seq<nat>
    /** Number of working buckets. */
    var N: nat

    ghost function Snapshot(): Store
      reads this, A, W, L, K
    {
      Store(A[..], W[..], L[..], K[..], R, N)
    }

    /** Four separate arrays of one length below 2^16, every stored id in range. */
    ghost predicate Wellformed()
      reads this, A, W, L, K
    {
      && A != W && A != L && A != K && W != L && W != K && L != K
      && W.Length == A.Length && L.Length == A.Length && K.Length == A.Length
      && A.Length < IdLimit
      && Shape(Snapshot())
    }

    /** The state is the identity store with the stack's buckets removed in order, and so keeps every invariant. */
    ghost predicate Valid()
      reads this, A, W, L, K
    {
      && Wellformed()
      && Removable(A.Length, R)
      && Snapshot() == Replay(A.Length, R)
      && Inv(Snapshot())
    }

    /**
     * NEWCOMPACTANCHOR(buckets, used) with K, W and L set to the identity on
     * every bucket, as INITANCHOR prescribes. Go panics unless
     * 1 <= used <= buckets: the length buckets-used wraps past the
     * capacity, or, for used == 0, the counter wraps to 65535 and the
     * store into A indexes out of range.
     */
    constructor (buckets: nat, used: nat)
      requires 1 <= used <= buckets < IdLimit
      ensures Valid()
      ensures fresh(A) && fresh(W) && fresh(L) && fresh(K)
      ensures A.Length == buckets && Snapshot() == Initial(buckets, used)
    {
      var a, k, w, l, r := InitialArrays(buckets, used, buckets);
      assert k[..] == Initial(buckets, used).K;
      A, K, W, L, R, N := a, k, w, l, r, used;
      new;
      assert Snapshot() == Initial(buckets, used);
      InitialReachable(buckets, used);
    }

    /**
     * NEWCOMPACTANCHOR(buckets, used) exactly as the Go code writes it: the
     * first loop sets K, W and L only below used.
     */
    constructor AsWritten(buckets: nat, used: nat)
      requires 1 <= used <= buckets < IdLimit
      ensures Wellformed()
      ensures fresh(A) && fresh(W) && fresh(L) && fresh(K)
      ensures A.Length == buckets && Snapshot() == AsWrittenInitial(buckets, used)
    {
      var a, k, w, l, r := InitialArrays(buckets, used, used);
      A, K, W, L, R, N := a, k, w, l, r, used;
      new;
    }

    /**
     * GETBUCKET(key): one fleaRound per removed bucket left, successor hops
     * read only A and K, and the result is the working bucket the probe
     * sequence reaches.
     */
    method GetBucket(key: bv64, fleaInit: bv64 -> Flea, fleaRound: Flea -> Flea, fastMod: (nat, nat) -> nat) returns (b: nat)
      requires Wellformed() && Inv(Snapshot()) && A.Length > 0 && Bounded(fastMod)
      ensures b < A.Length && A[b] == 0
      ensures b == Bucket(Snapshot(), key, fleaInit, fleaRound, fastMod)
    {
      ghost var s := Snapshot();
      var st := fleaInit(key);
      b := fastMod(st.d as nat, A.Length);
      while A[b] > 0
        invariant b < A.Length
        invariant Probe(s, st, b, fleaRound, fastMod) == Bucket(s, key, fleaInit, fleaRound, fastMod)
        decreases A[b]
      {
        st := fleaRound(st);
        var t := A[b];
        assert t == s.A[b] < A.Length;
        var h: nat := fastMod(st.d as nat, t);
        assert h < t && s.L[h] <= h;
        b := Follow(s, t, h);
      }
    }

    /** The inner loop of GETBUCKET: follow successors from h while their status is at least t. */
    method Follow(ghost s: Store, t: nat, h0: nat) returns (h: nat)
      requires Wellformed() && s == Snapshot() && Inv(s) && h0 < A.Length && s.L[h0] < t
      ensures h == Chase(s, t, h0)
    {
      h := h0;
      while A[h] >= t
        invariant h < A.Length && s.L[h] < t
        invariant Chase(s, t, h) == Chase(s, t, h0)
        decreases A[h]
      {
        h := K[h];
      }
    }

    /**
     * GETPATH(key, buffer): the buffer is kept as a prefix and the key's
     * path is appended (see PathEndsAtBucket for what the path holds).
     */
    method GetPath(key: bv64, buffer: seq<nat>, fleaInit: bv64 -> Flea, fleaRound: Flea -> Flea, fastMod: (nat, nat) -> nat)
      returns (path: seq<nat>)
      requires Wellformed() && Inv(Snapshot()) && A.Length > 0 && Bounded(fastMod)
      ensures path == buffer + Path(Snapshot(), key, fleaInit, fleaRound, fastMod)
    {
      ghost var s := Snapshot();
      ghost var target := buffer + Path(s, key, fleaInit, fleaRound, fastMod);
      var st := fleaInit(key);
      var b: nat := fastMod(st.d as nat, A.Length);
      path := buffer + [b];
      Shift(buffer, [b], PathFrom(s, st, b, fleaRound, fastMod));
      while A[b] > 0
        invariant b < A.Length
        invariant path + PathFrom(s, st, b, fleaRound, fastMod) == target
        decreases A[b]
      {
        ghost var before := st;
        st := fleaRound(st);
        var t := A[b];
        var h: nat := fastMod(st.d as nat, t);
        assert t == s.A[b] && h < t && s.L[h] <= h;
        ghost var rest := PathFrom(s, st, Chase(s, t, h), fleaRound, fastMod);
        assert PathFrom(s, before, b, fleaRound, fastMod) == [h] + (ChaseRest(s, t, h) + rest);
        Shift(path, [h], ChaseRest(s, t, h) + rest);
        path := path + [h];
        Shift(path, ChaseRest(s, t, h), rest);
        h, path := AppendChase(s, t, h, path);
        b := h;
      }
    }

    /**
     * The inner loop of GETPATH: follow successors from h while their status
     * is at least t, appending each one to path.
     */
    method AppendChase(ghost s: Store, t: nat, h0: nat, path0: seq<nat>) returns (h: nat, path: seq<nat>)
      requires Wellformed() && s == Snapshot() && Inv(s) && h0 < A.Length && s.L[h0] < t
      ensures h == Chase(s, t, h0) && path == path0 + ChaseRest(s, t, h0)
    {
      h, path := h0, path0;
      while A[h] >= t
        invariant h < A.Length && s.L[h] < t
        invariant Chase(s, t, h) == Chase(s, t, h0)
        invariant path + ChaseRest(s, t, h) == path0 + ChaseRest(s, t, h0)
        decreases A[h]
      {
        assert A[h] == s.A[h] && K[h] == s.K[h];
        var k := K[h];
        assert ChaseRest(s, t, h) == [k] + ChaseRest(s, t, k);
        Shift(path, [k], ChaseRest(s, t, k));
        h := k;
        path := path + [h];
      }
    }

    /**
     * ADDBUCKET(): pop the top of R and make the wide variant's updates. On
     * a valid state this is the exact inverse of the removal that pushed it.
     */
    method AddBucket() returns (b: nat)
      requires Wellformed() && |R| > 0
      modifies this, A, W, L, K
      ensures Wellformed()
      ensures b == Top(old(Snapshot()))
      ensures Snapshot() == Add(old(Snapshot()))
      ensures old(Valid()) ==> Valid() && Removable(A.Length, old(R))
      ensures old(Valid()) ==> Snapshot() == Replay(A.Length, old(R)[..|old(R)| - 1])
    {
      ghost var s := Snapshot();
      ghost var v := Valid();
      b := R[|R| - 1];
      R := R[..|R| - 1];
      A[b] := 0;
      L[W[N]] := N;
      W[L[b]], K[b] := b, b;
      N := N + 1;
      assert A[..] == s.A[b := 0];
      assert L[..] == s.L[s.W[s.N] := s.N];
      assert W[..] == s.W[L[b] := b];
      assert K[..] == s.K[b := b];
      assert Snapshot() == Add(s);
      if v {
        ReplayAdd(A.Length, s.R);
        ReplayInv(A.Length, s.R[..|s.R| - 1]);
      }
    }

    /**
     * REMOVEBUCKET(b): a bucket that is not working is left alone; a working
     * one is removed exactly as in the wide variant. The state stays valid
     * as long as a working bucket remains.
     */
    method RemoveBucket(b: nat)
      requires Wellformed() && b < A.Length && (A[b] == 0 ==> N >= 1)
      modifies this, A, W, L, K
      ensures Wellformed()
      ensures Snapshot() == LenientRemove(old(Snapshot()), b)
      ensures old(A[b]) != 0 ==> Snapshot() == old(Snapshot())
      ensures old(Valid()) && (old(A[b]) != 0 || old(N) >= 2) ==> Valid()
    {
      if A[b] != 0 {
        return;
      }
      ghost var s := Snapshot();
      ghost var ok := Valid() && N >= 2;
      Detach(b);
      if ok {
        ReplayRemove(A.Length, s.R, b);
        RemovePreservesInv(s, b);
      }
    }

    /** The assignments RemoveBucket makes once it knows b is working. */
    method Detach(b: nat)
      requires Wellformed() && b < A.Length && N >= 1
      modifies this, A, W, L, K
      ensures Wellformed()
      ensures Snapshot() == Remove(old(Snapshot()), b)
    {
      ghost var s := Snapshot();
      N := N - 1;
      R := R + [b];
      A[b] := N;
      W[L[b]], K[b] := W[N], W[N];
      L[W[N]] := L[b];
      assert A[..] == s.A[b := s.N - 1];
      assert W[..] == s.W[s.L[b] := s.W[s.N - 1]];
      assert K[..] == s.K[b := s.W[s.N - 1]];
      assert L[..] == s.L[s.W[s.N - 1] := s.L[b]];
    }
  }
}
