/**
 * The wide AnchorHash: five machine-word arrays and a count, updated in place.
 *
 * The slices A, W, L and K never change length or identity after construction,
 * so they are constant array fields whose elements the methods overwrite; the
 * removal stack R and the count N are reassigned fields. Every method is proved
 * against the value-level operations of AnchorModel on Snapshot().
 */
module Anchor {
  import opened AnchorModel

  /** Go's `uint` is 64 bits wide. */
  const WordLimit: int := 0x1_0000_0000_0000_0000

  /** The conversion `uint(x)` of a Go `int`: two's-complement reinterpretation. */
  function UintOf(x: int): (r: nat)
    requires -WordLimit / 2 <= x < WordLimit / 2
    ensures r < WordLimit
    ensures 0 <= x ==> r == x
    ensures x < 0 ==> r == x + WordLimit
  {
    if x < 0 then x + WordLimit else x
  }

  /**
   * The working count NewAnchor(buckets, used) ends with: its removal loop runs
   * from buckets-1 down to uint(used), so it stops at uint(used) when that is
   * below buckets and does nothing otherwise (a negative used converts to a
   * huge unsigned value).
   */
  function InitialWorking(buckets: nat, used: int): (w: nat)
    requires buckets < WordLimit / 2 && -WordLimit / 2 <= used < WordLimit / 2
    ensures w <= buckets
    ensures 0 < used <= buckets ==> w == used
    ensures (used < 0 || buckets <= used) ==> w == buckets
  {
    var u := UintOf(used);
    if u < buckets then u else buckets
  }

  /**
   * GETBUCKET on a store: leave a removed bucket b by reducing the raw hash
   * modulo A[b] and chasing successors until the status drops below A[b].
   * The status of the current bucket strictly falls, so the walk ends, and it
   * ends on a working bucket.
   */
  function Walk(s: Store, hash: nat, b: nat): (r: nat)
    requires Inv(s) && b < |s.A|
    ensures r < |s.A| && s.A[r] == 0
    decreases s.A[b]
  {
    if s.A[b] == 0 then b
    else
      var h := hash % s.A[b];
      assert s.L[h] <= h;
      Walk(s, hash, Chase(s, s.A[b], h))
  }

  /** The bucket a hash is assigned to: the walk from hash mod capacity. */
  function Lookup(s: Store, hash: nat): (r: nat)
    requires Inv(s) && |s.A| > 0
    ensures r < |s.A| && s.A[r] == 0
  {
    Walk(s, hash, hash % |s.A|)
  }

  class Anchor {
    /** Status of each bucket: 0 when working, else |W_b| just after its removal. */
    const A: array<nat>
    /** Working buckets in W[0..N). */
    const W: array<nat>
    /** Most recent location of each bucket in W. */
    const L: array<nat>
    /** Successor of each removed bucket. */
    const K: array<nat>
    /** Removed buckets, most recent last. */
    var R: seq<nat>
    /** Number of working buckets. */
    var N: nat

    ghost function Snapshot(): Store
      reads this, A, W, L, K
    {
      Store(A[..], W[..], L[..], K[..], R, N)
    }

    /** Four separate arrays of one length, every stored id in range: enough for the mutators not to fault. */
    ghost predicate Wellformed()
      reads this, A, W, L, K
    {
      && A != W && A != L && A != K && W != L && W != K && L != K
      && W.Length == A.Length && L.Length == A.Length && K.Length == A.Length
      && Shape(Snapshot())
    }

    /** The state is the identity store with the stack's buckets removed in order, and so keeps every invariant. */
    ghost predicate Valid()
      reads this, A, W, L, K
    {
      && Wellformed()
      && Removable(A.Length, R)
      && Snapshot() == Replay(A.Length, R)
      && Inv(Snapshot())
    }

    /**
     * NEWANCHOR(buckets, used): identity arrays, then REMOVEBUCKET for
     * buckets-1 down to uint(used). Go panics for buckets < 1 and for
     * used == 0: the unsigned loop counter wraps to 2^64-1 and REMOVEBUCKET
     * then indexes A out of range.
     */
    constructor (buckets: int, used: int)
      requires 1 <= buckets < WordLimit / 2
      requires -WordLimit / 2 <= used < WordLimit / 2 && used != 0
      ensures Valid()
      ensures fresh(A) && fresh(W) && fresh(L) && fresh(K)
      ensures A.Length == buckets
      ensures Snapshot() == Initial(buckets, InitialWorking(buckets, used))
      ensures N == InitialWorking(buckets, used)
      ensures R == Descending(buckets, InitialWorking(buckets, used))
    {
      var a := new nat[buckets](_ => 0);
      var w := new nat[buckets](_ => 0);
      var l := new nat[buckets](_ => 0);
      var k := new nat[buckets](_ => 0);
      for b := 0 to buckets
        invariant forall i | 0 <= i < b :: a[i] == 0 && w[i] == i && l[i] == i && k[i] == i
      {
        a[b], w[b], l[b], k[b] := 0, b, b, b;
      }
      assert a[..] == Identity(buckets).A && w[..] == Identity(buckets).W;
      assert l[..] == Identity(buckets).L && k[..] == Identity(buckets).K;
      A, W, L, K := a, w, l, k;
      R, N := [], buckets;
      new;
      assert Snapshot() == Identity(buckets);
      InitialAllWorking(buckets);
      var u := UintOf(used);
      RemoveDownTo(u);
      ghost var wk := InitialWorking(buckets, used);
      InitialReachable(buckets, wk);
    }

    /**
     * The removal loop of NEWANCHOR: REMOVEBUCKET(b) for b from len(A)-1 down
     * to u, with every bucket working beforehand. It ends in INITANCHOR's
     * state for min(u, len(A)) working buckets.
     */
    method RemoveDownTo(u: nat)
      requires 1 <= u && Wellformed() && Snapshot() == Initial(A.Length, A.Length)
      modifies this, A, W, L, K
      ensures Wellformed()
      ensures Snapshot() == Initial(A.Length, if u < A.Length then u else A.Length)
    {
      var C := A.Length;
      ghost var wk := if u < C then u else C;
      var b: int := C - 1;
      while b >= u
        invariant wk - 1 <= b < C
        invariant b >= u <==> b >= wk
        invariant Wellformed() && Snapshot() == Initial(C, b + 1)
        decreases b
      {
        InitialStep(C, b);
        Detach(b);
        b := b - 1;
      }
    }

    /**
     * GETBUCKET(hash): only cells below len(A) are read, both loops end, and
     * the result is a working bucket, the one the walk over the store gives.
     */
    method GetBucket(hash: nat) returns (b: nat)
      requires Wellformed() && Inv(Snapshot()) && A.Length > 0 && hash < WordLimit
      ensures b < A.Length && A[b] == 0
      ensures b == Lookup(Snapshot(), hash)
    {
      ghost var s := Snapshot();
      b := hash % A.Length;
      while A[b] > 0
        invariant b < A.Length
        invariant Walk(s, hash, b) == Lookup(s, hash)
        decreases A[b]
      {
        var t := A[b];
        assert t == s.A[b] < A.Length;
        var h: nat := hash % t;
        ghost var probe := h;
        assert h < t && s.L[h] <= h;
        while A[h] >= t
          invariant h < A.Length && s.L[h] < t
          invariant Chase(s, t, h) == Chase(s, t, probe)
          decreases A[h]
        {
          h := K[h];
        }
        b := h;
      }
    }

    /**
     * ADDBUCKET(): pop the top of R, clear its status, move the bucket
     * occupying W[N] to its location N, put the popped bucket back at its own
     * location and make it its own successor. On a valid state this is the
     * exact inverse of the removal that pushed it.
     */
    method AddBucket() returns (b: nat)
      requires Wellformed() && |R| > 0
      modifies this, A, W, L, K
      ensures Wellformed()
      ensures b == Top(old(Snapshot()))
      ensures Snapshot() == Add(old(Snapshot()))
      ensures old(Valid()) ==> Valid() && Removable(A.Length, old(R))
      ensures old(Valid()) ==> Snapshot() == Replay(A.Length, old(R)[..|old(R)| - 1])
    {
      ghost var s := Snapshot();
      ghost var v := Valid();
      b := R[|R| - 1];
      R := R[..|R| - 1];
      A[b] := 0;
      L[W[N]] := N;
      W[L[b]], K[b] := b, b;
      N := N + 1;
      assert A[..] == s.A[b := 0];
      assert L[..] == s.L[s.W[s.N] := s.N];
      assert W[..] == s.W[L[b] := b];
      assert K[..] == s.K[b := b];
      assert Snapshot() == Add(s);
      if v {
        ReplayAdd(A.Length, s.R);
        ReplayInv(A.Length, s.R[..|s.R| - 1]);
      }
    }

    /**
     * REMOVEBUCKET(b): decrement N, push b, record the new N as b's status,
     * let the last working bucket W[N] take b's slot and become b's successor.
     * Go performs no check: the state stays valid when b is working and
     * another bucket remains working.
     */
    method RemoveBucket(b: nat)
      requires Wellformed() && b < A.Length && N >= 1
      modifies this, A, W, L, K
      ensures Wellformed()
      ensures Snapshot() == Remove(old(Snapshot()), b)
      ensures old(Valid()) && old(A[b]) == 0 && old(N) >= 2 ==> Valid() && R == old(R) + [b]
    {
      ghost var s := Snapshot();
      ghost var ok := Valid() && A[b] == 0 && N >= 2;
      Detach(b);
      if ok {
        ReplayRemove(A.Length, s.R, b);
        RemovePreservesInv(s, b);
      }
    }

    /** The assignments REMOVEBUCKET makes, as an update of the store. */
    method Detach(b: nat)
      requires Wellformed() && b < A.Length && N >= 1
      modifies this, A, W, L, K
      ensures Wellformed()
      ensures Snapshot() == Remove(old(Snapshot()), b)
    {
      ghost var s := Snapshot();
      N := N - 1;
      R := R + [b];
      A[b] := N;
      W[L[b]], K[b] := W[N], W[N];
      L[W[N]] := L[b];
      assert A[..] == s.A[b := s.N - 1];
      assert W[..] == s.W[s.L[b] := s.W[s.N - 1]];
      assert K[..] == s.K[b := s.W[s.N - 1]];
      assert L[..] == s.L[s.W[s.N - 1] := s.L[b]];
    }
  }

  // The capacity-7 scenario, one store per step.

  function SevenId(): seq<nat> { [0, 1, 2, 3, 4, 5, 6] }
  function Seven0(): Store { Store([0, 0, 0, 0, 0, 0, 0], SevenId(), SevenId(), SevenId(), [], 7) }
  function Seven1(): Store { Store([0, 0, 0, 0, 0, 0, 6], SevenId(), SevenId(), SevenId(), [6], 6) }
  function Seven2(): Store { Store([0, 0, 0, 0, 0, 5, 6], SevenId(), SevenId(), SevenId(), [6, 5], 5) }
  function Seven3(): Store {
    Store([0, 4, 0, 0, 0, 5, 6], [0, 4, 2, 3, 4, 5, 6], [0, 1, 2, 3, 1, 5, 6], [0, 4, 2, 3, 4, 5, 6], [6, 5, 1], 4)
  }
  function Seven4(): Store {
    Store([3, 4, 0, 0, 0, 5, 6], [3, 4, 2, 3, 4, 5, 6], [0, 1, 2, 0, 1, 5, 6], [3, 4, 2, 3, 4, 5, 6], [6, 5, 1, 0], 3)
  }

  lemma SevenStart()
    ensures Identity(7) == Seven0() && Shape(Seven0())
  {
    assert Identity(7).A == Seven0().A;
  }

  lemma SevenRemove6()
    ensures Shape(Seven0()) && Remove(Seven0(), 6) == Seven1()
  {
    assert Remove(Seven0(), 6).A == Seven1().A;
  }

  lemma SevenRemove5()
    ensures Shape(Seven1()) && Remove(Seven1(), 5) == Seven2()
  {
    assert Remove(Seven1(), 5).A == Seven2().A;
  }

  lemma SevenRemove1()
    ensures Shape(Seven2()) && Remove(Seven2(), 1) == Seven3()
  {
    var r := Remove(Seven2(), 1);
    assert r.A == Seven3().A && r.W == Seven3().W && r.L == Seven3().L && r.K == Seven3().K;
  }

  lemma SevenRemove0()
    ensures Shape(Seven3()) && Remove(Seven3(), 0) == Seven4()
  {
    var r := Remove(Seven3(), 0);
    assert r.A == Seven4().A && r.W == Seven4().W && r.L == Seven4().L && r.K == Seven4().K;
  }

  lemma SevenAdd0()
    ensures Shape(Seven4()) && Add(Seven4()) == Seven3() && Top(Seven4()) == 0
  {
    var a := Add(Seven4());
    assert a.A == Seven3().A && a.W == Seven3().W && a.L == Seven3().L && a.K == Seven3().K;
  }

  lemma SevenAdd1()
    ensures Shape(Seven3()) && Add(Seven3()) == Seven2() && Top(Seven3()) == 1
  {
    var a := Add(Seven3());
    assert a.A == Seven2().A && a.W == Seven2().W && a.L == Seven2().L && a.K == Seven2().K;
  }

  lemma SevenAdd5()
    ensures Shape(Seven2()) && Add(Seven2()) == Seven1() && Top(Seven2()) == 5
  {
    var a := Add(Seven2());
    assert a.A == Seven1().A && a.W == Seven1().W && a.L == Seven1().L && a.K == Seven1().K;
  }

  lemma SevenAdd6()
    ensures Shape(Seven1()) && Add(Seven1()) == Seven0() && Top(Seven1()) == 6
  {
    var a := Add(Seven1());
    assert a.A == Seven0().A && a.W == Seven0().W && a.L == Seven0().L && a.K == Seven0().K;
  }

  lemma SevenAddsFrom1()
    ensures Shape(Seven1()) && AddMany(Seven1(), 1) == (Seven0(), [6])
  {
    SevenAdd6();
    var next := AddMany(Seven0(), 0);
    assert next == (Seven0(), []);
    assert AddMany(Seven1(), 1) == (next.0, [6] + next.1);
    assert [6] + next.1 == [6];
  }

  lemma SevenAddsFrom2()
    ensures Shape(Seven2()) && AddMany(Seven2(), 2) == (Seven0(), [5, 6])
  {
    SevenAdd5();
    SevenAddsFrom1();
    var next := AddMany(Seven1(), 1);
    assert AddMany(Seven2(), 2) == (next.0, [5] + next.1);
    assert [5] + next.1 == [5, 6];
  }

  lemma SevenAddsFrom3()
    ensures Shape(Seven3()) && AddMany(Seven3(), 3) == (Seven0(), [1, 5, 6])
  {
    SevenAdd1();
    SevenAddsFrom2();
    var next := AddMany(Seven2(), 2);
    assert AddMany(Seven3(), 3) == (next.0, [1] + next.1);
    assert [1] + next.1 == [1, 5, 6];
  }

  lemma SevenAdds()
    ensures Shape(Seven4()) && AddMany(Seven4(), 4) == (Seven0(), [0, 1, 5, 6])
  {
    SevenAdd0();
    SevenAddsFrom3();
    var next := AddMany(Seven3(), 3);
    assert AddMany(Seven4(), 4) == (next.0, [0] + next.1);
    assert [0] + next.1 == [0, 1, 5, 6];
  }

  /**
   * The capacity-7 scenario: remove 6, 5 and 1, then 0, then add four
   * buckets back. The additions return the removed buckets in reverse order
   * and the store ends as the identity again.
   */
  lemma CapacitySevenTrace()
    ensures Shape(Identity(7))
    ensures var s3 := Remove(Remove(Remove(Identity(7), 6), 5), 1);
      && s3.W == [0, 4, 2, 3, 4, 5, 6] && s3.L == [0, 1, 2, 3, 1, 5, 6]
      && Remove(s3, 0).K == [3, 4, 2, 3, 4, 5, 6]
      && AddMany(Remove(s3, 0), 4) == (Identity(7), [0, 1, 5, 6])
  {
    SevenStart();
    SevenRemove6();
    SevenRemove5();
    SevenRemove1();
    SevenRemove0();
    SevenAdds();
  }
}
