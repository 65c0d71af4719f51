/**
 * The array state shared by both AnchorHash variants, as values.
 *
 * A store of capacity C holds five arrays of length C and a count:
 *   A  status: 0 for a working bucket, else the working-set size just after its removal
 *   W  working buckets in positions [0, N); residual entries above
 *   L  location of each bucket in W
 *   K  successor of each removed bucket (itself for a working one)
 *   R  removal stack, most recently removed bucket last
 *   N  number of working buckets
 *
 * Remove and Add are the REMOVEBUCKET / ADDBUCKET updates, written in the
 * order the Go code performs its assignments. Both width variants make
 * exactly these updates; the classes in Anchor and Compact are proved
 * against them.
 */
module AnchorModel {

  datatype Store = Store(A: seq<nat>, W: seq<nat>, L: seq<nat>, K: seq<nat>, R: seq<nat>, N: nat)

  /** Lengths agree, every stored id is a bucket, and N + |R| is the capacity. */
  ghost predicate Shape(s: Store) {
    var C := |s.A|;
    && |s.W| == C && |s.L| == C && |s.K| == C
    && s.N + |s.R| == C
    && (forall i | 0 <= i < C :: s.W[i] < C)
    && (forall i | 0 <= i < C :: s.L[i] < C)
    && (forall i | 0 <= i < C :: s.K[i] < C)
    && (forall i | 0 <= i < |s.R| :: s.R[i] < C)
  }

  /** REMOVEBUCKET(b): N-1 becomes b's status, the last working bucket takes b's slot. */
  function Remove(s: Store, b: nat): (r: Store)
    requires Shape(s) && b < |s.A| && 1 <= s.N
    ensures Shape(r) && |r.A| == |s.A| && r.N == s.N - 1 && r.R == s.R + [b]
  {
    var n := s.N - 1;
    var m := s.W[n];
    var p := s.L[b];
    Store(s.A[b := n], s.W[p := m], s.L[m := p], s.K[b := m], s.R + [b], n)
  }

  /** The bucket AddBucket hands back: the top of the removal stack. */
  function Top(s: Store): nat
    requires |s.R| > 0
  {
    s.R[|s.R| - 1]
  }

  /** ADDBUCKET(): pop b, clear its status, put it back at its old location. */
  function Add(s: Store): (r: Store)
    requires Shape(s) && |s.R| > 0
    ensures Shape(r) && |r.A| == |s.A| && r.N == s.N + 1 && r.R == s.R[..|s.R| - 1]
  {
    var b := Top(s);
    var n := s.N;
    var l := s.L[s.W[n] := n];
    Store(s.A[b := 0], s.W[l[b] := b], l, s.K[b := b], s.R[..|s.R| - 1], n + 1)
  }

  // ---------------------------------------------------------------------------
  // The invariant, conjunct by conjunct

  /** A non-empty store always has a working bucket. */
  ghost predicate HasWorking(s: Store) {
    |s.A| > 0 ==> s.N > 0
  }

  /** W[0..N) lists working buckets, and L inverts W there. */
  ghost predicate Listed(s: Store)
    requires Shape(s)
  {
    && (forall i {:trigger s.W[i]} | 0 <= i < s.N :: s.A[s.W[i]] == 0)
    && (forall i {:trigger s.W[i]} | 0 <= i < s.N :: s.L[s.W[i]] == i)
  }

  /** Every working bucket sits in W[0..N) at its location and is its own successor. */
  ghost predicate Placed(s: Store)
    requires Shape(s)
  {
    forall x {:trigger s.K[x]} | 0 <= x < |s.A| && s.A[x] == 0 :: s.L[x] < s.N && s.W[s.L[x]] == x && s.K[x] == x
  }

  /**
   * The stack entry at depth i has status C-1-i, so statuses fall toward the
   * top; every removed bucket is on the stack, and its status lies in [N, C).
   */
  ghost predicate Stacked(s: Store)
    requires Shape(s)
  {
    var C := |s.A|;
    && StackOrdered(s)
    && (forall x {:trigger s.A[x]} | 0 <= x < C :: s.A[x] == 0 || s.N <= s.A[x] < C)
    && (forall x {:trigger x in s.R} | 0 <= x < C && s.A[x] != 0 :: x in s.R)
  }

  /** The stack entry at depth i has status C-1-i. */
  ghost predicate StackOrdered(s: Store)
    requires Shape(s)
  {
    forall i {:trigger s.R[i]} | 0 <= i < |s.R| :: s.A[s.R[i]] == |s.A| - 1 - i
  }

  /** A bucket never sits to the right of its own id in W. */
  ghost predicate Leftward(s: Store)
    requires Shape(s)
  {
    forall x {:trigger s.L[x]} | 0 <= x < |s.A| :: s.L[x] <= x
  }

  /**
   * A removed bucket that was not the last working bucket when it was removed
   * (its location is below its status) has a successor with a smaller status
   * and a location no further right.
   */
  ghost predicate Chained(s: Store)
    requires Shape(s)
  {
    forall x {:trigger s.K[x]} | 0 <= x < |s.A| && s.A[x] != 0 ::
      s.L[x] < s.A[x] ==> s.A[s.K[x]] < s.A[x] && s.L[s.K[x]] <= s.L[x]
  }

  ghost predicate Inv(s: Store) {
    Shape(s) && HasWorking(s) && Listed(s) && Placed(s) && Stacked(s) && Leftward(s) && Chained(s)
  }

  /** Placed, at one working bucket. */
  lemma PlacedAt(s: Store, x: nat)
    requires Inv(s) && x < |s.A| && s.A[x] == 0
    ensures s.L[x] < s.N && s.W[s.L[x]] == x && s.K[x] == x
  {
    assert s.K[x] == x;
  }

  /** Listed, at one position of W[0..N). */
  lemma ListedAt(s: Store, i: nat)
    requires Inv(s) && i < s.N
    ensures s.A[s.W[i]] == 0 && s.L[s.W[i]] == i
  {
  }

  // ---------------------------------------------------------------------------
  // Remove preserves the invariant (with at least two working buckets)

  lemma RemoveKeepsListedPlaced(s: Store, b: nat)
    requires Inv(s) && b < |s.A| && s.A[b] == 0 && s.N >= 2
    ensures Listed(Remove(s, b)) && Placed(Remove(s, b))
  {
    var r := Remove(s, b);
    var n, m, p := s.N - 1, s.W[s.N - 1], s.L[b];
    assert s.K[b] == b && s.W[p] == b;
    assert s.L[m] == n && s.A[m] == 0;
    forall i | 0 <= i < r.N
      ensures r.A[r.W[i]] == 0 && r.L[r.W[i]] == i
    {
      if i == p {
        assert m != b;
      } else {
        assert s.A[s.W[i]] == 0 && s.L[s.W[i]] == i;
      }
    }
    forall x | 0 <= x < |r.A| && r.A[x] == 0
      ensures r.L[x] < r.N && r.W[r.L[x]] == x && r.K[x] == x
    {
      assert x != b;
      assert s.K[x] == x;
      if x == m {
        assert p != n;
      } else {
        assert s.L[x] != n && s.L[x] != p;
      }
    }
  }

  lemma RemoveKeepsStacked(s: Store, b: nat)
    requires Inv(s) && b < |s.A| && s.A[b] == 0 && s.N >= 2
    ensures Stacked(Remove(s, b))
  {
    var r := Remove(s, b);
    var C := |s.A|;
    forall i | 0 <= i < |r.R|
      ensures r.A[r.R[i]] == C - 1 - i
    {
      if i < |s.R| {
        assert r.R[i] == s.R[i];
        assert s.A[s.R[i]] == C - 1 - i;
      }
    }
    forall x | 0 <= x < C
      ensures r.A[x] == 0 || r.N <= r.A[x] < C
    {
      assert s.A[x] == 0 || s.N <= s.A[x];
    }
    forall x | 0 <= x < C && r.A[x] != 0
      ensures x in r.R
    {
      if x != b {
        assert x in s.R;
      }
    }
  }

  /**
   * The stack discipline alone (N + |R| == C and A[R[i]] == C-1-i) survives
   * REMOVEBUCKET of a bucket with zero status, whatever W, L and K hold.
   */
  lemma RemoveKeepsStackOrdered(s: Store, b: nat)
    requires Shape(s) && StackOrdered(s) && b < |s.A| && s.A[b] == 0 && s.N >= 1
    ensures StackOrdered(Remove(s, b))
  {
    var r := Remove(s, b);
    forall i | 0 <= i < |r.R|
      ensures r.A[r.R[i]] == |r.A| - 1 - i
    {
      if i < |s.R| {
        assert r.R[i] == s.R[i] && s.A[s.R[i]] == |s.A| - 1 - i;
      }
    }
  }

  /** The stack discipline alone survives ADDBUCKET, whatever W, L and K hold. */
  lemma AddKeepsStackOrdered(s: Store)
    requires Shape(s) && StackOrdered(s) && |s.R| > 0
    ensures StackOrdered(Add(s))
  {
    var r := Add(s);
    var t := |s.R| - 1;
    assert s.A[s.R[t]] == |s.A| - 1 - t;
    forall i | 0 <= i < |r.R|
      ensures r.A[r.R[i]] == |r.A| - 1 - i
    {
      assert r.R[i] == s.R[i] && s.A[s.R[i]] == |s.A| - 1 - i;
    }
  }

  lemma RemoveKeepsChained(s: Store, b: nat)
    requires Inv(s) && b < |s.A| && s.A[b] == 0 && s.N >= 2
    ensures Leftward(Remove(s, b)) && Chained(Remove(s, b))
  {
    var r := Remove(s, b);
    var n, m, p := s.N - 1, s.W[s.N - 1], s.L[b];
    assert s.K[b] == b && p < s.N;
    assert s.L[m] == n && s.A[m] == 0 && s.L[m] <= m;
    forall x | 0 <= x < |r.A|
      ensures r.L[x] <= x
    {
      assert s.L[x] <= x;
    }
    forall x | 0 <= x < |r.A| && r.A[x] != 0
      ensures r.L[x] < r.A[x] ==> r.A[r.K[x]] < r.A[x] && r.L[r.K[x]] <= r.L[x]
    {
      if x == b {
        assert m != b ==> r.A[m] == 0;
        assert r.L[m] == p;
      } else {
        assert s.A[x] == r.A[x] && s.A[x] >= s.N;
        assert x != m;
        var k := s.K[x];
        assert r.K[x] == k && r.L[x] == s.L[x];
        if s.L[x] < s.A[x] {
          assert s.A[k] < s.A[x] && s.L[k] <= s.L[x];
          assert k == b ==> r.A[k] == n;
          assert k == m ==> r.L[k] == p;
        }
      }
    }
  }

  /** REMOVEBUCKET keeps every invariant as long as a working bucket remains. */
  lemma RemovePreservesInv(s: Store, b: nat)
    requires Inv(s) && b < |s.A| && s.A[b] == 0 && s.N >= 2
    ensures Inv(Remove(s, b))
  {
    RemoveKeepsListedPlaced(s, b);
    RemoveKeepsStacked(s, b);
    RemoveKeepsChained(s, b);
  }

  /**
   * The invariant the successor array does NOT keep: when the removed bucket
   * was the last working one, it becomes its own successor while its status
   * is positive, so A[K[b]] < A[b] fails for it.
   */
  lemma RemovingLastMakesSelfSuccessor(s: Store, b: nat)
    requires Inv(s) && b < |s.A| && s.A[b] == 0 && s.N >= 2 && s.L[b] == s.N - 1
    ensures var r := Remove(s, b); r.K[b] == b && r.A[b] > 0 && r.A[r.K[b]] == r.A[b]
  {
    assert s.K[b] == b && s.W[s.N - 1] == b;
  }

  /**
   * REMOVEBUCKET of the only working bucket: its status becomes the new N,
   * which is 0, so it still reads as working while no bucket is listed.
   */
  lemma RemovingSoleWorkingLooksWorking(s: Store, b: nat)
    requires Inv(s) && b < |s.A| && s.A[b] == 0 && s.N == 1
    ensures var r := Remove(s, b); r.A[b] == 0 && r.N == 0 && r.R == s.R + [b] && !HasWorking(r)
  {
  }

  // ---------------------------------------------------------------------------
  // Add undoes Remove

  /** REMOVEBUCKET(b) then ADDBUCKET() returns b and restores every array and N. */
  lemma RoundTrip(s: Store, b: nat)
    requires Inv(s) && b < |s.A| && s.A[b] == 0
    ensures s.N >= 1
    ensures Top(Remove(s, b)) == b && Add(Remove(s, b)) == s
  {
    PlacedAt(s, b);
    var n, m, p := s.N - 1, s.W[s.N - 1], s.L[b];
    ListedAt(s, n);
    var r := Remove(s, b);
    var t := Add(r);
    assert r.W[n] == m;
    assert r.L[m := n] == s.L;
    assert t.A == s.A;
    assert t.W == s.W;
    assert t.L == s.L;
    assert t.K == s.K;
    assert t.R == s.R;
  }

  // ---------------------------------------------------------------------------
  // Reachable states: the identity store with the stack's buckets removed in order

  /** Every bucket working, in natural order, every array the identity. */
  function Identity(C: nat): (r: Store)
    ensures Shape(r) && |r.A| == C && r.R == [] && r.N == C
  {
    Store(seq(C, _ => 0), seq(C, i => i), seq(C, i => i), seq(C, i => i), [], C)
  }

  /** The identity store satisfies the invariant. */
  lemma IdentityInv(C: nat)
    ensures Inv(Identity(C))
  {
    var s := Identity(C);
    forall x | 0 <= x < C
      ensures s.A[x] == 0 && s.W[x] == x && s.L[x] == x && s.K[x] == x
    {
    }
  }

  /** b is a working bucket of s and not the only one. */
  ghost predicate CanRemove(s: Store, b: nat) {
    b < |s.A| && s.A[b] == 0 && s.N >= 2
  }

  /** Each bucket of rs is working when its turn comes, and one always stays working. */
  ghost predicate Removable(C: nat, rs: seq<nat>)
    decreases |rs|, 0
  {
    rs == [] || (Removable(C, rs[..|rs| - 1]) && CanRemove(Replay(C, rs[..|rs| - 1]), rs[|rs| - 1]))
  }

  /** The store reached from Identity(C) by removing the buckets of rs in order. */
  ghost function Replay(C: nat, rs: seq<nat>): (r: Store)
    requires Removable(C, rs)
    decreases |rs|, 1
    ensures Shape(r) && |r.A| == C && r.R == rs && r.N + |rs| == C
  {
    if rs == [] then Identity(C)
    else Remove(Replay(C, rs[..|rs| - 1]), rs[|rs| - 1])
  }

  /** Every reachable store satisfies the invariant. */
  lemma {:induction false} ReplayInv(C: nat, rs: seq<nat>)
    requires Removable(C, rs)
    ensures Inv(Replay(C, rs))
    decreases |rs|
  {
    if rs == [] {
      IdentityInv(C);
    } else {
      ReplayInv(C, rs[..|rs| - 1]);
      RemovePreservesInv(Replay(C, rs[..|rs| - 1]), rs[|rs| - 1]);
    }
  }

  lemma RemovablePrefix(C: nat, rs: seq<nat>, k: nat)
    requires Removable(C, rs) && k <= |rs|
    ensures Removable(C, rs[..k])
    decreases |rs| - k
  {
    if k < |rs| {
      var pre := rs[..|rs| - 1];
      assert Removable(C, pre);
      RemovablePrefix(C, pre, k);
      assert pre[..k] == rs[..k];
    } else {
      assert rs[..k] == rs;
    }
  }

  /** Removing one more working bucket extends the replay by that bucket. */
  lemma ReplayRemove(C: nat, rs: seq<nat>, b: nat)
    requires Removable(C, rs) && CanRemove(Replay(C, rs), b)
    ensures Removable(C, rs + [b]) && Replay(C, rs + [b]) == Remove(Replay(C, rs), b)
  {
    assert (rs + [b])[..|rs|] == rs;
  }

  /** ADDBUCKET on a reachable store returns the top of the stack and restores the store before its removal. */
  lemma ReplayAdd(C: nat, rs: seq<nat>)
    requires Removable(C, rs) && rs != []
    ensures Removable(C, rs[..|rs| - 1])
    ensures Top(Replay(C, rs)) == rs[|rs| - 1]
    ensures Add(Replay(C, rs)) == Replay(C, rs[..|rs| - 1])
  {
    var pre := rs[..|rs| - 1];
    ReplayInv(C, pre);
    RoundTrip(Replay(C, pre), rs[|rs| - 1]);
  }

  // ---------------------------------------------------------------------------
  // LIFO restore

  function Reversed(xs: seq<nat>): (r: seq<nat>)
    ensures |r| == |xs|
  {
    if xs == [] then [] else [xs[|xs| - 1]] + Reversed(xs[..|xs| - 1])
  }

  /** k ADDBUCKET calls in a row: the final store and the buckets returned, in call order. */
  function AddMany(s: Store, k: nat): (Store, seq<nat>)
    requires Shape(s) && k <= |s.R|
    decreases k
  {
    if k == 0 then (s, [])
    else
      var next := AddMany(Add(s), k - 1);
      (next.0, [Top(s)] + next.1)
  }

  /** One ADDBUCKET after removing xs hands back the last of xs and undoes its removal. */
  lemma AddUndoesLast(C: nat, pre: seq<nat>, xs: seq<nat>)
    requires xs != [] && Removable(C, pre + xs)
    ensures Removable(C, pre + xs[..|xs| - 1])
    ensures Top(Replay(C, pre + xs)) == xs[|xs| - 1]
    ensures Add(Replay(C, pre + xs)) == Replay(C, pre + xs[..|xs| - 1])
  {
    var rs := pre + xs;
    assert rs[..|rs| - 1] == pre + xs[..|xs| - 1];
    ReplayAdd(C, rs);
  }

  /** One step of LifoRestore: the last of xs comes back first, then the rest as the shorter restore hands them back. */
  lemma LifoStep(C: nat, pre: seq<nat>, xs: seq<nat>)
    requires xs != [] && Removable(C, pre + xs)
    requires Removable(C, pre + xs[..|xs| - 1]) && Removable(C, pre)
    requires AddMany(Replay(C, pre + xs[..|xs| - 1]), |xs| - 1) == (Replay(C, pre), Reversed(xs[..|xs| - 1]))
    ensures AddMany(Replay(C, pre + xs), |xs|) == (Replay(C, pre), Reversed(xs))
  {
    AddUndoesLast(C, pre, xs);
  }

  /**
   * After removing xs from a reachable store, |xs| additions hand the buckets
   * back in reverse removal order and restore the store exactly.
   */
  lemma {:induction false} LifoRestore(C: nat, pre: seq<nat>, xs: seq<nat>)
    requires Removable(C, pre + xs)
    ensures Removable(C, pre)
    ensures AddMany(Replay(C, pre + xs), |xs|) == (Replay(C, pre), Reversed(xs))
    decreases |xs|
  {
    if xs == [] {
      assert pre + xs == pre;
    } else {
      AddUndoesLast(C, pre, xs);
      LifoRestore(C, pre, xs[..|xs| - 1]);
      LifoStep(C, pre, xs);
    }
  }

  /**
   * LIFO restore also holds when the last removal takes away the only
   * working bucket: b, which left the store empty, comes back first and the
   * rest of xs follow as in LifoRestore.
   */
  lemma LifoEmptying(C: nat, pre: seq<nat>, xs: seq<nat>, b: nat)
    requires Removable(C, pre + xs) && Replay(C, pre + xs).N == 1
    requires b < C && Replay(C, pre + xs).A[b] == 0
    ensures Removable(C, pre)
    ensures AddMany(Remove(Replay(C, pre + xs), b), |xs| + 1) == (Replay(C, pre), Reversed(xs + [b]))
  {
    var s := Replay(C, pre + xs);
    ReplayInv(C, pre + xs);
    RoundTrip(s, b);
    LifoRestore(C, pre, xs);
    assert (xs + [b])[..|xs|] == xs;
  }

  // ---------------------------------------------------------------------------
  // Construction

  /** The stack after INITANCHOR(C, w): C-1 at the bottom down to w on top. */
  function Descending(C: nat, w: nat): (r: seq<nat>)
    requires w <= C
  {
    seq(C - w, i requires 0 <= i < C - w => C - 1 - i)
  }

  /** The store INITANCHOR(C, w) describes: identity arrays, A[b] == b for every unused b. */
  function Initial(C: nat, w: nat): Store
    requires w <= C
  {
    Store(seq(C, b => if b >= w then b else 0), seq(C, i => i), seq(C, i => i), seq(C, i => i), Descending(C, w), w)
  }

  /** Removing w from Initial(C, w + 1) yields Initial(C, w). */
  lemma RemoveFromInitial(C: nat, w: nat)
    requires 1 <= w < C
    ensures Shape(Initial(C, w + 1))
    ensures Remove(Initial(C, w + 1), w) == Initial(C, w)
  {
    var s := Initial(C, w + 1);
    var r := Remove(s, w);
    var t := Initial(C, w);
    assert s.W[w] == w && s.L[w] == w;
    assert r.A == t.A;
    assert r.W == t.W;
    assert r.L == t.L;
    assert r.K == t.K;
    assert r.R == t.R;
  }

  /** With every bucket in use, INITANCHOR leaves the identity store. */
  lemma InitialAllWorking(C: nat)
    ensures Initial(C, C) == Identity(C)
  {
    assert Initial(C, C).A == Identity(C).A;
    assert Descending(C, C) == [];
  }

  /** One turn of INITANCHOR's removal loop: w is working in Initial(C, w + 1) and removing it gives Initial(C, w). */
  lemma InitialStep(C: nat, w: nat)
    requires 1 <= w < C
    ensures Shape(Initial(C, w + 1)) && Initial(C, w + 1).A[w] == 0
    ensures Remove(Initial(C, w + 1), w) == Initial(C, w)
    ensures Descending(C, w + 1) + [w] == Descending(C, w)
  {
    RemoveFromInitial(C, w);
    assert Descending(C, w + 1) + [w] == Descending(C, w);
  }

  /** A replay that reaches Initial(C, w + 1) reaches Initial(C, w) once w is removed too. */
  lemma ReplayInitialStep(C: nat, w: nat, rs: seq<nat>)
    requires 1 <= w < C
    requires Removable(C, rs) && Replay(C, rs) == Initial(C, w + 1)
    ensures Removable(C, rs + [w]) && Replay(C, rs + [w]) == Initial(C, w)
  {
    ReplayInv(C, rs);
    InitialStep(C, w);
    ReplayRemove(C, rs, w);
  }

  /** Removing C-1 down to w from the identity store yields Initial(C, w). */
  lemma {:induction false} InitialIsReplay(C: nat, w: nat)
    requires 1 <= w <= C
    ensures Removable(C, Descending(C, w)) && Replay(C, Descending(C, w)) == Initial(C, w)
    decreases C - w
  {
    if w == C {
      assert Descending(C, w) == [];
      InitialAllWorking(C);
    } else {
      InitialIsReplay(C, w + 1);
      InitialStep(C, w);
      ReplayInitialStep(C, w, Descending(C, w + 1));
    }
  }

  /** INITANCHOR's store is reachable and keeps every invariant. */
  lemma InitialReachable(C: nat, w: nat)
    requires 1 <= w <= C
    ensures Removable(C, Initial(C, w).R) && Initial(C, w) == Replay(C, Initial(C, w).R)
    ensures Inv(Initial(C, w))
  {
    InitialIsReplay(C, w);
    ReplayInv(C, Descending(C, w));
  }

  // ---------------------------------------------------------------------------
  // The successor walk shared by GETBUCKET and GETPATH

  /**
   * The inner loop `while A[h] >= t: h = K[h]`. It stops at the first bucket
   * whose status is below t; L[h] < t is what keeps it from meeting a
   * self-successor.
   */
  function Chase(s: Store, t: nat, h: nat): (r: nat)
    requires Inv(s) && h < |s.A| && s.L[h] < t
    ensures r < |s.A| && s.A[r] < t && s.L[r] < t
    decreases s.A[h]
  {
    if s.A[h] < t then h else Chase(s, t, s.K[h])
  }
}
