# AnchorHash in Dafny

This project models go-anchorhash, a Go implementation of AnchorHash, a
consistent-hashing structure. It covers three parts:

- **The wide anchor** (`Anchor`, in anchor.go). It has four arrays, each with
  one cell per bucket:
  - `A`: the status of each bucket;
  - `W`: the working buckets;
  - `L`: each bucket's location in `W`;
  - `K`: each removed bucket's successor.

  It also has a LIFO stack `R` of removed buckets and a working count `N`. The
  operations are `NewAnchor`, `GetBucket`, `AddBucket` and `RemoveBucket`.
- **The compact anchor** (`CompactAnchor`, in compact_anchor.go). It is the
  same structure over 16-bit ids. It adds `GetPath`, and its `RemoveBucket`
  ignores a bucket that is already removed.
- **Jenkins' small PRNG** (`randctx`, in rand.go).

The files are organised as follows:

- `anchor_model.dfy` (module `AnchorModel`) holds the arrays as one value,
  `Store`. On that value it defines:
  - `Remove` and `Add`: the REMOVEBUCKET and ADDBUCKET updates, in the Go
    assignment order;
  - `Inv`: the invariant, conjunct by conjunct;
  - `Replay(C, rs)`: the store reached from the identity store of capacity
    `C` by removing the buckets of `rs` in order.

  Every state reached from `NewAnchor`, or from the corrected compact
  constructor, by additions and by removals of working buckets that leave
  one working, is `Replay(C, R)`. Removal keeps `Inv`. An addition exactly
  undoes the removal that pushed its bucket, so additions keep `Inv` as
  well. Removing the last working bucket, removing an already removed
  bucket in the wide variant, or starting from the compact constructor as
  written (see "Findings") leaves this set of states.
- `anchor.dfy` and `compact_anchor.dfy` hold the two classes. In each class:
  - the slices are array fields, overwritten in place;
  - `R` and `N` are fields that the methods reassign;
  - every method is proved against the `Store` operations on `Snapshot()`;
  - `Valid()` is the class invariant: `Snapshot() == Replay(len(A), R)`
    plus `Inv`.
- `rand.dfy` models a 32-bit word as an integer in [0, 2^32). Wrapping
  `+` and `-` are taken modulo 2^32. Shifts, `|` and `^` act on the word's
  32 bits.

The invariant, as kept by both classes:

- `W[0..N)` lists the working buckets, each once, and `L[W[i]] == i`.
- A working bucket `x` sits at `W[L[x]]` and is its own successor.
- The stack entry at depth `i` has status `len(A)-1-i`.
- Every removed bucket is on the stack, with a status in `[N, len(A))`.
- `L[x] <= x`.
- For a removed `x` with `L[x] < A[x]`, the successor has a smaller status,
  and its location is no further right.

AnchorHash is usually documented with the invariant "`A[K[b]] < A[b]` for
every removed `b`". That invariant does not hold for this code. Removing the
bucket that sits last in `W` makes it its own successor while its status is
positive (`RemovingLastMakesSelfSuccessor`). The lookup loops still end. A
lookup chases successors only from a bucket whose location is below the
threshold, and the guarded form above is enough for that.

## Model

| member | source | states |
|---|---|---|
| AnchorModel.Remove | anchor.go:126-133 | REMOVEBUCKET on the store: the arrays keep their shape, `N` drops by one and `b` is pushed on `R` |
| AnchorModel.Add | anchor.go:107-116 | ADDBUCKET on the store: the arrays keep their shape, `N` grows by one and the top of `R` is popped |
| AnchorModel.Shape | anchor.go:29-46 | the five slices have one cell per bucket, ids stored in `W`, `L` and `K` are buckets, and `N + len(R)` is the capacity |
| AnchorModel.HasWorking | anchor.go:44-45 | a non-empty anchor has at least one working bucket |
| AnchorModel.Listed | anchor.go:38-41 | `W[0..N)` holds working buckets and `L` inverts `W` there |
| AnchorModel.Placed | anchor.go:38-43 | a working bucket `x` sits at `W[L[x]]` and is its own successor |
| AnchorModel.Stacked | anchor.go:31-37 | a bucket is working (status 0) or removed with status in `[N, len(A))`, and every removed bucket is on `R` |
| AnchorModel.StackOrdered | anchor.go:31-37 | the entry pushed `i`-th on `R` has status `len(A)-1-i`, the size of the working set just after its removal |
| AnchorModel.Leftward | anchor.go:40-41 | a bucket's location in `W` is never to the right of its id |
| AnchorModel.Chained | anchor.go:42-43 | a removed bucket whose location is below its status has a successor with a smaller status and a location no further right |
| AnchorModel.Inv | anchor.go:29-46 | the invariant of the slices: the conjunction of the seven predicates above |
| AnchorModel.PlacedAt | anchor.go:38-43 | a working bucket sits in `W[0..N)` at its location and is its own successor |
| AnchorModel.ListedAt | anchor.go:38-41 | each of `W[0..N)` is working and `L` inverts `W` there |
| AnchorModel.RemoveKeepsListedPlaced | anchor.go:126-133 | removing a working bucket while another remains keeps `W[0..N)` an exact, duplicate-free list of working buckets, with `L` inverting it |
| AnchorModel.RemoveKeepsStacked | anchor.go:126-130 | removal keeps the stack statuses, the status range `[N, C)` and "every removed bucket is on R" |
| AnchorModel.RemoveKeepsStackOrdered | anchor.go:126-130 | `A[R[i]] == C-1-i` survives any removal of a zero-status bucket, whatever `W`, `L` and `K` hold |
| AnchorModel.AddKeepsStackOrdered | anchor.go:107-116 | `A[R[i]] == C-1-i` survives any ADDBUCKET, whatever `W`, `L` and `K` hold |
| AnchorModel.RemoveKeepsChained | anchor.go:126-133 | removal keeps `L[x] <= x` and the guarded successor order |
| AnchorModel.RemovePreservesInv | anchor.go:126-133 | REMOVEBUCKET of a working bucket while another remains keeps the whole invariant |
| AnchorModel.RemovingLastMakesSelfSuccessor | anchor.go:131 | removing the bucket last in `W` leaves `K[b] == b` with `A[b] > 0`, so `A[K[b]] < A[b]` fails |
| AnchorModel.RemovingSoleWorkingLooksWorking | anchor.go:127-130 | removing the only working bucket gives it status 0 with `N == 0`: it reads as working while none is listed |
| AnchorModel.RoundTrip | anchor.go:107-133 | REMOVEBUCKET(b) then ADDBUCKET() returns `b` and restores `A`, `W`, `L`, `K`, `R` and `N` exactly |
| AnchorModel.Identity | anchor.go:66-68 | the all-working identity store has `N == C` and an empty stack |
| AnchorModel.IdentityInv | anchor.go:66-68 | the identity store satisfies the invariant |
| AnchorModel.Replay | anchor.go:126-133 | removing the buckets of `rs` in order from the identity store leaves `R == rs` and `N + \|rs\| == C` |
| AnchorModel.ReplayInv | anchor.go:126-133 | every store reachable by valid removals satisfies the invariant |
| AnchorModel.RemovablePrefix | anchor.go:126-133 | every prefix of a valid removal sequence is valid |
| AnchorModel.ReplayRemove | anchor.go:126-133 | one more valid removal extends the replayed stack by that bucket |
| AnchorModel.ReplayAdd | anchor.go:107-116 | on a reachable store ADDBUCKET returns the top of `R` and gives the store replayed without it |
| AnchorModel.AddUndoesLast | anchor.go:107-116 | one addition after removing `xs` hands back the last of `xs` and undoes its removal |
| AnchorModel.LifoStep | anchor.go:107-116 | one more addition puts the last bucket of `xs` in front of the rest, reversed |
| AnchorModel.LifoRestore | anchor.go:107-133 | after `k` removals from a reachable store, `k` additions return the buckets in reverse removal order and restore the store |
| AnchorModel.LifoEmptying | anchor.go:107-133 | when the last removal takes away the only working bucket `b`, `k+1` additions still return `b` first, then the others in reverse removal order, and restore the store |
| AnchorModel.RemoveFromInitial | anchor.go:69-71 | removing `w` from the state with `w+1` working buckets gives the state with `w` working |
| AnchorModel.Descending | anchor.go:50-56 | the stack INITANCHOR leaves: `a-1` pushed first, down to `w` on top |
| AnchorModel.Initial | anchor.go:50-56 | the state INITANCHOR describes: identity `W`, `L` and `K`, status `b` for every unused `b`, `N == w` |
| AnchorModel.InitialAllWorking | anchor.go:66-68 | with `used == buckets` the constructor's state is the identity store |
| AnchorModel.InitialStep | anchor.go:69-71 | one turn of the removal loop: `w` is working, removing it gives the next state, and `R` grows by `w` |
| AnchorModel.ReplayInitialStep | anchor.go:69-71 | a replay reaching the state with `w+1` working reaches the state with `w` working once `w` is removed |
| AnchorModel.InitialIsReplay | anchor.go:57-73 | the constructor's state is the identity store with `buckets-1` down to `used` removed in order |
| AnchorModel.InitialReachable | anchor.go:57-73 | the constructor's state is reachable and satisfies the invariant |
| AnchorModel.Chase | anchor.go:90-92 | the inner loop ends on a bucket whose status is below the threshold, and it reads only cells below `len(A)` |
| Anchor.UintOf | anchor.go:69 | `uint(used)` is the value for non-negative `used` and `used + 2^64` for negative `used` |
| Anchor.InitialWorking | anchor.go:69-71 | the constructor ends with `used` working buckets when `0 < used <= buckets`, and with all of them when `used` is negative or too large |
| Anchor.Walk | anchor.go:88-94 | the outer loop ends, on a working bucket |
| Anchor.Lookup | anchor.go:85-96 | GETBUCKET's result is a working bucket below `len(A)` |
| Anchor.Anchor.constructor | anchor.go:57-73 | `N == used`, `R == [buckets-1, ..., used]`, `A[b] == b` exactly for `b >= used`, `W`/`L`/`K` the identity, and a valid state |
| Anchor.Anchor.RemoveDownTo | anchor.go:69-71 | the descending loop of REMOVEBUCKET calls ends in the constructor's state for `min(uint(used), buckets)` working buckets |
| Anchor.Anchor.GetBucket | anchor.go:85-96 | on a state satisfying the invariant both loops end, indices stay below `len(A)`, and the result is a working bucket, `Lookup` of the state |
| Anchor.Anchor.AddBucket | anchor.go:107-116 | returns the top of `R`; the new state is `Add` of the old one; validity is kept, and the state becomes the replay without the popped bucket |
| Anchor.Anchor.RemoveBucket | anchor.go:126-133 | the new state is `Remove` of the old one; with `b` working and another bucket working, validity is kept and `R` grows by `b` |
| Anchor.Anchor.Detach | anchor.go:127-132 | the in-place assignments of REMOVEBUCKET produce `Remove` of the old state |
| Anchor.CapacitySevenTrace | anchor_test.go:37-74 | capacity 7: after removing 6, 5 and 1, `W` is `[0,4,2,3,4,5,6]` and `L` is `[0,1,2,3,1,5,6]`; after removing 0, `K` is `[3,4,2,3,4,5,6]`; four additions return 0, 1, 5, 6 and restore the identity |
| Compact.ChaseRestEnds | compact_anchor.go:142-145 | the successors GETPATH appends are buckets, and the last one is where the inner loop stops |
| Compact.BelowConcat | compact_anchor.go:141-144 | appending ids below `len(A)` keeps every id below `len(A)` |
| Compact.ChaseRest | compact_anchor.go:142-145 | the ids the inner loop of GETPATH appends: the successors followed while the status is at least the threshold |
| Compact.Probe | compact_anchor.go:96-103 | with one fleaRound per removed bucket left, the outer loop ends on a working bucket |
| Compact.Start | compact_anchor.go:95 | the first bucket is below `len(A)` |
| Compact.Bucket | compact_anchor.go:92-105 | GETBUCKET's result is a working bucket |
| Compact.PathFrom | compact_anchor.go:138-147 | the ids the outer loop of GETPATH appends from `b`: each probe `h`, then the successors chased from it |
| Compact.Path | compact_anchor.go:133-149 | the path GETPATH appends for a key: the start bucket, then `PathFrom` it |
| Compact.PathFromEnds | compact_anchor.go:138-147 | every id the loop appends is a bucket, and the last is where the probe sequence ends |
| Compact.PathEndsAtBucket | compact_anchor.go:133-149 | the path is non-empty, every id on it is below `len(A)`, and its last id is GETBUCKET's bucket for the key |
| Compact.LenientRemove | compact_anchor.go:179-189 | a removed bucket leaves the store unchanged; a working one is removed exactly as in the wide variant |
| Compact.DuplicateRemovalIgnored | compact_anchor.go:180-182 | removing a bucket a second time changes nothing |
| Compact.AsWrittenInitial | compact_anchor.go:58-74 | the constructor as written: `A`, `R` and `N` as INITANCHOR prescribes, `K`/`W`/`L` the identity below `used` and 0 at `used` |
| Compact.AsWrittenDiffers | compact_anchor.go:67-69 | with an unused bucket, the as-written state differs from INITANCHOR's |
| Compact.AsWrittenStackOrdered | compact_anchor.go:70-72 | the as-written constructor still gives `A[R[i]] == len(A)-1-i` |
| Compact.TrapStart | compact_anchor.go:58-74 | NewCompactAnchor(5, 2) as written leaves `W == K == L == [0,1,0,0,0]` |
| Compact.TrapFirstAdd | compact_anchor.go:160-169 | the first ADDBUCKET from that state |
| Compact.TrapSecondAdd | compact_anchor.go:160-169 | the second ADDBUCKET from that state |
| Compact.TrapFirstRemove | compact_anchor.go:179-189 | RemoveBucket(3) from that state |
| Compact.TrapSecondRemove | compact_anchor.go:179-189 | RemoveBucket(0) from that state |
| Compact.TrapNotListed | compact_anchor.go:165-166 | after the two adds, `W[0..4) == [3,1,0,0]`: bucket 2 is missing and 0 is listed twice, so the invariant is broken |
| Compact.AsWrittenTrap | compact_anchor.go:67-72 | the full counterexample: two adds, then removing 3 and 0, leaves bucket 0 removed (`A[0] == 2`) and its own successor, so every number of inner-loop hops from it stays at 0 |
| Compact.Hops | compact_anchor.go:99-101 | the bucket the inner loop of GETBUCKET reaches after `n` successor hops; it is always a bucket |
| Compact.SelfSuccessorStays | compact_anchor.go:99-101 | from a bucket that is its own successor, any number of inner-loop hops stays there, so `A[h] >= A[b]` never becomes false |
| Compact.InitialArrays | compact_anchor.go:67-72 | the two fill loops: `A[b] == b` exactly for `b >= used`, `R == [buckets-1, ..., used]`, and `K`/`W`/`L` the identity below the fill bound and 0 above it |
| Compact.CompactAnchor.constructor | compact_anchor.go:58-74 | corrected constructor: the INITANCHOR state, which is valid |
| Compact.CompactAnchor.AsWritten | compact_anchor.go:58-74 | constructor as written: well-formed, with the `AsWrittenInitial` state |
| Compact.CompactAnchor.GetBucket | compact_anchor.go:92-105 | on a state satisfying the invariant, with `fastMod(x, m) < m`, both loops end and the result is the working bucket `Bucket` gives |
| Compact.CompactAnchor.Follow | compact_anchor.go:99-101 | the inner loop ends where `Chase` stops: the first successor whose status is below `A[b]` |
| Compact.CompactAnchor.GetPath | compact_anchor.go:133-149 | the result is the caller's buffer followed by the key's path |
| Compact.CompactAnchor.AppendChase | compact_anchor.go:142-145 | the inner loop appends exactly the successors it visits and stops where `Chase` stops |
| Compact.CompactAnchor.AddBucket | compact_anchor.go:160-169 | returns the top of `R`; the new state is `Add` of the old one; validity is kept |
| Compact.CompactAnchor.RemoveBucket | compact_anchor.go:179-189 | the new state is `LenientRemove` of the old one, unchanged for a removed bucket; validity is kept while a working bucket remains |
| Compact.CompactAnchor.Detach | compact_anchor.go:183-188 | the in-place assignments produce `Remove` of the old state |
| Rand.ShiftOrIsRotation | rand.go:41-42 | `(x << k) \| (x >> (32-k))` is the left rotation of `x` by `k` |
| Rand.RotationLosesNoBits | rand.go:41-42 | rotating left then right by the same amount, or right then left, gives `x` back |
| Rand.AddSubCancel | rand.go:41-45 | wrapping addition and subtraction undo each other |
| Rand.XorTwice | rand.go:42 | xor with the same word twice gives the word back |
| Rand.Shl | rand.go:41-42 | `x << k` on 32 bits: bit `i` is bit `i-k` of `x`, and the low `k` bits are 0 |
| Rand.Shr | rand.go:41-42 | `x >> k` on 32 bits: bit `i` is bit `i+k` of `x`, and the high `k` bits are 0 |
| Rand.Or | rand.go:41-42 | bitwise or of two words |
| Rand.Xor | rand.go:42 | bitwise exclusive or of two words |
| Rand.Add | rand.go:43-45 | wrapping `uint32` addition: the exact sum, less 2^32 at most once |
| Rand.Sub | rand.go:41 | wrapping `uint32` subtraction: the exact difference, plus 2^32 at most once |
| Rand.E | rand.go:41 | the temporary `e` of next: `a` minus `b` rotated left by 27 |
| Rand.Round | rand.go:40-46 | one call of next on the four words, in the Go assignment order |
| Rand.RoundByRotations | rand.go:40-46 | `e = a - rotl(b,27)`, `a' = b ^ rotl(c,17)`, `b' = c + d`, `c' = d + e`, `d' = e + a'`, with `d'` using the new `a` |
| Rand.UnroundRound | rand.go:40-46 | a round is injective: `Unround` undoes it |
| Rand.RoundUnround | rand.go:40-46 | a round is surjective: every state has a predecessor |
| Rand.IterateFirst | rand.go:34-36 | one step followed by `n` more is `n + 1` steps |
| Rand.OutputIsIterateD | rand.go:46 | the i-th output is the `d` word after `i + 1` rounds |
| Rand.OutputsSnoc | rand.go:46 | one more call appends the `d` word of the state it reaches |
| Rand.RandCtx.constructor | rand.go:32-38 | newRand: start from `0xf1ea5eed, seed, seed, seed` and apply exactly three rounds |
| Rand.Seeded | rand.go:32-38 | the state newRand returns: three rounds from `0xf1ea5eed, seed, seed, seed` |
| Rand.RandCtx.Next | rand.go:40-47 | the new state is one round of the old one, and the result is the new `d` |
| Rand.RandCtx.Take | rand.go:40-47 | `n` calls return the first `n` words of the stream and leave the state `n` rounds on |
| Rand.SameSeedSameStream | rand.go:32-47 | two generators seeded alike return the same outputs |

## Left out

- `fleaInit`, `fleaRound` and `fastMod` are not part of this model. Lookups
  take them as function parameters. The model relies only on
  `fastMod(x, m) < m` for `m > 0`. It does not assume that `fleaRound` is the
  round in rand.go.
- Go slice growth in `GetPath` is not modelled. The buffer is a sequence,
  and the path is appended to it. Whether the result aliases the caller's
  slice is not modelled.
- Go panics on fixed-width overflow are modelled as preconditions. Examples
  are `N--` at 0, the unsigned loops of the constructors with `used == 0`,
  and `buckets-used` going negative. The wide variant's 64-bit `uint` and
  the compact variant's 16-bit ids appear only as bounds on the capacity and
  the hash.
- Lookups (`GetBucket`, `GetPath`) require the invariant of the current
  state, not the full `Valid()`. That is a weaker demand. It holds for every
  state reached from `NewAnchor` or the corrected compact constructor by
  additions and by removals of working buckets that leave one working. The
  lookups are not modelled on other states.
- `AddBucket` on an empty `R` panics in Go on the index `R[len(R)-1]`
  (anchor.go:109, compact_anchor.go:162). The model requires `|R| > 0`
  instead.
- `RemoveBucket(b)` with `b >= len(A)` panics in Go on an index out of range.
  The model requires `b < len(A)` instead.
- `GetBucket` and `GetPath` with `len(A) == 0` panic in Go: the wide variant
  takes `hash % 0` (anchor.go:87), and the compact one calls `fastMod` with
  a zero range. The model requires `len(A) > 0` instead.
- The capacity-7 trace is stated on `Store` values, not on an object.
- Words in rand.go are integers in [0, 2^32), with explicit bit-level
  shifts, or and xor. They are not `bv32`.
- The statistical tests and benchmarks in anchor_test.go and
  anchor_bench_test.go are not modelled. They assert nothing exact.
- The consistency (minimal-disruption) theorem of AnchorHash is not stated.
- Concurrency: the Go types are unsynchronised, and there is nothing to
  model.

## Findings

| source | as written | input that shows it | evidently intended | confidence | as-written member | corrected member |
|---|---|---|---|---|---|---|
| compact_anchor.go:67-69 | NewCompactAnchor sets `K[b]`, `W[b]` and `L[b]` to `b` only for `b < used`. For every unused bucket they stay 0. | NewCompactAnchor(5, 2), then AddBucket twice, gives `W[0..4) == [3,1,0,0]`. Bucket 2 is missing and 0 is listed twice. Then RemoveBucket(3) and RemoveBucket(0) leave `A[0] == 2` and `K[0] == 0`. A later GetBucket that reaches bucket 0 and probes `h == 0` (`fastMod` of its word by `A[0] == 2` is 0) never leaves the inner loop: `A[0] >= A[0]` and `K[0] == 0`. | Set `K[b] = W[b] = L[b] = b` for every bucket, as the INITANCHOR pseudocode at compact_anchor.go:55 says. | not executed | Compact.AsWrittenTrap | Compact.CompactAnchor.constructor |
