/** The buffer cache of kernel/bio.c as a value: the slot pool, the 13 hash
    buckets (each a list of slot indices from most to least recently used),
    the cache invariant, and one function per operation giving the new
    state and the result. The class in module Bio is proved against these. */
module BioSpec {
  import opened Seqs

  /** Number of hash buckets (NBUCKET in bio.c). */
  const NBUCKET: nat := 13

  /** Home bucket of a block number (BHASH in bio.c): one of the 13
      buckets, and block numbers 13 apart share it. */
  function BHash(blockno: nat): (h: nat)
    ensures h < NBUCKET && (blockno - h) % NBUCKET == 0
  {
    blockno % NBUCKET
  }

  /** Block contents; the block size (BSIZE) is not part of this model. */
  type Block = seq<bv8>

  /** The contents of a zero-initialised buffer. */
  const ZERO_BLOCK: Block := []

  datatype BlockId = BlockId(dev: nat, blockno: nat)

  /** One buffer slot: identity, valid flag, reference count, whether the
      content (sleep) lock is held, and the cached contents. */
  datatype Buf = Buf(dev: nat, blockno: nat, valid: bool, refcnt: nat, locked: bool, data: Block)
  {
    function Id(): BlockId {
      BlockId(dev, blockno)
    }
  }

  /** The three panics of bio.c: "bget: no buffers", "bwrite", "brelse". */
  datatype Panic = NoBuffers | WriteNotHeld | ReleaseNotHeld

  datatype Option<T> = None | Some(value: T)

  datatype Result<T> = Ok(value: T) | Err(error: Panic)

  /** The whole cache. `issued` marks the slots that bget has handed out at
      least once (all slots start out with the identity (0, 0), and a hit on
      such a slot hands it out without setting an identity); `pins` counts
      the bpin calls not yet undone by bunpin. Both are bookkeeping for the
      proofs; bio.c keeps neither. */
  datatype State = State(bufs: seq<Buf>, buckets: seq<seq<nat>>, issued: seq<bool>, pins: seq<nat>)

  /** The state after an operation, and its result. */
  datatype Step<T> = Step(st: State, res: Result<T>)

  /** The disk as seen by the cache: a block never written reads as the
      empty block ZERO_BLOCK. */
  function DiskRead(disk: map<BlockId, Block>, id: BlockId): Block {
    if id in disk then disk[id] else ZERO_BLOCK
  }

  // ---------------------------------------------------------------------
  // The invariant

  /** Every entry of q is a slot index below n. */
  ghost predicate InRange(q: seq<nat>, n: nat) {
    forall i :: 0 <= i < |q| ==> q[i] < n
  }

  ghost predicate Shaped(st: State) {
    && |st.buckets| == NBUCKET
    && |st.issued| == |st.bufs|
    && |st.pins| == |st.bufs|
    && forall k :: 0 <= k < NBUCKET ==> InRange(st.buckets[k], |st.bufs|)
  }

  /** A slot listed in bucket k has a block number that hashes to k. */
  ghost predicate Placed(st: State)
    requires Shaped(st)
  {
    forall k, j :: 0 <= k < NBUCKET && 0 <= j < |st.buckets[k]| ==>
      BHash(st.bufs[st.buckets[k][j]].blockno) == k
  }

  /** Every slot is listed in the bucket its block number hashes to. */
  ghost predicate Covered(st: State)
    requires Shaped(st)
  {
    forall s :: 0 <= s < |st.bufs| ==> s in st.buckets[BHash(st.bufs[s].blockno)]
  }

  /** No bucket lists a slot twice. */
  ghost predicate Distinct(st: State)
    requires Shaped(st)
  {
    forall k :: 0 <= k < NBUCKET ==> NoDup(st.buckets[k])
  }

  /** The reference count covers the pins and the held content lock, and a
      slot that is referenced or holds valid contents has been handed out by
      bget. */
  ghost predicate Counted(st: State)
    requires Shaped(st)
  {
    forall s :: 0 <= s < |st.bufs| ==>
      && st.bufs[s].refcnt >= st.pins[s] + (if st.bufs[s].locked then 1 else 0)
      && (st.bufs[s].refcnt > 0 ==> st.issued[s])
      && (st.bufs[s].valid ==> st.issued[s])
  }

  /** No two slots that bget has handed out hold the same block. */
  ghost predicate Unique(st: State)
    requires Shaped(st)
  {
    forall s, t :: 0 <= s < |st.bufs| && 0 <= t < |st.bufs| && s != t && st.issued[s] && st.issued[t] ==>
      st.bufs[s].Id() != st.bufs[t].Id()
  }

  /** In bucket c, a slot never handed out never comes before (is never
      found first by the lookup instead of) an issued slot with the same
      identity. */
  ghost predicate OrderedIn(st: State, c: nat)
    requires Shaped(st) && c < NBUCKET
  {
    forall i, j ::
      0 <= i < j < |st.buckets[c]| && !st.issued[st.buckets[c][i]] && st.issued[st.buckets[c][j]] ==>
      st.bufs[st.buckets[c][i]].Id() != st.bufs[st.buckets[c][j]].Id()
  }

  ghost predicate Ordered(st: State)
    requires Shaped(st)
  {
    forall c :: 0 <= c < NBUCKET ==> OrderedIn(st, c)
  }

  /** The cache invariant over the slots and the bucket lists. */
  ghost predicate Inv(st: State) {
    && Shaped(st)
    && Placed(st)
    && Covered(st)
    && Distinct(st)
    && Counted(st)
    && Unique(st)
    && Ordered(st)
  }

  // ---------------------------------------------------------------------
  // Initial state (zero-initialised statics, then binit)

  /** n-1, ..., 1, 0: the order binit leaves bucket 0 in, since it inserts
      buf[0], buf[1], ... each at the head. */
  function Descending(n: nat): seq<nat> {
    if n == 0 then [] else [n - 1] + Descending(n - 1)
  }

  /** The zero-initialised statics after binit: n unreferenced, invalid,
      unlocked slots, none handed out or pinned. */
  function InitState(n: nat): (r: State)
    ensures |r.bufs| == n && |r.issued| == n && |r.pins| == n && |r.buckets| == NBUCKET
    ensures forall s :: 0 <= s < n ==>
      && r.bufs[s].refcnt == 0 && !r.bufs[s].valid && !r.bufs[s].locked
      && !r.issued[s] && r.pins[s] == 0
  {
    State(seq(n, _ => Buf(0, 0, false, 0, false, ZERO_BLOCK)),
          [Descending(n)] + seq(NBUCKET - 1, _ => []),
          seq(n, _ => false),
          seq(n, _ => 0))
  }

  // ---------------------------------------------------------------------
  // The scans of bget

  /** Scan q from the head (most recently used) starting at position `from`
      for a slot holding block id. */
  function FindBlock(q: seq<nat>, bufs: seq<Buf>, id: BlockId, from: nat): (r: Option<nat>)
    requires InRange(q, |bufs|) && from <= |q|
    ensures r.Some? ==> from <= r.value < |q| && bufs[q[r.value]].Id() == id
    ensures forall i :: from <= i < (if r.Some? then r.value else |q|) ==> bufs[q[i]].Id() != id
    decreases |q| - from
  {
    if from == |q| then None
    else if bufs[q[from]].Id() == id then Some(from)
    else FindBlock(q, bufs, id, from + 1)
  }

  /** Scan the first `upto` entries of q from the tail (least recently used)
      for an unreferenced slot. */
  function FindFree(q: seq<nat>, bufs: seq<Buf>, upto: nat): (r: Option<nat>)
    requires InRange(q, |bufs|) && upto <= |q|
    ensures r.Some? ==> r.value < upto && bufs[q[r.value]].refcnt == 0
    ensures forall i :: (if r.Some? then r.value + 1 else 0) <= i < upto ==> bufs[q[i]].refcnt > 0
    decreases upto
  {
    if upto == 0 then None
    else if bufs[q[upto - 1]].refcnt == 0 then Some(upto - 1)
    else FindFree(q, bufs, upto - 1)
  }

  /** Scan buckets from, from+1, ..., NBUCKET-1, skipping home, each from
      the tail, for an unreferenced slot; the result is (bucket, position). */
  function FindVictim(st: State, home: nat, from: nat): (r: Option<(nat, nat)>)
    requires Shaped(st) && from <= NBUCKET
    ensures r.Some? ==>
      && from <= r.value.0 < NBUCKET && r.value.0 != home
      && r.value.1 < |st.buckets[r.value.0]|
      && st.bufs[st.buckets[r.value.0][r.value.1]].refcnt == 0
      && forall i :: r.value.1 < i < |st.buckets[r.value.0]| ==> st.bufs[st.buckets[r.value.0][i]].refcnt > 0
    ensures forall k, i :: from <= k < (if r.Some? then r.value.0 else NBUCKET) && k != home && 0 <= i < |st.buckets[k]| ==>
      st.bufs[st.buckets[k][i]].refcnt > 0
    decreases NBUCKET - from
  {
    if from == NBUCKET then None
    else if from == home then FindVictim(st, home, from + 1)
    else match FindFree(st.buckets[from], st.bufs, |st.buckets[from]|)
      case Some(p) => Some((from, p))
      case None => FindVictim(st, home, from + 1)
  }

  // ---------------------------------------------------------------------
  // The operations

  /** A hit: one more reference, and the caller now holds the content lock. */
  function Hold(b: Buf): (r: Buf)
    ensures r.Id() == b.Id() && r.valid == b.valid && r.data == b.data
    ensures r.refcnt == b.refcnt + 1 && r.locked
  {
    b.(refcnt := b.refcnt + 1, locked := true)
  }

  /** A recycled slot: new identity, contents invalid, one reference, locked. */
  function Claim(b: Buf, id: BlockId): (r: Buf)
    ensures r.Id() == id && !r.valid && r.refcnt == 1 && r.locked
    ensures r.data == b.data
  {
    b.(dev := id.dev, blockno := id.blockno, valid := false, refcnt := 1, locked := true)
  }

  /** Hand slot s, now b, to the caller. */
  function Take(st: State, s: nat, b: Buf): State
    requires s < |st.bufs| && |st.issued| == |st.bufs|
  {
    st.(bufs := st.bufs[s := b], issued := st.issued[s := true])
  }

  /** The state bget builds when it moves slot buckets[k][p] to the tail of
      the home bucket and recycles it for id. */
  function Migrated(st: State, id: BlockId, k: nat, p: nat): (r: State)
    requires Shaped(st) && k < NBUCKET && p < |st.buckets[k]|
    ensures Shaped(r) && |r.bufs| == |st.bufs| && r.pins == st.pins
    ensures r.bufs == st.bufs[st.buckets[k][p] := Claim(st.bufs[st.buckets[k][p]], id)]
    ensures r.issued == st.issued[st.buckets[k][p] := true]
    ensures k != BHash(id.blockno) ==> r.buckets[k] == RemoveAt(st.buckets[k], p)
    ensures r.buckets[BHash(id.blockno)] == st.buckets[BHash(id.blockno)] + [st.buckets[k][p]]
    ensures forall c :: 0 <= c < NBUCKET && c != k && c != BHash(id.blockno) ==> r.buckets[c] == st.buckets[c]
  {
    var home := BHash(id.blockno);
    var s := st.buckets[k][p];
    var moved := st.(buckets := st.buckets[k := RemoveAt(st.buckets[k], p)][home := st.buckets[home] + [s]]);
    Take(moved, s, Claim(st.bufs[s], id))
  }

  /** bget(dev, blockno). The re-scan of the home bucket under the superlock
      finds what the first scan found, so a single scan stands for both. */
  function BGet(st: State, dev: nat, blockno: nat): (r: Step<nat>)
    requires Shaped(st)
    ensures Shaped(r.st) && |r.st.bufs| == |st.bufs|
    ensures r.res.Ok? ==> r.res.value < |st.bufs|
  {
    var id := BlockId(dev, blockno);
    var home := BHash(blockno);
    var q := st.buckets[home];
    match FindBlock(q, st.bufs, id, 0)
    case Some(j) =>
      Step(Take(st, q[j], Hold(st.bufs[q[j]])), Ok(q[j]))
    case None =>
      match FindFree(q, st.bufs, |q|)
      case Some(j) =>
        Step(Take(st, q[j], Claim(st.bufs[q[j]], id)), Ok(q[j]))
      case None =>
        match FindVictim(st, home, 0)
        case Some((k, p)) =>
          Step(Migrated(st, id, k, p), Ok(st.buckets[k][p]))
        case None =>
          Step(st, Err(NoBuffers))
  }

  /** Whether bread(dev, blockno) goes to the disk: bget succeeded and the
      slot it returned is not valid. */
  function NeedsRead(st: State, dev: nat, blockno: nat): (r: bool)
    requires Inv(st)
    ensures r ==> var g := BGet(st, dev, blockno);
      g.res.Ok? && g.st.bufs[g.res.value].Id() == BlockId(dev, blockno)
    ensures var g := BGet(st, dev, blockno);
      g.res.Ok? && !r ==> st.bufs[g.res.value].valid && st.bufs[g.res.value].Id() == BlockId(dev, blockno)
  {
    var g := BGet(st, dev, blockno);
    g.res.Ok? && !g.st.bufs[g.res.value].valid
  }

  /** bread(dev, blockno): bget, then fill the slot from disk if not valid. */
  function BRead(st: State, disk: map<BlockId, Block>, dev: nat, blockno: nat): (r: Step<nat>)
    requires Inv(st)
    ensures |r.st.bufs| == |st.bufs|
  {
    var g := BGet(st, dev, blockno);
    if NeedsRead(st, dev, blockno) then
      var s := g.res.value;
      var b := g.st.bufs[s];
      Step(g.st.(bufs := g.st.bufs[s := b.(valid := true, data := DiskRead(disk, b.Id()))]), g.res)
    else g
  }

  /** bwrite(b): the new disk and the result; the cache itself never changes. */
  function BWrite(st: State, disk: map<BlockId, Block>, b: nat): (r: (map<BlockId, Block>, Result<()>))
    requires b < |st.bufs|
    ensures r.1.Err? <==> !st.bufs[b].locked
    ensures r.1.Err? ==> r.1.error == WriteNotHeld && r.0 == disk
    ensures r.1.Ok? ==> r.0.Keys == disk.Keys + {st.bufs[b].Id()}
  {
    var x := st.bufs[b];
    if !x.locked then (disk, Err(WriteNotHeld))
    else (disk[x.Id() := x.data], Ok(()))
  }

  /** brelse(b): drop the content lock and one reference; a slot left
      unreferenced moves to the head of bucket BHash(blockno). */
  function BRelse(st: State, b: nat): (r: Step<()>)
    requires Inv(st) && b < |st.bufs|
    ensures r.res.Err? <==> !st.bufs[b].locked
    ensures |r.st.bufs| == |st.bufs| && r.st.issued == st.issued && r.st.pins == st.pins
    ensures r.res.Ok? ==> !r.st.bufs[b].locked && r.st.bufs[b].refcnt + 1 == st.bufs[b].refcnt
  {
    var x := st.bufs[b];
    if !x.locked then Step(st, Err(ReleaseNotHeld))
    else
      var bufs := st.bufs[b := x.(locked := false, refcnt := x.refcnt - 1)];
      if x.refcnt - 1 == 0 then
        var k := BHash(x.blockno);
        Step(st.(bufs := bufs, buckets := st.buckets[k := [b] + Remove(st.buckets[k], b)]), Ok(()))
      else
        Step(st.(bufs := bufs), Ok(()))
  }

  /** bpin(b): one more reference. */
  function BPin(st: State, b: nat): (r: State)
    requires Inv(st) && b < |st.bufs|
    ensures r.buckets == st.buckets && r.issued == st.issued && |r.bufs| == |st.bufs|
    ensures r.bufs[b].refcnt == st.bufs[b].refcnt + 1 && r.bufs[b].Id() == st.bufs[b].Id()
  {
    st.(bufs := st.bufs[b := st.bufs[b].(refcnt := st.bufs[b].refcnt + 1)],
        pins := st.pins[b := st.pins[b] + 1])
  }

  /** bunpin(b): one reference fewer. */
  function BUnpin(st: State, b: nat): (r: State)
    requires Inv(st) && b < |st.bufs| && st.pins[b] > 0
    ensures r.buckets == st.buckets && r.issued == st.issued && |r.bufs| == |st.bufs|
    ensures r.bufs[b].refcnt + 1 == st.bufs[b].refcnt && r.bufs[b].Id() == st.bufs[b].Id()
  {
    st.(bufs := st.bufs[b := st.bufs[b].(refcnt := st.bufs[b].refcnt - 1)],
        pins := st.pins[b := st.pins[b] - 1])
  }
}
