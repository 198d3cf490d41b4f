/** The buffer cache of kernel/bio.c as a mutable object: the slot pool is
    an array of slot records, the 13 hash buckets an array of recency lists
    (slot indices, most recently used first), and each operation a method
    whose loops scan the lists as bio.c does. Every method is proved to
    produce exactly the state and result that module BioSpec prescribes, so
    the properties proved in module BioLemmas hold of it. */
module Bio {
  import opened Seqs
  import opened BioSpec
  import opened BioLemmas

  /** What the cache asked of the device. */
  datatype DiskOp = DiskReadOp(id: BlockId) | DiskWriteOp(id: BlockId)

  /** The device behind virtio_disk_rw: a map from block to contents, and a
      record of the requests it has served. */
  class Disk {
    var contents: map<BlockId, Block>
    ghost var log: seq<DiskOp>

    constructor (init: map<BlockId, Block>)
      ensures contents == init && log == []
    {
      contents := init;
      log := [];
    }

    /** virtio_disk_rw(b, 0) */
    method ReadBlock(id: BlockId) returns (data: Block)
      modifies this
      ensures contents == old(contents) && data == DiskRead(contents, id)
      ensures log == old(log) + [DiskReadOp(id)]
    {
      data := DiskRead(contents, id);
      log := log + [DiskReadOp(id)];
    }

    /** virtio_disk_rw(b, 1) */
    method WriteBlock(id: BlockId, data: Block)
      modifies this
      ensures contents == old(contents)[id := data]
      ensures log == old(log) + [DiskWriteOp(id)]
    {
      contents := contents[id := data];
      log := log + [DiskWriteOp(id)];
    }
  }

  /** The `bcache` structure. */
  class BufferCache {
    /** NBUF, the size of the slot pool. */
    const nbuf: nat
    /** The slots, buf[0..NBUF-1]. */
    const buf: array<Buf>
    /** hashbuckets: bucket k lists its slots from head.next (most recently
        used) to head.prev (least recently used). */
    const buckets: array<seq<nat>>
    /** Slots that bget has handed out at least once (proof bookkeeping). */
    ghost var issued: seq<bool>
    /** Outstanding bpin calls per slot (proof bookkeeping). */
    ghost var pins: seq<nat>

    ghost function Abs(): State
      reads this, buf, buckets
    {
      State(buf[..], buckets[..], issued, pins)
    }

    ghost predicate Valid()
      reads this, buf, buckets
    {
      buf.Length == nbuf && buckets.Length == NBUCKET && Inv(Abs())
    }

    /** The zero-initialised statics followed by binit: every bucket empty,
        then every slot inserted in turn at the head of bucket 0. */
    constructor (n: nat)
      ensures Valid() && Abs() == InitState(n)
      ensures forall s :: 0 <= s < n ==> s in buckets[0] && buf[s].refcnt == 0
      ensures forall k :: 1 <= k < NBUCKET ==> buckets[k] == []
    {
      nbuf := n;
      buf := new Buf[n](_ => Buf(0, 0, false, 0, false, ZERO_BLOCK));
      buckets := new seq<nat>[NBUCKET](_ => []);
      issued := seq(n, _ => false);
      pins := seq(n, _ => 0);
      new;
      var i := 0;
      while i < n
        modifies buckets
        invariant 0 <= i <= n
        invariant buckets[0] == Descending(i)
        invariant forall k :: 1 <= k < NBUCKET ==> buckets[k] == []
      {
        buckets[0] := [i] + buckets[0];
        i := i + 1;
      }
      InitInv(n);
      assert buf[..] == InitState(n).bufs;
      assert buckets[..] == InitState(n).buckets;
    }

    /** The scan of bucket k from head.next towards the tail for a slot
        holding block id (bio.c's hit loop). */
    method Lookup(k: nat, id: BlockId) returns (r: Option<nat>)
      requires k < buckets.Length && InRange(buckets[k], buf.Length)
      ensures r == FindBlock(buckets[k], buf[..], id, 0)
    {
      var q := buckets[k];
      var j := 0;
      while j < |q|
        invariant 0 <= j <= |q|
        invariant FindBlock(q, buf[..], id, j) == FindBlock(q, buf[..], id, 0)
      {
        if buf[q[j]].dev == id.dev && buf[q[j]].blockno == id.blockno {
          return Some(j);
        }
        j := j + 1;
      }
      return None;
    }

    /** The scan of bucket k from head.prev towards the head for an
        unreferenced slot (bio.c's recycling loops). */
    method LruFree(k: nat) returns (r: Option<nat>)
      requires k < buckets.Length && InRange(buckets[k], buf.Length)
      ensures r == FindFree(buckets[k], buf[..], |buckets[k]|)
    {
      var q := buckets[k];
      var j := |q|;
      while j > 0
        invariant 0 <= j <= |q|
        invariant FindFree(q, buf[..], j) == FindFree(q, buf[..], |q|)
      {
        if buf[q[j - 1]].refcnt == 0 {
          return Some(j - 1);
        }
        j := j - 1;
      }
      return None;
    }

    /** The scan of the other buckets, 0 to NBUCKET-1 skipping home, each
        from its least recently used end, for an unreferenced slot: the
        bucket and the position found. */
    method Victim(home: nat) returns (r: Option<(nat, nat)>)
      requires Valid()
      ensures r == FindVictim(Abs(), home, 0)
    {
      var k := 0;
      while k < NBUCKET
        invariant 0 <= k <= NBUCKET
        invariant FindVictim(Abs(), home, k) == FindVictim(Abs(), home, 0)
      {
        if k != home {
          var p := LruFree(k);
          if p.Some? {
            return Some((k, p.value));
          }
        }
        k := k + 1;
      }
      return None;
    }

    /** Store b in slot s and record that bget has handed it out. */
    method Install(s: nat, b: Buf)
      requires s < buf.Length && |issued| == buf.Length
      modifies this, buf
      ensures Abs() == Take(old(Abs()), s, b)
    {
      buf[s] := b;
      issued := issued[s := true];
    }

    /** bget: the returned slot holds the block with its content lock held. */
    method Get(dev: nat, blockno: nat) returns (r: Result<nat>)
      requires Valid()
      modifies this, buf, buckets
      ensures Valid()
      ensures Step(Abs(), r) == BGet(old(Abs()), dev, blockno)
    {
      ghost var st := Abs();
      ghost var g := BGet(st, dev, blockno);
      GetKeepsInv(st, dev, blockno);
      var id := BlockId(dev, blockno);
      var home := BHash(blockno);
      // Is the block already cached?
      var hit := Lookup(home, id);
      if hit.Some? {
        var s := buckets[home][hit.value];
        assert g == Step(Take(st, s, Hold(st.bufs[s])), Ok(s));
        Install(s, Hold(buf[s]));
        assert Abs() == g.st;
        return Ok(s);
      }
      // Not cached: recycle the least recently used unreferenced slot of
      // the home bucket, in place.
      var free := LruFree(home);
      if free.Some? {
        var s := buckets[home][free.value];
        assert g == Step(Take(st, s, Claim(st.bufs[s], id)), Ok(s));
        Install(s, Claim(buf[s], id));
        assert Abs() == g.st;
        return Ok(s);
      }
      // Take one from another bucket, moving it to the home bucket's tail.
      var victim := Victim(home);
      if victim.Some? {
        var (k, p) := victim.value;
        var s := buckets[k][p];
        assert g == Step(Migrated(st, id, k, p), Ok(s));
        buckets[k] := RemoveAt(buckets[k], p);
        buckets[home] := buckets[home] + [s];
        Install(s, Claim(buf[s], id));
        assert Abs() == g.st;
        return Ok(s);
      }
      assert g == Step(st, Err(NoBuffers));
      return Err(NoBuffers);
    }

    /** bread: bget, then fill the slot from disk if it is not valid. */
    method Read(disk: Disk, dev: nat, blockno: nat) returns (r: Result<nat>)
      requires Valid()
      modifies this, buf, buckets, disk
      ensures Valid()
      ensures Step(Abs(), r) == BRead(old(Abs()), old(disk.contents), dev, blockno)
      ensures disk.contents == old(disk.contents)
      ensures disk.log == old(disk.log) +
        (if NeedsRead(old(Abs()), dev, blockno) then [DiskReadOp(BlockId(dev, blockno))] else [])
    {
      ghost var st := Abs();
      ReadKeepsInv(st, disk.contents, dev, blockno);
      ReadIsGetThenFill(st, disk.contents, dev, blockno);
      r := Get(dev, blockno);
      FillIfInvalid(disk, r);
    }

    /** The second half of bread: when slot r is not valid, read its block
        from disk into it and mark it valid. */
    method FillIfInvalid(disk: Disk, r: Result<nat>)
      requires r.Ok? ==> r.value < buf.Length
      modifies buf, disk
      ensures Abs() == if r.Ok? && !old(buf[r.value].valid)
        then old(Abs()).(bufs := old(buf[..])[r.value := old(buf[r.value]).(valid := true, data := DiskRead(old(disk.contents), old(buf[r.value]).Id()))])
        else old(Abs())
      ensures disk.contents == old(disk.contents)
      ensures disk.log == old(disk.log) + if r.Ok? && !old(buf[r.value].valid) then [DiskReadOp(old(buf[r.value]).Id())] else []
    {
      if r.Ok? && !buf[r.value].valid {
        var s := r.value;
        var data := disk.ReadBlock(BlockId(buf[s].dev, buf[s].blockno));
        buf[s] := buf[s].(valid := true, data := data);
      }
    }

    /** bwrite: write the slot's contents to disk; the content lock must be
        held. The cache itself is not changed. */
    method Write(disk: Disk, b: nat) returns (r: Result<()>)
      requires Valid() && b < nbuf
      modifies disk
      ensures (disk.contents, r) == BWrite(Abs(), old(disk.contents), b)
      ensures disk.log == old(disk.log) + (if r.Ok? then [DiskWriteOp(buf[b].Id())] else [])
    {
      if !buf[b].locked {
        return Err(WriteNotHeld);
      }
      disk.WriteBlock(buf[b].Id(), buf[b].data);
      r := Ok(());
    }

    /** brelse: the content lock must be held; drop it and one reference,
        and move a slot left unreferenced to the head of its bucket. */
    method Release(b: nat) returns (r: Result<()>)
      requires Valid() && b < nbuf
      modifies this, buf, buckets
      ensures Valid()
      ensures Step(Abs(), r) == BRelse(old(Abs()), b)
    {
      ghost var st := Abs();
      ReleaseKeepsInv(st, b);
      if !buf[b].locked {
        return Err(ReleaseNotHeld);
      }
      var k := BHash(buf[b].blockno);
      assert st.bufs[b].refcnt >= 1;
      buf[b] := buf[b].(locked := false, refcnt := buf[b].refcnt - 1);
      if buf[b].refcnt == 0 {
        assert b in buckets[k];
        buckets[k] := [b] + Remove(buckets[k], b);
      }
      r := Ok(());
    }

    /** bpin: one more reference; the caller holds the slot. */
    method Pin(b: nat)
      requires Valid() && b < nbuf && buf[b].refcnt > 0
      modifies this, buf
      ensures Valid()
      ensures Abs() == BPin(old(Abs()), b)
    {
      PinKeepsInv(Abs(), b);
      buf[b] := buf[b].(refcnt := buf[b].refcnt + 1);
      pins := pins[b := pins[b] + 1];
    }

    /** bunpin: one reference fewer; the caller undoes an earlier bpin. */
    method Unpin(b: nat)
      requires Valid() && b < nbuf && pins[b] > 0
      modifies this, buf
      ensures Valid()
      ensures Abs() == BUnpin(old(Abs()), b)
    {
      UnpinKeepsInv(Abs(), b);
      assert buf[b].refcnt >= pins[b];
      buf[b] := buf[b].(refcnt := buf[b].refcnt - 1);
      pins := pins[b := pins[b] - 1];
    }
  }
}
