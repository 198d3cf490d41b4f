/** Properties of the buffer cache operations of kernel/bio.c, stated on the
    value model of module BioSpec: every operation keeps the cache invariant
    (each slot in exactly one bucket, the bucket matching its block number,
    identities issued by bget unique), and what bget, bread, brelse, bpin
    and bunpin do to the slots and the recency lists. */
module BioLemmas {
  import opened Seqs
  import opened BioSpec

  // ---------------------------------------------------------------------
  // binit

  lemma {:induction false} DescendingFacts(n: nat)
    ensures |Descending(n)| == n
    ensures forall i :: 0 <= i < n ==> Descending(n)[i] == n - 1 - i
  {
    if n > 0 {
      DescendingFacts(n - 1);
    }
  }

  /** After binit every bucket but bucket 0 is empty, bucket 0 lists every
      slot exactly once, no slot is referenced or valid, and the invariant
      holds. */
  lemma InitInv(n: nat)
    ensures Inv(InitState(n))
    ensures |InitState(n).bufs| == n
    ensures forall s: nat :: s in InitState(n).buckets[0] <==> s < n
    ensures NoDup(InitState(n).buckets[0])
    ensures forall k :: 1 <= k < NBUCKET ==> InitState(n).buckets[k] == []
    ensures forall s :: 0 <= s < n ==>
      var b := InitState(n).bufs[s]; b.refcnt == 0 && !b.valid && !b.locked
  {
    var st := InitState(n);
    DescendingFacts(n);
    forall s: nat | s < n
      ensures s in st.buckets[0]
    {
      assert st.buckets[0][n - 1 - s] == s;
    }
  }

  // ---------------------------------------------------------------------
  // bget keeps the invariant

  /** A block missing from its home bucket is held by no slot at all. */
  lemma MissMeansAbsent(st: State, id: BlockId)
    requires Inv(st)
    requires FindBlock(st.buckets[BHash(id.blockno)], st.bufs, id, 0).None?
    ensures forall s :: 0 <= s < |st.bufs| ==> st.bufs[s].Id() != id
  {
    var q := st.buckets[BHash(id.blockno)];
    forall s | 0 <= s < |st.bufs|
      ensures st.bufs[s].Id() != id
    {
    }
  }

  /** The position of a listed slot in its bucket is unique. */
  lemma PositionUnique(st: State, k: nat, i: nat, j: nat)
    requires Inv(st) && k < NBUCKET && i < |st.buckets[k]| && j < |st.buckets[k]|
    requires st.buckets[k][i] == st.buckets[k][j]
    ensures i == j
  {
    assert NoDup(st.buckets[k]);
  }

  /** On a hit, no other issued slot holds the block. */
  lemma HitOthersDiffer(st: State, id: BlockId, j: nat)
    requires Inv(st)
    requires FindBlock(st.buckets[BHash(id.blockno)], st.bufs, id, 0) == Some(j)
    ensures forall o :: 0 <= o < |st.bufs| && o != st.buckets[BHash(id.blockno)][j] && st.issued[o] ==>
      st.bufs[o].Id() != id
  {
    var home := BHash(id.blockno);
    var q := st.buckets[home];
    forall o | 0 <= o < |st.bufs| && o != q[j] && st.issued[o]
      ensures st.bufs[o].Id() != id
    {
      if o in q {
        var jo :| 0 <= jo < |q| && q[jo] == o;
        if jo > j {
          assert OrderedIn(st, home);
        }
      } else {
        assert o in st.buckets[BHash(st.bufs[o].blockno)];
      }
    }
  }

  lemma HitKeepsUnique(st: State, id: BlockId, j: nat)
    requires Inv(st)
    requires FindBlock(st.buckets[BHash(id.blockno)], st.bufs, id, 0) == Some(j)
    ensures var s := st.buckets[BHash(id.blockno)][j]; Unique(Take(st, s, Hold(st.bufs[s])))
  {
    HitOthersDiffer(st, id, j);
  }

  lemma HitKeepsOrdered(st: State, id: BlockId, j: nat)
    requires Inv(st)
    requires FindBlock(st.buckets[BHash(id.blockno)], st.bufs, id, 0) == Some(j)
    ensures var s := st.buckets[BHash(id.blockno)][j]; Ordered(Take(st, s, Hold(st.bufs[s])))
  {
    var home := BHash(id.blockno);
    var q := st.buckets[home];
    var s := q[j];
    var st' := Take(st, s, Hold(st.bufs[s]));
    forall k, i, i2 | 0 <= k < NBUCKET && 0 <= i < i2 < |st'.buckets[k]| &&
        !st'.issued[st'.buckets[k][i]] && st'.issued[st'.buckets[k][i2]]
      ensures st'.bufs[st'.buckets[k][i]].Id() != st'.bufs[st'.buckets[k][i2]].Id()
    {
      assert OrderedIn(st, k);
      if st.buckets[k][i2] == s {
        assert k == home;
        PositionUnique(st, k, i2, j);
      }
    }
    assert forall k :: 0 <= k < NBUCKET ==> OrderedIn(st', k);
  }

  lemma HitKeepsInv(st: State, id: BlockId, j: nat)
    requires Inv(st)
    requires FindBlock(st.buckets[BHash(id.blockno)], st.bufs, id, 0) == Some(j)
    ensures var s := st.buckets[BHash(id.blockno)][j]; Inv(Take(st, s, Hold(st.bufs[s])))
  {
    var s := st.buckets[BHash(id.blockno)][j];
    var st' := Take(st, s, Hold(st.bufs[s]));
    assert Shaped(st');
    assert Placed(st');
    assert Covered(st');
    assert Distinct(st');
    assert Counted(st');
    HitKeepsUnique(st, id, j);
    HitKeepsOrdered(st, id, j);
  }

  /** Recycling the free slot s of the home bucket in place. */
  lemma ClaimKeepsPlaced(st: State, id: BlockId, s: nat)
    requires Inv(st)
    requires s in st.buckets[BHash(id.blockno)]
    ensures s < |st.bufs|
    ensures Shaped(Take(st, s, Claim(st.bufs[s], id)))
    ensures Placed(Take(st, s, Claim(st.bufs[s], id)))
    ensures Covered(Take(st, s, Claim(st.bufs[s], id)))
  {
    var home := BHash(id.blockno);
    var js :| 0 <= js < |st.buckets[home]| && st.buckets[home][js] == s;
    var st' := Take(st, s, Claim(st.bufs[s], id));
    forall k, j | 0 <= k < NBUCKET && 0 <= j < |st'.buckets[k]|
      ensures BHash(st'.bufs[st'.buckets[k][j]].blockno) == k
    {
      if st.buckets[k][j] == s {
        assert k == home;
      }
    }
    forall t | 0 <= t < |st'.bufs|
      ensures t in st'.buckets[BHash(st'.bufs[t].blockno)]
    {
      if t != s {
        assert t in st.buckets[BHash(st.bufs[t].blockno)];
      }
    }
  }

  lemma ClaimKeepsOrdered(st: State, id: BlockId, s: nat)
    requires Inv(st)
    requires FindBlock(st.buckets[BHash(id.blockno)], st.bufs, id, 0).None?
    requires s < |st.bufs|
    ensures Shaped(Take(st, s, Claim(st.bufs[s], id)))
    ensures Unique(Take(st, s, Claim(st.bufs[s], id)))
    ensures Ordered(Take(st, s, Claim(st.bufs[s], id)))
  {
    MissMeansAbsent(st, id);
    var st' := Take(st, s, Claim(st.bufs[s], id));
    forall c | 0 <= c < NBUCKET
      ensures OrderedIn(st', c)
    {
      assert OrderedIn(st, c);
    }
  }

  lemma ClaimKeepsInv(st: State, id: BlockId, s: nat)
    requires Inv(st)
    requires FindBlock(st.buckets[BHash(id.blockno)], st.bufs, id, 0).None?
    requires s in st.buckets[BHash(id.blockno)] && st.bufs[s].refcnt == 0
    ensures s < |st.bufs| && Inv(Take(st, s, Claim(st.bufs[s], id)))
  {
    ClaimKeepsPlaced(st, id, s);
    ClaimKeepsOrdered(st, id, s);
    var st' := Take(st, s, Claim(st.bufs[s], id));
    assert Distinct(st');
    assert Counted(st');
  }

  lemma MigrateKeepsPlaced(st: State, id: BlockId, k: nat, p: nat)
    requires Inv(st)
    requires k < NBUCKET && k != BHash(id.blockno) && p < |st.buckets[k]|
    ensures Shaped(Migrated(st, id, k, p)) && Placed(Migrated(st, id, k, p))
  {
    var home := BHash(id.blockno);
    var q := st.buckets[home];
    var s := st.buckets[k][p];
    var st' := Migrated(st, id, k, p);
    RemoveAtFacts(st.buckets[k], p);
    assert Shaped(st');
    forall c, j | 0 <= c < NBUCKET && 0 <= j < |st'.buckets[c]|
      ensures BHash(st'.bufs[st'.buckets[c][j]].blockno) == c
    {
      var x := st'.buckets[c][j];
      if c == k {
        assert x in st.buckets[k] && x != s;
        var jx :| 0 <= jx < |st.buckets[k]| && st.buckets[k][jx] == x;
      } else if c == home {
        if j < |q| {
          assert x == q[j];
          assert x != s;
        }
      } else {
        assert x == st.buckets[c][j];
      }
    }
  }

  lemma MigrateKeepsCovered(st: State, id: BlockId, k: nat, p: nat)
    requires Inv(st)
    requires k < NBUCKET && k != BHash(id.blockno) && p < |st.buckets[k]|
    ensures Shaped(Migrated(st, id, k, p))
    ensures Covered(Migrated(st, id, k, p)) && Distinct(Migrated(st, id, k, p))
  {
    var home := BHash(id.blockno);
    var q := st.buckets[home];
    var s := st.buckets[k][p];
    var st' := Migrated(st, id, k, p);
    RemoveAtFacts(st.buckets[k], p);
    MigrateKeepsPlaced(st, id, k, p);
    forall t | 0 <= t < |st'.bufs|
      ensures t in st'.buckets[BHash(st'.bufs[t].blockno)]
    {
      if t != s {
        assert t in st.buckets[BHash(st.bufs[t].blockno)];
      } else {
        assert st'.buckets[home][|q|] == s;
      }
    }
    assert s !in q;
    forall c | 0 <= c < NBUCKET
      ensures NoDup(st'.buckets[c])
    {
      if c == home {
        assert NoDup(q);
      }
    }
  }

  lemma MigrateKeepsOrderedInVictim(st: State, id: BlockId, k: nat, p: nat)
    requires Inv(st)
    requires k < NBUCKET && k != BHash(id.blockno) && p < |st.buckets[k]|
    ensures Shaped(Migrated(st, id, k, p)) && OrderedIn(Migrated(st, id, k, p), k)
  {
    var s := st.buckets[k][p];
    var rk := RemoveAt(st.buckets[k], p);
    var st' := Migrated(st, id, k, p);
    MigrateKeepsPlaced(st, id, k, p);
    assert OrderedIn(st, k);
    RemoveAtFacts(st.buckets[k], p);
    assert st'.buckets[k] == rk;
    forall i, i2 | 0 <= i < i2 < |rk| && !st'.issued[rk[i]] && st'.issued[rk[i2]]
      ensures st'.bufs[rk[i]].Id() != st'.bufs[rk[i2]].Id()
    {
      var oi := if i < p then i else i + 1;
      var oi2 := if i2 < p then i2 else i2 + 1;
      assert rk[i] == st.buckets[k][oi] && rk[i2] == st.buckets[k][oi2];
      assert rk[i] in rk && rk[i2] in rk;
    }
  }

  lemma MigrateKeepsOrderedInHome(st: State, id: BlockId, k: nat, p: nat)
    requires Inv(st)
    requires FindBlock(st.buckets[BHash(id.blockno)], st.bufs, id, 0).None?
    requires k < NBUCKET && k != BHash(id.blockno) && p < |st.buckets[k]|
    ensures Shaped(Migrated(st, id, k, p)) && OrderedIn(Migrated(st, id, k, p), BHash(id.blockno))
  {
    var home := BHash(id.blockno);
    var q := st.buckets[home];
    var s := st.buckets[k][p];
    var st' := Migrated(st, id, k, p);
    MigrateKeepsPlaced(st, id, k, p);
    MissMeansAbsent(st, id);
    assert OrderedIn(st, home);
    assert s !in q;
    assert st'.buckets[home] == q + [s];
    forall i, i2 | 0 <= i < i2 < |q| + 1 && !st'.issued[st'.buckets[home][i]] && st'.issued[st'.buckets[home][i2]]
      ensures st'.bufs[st'.buckets[home][i]].Id() != st'.bufs[st'.buckets[home][i2]].Id()
    {
      assert q[i] in q;
      if i2 < |q| {
        assert q[i2] in q;
      }
    }
  }

  lemma MigrateKeepsOrderedInOther(st: State, id: BlockId, k: nat, p: nat, c: nat)
    requires Inv(st)
    requires k < NBUCKET && k != BHash(id.blockno) && p < |st.buckets[k]|
    requires c < NBUCKET && c != k && c != BHash(id.blockno)
    ensures Shaped(Migrated(st, id, k, p)) && OrderedIn(Migrated(st, id, k, p), c)
  {
    var s := st.buckets[k][p];
    var st' := Migrated(st, id, k, p);
    MigrateKeepsPlaced(st, id, k, p);
    assert OrderedIn(st, c);
    assert st'.buckets[c] == st.buckets[c];
    forall i | 0 <= i < |st.buckets[c]|
      ensures st.buckets[c][i] != s
    {
      assert BHash(st.bufs[st.buckets[c][i]].blockno) == c;
    }
  }

  lemma MigrateKeepsOrdered(st: State, id: BlockId, k: nat, p: nat)
    requires Inv(st)
    requires FindBlock(st.buckets[BHash(id.blockno)], st.bufs, id, 0).None?
    requires k < NBUCKET && k != BHash(id.blockno) && p < |st.buckets[k]|
    ensures Shaped(Migrated(st, id, k, p)) && Ordered(Migrated(st, id, k, p))
  {
    MigrateKeepsPlaced(st, id, k, p);
    forall c | 0 <= c < NBUCKET
      ensures OrderedIn(Migrated(st, id, k, p), c)
    {
      if c == k {
        MigrateKeepsOrderedInVictim(st, id, k, p);
      } else if c == BHash(id.blockno) {
        MigrateKeepsOrderedInHome(st, id, k, p);
      } else {
        MigrateKeepsOrderedInOther(st, id, k, p, c);
      }
    }
  }

  lemma MigrateKeepsInv(st: State, id: BlockId, k: nat, p: nat)
    requires Inv(st)
    requires FindBlock(st.buckets[BHash(id.blockno)], st.bufs, id, 0).None?
    requires k < NBUCKET && k != BHash(id.blockno) && p < |st.buckets[k]|
    requires st.bufs[st.buckets[k][p]].refcnt == 0
    ensures Inv(Migrated(st, id, k, p))
  {
    var st' := Migrated(st, id, k, p);
    MissMeansAbsent(st, id);
    MigrateKeepsPlaced(st, id, k, p);
    MigrateKeepsCovered(st, id, k, p);
    MigrateKeepsOrdered(st, id, k, p);
    assert Counted(st');
    assert Unique(st');
  }

  /** bget keeps the cache invariant. */
  lemma GetKeepsInv(st: State, dev: nat, blockno: nat)
    requires Inv(st)
    ensures Inv(BGet(st, dev, blockno).st)
  {
    var id := BlockId(dev, blockno);
    var home := BHash(blockno);
    var q := st.buckets[home];
    match FindBlock(q, st.bufs, id, 0)
    case Some(j) =>
      HitKeepsInv(st, id, j);
    case None =>
      match FindFree(q, st.bufs, |q|)
      case Some(j) =>
        ClaimKeepsInv(st, id, q[j]);
      case None =>
        match FindVictim(st, home, 0)
        case Some((k, p)) =>
          MigrateKeepsInv(st, id, k, p);
        case None =>
  }

  // ---------------------------------------------------------------------
  // What bget returns

  /** A cached block is a hit: bget returns the first slot, from the head of
      the home bucket, that holds it (the slot bget issued for it, if any),
      with one more reference and its content lock held; the lists and every
      other slot are unchanged. */
  lemma GetHit(st: State, dev: nat, blockno: nat, t: nat)
    requires Inv(st)
    requires t < |st.bufs| && st.bufs[t].Id() == BlockId(dev, blockno)
    ensures var r := BGet(st, dev, blockno);
      var q := st.buckets[BHash(blockno)];
      && r.res.Ok? && r.res.value in q
      && st.bufs[r.res.value].Id() == BlockId(dev, blockno)
      && (forall i :: 0 <= i < IndexOf(q, r.res.value) ==> st.bufs[q[i]].Id() != BlockId(dev, blockno))
      && (st.issued[t] ==> r.res.value == t)
      && r.st.buckets == st.buckets
      && r.st.bufs[r.res.value].refcnt == st.bufs[r.res.value].refcnt + 1
      && r.st.bufs[r.res.value] == st.bufs[r.res.value].(refcnt := r.st.bufs[r.res.value].refcnt, locked := true)
      && (forall u :: 0 <= u < |st.bufs| && u != r.res.value ==> r.st.bufs[u] == st.bufs[u])
  {
    var id := BlockId(dev, blockno);
    var home := BHash(blockno);
    var q := st.buckets[home];
    assert t in q;
    var jt :| 0 <= jt < |q| && q[jt] == t;
    var f := FindBlock(q, st.bufs, id, 0);
    assert f.Some?;
    var j := f.value;
    var s := q[j];
    PositionUnique(st, home, IndexOf(q, s), j);
    assert OrderedIn(st, home);
  }

  /** A block that is not cached, with an unreferenced slot in its home
      bucket: bget recycles the unreferenced slot nearest the tail (least
      recently used) of the home bucket, in place. */
  lemma GetRecycleInHome(st: State, dev: nat, blockno: nat, f: nat)
    requires Inv(st)
    requires forall u :: 0 <= u < |st.bufs| ==> st.bufs[u].Id() != BlockId(dev, blockno)
    requires f in st.buckets[BHash(blockno)] && st.bufs[f].refcnt == 0
    ensures var r := BGet(st, dev, blockno);
      var q := st.buckets[BHash(blockno)];
      && r.res.Ok? && r.res.value in q
      && st.bufs[r.res.value].refcnt == 0
      && (forall i :: IndexOf(q, r.res.value) < i < |q| ==> st.bufs[q[i]].refcnt > 0)
      && r.st.buckets == st.buckets
      && r.st.bufs == st.bufs[r.res.value := Buf(dev, blockno, false, 1, true, st.bufs[r.res.value].data)]
  {
    var id := BlockId(dev, blockno);
    var home := BHash(blockno);
    var q := st.buckets[home];
    var jf :| 0 <= jf < |q| && q[jf] == f;
    assert FindBlock(q, st.bufs, id, 0).None?;
    var ff := FindFree(q, st.bufs, |q|);
    assert ff.Some?;
    PositionUnique(st, home, IndexOf(q, q[ff.value]), ff.value);
  }

  /** A block that is not cached, with no unreferenced slot in its home
      bucket but one elsewhere: bget takes, from the first bucket in index
      order that has one, the unreferenced slot nearest its tail, unlinks it
      and appends it at the tail (least recently used end) of the home
      bucket. */
  lemma GetMigrate(st: State, dev: nat, blockno: nat, f: nat)
    requires Inv(st)
    requires forall u :: 0 <= u < |st.bufs| ==> st.bufs[u].Id() != BlockId(dev, blockno)
    requires forall i :: 0 <= i < |st.buckets[BHash(blockno)]| ==> st.bufs[st.buckets[BHash(blockno)][i]].refcnt > 0
    requires f < |st.bufs| && st.bufs[f].refcnt == 0
    ensures var r := BGet(st, dev, blockno);
      var home := BHash(blockno);
      && r.res.Ok? && r.res.value < |st.bufs|
      && var s := r.res.value;
      var k := BHash(st.bufs[s].blockno);
      && k != home && s in st.buckets[k]
      && st.bufs[s].refcnt == 0
      && (forall i :: IndexOf(st.buckets[k], s) < i < |st.buckets[k]| ==> st.bufs[st.buckets[k][i]].refcnt > 0)
      && (forall c, i :: 0 <= c < k && c != home && 0 <= i < |st.buckets[c]| ==> st.bufs[st.buckets[c][i]].refcnt > 0)
      && r.st.buckets == st.buckets[k := Remove(st.buckets[k], s)][home := st.buckets[home] + [s]]
      && r.st.bufs == st.bufs[s := Buf(dev, blockno, false, 1, true, st.bufs[s].data)]
  {
    var id := BlockId(dev, blockno);
    var home := BHash(blockno);
    var q := st.buckets[home];
    assert FindBlock(q, st.bufs, id, 0).None?;
    assert FindFree(q, st.bufs, |q|).None?;
    var kf := BHash(st.bufs[f].blockno);
    assert f in st.buckets[kf];
    var jf :| 0 <= jf < |st.buckets[kf]| && st.buckets[kf][jf] == f;
    var v := FindVictim(st, home, 0);
    assert v.Some?;
    var k := v.value.0;
    var p := v.value.1;
    var s := st.buckets[k][p];
    assert BHash(st.bufs[s].blockno) == k;
    PositionUnique(st, k, IndexOf(st.buckets[k], s), p);
  }

  /** When bget fails, every slot is referenced and none holds the block. */
  lemma FailMeansFull(st: State, dev: nat, blockno: nat)
    requires Inv(st) && BGet(st, dev, blockno).res.Err?
    ensures forall u :: 0 <= u < |st.bufs| ==> st.bufs[u].Id() != BlockId(dev, blockno) && st.bufs[u].refcnt > 0
  {
    var id := BlockId(dev, blockno);
    var home := BHash(blockno);
    var q := st.buckets[home];
    MissMeansAbsent(st, id);
    assert FindFree(q, st.bufs, |q|).None?;
    assert FindVictim(st, home, 0).None?;
    forall u | 0 <= u < |st.bufs|
      ensures st.bufs[u].refcnt > 0
    {
      var c := BHash(st.bufs[u].blockno);
      assert u in st.buckets[c];
      var ju :| 0 <= ju < |st.buckets[c]| && st.buckets[c][ju] == u;
    }
  }

  /** bget fails ("no buffers") exactly when the block is not cached and
      every slot is referenced; it then changes nothing. */
  lemma GetFailsIff(st: State, dev: nat, blockno: nat)
    requires Inv(st)
    ensures BGet(st, dev, blockno).res.Err? <==>
      forall u :: 0 <= u < |st.bufs| ==> st.bufs[u].Id() != BlockId(dev, blockno) && st.bufs[u].refcnt > 0
    ensures BGet(st, dev, blockno).res.Err? ==>
      BGet(st, dev, blockno).res.error == NoBuffers && BGet(st, dev, blockno).st == st
  {
    var id := BlockId(dev, blockno);
    var home := BHash(blockno);
    var q := st.buckets[home];
    if BGet(st, dev, blockno).res.Err? {
      FailMeansFull(st, dev, blockno);
    } else if FindBlock(q, st.bufs, id, 0).Some? {
      var u := q[FindBlock(q, st.bufs, id, 0).value];
      assert st.bufs[u].Id() == id;
    } else if FindFree(q, st.bufs, |q|).Some? {
      var u := q[FindFree(q, st.bufs, |q|).value];
      assert st.bufs[u].refcnt == 0;
    } else {
      var v := FindVictim(st, home, 0).value;
      var u := st.buckets[v.0][v.1];
      assert st.bufs[u].refcnt == 0;
    }
  }

  /** bget never recycles a referenced slot, nor gives a second slot the
      identity of a cached block: the slot it returns held the block already
      or was unreferenced and the block was nowhere in the cache. Only that
      slot changes; it ends up holding the block, locked and referenced. */
  lemma GetTakesOnlyFree(st: State, dev: nat, blockno: nat)
    requires Inv(st)
    ensures var r := BGet(st, dev, blockno);
      r.res.Ok? ==>
        var s := r.res.value;
        && (st.bufs[s].Id() == BlockId(dev, blockno) ||
            (st.bufs[s].refcnt == 0 && forall u :: 0 <= u < |st.bufs| ==> st.bufs[u].Id() != BlockId(dev, blockno)))
        && r.st.bufs[s].Id() == BlockId(dev, blockno)
        && r.st.bufs[s].locked && r.st.bufs[s].refcnt >= 1
        && (forall u :: 0 <= u < |st.bufs| && u != s ==> r.st.bufs[u] == st.bufs[u])
  {
    var id := BlockId(dev, blockno);
    var home := BHash(blockno);
    var q := st.buckets[home];
    if FindBlock(q, st.bufs, id, 0).None? {
      MissMeansAbsent(st, id);
    }
  }

  /** A slot whose content lock is held or that is pinned has a positive
      reference count, so the decrements of brelse and bunpin never wrap
      around. */
  lemma HeldIsReferenced(st: State)
    requires Inv(st)
    ensures forall s :: 0 <= s < |st.bufs| && (st.bufs[s].locked || st.pins[s] > 0) ==> st.bufs[s].refcnt > 0
  {
  }

  /** A pinned slot is never recycled: bget leaves its identity alone. */
  lemma PinnedKeepsIdentity(st: State, dev: nat, blockno: nat, s: nat)
    requires Inv(st) && s < |st.bufs| && st.pins[s] > 0
    ensures BGet(st, dev, blockno).st.bufs[s].Id() == st.bufs[s].Id()
  {
    GetTakesOnlyFree(st, dev, blockno);
  }

  /** A slot that bget leaves with its identity keeps its valid flag and its
      contents: they are lost only when the slot is recycled. */
  lemma GetKeepsValidData(st: State, dev: nat, blockno: nat, u: nat)
    requires Inv(st) && u < |st.bufs|
    requires BGet(st, dev, blockno).st.bufs[u].Id() == st.bufs[u].Id()
    ensures BGet(st, dev, blockno).st.bufs[u].valid == st.bufs[u].valid
    ensures BGet(st, dev, blockno).st.bufs[u].data == st.bufs[u].data
  {
    GetTakesOnlyFree(st, dev, blockno);
    var r := BGet(st, dev, blockno);
    if r.res.Ok? && r.res.value == u && st.bufs[u].Id() == BlockId(dev, blockno) {
      GetHit(st, dev, blockno, u);
    }
  }

  /** The identity bget hands out is held by no other issued slot, and no
      two referenced slots ever hold the same block. */
  lemma GetIssuesUnique(st: State, dev: nat, blockno: nat)
    requires Inv(st)
    ensures var r := BGet(st, dev, blockno);
      r.res.Ok? ==>
        && r.st.issued[r.res.value]
        && forall u :: 0 <= u < |st.bufs| && u != r.res.value && r.st.issued[u] ==>
             r.st.bufs[u].Id() != BlockId(dev, blockno)
    ensures LiveUnique(BGet(st, dev, blockno).st)
  {
    GetKeepsInv(st, dev, blockno);
    GetTakesOnlyFree(st, dev, blockno);
    InvLiveUnique(BGet(st, dev, blockno).st);
  }

  /** No two referenced slots hold the same block. */
  ghost predicate LiveUnique(st: State)
    requires Shaped(st)
  {
    forall s, t :: 0 <= s < t < |st.bufs| && st.bufs[s].refcnt > 0 && st.bufs[t].refcnt > 0 ==>
      st.bufs[s].Id() != st.bufs[t].Id()
  }

  lemma InvLiveUnique(st: State)
    requires Inv(st)
    ensures LiveUnique(st)
  {
  }

  /** Every slot is listed in exactly one bucket, the one its block number
      hashes to. */
  lemma OneBucket(st: State, s: nat, k: nat)
    requires Inv(st) && s < |st.bufs| && k < NBUCKET
    ensures s in st.buckets[k] <==> k == BHash(st.bufs[s].blockno)
  {
    if s in st.buckets[k] {
      var j :| 0 <= j < |st.buckets[k]| && st.buckets[k][j] == s;
    }
  }

  // ---------------------------------------------------------------------
  // bread

  /** A change that keeps the lists, the issued marks and every identity,
      and keeps the reference counts consistent, keeps the invariant. */
  lemma FrameKeepsInv(st: State, st': State)
    requires Inv(st) && |st'.bufs| == |st.bufs|
    requires st'.buckets == st.buckets && st'.issued == st.issued && |st'.pins| == |st.pins|
    requires forall u :: 0 <= u < |st.bufs| ==> st'.bufs[u].Id() == st.bufs[u].Id()
    requires Shaped(st') && Counted(st')
    ensures Inv(st')
  {
    forall k, j | 0 <= k < NBUCKET && 0 <= j < |st'.buckets[k]|
      ensures BHash(st'.bufs[st'.buckets[k][j]].blockno) == k
    {
      assert st'.bufs[st.buckets[k][j]].Id() == st.bufs[st.buckets[k][j]].Id();
    }
    forall u | 0 <= u < |st'.bufs|
      ensures u in st'.buckets[BHash(st'.bufs[u].blockno)]
    {
      assert st'.bufs[u].Id() == st.bufs[u].Id();
    }
    forall c | 0 <= c < NBUCKET
      ensures OrderedIn(st', c)
    {
      assert OrderedIn(st, c);
    }
  }

  /** Filling a slot from disk touches neither identities nor lists. */
  lemma ReadKeepsInv(st: State, disk: map<BlockId, Block>, dev: nat, blockno: nat)
    requires Inv(st)
    ensures Inv(BRead(st, disk, dev, blockno).st)
  {
    GetKeepsInv(st, dev, blockno);
    var g := BGet(st, dev, blockno).st;
    var r := BRead(st, disk, dev, blockno).st;
    FrameKeepsInv(g, r);
  }

  /** bread is bget followed, when the slot is not valid, by filling it
      with the disk's contents for the block. */
  lemma ReadIsGetThenFill(st: State, disk: map<BlockId, Block>, dev: nat, blockno: nat)
    requires Inv(st)
    ensures var g := BGet(st, dev, blockno);
      && (NeedsRead(st, dev, blockno) <==> g.res.Ok? && !g.st.bufs[g.res.value].valid)
      && (g.res.Ok? ==> g.st.bufs[g.res.value].Id() == BlockId(dev, blockno))
      && BRead(st, disk, dev, blockno) ==
         if NeedsRead(st, dev, blockno) then
           var s := g.res.value;
           Step(g.st.(bufs := g.st.bufs[s := g.st.bufs[s].(valid := true, data := DiskRead(disk, BlockId(dev, blockno)))]), g.res)
         else g
  {
    GetTakesOnlyFree(st, dev, blockno);
  }

  /** bread returns a valid slot holding the block, content lock held. Its
      contents come from the disk exactly when bget handed it over invalid;
      otherwise they are what the slot already held. */
  lemma ReadReturnsValid(st: State, disk: map<BlockId, Block>, dev: nat, blockno: nat)
    requires Inv(st)
    ensures var r := BRead(st, disk, dev, blockno);
      var g := BGet(st, dev, blockno);
      && r.res == g.res
      && r.st.buckets == g.st.buckets
      && (r.res.Ok? ==>
        var s := r.res.value;
        && r.st.bufs[s].valid && r.st.bufs[s].locked
        && r.st.bufs[s].Id() == BlockId(dev, blockno)
        && r.st.bufs[s].data == (if NeedsRead(st, dev, blockno) then DiskRead(disk, BlockId(dev, blockno)) else g.st.bufs[s].data)
        && forall u :: 0 <= u < |st.bufs| && u != s ==> r.st.bufs[u] == st.bufs[u])
  {
    GetTakesOnlyFree(st, dev, blockno);
  }

  /** A block whose slot is issued and valid is a hit that reads nothing from
      disk: bread returns that slot with its contents unchanged. */
  lemma ValidHitReadsNothing(st: State, disk: map<BlockId, Block>, dev: nat, blockno: nat, t: nat)
    requires Inv(st)
    requires t < |st.bufs| && st.bufs[t].valid && st.bufs[t].Id() == BlockId(dev, blockno)
    ensures !NeedsRead(st, dev, blockno)
    ensures var r := BRead(st, disk, dev, blockno);
      r.res == Ok(t) && r.st.bufs[t].data == st.bufs[t].data
  {
    GetHit(st, dev, blockno, t);
  }

  /** bread goes to the disk exactly when bget succeeds and no slot holds
      the block with valid contents. */
  lemma NeedsReadIff(st: State, dev: nat, blockno: nat)
    requires Inv(st)
    ensures NeedsRead(st, dev, blockno) <==>
      && BGet(st, dev, blockno).res.Ok?
      && forall t :: 0 <= t < |st.bufs| && st.bufs[t].valid ==> st.bufs[t].Id() != BlockId(dev, blockno)
  {
    if NeedsRead(st, dev, blockno) {
      forall t | 0 <= t < |st.bufs| && st.bufs[t].valid
        ensures st.bufs[t].Id() != BlockId(dev, blockno)
      {
        if st.bufs[t].Id() == BlockId(dev, blockno) {
          ValidHitReadsNothing(st, map[], dev, blockno, t);
        }
      }
    }
  }

  /** bread, brelse, bread again of the same block: the second bread finds
      the same slot, reads nothing from disk and sees the same contents. */
  lemma RereadReadsNothing(st: State, disk: map<BlockId, Block>, dev: nat, blockno: nat)
    requires Inv(st)
    requires BRead(st, disk, dev, blockno).res.Ok?
    ensures Inv(BRead(st, disk, dev, blockno).st)
    ensures var r1 := BRead(st, disk, dev, blockno);
      Inv(BRelse(r1.st, r1.res.value).st)
    ensures var r1 := BRead(st, disk, dev, blockno);
      var s := r1.res.value;
      var r2 := BRelse(r1.st, s);
      && r2.res.Ok?
      && !NeedsRead(r2.st, dev, blockno)
      && BRead(r2.st, disk, dev, blockno).res == Ok(s)
      && BRead(r2.st, disk, dev, blockno).st.bufs[s].data == r1.st.bufs[s].data
  {
    var r1 := BRead(st, disk, dev, blockno);
    var s := r1.res.value;
    ReadKeepsInv(st, disk, dev, blockno);
    ReadReturnsValid(st, disk, dev, blockno);
    GetIssuesUnique(st, dev, blockno);
    assert r1.st.issued == BGet(st, dev, blockno).st.issued;
    assert r1.st.issued[s] && r1.st.bufs[s].valid && r1.st.bufs[s].locked;
    ReleaseKeepsInv(r1.st, s);
    ReleaseEffect(r1.st, s);
    var r2 := BRelse(r1.st, s);
    assert r2.st.issued == r1.st.issued;
    ValidHitReadsNothing(r2.st, disk, dev, blockno, s);
  }

  // ---------------------------------------------------------------------
  // brelse, bpin, bunpin, bwrite

  /** The list of bucket k after brelse moves b to its head. */
  lemma HeadMoveFacts(q: seq<nat>, b: nat)
    requires b in q && NoDup(q)
    ensures NoDup([b] + Remove(q, b))
    ensures forall x :: x in [b] + Remove(q, b) <==> x in q
    ensures forall i :: 1 <= i < |q| ==>
      ([b] + Remove(q, b))[i] == q[if i - 1 < IndexOf(q, b) then i - 1 else i]
  {
    RemoveFacts(q, b);
    var rq := Remove(q, b);
    var nq := [b] + rq;
    forall i, j | 0 <= i < j < |nq|
      ensures nq[i] != nq[j]
    {
      assert nq[j] in rq;
      if i > 0 {
        assert nq[i] == rq[i - 1] && nq[j] == rq[j - 1];
      }
    }
  }

  lemma ReleaseLastKeepsShape(st: State, b: nat)
    requires Inv(st) && b < |st.bufs| && st.bufs[b].locked && st.bufs[b].refcnt == 1
    ensures Shaped(BRelse(st, b).st) && Placed(BRelse(st, b).st)
    ensures Covered(BRelse(st, b).st) && Distinct(BRelse(st, b).st)
  {
    var k := BHash(st.bufs[b].blockno);
    var q := st.buckets[k];
    assert b in q;
    HeadMoveFacts(q, b);
    var st' := BRelse(st, b).st;
    assert st'.buckets[k] == [b] + Remove(q, b);
    assert Shaped(st');
    forall c, j | 0 <= c < NBUCKET && 0 <= j < |st'.buckets[c]|
      ensures BHash(st'.bufs[st'.buckets[c][j]].blockno) == c
    {
      if c == k {
        assert st'.buckets[c][j] in q;
      }
    }
    forall t | 0 <= t < |st'.bufs|
      ensures t in st'.buckets[BHash(st'.bufs[t].blockno)]
    {
      assert t in st.buckets[BHash(st.bufs[t].blockno)];
    }
  }

  lemma ReleaseLastKeepsOrdered(st: State, b: nat)
    requires Inv(st) && b < |st.bufs| && st.bufs[b].locked && st.bufs[b].refcnt == 1
    ensures Shaped(BRelse(st, b).st) && Ordered(BRelse(st, b).st)
  {
    var k := BHash(st.bufs[b].blockno);
    var q := st.buckets[k];
    assert b in q;
    HeadMoveFacts(q, b);
    var nq := [b] + Remove(q, b);
    var st' := BRelse(st, b).st;
    assert st'.buckets[k] == nq;
    assert OrderedIn(st, k);
    var p := IndexOf(q, b);
    forall i, j | 0 <= i < j < |nq| && !st'.issued[nq[i]] && st'.issued[nq[j]]
      ensures st'.bufs[nq[i]].Id() != st'.bufs[nq[j]].Id()
    {
      assert i > 0;
      var oi := if i - 1 < p then i - 1 else i;
      var oj := if j - 1 < p then j - 1 else j;
      assert nq[i] == q[oi] && nq[j] == q[oj];
    }
    forall c | 0 <= c < NBUCKET
      ensures OrderedIn(st', c)
    {
      assert OrderedIn(st, c);
    }
  }

  lemma ReleaseKeepsInv(st: State, b: nat)
    requires Inv(st) && b < |st.bufs|
    ensures Inv(BRelse(st, b).st)
  {
    var x := st.bufs[b];
    if x.locked && x.refcnt == 1 {
      ReleaseLastKeepsShape(st, b);
      ReleaseLastKeepsOrdered(st, b);
      var st' := BRelse(st, b).st;
      assert Counted(st');
      assert Unique(st');
    } else {
      FrameKeepsInv(st, BRelse(st, b).st);
    }
  }

  /** brelse fails exactly when the content lock is not held, and then
      changes nothing. Otherwise it unlocks and drops one reference; if that
      was the last one the slot moves to the head of its bucket, the others
      keeping their order, and else no list changes. No other slot changes. */
  lemma ReleaseEffect(st: State, b: nat)
    requires Inv(st) && b < |st.bufs|
    ensures var r := BRelse(st, b);
      && (r.res.Err? <==> !st.bufs[b].locked)
      && (r.res.Err? ==> r.res.error == ReleaseNotHeld && r.st == st)
      && (r.res.Ok? ==>
        var k := BHash(st.bufs[b].blockno);
        && r.st.bufs[b] == st.bufs[b].(locked := false, refcnt := st.bufs[b].refcnt - 1)
        && (forall u :: 0 <= u < |st.bufs| && u != b ==> r.st.bufs[u] == st.bufs[u])
        && (forall c :: 0 <= c < NBUCKET && c != k ==> r.st.buckets[c] == st.buckets[c])
        && (r.st.bufs[b].refcnt > 0 ==> r.st.buckets[k] == st.buckets[k])
        && (r.st.bufs[b].refcnt == 0 ==>
              && b in st.buckets[k]
              && r.st.buckets[k] == [b] + Remove(st.buckets[k], b)
              && multiset(r.st.buckets[k]) == multiset(st.buckets[k])))
  {
    var x := st.bufs[b];
    var k := BHash(x.blockno);
    if x.locked && x.refcnt == 1 {
      var q := st.buckets[k];
      assert b in q;
      var p := IndexOf(q, b);
      assert q == q[..p] + [b] + q[p + 1..];
      assert Remove(q, b) == q[..p] + q[p + 1..];
    }
  }

  /** bpin adds a reference and changes nothing else. */
  lemma PinKeepsInv(st: State, b: nat)
    requires Inv(st) && b < |st.bufs| && st.bufs[b].refcnt > 0
    ensures Inv(BPin(st, b))
    ensures BPin(st, b).buckets == st.buckets
    ensures BPin(st, b).bufs[b] == st.bufs[b].(refcnt := st.bufs[b].refcnt + 1)
    ensures forall u :: 0 <= u < |st.bufs| && u != b ==> BPin(st, b).bufs[u] == st.bufs[u]
  {
    FrameKeepsInv(st, BPin(st, b));
  }

  /** bunpin drops a reference and changes nothing else. */
  lemma UnpinKeepsInv(st: State, b: nat)
    requires Inv(st) && b < |st.bufs| && st.pins[b] > 0
    ensures Inv(BUnpin(st, b))
    ensures BUnpin(st, b).buckets == st.buckets
    ensures BUnpin(st, b).bufs[b] == st.bufs[b].(refcnt := st.bufs[b].refcnt - 1)
    ensures forall u :: 0 <= u < |st.bufs| && u != b ==> BUnpin(st, b).bufs[u] == st.bufs[u]
  {
    FrameKeepsInv(st, BUnpin(st, b));
  }

  /** bwrite fails exactly when the content lock is not held. Otherwise the
      disk afterwards holds the slot's contents for its block, and every
      other block reads as before. */
  lemma WriteEffect(st: State, disk: map<BlockId, Block>, b: nat)
    requires b < |st.bufs|
    ensures var (disk', res) := BWrite(st, disk, b);
      && (res.Err? <==> !st.bufs[b].locked)
      && (res.Err? ==> res.error == WriteNotHeld && disk' == disk)
      && (res.Ok? ==>
            && DiskRead(disk', st.bufs[b].Id()) == st.bufs[b].data
            && forall id :: id != st.bufs[b].Id() ==> DiskRead(disk', id) == DiskRead(disk, id))
  {
  }
}
