/** The least-recently-released policy on a concrete run: a pool of two
    slots and three blocks of device 1 (13, 26 and 39) that all hash to
    bucket 0. Each step is one lemma about concrete states. */
module BioScenario {
  import opened Seqs
  import opened BioSpec
  import opened BioLemmas

  /** A cache whose only non-empty bucket is bucket 0. */
  function OneList(bufs: seq<Buf>, q: seq<nat>, issued: seq<bool>): State {
    State(bufs, [q] + seq(NBUCKET - 1, _ => []), issued, [0, 0])
  }

  const Blank: Buf := Buf(0, 0, false, 0, false, ZERO_BLOCK)

  function D(disk: map<BlockId, Block>, blockno: nat): Block {
    DiskRead(disk, BlockId(1, blockno))
  }

  /** After binit: both slots blank, slot 0 at the tail of bucket 0. */
  lemma Booted()
    ensures InitState(2) == OneList([Blank, Blank], [1, 0], [false, false])
    ensures Inv(InitState(2))
  {
    InitInv(2);
    DescendingFacts(2);
    assert Descending(2) == [1, 0];
  }

  /** bread(1, 13) recycles the tail slot 0 and reads the disk. */
  lemma ReadThirteen(disk: map<BlockId, Block>)
    ensures Inv(OneList([Blank, Blank], [1, 0], [false, false]))
    ensures NeedsRead(OneList([Blank, Blank], [1, 0], [false, false]), 1, 13)
    ensures BRead(OneList([Blank, Blank], [1, 0], [false, false]), disk, 1, 13) ==
      Step(OneList([Buf(1, 13, true, 1, true, D(disk, 13)), Blank], [1, 0], [true, false]), Ok(0))
  {
    Booted();
    var st := OneList([Blank, Blank], [1, 0], [false, false]);
    assert FindBlock([1, 0], st.bufs, BlockId(1, 13), 0) == None;
    assert FindFree([1, 0], st.bufs, 2) == Some(1);
  }

  /** brelse of slot 0 moves it to the head of bucket 0. */
  lemma ReleaseThirteen(disk: map<BlockId, Block>)
    ensures Inv(OneList([Buf(1, 13, true, 1, true, D(disk, 13)), Blank], [1, 0], [true, false]))
    ensures BRelse(OneList([Buf(1, 13, true, 1, true, D(disk, 13)), Blank], [1, 0], [true, false]), 0) ==
      Step(OneList([Buf(1, 13, true, 0, false, D(disk, 13)), Blank], [0, 1], [true, false]), Ok(()))
  {
    ReadThirteen(disk);
    ReadKeepsInv(OneList([Blank, Blank], [1, 0], [false, false]), disk, 1, 13);
    assert IndexOf([1, 0], 0) == 1;
    assert Remove([1, 0], 0) == [1];
    var st := OneList([Buf(1, 13, true, 1, true, D(disk, 13)), Blank], [1, 0], [true, false]);
    assert BHash(13) == 0;
    assert st.buckets[0 := [0, 1]] == [[0, 1]] + seq(NBUCKET - 1, _ => []);
    assert st.buckets[0] == [1, 0];
    assert [0] + Remove(st.buckets[0], 0) == [0, 1];
  }

  /** The holder of slot 0 puts new contents x in it; bwrite then stores x
      for block 13, which reads back as x, and block 26 is untouched. */
  lemma WriteThirteen(disk: map<BlockId, Block>, x: Block)
    ensures BWrite(OneList([Buf(1, 13, true, 1, true, x), Blank], [1, 0], [true, false]), disk, 0) ==
      (disk[BlockId(1, 13) := x], Ok(()))
    ensures D(disk[BlockId(1, 13) := x], 13) == x
    ensures D(disk[BlockId(1, 13) := x], 26) == D(disk, 26)
  {
  }

  /** bread(1, 26) recycles slot 1, now the tail, and reads the disk. */
  lemma ReadTwentySix(disk: map<BlockId, Block>)
    ensures Inv(OneList([Buf(1, 13, true, 0, false, D(disk, 13)), Blank], [0, 1], [true, false]))
    ensures BRead(OneList([Buf(1, 13, true, 0, false, D(disk, 13)), Blank], [0, 1], [true, false]), disk, 1, 26) ==
      Step(OneList([Buf(1, 13, true, 0, false, D(disk, 13)), Buf(1, 26, true, 1, true, D(disk, 26))], [0, 1], [true, true]), Ok(1))
  {
    ReleaseThirteen(disk);
    ReleaseKeepsInv(OneList([Buf(1, 13, true, 1, true, D(disk, 13)), Blank], [1, 0], [true, false]), 0);
    var st := OneList([Buf(1, 13, true, 0, false, D(disk, 13)), Blank], [0, 1], [true, false]);
    assert FindBlock([0, 1], st.bufs, BlockId(1, 26), 0) == None;
    assert FindFree([0, 1], st.bufs, 2) == Some(1);
  }

  /** brelse of slot 1 moves it to the head: slot 0 is the tail again. */
  lemma ReleaseTwentySix(disk: map<BlockId, Block>)
    ensures Inv(OneList([Buf(1, 13, true, 0, false, D(disk, 13)), Buf(1, 26, true, 1, true, D(disk, 26))], [0, 1], [true, true]))
    ensures BRelse(OneList([Buf(1, 13, true, 0, false, D(disk, 13)), Buf(1, 26, true, 1, true, D(disk, 26))], [0, 1], [true, true]), 1) ==
      Step(OneList([Buf(1, 13, true, 0, false, D(disk, 13)), Buf(1, 26, true, 0, false, D(disk, 26))], [1, 0], [true, true]), Ok(()))
  {
    ReadTwentySix(disk);
    ReadKeepsInv(OneList([Buf(1, 13, true, 0, false, D(disk, 13)), Blank], [0, 1], [true, false]), disk, 1, 26);
    assert IndexOf([0, 1], 1) == 1;
    assert Remove([0, 1], 1) == [0];
    var st := OneList([Buf(1, 13, true, 0, false, D(disk, 13)), Buf(1, 26, true, 1, true, D(disk, 26))], [0, 1], [true, true]);
    assert BHash(26) == 0;
    assert st.buckets[0] == [0, 1];
    assert [1] + Remove(st.buckets[0], 1) == [1, 0];
    assert st.buckets[0 := [1, 0]] == [[1, 0]] + seq(NBUCKET - 1, _ => []);
  }

  /** bget(1, 39) recycles slot 0, released longest ago, which held block
      13; the slot is not valid, so bread would read the disk. */
  lemma GetThirtyNine(disk: map<BlockId, Block>)
    ensures Inv(OneList([Buf(1, 13, true, 0, false, D(disk, 13)), Buf(1, 26, true, 0, false, D(disk, 26))], [1, 0], [true, true]))
    ensures NeedsRead(OneList([Buf(1, 13, true, 0, false, D(disk, 13)), Buf(1, 26, true, 0, false, D(disk, 26))], [1, 0], [true, true]), 1, 39)
    ensures BGet(OneList([Buf(1, 13, true, 0, false, D(disk, 13)), Buf(1, 26, true, 0, false, D(disk, 26))], [1, 0], [true, true]), 1, 39) ==
      Step(OneList([Buf(1, 39, false, 1, true, D(disk, 13)), Buf(1, 26, true, 0, false, D(disk, 26))], [1, 0], [true, true]), Ok(0))
  {
    ReleaseTwentySix(disk);
    ReleaseKeepsInv(OneList([Buf(1, 13, true, 0, false, D(disk, 13)), Buf(1, 26, true, 1, true, D(disk, 26))], [0, 1], [true, true]), 1);
    var st := OneList([Buf(1, 13, true, 0, false, D(disk, 13)), Buf(1, 26, true, 0, false, D(disk, 26))], [1, 0], [true, true]);
    assert FindBlock([1, 0], st.bufs, BlockId(1, 39), 0) == None;
    assert FindFree([1, 0], st.bufs, 2) == Some(1);
  }

  /** Block 26 is still cached: bread(1, 26) finds slot 1 valid and reads
      nothing. */
  lemma TwentySixStillCached(disk: map<BlockId, Block>)
    ensures Inv(OneList([Buf(1, 39, false, 1, true, D(disk, 13)), Buf(1, 26, true, 0, false, D(disk, 26))], [1, 0], [true, true]))
    ensures BGet(OneList([Buf(1, 39, false, 1, true, D(disk, 13)), Buf(1, 26, true, 0, false, D(disk, 26))], [1, 0], [true, true]), 1, 26).res == Ok(1)
    ensures !NeedsRead(OneList([Buf(1, 39, false, 1, true, D(disk, 13)), Buf(1, 26, true, 0, false, D(disk, 26))], [1, 0], [true, true]), 1, 26)
  {
    GetThirtyNine(disk);
    GetKeepsInv(OneList([Buf(1, 13, true, 0, false, D(disk, 13)), Buf(1, 26, true, 0, false, D(disk, 26))], [1, 0], [true, true]), 1, 39);
    var st := OneList([Buf(1, 39, false, 1, true, D(disk, 13)), Buf(1, 26, true, 0, false, D(disk, 26))], [1, 0], [true, true]);
    assert FindBlock([1, 0], st.bufs, BlockId(1, 26), 0) == Some(0);
  }
}
