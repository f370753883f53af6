/**
 Concrete runs of the model: a small configuration driven through a few
 translations, and the victim choice when slot 0 is the empty one.
 */
module TlbScenario {
  import opened Arith
  import opened Cache
  import opened Tlb

  /** Two L1 slots, four L2 slots, 16-byte pages, 8 page-index bits, 12-bit addresses. */
  const Small: Config := Config(2, 4, 1, 10, 4, 8, 12)

  /** A walker that maps every page 16 pages up and takes no extra time. */
  function Shifted(a: nat, op: Op, now: nat): Walk {
    Walk(a + 256, 0)
  }

  /** Pages 1, 2 and 3 as the walker maps them, stamped with the time of their fill. */
  const PageA: Entry := Entry(true, false, 11, 1, 17)
  const PageB: Entry := Entry(true, false, 22, 2, 18)
  const PageC: Entry := Entry(true, false, 33, 3, 19)

  /** The states after the first, second and third read. */
  const AfterA: State := State(Level([Empty, PageA], 0, 1, 0), Level([Empty, PageA, Empty, Empty], 0, 1, 0), 11, [])
  const AfterB: State := State(Level([PageB, PageA], 0, 2, 0), Level([Empty, PageA, PageB, Empty], 0, 2, 0), 22, [])
  const AfterC: State := State(Level([PageB, PageC], 0, 3, 0), Level([Empty, PageA, PageB, PageC], 0, 3, 0), 33, [])

  lemma SmallSizes()
    ensures Small.PageSize() == 16 && Pow2(Small.indexBits) == 256 && Pow2(Small.vaBits) == 4096
  {
    assert Pow2(4) == 16;
    assert Pow2(8) == 256;
  }

  /** The first read fills slot 1 of both levels: slot 0 is not checked for being empty. */
  lemma FirstRead()
    ensures Translate(Small, Init(Small, 0), 16, Read, Shifted) == Translation(AfterA, 272)
  {
    SmallSizes();
    var s := Init(Small, 0);
    assert s.l1.entries == [Empty, Empty];
    assert s.l2.entries == [Empty, Empty, Empty, Empty];
    assert PageNumber(Small, 16) == 1;
    assert Victim(s.l1.entries) == 1 by { assert !s.l1.entries[1].valid; }
    assert Victim(s.l2.entries) == 1 by { assert !s.l2.entries[1].valid; }
  }

  /** The second read takes L1 slot 0, stamped 0 and so the oldest. */
  lemma SecondRead()
    ensures Translate(Small, AfterA, 32, Read, Shifted) == Translation(AfterB, 288)
  {
    SmallSizes();
    assert PageNumber(Small, 32) == 2;
    assert Victim(AfterA.l1.entries) == 0 by { assert !HasInvalidFrom(AfterA.l1.entries, 1); }
    assert Victim(AfterA.l2.entries) == 2 by { assert !AfterA.l2.entries[2].valid; }
  }

  /** The third read evicts page 1, the least recently used, from L1. */
  lemma ThirdRead()
    ensures Translate(Small, AfterB, 48, Read, Shifted) == Translation(AfterC, 304)
  {
    SmallSizes();
    assert PageNumber(Small, 48) == 3;
    assert Victim(AfterB.l1.entries) == 1 by { assert !HasInvalidFrom(AfterB.l1.entries, 1); }
    assert Victim(AfterB.l2.entries) == 3 by { assert !AfterB.l2.entries[3].valid; }
  }

  /**
   Reading pages 1, 2 and 3 in turn from a fresh TLB leaves pages 2 and 3 in
   L1 and all three in L2, after three misses in each level, no hit, and
   nothing written back.
   */
  lemma ThreeReads()
    ensures
      var r1 := Translate(Small, Init(Small, 0), 16, Read, Shifted);
      var r2 := Translate(Small, r1.state, 32, Read, Shifted);
      var r3 := Translate(Small, r2.state, 48, Read, Shifted);
      var t := r3.state;
      && r1.pa == 272 && r2.pa == 288 && r3.pa == 304
      && Find(t.l1.entries, 1).None?
      && Find(t.l1.entries, 2) == Some(0)
      && Find(t.l1.entries, 3) == Some(1)
      && Find(t.l2.entries, 1) == Some(1)
      && Find(t.l2.entries, 2) == Some(2)
      && Find(t.l2.entries, 3) == Some(3)
      && TotalL1Hits(t) == 0 && TotalL1Misses(t) == 3
      && TotalL2Hits(t) == 0 && TotalL2Misses(t) == 3
      && t.writeBacks == []
  {
    FirstRead();
    SecondRead();
    ThirdRead();
    FindIsLowest(AfterC.l1.entries, 2, 0);
    FindIsLowest(AfterC.l1.entries, 3, 1);
    FindIsLowest(AfterC.l2.entries, 1, 1);
    FindIsLowest(AfterC.l2.entries, 2, 2);
    FindIsLowest(AfterC.l2.entries, 3, 3);
  }

  /**
   Slot 0 is never tested for being empty: with slot 0 empty but more
   recently stamped than the valid slot 1, the valid mapping in slot 1 is the
   one replaced.
   */
  lemma EmptySlotZeroPassedOver()
    ensures
      var es := [Entry(false, false, 5, 0, 0), Entry(true, true, 3, 7, 9)];
      Victim(es) == 1 && es[1].valid
      && Install(es, Entry(true, false, 6, 8, 8), 16).writeBacks == [144]
  {
  }
}
