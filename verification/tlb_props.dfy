/**
 Properties of the two-level TLB: the effect of each translation path, the
 counter accounting, the uniqueness invariant, invalidation, and the
 behaviour of sequences of calls.
 */
module TlbProps {
  import opened Arith
  import opened Cache
  import opened Tlb

  // ---------------------------------------------------------------------------
  // Address arithmetic
  // ---------------------------------------------------------------------------

  /** The page number of the masked address is below `2^indexBits`, so the page-index mask keeps all of it. */
  lemma PageIndexFits(cfg: Config, va: nat)
    requires cfg.vaBits <= cfg.pageBits + cfg.indexBits
    ensures Masked(cfg, va) / cfg.PageSize() < Pow2(cfg.indexBits)
  {
    ShiftBelow(Masked(cfg, va), cfg.vaBits, cfg.pageBits, cfg.indexBits);
  }

  /**
   When the page-index mask keeps every page-number bit of the address space,
   the page number and offset put back together give the masked address.
   */
  lemma SplitJoins(cfg: Config, va: nat)
    requires cfg.vaBits <= cfg.pageBits + cfg.indexBits
    ensures Join(cfg, PageNumber(cfg, va), PageOffset(cfg, va)) == Masked(cfg, va)
  {
    var a := Masked(cfg, va);
    var p := cfg.PageSize();
    PageIndexFits(cfg, va);
    DivModUnique(0, Pow2(cfg.indexBits), a / p);
    assert PageNumber(cfg, va) == a / p;
    assert a == (a / p) * p + a % p;
  }

  // ---------------------------------------------------------------------------
  // The three translation paths
  // ---------------------------------------------------------------------------

  /** L1 hit: one L1 hit counted, only the hit entry touched, L2 and the write-back log untouched. */
  lemma TranslateL1Hit(cfg: Config, s: State, va: nat, op: Op, walk: (nat, Op, nat) -> Walk)
    requires cfg.Valid() && WellFormed(cfg, s)
    requires Find(s.l1.entries, PageNumber(cfg, va)).Some?
    ensures
      var i := Find(s.l1.entries, PageNumber(cfg, va)).value;
      var r := Translate(cfg, s, va, op, walk);
      && r.state.l1.hits == s.l1.hits + 1
      && r.state.l1.misses == s.l1.misses
      && r.state.l1.invalidations == s.l1.invalidations
      && r.state.l2 == s.l2
      && r.state.writeBacks == s.writeBacks
      && r.state.now == s.now + cfg.l1Latency
      && |r.state.l1.entries| == |s.l1.entries|
      && (forall j :: 0 <= j < |s.l1.entries| && j != i ==> r.state.l1.entries[j] == s.l1.entries[j])
      && r.state.l1.entries[i] == s.l1.entries[i].(lastAccess := r.state.now, dirty := s.l1.entries[i].dirty || op == Write)
      && r.pa == Join(cfg, s.l1.entries[i].ppn, PageOffset(cfg, va))
  {
  }

  /**
   L2 hit: the L2 entry is touched and stays valid with its mapping
   (inclusion), and a copy is promoted into the L1 victim slot, dirty when the
   access is a write or the L2 copy was dirty. The L1 victim is written back
   first when it was valid and dirty.
   */
  lemma TranslateL2Hit(cfg: Config, s: State, va: nat, op: Op, walk: (nat, Op, nat) -> Walk)
    requires cfg.Valid() && WellFormed(cfg, s)
    requires Find(s.l1.entries, PageNumber(cfg, va)).None?
    requires Find(s.l2.entries, PageNumber(cfg, va)).Some?
    ensures
      var vpn := PageNumber(cfg, va);
      var j := Find(s.l2.entries, vpn).value;
      var v := Victim(s.l1.entries);
      var hit := s.l2.entries[j];
      var evicted := s.l1.entries[v];
      var r := Translate(cfg, s, va, op, walk);
      && r.state.l1.hits == s.l1.hits && r.state.l1.misses == s.l1.misses + 1
      && r.state.l2.hits == s.l2.hits + 1 && r.state.l2.misses == s.l2.misses
      && r.state.l1.invalidations == s.l1.invalidations && r.state.l2.invalidations == s.l2.invalidations
      && r.state.now == s.now + cfg.l1Latency + cfg.l2Latency
      && |r.state.l2.entries| == |s.l2.entries|
      && (forall k :: 0 <= k < |s.l2.entries| && k != j ==> r.state.l2.entries[k] == s.l2.entries[k])
      && r.state.l2.entries[j] == Entry(true, hit.dirty || op == Write, r.state.now, vpn, hit.ppn)
      && |r.state.l1.entries| == |s.l1.entries|
      && (forall k :: 0 <= k < |s.l1.entries| && k != v ==> r.state.l1.entries[k] == s.l1.entries[k])
      && r.state.l1.entries[v] == Entry(true, op == Write || hit.dirty, r.state.now, vpn, hit.ppn)
      && r.state.writeBacks == s.writeBacks + (if evicted.valid && evicted.dirty then [evicted.ppn * cfg.PageSize()] else [])
      && r.pa == Join(cfg, hit.ppn, PageOffset(cfg, va))
  {
  }

  /**
   Full miss: the walker is asked for the masked address; its page is
   installed clean or dirty (as the access) into an L2 victim slot and then
   into an L1 victim slot, each victim written back first when valid and
   dirty, L2's before L1's. The walker's address is returned as it is.
   */
  lemma TranslateMiss(cfg: Config, s: State, va: nat, op: Op, walk: (nat, Op, nat) -> Walk)
    requires cfg.Valid() && WellFormed(cfg, s)
    requires Find(s.l1.entries, PageNumber(cfg, va)).None?
    requires Find(s.l2.entries, PageNumber(cfg, va)).None?
    ensures
      var w := walk(Masked(cfg, va), op, s.now + cfg.l1Latency + cfg.l2Latency);
      var installed := Entry(true, op == Write, s.now + cfg.l1Latency + cfg.l2Latency + w.latency,
                             PageNumber(cfg, va), w.pa / cfg.PageSize());
      var v1 := Victim(s.l1.entries);
      var v2 := Victim(s.l2.entries);
      var e1 := s.l1.entries[v1];
      var e2 := s.l2.entries[v2];
      var r := Translate(cfg, s, va, op, walk);
      && r.state.l1.hits == s.l1.hits && r.state.l1.misses == s.l1.misses + 1
      && r.state.l2.hits == s.l2.hits && r.state.l2.misses == s.l2.misses + 1
      && r.state.l1.invalidations == s.l1.invalidations && r.state.l2.invalidations == s.l2.invalidations
      && r.state.now == installed.lastAccess
      && |r.state.l1.entries| == |s.l1.entries| && |r.state.l2.entries| == |s.l2.entries|
      && r.state.l1.entries[v1] == installed && r.state.l2.entries[v2] == installed
      && (forall k :: 0 <= k < |s.l1.entries| && k != v1 ==> r.state.l1.entries[k] == s.l1.entries[k])
      && (forall k :: 0 <= k < |s.l2.entries| && k != v2 ==> r.state.l2.entries[k] == s.l2.entries[k])
      && r.state.writeBacks == s.writeBacks
           + (if e2.valid && e2.dirty then [e2.ppn * cfg.PageSize()] else [])
           + (if e1.valid && e1.dirty then [e1.ppn * cfg.PageSize()] else [])
      && r.pa == w.pa
  {
  }

  // ---------------------------------------------------------------------------
  // Counters
  // ---------------------------------------------------------------------------

  /**
   Every translation counts exactly one L1 hit or L1 miss, and one L2 hit or
   L2 miss exactly when it missed L1. No counter ever goes down.
   */
  lemma TranslateAccounting(cfg: Config, s: State, va: nat, op: Op, walk: (nat, Op, nat) -> Walk)
    requires cfg.Valid() && WellFormed(cfg, s)
    ensures
      var t := Translate(cfg, s, va, op, walk).state;
      && CountersLe(s, t)
      && ((TotalL1Hits(t) == TotalL1Hits(s) + 1 && TotalL1Misses(t) == TotalL1Misses(s))
          || (TotalL1Hits(t) == TotalL1Hits(s) && TotalL1Misses(t) == TotalL1Misses(s) + 1))
      && TotalL2Hits(t) + TotalL2Misses(t) == TotalL2Hits(s) + TotalL2Misses(s) + (TotalL1Misses(t) - TotalL1Misses(s))
      && TotalL1Invalidations(t) == TotalL1Invalidations(s)
      && TotalL2Invalidations(t) == TotalL2Invalidations(s)
  {
    var vpn := PageNumber(cfg, va);
    if Find(s.l1.entries, vpn).Some? {
      TranslateL1Hit(cfg, s, va, op, walk);
    } else if Find(s.l2.entries, vpn).Some? {
      TranslateL2Hit(cfg, s, va, op, walk);
    } else {
      TranslateMiss(cfg, s, va, op, walk);
    }
  }

  /** Invalidation only ever adds to the invalidation counters. */
  lemma InvalidateAccounting(cfg: Config, s: State, vpn: nat)
    ensures
      var t := Invalidate(cfg, s, vpn);
      && CountersLe(s, t)
      && TotalL1Hits(t) == TotalL1Hits(s) && TotalL1Misses(t) == TotalL1Misses(s)
      && TotalL2Hits(t) == TotalL2Hits(s) && TotalL2Misses(t) == TotalL2Misses(s)
  {
  }

  // ---------------------------------------------------------------------------
  // The invariant
  // ---------------------------------------------------------------------------

  /**
   Translation keeps at most one valid entry per page in each level, because
   every install follows a failed lookup in that level, and keeps the L1 miss
   count equal to the L2 hits plus the L2 misses.
   */
  lemma TranslateKeepsInv(cfg: Config, s: State, va: nat, op: Op, walk: (nat, Op, nat) -> Walk)
    requires cfg.Valid() && Inv(cfg, s)
    ensures Inv(cfg, Translate(cfg, s, va, op, walk).state)
  {
    var vpn := PageNumber(cfg, va);
    var t1 := s.now + cfg.l1Latency;
    var t2 := t1 + cfg.l2Latency;
    TranslateAccounting(cfg, s, va, op, walk);
    match Find(s.l1.entries, vpn)
    case Some(i) =>
      TouchKeepsMappings(s.l1.entries, i, t1, op == Write, vpn);
    case None =>
      match Find(s.l2.entries, vpn)
      case Some(j) =>
        TouchKeepsMappings(s.l2.entries, j, t2, op == Write, vpn);
        var l2es := Touch(s.l2.entries, j, t2, op == Write);
        InstallKeepsUnique(s.l1.entries, Entry(true, l2es[j].dirty, t2, vpn, l2es[j].ppn), cfg.PageSize());
      case None =>
        var w := walk(Masked(cfg, va), op, t2);
        var mapping := Entry(true, op == Write, t2 + w.latency, vpn, w.pa / cfg.PageSize());
        InstallKeepsUnique(s.l2.entries, mapping, cfg.PageSize());
        InstallKeepsUnique(s.l1.entries, mapping, cfg.PageSize());
  }

  /**
   After any translation, L1 holds a valid entry for the page, and its
   physical page number is that of the returned address.
   */
  lemma TranslateFillsL1(cfg: Config, s: State, va: nat, op: Op, walk: (nat, Op, nat) -> Walk)
    requires cfg.Valid() && WellFormed(cfg, s)
    ensures
      var r := Translate(cfg, s, va, op, walk);
      var found := Find(r.state.l1.entries, PageNumber(cfg, va));
      found.Some? && r.state.l1.entries[found.value].ppn == r.pa / cfg.PageSize()
  {
    var vpn := PageNumber(cfg, va);
    var t1 := s.now + cfg.l1Latency;
    var t2 := t1 + cfg.l2Latency;
    match Find(s.l1.entries, vpn)
    case Some(i) =>
      TouchKeepsMappings(s.l1.entries, i, t1, op == Write, vpn);
    case None =>
      match Find(s.l2.entries, vpn)
      case Some(j) =>
        var l2es := Touch(s.l2.entries, j, t2, op == Write);
        InstallThenFind(s.l1.entries, Entry(true, l2es[j].dirty, t2, vpn, l2es[j].ppn), cfg.PageSize());
      case None =>
        var w := walk(Masked(cfg, va), op, t2);
        var mapping := Entry(true, op == Write, t2 + w.latency, vpn, w.pa / cfg.PageSize());
        InstallThenFind(s.l1.entries, mapping, cfg.PageSize());
  }

  /** A translation only appends to the write-back log, at most two addresses. */
  lemma TranslateAppendsWriteBacks(cfg: Config, s: State, va: nat, op: Op, walk: (nat, Op, nat) -> Walk)
    requires cfg.Valid() && WellFormed(cfg, s)
    ensures
      var t := Translate(cfg, s, va, op, walk).state;
      && |s.writeBacks| <= |t.writeBacks| <= |s.writeBacks| + 2
      && t.writeBacks[..|s.writeBacks|] == s.writeBacks
  {
    var vpn := PageNumber(cfg, va);
    if Find(s.l1.entries, vpn).Some? {
      TranslateL1Hit(cfg, s, va, op, walk);
    } else if Find(s.l2.entries, vpn).Some? {
      TranslateL2Hit(cfg, s, va, op, walk);
    } else {
      TranslateMiss(cfg, s, va, op, walk);
    }
  }

  /** The same address translated twice in a row hits L1 the second time, at the same page. */
  lemma HitAfterFill(cfg: Config, s: State, va: nat, op1: Op, op2: Op, walk: (nat, Op, nat) -> Walk)
    requires cfg.Valid() && WellFormed(cfg, s)
    ensures
      var r1 := Translate(cfg, s, va, op1, walk);
      var r2 := Translate(cfg, r1.state, va, op2, walk);
      && TotalL1Hits(r2.state) == TotalL1Hits(r1.state) + 1
      && TotalL1Misses(r2.state) == TotalL1Misses(r1.state)
      && r2.state.l2 == r1.state.l2
      && r2.state.writeBacks == r1.state.writeBacks
      && r2.pa == Join(cfg, r1.pa / cfg.PageSize(), PageOffset(cfg, va))
      && (r1.pa % cfg.PageSize() == PageOffset(cfg, va) ==> r2.pa == r1.pa)
  {
    var r1 := Translate(cfg, s, va, op1, walk);
    TranslateFillsL1(cfg, s, va, op1, walk);
    TranslateL1Hit(cfg, r1.state, va, op2, walk);
    var p := cfg.PageSize();
    assert r1.pa == (r1.pa / p) * p + r1.pa % p;
  }

  /** On the first translation after initialisation both levels miss and both get the page. */
  lemma ColdMiss(cfg: Config, now: nat, va: nat, op: Op, walk: (nat, Op, nat) -> Walk)
    requires cfg.Valid()
    ensures
      var r := Translate(cfg, Init(cfg, now), va, op, walk);
      && TotalL1Hits(r.state) == 0 && TotalL1Misses(r.state) == 1
      && TotalL2Hits(r.state) == 0 && TotalL2Misses(r.state) == 1
      && Find(r.state.l1.entries, PageNumber(cfg, va)).Some?
      && Find(r.state.l2.entries, PageNumber(cfg, va)).Some?
      && r.state.writeBacks == []
      && r.pa == walk(Masked(cfg, va), op, now + cfg.l1Latency + cfg.l2Latency).pa
  {
    var s := Init(cfg, now);
    var vpn := PageNumber(cfg, va);
    var t2 := now + cfg.l1Latency + cfg.l2Latency;
    TranslateMiss(cfg, s, va, op, walk);
    var w := walk(Masked(cfg, va), op, t2);
    var mapping := Entry(true, op == Write, t2 + w.latency, vpn, w.pa / cfg.PageSize());
    InstallThenFind(s.l1.entries, mapping, cfg.PageSize());
    InstallThenFind(s.l2.entries, mapping, cfg.PageSize());
  }

  /**
   With L1 full, a miss evicts the least recently accessed L1 entry (the
   lowest such slot on a tie): that page is gone from L1 and every other
   page L1 held is still there.
   */
  lemma EvictsLeastRecent(cfg: Config, s: State, va: nat, op: Op, walk: (nat, Op, nat) -> Walk)
    requires cfg.Valid() && Inv(cfg, s)
    requires forall k :: 0 <= k < |s.l1.entries| ==> s.l1.entries[k].valid
    requires Find(s.l1.entries, PageNumber(cfg, va)).None?
    ensures
      var es := s.l1.entries;
      var v := Victim(es);
      var es' := Translate(cfg, s, va, op, walk).state.l1.entries;
      && (forall k :: 0 <= k < |es| ==> es[v].lastAccess <= es[k].lastAccess)
      && (forall k :: 0 <= k < v ==> es[v].lastAccess < es[k].lastAccess)
      && Find(es', es[v].vpn).None?
      && (forall k :: 0 <= k < |es| && k != v ==> Find(es', es[k].vpn).Some?)
  {
    var es := s.l1.entries;
    var vpn := PageNumber(cfg, va);
    var v := Victim(es);
    var t2 := s.now + cfg.l1Latency + cfg.l2Latency;
    assert !HasInvalidFrom(es, 1);
    var mapping: Entry;
    if Find(s.l2.entries, vpn).Some? {
      TranslateL2Hit(cfg, s, va, op, walk);
      var j := Find(s.l2.entries, vpn).value;
      mapping := Entry(true, op == Write || s.l2.entries[j].dirty, t2, vpn, s.l2.entries[j].ppn);
    } else {
      TranslateMiss(cfg, s, va, op, walk);
      var w := walk(Masked(cfg, va), op, t2);
      mapping := Entry(true, op == Write, t2 + w.latency, vpn, w.pa / cfg.PageSize());
    }
    var es' := Translate(cfg, s, va, op, walk).state.l1.entries;
    assert es' == Install(es, mapping, cfg.PageSize()).entries;
    assert !Holds(es[v], vpn);
    InstallEvicts(es, mapping, cfg.PageSize());
    forall k | 0 <= k < |es| && k != v
      ensures Find(es', es[k].vpn).Some?
    {
      assert Holds(es'[k], es[k].vpn);
    }
  }

  // ---------------------------------------------------------------------------
  // Invalidation
  // ---------------------------------------------------------------------------

  /**
   Invalidation removes the page from both levels, leaves the lookup of every
   other page as it was, and keeps the invariant.
   */
  lemma InvalidateRemoves(cfg: Config, s: State, vpn: nat)
    requires Inv(cfg, s)
    ensures
      var t := Invalidate(cfg, s, vpn);
      && Inv(cfg, t)
      && Find(t.l1.entries, vpn).None? && Find(t.l2.entries, vpn).None?
      && (forall other :: other != vpn ==>
            Find(t.l1.entries, other) == Find(s.l1.entries, other)
            && Find(t.l2.entries, other) == Find(s.l2.entries, other))
  {
    InvalidateLevelClears(s.l1, vpn);
    InvalidateLevelClears(s.l2, vpn);
    forall other | other != vpn
      ensures Find(InvalidateLevel(s.l1, vpn).entries, other) == Find(s.l1.entries, other)
      ensures Find(InvalidateLevel(s.l2, vpn).entries, other) == Find(s.l2.entries, other)
    {
      InvalidateLevelKeepsOthers(s.l1, vpn, other);
      InvalidateLevelKeepsOthers(s.l2, vpn, other);
    }
  }

  /** A second invalidation of the same page only advances the clock. */
  lemma InvalidateIdempotent(cfg: Config, s: State, vpn: nat)
    requires Unique(s.l1.entries) && Unique(s.l2.entries)
    ensures
      var once := Invalidate(cfg, s, vpn);
      Invalidate(cfg, once, vpn) == once.(now := once.now + cfg.l1Latency)
  {
    InvalidateLevelIdempotent(s.l1, vpn);
    InvalidateLevelIdempotent(s.l2, vpn);
  }

  /** After invalidating a page, translating an address on it misses both levels and walks. */
  lemma InvalidateThenMiss(cfg: Config, s: State, va: nat, op: Op, walk: (nat, Op, nat) -> Walk)
    requires cfg.Valid() && Inv(cfg, s)
    ensures
      var t := Invalidate(cfg, s, PageNumber(cfg, va));
      var r := Translate(cfg, t, va, op, walk);
      && TotalL1Misses(r.state) == TotalL1Misses(t) + 1
      && TotalL2Misses(r.state) == TotalL2Misses(t) + 1
      && TotalL1Hits(r.state) == TotalL1Hits(t) && TotalL2Hits(r.state) == TotalL2Hits(t)
      && r.pa == walk(Masked(cfg, va), op, t.now + cfg.l1Latency + cfg.l2Latency).pa
  {
    var t := Invalidate(cfg, s, PageNumber(cfg, va));
    InvalidateRemoves(cfg, s, PageNumber(cfg, va));
    TranslateMiss(cfg, t, va, op, walk);
  }

  // ---------------------------------------------------------------------------
  // Sequences of calls
  // ---------------------------------------------------------------------------

  /** One call into the TLB from the rest of the simulator. */
  datatype Call = DoTranslate(va: nat, op: Op) | DoInvalidate(vpn: nat)

  function Apply(cfg: Config, s: State, c: Call, walk: (nat, Op, nat) -> Walk): (t: State)
    requires cfg.Valid() && WellFormed(cfg, s)
    ensures WellFormed(cfg, t)
  {
    match c
    case DoTranslate(va, op) => Translate(cfg, s, va, op, walk).state
    case DoInvalidate(vpn) => Invalidate(cfg, s, vpn)
  }

  /** The state after the calls `calls`, made in order. */
  function Run(cfg: Config, s: State, calls: seq<Call>, walk: (nat, Op, nat) -> Walk): (t: State)
    requires cfg.Valid() && WellFormed(cfg, s)
    ensures WellFormed(cfg, t)
    decreases |calls|
  {
    if calls == [] then s else Run(cfg, Apply(cfg, s, calls[0], walk), calls[1..], walk)
  }

  /** `t` can follow `s`: no counter lower, the clock not earlier, the log extended. */
  predicate Follows(s: State, t: State) {
    && CountersLe(s, t)
    && s.now <= t.now
    && |s.writeBacks| <= |t.writeBacks| && t.writeBacks[..|s.writeBacks|] == s.writeBacks
  }

  lemma FollowsTransitive(s: State, t: State, u: State)
    requires Follows(s, t) && Follows(t, u)
    ensures Follows(s, u)
  {
    assert u.writeBacks[..|s.writeBacks|] == u.writeBacks[..|t.writeBacks|][..|s.writeBacks|];
  }

  /** Each single call keeps the invariant and moves the state forward. */
  lemma ApplyKeepsInv(cfg: Config, s: State, c: Call, walk: (nat, Op, nat) -> Walk)
    requires cfg.Valid() && Inv(cfg, s)
    ensures Inv(cfg, Apply(cfg, s, c, walk)) && Follows(s, Apply(cfg, s, c, walk))
  {
    match c
    case DoTranslate(va, op) =>
      TranslateKeepsInv(cfg, s, va, op, walk);
      TranslateAccounting(cfg, s, va, op, walk);
      TranslateAppendsWriteBacks(cfg, s, va, op, walk);
    case DoInvalidate(vpn) =>
      InvalidateRemoves(cfg, s, vpn);
      InvalidateAccounting(cfg, s, vpn);
  }

  /**
   Over any sequence of calls the invariant holds throughout, no counter
   decreases, the clock does not go back and the write-back log only grows.
   */
  lemma {:induction false} RunKeepsInv(cfg: Config, s: State, calls: seq<Call>, walk: (nat, Op, nat) -> Walk)
    requires cfg.Valid() && Inv(cfg, s)
    ensures Inv(cfg, Run(cfg, s, calls, walk))
    ensures Follows(s, Run(cfg, s, calls, walk))
    decreases |calls|
  {
    if calls == [] {
      assert s.writeBacks[..|s.writeBacks|] == s.writeBacks;
    } else {
      var next := Apply(cfg, s, calls[0], walk);
      ApplyKeepsInv(cfg, s, calls[0], walk);
      RunKeepsInv(cfg, next, calls[1..], walk);
      FollowsTransitive(s, next, Run(cfg, next, calls[1..], walk));
    }
  }

  /**
   Every state reachable from initialisation keeps one entry per page in each
   level and has as many L1 misses as L2 hits and misses together.
   */
  lemma ReachableFromInit(cfg: Config, now: nat, calls: seq<Call>, walk: (nat, Op, nat) -> Walk)
    requires cfg.Valid()
    ensures
      var t := Run(cfg, Init(cfg, now), calls, walk);
      && Unique(t.l1.entries) && Unique(t.l2.entries)
      && TotalL1Misses(t) == TotalL2Hits(t) + TotalL2Misses(t)
  {
    RunKeepsInv(cfg, Init(cfg, now), calls, walk);
  }

  // ---------------------------------------------------------------------------
  // What the statistics accessors report
  // ---------------------------------------------------------------------------

  /** The number of translations among `calls`. */
  function Translations(calls: seq<Call>): nat
    decreases |calls|
  {
    if calls == [] then 0 else (if calls[0].DoTranslate? then 1 else 0) + Translations(calls[1..])
  }

  /** The number of invalidations among `calls`. */
  function Invalidations(calls: seq<Call>): nat
    decreases |calls|
  {
    if calls == [] then 0 else (if calls[0].DoInvalidate? then 1 else 0) + Invalidations(calls[1..])
  }

  /** What one call adds to the counters, in the terms of `CountersTally`. */
  lemma ApplyTally(cfg: Config, s: State, c: Call, walk: (nat, Op, nat) -> Walk)
    requires cfg.Valid() && WellFormed(cfg, s)
    ensures
      var t := Apply(cfg, s, c, walk);
      && TotalL1Hits(t) + TotalL1Misses(t) == TotalL1Hits(s) + TotalL1Misses(s) + (if c.DoTranslate? then 1 else 0)
      && TotalL2Hits(t) + TotalL2Misses(t) + TotalL1Misses(s) == TotalL2Hits(s) + TotalL2Misses(s) + TotalL1Misses(t)
      && TotalL1Invalidations(t) <= TotalL1Invalidations(s) + (if c.DoInvalidate? then 1 else 0)
      && TotalL2Invalidations(t) <= TotalL2Invalidations(s) + (if c.DoInvalidate? then 1 else 0)
  {
    match c
    case DoTranslate(va, op) =>
      TranslateAccounting(cfg, s, va, op, walk);
    case DoInvalidate(vpn) =>
      InvalidateAccounting(cfg, s, vpn);
  }

  /**
   Over any sequence of calls, the L1 hits and misses together grow by the
   number of translations, the L2 hits and misses together grow by the number
   of L1 misses, and each invalidation counter grows by at most the number of
   invalidations.
   */
  lemma {:induction false} CountersTally(cfg: Config, s: State, calls: seq<Call>, walk: (nat, Op, nat) -> Walk)
    requires cfg.Valid() && WellFormed(cfg, s)
    ensures
      var t := Run(cfg, s, calls, walk);
      && TotalL1Hits(t) + TotalL1Misses(t) == TotalL1Hits(s) + TotalL1Misses(s) + Translations(calls)
      && TotalL2Hits(t) + TotalL2Misses(t) + TotalL1Misses(s) == TotalL2Hits(s) + TotalL2Misses(s) + TotalL1Misses(t)
      && TotalL1Invalidations(t) <= TotalL1Invalidations(s) + Invalidations(calls)
      && TotalL2Invalidations(t) <= TotalL2Invalidations(s) + Invalidations(calls)
    decreases |calls|
  {
    if calls != [] {
      var next := Apply(cfg, s, calls[0], walk);
      ApplyTally(cfg, s, calls[0], walk);
      CountersTally(cfg, next, calls[1..], walk);
    }
  }

  /**
   From initialisation, the six accessors report: L1 hits and misses adding
   up to the number of translations, L2 hits and misses adding up to the L1
   misses, and at most one invalidation per level for each invalidate call.
   */
  lemma AccessorsFromInit(cfg: Config, now: nat, calls: seq<Call>, walk: (nat, Op, nat) -> Walk)
    requires cfg.Valid()
    ensures
      var t := Run(cfg, Init(cfg, now), calls, walk);
      && TotalL1Hits(t) + TotalL1Misses(t) == Translations(calls)
      && TotalL2Hits(t) + TotalL2Misses(t) == TotalL1Misses(t)
      && TotalL1Invalidations(t) <= Invalidations(calls)
      && TotalL2Invalidations(t) <= Invalidations(calls)
  {
    CountersTally(cfg, Init(cfg, now), calls, walk);
  }
}
