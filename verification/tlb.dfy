/**
 The two-level TLB of src/tlb.c: state, initialisation, the six statistics
 accessors, translation and invalidation, as state-transforming functions.

 The clock, the page-table walker and the write-back sink are collaborators
 outside this model. The clock is the `now` field of the state. The walker
 is a function argument. Every write-back is appended, in issue order, to the
 `writeBacks` log.
 */
module Tlb {
  import opened Arith
  import opened Cache

  datatype Op = Read | Write

  /**
   Build-time constants: the capacities of the two levels, their access
   latencies, and the widths behind the page, page-index and address masks.
   */
  datatype Config = Config(
    l1Size: nat, l2Size: nat,
    l1Latency: nat, l2Latency: nat,
    pageBits: nat, indexBits: nat, vaBits: nat)
  {
    predicate Valid() {
      l1Size >= 1 && l2Size >= 1
    }

    function PageSize(): nat {
      Pow2(pageBits)
    }
  }

  /** Both levels with their counters, the simulated time and the write-backs issued so far. */
  datatype State = State(l1: Level, l2: Level, now: nat, writeBacks: seq<nat>)

  /** What the page-table walker reports: the physical address and the time it took. */
  datatype Walk = Walk(pa: nat, latency: nat)

  /** The outcome of one translation: the new state and the physical address returned. */
  datatype Translation = Translation(state: State, pa: nat)

  /** The entry arrays have the configured capacities. */
  predicate WellFormed(cfg: Config, s: State) {
    |s.l1.entries| == cfg.l1Size && |s.l2.entries| == cfg.l2Size
  }

  /** Every L1 miss is accounted for by exactly one L2 hit or L2 miss. */
  predicate Balanced(s: State) {
    s.l1.misses == s.l2.hits + s.l2.misses
  }

  /** What every reachable state satisfies. */
  predicate Inv(cfg: Config, s: State) {
    WellFormed(cfg, s) && Unique(s.l1.entries) && Unique(s.l2.entries) && Balanced(s)
  }

  // ---------------------------------------------------------------------------
  // Statistics accessors
  // ---------------------------------------------------------------------------

  function TotalL1Hits(s: State): nat { s.l1.hits }
  function TotalL1Misses(s: State): nat { s.l1.misses }
  function TotalL1Invalidations(s: State): nat { s.l1.invalidations }
  function TotalL2Hits(s: State): nat { s.l2.hits }
  function TotalL2Misses(s: State): nat { s.l2.misses }
  function TotalL2Invalidations(s: State): nat { s.l2.invalidations }

  /** No accessor reports less in `t` than in `s`. */
  predicate CountersLe(s: State, t: State) {
    && TotalL1Hits(s) <= TotalL1Hits(t)
    && TotalL1Misses(s) <= TotalL1Misses(t)
    && TotalL1Invalidations(s) <= TotalL1Invalidations(t)
    && TotalL2Hits(s) <= TotalL2Hits(t)
    && TotalL2Misses(s) <= TotalL2Misses(t)
    && TotalL2Invalidations(s) <= TotalL2Invalidations(t)
  }

  // ---------------------------------------------------------------------------
  // Initialisation
  // ---------------------------------------------------------------------------

  /**
   Every slot of both levels zeroed (hence invalid) and all six counters
   reset. The clock is not the TLB's and keeps its value; the write-back log
   starts empty.
   */
  function Init(cfg: Config, now: nat): (s: State)
    ensures Inv(cfg, s)
    ensures s.now == now && s.writeBacks == []
    ensures forall i :: 0 <= i < |s.l1.entries| ==> s.l1.entries[i] == Empty
    ensures forall i :: 0 <= i < |s.l2.entries| ==> s.l2.entries[i] == Empty
    ensures TotalL1Hits(s) == 0 && TotalL1Misses(s) == 0 && TotalL1Invalidations(s) == 0
    ensures TotalL2Hits(s) == 0 && TotalL2Misses(s) == 0 && TotalL2Invalidations(s) == 0
  {
    State(
      Level(seq(cfg.l1Size, _ => Empty), 0, 0, 0),
      Level(seq(cfg.l2Size, _ => Empty), 0, 0, 0),
      now, [])
  }

  // ---------------------------------------------------------------------------
  // Address split
  // ---------------------------------------------------------------------------

  /**
   The address with the bits outside the address space discarded: an address
   already inside the space is kept, and otherwise only a multiple of the
   space's size is taken off.
   */
  function Masked(cfg: Config, va: nat): (r: nat)
    ensures r < Pow2(cfg.vaBits)
    ensures va < Pow2(cfg.vaBits) ==> r == va
    ensures r <= va && (va - r) % Pow2(cfg.vaBits) == 0
  {
    ModReduces(va, Pow2(cfg.vaBits));
    va % Pow2(cfg.vaBits)
  }

  function PageNumber(cfg: Config, va: nat): (r: nat)
    ensures r < Pow2(cfg.indexBits)
  {
    (Masked(cfg, va) / cfg.PageSize()) % Pow2(cfg.indexBits)
  }

  function PageOffset(cfg: Config, va: nat): (r: nat)
    ensures r < cfg.PageSize()
  {
    Masked(cfg, va) % cfg.PageSize()
  }

  /**
   A page number shifted up and combined with an in-page offset. For an
   offset within the page the two parts can be split off again.
   */
  function Join(cfg: Config, ppn: nat, offset: nat): (r: nat)
    ensures offset < cfg.PageSize() ==> r / cfg.PageSize() == ppn && r % cfg.PageSize() == offset
  {
    SplitsBack(ppn, cfg.PageSize(), offset);
    ppn * cfg.PageSize() + offset
  }

  // ---------------------------------------------------------------------------
  // Translation
  // ---------------------------------------------------------------------------

  /**
   Translates `va` for `op`. L1 is probed after one L1 latency; on a hit the
   entry is touched. On an L1 miss, L2 is probed after one L2 latency; on a
   hit the L2 entry is touched and then copied into an L1 victim slot. On an
   L2 miss the walker supplies the address and the page is installed into an
   L2 victim slot and then into an L1 victim slot.
   */
  function Translate(cfg: Config, s: State, va: nat, op: Op, walk: (nat, Op, nat) -> Walk): (r: Translation)
    requires cfg.Valid() && WellFormed(cfg, s)
    ensures WellFormed(cfg, r.state)
    ensures TotalL1Hits(r.state) + TotalL1Misses(r.state) == TotalL1Hits(s) + TotalL1Misses(s) + 1
    ensures r.state.now >= s.now + cfg.l1Latency
  {
    var a := Masked(cfg, va);
    var vpn := PageNumber(cfg, va);
    var offset := PageOffset(cfg, va);
    var isWrite := op == Write;
    var t1 := s.now + cfg.l1Latency;
    match Find(s.l1.entries, vpn)
    case Some(i) =>
      var l1 := s.l1.(entries := Touch(s.l1.entries, i, t1, isWrite), hits := s.l1.hits + 1);
      Translation(s.(l1 := l1, now := t1), Join(cfg, s.l1.entries[i].ppn, offset))
    case None =>
      var t2 := t1 + cfg.l2Latency;
      match Find(s.l2.entries, vpn)
      case Some(j) =>
        var l2es := Touch(s.l2.entries, j, t2, isWrite);
        var promoted := Install(s.l1.entries, Entry(true, l2es[j].dirty, t2, vpn, l2es[j].ppn), cfg.PageSize());
        var l1 := s.l1.(entries := promoted.entries, misses := s.l1.misses + 1);
        var l2 := s.l2.(entries := l2es, hits := s.l2.hits + 1);
        Translation(
          State(l1, l2, t2, s.writeBacks + promoted.writeBacks),
          Join(cfg, l2es[j].ppn, offset))
      case None =>
        var w := walk(a, op, t2);
        var t3 := t2 + w.latency;
        var ppn := w.pa / cfg.PageSize();
        var mapping := Entry(true, isWrite, t3, vpn, ppn);
        var into2 := Install(s.l2.entries, mapping, cfg.PageSize());
        var into1 := Install(s.l1.entries, mapping, cfg.PageSize());
        var l1 := s.l1.(entries := into1.entries, misses := s.l1.misses + 1);
        var l2 := s.l2.(entries := into2.entries, misses := s.l2.misses + 1);
        Translation(
          State(l1, l2, t3, s.writeBacks + into2.writeBacks + into1.writeBacks),
          w.pa)
  }

  // ---------------------------------------------------------------------------
  // Invalidation
  // ---------------------------------------------------------------------------

  /**
   Charges one L1 latency, then clears the slot mapping `vpn` in L1 and in L2,
   counting an invalidation only in a level where one was found. Nothing is
   written back.
   */
  function Invalidate(cfg: Config, s: State, vpn: nat): (r: State)
    ensures r.writeBacks == s.writeBacks
    ensures r.now == s.now + cfg.l1Latency
    ensures TotalL1Invalidations(r) == TotalL1Invalidations(s) + (if Find(s.l1.entries, vpn).Some? then 1 else 0)
    ensures TotalL2Invalidations(r) == TotalL2Invalidations(s) + (if Find(s.l2.entries, vpn).Some? then 1 else 0)
    ensures Find(s.l1.entries, vpn).None? ==> r.l1 == s.l1
    ensures Find(s.l2.entries, vpn).None? ==> r.l2 == s.l2
  {
    State(InvalidateLevel(s.l1, vpn), InvalidateLevel(s.l2, vpn), s.now + cfg.l1Latency, s.writeBacks)
  }
}
