/**
 One level of the two-level TLB: a fixed-size, fully associative array of
 translation entries, scanned linearly. The same definitions serve both the
 L1 array and the L2 array of src/tlb.c, whose per-level helpers are
 identical up to the array they scan.
 */
module Cache {

  datatype Option<+T> = None | Some(value: T)

  /** One slot of a translation cache (`tlb_entry_t`). */
  datatype Entry = Entry(valid: bool, dirty: bool, lastAccess: nat, vpn: nat, ppn: nat)

  /** The all-zero slot left behind by the initialisation. */
  const Empty: Entry := Entry(false, false, 0, 0, 0)

  /** A level: its entry array and its three statistics counters. */
  datatype Level = Level(entries: seq<Entry>, hits: nat, misses: nat, invalidations: nat)

  /** The result of installing a mapping: the new array and the write-backs it emitted. */
  datatype Filled = Filled(entries: seq<Entry>, writeBacks: seq<nat>)

  /** A slot that currently maps virtual page `vpn`. */
  predicate Holds(e: Entry, vpn: nat) {
    e.valid && e.vpn == vpn
  }

  /** At most one valid entry per virtual page number. */
  predicate Unique(es: seq<Entry>) {
    forall i, j :: 0 <= i < j < |es| && es[i].valid && es[j].valid ==> es[i].vpn != es[j].vpn
  }

  // ---------------------------------------------------------------------------
  // Lookup (tlb_l1_find_entry / tlb_l2_find_entry)
  // ---------------------------------------------------------------------------

  /** The scan of the lookup loop, started at index `from`. */
  function FindFrom(es: seq<Entry>, vpn: nat, from: nat): (r: Option<nat>)
    requires from <= |es|
    ensures r.None? <==> forall j :: from <= j < |es| ==> !Holds(es[j], vpn)
    ensures r.Some? ==> from <= r.value < |es| && Holds(es[r.value], vpn)
    ensures r.Some? ==> forall j :: from <= j < r.value ==> !Holds(es[j], vpn)
    decreases |es| - from
  {
    if from == |es| then None
    else if Holds(es[from], vpn) then Some(from)
    else FindFrom(es, vpn, from + 1)
  }

  /** Lookup: the lowest slot that validly maps `vpn`, or None. */
  function Find(es: seq<Entry>, vpn: nat): (r: Option<nat>)
    ensures r.None? <==> forall j :: 0 <= j < |es| ==> !Holds(es[j], vpn)
    ensures r.Some? ==> r.value < |es| && Holds(es[r.value], vpn)
    ensures r.Some? ==> forall j :: 0 <= j < r.value ==> !Holds(es[j], vpn)
  {
    FindFrom(es, vpn, 0)
  }

  /** The lookup loop as written, with its -1 "not found" sentinel. */
  method FindScan(es: seq<Entry>, vpn: nat) returns (r: int)
    ensures -1 <= r < |es|
    ensures r == -1 <==> forall j :: 0 <= j < |es| ==> !Holds(es[j], vpn)
    ensures r >= 0 ==> Holds(es[r], vpn) && forall j :: 0 <= j < r ==> !Holds(es[j], vpn)
    ensures r == -1 ==> Find(es, vpn) == None
    ensures r >= 0 ==> Find(es, vpn) == Some(r)
  {
    var i := 0;
    while i < |es|
      invariant 0 <= i <= |es|
      invariant forall j :: 0 <= j < i ==> !Holds(es[j], vpn)
    {
      if es[i].valid && es[i].vpn == vpn {
        FindIsLowest(es, vpn, i);
        return i;
      }
      i := i + 1;
    }
    return -1;
  }

  /** The lowest matching slot is the one Find returns. */
  lemma FindIsLowest(es: seq<Entry>, vpn: nat, k: nat)
    requires k < |es| && Holds(es[k], vpn)
    requires forall j :: 0 <= j < k ==> !Holds(es[j], vpn)
    ensures Find(es, vpn) == Some(k)
  {
  }

  /** Lookup depends only on which slots map the page. */
  lemma FindSame(a: seq<Entry>, b: seq<Entry>, vpn: nat)
    requires |a| == |b|
    requires forall j :: 0 <= j < |a| ==> (Holds(a[j], vpn) <==> Holds(b[j], vpn))
    ensures Find(a, vpn) == Find(b, vpn)
  {
    var r := Find(a, vpn);
    if r.Some? {
      FindIsLowest(b, vpn, r.value);
    }
  }

  /** Under uniqueness, the one slot that maps `vpn` is the one Find returns. */
  lemma FindUnique(es: seq<Entry>, vpn: nat, k: nat)
    requires Unique(es)
    requires k < |es| && Holds(es[k], vpn)
    ensures Find(es, vpn) == Some(k)
  {
    FindIsLowest(es, vpn, k);
  }

  // ---------------------------------------------------------------------------
  // Victim selection (tlb_l1_find_lru_entry / tlb_l2_find_lru_entry)
  // ---------------------------------------------------------------------------

  /** Some slot at index `from` or later is invalid. */
  predicate HasInvalidFrom(es: seq<Entry>, from: nat) {
    exists k :: from <= k < |es| && !es[k].valid
  }

  /** `k` is the lowest invalid slot among slots 1 and up. Slot 0 is never considered. */
  predicate IsFirstInvalid(es: seq<Entry>, k: nat) {
    && 1 <= k < |es|
    && !es[k].valid
    && forall j :: 1 <= j < k ==> es[j].valid
  }

  /** `k` is the lowest slot with the smallest `lastAccess` among slots `0 .. n-1`. */
  predicate IsOldestIn(es: seq<Entry>, k: nat, n: nat) {
    && k < n <= |es|
    && (forall j :: 0 <= j < n ==> es[k].lastAccess <= es[j].lastAccess)
    && (forall j :: 0 <= j < k ==> es[k].lastAccess < es[j].lastAccess)
  }

  predicate IsOldest(es: seq<Entry>, k: nat) {
    IsOldestIn(es, k, |es|)
  }

  /** The replacement loop, at index `from`, with `best` the least recent slot seen so far. */
  function VictimFrom(es: seq<Entry>, from: nat, best: nat): (r: nat)
    requires 1 <= from <= |es| && best < from
    requires forall j :: 1 <= j < from ==> es[j].valid
    requires IsOldestIn(es, best, from)
    ensures r < |es|
    ensures HasInvalidFrom(es, from) ==> IsFirstInvalid(es, r)
    ensures !HasInvalidFrom(es, from) ==> IsOldest(es, r)
    decreases |es| - from
  {
    if from == |es| then best
    else if !es[from].valid then from
    else if es[from].lastAccess < es[best].lastAccess then VictimFrom(es, from + 1, from)
    else VictimFrom(es, from + 1, best)
  }

  /** Victim selection: the scan seeded with slot 0 and continued from slot 1. */
  function Victim(es: seq<Entry>): (r: nat)
    requires |es| >= 1
    ensures r < |es|
    ensures HasInvalidFrom(es, 1) ==> IsFirstInvalid(es, r)
    ensures !HasInvalidFrom(es, 1) ==> IsOldest(es, r)
  {
    VictimFrom(es, 1, 0)
  }

  /** Each of the two selection rules picks at most one slot. */
  lemma VictimDetermined(es: seq<Entry>, a: nat, b: nat)
    requires (IsFirstInvalid(es, a) && IsFirstInvalid(es, b)) || (IsOldest(es, a) && IsOldest(es, b))
    ensures a == b
  {
  }

  /** The replacement loop as written: early exit on an invalid slot, strict `<` on times. */
  method FindLruScan(es: seq<Entry>) returns (r: nat)
    requires |es| >= 1
    ensures r < |es|
    ensures HasInvalidFrom(es, 1) ==> IsFirstInvalid(es, r)
    ensures !HasInvalidFrom(es, 1) ==> IsOldest(es, r)
    ensures r == Victim(es)
  {
    var best := 0;
    var oldest := es[0].lastAccess;
    var i := 1;
    while i < |es|
      invariant 1 <= i <= |es| && best < i
      invariant oldest == es[best].lastAccess
      invariant forall j :: 1 <= j < i ==> es[j].valid
      invariant IsOldestIn(es, best, i)
    {
      if !es[i].valid {
        r := i;
        VictimDetermined(es, r, Victim(es));
        return;
      }
      if es[i].lastAccess < oldest {
        oldest := es[i].lastAccess;
        best := i;
      }
      i := i + 1;
    }
    r := best;
    VictimDetermined(es, r, Victim(es));
  }

  // ---------------------------------------------------------------------------
  // Install: victim selection, dirty write-back, overwrite
  // ---------------------------------------------------------------------------

  /**
   Installs `e` over the victim slot. When that slot holds a valid dirty
   mapping, its page base `ppn * pageSize` is written back; the address is
   taken from the slot before it is overwritten.
   */
  function Install(es: seq<Entry>, e: Entry, pageSize: nat): (r: Filled)
    requires |es| >= 1
    ensures |r.entries| == |es|
    ensures r.entries[Victim(es)] == e
    ensures forall j :: 0 <= j < |es| && j != Victim(es) ==> r.entries[j] == es[j]
    ensures |r.writeBacks| <= 1
    ensures r.writeBacks != [] <==> es[Victim(es)].valid && es[Victim(es)].dirty
    ensures r.writeBacks != [] ==> r.writeBacks[0] == es[Victim(es)].ppn * pageSize
  {
    var v := Victim(es);
    var evicted := es[v];
    Filled(es[v := e], if evicted.valid && evicted.dirty then [evicted.ppn * pageSize] else [])
  }

  /** Installing a page that is not yet mapped keeps mappings unique. */
  lemma InstallKeepsUnique(es: seq<Entry>, e: Entry, pageSize: nat)
    requires |es| >= 1 && Unique(es)
    requires Find(es, e.vpn).None?
    ensures Unique(Install(es, e, pageSize).entries)
  {
    var v := Victim(es);
    var es' := Install(es, e, pageSize).entries;
    forall i, j | 0 <= i < j < |es'| && es'[i].valid && es'[j].valid
      ensures es'[i].vpn != es'[j].vpn
    {
      if i == v {
        assert !Holds(es[j], e.vpn);
      } else if j == v {
        assert !Holds(es[i], e.vpn);
      }
    }
  }

  /** After installing a valid entry for a page that was not mapped, lookup finds it in the victim slot. */
  lemma InstallThenFind(es: seq<Entry>, e: Entry, pageSize: nat)
    requires |es| >= 1 && e.valid
    requires Find(es, e.vpn).None?
    ensures Find(Install(es, e, pageSize).entries, e.vpn) == Some(Victim(es))
  {
    var v := Victim(es);
    var es' := Install(es, e, pageSize).entries;
    forall j | 0 <= j < v
      ensures !Holds(es'[j], e.vpn)
    {
      assert !Holds(es[j], e.vpn);
    }
    FindIsLowest(es', e.vpn, v);
  }

  /** Overwriting the victim removes its old mapping when mappings were unique. */
  lemma InstallEvicts(es: seq<Entry>, e: Entry, pageSize: nat)
    requires |es| >= 1 && Unique(es)
    requires es[Victim(es)].valid && e.vpn != es[Victim(es)].vpn
    ensures Find(Install(es, e, pageSize).entries, es[Victim(es)].vpn).None?
  {
  }

  // ---------------------------------------------------------------------------
  // Touching a hit entry, and invalidation of one level
  // ---------------------------------------------------------------------------

  /** Records an access to slot `i`: new time, and dirty set on a write. */
  function Touch(es: seq<Entry>, i: nat, now: nat, isWrite: bool): (r: seq<Entry>)
    requires i < |es|
    ensures |r| == |es|
    ensures forall j :: 0 <= j < |es| ==> r[j].valid == es[j].valid && r[j].vpn == es[j].vpn && r[j].ppn == es[j].ppn
    ensures r[i].lastAccess == now && r[i].dirty == (es[i].dirty || isWrite)
    ensures forall j :: 0 <= j < |es| && j != i ==> r[j] == es[j]
  {
    es[i := es[i].(lastAccess := now, dirty := es[i].dirty || isWrite)]
  }

  /** A touch changes no mapping: lookups and uniqueness are as before. */
  lemma TouchKeepsMappings(es: seq<Entry>, i: nat, now: nat, isWrite: bool, vpn: nat)
    requires i < |es|
    ensures Find(Touch(es, i, now, isWrite), vpn) == Find(es, vpn)
    ensures Unique(es) ==> Unique(Touch(es, i, now, isWrite))
  {
    FindSame(Touch(es, i, now, isWrite), es, vpn);
  }

  /** Clears the slot that maps `vpn`, if any, and counts the invalidation. */
  function InvalidateLevel(l: Level, vpn: nat): (r: Level)
    ensures |r.entries| == |l.entries|
    ensures r.hits == l.hits && r.misses == l.misses
    ensures r.invalidations == l.invalidations + (if Find(l.entries, vpn).Some? then 1 else 0)
    ensures forall j :: 0 <= j < |l.entries| && r.entries[j] != l.entries[j] ==>
      Find(l.entries, vpn) == Some(j) && r.entries[j] == l.entries[j].(valid := false)
    ensures Find(l.entries, vpn).Some? ==> !r.entries[Find(l.entries, vpn).value].valid
    ensures Find(l.entries, vpn).None? ==> r == l
  {
    match Find(l.entries, vpn)
    case None => l
    case Some(i) =>
      l.(entries := l.entries[i := l.entries[i].(valid := false)], invalidations := l.invalidations + 1)
  }

  /** With unique mappings, one invalidation removes the page from the level. */
  lemma InvalidateLevelClears(l: Level, vpn: nat)
    requires Unique(l.entries)
    ensures Find(InvalidateLevel(l, vpn).entries, vpn).None?
    ensures Unique(InvalidateLevel(l, vpn).entries)
  {
  }

  /** Invalidation leaves every other page's lookup as it was. */
  lemma InvalidateLevelKeepsOthers(l: Level, vpn: nat, other: nat)
    requires other != vpn
    ensures Find(InvalidateLevel(l, vpn).entries, other) == Find(l.entries, other)
  {
    FindSame(InvalidateLevel(l, vpn).entries, l.entries, other);
  }

  /** A second invalidation of the same page changes nothing. */
  lemma InvalidateLevelIdempotent(l: Level, vpn: nat)
    requires Unique(l.entries)
    ensures InvalidateLevel(InvalidateLevel(l, vpn), vpn) == InvalidateLevel(l, vpn)
  {
    InvalidateLevelClears(l, vpn);
  }
}
