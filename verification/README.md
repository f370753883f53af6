# Two-level TLB model

A Dafny model of the translation lookaside buffer in `src/tlb.c`. The TLB is a
cache of virtual-to-physical page mappings in front of a page-table walker. It
has two levels. Each level is a fixed-size, fully associative array of
entries, scanned linearly, with its own hit, miss and invalidation counters.

- `arith.dfy`, module `Arith`: powers of two and the facts about division
  and remainder that the shifts and masks of the address split need.
- `cache.dfy`, module `Cache`: one level. It holds the entry record
  (`tlb_entry_t`), the lookup scan (`tlb_l1/l2_find_entry`) and the victim
  scan (`tlb_l1/l2_find_lru_entry`). It also holds the install step (victim
  choice, dirty write-back, overwrite), the touch on a hit, and the clearing
  of one level on invalidation. The C file has two copies of each helper, one
  per level, identical except for the array they scan. The model defines each
  helper once and uses it for both levels.
- `tlb.dfy`, module `Tlb`: the whole TLB. It covers the state, `tlb_init`, the
  six `get_total_*` accessors, the address split, `tlb_translate` and
  `tlb_invalidate`. Translation and invalidation are pure functions from
  state to state.
- `tlb_props.dfy`, module `TlbProps`: properties of the model. They cover the
  effect of each translation path, counter accounting, the invariant of one
  valid entry per page, invalidation, and arbitrary sequences of calls.
- `tlb_scenario.dfy`, module `TlbScenario`: concrete runs on a small
  configuration.

The collaborators become explicit in the model:
- The clock is the `now` field of the state. A translation advances it by
  the L1 latency. On an L1 miss it also advances it by the L2 latency. The
  walker may add more time.
- The page-table walker `page_table_translate` is a function argument. It
  receives the masked address, the operation and the current time. It
  returns a physical address and the time it took.
- The write-back sink `write_back_tlb_entry` is the `writeBacks` log. Each
  write-back is appended in the order the C code issues it. The address is
  taken from the victim slot before that slot is overwritten.
- The constants of `constants.h` are the fields of `Config`: both
  capacities (each at least 1), both latencies, and the bit widths behind
  the masks.

Two places in the code differ from a cleaner design. The model follows the code in both:
- The victim scan starts with slot 0 as its candidate and tests for empty
  slots only from index 1 upward. An empty slot 0 is not preferred. It is
  chosen only when its time is the oldest (`EmptySlotZeroPassedOver`).
  A plain invalid-first policy would prefer any empty slot, slot 0 included.
- On an L2 hit, the L2 entry's time is updated, and so is its dirty bit on a
  write, before the entry is copied into L1. A strictly inclusive copy would
  leave the L2 entry unmodified.

With L1 capacity 2 and L2 capacity 4, reading pages A, B and C in turn from a
fresh TLB leaves B and C in L1 (`ThreeReads`).
A is installed in L1 slot 1. B goes to slot 0, whose initial time is the
oldest. C then evicts A.

## Model

| member | source | states |
|---|---|---|
| Cache.Find | src/tlb.c:52-68 | The result is empty exactly when no valid entry holds the page. Otherwise it is the lowest index whose entry is valid and holds the page. |
| Cache.FindScan | src/tlb.c:52-59 | The C loop with its -1 sentinel. It returns -1 exactly when no valid entry holds the page, otherwise the lowest matching index. It agrees with `Find`. |
| Cache.FindSame | src/tlb.c:52-68 | Lookup depends only on which slots validly hold the page. Two arrays that agree on that give the same answer. |
| Cache.FindUnique | src/tlb.c:52-68 | When at most one valid entry holds each page, lookup returns the one slot that holds the page. |
| Cache.Victim | src/tlb.c:71-101 | The result is always a slot index. If some slot from index 1 up is invalid, the result is the lowest such slot. Otherwise it is the lowest slot with the smallest last-access time over all slots, slot 0 included: ties go to the lower index. |
| Cache.VictimDetermined | src/tlb.c:71-101 | Each of the two selection rules, first invalid slot and oldest slot, picks at most one slot. |
| Cache.FindLruScan | src/tlb.c:71-85 | The C loop. It starts from slot 0 and its time, returns early on an invalid slot, and replaces its candidate only on a strictly smaller time. It meets the same characterisation as `Victim` and returns the same slot. |
| Cache.Install | src/tlb.c:165-177 | Only the victim slot changes, and it now holds the new entry. One write-back is emitted exactly when the victim was valid and dirty. Its address is the victim's old physical page number times the page size. |
| Cache.InstallKeepsUnique | src/tlb.c:188-207 | Installing a page that the level does not yet hold keeps at most one valid entry per page. |
| Cache.InstallThenFind | src/tlb.c:199-207 | After installing a valid entry for a page the level did not hold, lookup finds the page in the victim slot. |
| Cache.InstallEvicts | src/tlb.c:199-207 | When mappings are unique and the victim held a different page, that page can no longer be found after the install. |
| Cache.Touch | src/tlb.c:137-142 | A hit keeps every slot's validity and page numbers. The hit slot gets the new time, and its dirty bit becomes set on a write and stays as before on a read. No other slot changes. |
| Cache.TouchKeepsMappings | src/tlb.c:157-162 | A touch changes no lookup result and keeps mappings unique. |
| Cache.InvalidateLevel | src/tlb.c:107-118 | Hits and misses are unchanged. The invalidation count grows by one exactly when the page was found. When found, the slot that lookup returns is cleared and no other slot changes. If the page was absent, the level is unchanged. |
| Cache.InvalidateLevelClears | src/tlb.c:107-112 | When mappings are unique, the page can no longer be found after invalidation, and mappings stay unique. |
| Cache.InvalidateLevelKeepsOthers | src/tlb.c:113-118 | Invalidating one page leaves the lookup of every other page unchanged. |
| Cache.InvalidateLevelIdempotent | src/tlb.c:103-120 | When mappings are unique, a second invalidation of the same page leaves the level as the first one did. |
| Tlb.Init | src/tlb.c:40-49 | The invariant holds. Every slot of both levels is the all-zero entry: invalid, clean, time 0, page numbers 0. All six counters read 0. The clock is kept and the write-back log is empty. |
| Tlb.Masked | src/tlb.c:124 | The masked address lies within the address width. An address already within the width is kept as it is. Otherwise only a multiple of the address-space size is taken off. |
| Tlb.PageNumber | src/tlb.c:125 | The page number lies within the page-index width. |
| Tlb.PageOffset | src/tlb.c:126 | The offset lies within one page. |
| Tlb.Join | src/tlb.c:145 | Combining a physical page number with an offset that lies within one page can be split again into that page number and that offset, so the combination loses neither part. |
| Tlb.Translate | src/tlb.c:122-210 | Both levels keep their capacities. The L1 hits plus L1 misses grow by exactly one. The clock advances by at least the L1 latency. |
| Tlb.Invalidate | src/tlb.c:103-120 | Nothing is written back and the clock advances by one L1 latency. Each level's invalidation counter grows by one exactly when that level held the page. A level that did not hold the page is unchanged. |
| TlbProps.SplitJoins | src/tlb.c:124-126 | When the page-index mask keeps all page-number bits, page number times page size plus offset gives back the masked address. |
| TlbProps.TranslateL1Hit | src/tlb.c:132-146 | On an L1 hit, only the L1 hit counter moves, by one. Only the hit entry changes: its time becomes the current time, and its dirty bit is set on a write. L2 and the write-back log are untouched. The result is the entry's page number times the page size plus the offset. |
| TlbProps.TranslateL2Hit | src/tlb.c:148-180 | On an L1 miss and an L2 hit, the L1 miss and L2 hit counters each grow by one. The L2 entry stays valid with the same page numbers. The L1 victim slot receives that mapping, dirty if the access is a write or the L2 copy was dirty. The L1 victim is written back first if it was valid and dirty. The result uses L2's page number. |
| TlbProps.TranslateMiss | src/tlb.c:182-210 | On a miss in both levels, both miss counters grow by one. The walker is given the masked address. The L2 victim slot, then the L1 victim slot, receive the page with the physical page number of the walker's address divided by the page size. The entry is dirty exactly on a write. Each victim is written back if it was valid and dirty, L2's first. The walker's address is returned unchanged. |
| TlbProps.TranslateAccounting | src/tlb.c:132-182 | Every translation counts exactly one L1 hit or one L1 miss. The L2 hits plus L2 misses grow by one exactly when L1 missed. No counter decreases and the invalidation counters do not move. |
| TlbProps.InvalidateAccounting | src/tlb.c:103-120 | Invalidation moves no hit or miss counter and decreases no counter. |
| TlbProps.TranslateKeepsInv | src/tlb.c:132-207 | Translation keeps at most one valid entry per page in each level, and keeps the L1 misses equal to the L2 hits plus the L2 misses. |
| TlbProps.TranslateFillsL1 | src/tlb.c:132-209 | After any translation, L1 holds a valid entry for the page. That entry's physical page number is the returned address divided by the page size. |
| TlbProps.TranslateAppendsWriteBacks | src/tlb.c:165-202 | A translation only appends to the write-back log, and appends at most two addresses. |
| TlbProps.HitAfterFill | src/tlb.c:132-146 | Translating the same address twice in a row gives an L1 hit the second time. L2 and the write-back log are not touched. The second address is on the same physical page as the first, and equals the first when the first carries the same offset. |
| TlbProps.ColdMiss | src/tlb.c:182-209 | The first translation after initialisation records one L1 miss and one L2 miss and no hit. Both levels then hold the page, nothing is written back, and the walker's address is returned. |
| TlbProps.EvictsLeastRecent | src/tlb.c:165-207 | When L1 is full, an L1 miss evicts the lowest slot with the oldest time. That page is then absent from L1, and every other page L1 held is still found. |
| TlbProps.InvalidateRemoves | src/tlb.c:103-120 | Invalidation keeps the invariant and removes the page from both levels. The lookup of every other page is unchanged in both levels. |
| TlbProps.InvalidateIdempotent | src/tlb.c:103-120 | When mappings are unique, invalidating the same page a second time changes nothing but the clock. |
| TlbProps.InvalidateThenMiss | src/tlb.c:103-120 | Translating an address whose page was just invalidated misses both levels and returns the walker's address. |
| TlbProps.ApplyKeepsInv | src/tlb.c:103-210 | A single translate or invalidate keeps the invariant. It lowers no counter, does not move the clock back, and only extends the write-back log. |
| TlbProps.RunKeepsInv | src/tlb.c:103-210 | Over any sequence of translations and invalidations, the invariant holds, no counter decreases, the clock does not go back, and the write-back log only grows. |
| TlbProps.ReachableFromInit | src/tlb.c:32-49 | In every state reachable from initialisation, each level holds at most one valid entry per page. The L1 miss count equals the L2 hit count plus the L2 miss count. |
| TlbProps.CountersTally | src/tlb.c:32-38 | Over any sequence of calls, the L1 hits plus L1 misses that the accessors report grow by the number of translations. The L2 hits plus L2 misses grow by as much as the L1 misses. Each level's invalidation count grows by at most the number of invalidate calls. |
| TlbProps.AccessorsFromInit | src/tlb.c:32-49 | After initialisation and any sequence of calls, the L1 hit and miss accessors add up to the number of translations. The L2 hit and miss accessors add up to the L1 miss accessor. Neither invalidation accessor exceeds the number of invalidate calls. |
| TlbScenario.FirstRead | src/tlb.c:71-85 | On a fresh TLB, the first fill lands in slot 1 of each level, because slot 0 is not checked for being empty. |
| TlbScenario.ThreeReads | src/tlb.c:182-209 | With capacities 2 and 4, reading pages 1, 2 and 3 leaves pages 2 and 3 in L1 and all three in L2. There are three misses in each level, no hits and no write-backs. |
| TlbScenario.EmptySlotZeroPassedOver | src/tlb.c:71-85 | An empty slot 0 whose time is not the oldest is passed over. A valid, dirty mapping is evicted and written back instead. |

## Left out

- The clock implementation (`increment_time`, `get_time`) is not modelled. Time is a natural number in the state.
- The page-table walker is an arbitrary function of the address, the operation and the time. Its own state, its page faults and the fault propagation that `page_table_translate` may signal are not modelled.
- The body of `write_back_tlb_entry` and the memory behind it are not modelled. Only the emitted page addresses are recorded.
- The walker and the write-back sink are assumed never to call back into the TLB. On a full miss the walk at src/tlb.c:184 runs before the victims are chosen at src/tlb.c:188 and src/tlb.c:199. The model chooses them from the state as it was before the walk, so an invalidation or eviction made by the walker is not modelled.
- The walker and the write-back sink are also assumed to advance the clock only by the latency the walker reports. In the code, `get_time()` at src/tlb.c:177, src/tlb.c:195 and src/tlb.c:207 runs after `write_back_tlb_entry`, so time spent in a write-back would show up in the stored timestamps. The model does not include that time.
- Logging and the concrete values of the constants are not modelled. The three masks are taken to be low-bit masks of `vaBits`, `indexBits` and `pageBits` bits. Shifts and masks become division and remainder by powers of two, and `(ppn << PAGE_SIZE_BITS) | offset` becomes `ppn * 2^pageBits + offset`. These agree because the offset is below the page size.
- The 64-bit width of counters, timestamps and addresses is not modelled. The model does not wrap on overflow, including the overflow of `ppn << PAGE_SIZE_BITS`.
- Initialisation does not model the byte-level `memset`. It produces all-zero entries, which are invalid.
- TlbProps.HitAfterFill: the two addresses are proved equal only when the walker's address carries the same in-page offset as the virtual address. After a full miss the code returns the walker's address as it is, so nothing stronger holds for an arbitrary walker.
