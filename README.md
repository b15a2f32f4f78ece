# Shifting Bloom filter, modelled and verified in Dafny

This project models the `ShiftingBloomFilter` class of the Python package
`ShiftingBloomFilter`. The filter is a Bloom filter that can also say which of
several sets an item was inserted into (MULTIPLE mode), or roughly how many
times it was inserted into one multiset (MULTISET mode).

The filter is a bytearray of `m` cells, each 0 or 1, plus an ordered list of
hash functions. The list is split at `cut_off = k // 2`:

- The first `cut_off` functions form the presence group. They are always
  addressed at offset 0.
- The remaining functions form the discriminator group. They are addressed at
  `(digest + offset) mod m`, where `offset` is the set number (MULTIPLE) or
  an occurrence slot (MULTISET).

`check` returns "absent" as soon as a presence cell is 0. Otherwise it scans
the offsets `0..max_set` and keeps those where every discriminator cell is
set.

Files:

- `wrappers.dfy` (module `Wrappers`): `Option` and `Result`.
- `filter_spec.dfy` (module `SbfSpec`): the value-level specification.
  - Hash sources and construction arithmetic.
  - The addressing function `Position`.
  - `Stamp` / `InsertCells`: what inserting does to the cell sequence.
  - `Candidates` / `CheckOutcome`: what a query answers.
  - The lemmas about these functions.
- `shifting_bloom_filter.dfy` (module `Sbf`): the class
  `ShiftingBloomFilter`.
  - An `array<byte>` updated in place, the fields `maxSet` and `count`, and
    constant configuration fields.
  - Methods with loops that mirror the source's `for`/`while` loops, proved
    against the `SbfSpec` functions.
  - Two client scenarios.

Hashing is abstract. A hash function is any total function `Item -> nat`. It
stands for the digest of `item.encode()` read as an unsigned integer in the
platform byte order. The filter relies only on that value being
deterministic, and insert and check both address cells through the same
`Position` function. The constants `MULTIPLE` / `MULTISET` are the datatype
`Mode`.

The object invariant `Valid()` holds:

- every cell is 0 or 1;
- `cutOff == k / 2` and at most `k` functions are kept;
- every `(item, offset)` pair inserted so far (ghost field `Inserted`) is still
  recorded: all its presence cells and its discriminator cells at that offset
  are 1, and `offset <= maxSet`.

Because of this invariant, `Check` has no false negatives. For every item
inserted under a non-negative offset, `check` returns found, and in MULTIPLE
mode it lists that offset.

Behaviour of the code worth noting:

- A MULTISET insert uses offset 0 for an item `check` reports absent, and
  the reported count + 1 otherwise. So offset 1 is never used, and the
  second insert of an item goes to offset 2 or higher (`MultisetOffset`).
- `length = 0` with `length_as_power = False` gives a filter of 0 cells. The
  constructor accepts this. Any later hashing then divides by zero.
- `hash_count` is compared with `len(hash_source)` at line 62, not with the
  filtered function list. The default source names 14 algorithms, 2 of them
  shake algorithms, so `hash_count = 14` is admitted while only 12 functions
  are kept. The split is still `cut_off = 14 // 2 = 7`, so the filter then has
  7 presence and 5 discriminator functions, fewer than `k - k // 2`. Every
  admitted `hash_count` of at least 1 still leaves at least one
  discriminator (`ShakeShortfall`, `GuaranteedGroups`).
- In MULTIPLE mode an item inserted under a negative set number can be
  missed. `_insert_at_offset` raises `max_set` only for a larger offset, and
  `_check_offsets` scans offsets 0 up to `max_set`, so it never visits a
  negative offset. `NegativeSetMissed` shows this for a fresh 4-cell filter:
  the item is recorded under set -1, yet `check` answers `(False, [])`. The
  no-false-negative guarantee therefore covers non-negative set numbers
  only.
- The MULTISET count can stop growing. If offset count + 1 is at most
  `max_set` and already matches for an item, inserting it there sets no new
  cell and leaves `max_set` alone, so the count stays the same. `MultisetCountStalls` shows this for an 8-cell filter built with set
  count 3 where another item has set cell 3. The first insert of an item
  makes the count 2, and every later insert leaves the cells, and so the
  count, unchanged. The count never decreases (`CheckMonotone`), and two
  inserts into a fresh filter count at least 2 (`MultisetScenario`).
- When offset count + 1 exceeds `max_set`, the insert raises `max_set` to
  it, and the scan then covers that offset. So the count can grow even
  though no cell changed. `MultisetCountGrowsPastBound` shows this on the
  8 cells `[1,0,1,0,0,0,0,1]` with `max_set = 0`. The item counts 1, its
  insert at offset 2 sets no new cell, and with `max_set = 2` it counts 2.

## Model

| member | source | states |
|---|---|---|
| SbfSpec.FilterSize | ShiftingBloomFilter/shifting_bloom_filter.py:54 | the filter has `2^length` cells when the length is a power (never zero), else exactly `length` |
| SbfSpec.KeptFrom | ShiftingBloomFilter/shifting_bloom_filter.py:56-57 | lists, in ascending order, exactly the positions of the source entries whose names do not contain "shake" (any case); all positions are listed iff no name contains "shake" |
| SbfSpec.NonShake | ShiftingBloomFilter/shifting_bloom_filter.py:55-59 | the default source keeps, in entry order, exactly the functions of the entries whose names do not contain "shake": the j-th kept function is that of the j-th such entry. It keeps at most as many functions as it lists, and all of them iff no name contains "shake" |
| SbfSpec.Usable | ShiftingBloomFilter/shifting_bloom_filter.py:55-59 | the usable list never exceeds the source's length; a caller-supplied list is used as given |
| SbfSpec.Validate | ShiftingBloomFilter/shifting_bloom_filter.py:60-64 | construction fails with HashesUnavailable iff the resolved hash count exceeds `len(hash_source)`; an omitted count always succeeds and resolves to the number of usable functions |
| SbfSpec.Selected | ShiftingBloomFilter/shifting_bloom_filter.py:66 | the kept functions are the first `min(k, usable)` usable ones, in order |
| SbfSpec.ShakeShortfall | ShiftingBloomFilter/shifting_bloom_filter.py:55-66 | a default source listing a shake algorithm admits `hash_count = len(source)` yet keeps fewer than `k` functions |
| SbfSpec.GuaranteedUsable | ShiftingBloomFilter/shifting_bloom_filter.py:55-59 | of the 14 guaranteed algorithms, the 12 whose names do not contain "shake" are kept |
| SbfSpec.GuaranteedGroups | ShiftingBloomFilter/shifting_bloom_filter.py:55-66 | with the default source, `hash_count = 14` is admitted and 15 is refused; at 14 the presence group has 7 functions and the discriminator group 5; every admitted `hash_count >= 1` leaves at least one discriminator |
| SbfSpec.Position | ShiftingBloomFilter/shifting_bloom_filter.py:110-121 | the address `(digest + offset) mod m` always lies in `[0, m)` |
| SbfSpec.PositionWraps | ShiftingBloomFilter/shifting_bloom_filter.py:121 | offsets that differ by `m` address the same cell |
| SbfSpec.StampSpec | ShiftingBloomFilter/shifting_bloom_filter.py:177-180 | setting a group's cells makes every targeted cell 1 and leaves every other cell unchanged |
| SbfSpec.StampSetsAll | ShiftingBloomFilter/shifting_bloom_filter.py:134 | after stamping, every cell the group addresses for the item is 1 |
| SbfSpec.StampGrows | ShiftingBloomFilter/shifting_bloom_filter.py:134 | stamping never turns a 1 into something else and keeps all cells in {0, 1} |
| SbfSpec.InsertCellsSpec | ShiftingBloomFilter/shifting_bloom_filter.py:167-180 | `_insert_at_offset` sets exactly the presence cells at offset 0 and the discriminator cells at the offset, records the item, never clears a cell and keeps cells binary |
| SbfSpec.RecordedGrows | ShiftingBloomFilter/shifting_bloom_filter.py:134 | an item recorded under an offset stays recorded as cells only grow |
| SbfSpec.GroupOrderIrrelevant | ShiftingBloomFilter/shifting_bloom_filter.py:177-180 | two groups with the same functions in any order stamp the same cells and test the same way |
| SbfSpec.CandidatesSpec | ShiftingBloomFilter/shifting_bloom_filter.py:209-217 | the scan's list is strictly ascending and holds exactly the offsets in `[0, max_set]` at which every discriminator cell is 1 |
| SbfSpec.CandidatesGrow | ShiftingBloomFilter/shifting_bloom_filter.py:209-217 | with grown cells and a larger scan bound, every earlier candidate remains and the list is no shorter |
| SbfSpec.CheckOutcomeSpec | ShiftingBloomFilter/shifting_bloom_filter.py:182-220 | check reports found iff every presence cell is set and some offset in `[0, max_set]` matches. It returns `(False, [])` or `(False, 0)` when a presence cell is 0. MULTIPLE lists exactly the matching offsets, ascending; MULTISET returns that list's length |
| SbfSpec.RecordedIsFound | ShiftingBloomFilter/shifting_bloom_filter.py:182-220 | an item recorded under an offset in `[0, max_set]` is found, that offset is listed in MULTIPLE mode, and the MULTISET count is at least 1 |
| SbfSpec.NoFalseNegatives | ShiftingBloomFilter/shifting_bloom_filter.py:148-220 | after inserting an item under offset `s >= 0`, any later state whose cells only grew and whose `max_set >= s` reports the item found and lists `s` |
| SbfSpec.CheckMonotone | ShiftingBloomFilter/shifting_bloom_filter.py:182-220 | as cells grow and `max_set` does not shrink, a found item stays found, listed sets stay listed and the MULTISET count never decreases |
| SbfSpec.MultisetOffset | ShiftingBloomFilter/shifting_bloom_filter.py:159-164 | a MULTISET insert uses offset 0 for an item reported absent and otherwise one past the count, so never offset 1 |
| SbfSpec.MultisetCountStalls | ShiftingBloomFilter/shifting_bloom_filter.py:157-220 | in an 8-cell MULTISET filter with set count 3 and cell 3 already set, an item's first insert (offset 0) makes its count 2; its next insert goes to offset 3, changes no cell and leaves the count at 2 |
| SbfSpec.MultisetCountGrowsPastBound | ShiftingBloomFilter/shifting_bloom_filter.py:157-220 | on 8 MULTISET cells with `max_set = 0` where the item counts 1, its next insert goes to offset 2 and sets no new cell, yet raising `max_set` to 2 makes the count 2 |
| SbfSpec.NegativeSetMissed | ShiftingBloomFilter/shifting_bloom_filter.py:167-220 | an item inserted in MULTIPLE mode under set -1 on a fresh 4-cell filter is recorded, yet the query answers `(False, [])` because the scan starts at 0 |
| Sbf.ShiftingBloomFilter.constructor | ShiftingBloomFilter/shifting_bloom_filter.py:54-72 | sets `m`, `k`, `cut_off = k // 2` and the first `k` usable functions; allocates `m` zero cells; sets `max_set = set_count` and `count = 0`; the invariant holds; a custom source keeps exactly `k` functions |
| Sbf.ShiftingBloomFilter.New | ShiftingBloomFilter/shifting_bloom_filter.py:60-72 | fails with HashesUnavailable iff `hash_count > len(hash_source)`, otherwise returns a fresh filter in the constructor's initial state |
| Sbf.ShiftingBloomFilter.Len | ShiftingBloomFilter/shifting_bloom_filter.py:74-76 | the length is the size of the underlying bytearray |
| Sbf.ShiftingBloomFilter.NonEmpty | ShiftingBloomFilter/shifting_bloom_filter.py:78-83 | truthiness holds iff some cell is non-zero |
| Sbf.ShiftingBloomFilter.Get | ShiftingBloomFilter/shifting_bloom_filter.py:104-108 | indexing succeeds iff `-m <= index < m`, gives the cell at `index mod m` (negative indices count from the end), and always yields 0 or 1 |
| Sbf.ShiftingBloomFilter.SetPosition | ShiftingBloomFilter/shifting_bloom_filter.py:123-134 | the addressed cell becomes 1 and no other cell changes |
| Sbf.ShiftingBloomFilter.CheckPosition | ShiftingBloomFilter/shifting_bloom_filter.py:136-146 | reports whether the addressed cell is 1 |
| Sbf.ShiftingBloomFilter.StampAll | ShiftingBloomFilter/shifting_bloom_filter.py:177-180 | the loop over a group leaves the cells equal to `Stamp` of the old cells |
| Sbf.ShiftingBloomFilter.InsertAtOffset | ShiftingBloomFilter/shifting_bloom_filter.py:167-180 | raises `max_set` to the offset if larger; the cells become `InsertCells` of the old cells; `count` is unchanged; the item is recorded; the invariant is kept |
| Sbf.ShiftingBloomFilter.Insert | ShiftingBloomFilter/shifting_bloom_filter.py:148-165 | inserts at `set_no` (MULTIPLE) or at the MULTISET offset chosen from the prior check. `count` grows by exactly 1, cells only grow, `max_set` never decreases, and some cell is set whenever there is a hash function |
| Sbf.ShiftingBloomFilter.Check | ShiftingBloomFilter/shifting_bloom_filter.py:182-197 | changes nothing and returns `CheckOutcome` of the current state. Every item inserted under an offset `>= 0` is found; in MULTIPLE mode the offset is listed, in MULTISET mode it counts |
| Sbf.ShiftingBloomFilter.InsertedAreFound | ShiftingBloomFilter/shifting_bloom_filter.py:182-220 | an answer equal to `CheckOutcome` finds every item inserted under a non-negative offset |
| Sbf.ShiftingBloomFilter.OffsetMatches | ShiftingBloomFilter/shifting_bloom_filter.py:212-216 | the inner for/else loop reports whether every discriminator cell at the offset is 1 |
| Sbf.ShiftingBloomFilter.CheckOffsets | ShiftingBloomFilter/shifting_bloom_filter.py:199-220 | the `while` scan over `0..max_set` returns the candidate list (MULTIPLE) or its length (MULTISET), with found meaning non-empty |
| Sbf.SetIdScenario | ShiftingBloomFilter/shifting_bloom_filter.py:148-197 | in a fresh 2^8-cell, four-function MULTIPLE filter, inserting "alice" into set 3 makes `check("alice")` report found with 3 listed |
| Sbf.MultisetScenario | ShiftingBloomFilter/shifting_bloom_filter.py:157-165 | in a fresh MULTISET filter, two inserts of one item make `check` count at least two occurrences |

## Left out

- `get_fpr` (false-positive estimate) is not modelled: it is floating-point arithmetic with powers of `e` and only an estimate.
- `save2file` / `load_from_file` are not modelled: they are file I/O with pickle.
- `__str__` / `__repr__` are not modelled: they only format strings, and `__repr__` uses `math.log2`.
- The hashlib digests and `int.from_bytes(..., sys.byteorder)` are abstracted as a total function `Item -> nat`. Their values are platform-dependent and foreign to the model.
- `HashFactory`, `RandomStringGenerator` and `CSVDataSet` (utils.py), the tkinter visualisers, the stale upper-case duplicate modules, the exception classes (their one use here is the `HashesUnavailable` error of `New`) and the packaging files are not part of this model.
- Sbf.ShiftingBloomFilter.Insert: requires `m > 0` or an empty function list. With `m = 0` and at least one function, the source raises ZeroDivisionError at line 121, and the model does not reproduce that exception.
- Sbf.ShiftingBloomFilter.Check: requires `m > 0` or an empty function list, for the same ZeroDivisionError. The source would also answer without error when `m = 0`, `cut_off = 0` and `max_set < 0`; the model does not cover that case.
- Sbf.ShiftingBloomFilter.InsertAtOffset: requires `m > 0` or an empty function list. In the source, a ZeroDivisionError there comes after `max_set` was already raised; that partial update is not modelled.
- Sbf.ShiftingBloomFilter.constructor: `length` and `hash_count` are naturals. A negative `length` makes `bytearray` raise, and a negative `hash_count` would slice from the end; neither is modelled.
- The `hash_source is algorithms_guaranteed` identity test is modelled as the `Guaranteed` variant of `HashSource`. The default set's iteration order is the order of its entries, and `name.lower()` is ASCII lower-casing. `GuaranteedNames` lists the fourteen names alphabetically because the set has no fixed order; the counts that `GuaranteedGroups` proves do not depend on the order.
- `mode` is two-valued. The source accepts any truthy value as MULTIPLE.
- Sbf.ShiftingBloomFilter.Get: Python slice arguments to `__getitem__` are not modelled, only integer indices.
- Concurrency: the filter is single-threaded, and the model has no concurrent callers.
