/** The shifting Bloom filter object: a bytearray of 0/1 cells updated in
    place, the scan bound `maxSet` and the insert counter, with the insert
    and check algorithms proved against module SbfSpec. */
module Sbf {
  import opened Wrappers
  import opened SbfSpec

  class ShiftingBloomFilter {
    /** Number of cells. */
    const m: nat
    /** Requested number of hash functions. */
    const k: nat
    /** Split point between the presence and the discriminator group. */
    const cutOff: nat
    /** The hash functions in use, in order. */
    const hashFuncs: seq<HashFn>
    const lengthAsPower: bool
    const hashSource: HashSource
    const mode: Mode
    /** The cells, one byte per slot. */
    const filter: array<byte>
    /** The highest offset inserted so far (or the initial set count). */
    var maxSet: int
    /** The number of inserts performed. */
    var count: nat
    /** Every (item, offset) inserted so far. */
    ghost var Inserted: set<(Item, int)>

    /** The presence group, addressed at offset 0. */
    function Presence(): seq<HashFn>
    {
      PresenceGroup(hashFuncs, cutOff)
    }

    /** The discriminator group, addressed at the set number or count. */
    function Discriminators(): seq<HashFn>
    {
      DiscriminatorGroup(hashFuncs, cutOff)
    }

    /** Hashing cannot divide by zero: the filter has cells, or no function
        ever computes a position. */
    predicate Addressable()
    {
      m > 0 || hashFuncs == []
    }

    ghost function Cells(): seq<byte>
      reads filter
    {
      filter[..]
    }

    /** The object invariant: the cells are 0/1, the groups come from a
        split at k / 2, and every inserted item is still recorded under its
        offset, which the scan bound covers. */
    ghost predicate Valid()
      reads this, filter
    {
      && filter.Length == m
      && cutOff == k / 2
      && |hashFuncs| <= k
      && Binary(Cells())
      && (Inserted != {} ==> Addressable())
      && (forall p :: p in Inserted ==>
            Recorded(Cells(), Presence(), Discriminators(), p.0, p.1) && p.1 <= maxSet)
    }

    /** The state right after construction from the given arguments. */
    ghost predicate Initial(length: nat, source: HashSource, hashCount: Option<nat>,
                            lengthAsPower: bool, mode: Mode, setCount: int)
      reads this, filter
    {
      && m == FilterSize(length, lengthAsPower)
      && k == ResolvedCount(source, hashCount)
      && cutOff == k / 2
      && hashFuncs == Selected(source, k)
      && (forall i :: 0 <= i < filter.Length ==> filter[i] == 0)
      && maxSet == setCount
      && count == 0
      && Inserted == {}
      && this.lengthAsPower == lengthAsPower
      && hashSource == source
      && this.mode == mode
    }

    /** Construction when the requested hash count is available. */
    constructor (length: nat, source: HashSource, hashCount: Option<nat>,
                 lengthAsPower: bool, mode: Mode, setCount: int)
      requires Validate(source, hashCount).Success?
      ensures Valid() && fresh(filter)
      ensures Initial(length, source, hashCount, lengthAsPower, mode, setCount)
      ensures source.Custom? ==> |hashFuncs| == k
    {
      var size := FilterSize(length, lengthAsPower);
      var kk := ResolvedCount(source, hashCount);
      m := size;
      k := kk;
      cutOff := kk / 2;
      hashFuncs := Selected(source, kk);
      filter := new byte[size](_ => 0);
      maxSet := setCount;
      this.lengthAsPower := lengthAsPower;
      hashSource := source;
      this.mode := mode;
      count := 0;
      Inserted := {};
    }

    /** Construction, failing with HashesUnavailable iff the requested hash
        count exceeds the length of the source. */
    static method New(length: nat, source: HashSource, hashCount: Option<nat>,
                      lengthAsPower: bool, mode: Mode, setCount: int)
      returns (r: Result<ShiftingBloomFilter, FilterError>)
      ensures r.Failure? <==> ResolvedCount(source, hashCount) > SourceLen(source)
      ensures r.Failure? ==> r.error == HashesUnavailable
      ensures r.Success? ==> fresh(r.value) && fresh(r.value.filter) && r.value.Valid()
      ensures r.Success? ==> r.value.Initial(length, source, hashCount, lengthAsPower, mode, setCount)
    {
      var checked := Validate(source, hashCount);
      if checked.Failure? {
        return Failure(checked.error);
      }
      var f := new ShiftingBloomFilter(length, source, hashCount, lengthAsPower, mode, setCount);
      return Success(f);
    }

    /** The length of the underlying bytearray. */
    function Len(): (n: nat)
      reads this, filter
      requires Valid()
      ensures n == filter.Length
    {
      m
    }

    /** Python truthiness: some cell is non-zero. */
    method NonEmpty() returns (b: bool)
      requires Valid()
      ensures b <==> exists i :: 0 <= i < m && filter[i] != 0
    {
      for i := 0 to filter.Length
        invariant forall j :: 0 <= j < i ==> filter[j] == 0
      {
        if filter[i] != 0 {
          return true;
        }
      }
      return false;
    }

    /** Indexing with Python's rules: negative indices count from the end;
        anything outside [-m, m) is an IndexError, here None. */
    function Get(index: int): (r: Option<byte>)
      reads this, filter
      requires Valid()
      ensures r.Some? <==> 0 <= index + m && index < m
      ensures r.Some? ==> r.value == filter[index % m]
      ensures r.Some? ==> r.value == 0 || r.value == 1
    {
      if 0 <= index < m then
        ModUnique(index, 0, index, m);
        Some(filter[index])
      else if index < 0 && 0 <= index + m then
        ModUnique(index, -1, index + m, m);
        Some(filter[index + m])
      else None
    }

    /** Sets the cell `h` addresses for `item` under `setNo`. */
    method SetPosition(h: HashFn, item: Item, setNo: int)
      requires filter.Length == m && m > 0
      modifies filter
      ensures Cells() == old(Cells())[Position(h, item, setNo, m) := 1]
    {
      filter[Position(h, item, setNo, m)] := 1;
    }

    /** Is the cell `h` addresses for `item` under `setNo` set? */
    method CheckPosition(h: HashFn, item: Item, setNo: int) returns (b: bool)
      requires filter.Length == m && m > 0
      ensures b <==> filter[Position(h, item, setNo, m)] == 1
    {
      b := filter[Position(h, item, setNo, m)] == 1;
    }

    /** Stamps `hs` for `item` under `offset` into the cells, in list order. */
    method StampAll(hs: seq<HashFn>, item: Item, offset: int)
      requires filter.Length == m && (m > 0 || hs == [])
      modifies filter
      ensures Cells() == Stamp(old(Cells()), hs, item, offset)
    {
      ghost var start := Cells();
      for j := 0 to |hs|
        invariant Cells() == Stamp(start, hs[..j], item, offset)
      {
        SetPosition(hs[j], item, offset);
        assert hs[..j + 1][..j] == hs[..j];
      }
      assert hs[..|hs|] == hs;
    }

    /** Records `item` under `offset`: raises the scan bound to cover it,
        sets its presence cells at offset 0 and its discriminator cells at
        `offset`. */
    method InsertAtOffset(item: Item, offset: int)
      requires Valid() && Addressable()
      modifies this, filter
      ensures Valid()
      ensures Cells() == InsertCells(old(Cells()), Presence(), Discriminators(), item, offset)
      ensures maxSet == if offset > old(maxSet) then offset else old(maxSet)
      ensures count == old(count)
      ensures Inserted == old(Inserted) + {(item, offset)}
    {
      if offset > maxSet {
        maxSet := offset;
      }
      ghost var before := Cells();
      StampAll(Presence(), item, 0);
      StampAll(Discriminators(), item, offset);
      Inserted := Inserted + {(item, offset)};
      InsertCellsSpec(before, Presence(), Discriminators(), item, offset);
      forall p | p in old(Inserted)
        ensures Recorded(Cells(), Presence(), Discriminators(), p.0, p.1)
      {
        RecordedGrows(before, Cells(), Presence(), Discriminators(), p.0, p.1);
      }
    }

    /** Inserts `item`. MULTIPLE: under set `setNo`. MULTISET: under offset 0
        if the item is reported absent, else one past the reported count.
        Counts the insert in both modes. */
    method Insert(item: Item, setNo: int)
      requires Valid() && Addressable()
      modifies this, filter
      ensures Valid()
      ensures var o := if mode == Multiple then setNo
                       else MultisetOffset(old(Cells()), Presence(), Discriminators(), item, old(maxSet));
        && Cells() == InsertCells(old(Cells()), Presence(), Discriminators(), item, o)
        && maxSet == (if o > old(maxSet) then o else old(maxSet))
        && Inserted == old(Inserted) + {(item, o)}
      ensures count == old(count) + 1
      ensures Grows(old(Cells()), Cells()) && old(maxSet) <= maxSet
      ensures hashFuncs != [] ==> exists i :: 0 <= i < m && filter[i] == 1
    {
      ghost var before := Cells();
      if mode == Multiple {
        InsertAtOffset(item, setNo);
      } else {
        var r := Check(item);
        if r.found {
          InsertAtOffset(item, r.count + 1);
        } else {
          InsertAtOffset(item, 0);
        }
      }
      count := count + 1;
      InsertCellsSpec(before, Presence(), Discriminators(), item,
                      if mode == Multiple then setNo else MultisetOffset(before, Presence(), Discriminators(), item, old(maxSet)));
      if hashFuncs != [] {
        assert Presence() != [] || Discriminators() != [];
      }
    }

    /** Is `item` possibly in the filter, and under which offsets? Answers
        absent as soon as a presence cell is 0, otherwise scans. */
    method Check(item: Item) returns (r: CheckResult)
      requires Valid() && Addressable()
      ensures r == CheckOutcome(Cells(), Presence(), Discriminators(), item, maxSet, mode)
      ensures forall s :: (item, s) in Inserted && 0 <= s ==>
        r.found && (r.Sets? ==> s in r.sets) && (r.Count? ==> r.count >= 1)
      ensures forall s :: (item, s) in Inserted && 0 <= s ==>
        s in CheckOutcome(Cells(), Presence(), Discriminators(), item, maxSet, Multiple).sets
      ensures r.Count? ==> r.count == |CheckOutcome(Cells(), Presence(), Discriminators(), item, maxSet, Multiple).sets|
    {
      var presence := Presence();
      ghost var cells := Cells();
      for j := 0 to |presence|
        invariant AllSet(cells, presence[..j], item, 0)
      {
        var ok := CheckPosition(presence[j], item, 0);
        if !ok {
          assert !AllSet(cells, presence, item, 0);
          if mode == Multiple {
            r := Sets(false, []);
          } else {
            r := Count(false, 0);
          }
          InsertedAreFound(item, r);
          return;
        }
      }
      assert presence[..|presence|] == presence;
      r := CheckOffsets(item);
      InsertedAreFound(item, r);
    }

    /** An answer equal to CheckOutcome finds every item inserted under a
        non-negative offset. */
    lemma InsertedAreFound(item: Item, r: CheckResult)
      requires Valid() && Addressable()
      requires r == CheckOutcome(Cells(), Presence(), Discriminators(), item, maxSet, mode)
      ensures forall s :: (item, s) in Inserted && 0 <= s ==>
        r.found && (r.Sets? ==> s in r.sets) && (r.Count? ==> r.count >= 1)
      ensures forall s :: (item, s) in Inserted && 0 <= s ==>
        s in CheckOutcome(Cells(), Presence(), Discriminators(), item, maxSet, Multiple).sets
      ensures r.Count? ==> r.count == |CheckOutcome(Cells(), Presence(), Discriminators(), item, maxSet, Multiple).sets|
    {
      CheckOutcomeSpec(Cells(), Presence(), Discriminators(), item, maxSet, mode);
      forall s | (item, s) in Inserted && 0 <= s
        ensures r.found && (r.Sets? ==> s in r.sets) && (r.Count? ==> r.count >= 1)
        ensures s in CheckOutcome(Cells(), Presence(), Discriminators(), item, maxSet, Multiple).sets
      {
        RecordedIsFound(Cells(), Presence(), Discriminators(), item, s, maxSet, mode);
        RecordedIsFound(Cells(), Presence(), Discriminators(), item, s, maxSet, Multiple);
      }
    }

    /** Do all functions of `disc` address set cells for `item` under
        `setNo`? Stops at the first cell that is not set. */
    method OffsetMatches(disc: seq<HashFn>, item: Item, setNo: int) returns (matched: bool)
      requires filter.Length == m && (m > 0 || disc == [])
      ensures matched <==> AllSet(Cells(), disc, item, setNo)
    {
      for j := 0 to |disc|
        invariant AllSet(Cells(), disc[..j], item, setNo)
      {
        var ok := CheckPosition(disc[j], item, setNo);
        if !ok {
          return false;
        }
        assert disc[..j + 1][..j] == disc[..j];
      }
      assert disc[..|disc|] == disc;
      return true;
    }

    /** Scans offsets 0..maxSet and keeps those where every discriminator
        cell is set; MULTISET answers their number. */
    method CheckOffsets(item: Item) returns (r: CheckResult)
      requires Valid() && Addressable()
      ensures r == ScanOutcome(Cells(), Discriminators(), item, maxSet, mode)
    {
      var disc := Discriminators();
      var setNo := 0;
      var possibleSets: seq<int> := [];
      while maxSet >= setNo
        invariant setNo == 0 || setNo <= maxSet + 1
        invariant possibleSets == Candidates(Cells(), disc, item, setNo - 1)
        decreases maxSet + 1 - setNo
      {
        var matched := OffsetMatches(disc, item, setNo);
        if matched {
          possibleSets := possibleSets + [setNo];
        }
        setNo := setNo + 1;
      }
      if mode == Multiple {
        r := Sets(|possibleSets| > 0, possibleSets);
      } else {
        r := Count(|possibleSets| > 0, |possibleSets|);
      }
    }
  }

  /** A fresh 2^8-cell filter with four functions (two presence, two
      discriminator) in MULTIPLE mode: after inserting "alice" into set 3,
      checking "alice" reports it, with set 3 among the candidates. */
  method SetIdScenario(h1: HashFn, h2: HashFn, h3: HashFn, h4: HashFn) returns (r: CheckResult)
    ensures r.Sets? && r.found && 3 in r.sets
  {
    var f := new ShiftingBloomFilter(8, Custom([h1, h2, h3, h4]), Some(4), true, Multiple, 0);
    f.Insert("alice", 3);
    r := f.Check("alice");
  }

  /** In MULTISET mode the first insert of an item into a fresh filter uses
      offset 0 and the second one an offset of at least 2, so checking after
      two inserts counts at least two occurrences. */
  method MultisetScenario(h1: HashFn, h2: HashFn, h3: HashFn, h4: HashFn, x: Item) returns (r: CheckResult)
    ensures r.Count? && r.found && r.count >= 2
  {
    var f := new ShiftingBloomFilter(8, Custom([h1, h2, h3, h4]), Some(4), true, Multiset, 0);
    assert !AllSet(f.Cells(), f.Presence(), x, 0) by {
      assert f.Presence()[0] == h1;
    }
    f.Insert(x, 0);
    assert (x, 0) in f.Inserted;
    var first := f.Check(x);
    f.Insert(x, 0);
    ghost var o :| (x, o) in f.Inserted && o >= 2;
    r := f.Check(x);
    var list := CheckOutcome(f.Cells(), f.Presence(), f.Discriminators(), x, f.maxSet, Multiple).sets;
    assert 0 in list && o in list;
  }
}
