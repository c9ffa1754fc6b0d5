/** The bounded, time-ordered list (src/duration2/datatype.py): a sorted set
    of members scored by their time stamps, trimmed by rank after every
    insertion of a new member. */
module DataType {
  import opened SortedSet

  /** What `shrink` leaves, as written: when the set holds more than
      maxCount members it removes the ranks from 0 to maxCount - count - 1,
      a negative stop that the store counts from the end. Only the lowest
      ranks ever go. */
  function Shrunk(z: seq<Entry>, maxCount: int): (r: seq<Entry>)
    ensures |r| <= |z| && r == z[|z| - |r|..]
    ensures WellFormed(z) ==> WellFormed(r)
  {
    if |z| > maxCount then ZRemRangeByRank(z, 0, maxCount - |z| - 1) else z
  }

  /** Within the bound, shrink does nothing. */
  lemma ShrinkWithinBound(z: seq<Entry>, maxCount: int)
    requires |z| <= maxCount
    ensures Shrunk(z, maxCount) == z
  {
  }

  /** Over the bound, the stop index resolves to rank maxCount - 1, so shrink
      removes the maxCount lowest-ranked members and keeps count - maxCount. */
  lemma ShrinkOverTrims(z: seq<Entry>, maxCount: int)
    requires 1 <= maxCount < |z|
    ensures Shrunk(z, maxCount) == z[maxCount..]
    ensures |Shrunk(z, maxCount)| == |z| - maxCount
  {
    assert RankRange(|z|, 0, maxCount - |z| - 1) == (0, maxCount);
  }

  /** With a bound of 0 or less the stop index resolves below rank 0 and
      shrink removes nothing. */
  lemma ShrinkNonPositiveBound(z: seq<Entry>, maxCount: int)
    requires maxCount <= 0
    ensures Shrunk(z, maxCount) == z
  {
    assert RankRange(|z|, 0, maxCount - |z| - 1) == (0, 0);
  }

  /** Shrink never removes the highest-ranked (latest) member. */
  lemma ShrinkKeepsLatest(z: seq<Entry>, maxCount: int)
    requires z != []
    ensures var r := Shrunk(z, maxCount);
            r != [] && r[|r| - 1] == z[|z| - 1]
  {
    if 1 <= maxCount < |z| {
      ShrinkOverTrims(z, maxCount);
      assert z[maxCount..][|z| - maxCount - 1] == z[|z| - 1];
    } else if maxCount <= 0 {
      ShrinkNonPositiveBound(z, maxCount);
    } else {
      ShrinkWithinBound(z, maxCount);
    }
  }

  /** What add_data leaves: ZADD the member with its time stamp, and shrink
      only when the member was new. */
  function AfterAddData(z: seq<Entry>, data: string, timestamp: int, maxCount: int): (r: seq<Entry>)
    requires WellFormed(z)
    ensures WellFormed(r)
  {
    var added := ZAdd(z, data, timestamp);
    if added.1 then Shrunk(added.0, maxCount) else added.0
  }

  /** Adding a member already present overwrites its score and trims nothing. */
  lemma AddDataPresent(z: seq<Entry>, data: string, timestamp: int, maxCount: int)
    requires WellFormed(z) && data in Members(z)
    ensures var r := AfterAddData(z, data, timestamp, maxCount);
            |r| == |z| && Entry(data, timestamp) in r &&
            forall x :: x in r && x.member == data ==> x.score == timestamp
  {
    var r := AfterAddData(z, data, timestamp, maxCount);
    assert Entry(data, timestamp) in Entries(r);
    forall x | x in r && x.member == data ensures x.score == timestamp {
      assert x in Entries(r);
    }
  }

  /** Starting within a bound of at least 1, the list stays within it after
      any add_data. */
  lemma AddDataWithinBound(z: seq<Entry>, data: string, timestamp: int, maxCount: int)
    requires WellFormed(z) && 1 <= maxCount && |z| <= maxCount
    ensures |AfterAddData(z, data, timestamp, maxCount)| <= maxCount
  {
    var added := ZAdd(z, data, timestamp);
    if added.1 && |added.0| > maxCount {
      ShrinkOverTrims(added.0, maxCount);
    }
  }

  /** The over-trim: a new member added to a full list leaves a single
      member, not maxCount of them. */
  lemma AddDataToFullLeavesOne(z: seq<Entry>, data: string, timestamp: int, maxCount: int)
    requires WellFormed(z) && 1 <= maxCount && |z| == maxCount && data !in Members(z)
    ensures |AfterAddData(z, data, timestamp, maxCount)| == 1
  {
    ShrinkOverTrims(ZAdd(z, data, timestamp).0, maxCount);
  }

  /** The example's full list, and the four-member set a ZADD of "d" makes. */
  lemma OverTrimExampleSets()
    ensures WellFormed([Entry("a", 1), Entry("b", 2), Entry("c", 3)])
    ensures WellFormed([Entry("a", 1), Entry("b", 2), Entry("c", 3), Entry("d", 4)])
    ensures "d" !in Members([Entry("a", 1), Entry("b", 2), Entry("c", 3)])
  {
    var z := [Entry("a", 1), Entry("b", 2), Entry("c", 3)];
    var full := z + [Entry("d", 4)];
    assert DistinctMembers(full) by {
      forall i, j | 0 <= i < j < |full| ensures full[i].member != full[j].member {
        assert full[i].member[0] < full[j].member[0];
      }
    }
    ScoresAscending(full);
    assert WellFormed(z) by {
      SliceWellFormed(full, 0, 3);
      assert full[..3] == z;
    }
    forall x | x in z ensures x.member != "d" {
    }
  }

  /** Entries with distinct members whose scores strictly ascend with their
      ranks are in the store's order. */
  lemma ScoresAscending(z: seq<Entry>)
    requires forall k :: 0 < k < |z| ==> z[k - 1].score < z[k].score
    requires DistinctMembers(z)
    ensures WellFormed(z)
  {
    forall i, j | 0 <= i < j < |z| ensures z[i].score < z[j].score {
      var k := i + 1;
      while k < j
        invariant i < k <= j && z[i].score < z[k].score
      {
        k := k + 1;
      }
    }
  }

  /** A list of three, full, given a fourth member: one member is left. */
  lemma OverTrimExample()
    ensures var z := [Entry("a", 1), Entry("b", 2), Entry("c", 3)];
            WellFormed(z) && AfterAddData(z, "d", 4, 3) == [Entry("d", 4)]
  {
    var z := [Entry("a", 1), Entry("b", 2), Entry("c", 3)];
    var full := [Entry("a", 1), Entry("b", 2), Entry("c", 3), Entry("d", 4)];
    OverTrimExampleSets();
    var added := ZAdd(z, "d", 4).0;
    assert added == full by {
      assert Entries(full) == Entries(z) + {Entry("d", 4)};
      SortedUnique(added, full);
    }
    ShrinkOverTrims(added, 3);
  }

  /** The trim evidently intended: remove the count - maxCount lowest ranks,
      so that exactly the maxCount highest-ranked members stay. */
  function ShrunkIntended(z: seq<Entry>, maxCount: int): (r: seq<Entry>)
    ensures |r| <= |z| && r == z[|z| - |r|..]
    ensures WellFormed(z) ==> WellFormed(r)
  {
    if |z| > maxCount then ZRemRangeByRank(z, 0, |z| - maxCount - 1) else z
  }

  lemma ShrunkIntendedKeepsLatest(z: seq<Entry>, maxCount: int)
    requires maxCount >= 0
    ensures ShrunkIntended(z, maxCount) == z[|z| - Min(|z|, maxCount)..]
    ensures |ShrunkIntended(z, maxCount)| == Min(|z|, maxCount)
  {
    if |z| > maxCount {
      assert RankRange(|z|, 0, |z| - maxCount - 1) == (0, |z| - maxCount);
    }
  }

  /** add_data with the corrected trim. */
  function AfterAddDataIntended(z: seq<Entry>, data: string, timestamp: int, maxCount: int): (r: seq<Entry>)
    requires WellFormed(z)
    ensures WellFormed(r)
    ensures Members(r) <= Members(z) + {data}
    ensures data in Members(z) ==> Entry(data, timestamp) in r && |r| == |z|
  {
    var added := ZAdd(z, data, timestamp);
    if added.1 then
      var r := ShrunkIntended(added.0, maxCount);
      assert forall x :: x in r ==> x in added.0;
      r
    else
      assert Entry(data, timestamp) in Entries(added.0);
      added.0
  }

  /** With the intended trim, a new member added to a full list evicts only
      the single lowest-ranked member, and the list stays full. */
  lemma AddDataIntendedKeepsFull(z: seq<Entry>, data: string, timestamp: int, maxCount: int)
    requires WellFormed(z) && 0 <= maxCount && |z| <= maxCount
    ensures var added := ZAdd(z, data, timestamp).0;
            var r := AfterAddDataIntended(z, data, timestamp, maxCount);
            |r| <= maxCount &&
            (data !in Members(z) && |z| == maxCount ==> r == added[1..] && |r| == maxCount)
  {
    var added := ZAdd(z, data, timestamp);
    if added.1 {
      ShrunkIntendedKeepsLatest(added.0, maxCount);
    }
  }

  class RedisLimitedTimeList {
    const key: string
    const maxCount: int
    /** The sorted set stored under `key`. */
    var zset: seq<Entry>

    ghost predicate Valid()
      reads this
    {
      WellFormed(zset)
    }

    /** A list over whatever the store already holds under key. */
    constructor (key: string, maxCount: int, stored: seq<Entry>)
      requires WellFormed(stored)
      ensures Valid()
      ensures this.key == key && this.maxCount == maxCount && zset == stored
    {
      this.key := key;
      this.maxCount := maxCount;
      zset := stored;
    }

    method AddData(data: string, timestamp: int)
      requires Valid()
      modifies this
      ensures Valid()
      ensures zset == AfterAddData(old(zset), data, timestamp, maxCount)
      ensures data in Members(old(zset)) ==> |zset| == old(|zset|) && Entry(data, timestamp) in zset
      ensures 1 <= maxCount && old(|zset|) <= maxCount ==> |zset| <= maxCount
    {
      var added := ZAdd(zset, data, timestamp);
      zset := added.0;
      if added.1 {
        Shrink();
      }
      if data in Members(old(zset)) {
        AddDataPresent(old(zset), data, timestamp, maxCount);
      }
      if 1 <= maxCount && old(|zset|) <= maxCount {
        AddDataWithinBound(old(zset), data, timestamp, maxCount);
      }
    }

    method Shrink()
      requires Valid()
      modifies this
      ensures Valid()
      ensures zset == Shrunk(old(zset), maxCount)
      ensures 1 <= maxCount < old(|zset|) ==> zset == old(zset)[maxCount..]
      ensures !(1 <= maxCount < old(|zset|)) ==> zset == old(zset)
    {
      // zcount is called with the key alone; it is taken here to give the
      // cardinality of the whole set, which is what the name current_count
      // and the class's description mean.
      var currentCount := |zset|;
      if currentCount > maxCount {
        zset := ZRemRangeByRank(zset, 0, maxCount - currentCount - 1);
      }
      if 1 <= maxCount < old(|zset|) {
        ShrinkOverTrims(old(zset), maxCount);
      } else if maxCount <= 0 {
        ShrinkNonPositiveBound(old(zset), maxCount);
      }
    }

    method Clear()
      requires Valid()
      modifies this
      ensures Valid() && zset == []
    {
      zset := [];
    }
  }
}
