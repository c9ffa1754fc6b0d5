/** The store's sorted set, as the core sees it: unique string members, each
    with an integer score, held in ascending (score, member) order. A value
    of this module is what one key of the store holds; the operations are
    the store commands the core issues (ZADD, ZPOPMIN, ZREMRANGEBYRANK). */
module SortedSet {

  datatype Entry = Entry(member: string, score: int)

  /** Lexicographic order by character code, a proper prefix first. On the
      UTF-8 encoding of the members this is the byte order the store uses to
      break ties between equal scores. */
  predicate StrLess(a: string, b: string)
    decreases |a|
  {
    if |a| == 0 then |b| > 0
    else if |b| == 0 then false
    else a[0] < b[0] || (a[0] == b[0] && StrLess(a[1..], b[1..]))
  }

  lemma {:induction false} StrLessIrreflexive(a: string)
    ensures !StrLess(a, a)
    decreases |a|
  {
    if |a| > 0 {
      StrLessIrreflexive(a[1..]);
    }
  }

  lemma {:induction false} StrLessAsymmetric(a: string, b: string)
    requires StrLess(a, b)
    ensures !StrLess(b, a)
    decreases |a|
  {
    if |a| > 0 && a[0] == b[0] {
      StrLessAsymmetric(a[1..], b[1..]);
    }
  }

  lemma {:induction false} StrLessTransitive(a: string, b: string, c: string)
    requires StrLess(a, b) && StrLess(b, c)
    ensures StrLess(a, c)
    decreases |a|
  {
    if |a| > 0 && a[0] == b[0] && b[0] == c[0] {
      StrLessTransitive(a[1..], b[1..], c[1..]);
    }
  }

  lemma {:induction false} StrLessTotal(a: string, b: string)
    requires a != b
    ensures StrLess(a, b) || StrLess(b, a)
    decreases |a|
  {
    if |a| > 0 && |b| > 0 && a[0] == b[0] {
      assert a == [a[0]] + a[1..] && b == [b[0]] + b[1..];
      StrLessTotal(a[1..], b[1..]);
    }
  }

  /** Two strings compare at their first difference. */
  lemma {:induction false} StrLessAtDifference(a: string, b: string, k: nat)
    requires k < |a| && k < |b| && a[k] < b[k]
    requires forall i :: 0 <= i < k ==> a[i] == b[i]
    ensures StrLess(a, b)
    decreases k
  {
    if k > 0 {
      StrLessAtDifference(a[1..], b[1..], k - 1);
    }
  }

  /** The store's order on entries: by score, then by member. */
  predicate Before(x: Entry, y: Entry)
  {
    x.score < y.score || (x.score == y.score && StrLess(x.member, y.member))
  }

  lemma BeforeTransitive(x: Entry, y: Entry, z: Entry)
    requires Before(x, y) && Before(y, z)
    ensures Before(x, z)
  {
    if x.score == y.score == z.score {
      StrLessTransitive(x.member, y.member, z.member);
    }
  }

  lemma BeforeAsymmetric(x: Entry, y: Entry)
    requires Before(x, y)
    ensures !Before(y, x)
  {
    if x.score == y.score {
      StrLessAsymmetric(x.member, y.member);
    }
  }

  lemma BeforeTotal(x: Entry, y: Entry)
    requires x.member != y.member
    ensures Before(x, y) || Before(y, x)
  {
    StrLessTotal(x.member, y.member);
  }

  predicate Sorted(z: seq<Entry>)
  {
    forall i, j :: 0 <= i < j < |z| ==> Before(z[i], z[j])
  }

  predicate DistinctMembers(z: seq<Entry>)
  {
    forall i, j :: 0 <= i < j < |z| ==> z[i].member != z[j].member
  }

  /** What one key of the store can hold. */
  predicate WellFormed(z: seq<Entry>)
  {
    Sorted(z) && DistinctMembers(z)
  }

  function Entries(z: seq<Entry>): set<Entry>
  {
    set e | e in z
  }

  function Members(z: seq<Entry>): set<string>
  {
    set e | e in z :: e.member
  }

  /** The members of a run of entries, in order (what redis-py hands back
      when only the member strings are kept). */
  function MemberList(z: seq<Entry>): (r: seq<string>)
    ensures |r| == |z|
    ensures forall k :: 0 <= k < |z| ==> r[k] == z[k].member
  {
    seq(|z|, k requires 0 <= k < |z| => z[k].member)
  }

  /** e may go in front of z when it is Before every entry of z and shares
      a member with none. */
  lemma ConsWellFormed(e: Entry, z: seq<Entry>)
    requires WellFormed(z)
    requires forall x :: x in z ==> Before(e, x) && e.member != x.member
    ensures WellFormed([e] + z)
    ensures Entries([e] + z) == {e} + Entries(z)
    ensures Members([e] + z) == {e.member} + Members(z)
  {
    var r := [e] + z;
    forall i, j | 0 <= i < j < |r|
      ensures Before(r[i], r[j]) && r[i].member != r[j].member
    {
      if i == 0 {
        assert r[j] == z[j - 1];
      } else {
        assert r[i] == z[i - 1] && r[j] == z[j - 1];
      }
    }
  }

  lemma TailWellFormed(z: seq<Entry>)
    requires WellFormed(z) && z != []
    ensures WellFormed(z[1..])
    ensures forall x :: x in z[1..] ==> Before(z[0], x) && z[0].member != x.member
    ensures Entries(z) == {z[0]} + Entries(z[1..])
    ensures z[0] !in Entries(z[1..])
    ensures Members(z) == {z[0].member} + Members(z[1..])
  {
    assert z == [z[0]] + z[1..];
    forall x | x in z[1..]
      ensures Before(z[0], x) && z[0].member != x.member
    {
      var k :| 0 <= k < |z[1..]| && z[1..][k] == x;
      assert z[k + 1] == x;
    }
  }

  /** Every contiguous slice of what the store holds is ordered the same way. */
  lemma SliceWellFormed(z: seq<Entry>, lo: int, hi: int)
    requires WellFormed(z) && 0 <= lo <= hi <= |z|
    ensures WellFormed(z[lo..hi])
  {
    var s := z[lo..hi];
    forall i, j | 0 <= i < j < |s|
      ensures Before(s[i], s[j]) && s[i].member != s[j].member
    {
      assert s[i] == z[lo + i] && s[j] == z[lo + j];
    }
  }

  /** z with the rank range [lo, hi) cut out stays ordered. */
  lemma CutWellFormed(z: seq<Entry>, lo: int, hi: int)
    requires 0 <= lo <= hi <= |z|
    ensures WellFormed(z) ==> WellFormed(z[..lo] + z[hi..])
  {
    var s := z[..lo] + z[hi..];
    if WellFormed(z) {
    forall i, j | 0 <= i < j < |s|
      ensures Before(s[i], s[j]) && s[i].member != s[j].member
    {
      var i' := if i < lo then i else i - lo + hi;
      var j' := if j < lo then j else j - lo + hi;
      assert s[i] == z[i'] && s[j] == z[j'] && i' < j';
    }
    }
  }

  lemma EntriesEmpty(z: seq<Entry>)
    ensures Entries(z) == {} <==> z == []
  {
    if z != [] {
      assert z[0] in Entries(z);
    }
  }

  /** Two ordered runs holding the same entries are the same run: what the
      store holds under a key is determined by its set of entries. */
  lemma {:induction false} SortedUnique(a: seq<Entry>, b: seq<Entry>)
    requires WellFormed(a) && WellFormed(b) && Entries(a) == Entries(b)
    ensures a == b
    decreases |a|
  {
    if a == [] || b == [] {
      EntriesEmpty(a);
      EntriesEmpty(b);
    } else {
      assert a[0] in Entries(a);
      assert b[0] in Entries(b);
      var i :| 0 <= i < |a| && a[i] == b[0];
      var j :| 0 <= j < |b| && b[j] == a[0];
      if i != 0 {
        assert Before(a[0], b[0]);
        BeforeAsymmetric(a[0], b[0]);
        assert false;
      }
      TailWellFormed(a);
      TailWellFormed(b);
      assert Entries(a[1..]) == Entries(a) - {a[0]};
      assert Entries(b[1..]) == Entries(b) - {b[0]};
      SortedUnique(a[1..], b[1..]);
      assert a == [a[0]] + a[1..] && b == [b[0]] + b[1..];
    }
  }

  /** Place a new entry at its rank. */
  function Insert(z: seq<Entry>, e: Entry): (r: seq<Entry>)
    requires WellFormed(z) && e.member !in Members(z)
    ensures WellFormed(r)
    ensures Entries(r) == Entries(z) + {e}
    ensures Members(r) == Members(z) + {e.member}
    ensures |r| == |z| + 1
    decreases |z|
  {
    if z == [] then
      [e]
    else if Before(e, z[0]) then
      TailWellFormed(z);
      forall x | x in z ensures Before(e, x) && e.member != x.member {
        if x != z[0] {
          BeforeTransitive(e, z[0], x);
        }
      }
      ConsWellFormed(e, z);
      [e] + z
    else
      TailWellFormed(z);
      BeforeTotal(e, z[0]);
      var rest := Insert(z[1..], e);
      assert forall x :: x in rest ==> x in Entries(z[1..]) || x == e;
      ConsWellFormed(z[0], rest);
      [z[0]] + rest
  }

  /** Take out the entry of member m, if there is one. */
  function Remove(z: seq<Entry>, m: string): (r: seq<Entry>)
    requires WellFormed(z)
    ensures WellFormed(r)
    ensures Entries(r) == set x | x in Entries(z) && x.member != m
    ensures Members(r) == Members(z) - {m}
    ensures |r| == if m in Members(z) then |z| - 1 else |z|
    decreases |z|
  {
    if z == [] then
      []
    else
      TailWellFormed(z);
      var rest := Remove(z[1..], m);
      if z[0].member == m then
        assert m !in Members(z[1..]);
        rest
      else
        assert forall x :: x in rest ==> x in Entries(rest);
        assert forall x :: x in rest ==> x in Entries(z[1..]);
        ConsWellFormed(z[0], rest);
        [z[0]] + rest
  }

  /** ZADD of one member: insert it, or overwrite the score of the member
      already there. The flag is the store's "newly added" count (0 or 1). */
  function ZAdd(z: seq<Entry>, member: string, score: int): (r: (seq<Entry>, bool))
    requires WellFormed(z)
    ensures WellFormed(r.0)
    ensures r.1 <==> member !in Members(z)
    ensures Entries(r.0) == (set x | x in Entries(z) && x.member != member) + {Entry(member, score)}
    ensures Members(r.0) == Members(z) + {member}
    ensures |r.0| == if r.1 then |z| + 1 else |z|
  {
    var e := Entry(member, score);
    if member in Members(z) then
      (Insert(Remove(z, member), e), false)
    else
      assert (set x | x in Entries(z) && x.member != member) == Entries(z);
      (Insert(z, e), true)
  }

  /** Adding a member with the score it already has changes nothing. */
  lemma ZAddPresent(z: seq<Entry>, member: string, score: int)
    requires WellFormed(z) && Entry(member, score) in z
    ensures ZAdd(z, member, score) == (z, false)
  {
    var r := ZAdd(z, member, score).0;
    forall x | x in Entries(z) && x.member == member
      ensures x == Entry(member, score)
    {
      var i :| 0 <= i < |z| && z[i] == x;
      var j :| 0 <= j < |z| && z[j] == Entry(member, score);
      assert i == j;
    }
    assert Entries(r) == Entries(z);
    SortedUnique(r, z);
  }

  /** The first item of a non-empty run and the rest of it. */
  lemma HeadSplit(items: seq<Entry>)
    requires items != []
    ensures Members(items) == {items[0].member} + Members(items[1..])
    ensures Entries(items) == {items[0]} + Entries(items[1..])
    ensures DistinctMembers(items) ==>
              DistinctMembers(items[1..]) && items[0].member !in Members(items[1..])
  {
    assert items == [items[0]] + items[1..];
    if DistinctMembers(items) {
      forall x | x in items[1..] ensures x.member != items[0].member {
        var k :| 0 <= k < |items[1..]| && items[1..][k] == x;
        assert x == items[k + 1];
      }
    }
  }

  /** ZADD of several members, in the order the mapping lists them. */
  function ZAddAll(z: seq<Entry>, items: seq<Entry>): (r: seq<Entry>)
    requires WellFormed(z)
    ensures WellFormed(r)
    ensures Members(r) == Members(z) + Members(items)
    ensures DistinctMembers(items) && Members(z) !! Members(items) ==>
              Entries(r) == Entries(z) + Entries(items)
    decreases |items|
  {
    if items == [] then
      z
    else
      HeadSplit(items);
      var z' := ZAdd(z, items[0].member, items[0].score).0;
      assert Members(z) !! Members(items) ==> Entries(z') == Entries(z) + {items[0]} by {
        if Members(z) !! Members(items) {
          assert (set x | x in Entries(z) && x.member != items[0].member) == Entries(z);
        }
      }
      ZAddAll(z', items[1..])
  }

  /** Re-adding, in order, an ordered run that sits wholly in front of z
      restores the run followed by z. */
  lemma ZAddAllFront(a: seq<Entry>, b: seq<Entry>)
    requires WellFormed(a + b)
    ensures WellFormed(b) && ZAddAll(b, a) == a + b
  {
    SliceWellFormed(a + b, 0, |a|);
    SliceWellFormed(a + b, |a|, |a + b|);
    assert (a + b)[..|a|] == a && (a + b)[|a|..] == b;
    assert Members(b) !! Members(a) by {
      forall x, y | x in a && y in b ensures x.member != y.member {
        var i :| 0 <= i < |a| && a[i] == x;
        var j :| 0 <= j < |b| && b[j] == y;
        assert (a + b)[i] == x && (a + b)[|a| + j] == y;
      }
    }
    var r := ZAddAll(b, a);
    assert Entries(a + b) == Entries(a) + Entries(b);
    SortedUnique(r, a + b);
  }

  function Min(a: nat, b: nat): nat
  {
    if a < b then a else b
  }

  /** Splitting an ordered run at a rank gives two ordered runs, every entry
      of the first Before every entry of the second. */
  lemma SplitOrdered(z: seq<Entry>, n: nat)
    requires n <= |z|
    ensures WellFormed(z) ==> WellFormed(z[..n]) && WellFormed(z[n..])
    ensures WellFormed(z) ==> forall x, y :: x in z[..n] && y in z[n..] ==> Before(x, y)
  {
    if WellFormed(z) {
      SliceWellFormed(z, 0, n);
      SliceWellFormed(z, n, |z|);
      forall x, y | x in z[..n] && y in z[n..] ensures Before(x, y) {
        var i :| 0 <= i < n && z[..n][i] == x;
        var j :| 0 <= j < |z| - n && z[n..][j] == y;
        assert z[i] == x && z[n + j] == y;
      }
    }
  }

  /** ZPOPMIN with a count: the popped run and what stays. */
  function ZPopMin(z: seq<Entry>, count: nat): (r: (seq<Entry>, seq<Entry>))
    ensures |r.0| == Min(count, |z|)
    ensures r.0 + r.1 == z
    ensures WellFormed(z) ==> WellFormed(r.0) && WellFormed(r.1)
    ensures WellFormed(z) ==> forall x, y :: x in r.0 && y in r.1 ==> Before(x, y)
  {
    var n := Min(count, |z|);
    SplitOrdered(z, n);
    assert z[..n] + z[n..] == z;
    (z[..n], z[n..])
  }

  /** The rank range [lo, hi) that ZREMRANGEBYRANK start stop removes from a
      set of the given size: a negative index counts from the end, start is
      clamped at 0 and stop at the last rank, and a range that starts past
      its stop or past the end is empty. */
  function RankRange(size: nat, start: int, stop: int): (b: (nat, nat))
    ensures b.0 <= b.1 <= size
  {
    var s := if start < 0 then size + start else start;
    var e := if stop < 0 then size + stop else stop;
    var s' := if s < 0 then 0 else s;
    if s' > e || s' >= size then (0, 0)
    else (s', if e >= size then size else e + 1)
  }

  /** A rank of the set lies in the removed range exactly when it lies
      between start and stop inclusive, once each negative index is counted
      from the end. */
  lemma RankRangeSpec(size: nat, start: int, stop: int, k: int)
    requires 0 <= k < size
    ensures var b := RankRange(size, start, stop);
            var s := if start < 0 then size + start else start;
            var e := if stop < 0 then size + stop else stop;
            b.0 <= k < b.1 <==> s <= k <= e
  {
  }

  /** ZREMRANGEBYRANK: remove the entries whose 0-based rank lies between
      start and stop inclusive. */
  function ZRemRangeByRank(z: seq<Entry>, start: int, stop: int): (r: seq<Entry>)
    ensures var b := RankRange(|z|, start, stop);
            r == z[..b.0] + z[b.1..]
    ensures WellFormed(z) ==> WellFormed(r)
  {
    var b := RankRange(|z|, start, stop);
    CutWellFormed(z, b.0, b.1);
    z[..b.0] + z[b.1..]
  }
}
