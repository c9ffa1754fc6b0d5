/** The de-duplicating, time-ordered task queue (src/duration2/tasks.py):
    one sorted set whose members are "{task_id}_{index}" scored by the
    index of the hour the task was created for. */
module Tasks {
  import opened Wrappers
  import opened SortedSet
  import Decimal
  import Base

  /** RedisDurationTask.INTERVAL: one hour. */
  const INTERVAL := Base.OneHour
  const KEY_PREFIX := "DURATION_TASK_"

  /** The store key of a queue: the prefix, then the width in whole seconds
      printed in decimal. The width can be read back from the key. */
  function QueueKey(prefix: string, interval: Base.TimeDelta): (key: string)
    ensures |key| > |prefix| && key[..|prefix|] == prefix
    ensures Decimal.ParseInt(key[|prefix|..]) == interval.seconds
  {
    Decimal.ParseIntInverse(interval.seconds);
    var key := prefix + Decimal.IntToDecimal(interval.seconds);
    assert key[|prefix|..] == Decimal.IntToDecimal(interval.seconds);
    key
  }

  lemma DefaultQueueKey()
    ensures QueueKey(KEY_PREFIX, INTERVAL) == "DURATION_TASK_3600"
  {
    assert Decimal.NatToDecimal(3) == "3";
    assert Decimal.NatToDecimal(36) == "36";
    assert Decimal.NatToDecimal(360) == "360";
    assert Decimal.NatToDecimal(3600) == "3600";
  }

  /** The member that stands for task taskId in bucket index. */
  function TaskMember(taskId: string, index: int): (m: string)
    ensures |m| > |taskId| + 1 && m[..|taskId|] == taskId && m[|taskId|] == '_'
    ensures m[|taskId| + 1..] == Decimal.IntToDecimal(index)
  {
    taskId + "_" + Decimal.IntToDecimal(index)
  }

  /** The position of the last c in s. */
  function LastIndexOf(s: string, c: char): (r: Option<nat>)
    ensures r.None? ==> c !in s
    ensures r.Some? ==> r.value < |s| && s[r.value] == c && c !in s[r.value + 1..]
    decreases |s|
  {
    if s == [] then None
    else if s[|s| - 1] == c then Some(|s| - 1)
    else
      var r := LastIndexOf(s[..|s| - 1], c);
      assert s == s[..|s| - 1] + [s[|s| - 1]];
      r
  }

  /** Split a member at its last '_' into task id and index. */
  function DecodeMember(member: string): (r: Option<(string, int)>)
    ensures r.None? <==> '_' !in member
  {
    match LastIndexOf(member, '_')
    case None => None
    case Some(k) => Some((member[..k], Decimal.ParseInt(member[k + 1..])))
  }

  /** The index suffix holds no '_', so the last '_' of a member is the one
      that separates it from the task id, whatever the task id holds. */
  lemma DecodeTaskMember(taskId: string, index: int)
    ensures DecodeMember(TaskMember(taskId, index)) == Some((taskId, index))
  {
    var digits := Decimal.IntToDecimal(index);
    var m := TaskMember(taskId, index);
    assert m[|taskId|] == '_';
    var r := LastIndexOf(m, '_');
    assert r.Some?;
    var k := r.value;
    assert forall j :: k < j < |m| ==> m[j] != '_' by {
      forall j | k < j < |m| ensures m[j] != '_' {
        assert m[j] == m[k + 1..][j - k - 1];
      }
    }
    assert forall j :: |taskId| < j < |m| ==> m[j] != '_' by {
      forall j | |taskId| < j < |m| ensures m[j] != '_' {
        assert m[j] == digits[j - |taskId| - 1];
      }
    }
    assert k == |taskId|;
    assert m[..|taskId|] == taskId && m[|taskId| + 1..] == digits;
    Decimal.ParseIntInverse(index);
  }

  /** The member encoding is injective: distinct (task id, index) pairs
      never share a member. */
  lemma TaskMemberInjective(id1: string, i1: int, id2: string, i2: int)
    ensures TaskMember(id1, i1) == TaskMember(id2, i2) <==> id1 == id2 && i1 == i2
  {
    DecodeTaskMember(id1, i1);
    DecodeTaskMember(id2, i2);
  }

  /** What create_task leaves in the sorted set z. */
  function Created(z: seq<Entry>, taskId: string, dateTime: int): (r: seq<Entry>)
    requires WellFormed(z)
    ensures WellFormed(r)
  {
    var index := INTERVAL.GetIndex(dateTime);
    ZAdd(z, TaskMember(taskId, index), index).0
  }

  /** De-duplication: creating the same task again for any time stamp in
      the same hour leaves the set as the first call left it, and that set
      holds the task's member exactly once, scored by the hour's index. */
  lemma CreateTaskDedup(z: seq<Entry>, taskId: string, t1: int, t2: int)
    requires WellFormed(z)
    requires INTERVAL.GetIndex(t1) == INTERVAL.GetIndex(t2)
    ensures Created(Created(z, taskId, t1), taskId, t2) == Created(z, taskId, t1)
    ensures var index := INTERVAL.GetIndex(t1);
            var r := Created(z, taskId, t1);
            Entry(TaskMember(taskId, index), index) in r &&
            forall k :: 0 <= k < |r| && r[k].member == TaskMember(taskId, index) ==>
              r[k] == Entry(TaskMember(taskId, index), index) &&
              forall j :: 0 <= j < |r| && j != k ==> r[j].member != r[k].member
  {
    var index := INTERVAL.GetIndex(t1);
    var z1 := Created(z, taskId, t1);
    assert Entry(TaskMember(taskId, index), index) in Entries(z1);
    ZAddPresent(z1, TaskMember(taskId, index), index);
    forall k | 0 <= k < |z1| && z1[k].member == TaskMember(taskId, index)
      ensures z1[k] == Entry(TaskMember(taskId, index), index)
    {
      assert z1[k] in Entries(z1);
    }
  }

  /** Tasks created for different hours, or with different ids, are kept
      apart: the second create_task adds a member of its own. */
  lemma CreateTaskDistinct(z: seq<Entry>, id1: string, t1: int, id2: string, t2: int)
    requires WellFormed(z)
    requires id1 != id2 || INTERVAL.GetIndex(t1) != INTERVAL.GetIndex(t2)
    ensures var i1, i2 := INTERVAL.GetIndex(t1), INTERVAL.GetIndex(t2);
            var r := Created(Created(z, id1, t1), id2, t2);
            Entry(TaskMember(id1, i1), i1) in r && Entry(TaskMember(id2, i2), i2) in r
  {
    var i1, i2 := INTERVAL.GetIndex(t1), INTERVAL.GetIndex(t2);
    TaskMemberInjective(id1, i1, id2, i2);
    var z1 := Created(z, id1, t1);
    var r := Created(z1, id2, t2);
    assert Entry(TaskMember(id1, i1), i1) in Entries(z1);
    assert Entry(TaskMember(id1, i1), i1) in Entries(r);
    assert Entry(TaskMember(id2, i2), i2) in Entries(r);
  }

  lemma ScoreMonotone(z: seq<Entry>, i: int, j: int)
    requires WellFormed(z) && 0 <= i <= j < |z|
    ensures z[i].score <= z[j].score
  {
  }

  /** A member below the current index found at rank i, while every rank
      before i below it has been handled and the ranks from h have not, can
      only come right after the handled run: ranks are ordered by score. */
  lemma HandleNext(tasks: seq<Entry>, currentIndex: int, h: nat, i: nat)
    requires WellFormed(tasks) && h <= i < |tasks| && tasks[i].score < currentIndex
    requires forall k :: 0 <= k < i ==> (tasks[k].score < currentIndex <==> k < h)
    ensures h == i
    ensures MemberList(tasks[..h + 1]) == MemberList(tasks[..h]) + [tasks[i].member]
  {
    ScoreMonotone(tasks, h, i);
  }

  /** After the loop of get_pre_tasks over the n entries popped from the
      front of z: putting back the unhandled run leaves z less the handled
      members, and the handled run is the front of z below the current index. */
  lemma PreTasksRestore(z: seq<Entry>, n: nat, currentIndex: int, handled: seq<string>, unhandled: seq<Entry>)
    requires WellFormed(z) && |handled| <= n <= |z|
    requires handled == MemberList(z[..n][..|handled|])
    requires unhandled == z[..n][|handled|..n]
    requires forall k :: 0 <= k < n ==> (z[..n][k].score < currentIndex <==> k < |handled|)
    ensures WellFormed(z[n..]) && ZAddAll(z[n..], unhandled) == z[|handled|..]
    ensures handled == MemberList(z[..|handled|])
    ensures forall k :: 0 <= k < n ==> (z[k].score < currentIndex <==> k < |handled|)
  {
    ReAddRestores(z, n, |handled|);
    assert unhandled == z[|handled|..n];
    assert handled == MemberList(z[..|handled|]);
    forall k | 0 <= k < n
      ensures z[k].score < currentIndex <==> k < |handled|
    {
      assert z[k] == z[..n][k];
    }
  }

  /** Putting back the ranks [h, n) of what was popped from the front of z
      gives back z less its first h entries. */
  lemma ReAddRestores(z: seq<Entry>, n: nat, h: nat)
    requires WellFormed(z) && h <= n <= |z|
    ensures WellFormed(z[n..]) && ZAddAll(z[n..], z[h..n]) == z[h..]
    ensures z[..n][h..] == z[h..n] && z[..n][..h] == z[..h]
  {
    SliceWellFormed(z, h, |z|);
    assert z[h..n] + z[n..] == z[h..];
    ZAddAllFront(z[h..n], z[n..]);
  }

  class RedisDurationTask {
    const key: string
    /** The sorted set stored under `key`. */
    var zset: seq<Entry>

    ghost predicate Valid()
      reads this
    {
      WellFormed(zset)
    }

    /** A queue over whatever the store already holds under its key. */
    constructor (stored: seq<Entry>)
      requires WellFormed(stored)
      ensures Valid()
      ensures key == QueueKey(KEY_PREFIX, INTERVAL) && zset == stored
    {
      key := QueueKey(KEY_PREFIX, INTERVAL);
      zset := stored;
    }

    method CreateTask(taskId: string, dateTime: int)
      requires Valid()
      modifies this
      ensures Valid()
      ensures zset == Created(old(zset), taskId, dateTime)
      ensures var index := INTERVAL.GetIndex(dateTime);
              var member := TaskMember(taskId, index);
              Entries(zset) == (set x | x in old(zset) && x.member != member) + {Entry(member, index)}
      ensures |zset| <= old(|zset|) + 1
    {
      var index := INTERVAL.GetIndex(dateTime);
      var added := ZAdd(zset, TaskMember(taskId, index), index);
      zset := added.0;
    }

    /** Pop up to count members, lowest score first, ties by member. */
    method GetTasks(count: nat) returns (tasks: seq<string>)
      requires Valid()
      modifies this
      ensures Valid()
      ensures |tasks| == Min(count, |old(zset)|)
      ensures tasks == MemberList(old(zset)[..|tasks|])
      ensures zset == old(zset)[|tasks|..]
      ensures forall i, j :: 0 <= i < |tasks| <= j < |old(zset)| ==> Before(old(zset)[i], old(zset)[j])
    {
      var popped := ZPopMin(zset, count);
      zset := popped.1;
      tasks := MemberList(popped.0);
      assert old(zset)[..|tasks|] == popped.0;
      forall i, j | 0 <= i < |tasks| <= j < |old(zset)|
        ensures Before(old(zset)[i], old(zset)[j])
      {
        assert old(zset)[i] in popped.0;
        assert old(zset)[j] == popped.1[j - |tasks|];
      }
    }

    /** Pop up to count members and return those of hours before the hour of
        dateTime; the popped members of that hour or later go back unchanged.
        The returned members are the longest run at the front of the set whose
        scores lie below that hour's index, cut at count. */
    method GetPreTasks(count: nat, dateTime: int) returns (handled: seq<string>)
      requires Valid()
      modifies this
      ensures Valid()
      ensures |handled| <= Min(count, |old(zset)|)
      ensures forall k :: 0 <= k < Min(count, |old(zset)|) ==>
                (old(zset)[k].score < INTERVAL.GetIndex(dateTime) <==> k < |handled|)
      ensures handled == MemberList(old(zset)[..|handled|])
      ensures zset == old(zset)[|handled|..]
    {
      ghost var z0 := zset;
      var popped := ZPopMin(zset, count);
      var tasks := popped.0;
      zset := popped.1;
      assert tasks == z0[..|tasks|] && zset == z0[|tasks|..];
      var currentIndex := INTERVAL.GetIndex(dateTime);
      handled := [];
      // un_handle_results: its items in insertion order; the popped members
      // are distinct, so every assignment to it adds a new key.
      var unhandled: seq<Entry> := [];
      var i := 0;
      while i < |tasks|
        invariant zset == z0[|tasks|..]
        invariant 0 <= |handled| <= i <= |tasks|
        invariant handled == MemberList(tasks[..|handled|])
        invariant unhandled == tasks[|handled|..i]
        invariant forall k :: 0 <= k < i ==> (tasks[k].score < currentIndex <==> k < |handled|)
      {
        var e := tasks[i];
        if e.score >= currentIndex {
          unhandled := unhandled + [e];
        } else {
          HandleNext(tasks, currentIndex, |handled|, i);
          handled := handled + [e.member];
        }
        i := i + 1;
      }
      PreTasksRestore(z0, |tasks|, currentIndex, handled, unhandled);
      zset := ZAddAll(zset, unhandled);
    }

    method Clear()
      requires Valid()
      modifies this
      ensures Valid() && zset == []
    {
      zset := [];
    }
  }

  // The scenario of the repository's queue tests. Naive local times at UTC+8:
  // 2024-01-01 13:00, 13:59, 14:00 and 14:59.
  const T1300 := 1704085200
  const T1359 := 1704088740
  const T1400 := 1704088800
  const T1459 := 1704092340

  /** The hour indices of the scenario's time stamps. */
  lemma ScenarioIndices()
    ensures INTERVAL.GetIndex(T1300) == 473357 && INTERVAL.GetIndex(T1359) == 473357
    ensures INTERVAL.GetIndex(T1400) == 473358 && INTERVAL.GetIndex(T1459) == 473358
  {
    Base.IndexIsFloor(INTERVAL, T1300, 473357);
    Base.IndexIsFloor(INTERVAL, T1359, 473357);
    Base.IndexIsFloor(INTERVAL, T1400, 473358);
    Base.IndexIsFloor(INTERVAL, T1459, 473358);
  }

  /** The members the scenario's create_task calls write. */
  lemma ScenarioMembers()
    ensures TaskMember("task1", 473357) == "task1_473357"
    ensures TaskMember("task2", 473357) == "task2_473357"
    ensures TaskMember("task2", 473358) == "task2_473358"
  {
    ScenarioDigits();
  }

  lemma ScenarioDigits()
    ensures Decimal.IntToDecimal(473357) == "473357" && Decimal.IntToDecimal(473358) == "473358"
  {
    assert Decimal.NatToDecimal(4) == "4";
    assert Decimal.NatToDecimal(47) == "47";
    assert Decimal.NatToDecimal(473) == "473";
    assert Decimal.NatToDecimal(4733) == "4733";
    assert Decimal.NatToDecimal(47335) == "47335";
    assert Decimal.NatToDecimal(473357) == "473357";
    assert Decimal.NatToDecimal(473358) == "473358";
  }

  /** The three members of the scenario, lowest rank first. */
  function ScenarioQueue(): seq<Entry>
  {
    [Entry("task1_473357", 473357), Entry("task2_473357", 473357), Entry("task2_473358", 473358)]
  }

  /** Three entries in ascending order with distinct members form a set. */
  lemma ThreeWellFormed(a: Entry, b: Entry, c: Entry)
    requires Before(a, b) && Before(b, c)
    requires a.member != b.member && b.member != c.member && a.member != c.member
    ensures WellFormed([a, b, c])
  {
    BeforeTransitive(a, b, c);
  }

  lemma ScenarioOrder()
    ensures WellFormed(ScenarioQueue())
  {
    var a, b, c := "task1_473357", "task2_473357", "task2_473358";
    assert StrLess(a, b) by {
      StrLessAtDifference(a, b, 4);
    }
    assert a[4] != b[4] && a[4] != c[4] && b[11] != c[11];
    ThreeWellFormed(Entry(a, 473357), Entry(b, 473357), Entry(c, 473358));
  }

  /** create_task of a task not yet in its hour's bucket adds exactly its member. */
  lemma CreatedNew(z: seq<Entry>, taskId: string, t: int, member: string, index: int)
    requires WellFormed(z) && index == INTERVAL.GetIndex(t) && member == TaskMember(taskId, index)
    requires member !in Members(z)
    ensures Entries(Created(z, taskId, t)) == Entries(z) + {Entry(member, index)}
  {
    assert (set x | x in Entries(z) && x.member != member) == Entries(z);
  }

  /** task1 at 13:00 then task2 at 14:00 on an empty queue: two members. */
  lemma ScenarioFirstCalls()
    ensures Entries(Created(Created([], "task1", T1300), "task2", T1400))
            == {Entry("task1_473357", 473357), Entry("task2_473358", 473358)}
  {
    ScenarioIndices();
    ScenarioMembers();
    var a, c := Entry("task1_473357", 473357), Entry("task2_473358", 473358);
    assert a.member[4] != c.member[4];
    var z1 := Created([], "task1", T1300);
    CreatedNew([], "task1", T1300, a.member, 473357);
    assert Members(z1) == {a.member} by {
      assert Entries(z1) == {a};
    }
    CreatedNew(z1, "task2", T1400, c.member, 473358);
  }

  /** Then task1 at 13:59 falls in the hour of its first call and changes
      nothing. */
  lemma ScenarioThirdCall(z: seq<Entry>)
    requires WellFormed(z)
    requires Entries(z) == {Entry("task1_473357", 473357), Entry("task2_473358", 473358)}
    ensures Created(z, "task1", T1359) == z
  {
    ScenarioIndices();
    ScenarioMembers();
    assert Entry("task1_473357", 473357) in Entries(z);
    ZAddPresent(z, "task1_473357", 473357);
  }

  lemma ScenarioPairMembers(z: seq<Entry>)
    requires Entries(z) == {Entry("task1_473357", 473357), Entry("task2_473358", 473358)}
    ensures "task2_473357" !in Members(z)
  {
    var a, b, c := "task1_473357", "task2_473357", "task2_473358";
    assert a[4] != b[4] && b[11] != c[11];
    forall e | e in z ensures e.member != b {
      assert e in Entries(z);
    }
  }

  lemma ScenarioTripleEntries()
    ensures Entries(ScenarioQueue())
            == {Entry("task1_473357", 473357), Entry("task2_473358", 473358)} + {Entry("task2_473357", 473357)}
  {
  }

  /** And task2 at 13:59 adds a third member, ranked between the other two. */
  lemma ScenarioFourthCall(z: seq<Entry>)
    requires WellFormed(z)
    requires Entries(z) == {Entry("task1_473357", 473357), Entry("task2_473358", 473358)}
    ensures Created(z, "task2", T1359) == ScenarioQueue()
  {
    ScenarioIndices();
    ScenarioMembers();
    ScenarioPairMembers(z);
    CreatedNew(z, "task2", T1359, "task2_473357", 473357);
    ScenarioOrder();
    ScenarioTripleEntries();
    SortedUnique(Created(z, "task2", T1359), ScenarioQueue());
  }

  /** task1 at 13:00, task2 at 14:00, task1 at 13:59 and task2 at 13:59 on an
      empty queue leave three members: task1's two calls share the 13:00 hour
      and collapse into one, and the two members of hour 473357 are ordered by
      member. */
  lemma ScenarioSetUp()
    ensures Created(Created(Created(Created([], "task1", T1300), "task2", T1400), "task1", T1359), "task2", T1359)
            == ScenarioQueue()
  {
    var z := Created(Created([], "task1", T1300), "task2", T1400);
    ScenarioFirstCalls();
    ScenarioThirdCall(z);
    ScenarioFourthCall(z);
  }

  /** get_tasks(10) on the scenario's queue returns all three members in order. */
  lemma ScenarioGetTasks(tasks: seq<string>)
    requires |tasks| == Min(10, 3) && tasks == MemberList(ScenarioQueue()[..|tasks|])
    ensures tasks == ["task1_473357", "task2_473357", "task2_473358"]
  {
    assert ScenarioQueue()[..3] == ScenarioQueue();
  }

  /** get_pre_tasks(10) at 14:59 on the scenario's queue returns the two
      members of the 13:00 hour and puts the 14:00 one back. */
  lemma ScenarioGetPreTasks(handled: seq<string>, rest: seq<Entry>)
    requires |handled| <= Min(10, 3)
    requires forall k :: 0 <= k < Min(10, 3) ==>
               (ScenarioQueue()[k].score < INTERVAL.GetIndex(T1459) <==> k < |handled|)
    requires handled == MemberList(ScenarioQueue()[..|handled|])
    requires rest == ScenarioQueue()[|handled|..]
    ensures handled == ["task1_473357", "task2_473357"]
    ensures rest == [Entry("task2_473358", 473358)]
  {
    ScenarioIndices();
    var z := ScenarioQueue();
    assert z[1].score < 473358 && !(z[2].score < 473358);
    assert |handled| == 2;
    assert z[..2] == [z[0], z[1]];
  }

  /** The set-up of the repository's queue tests: four create_task calls on
      an empty queue. */
  method ScenarioQueueSetUp() returns (q: RedisDurationTask)
    ensures fresh(q) && q.Valid() && q.zset == ScenarioQueue()
  {
    q := new RedisDurationTask([]);
    q.CreateTask("task1", T1300);
    q.CreateTask("task2", T1400);
    q.CreateTask("task1", T1359);
    q.CreateTask("task2", T1359);
    ScenarioSetUp();
  }

  /** The repository's queue tests, replayed against the model: get_tasks
      returns the three members lowest first; get_pre_tasks at 14:59 returns
      the two members of the 13:00 hour, and a get_tasks after it returns the
      14:00 one, which was put back. */
  method QueueScenario() returns (tasks: seq<string>, pre: seq<string>, rest: seq<string>)
    ensures tasks == ["task1_473357", "task2_473357", "task2_473358"]
    ensures pre == ["task1_473357", "task2_473357"]
    ensures rest == ["task2_473358"]
  {
    var q := ScenarioQueueSetUp();
    tasks := q.GetTasks(10);
    ScenarioGetTasks(tasks);

    var q2 := ScenarioQueueSetUp();
    pre := q2.GetPreTasks(10, T1459);
    ScenarioGetPreTasks(pre, q2.zset);
    rest := q2.GetTasks(10);
  }

  /** The set-up of the second get_pre_tasks test: task1 an hour before now,
      then task1 at now, on an empty queue, leave two members one hour apart. */
  lemma TwoHoursSetUp(now: int)
    ensures var i := INTERVAL.GetIndex(now);
            Created(Created([], "task1", now - 3600), "task1", now)
            == [Entry(TaskMember("task1", i - 1), i - 1), Entry(TaskMember("task1", i), i)]
  {
    var i := INTERVAL.GetIndex(now);
    Base.IndexIsFloor(INTERVAL, now - 3600, i - 1);
    var e1, e2 := Entry(TaskMember("task1", i - 1), i - 1), Entry(TaskMember("task1", i), i);
    TaskMemberInjective("task1", i - 1, "task1", i);
    var z1 := Created([], "task1", now - 3600);
    CreatedNew([], "task1", now - 3600, e1.member, i - 1);
    assert Members(z1) == {e1.member} by {
      assert Entries(z1) == {e1};
    }
    CreatedNew(z1, "task1", now, e2.member, i);
    assert WellFormed([e1, e2]) && Entries([e1, e2]) == {e1, e2};
    SortedUnique(Created(z1, "task1", now), [e1, e2]);
  }

  /** get_pre_tasks at now on that queue returns the earlier member alone and
      leaves the member of the current hour for get_tasks. */
  lemma TwoHoursGetPreTasks(now: int, handled: seq<string>, rest: seq<Entry>)
    requires var i := INTERVAL.GetIndex(now);
             var z := [Entry(TaskMember("task1", i - 1), i - 1), Entry(TaskMember("task1", i), i)];
             |handled| <= Min(10, 2) &&
             (forall k :: 0 <= k < Min(10, 2) ==> (z[k].score < i <==> k < |handled|)) &&
             handled == MemberList(z[..|handled|]) &&
             rest == z[|handled|..]
    ensures var i := INTERVAL.GetIndex(now);
            handled == [TaskMember("task1", i - 1)] && rest == [Entry(TaskMember("task1", i), i)]
  {
    var i := INTERVAL.GetIndex(now);
    var z := [Entry(TaskMember("task1", i - 1), i - 1), Entry(TaskMember("task1", i), i)];
    assert z[0].score < i && !(z[1].score < i);
    assert |handled| == 1 && z[..1] == [z[0]];
  }

  /** The repository's second get_pre_tasks test, replayed against the model
      for any reference time: get_pre_tasks returns the task of the hour before
      alone, and the get_tasks after it returns the task of the current hour. */
  method TwoHoursScenario(now: int) returns (pre: seq<string>, rest: seq<string>)
    ensures var i := INTERVAL.GetIndex(now);
            pre == [TaskMember("task1", i - 1)] && rest == [TaskMember("task1", i)]
  {
    var q := new RedisDurationTask([]);
    q.CreateTask("task1", now - 3600);
    q.CreateTask("task1", now);
    TwoHoursSetUp(now);
    pre := q.GetPreTasks(10, now);
    TwoHoursGetPreTasks(now, pre, q.zset);
    rest := q.GetTasks(10);
  }
}
