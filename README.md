# duration2 in Dafny

This project models the core of `duration2` and proves properties of the model. That core has three parts:

- **Time bucketing** (`TimeDelta`). A time stamp maps to the integer index of the fixed-width interval that holds it. It also maps to the half-open range of that interval.
- **The de-duplicating task queue** (`RedisDurationTask`). It keeps one sorted set under the key `DURATION_TASK_3600`. A task is stored as the member `"{task_id}_{index}"` with the hour index as its score, so creating the same task twice in one hour leaves one member. `get_tasks` pops the lowest-scored members. `get_pre_tasks` pops members, returns those of hours before the reference hour, and puts the rest back unchanged.
- **The bounded time list** (`RedisLimitedTimeList`). It is a sorted set of members scored by time stamps, and it is trimmed by rank after each new member.

The store is modelled as an in-memory sorted set (module `SortedSet`). It is a sequence of `(member, score)` entries, strictly ascending by score and then by member. Members are distinct. Members compare by character code, which is the byte order the store uses on UTF-8. The store commands are pure functions over that sequence:

- `ZAdd`: insert or overwrite a member, and report whether it was new.
- `ZAddAll`: one ZADD of a mapping, in the mapping's order.
- `ZPopMin`.
- `ZRemRangeByRank`: negative indices count from the end, and out-of-range bounds are clipped.

A well-formed sorted set is determined by its set of entries (`SortedSet.SortedUnique`). This is how ZADD idempotence and the re-insertion in `get_pre_tasks` are proved.

The two store-backed classes hold the contents of their key as a field `zset` and change it in their methods:

- `Tasks.RedisDurationTask`
- `DataType.RedisLimitedTimeList`

Time stamps and interval widths are whole seconds. Python's `divmod` floors, and so do Dafny's `/` and `%` with a positive divisor. So `GetIndex` is `t / seconds` and `GetPortion` subtracts `t % seconds`, also for times before the epoch.

Modules:

- `Wrappers`: `Option`.
- `Decimal`: Python's `str` of an integer, and its inverse.
- `SortedSet`: the store.
- `Base`: `base.py`.
- `Tasks`: `tasks.py` and the replayed queue tests.
- `DataType`: `datatype.py`.

Three facts about the code shape the model:

- `create_task` and `add_data` return `None`. Neither reports whether the member was new.
- `shrink` trims by its own rank arithmetic, which does not leave exactly `max_count` members (see Findings).
- The queue key uses the fixed prefix `DURATION_TASK_`. The constructor takes no prefix.

## Model

| member | source | states |
|---|---|---|
| Base.TimeDelta.GetIndex | src/duration2/base.py:19-21 | the index is the floor of t / width: index * width <= t < index * width + width |
| Base.TimeDelta.GetPortion | src/duration2/base.py:23-28 | the portion holds t and is exactly one width long |
| Base.IndexIsFloor | src/duration2/base.py:19-21 | floor division has one answer: any q whose width-long range from q * width holds t is the index of t |
| Base.PortionOfIndex | src/duration2/base.py:19-28 | the portion of t is [index * width, (index + 1) * width), the bucket of t's index |
| Base.PortionIdempotent | src/duration2/base.py:19-28 | the lower bound of t's portion has t's index and t's portion |
| Base.SameBucket | src/duration2/base.py:19-28 | two time stamps share an index iff one lies in the other's portion, iff their portions are equal |
| Base.IndexMonotone | src/duration2/base.py:19-21 | a later time stamp never has a smaller index |
| Base.IndexBeforeEpoch | src/duration2/base.py:20 | negative time stamps have negative indices (floor, not truncation); the first width before the epoch is index -1 with portion [-width, 0) |
| Base.EpochPortion | tests/test_base.py:16-23 | with a one-hour width the epoch is the lower bound of its own portion |
| Decimal.IntToDecimal | src/duration2/tasks.py:37 | str of an int is never empty; it starts with '-' iff the int is negative, and then has at least one digit; every other character is a decimal digit, and a nonzero int has no leading zero |
| Decimal.ParseIntInverse | src/duration2/tasks.py:30 | the decimal text of an integer, as str prints it, reads back as the same integer |
| Decimal.IntToDecimalInjective | src/duration2/tasks.py:37 | distinct integers print as distinct decimal texts |
| Tasks.QueueKey | src/duration2/tasks.py:28-30 | the key starts with the prefix, and the rest of it reads back as the interval width in seconds |
| Tasks.DefaultQueueKey | src/duration2/tasks.py:25-30 | the queue key is "DURATION_TASK_3600" |
| Tasks.TaskMember | src/duration2/tasks.py:37 | the member is the task id, then '_', then the index as str prints it |
| Tasks.DecodeMember | src/duration2/tasks.py:37 | splitting a member at its last '_' fails exactly when the member has no '_' |
| Tasks.DecodeTaskMember | src/duration2/tasks.py:37 | splitting the member of (task id, index) at its last '_' gives back that task id and index, whatever '_' the task id holds |
| Tasks.TaskMemberInjective | src/duration2/tasks.py:37 | two (task id, index) pairs share a member iff they are equal |
| Tasks.Created | src/duration2/tasks.py:32-39 | create_task leaves a well-formed sorted set |
| Tasks.CreateTaskDedup | src/duration2/tasks.py:32-39 | a second create_task of the same task in the same hour changes nothing, and the set holds the task's member once, scored by the hour's index |
| Tasks.CreateTaskDistinct | src/duration2/tasks.py:32-39 | create_task for a different task id or a different hour keeps both members, each with its own index as score |
| Tasks.RedisDurationTask.constructor | src/duration2/tasks.py:28-30 | the key is QueueKey(KEY_PREFIX, INTERVAL) and the set is what the store holds |
| Tasks.RedisDurationTask.CreateTask | src/duration2/tasks.py:32-39 | the new entries are the old ones, less any entry of the member "{task_id}_{index}", plus that member scored by index; the set grows by at most one |
| Tasks.RedisDurationTask.GetTasks | src/duration2/tasks.py:41-46 | returns min(count, size) members, the lowest-ranked ones in rank order; each returned entry ranks before each kept one; the set is the old one less exactly those entries |
| Tasks.RedisDurationTask.GetPreTasks | src/duration2/tasks.py:48-66 | among the popped ranks, a rank is returned iff its score is below the reference hour's index; the returned members are the front run of the set in order; the set afterwards is the old one less exactly the returned entries, so nothing popped and not returned is lost |
| Tasks.HandleNext | src/duration2/tasks.py:60-64 | a popped entry below the current index comes right after the handled run, because popped entries ascend by score |
| Tasks.PreTasksRestore | src/duration2/tasks.py:54-65 | re-adding the unhandled popped entries in pop order restores the set less the handled front run |
| Tasks.ReAddRestores | src/duration2/tasks.py:54-65 | re-adding the ranks [h, n) of what was popped from the front gives back the set less its first h entries |
| Tasks.RedisDurationTask.Clear | src/duration2/tasks.py:68-71 | the set is empty |
| Tasks.ScenarioIndices | tests/test_task.py:29-38 | 13:00 and 13:59 (UTC+8) fall in hour 473357, 14:00 and 14:59 in hour 473358 |
| Tasks.ScenarioMembers | tests/test_task.py:35-38 | the members the set-up writes are "task1_473357", "task2_473357" and "task2_473358" |
| Tasks.ScenarioSetUp | tests/test_task.py:27-38 | the four create_task calls of the test set-up leave task1_473357, task2_473357 and task2_473358 in that order |
| Tasks.ScenarioQueueSetUp | tests/test_task.py:27-38 | the same four calls on a queue object leave that set |
| Tasks.ScenarioGetTasks | tests/test_task.py:65-74 | get_tasks returns ["task1_473357", "task2_473357", "task2_473358"] |
| Tasks.ScenarioGetPreTasks | tests/test_task.py:88-110 | get_pre_tasks at 14:59 returns the two members of hour 473357, and the set left is task2_473358 alone |
| Tasks.TwoHoursSetUp | tests/test_task.py:112-117 | task1 an hour before now and task1 at now leave two members, one hour index apart |
| Tasks.QueueScenario | tests/test_task.py:65-110 | on the set-up queue, get_tasks returns ["task1_473357", "task2_473357", "task2_473358"]; on a fresh set-up, get_pre_tasks at 14:59 returns ["task1_473357", "task2_473357"] and the get_tasks after it returns ["task2_473358"] |
| Tasks.TwoHoursGetPreTasks | tests/test_task.py:118-121 | get_pre_tasks at now returns the member of the hour before now alone, and leaves the member of now's hour |
| Tasks.TwoHoursScenario | tests/test_task.py:112-121 | for every now, on a queue object, get_pre_tasks returns exactly task1's member of the hour before and the get_tasks after it returns exactly task1's member of now's hour |
| SortedSet.StrLessIrreflexive | src/duration2/tasks.py:42 | the member order the store breaks score ties with (StrLess, by character code) never puts a member before itself |
| SortedSet.StrLessAsymmetric | src/duration2/tasks.py:42 | of two members, at most one comes first |
| SortedSet.StrLessTransitive | src/duration2/tasks.py:42 | the member order is transitive |
| SortedSet.StrLessTotal | src/duration2/tasks.py:42 | of two distinct members, one comes first |
| SortedSet.StrLessAtDifference | src/duration2/tasks.py:42 | two members compare at their first differing character |
| SortedSet.BeforeTransitive | src/duration2/tasks.py:42 | the store's order on entries (Before: score first, then member) is transitive |
| SortedSet.BeforeAsymmetric | src/duration2/tasks.py:42 | of two entries, at most one ranks first |
| SortedSet.BeforeTotal | src/duration2/tasks.py:42 | of two entries with distinct members, one ranks first |
| SortedSet.ZAdd | src/duration2/tasks.py:34-39 | the member is added or its score overwritten, other entries kept; the flag is true iff the member was new; the size grows by one iff new |
| SortedSet.ZAddPresent | src/duration2/tasks.py:34-39 | ZADD of an entry already present changes nothing and reports it as not new |
| SortedSet.ZAddAll | src/duration2/tasks.py:65 | the members are the old ones plus the mapping's; with new, distinct members the entries are the union |
| SortedSet.ZAddAllFront | src/duration2/tasks.py:65 | re-adding an ordered run that sits wholly in front of a set gives the run followed by the set |
| SortedSet.SortedUnique | src/duration2/tasks.py:54-65 | two well-formed sorted sets with the same entries are the same sequence |
| SortedSet.ZPopMin | src/duration2/tasks.py:42 | pops min(count, size) entries from the front, in order; each popped entry ranks before each kept one; popped then kept is the old set |
| SortedSet.ZRemRangeByRank | src/duration2/datatype.py:33 | removes exactly the ranks in the normalised range [lo, hi) and keeps the order |
| SortedSet.RankRangeSpec | src/duration2/datatype.py:33 | a rank is in the removed range iff it lies between start and stop inclusive, each negative index counted from the end of the set |
| DataType.Shrunk | src/duration2/datatype.py:30-33 | shrink keeps a suffix of the set, so only the lowest ranks go |
| DataType.ShrinkWithinBound | src/duration2/datatype.py:31-33 | within the bound, shrink changes nothing |
| DataType.ShrinkOverTrims | src/duration2/datatype.py:33 | over a bound m >= 1, the stop index m - count - 1 resolves to rank m - 1, so ranks 0..m-1 go and count - m members stay |
| DataType.ShrinkNonPositiveBound | src/duration2/datatype.py:33 | with a bound of 0 or less the stop resolves below rank 0 and nothing is removed |
| DataType.ShrinkKeepsLatest | src/duration2/datatype.py:33 | shrink always keeps the highest-ranked (latest) entry |
| DataType.AfterAddData | src/duration2/datatype.py:25-28 | add_data leaves a well-formed sorted set |
| DataType.AddDataPresent | src/duration2/datatype.py:26-28 | add_data of a member already present overwrites its score and keeps the size (no shrink) |
| DataType.AddDataWithinBound | src/duration2/datatype.py:25-33 | starting within a bound of at least 1, the list stays within it after any add_data |
| DataType.AddDataToFullLeavesOne | src/duration2/datatype.py:33 | a new member added to a full list leaves exactly one member |
| DataType.OverTrimExample | src/duration2/datatype.py:33 | [a:1, b:2, c:3] with bound 3, given d:4, becomes [d:4] |
| DataType.ShrunkIntended | src/duration2/datatype.py:16 | the corrected trim keeps a suffix of the set, so only the earliest entries go, and keeps it well formed |
| DataType.AfterAddDataIntended | src/duration2/datatype.py:16 | add_data with the corrected trim leaves a well-formed set with no member but the old ones and the new one; a present member gets its new score and the size stays |
| DataType.ShrunkIntendedKeepsLatest | src/duration2/datatype.py:16 | the corrected trim keeps exactly the min(count, bound) highest-ranked entries |
| DataType.AddDataIntendedKeepsFull | src/duration2/datatype.py:16 | with the corrected trim, the list stays within the bound, and a new member added to a full list evicts only the lowest-ranked entry |
| DataType.RedisLimitedTimeList.constructor | src/duration2/datatype.py:20-23 | key and bound are the arguments, and the set is what the store holds |
| DataType.RedisLimitedTimeList.AddData | src/duration2/datatype.py:25-28 | the new set is ZADD then shrink-if-new; a present member keeps the size and has its new score; from within a bound of at least 1 the bound holds |
| DataType.RedisLimitedTimeList.Shrink | src/duration2/datatype.py:30-33 | over a bound m >= 1 the set loses its m lowest ranks; otherwise it is unchanged |
| DataType.RedisLimitedTimeList.Clear | src/duration2/datatype.py:35-36 | the set is empty |

## Left out

- The store client, the network and connection handling are not modelled. This includes the default `client or Redis()` in `RedisLimitedTimeList`. The sorted set stands in for them, and each class is built over the contents its key already holds.
- `datetime`, time zones and float seconds are not modelled. Time stamps and widths are whole seconds, and widths are positive. So a zero width (a `ZeroDivisionError`) and sub-second widths are not modelled. The replayed tests assume UTC+8 local time, as their indices do.
- `portion.closedopen` becomes the pair `Base.Portion`.
- Scores are integers. Comparing float scores returned by the store with the integer index is not modelled.
- The default `date_time=None`, meaning now, is not modelled: the time is always a parameter.
- The default `count=10` of `get_tasks` and `get_pre_tasks` is not modelled: the count is always a parameter.
- `parse_task` is not modelled. `Tasks.DecodeMember`, its split at the last `_`, stands in only as the inverse of the member encoding, for the injectivity proof. It does not model the conversion of the index back to a time range.
- The other test-only APIs are not modelled: the blocking `get_tasks(parse=..., timeout=...)`, the `key_prefix` argument, `ThresholdTask` and `RedisThresholdTask`. They are not in the modelled source. The thread-based blocking test is also left out.
- Concurrency is not modelled: other clients changing the same key between two store calls, and atomicity across the calls of `get_pre_tasks` and `add_data`.
- Tasks.RedisDurationTask.GetPreTasks: re-adding an empty mapping is taken as a no-op. The store client rejects a ZADD with no pairs (a data error), which would happen after the members have been popped. The model does not capture that failure.
- Tasks.RedisDurationTask.GetTasks, Tasks.RedisDurationTask.GetPreTasks: `count` is a natural number. A negative count is an error from the store and is not modelled.
- DataType.RedisLimitedTimeList.Shrink: `zcount` is called with the key alone. The store client's `zcount` has required `min` and `max` arguments, so the call as written raises a `TypeError` right after the ZADD of a new member. The model does not capture that failure. It reads the call as the cardinality of the whole set, which is what the name `current_count` and the class description mean.
- The store's own ordering of members with equal scores is modelled as lexicographic order by character code.

## Findings

| source | as written | input that shows it | evidently intended | confidence | as-written member | corrected member |
|---|---|---|---|---|---|---|
| src/duration2/datatype.py:33 | reading the `zcount` call at line 31 as the cardinality of the set, `zremrangebyrank(key, 0, max_count - current_count - 1)` removes ranks 0..max_count-1, so `max_count` members go | max_count = 3, members a:1, b:2, c:3, then add_data("d", 4): under that reading one member, d, is left (the call at line 31 as written raises before line 33 is reached) | remove the `current_count - max_count` lowest ranks, leaving the `max_count` latest members (stop = current_count - max_count - 1) | not executed | DataType.OverTrimExample | DataType.AddDataIntendedKeepsFull |

The general form of the as-written behaviour is `DataType.AddDataToFullLeavesOne`. The corrected trim is `DataType.ShrunkIntended`, with its property `DataType.ShrunkIntendedKeepsLatest`. The class `DataType.RedisLimitedTimeList` keeps the as-written trim, because that is what the source does.
