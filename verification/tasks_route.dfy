/**
 * The `/tasks` index route: its loader (the signed-in user's tasks,
 * earliest deadline first), its create action (the duration given in a
 * unit is stored in minutes) and the page's split of the loaded list into
 * the three status tabs.
 */
module TasksRoute {
  import opened Wrappers
  import opened Tasks

  /*
   * Authentication guard shared by the loader and the action
   */

  /**
   * Whether Clerk reports a signed-in caller. The guard is JavaScript's
   * `!userId`, which turns away a missing id and an empty one alike.
   */
  predicate SignedIn(userId: Option<UserId>): (b: bool)
    ensures b <==> userId != None && userId != Some("")
  {
    userId.Some? && userId.value != ""
  }

  /** A guarded route either redirects to the sign-in page or goes ahead. */
  datatype Guarded<T> = SignInRedirect | Proceed(value: T)

  /*
   * Loader
   */

  /**
   * The loader. The database query is an input: for a signed-in caller,
   * `queried` is what `findMany` returns, the caller's tasks in ascending
   * deadline order.
   */
  function Loader(userId: Option<UserId>, queried: seq<Task>): (r: Guarded<seq<Task>>)
    requires SignedIn(userId) ==> LoadedFor(queried, userId.value)
    ensures r.SignInRedirect? <==> !SignedIn(userId)
    ensures r.Proceed? ==> r.value == queried && LoadedFor(r.value, userId.value)
  {
    if !SignedIn(userId) then SignInRedirect else Proceed(queried)
  }

  /*
   * Create action: duration normalisation
   */

  /** Minutes in one unit of the form's duration unit; every other unit string counts as minutes. */
  function UnitMinutes(unit: string): (f: nat)
    ensures f == 1 || f == 60 || f == 1440
    ensures f == 1 <==> unit != "hours" && unit != "days"
    ensures unit == "hours" ==> f == 60
    ensures unit == "days" ==> f == 1440
  {
    if unit == "hours" then 60 else if unit == "days" then 1440 else 1
  }

  /**
   * The action's conversion of the submitted duration into minutes:
   * hours are multiplied by 60, days by 1440, and any other unit,
   * "minutes" or an unknown one alike, leaves the value as it is.
   */
  method NormalizeDuration(durationValue: int, durationUnit: string) returns (duration: int)
    ensures durationUnit == "hours" ==> duration == durationValue * 60
    ensures durationUnit == "days" ==> duration == durationValue * 1440
    ensures durationUnit != "hours" && durationUnit != "days" ==> duration == durationValue
    ensures durationValue >= 0 ==> duration >= 0
    ensures duration == durationValue * UnitMinutes(durationUnit)
  {
    duration := durationValue;
    if durationUnit == "hours" {
      duration := duration * 60;
    } else if durationUnit == "days" {
      duration := duration * 1440;
    }
  }

  /** For a fixed unit, a larger value never gives a shorter duration. */
  lemma NormalizeMonotone(v1: int, v2: int, unit: string)
    requires v1 <= v2
    ensures v1 * UnitMinutes(unit) <= v2 * UnitMinutes(unit)
  {
  }

  /** For a fixed unit, distinct values give distinct durations. */
  lemma NormalizeInjective(v1: int, v2: int, unit: string)
    requires v1 * UnitMinutes(unit) == v2 * UnitMinutes(unit)
    ensures v1 == v2
  {
  }

  /** The fields of the create form, with the deadline already a timestamp. */
  datatype CreateForm = CreateForm(
    title: string,
    description: string,
    durationValue: int,
    durationUnit: string,
    deadline: int)

  /** The record the action asks the database to create. */
  datatype NewTask = NewTask(
    title: string,
    description: string,
    duration: int,
    deadline: int,
    userId: UserId)

  /**
   * The create action. Without a signed-in caller it redirects and creates
   * nothing; otherwise it creates exactly one task, owned by the caller,
   * with the duration in minutes and the other fields as submitted.
   */
  method CreateAction(userId: Option<UserId>, form: CreateForm) returns (r: Guarded<NewTask>)
    ensures r.SignInRedirect? <==> !SignedIn(userId)
    ensures r.Proceed? ==> r.value.userId == userId.value
    ensures r.Proceed? ==> r.value.duration == form.durationValue * UnitMinutes(form.durationUnit)
    ensures r.Proceed? ==> r.value.title == form.title && r.value.description == form.description
                           && r.value.deadline == form.deadline
  {
    if !SignedIn(userId) {
      return SignInRedirect;
    }
    var duration := NormalizeDuration(form.durationValue, form.durationUnit);
    r := Proceed(NewTask(form.title, form.description, duration, form.deadline, userId.value));
  }

  /*
   * Status tabs
   */

  /** The keys of the three tabs, in the order the page shows them. */
  const TabKeys: seq<string> := ["not_started", "ongoing", "completed"]

  /**
   * `statusMap[key]`. Any key other than the three yields a value
   * (`undefined`, or a member every object inherits) that equals no status.
   */
  function StatusForKey(key: string): (r: Option<TaskStatus>)
    ensures r.Some? <==> key in TabKeys
    ensures key == "not_started" ==> r == Some(NOT_STARTED)
    ensures key == "ongoing" ==> r == Some(ONGOING)
    ensures key == "completed" ==> r == Some(COMPLETED)
  {
    if key == "not_started" then Some(NOT_STARTED)
    else if key == "ongoing" then Some(ONGOING)
    else if key == "completed" then Some(COMPLETED)
    else None
  }

  /** Whether `task` belongs on the tab `key`. */
  predicate OnTab(task: Task, key: string) {
    StatusForKey(key) == Some(task.status)
  }

  /**
   * `filteredTasks(key)`: the tasks of the tab `key`. They are exactly the
   * tasks whose status the key maps to, kept in their original order.
   */
  function FilteredTasks(tasks: seq<Task>, key: string): (r: seq<Task>)
    ensures |r| <= |tasks|
    ensures forall t :: t in r <==> t in tasks && OnTab(t, key)
    ensures IsSubsequence(r, tasks)
  {
    if tasks == [] then []
    else
      var rest := FilteredTasks(tasks[1..], key);
      if OnTab(tasks[0], key) then [tasks[0]] + rest else rest
  }

  /** The three keys name three different statuses, and every status has a tab. */
  lemma TabKeysCoverStatuses()
    ensures forall k :: k in TabKeys ==> StatusForKey(k).Some?
    ensures StatusForKey(TabKeys[0]) != StatusForKey(TabKeys[1])
    ensures StatusForKey(TabKeys[0]) != StatusForKey(TabKeys[2])
    ensures StatusForKey(TabKeys[1]) != StatusForKey(TabKeys[2])
    ensures forall s: TaskStatus :: exists k :: k in TabKeys && StatusForKey(k) == Some(s)
  {
    forall s: TaskStatus ensures exists k :: k in TabKeys && StatusForKey(k) == Some(s) {
      match s
      case NOT_STARTED => assert StatusForKey(TabKeys[0]) == Some(s);
      case ONGOING => assert StatusForKey(TabKeys[1]) == Some(s);
      case COMPLETED => assert StatusForKey(TabKeys[2]) == Some(s);
    }
  }

  /** A key that is not one of the tabs' selects nothing. */
  lemma UnknownKeyIsEmpty(tasks: seq<Task>, key: string)
    requires key !in TabKeys
    ensures FilteredTasks(tasks, key) == []
  {
  }

  /** Two different tabs never show the same task. */
  lemma TabsDisjoint(tasks: seq<Task>, k1: string, k2: string)
    requires k1 in TabKeys && k2 in TabKeys && k1 != k2
    ensures forall t :: t in FilteredTasks(tasks, k1) ==> t !in FilteredTasks(tasks, k2)
  {
  }

  /** Together the three tabs hold every loaded task exactly once. */
  lemma {:induction false} TabsPartition(tasks: seq<Task>)
    ensures multiset(FilteredTasks(tasks, "not_started")) + multiset(FilteredTasks(tasks, "ongoing"))
            + multiset(FilteredTasks(tasks, "completed")) == multiset(tasks)
  {
    if tasks != [] {
      var t, rest := tasks[0], tasks[1..];
      TabsPartition(rest);
      assert tasks == [t] + rest;
      assert multiset(tasks) == multiset{t} + multiset(rest);
      FilteredFirst(tasks, "not_started");
      FilteredFirst(tasks, "ongoing");
      FilteredFirst(tasks, "completed");
      var a := multiset(FilteredTasks(rest, "not_started"));
      var b := multiset(FilteredTasks(rest, "ongoing"));
      var c := multiset(FilteredTasks(rest, "completed"));
      var x, y, z := TabShare(t, "not_started"), TabShare(t, "ongoing"), TabShare(t, "completed");
      OnExactlyOneTab(t);
      calc {
        (x + a) + (y + b) + (z + c);
        (x + y + z) + (a + b + c);
        multiset{t} + multiset(rest);
      }
    }
  }

  /** The task itself, if it belongs on the tab `key`, and nothing otherwise. */
  function TabShare(t: Task, key: string): multiset<Task> {
    if OnTab(t, key) then multiset{t} else multiset{}
  }

  /** A task belongs on exactly one of the three tabs. */
  lemma OnExactlyOneTab(t: Task)
    ensures TabShare(t, "not_started") + TabShare(t, "ongoing") + TabShare(t, "completed") == multiset{t}
  {
    match t.status
    case NOT_STARTED => assert TabShare(t, "ongoing") == TabShare(t, "completed") == multiset{};
    case ONGOING => assert TabShare(t, "not_started") == TabShare(t, "completed") == multiset{};
    case COMPLETED => assert TabShare(t, "not_started") == TabShare(t, "ongoing") == multiset{};
  }

  /** The tab's tasks are the first task, if it belongs on the tab, then the rest's. */
  lemma FilteredFirst(tasks: seq<Task>, key: string)
    requires tasks != []
    ensures multiset(FilteredTasks(tasks, key)) == TabShare(tasks[0], key) + multiset(FilteredTasks(tasks[1..], key))
  {
  }

  /** The three tab counters add up to the number of loaded tasks. */
  lemma TabCountsSum(tasks: seq<Task>)
    ensures |FilteredTasks(tasks, "not_started")| + |FilteredTasks(tasks, "ongoing")|
            + |FilteredTasks(tasks, "completed")| == |tasks|
  {
    TabsPartition(tasks);
    assert |multiset(tasks)| == |tasks|;
  }

  /**
   * Each tab of a loaded list still holds only the caller's tasks and is
   * still in ascending deadline order.
   */
  lemma TabKeepsLoaderOrder(tasks: seq<Task>, owner: UserId, key: string)
    requires LoadedFor(tasks, owner)
    ensures LoadedFor(FilteredTasks(tasks, key), owner)
  {
    var r := FilteredTasks(tasks, key);
    SubsequenceKeepsOrder(r, tasks);
    SubsequenceKeepsOwner(r, tasks, owner);
  }
}
