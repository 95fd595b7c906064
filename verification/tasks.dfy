/**
 * The task record as the loader hands it to the page: the Prisma `Task`
 * row. Timestamps (the deadline among them) are modelled as integers
 * (milliseconds since the epoch); only their order matters here.
 */
module Tasks {

  type UserId = string
  type TaskId = string

  /** The Prisma `TaskStatus` enum. */
  datatype TaskStatus = NOT_STARTED | ONGOING | COMPLETED

  datatype Task = Task(
    id: TaskId,
    userId: UserId,
    title: string,
    description: string,
    duration: int,      // minutes
    deadline: int,
    status: TaskStatus)

  /** The string a status has in the serialised row (`task.status`). */
  function StatusName(s: TaskStatus): string {
    match s
    case NOT_STARTED => "NOT_STARTED"
    case ONGOING => "ONGOING"
    case COMPLETED => "COMPLETED"
  }

  /** Every task in the list belongs to `owner`. */
  predicate OwnedBy(tasks: seq<Task>, owner: UserId) {
    forall i :: 0 <= i < |tasks| ==> tasks[i].userId == owner
  }

  /** The list is in ascending deadline order. */
  predicate SortedByDeadline(tasks: seq<Task>) {
    forall i, j :: 0 <= i < j < |tasks| ==> tasks[i].deadline <= tasks[j].deadline
  }

  /**
   * What the loader's query (`findMany` filtered by owner, ordered by
   * deadline ascending) returns for `owner`.
   */
  predicate LoadedFor(tasks: seq<Task>, owner: UserId) {
    OwnedBy(tasks, owner) && SortedByDeadline(tasks)
  }

  /** `sub` is `s` with some elements removed and the rest in their order. */
  predicate IsSubsequence<T(==)>(sub: seq<T>, s: seq<T>)
    decreases |s|
  {
    if sub == [] then true
    else if s == [] then false
    else if sub[0] == s[0] then IsSubsequence(sub[1..], s[1..])
    else IsSubsequence(sub, s[1..])
  }

  /** Dropping elements keeps every remaining one an element of the whole. */
  lemma {:induction false} SubsequenceMembers<T>(sub: seq<T>, s: seq<T>)
    requires IsSubsequence(sub, s)
    ensures forall x :: x in sub ==> x in s
    decreases |s|
  {
    if sub != [] && s != [] {
      if sub[0] == s[0] {
        SubsequenceMembers(sub[1..], s[1..]);
        assert sub == [sub[0]] + sub[1..];
        assert s == [s[0]] + s[1..];
      } else {
        SubsequenceMembers(sub, s[1..]);
        assert s == [s[0]] + s[1..];
      }
    }
  }

  /** A subsequence of a deadline-ordered list is deadline-ordered. */
  lemma {:induction false} SubsequenceKeepsOrder(sub: seq<Task>, s: seq<Task>)
    requires IsSubsequence(sub, s)
    requires SortedByDeadline(s)
    ensures SortedByDeadline(sub)
    decreases |s|
  {
    if sub != [] && s != [] {
      assert SortedByDeadline(s[1..]);
      if sub[0] == s[0] {
        SubsequenceKeepsOrder(sub[1..], s[1..]);
        SubsequenceMembers(sub[1..], s[1..]);
        forall j | 0 < j < |sub| ensures sub[0].deadline <= sub[j].deadline {
          assert sub[j] in s[1..];
        }
      } else {
        SubsequenceKeepsOrder(sub, s[1..]);
      }
    }
  }

  /** A subsequence of a list owned by one user is owned by that user. */
  lemma SubsequenceKeepsOwner(sub: seq<Task>, s: seq<Task>, owner: UserId)
    requires IsSubsequence(sub, s)
    requires OwnedBy(s, owner)
    ensures OwnedBy(sub, owner)
  {
  }
}
