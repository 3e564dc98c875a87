/** The server's document store: users, tasks and notifications, each a
    collection keyed by a generated id. The controllers read and update these
    records in place; Database holds the three collections as maps and hands
    out fresh ids the way the document store generates new ObjectIds. */
module Store {
  import opened Optional
  import opened Calendar

  type UserId = nat
  type TaskId = nat
  type NotificationId = nat

  /** One entry of a user's social links: its shown text (the record's `label` field) and its address. */
  datatype Link = Link(labelText: string, url: string)

  datatype User = User(
    name: string,
    email: string,
    picture: Option<string>,
    role: string,
    status: string,
    tasks: seq<TaskId>,
    socialLinks: seq<Link>)

  /** A task as stored; the deadline is a calendar day, or None when the
      stored value is missing or not a date. */
  datatype Task = Task(
    name: string,
    instructions: string,
    deadline: Option<Day>,
    category: string,
    assignedTo: UserId,
    status: string,
    proofUrl: Option<string>)

  datatype Notification = Notification(
    userId: UserId,
    title: string,
    message: string,
    kind: string,
    relatedTask: TaskId)

  /** What a handler answers: HTTP status code, the success flag and the message. */
  datatype Response = Response(code: int, success: bool, message: string)

  /** JavaScript truthiness of an optional string: present and non-empty. */
  predicate Truthy(s: Option<string>) {
    s.Some? && s.value != ""
  }

  /** No two users share an email address. */
  ghost predicate UniqueEmails(users: map<UserId, User>) {
    forall a, b :: a in users && b in users && users[a].email == users[b].email ==> a == b
  }

  /** Some user already has this email address. */
  predicate EmailTaken(users: map<UserId, User>, email: string) {
    exists id :: id in users && users[id].email == email
  }

  predicate IsAdmin(users: map<UserId, User>, id: UserId) {
    id in users && users[id].role == "admin"
  }

  /** The tasks a list of task ids refers to, in list order; ids with no
      stored task are skipped, as populating a reference list does. */
  function Populate(ids: seq<TaskId>, tasks: map<TaskId, Task>): (r: seq<Task>)
    ensures |r| <= |ids|
    ensures forall t :: t in r ==> exists k :: 0 <= k < |ids| && ids[k] in tasks && tasks[ids[k]] == t
    decreases |ids|
  {
    if ids == [] then []
    else
      var rest := Populate(ids[1..], tasks);
      assert forall t :: t in rest ==> exists k :: 0 <= k < |ids| && ids[k] in tasks && tasks[ids[k]] == t by {
        forall t | t in rest ensures exists k :: 0 <= k < |ids| && ids[k] in tasks && tasks[ids[k]] == t {
          var j :| 0 <= j < |ids| - 1 && ids[1..][j] in tasks && tasks[ids[1..][j]] == t;
          assert ids[j + 1] == ids[1..][j];
        }
      }
      if ids[0] in tasks then [tasks[ids[0]]] + rest else rest
  }

  /** When every id refers to a stored task, populating loses nothing and keeps the order. */
  lemma {:induction false} PopulateComplete(ids: seq<TaskId>, tasks: map<TaskId, Task>)
    requires forall k :: 0 <= k < |ids| ==> ids[k] in tasks
    ensures |Populate(ids, tasks)| == |ids|
    ensures forall k :: 0 <= k < |ids| ==> Populate(ids, tasks)[k] == tasks[ids[k]]
    decreases |ids|
  {
    if ids != [] {
      PopulateComplete(ids[1..], tasks);
    }
  }

  /** The store's invariant: ids are fresh, emails are unique and every task
      id a user lists refers to a stored task. */
  ghost predicate ValidState(users: map<UserId, User>, tasks: map<TaskId, Task>,
                             notifications: map<NotificationId, Notification>, nextId: nat) {
    && (forall id :: id in users ==> id < nextId)
    && (forall id :: id in tasks ==> id < nextId)
    && (forall id :: id in notifications ==> id < nextId)
    && UniqueEmails(users)
    && (forall u, k :: u in users && 0 <= k < |users[u].tasks| ==> users[u].tasks[k] in tasks)
  }

  class Database {
    var users: map<UserId, User>
    var tasks: map<TaskId, Task>
    var notifications: map<NotificationId, Notification>
    /** Every id handed out so far is below this one. */
    var nextId: nat

    ghost predicate Valid()
      reads this
    {
      ValidState(users, tasks, notifications, nextId)
    }

    constructor ()
      ensures Valid()
      ensures users == map[] && tasks == map[] && notifications == map[]
    {
      users, tasks, notifications, nextId := map[], map[], map[], 0;
    }

    /** A fresh id, as the store generates one for every new document. */
    method NewId() returns (id: nat)
      requires Valid()
      modifies this`nextId
      ensures Valid()
      ensures id == old(nextId) && nextId == id + 1
      ensures id !in users && id !in tasks && id !in notifications
    {
      id := nextId;
      nextId := nextId + 1;
    }
  }
}
