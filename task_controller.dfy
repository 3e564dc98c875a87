/** The task handlers of the server (server/controller/taskController.js):
    an admin assigns a task to a user, a user submits image proof for a task,
    and the proof can be withdrawn again. Each handler is one atomic step on
    the Database; its answer is a Response. The requester is the user id the
    authentication middleware attached to the request. */
module TaskController {
  import opened Optional
  import opened Calendar
  import opened Store
  import Base64

  /** The fields of an add-task request body. A string field that is empty
      and an optional field that is None are missing (falsy). */
  datatype TaskRequest = TaskRequest(
    name: string,
    instructions: string,
    deadline: Option<Day>,
    category: string,
    assignedTo: Option<UserId>)

  /** An uploaded file as the handler sees it: its MIME type and its bytes. */
  datatype Upload = Upload(mimetype: string, bytes: seq<Base64.Byte>)

  predicate HasAllFields(req: TaskRequest) {
    req.name != "" && req.instructions != "" && req.deadline.Some? && req.category != "" && req.assignedTo.Some?
  }

  /** The task a complete request creates. */
  function NewTask(req: TaskRequest): (t: Task)
    requires HasAllFields(req)
    ensures t.status == "pending" && t.proofUrl == None
    ensures t.name == req.name && t.instructions == req.instructions && t.deadline == req.deadline
    ensures t.category == req.category && t.assignedTo == req.assignedTo.value
  {
    Task(req.name, req.instructions, req.deadline, req.category, req.assignedTo.value, "pending", None)
  }

  const AssignedPrefix := "You have been assigned to a new task: "

  /** The notification that tells the assignee about a new task. */
  function AssignedNotice(req: TaskRequest, task: TaskId): (n: Notification)
    requires HasAllFields(req)
    ensures n.userId == req.assignedTo.value && n.relatedTask == task && n.kind == "task_assigned"
    ensures |n.message| == |AssignedPrefix| + |req.name|
    ensures n.message[..|AssignedPrefix|] == AssignedPrefix && n.message[|AssignedPrefix|..] == req.name
  {
    Notification(req.assignedTo.value, "New Task Assigned", AssignedPrefix + req.name, "task_assigned", task)
  }

  /** The assignee's record with the new task id at the end of its list. */
  function WithTask(u: User, task: TaskId): (r: User)
    ensures |r.tasks| == |u.tasks| + 1 && r.tasks[..|u.tasks|] == u.tasks && r.tasks[|u.tasks|] == task
    ensures r.(tasks := u.tasks) == u
  {
    u.(tasks := u.tasks + [task])
  }

  /** The data URL under which a proof image is stored. */
  function ProofUrl(file: Upload): (url: string)
    ensures |url| == 13 + |file.mimetype| + |Base64.Encode(file.bytes)|
    ensures url[..5] == "data:" && url[5..5 + |file.mimetype|] == file.mimetype
    ensures url[5 + |file.mimetype| .. 13 + |file.mimetype|] == ";base64,"
    ensures url[13 + |file.mimetype|..] == Base64.Encode(file.bytes)
  {
    "data:" + file.mimetype + ";base64," + Base64.Encode(file.bytes)
  }

  /** The text after the last ',' of s (all of s if it has none). */
  function AfterLastComma(s: string): (r: string)
    ensures |r| <= |s| && r == s[|s| - |r|..]
    ensures forall k :: 0 <= k < |r| ==> r[k] != ','
  {
    if s == [] then []
    else if s[|s| - 1] == ',' then []
    else AfterLastComma(s[..|s| - 1]) + [s[|s| - 1]]
  }

  /** The image bytes a proof data URL carries: base64 after the last comma. */
  function ProofImage(url: string): Option<seq<Base64.Byte>> {
    Base64.Decode(AfterLastComma(url))
  }

  lemma {:induction false} AfterLastCommaOf(p: string, t: string)
    requires |p| > 0 && p[|p| - 1] == ','
    requires forall k :: 0 <= k < |t| ==> t[k] != ','
    ensures AfterLastComma(p + t) == t
    decreases |t|
  {
    if t == [] {
      assert p + t == p;
    } else {
      var s := p + t;
      assert s[..|s| - 1] == p + t[..|t| - 1];
      AfterLastCommaOf(p, t[..|t| - 1]);
      assert t == t[..|t| - 1] + [t[|t| - 1]];
    }
  }

  /** A stored proof decodes back to exactly the uploaded bytes, whatever the MIME type. */
  lemma ProofImageOfProofUrl(file: Upload)
    ensures ProofImage(ProofUrl(file)) == Some(file.bytes)
  {
    var p := "data:" + file.mimetype + ";base64,";
    var e := Base64.Encode(file.bytes);
    Base64.EncodeAlphabet(file.bytes);
    assert ProofUrl(file) == p + e;
    AfterLastCommaOf(p, e);
    Base64.DecodeEncode(file.bytes);
  }

  /** The task after a proof is attached: submitted, with the proof's data URL. */
  function WithProof(t: Task, file: Upload): (r: Task)
    ensures r.status == "submitted" && Truthy(r.proofUrl)
    ensures ProofImage(r.proofUrl.value) == Some(file.bytes)
    ensures r.(status := t.status, proofUrl := t.proofUrl) == t
  {
    ProofImageOfProofUrl(file);
    t.(proofUrl := Some(ProofUrl(file)), status := "submitted")
  }

  /** The task after its proof is removed: a task with a proof goes back to
      pending without it, any other task stays as it is. */
  function WithoutProof(t: Task): (r: Task)
    ensures !Truthy(r.proofUrl)
    ensures Truthy(t.proofUrl) ==> r.status == "pending" && r.proofUrl == None
    ensures !Truthy(t.proofUrl) ==> r == t
    ensures r.(status := t.status, proofUrl := t.proofUrl) == t
  {
    if Truthy(t.proofUrl) then t.(proofUrl := None, status := "pending") else t
  }

  /** Removing a proof twice is the same as removing it once. */
  lemma WithoutProofIdempotent(t: Task)
    ensures WithoutProof(WithoutProof(t)) == WithoutProof(t)
  {
  }

  /** Removing a proof just uploaded leaves the task pending with no proof
      and otherwise as it was before the upload. */
  lemma WithoutProofUndoesUpload(t: Task, file: Upload)
    ensures WithoutProof(WithProof(t, file)) == t.(status := "pending", proofUrl := None)
  {
  }

  /** addTask: only an admin may create a task, every field is required, and
      the new pending task is appended to its assignee's list and announced
      to the assignee. An assignee id with no user record still gets the task
      and the notification; no user changes then. */
  method AddTask(db: Database, requester: UserId, req: TaskRequest) returns (resp: Response)
    requires db.Valid()
    modifies db
    ensures db.Valid()
    ensures !IsAdmin(old(db.users), requester) ==>
              resp == Response(403, false, "Not authorized (addTask)") && unchanged(db)
    ensures IsAdmin(old(db.users), requester) && !HasAllFields(req) ==>
              resp == Response(403, false, "Missing information (addTask)") && unchanged(db)
    ensures IsAdmin(old(db.users), requester) && HasAllFields(req) ==>
              var id, assignee := old(db.nextId), req.assignedTo.value;
              && resp == Response(200, true, "Task created")
              && id !in old(db.tasks) && id + 1 !in old(db.notifications)
              && db.tasks == old(db.tasks)[id := NewTask(req)]
              && db.users == (if assignee in old(db.users)
                              then old(db.users)[assignee := WithTask(old(db.users)[assignee], id)]
                              else old(db.users))
              && db.notifications == old(db.notifications)[id + 1 := AssignedNotice(req, id)]
              && db.nextId == id + 2
  {
    if !IsAdmin(db.users, requester) {
      return Response(403, false, "Not authorized (addTask)");
    }
    if !HasAllFields(req) {
      return Response(403, false, "Missing information (addTask)");
    }
    var id := CreateTask(db, req);
    resp := Response(200, true, "Task created");
  }

  /** The part of addTask past its guards: the task is stored, its id goes
      to the end of the assignee's task list, and the assignee is notified. */
  method CreateTask(db: Database, req: TaskRequest) returns (id: TaskId)
    requires db.Valid() && HasAllFields(req)
    modifies db
    ensures db.Valid()
    ensures id == old(db.nextId) && id !in old(db.tasks) && id + 1 !in old(db.notifications)
    ensures db.tasks == old(db.tasks)[id := NewTask(req)]
    ensures var assignee := req.assignedTo.value;
            db.users == (if assignee in old(db.users)
                         then old(db.users)[assignee := WithTask(old(db.users)[assignee], id)]
                         else old(db.users))
    ensures db.notifications == old(db.notifications)[id + 1 := AssignedNotice(req, id)]
    ensures db.nextId == id + 2
  {
    id := db.NewId();
    var nid := db.NewId();
    var assignee := req.assignedTo.value;
    var users := db.users;
    if assignee in users {
      users := users[assignee := WithTask(users[assignee], id)];
    }
    CreateKeepsValid(db.users, db.tasks, db.notifications, id, req);
    db.tasks, db.users, db.notifications := db.tasks[id := NewTask(req)], users, db.notifications[nid := AssignedNotice(req, id)];
  }

  /** Storing the task, listing it with its assignee and storing the notice
      under the next two fresh ids keeps the store's invariant. */
  lemma CreateKeepsValid(users: map<UserId, User>, tasks: map<TaskId, Task>,
                         notifications: map<NotificationId, Notification>, id: nat, req: TaskRequest)
    requires ValidState(users, tasks, notifications, id) && HasAllFields(req)
    ensures var a := req.assignedTo.value;
            ValidState(if a in users then users[a := WithTask(users[a], id)] else users,
                       tasks[id := NewTask(req)], notifications[id + 1 := AssignedNotice(req, id)], id + 2)
  {
    var a := req.assignedTo.value;
    var users' := if a in users then users[a := WithTask(users[a], id)] else users;
    var tasks' := tasks[id := NewTask(req)];
    forall u, k | u in users' && 0 <= k < |users'[u].tasks|
      ensures users'[u].tasks[k] in tasks'
    {
      if u == a && k < |users[a].tasks| {
        assert users'[u].tasks[k] == users[a].tasks[k];
      }
    }
    assert forall u :: u in users' ==> users'[u].email == users[u].email;
  }

  /** getTasks: the requester's tasks in the order of their task list. */
  method GetTasks(db: Database, requester: UserId) returns (resp: Response, tasks: seq<Task>)
    ensures requester !in db.users ==> resp == Response(404, false, "User not found") && tasks == []
    ensures requester in db.users ==>
              && resp == Response(200, true, "Tasks fetched successfully")
              && tasks == Populate(db.users[requester].tasks, db.tasks)
    ensures requester in db.users && db.Valid() ==>
              var ids := db.users[requester].tasks;
              |tasks| == |ids| && forall k :: 0 <= k < |ids| ==> tasks[k] == db.tasks[ids[k]]
  {
    if requester !in db.users {
      return Response(404, false, "User not found"), [];
    }
    var ids := db.users[requester].tasks;
    tasks := Populate(ids, db.tasks);
    if db.Valid() {
      PopulateComplete(ids, db.tasks);
    }
    resp := Response(200, true, "Tasks fetched successfully");
  }

  /** updateTaskStatus: an admin sets a task's status to any value; nothing
      checks the value, and a missing task still answers success with no task. */
  method UpdateTaskStatus(db: Database, requester: UserId, id: TaskId, status: string)
    returns (resp: Response, task: Option<Task>)
    requires db.Valid()
    modifies db
    ensures db.Valid()
    ensures db.nextId == old(db.nextId)
    ensures !IsAdmin(old(db.users), requester) ==>
              resp == Response(403, false, "Not authorized") && task == None && unchanged(db)
    ensures IsAdmin(old(db.users), requester) ==>
              && resp == Response(200, true, "")
              && db.users == old(db.users) && db.notifications == old(db.notifications)
              && (id in old(db.tasks) ==>
                    db.tasks == old(db.tasks)[id := old(db.tasks)[id].(status := status)] && task == Some(db.tasks[id]))
              && (id !in old(db.tasks) ==> db.tasks == old(db.tasks) && task == None)
  {
    if !IsAdmin(db.users, requester) {
      return Response(403, false, "Not authorized"), None;
    }
    task := None;
    if id in db.tasks {
      db.tasks := db.tasks[id := db.tasks[id].(status := status)];
      task := Some(db.tasks[id]);
    }
    resp := Response(200, true, "");
  }

  /** uploadProof: any known user may attach an image to any existing task;
      the task becomes submitted and stores the image as a data URL. */
  method UploadProof(db: Database, requester: UserId, id: TaskId, file: Option<Upload>) returns (resp: Response)
    requires db.Valid()
    modifies db
    ensures db.Valid()
    ensures db.nextId == old(db.nextId)
    ensures db.users == old(db.users) && db.notifications == old(db.notifications)
    ensures requester !in old(db.users) ==>
              resp == Response(404, false, "User not found") && db.tasks == old(db.tasks)
    ensures requester in old(db.users) && id !in old(db.tasks) ==>
              resp == Response(404, false, "Task not found") && db.tasks == old(db.tasks)
    ensures requester in old(db.users) && id in old(db.tasks) && file == None ==>
              resp == Response(400, false, "No file uploaded") && db.tasks == old(db.tasks)
    ensures requester in old(db.users) && id in old(db.tasks) && file.Some? ==>
              && resp == Response(200, true, "Proof uploaded")
              && db.tasks == old(db.tasks)[id := WithProof(old(db.tasks)[id], file.value)]
  {
    if requester !in db.users {
      return Response(404, false, "User not found");
    }
    if id !in db.tasks {
      return Response(404, false, "Task not found");
    }
    if file.Some? {
      db.tasks := db.tasks[id := WithProof(db.tasks[id], file.value)];
      resp := Response(200, true, "Proof uploaded");
    } else {
      resp := Response(400, false, "No file uploaded");
    }
  }

  /** removeProof: clears a task's proof and sets it back to pending; a task
      without a proof is left alone, and both answer success. */
  method RemoveProof(db: Database, requester: UserId, id: TaskId) returns (resp: Response)
    requires db.Valid()
    modifies db
    ensures db.Valid()
    ensures db.nextId == old(db.nextId)
    ensures db.users == old(db.users) && db.notifications == old(db.notifications)
    ensures requester !in old(db.users) ==>
              resp == Response(404, false, "User not found") && db.tasks == old(db.tasks)
    ensures requester in old(db.users) && id !in old(db.tasks) ==>
              resp == Response(404, false, "Task not found") && db.tasks == old(db.tasks)
    ensures requester in old(db.users) && id in old(db.tasks) ==>
              && resp == Response(200, true, "Proof removed")
              && db.tasks == old(db.tasks)[id := WithoutProof(old(db.tasks)[id])]
  {
    if requester !in db.users {
      return Response(404, false, "User not found");
    }
    if id !in db.tasks {
      return Response(404, false, "Task not found");
    }
    if Truthy(db.tasks[id].proofUrl) {
      db.tasks := db.tasks[id := WithoutProof(db.tasks[id])];
    }
    resp := Response(200, true, "Proof removed");
  }
}
