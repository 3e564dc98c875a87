/** The user handlers of the server (server/controller/userController.js):
    inviting users, the session check, the student list, profile updates,
    an admin's view of one user's tasks and the profile picture. */
module UserController {
  import opened Optional
  import opened Store

  /** The record addUsers creates: invited, with no tasks and no links yet. */
  function Invited(name: string, email: string, role: string, picture: Option<string>): (u: User)
    ensures u.name == name && u.email == email && u.role == role && u.picture == picture
    ensures u.status == "invited" && u.tasks == [] && u.socialLinks == []
  {
    User(name, email, picture, role, "invited", [], [])
  }

  /** The profile after an update: a non-empty name replaces the old one, a
      supplied link list (even an empty one) replaces the old list, and the
      rest of the record stays. */
  function UpdatedProfile(u: User, name: string, socialLinks: Option<seq<Link>>): (r: User)
    ensures r.name == (if name != "" then name else u.name)
    ensures r.socialLinks == (if socialLinks.Some? then socialLinks.value else u.socialLinks)
    ensures r.(name := u.name, socialLinks := u.socialLinks) == u
  {
    var named := if name != "" then u.(name := name) else u;
    if socialLinks.Some? then named.(socialLinks := socialLinks.value) else named
  }

  /** Updating with nothing to change leaves the profile as it was. */
  lemma UpdatedProfileNoChange(u: User)
    ensures UpdatedProfile(u, "", None) == u
  {
  }

  /** Updating twice with the same values is the same as updating once. */
  lemma UpdatedProfileIdempotent(u: User, name: string, socialLinks: Option<seq<Link>>)
    ensures UpdatedProfile(UpdatedProfile(u, name, socialLinks), name, socialLinks) == UpdatedProfile(u, name, socialLinks)
  {
  }

  const UploadsPrefix := "/uploads/"

  /** The path under which an uploaded picture is served. */
  function PicturePath(filename: string): (p: string)
    ensures |p| == |UploadsPrefix| + |filename|
    ensures p[..|UploadsPrefix|] == UploadsPrefix && p[|UploadsPrefix|..] == filename
  {
    UploadsPrefix + filename
  }

  /** The students among the users, with their records. */
  function Students(users: map<UserId, User>): (r: map<UserId, User>)
    ensures forall id :: id in r <==> id in users && users[id].role == "student"
    ensures forall id :: id in r ==> r[id] == users[id]
  {
    map id | id in users && users[id].role == "student" :: users[id]
  }

  /** addUsers: name, email and role are required, an email may be used by
      one user only, and a new user starts out invited. Both failures answer
      with status 200 and success false. */
  method AddUsers(db: Database, name: string, email: string, role: string, picture: Option<string>)
    returns (resp: Response)
    requires db.Valid()
    modifies db
    ensures db.Valid()
    ensures db.tasks == old(db.tasks) && db.notifications == old(db.notifications)
    ensures (name == "" || email == "" || role == "") ==>
              resp == Response(200, false, "Missing details") && db.users == old(db.users) && db.nextId == old(db.nextId)
    ensures name != "" && email != "" && role != "" && EmailTaken(old(db.users), email) ==>
              resp == Response(200, false, "User already exists!") && db.users == old(db.users) && db.nextId == old(db.nextId)
    ensures name != "" && email != "" && role != "" && !EmailTaken(old(db.users), email) ==>
              && resp == Response(200, true, "User added successfully")
              && old(db.nextId) !in old(db.users)
              && db.users == old(db.users)[old(db.nextId) := Invited(name, email, role, picture)]
              && db.nextId == old(db.nextId) + 1
  {
    if name == "" || email == "" || role == "" {
      return Response(200, false, "Missing details");
    }
    if EmailTaken(db.users, email) {
      return Response(200, false, "User already exists!");
    }
    var id := db.NewId();
    db.users := db.users[id := Invited(name, email, role, picture)];
    resp := Response(200, true, "User added successfully");
  }

  /** isAuth: succeeds, with the user's record, exactly when the requester is a stored user. */
  method IsAuth(db: Database, requester: UserId) returns (resp: Response, user: Option<User>)
    ensures resp.success <==> requester in db.users
    ensures resp.code == 200
    ensures requester in db.users ==> resp.message == "Found user (isAuth)" && user == Some(db.users[requester])
    ensures requester !in db.users ==> resp.message == "User not found" && user == None
  {
    if requester !in db.users {
      return Response(200, false, "User not found"), None;
    }
    return Response(200, true, "Found user (isAuth)"), Some(db.users[requester]);
  }

  /** getUserList: every user whose role is student, and no one else. */
  method GetUserList(db: Database) returns (resp: Response, students: map<UserId, User>)
    ensures resp == Response(200, true, "")
    ensures forall id :: id in students <==> id in db.users && db.users[id].role == "student"
    ensures forall id :: id in students ==> students[id] == db.users[id]
  {
    students := Students(db.users);
    resp := Response(200, true, "");
  }

  /** updateUserInfo: the requester edits their own name and social links. */
  method UpdateUserInfo(db: Database, requester: UserId, name: string, socialLinks: Option<seq<Link>>)
    returns (resp: Response)
    requires db.Valid()
    modifies db
    ensures db.Valid()
    ensures db.nextId == old(db.nextId)
    ensures db.tasks == old(db.tasks) && db.notifications == old(db.notifications)
    ensures requester !in old(db.users) ==>
              resp == Response(404, false, "No user found") && db.users == old(db.users)
    ensures requester in old(db.users) ==>
              && resp == Response(200, true, "Update information successfully")
              && db.users == old(db.users)[requester := UpdatedProfile(old(db.users)[requester], name, socialLinks)]
  {
    if requester !in db.users {
      return Response(404, false, "No user found");
    }
    db.users := db.users[requester := UpdatedProfile(db.users[requester], name, socialLinks)];
    resp := Response(200, true, "Update information successfully");
  }

  /** getTasksForUser: an admin reads another user's tasks in list order. */
  method GetTasksForUser(db: Database, requester: UserId, target: UserId) returns (resp: Response, tasks: seq<Task>)
    ensures !IsAdmin(db.users, requester) ==> resp == Response(403, false, "Not authorized") && tasks == []
    ensures IsAdmin(db.users, requester) && target !in db.users ==>
              resp == Response(404, false, "User not found") && tasks == []
    ensures IsAdmin(db.users, requester) && target in db.users ==>
              && resp == Response(200, true, "")
              && tasks == Populate(db.users[target].tasks, db.tasks)
    ensures IsAdmin(db.users, requester) && target in db.users && db.Valid() ==>
              var ids := db.users[target].tasks;
              |tasks| == |ids| && forall k :: 0 <= k < |ids| ==> tasks[k] == db.tasks[ids[k]]
  {
    if !IsAdmin(db.users, requester) {
      return Response(403, false, "Not authorized"), [];
    }
    if target !in db.users {
      return Response(404, false, "User not found"), [];
    }
    var ids := db.users[target].tasks;
    tasks := Populate(ids, db.tasks);
    if db.Valid() {
      PopulateComplete(ids, db.tasks);
    }
    resp := Response(200, true, "");
  }

  /** uploadPicture: the requester's picture becomes the uploaded file's
      path. A request without a file fails when the handler reads the file
      name, and ends in the error answer. */
  method UploadPicture(db: Database, requester: UserId, filename: Option<string>) returns (resp: Response)
    requires db.Valid()
    modifies db
    ensures db.Valid()
    ensures db.nextId == old(db.nextId)
    ensures db.tasks == old(db.tasks) && db.notifications == old(db.notifications)
    ensures requester !in old(db.users) ==>
              resp == Response(404, false, "User not found") && db.users == old(db.users)
    ensures requester in old(db.users) && filename == None ==>
              resp == Response(500, false, "Error in uploadPicture") && db.users == old(db.users)
    ensures requester in old(db.users) && filename.Some? ==>
              && resp == Response(200, true, "")
              && db.users == old(db.users)[requester := old(db.users)[requester].(picture := Some(PicturePath(filename.value)))]
  {
    if requester !in db.users {
      return Response(404, false, "User not found");
    }
    if filename == None {
      return Response(500, false, "Error in uploadPicture");
    }
    db.users := db.users[requester := db.users[requester].(picture := Some(PicturePath(filename.value)))];
    resp := Response(200, true, "");
  }
}
