/**
 The thread controller's permission checks, its thread view and its three
 actions (add a post, delete a post, delete a thread).

 The persistence layer is abstracted away: the controller's thread model is
 a loaded flag and an id, the posts the ORM can load are a map from post id
 to record, and every write the controller asks for is an `Effect` listed in
 the order it is issued. Each action is a pure function from the request and
 that state to the status it records, the error text it records and the
 effects it performs.
 */
module Thread {
  import opened Wrappers
  import Response

  // ---------------------------------------------------------------------
  // Session and permissions

  datatype Permission = UseThreads | OtherPermission(name: string)

  datatype User = User(userId: int, languageId: int, permissions: set<Permission>)

  datatype Session = Session(loggedIn: bool, user: User)

  /** `permission_view_thread`: the user is logged in and holds the
      thread permission. */
  predicate PermissionViewThread(s: Session) {
    s.loggedIn && UseThreads in s.user.permissions
  }

  predicate PermissionActionAddPost(s: Session) {
    PermissionViewThread(s)
  }

  predicate PermissionActionDeletePost(s: Session) {
    PermissionViewThread(s)
  }

  predicate PermissionActionDeleteThread(s: Session) {
    PermissionViewThread(s)
  }

  /** All three actions are gated by the same predicate as the thread view,
      and that predicate is "logged in and holds the thread permission". */
  lemma ActionsShareViewPermission(s: Session)
    ensures PermissionViewThread(s) <==> s.loggedIn && UseThreads in s.user.permissions
    ensures PermissionActionAddPost(s) == PermissionViewThread(s)
    ensures PermissionActionDeletePost(s) == PermissionViewThread(s)
    ensures PermissionActionDeleteThread(s) == PermissionViewThread(s)
  {
  }

  // ---------------------------------------------------------------------
  // Abstract persistent state and the request

  /** The controller's thread model: whether a thread record is loaded, and
      the `thread_id` it reports. */
  datatype ThreadModel = ThreadModel(loaded: bool, threadId: int)

  /** A post record as far as the controller reads it. */
  datatype PostRecord = PostRecord(threadId: int)

  /** The request fields the actions read. `post` and `threadTitle` are
      None when the field is not set; `postId` and `threadId` are None when
      the field is missing or not numeric. */
  datatype Request = Request(
    post: Option<string>,
    threadTitle: Option<string>,
    postId: Option<int>,
    threadId: Option<int>)

  /** The writes the controller asks the persistence layer and the parent
      controller to perform. */
  datatype Effect =
    | CreateThread(title: Option<string>, newId: int)
    | SpawnParent(threadId: int)
    | SavePost(threadId: int, languageId: int, ownerId: int, text: string)
    | DeletePost(postId: int)
    | DeleteParent
    | SoftDeletePosts(threadId: int)
    | DeleteThread(threadId: int)

  /** What an action records with `respond` (its name, the `status` and the
      `errors` text of the recorded array), the writes it performed, and the
      controller's thread model once it has run. */
  datatype Outcome = Outcome(
    key: string,
    status: int,
    errors: Option<string>,
    effects: seq<Effect>,
    thread: ThreadModel)

  const BadRequest: int := 400
  const NotFound: int := 404
  const Ok: int := 200

  const AddPostKey: string := "add_post"
  const DeletePostKey: string := "delete_post"
  const DeleteThreadKey: string := "delete_thread"

  const NoPostData: string := "No post data set"
  const NoPostId: string := "You must supply a post ID"
  const NoThreadId: string := "You must supply a thread ID"
  const WentWrong: string := "Something went wrong"

  // ---------------------------------------------------------------------
  // The decision ladder

  /** The ladder every action climbs: a malformed request is a 400, a record
      that is missing or belongs elsewhere is a 404, anything else is a 200. */
  function Ladder(malformed: bool, missing: bool): (status: int)
    ensures status == BadRequest <==> malformed
    ensures status == NotFound <==> !malformed && missing
    ensures status == Ok <==> !malformed && !missing
  {
    if malformed then BadRequest else if missing then NotFound else Ok
  }

  // ---------------------------------------------------------------------
  // view_thread

  /** The body of the thread view: the literal `[]` when no thread is
      loaded, otherwise the thread's id and the post rows the view's query
      returned. */
  datatype ThreadPage = NoThread | Page(threadId: int, posts: seq<PostRecord>)

  datatype ThreadView = ThreadView(contentType: string, page: ThreadPage)

  /** `view_thread`. `rows` are the rows of the post query (the posts of the
      thread that are not deleted, by creation date), which this model takes
      as given. */
  function ViewThread(thread: ThreadModel, rows: seq<PostRecord>): (r: ThreadView)
    ensures r.contentType == Response.JsonContentType
    ensures r.page == NoThread <==> !thread.loaded
    ensures thread.loaded ==> r.page.threadId == thread.threadId && r.page.posts == rows
  {
    ThreadView(Response.JsonContentType,
      if !thread.loaded then NoThread else Page(thread.threadId, rows))
  }

  // ---------------------------------------------------------------------
  // action_add_post

  /** PHP's `!$post || $post == ''`: the field is unset, or holds one of the
      strings PHP treats as false ("" and "0"). */
  predicate PostMissing(post: Option<string>) {
    post.None? || post.value == "" || post.value == "0"
  }

  /** `action_add_post`. `parentLoaded` is whether the parent controller's
      model is loaded; `freshId` is the id the store gives a thread created
      here. */
  function AddPost(req: Request, s: Session, parentLoaded: bool, thread: ThreadModel, freshId: int): (r: Outcome)
    ensures r.key == AddPostKey
    ensures r.status == Ladder(PostMissing(req.post), false)
    ensures r.status == BadRequest ==> r.effects == [] && r.errors == Some(NoPostData) && r.thread == thread
    ensures r.status == Ok ==>
      && r.errors == None
      // one optional thread creation, one optional parent spawn, one post save, nothing else
      && |r.effects| == (if !parentLoaded && !thread.loaded then 1 else 0) + (if !parentLoaded then 1 else 0) + 1
      && (forall i :: 0 <= i < |r.effects| ==>
            r.effects[i].CreateThread? || r.effects[i].SpawnParent? || r.effects[i].SavePost?)
      // exactly one post is saved, last, with the request's text and the user's ids
      && r.effects[|r.effects| - 1].SavePost?
      && r.effects[|r.effects| - 1].languageId == s.user.languageId
      && r.effects[|r.effects| - 1].ownerId == s.user.userId
      && r.effects[|r.effects| - 1].text == req.post.value
      && (forall i :: 0 <= i < |r.effects| - 1 ==> !r.effects[i].SavePost?)
      // a thread is created, first, exactly when neither parent nor thread is loaded,
      // and the post is bound to it
      && ((!parentLoaded && !thread.loaded) <==> (exists i :: 0 <= i < |r.effects| && r.effects[i].CreateThread?))
      && (!parentLoaded && !thread.loaded ==>
            r.effects[0] == CreateThread(req.threadTitle, freshId)
            && r.effects[|r.effects| - 1].threadId == freshId)
      // otherwise the post is bound to the controller's thread
      && (parentLoaded || thread.loaded ==> r.effects[|r.effects| - 1].threadId == thread.threadId)
      // the parent is spawned for the post's thread exactly when it was not loaded
      && (!parentLoaded <==> SpawnParent(r.effects[|r.effects| - 1].threadId) in r.effects)
      && (parentLoaded ==> forall i :: 0 <= i < |r.effects| ==> !r.effects[i].SpawnParent?)
      // the controller's model is the created thread afterwards, and the post is bound to it
      && (!parentLoaded && !thread.loaded ==> r.thread == ThreadModel(true, freshId))
      && (parentLoaded || thread.loaded ==> r.thread == thread)
      && r.effects[|r.effects| - 1].threadId == r.thread.threadId
  {
    if PostMissing(req.post) then
      Outcome(AddPostKey, BadRequest, Some(NoPostData), [], thread)
    else
      var model := if !parentLoaded && !thread.loaded then ThreadModel(true, freshId) else thread;
      var tid := model.threadId;
      var create := if !parentLoaded && !thread.loaded then [CreateThread(req.threadTitle, freshId)] else [];
      var spawn := if !parentLoaded then [SpawnParent(tid)] else [];
      var save := SavePost(tid, s.user.languageId, s.user.userId, req.post.value);
      var effects := create + spawn + [save];
      assert create != [] ==> effects[0].CreateThread?;
      assert forall i :: 0 <= i < |effects| && effects[i].CreateThread? ==> i < |create|;
      Outcome(AddPostKey, Ok, None, effects, model)
  }

  // ---------------------------------------------------------------------
  // action_delete_post

  /** The post with id `id` is loaded and belongs to the loaded thread. */
  predicate PostInThread(posts: map<int, PostRecord>, id: int, thread: ThreadModel) {
    id in posts && thread.loaded && posts[id].threadId == thread.threadId
  }

  /** `action_delete_post`. `posts` are the post records the store can load,
      by id. */
  function DeletePostAction(req: Request, posts: map<int, PostRecord>, thread: ThreadModel): (r: Outcome)
    ensures r.key == DeletePostKey
    ensures r.status == BadRequest <==> req.postId.None?
    ensures r.status == NotFound <==>
      req.postId.Some? && (req.postId.value !in posts || !thread.loaded
                           || posts[req.postId.value].threadId != thread.threadId)
    ensures r.status == Ok <==> req.postId.Some? && PostInThread(posts, req.postId.value, thread)
    ensures r.status == BadRequest ==> r.errors == Some(NoPostId)
    ensures r.status == NotFound ==> r.errors == Some(WentWrong)
    ensures r.status != Ok ==> r.effects == []
    ensures r.status == Ok ==> r.errors == None && r.effects == [DeletePost(req.postId.value)]
    ensures r.thread == thread
  {
    if req.postId.None? then
      Outcome(DeletePostKey, BadRequest, Some(NoPostId), [], thread)
    else if !PostInThread(posts, req.postId.value, thread) then
      Outcome(DeletePostKey, NotFound, Some(WentWrong), [], thread)
    else
      Outcome(DeletePostKey, Ok, None, [DeletePost(req.postId.value)], thread)
  }

  // ---------------------------------------------------------------------
  // action_delete_thread

  /** `action_delete_thread`. */
  function DeleteThreadAction(req: Request, thread: ThreadModel): (r: Outcome)
    ensures r.key == DeleteThreadKey
    ensures r.status == BadRequest <==> req.threadId.None?
    ensures r.status == NotFound <==>
      req.threadId.Some? && (!thread.loaded || thread.threadId != req.threadId.value)
    ensures r.status == Ok <==> req.threadId == Some(thread.threadId) && thread.loaded
    ensures r.status == BadRequest ==> r.errors == Some(NoThreadId)
    ensures r.status == NotFound ==> r.errors == Some(WentWrong)
    ensures r.status != Ok ==> r.effects == []
    ensures r.status == Ok ==>
      r.errors == None
      && r.effects == [DeleteParent, SoftDeletePosts(req.threadId.value), DeleteThread(req.threadId.value)]
    ensures r.thread == thread
  {
    if req.threadId.None? then
      Outcome(DeleteThreadKey, BadRequest, Some(NoThreadId), [], thread)
    else if !thread.loaded || thread.threadId != req.threadId.value then
      Outcome(DeleteThreadKey, NotFound, Some(WentWrong), [], thread)
    else
      Outcome(DeleteThreadKey, Ok, None,
        [DeleteParent, SoftDeletePosts(thread.threadId), DeleteThread(thread.threadId)], thread)
  }

  // ---------------------------------------------------------------------
  // Properties across the actions

  /** A status that is not 200 never comes with a write, and a 200 always
      comes with at least one, for every action and every input. */
  lemma ErrorsPerformNoWrites(req: Request, s: Session, parentLoaded: bool, thread: ThreadModel,
                              freshId: int, posts: map<int, PostRecord>)
    ensures var r := AddPost(req, s, parentLoaded, thread, freshId);
      r.status in {BadRequest, Ok} && (r.status != Ok <==> r.effects == [])
    ensures var r := DeletePostAction(req, posts, thread);
      r.status in {BadRequest, NotFound, Ok} && (r.status != Ok <==> r.effects == [])
    ensures var r := DeleteThreadAction(req, thread);
      r.status in {BadRequest, NotFound, Ok} && (r.status != Ok <==> r.effects == [])
  {
  }

  /** Every action follows the ladder: its status is the ladder's answer for
      "the id or body is missing" and "the record is missing or foreign". */
  lemma ActionsFollowLadder(req: Request, s: Session, parentLoaded: bool, thread: ThreadModel,
                            freshId: int, posts: map<int, PostRecord>)
    ensures AddPost(req, s, parentLoaded, thread, freshId).status == Ladder(PostMissing(req.post), false)
    ensures DeletePostAction(req, posts, thread).status ==
      Ladder(req.postId.None?, req.postId.Some? && !PostInThread(posts, req.postId.value, thread))
    ensures DeleteThreadAction(req, thread).status ==
      Ladder(req.threadId.None?, req.threadId.Some? && !(thread.loaded && thread.threadId == req.threadId.value))
  {
  }

  /** Recording an action's outcome with `respond` into the response mapping:
      the action's name maps to an array holding its status and error text. */
  function RecordOutcome(p: Response.Payload, r: Outcome): (q: Response.Payload)
    ensures Response.Lookup(q, r.key) == Some(Response.Record(Some(r.status), r.errors))
    ensures forall k :: k != r.key ==> Response.Lookup(q, k) == Response.Lookup(p, k)
  {
    Response.RespondReads(p, r.key, Response.Record(Some(r.status), r.errors));
    Response.Respond(p, r.key, Response.Record(Some(r.status), r.errors))
  }

  /** Once an action has recorded a positive status, the default view sets
      a code at least that high: a 404 from one action is never hidden by a
      200 from another. */
  lemma RecordedStatusIsSurfaced(p: Response.Payload, r: Outcome)
    requires r.status > 0
    ensures var v := Response.ViewDefault(RecordOutcome(p, r));
      v.code.Some? && v.code.value >= r.status
  {
  }

  /** A positive status recorded by one action survives any later outcome
      recorded under another action's name: the default view still sets a
      code at least that high, so a 404 is not hidden by a later 200. (A
      later outcome under the same name replaces the earlier one.) */
  lemma EarlierStatusSurvivesLaterRecord(p: Response.Payload, a: Outcome, b: Outcome)
    requires a.status > 0
    requires a.key != b.key
    ensures var v := Response.ViewDefault(RecordOutcome(RecordOutcome(p, a), b));
      v.code.Some? && v.code.value >= a.status
  {
  }

  /** An action whose outcome is the only entry of the mapping makes the
      default view set exactly that action's status. */
  lemma SingleOutcomeSetsItsStatus(r: Outcome)
    requires r.status > 0
    ensures Response.ViewDefault(RecordOutcome([], r)).code == Some(r.status)
  {
  }

  /** A post added by one action can be deleted by the next one in the same
      request: after a successful `add_post` whose thread model ends up
      loaded, `delete_post` of the saved post finds it in that thread. The
      post store is assumed to hold the saved post under `postId` with the
      thread id of its `SavePost` effect; the store itself is not derived
      from the effects. */
  lemma AddedPostCanBeDeleted(req: Request, s: Session, parentLoaded: bool, thread: ThreadModel,
                              freshId: int, posts: map<int, PostRecord>, postId: int)
    requires !PostMissing(req.post)
    requires thread.loaded || !parentLoaded
    ensures var added := AddPost(req, s, parentLoaded, thread, freshId);
      var saved := added.effects[|added.effects| - 1];
      var deleted := DeletePostAction(Request(None, None, Some(postId), None),
                                      posts[postId := PostRecord(saved.threadId)], added.thread);
      deleted.status == Ok && deleted.effects == [DeletePost(postId)]
  {
  }
}
