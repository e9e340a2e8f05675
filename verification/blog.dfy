/**
  The blog store (users, posts, comments) and its two lifecycle hooks.

  `Post.BeforeCreate` raises the author's `PostCount` before the post row is
  inserted; `Comment.AfterDelete` marks a post "无评论" once its last comment
  is gone. The ORM runs each create and delete, hooks included, inside one
  transaction, so a hook error undoes the whole operation. Timestamps are not
  modelled.
 */
module Blog {
  import opened Wrappers
  import opened UnitOfWork

  /** The column default of `comment_status`: "has comments". */
  const HasComments: string := "有评论"
  /** The status `AfterDelete` writes: "no comments". */
  const NoComments: string := "无评论"

  datatype User = User(id: nat, username: string, email: string, password: string, nickname: string, postCount: int)

  datatype Post = Post(id: nat, title: string, content: string, userId: nat, viewCount: int, commentStatus: string)

  datatype Comment = Comment(id: nat, content: string, postId: nat, userId: nat)

  /** The three tables, each keyed by primary key. */
  datatype Store = Store(users: map<nat, User>, posts: map<nat, Post>, comments: map<nat, Comment>)

  /** Every row is stored under its own id. */
  predicate WellKeyed(s: Store) {
    && (forall k :: k in s.users ==> s.users[k].id == k)
    && (forall k :: k in s.posts ==> s.posts[k].id == k)
    && (forall k :: k in s.comments ==> s.comments[k].id == k)
  }

  /** The id a new row gets: its own when set, otherwise the next value of the
      table's auto-increment counter. */
  function AssignedId(requested: nat, next: nat): nat {
    if requested == 0 then next else requested
  }

  /** The posts written by one user. */
  function PostsBy(posts: map<nat, Post>, userId: nat): set<nat> {
    set k | k in posts && posts[k].userId == userId
  }

  /** The comments that belong to one post. */
  function CommentsOn(comments: map<nat, Comment>, postId: nat): set<nat> {
    set k | k in comments && comments[k].postId == postId
  }

  /** The denormalised counter agrees with the posts table for every user. */
  predicate PostCountsAccurate(s: Store) {
    forall u :: u in s.users ==> s.users[u].postCount == |PostsBy(s.posts, u)|
  }

  /** The foreign keys of the schema: a post's author exists, and a
      comment's post and author exist. */
  predicate ForeignKeysHold(s: Store) {
    && (forall k :: k in s.posts ==> s.posts[k].userId in s.users)
    && (forall k :: k in s.comments ==> s.comments[k].postId in s.posts && s.comments[k].userId in s.users)
  }

  /** Every post without comments reads "无评论". */
  predicate EmptyPostsMarked(s: Store) {
    forall pid :: pid in s.posts && CommentsOn(s.comments, pid) == {} ==> s.posts[pid].commentStatus == NoComments
  }

  // ---------------------------------------------------------------- users

  /** The driver calls of `db.Create(&user)` that can fail. */
  datatype UserStep = UserBegin | UserInsert | UserCommit

  datatype UserError = UserBeginFailed | DuplicateUserId | DuplicateUsername | DuplicateEmail | UserInsertFailed | UserCommitFailed

  /** Inserting a user: the primary key and the unique `username` and `email`
      indexes must be free. `PostCount` is stored as given; left unset it is
      the column default 0. */
  function CreateUser(s: Store, u: User, next: nat, faults: set<UserStep>): (o: Outcome<Store, UserError>)
    ensures o.RolledBack? ==> o.state == s
    ensures o.Committed? <==>
      && faults == {}
      && AssignedId(u.id, next) !in s.users
      && (forall k :: k in s.users ==> s.users[k].username != u.username)
      && (forall k :: k in s.users ==> s.users[k].email != u.email)
    // on commit the new row is stored under its id and nothing else changes
    ensures o.Committed? ==>
      var id := AssignedId(u.id, next);
      && o.state.users.Keys == s.users.Keys + {id}
      && o.state.users[id] == u.(id := id)
      && (forall k :: k in s.users ==> o.state.users[k] == s.users[k])
      && o.state.posts == s.posts
      && o.state.comments == s.comments
  {
    if UserBegin in faults then RolledBack(s, UserBeginFailed)
    else
      var tx := Begin(s);
      var id := AssignedId(u.id, next);
      if id in tx.work.users then Rollback(tx, DuplicateUserId)
      else if exists k :: k in tx.work.users && tx.work.users[k].username == u.username then Rollback(tx, DuplicateUsername)
      else if exists k :: k in tx.work.users && tx.work.users[k].email == u.email then Rollback(tx, DuplicateEmail)
      else if UserInsert in faults then Rollback(tx, UserInsertFailed)
      else
        var tx := Write(tx, tx.work.(users := tx.work.users[id := u.(id := id)]));
        if UserCommit in faults then Rollback(tx, UserCommitFailed)
        else
          NoUserStepFails(faults);
          Commit(tx)
  }

  lemma NoUserStepFails(faults: set<UserStep>)
    requires UserBegin !in faults && UserInsert !in faults && UserCommit !in faults
    ensures faults == {}
  {
    forall s: UserStep
      ensures s !in faults
    {
      match s
      case UserBegin =>
      case UserInsert =>
      case UserCommit =>
    }
  }

  /** A user created without a post count starts at zero. */
  lemma NewUserStartsWithNoPosts(s: Store, u: User, next: nat)
    requires u.postCount == 0
    ensures var o := CreateUser(s, u, next, {});
      o.Committed? ==> o.state.users[AssignedId(u.id, next)].postCount == 0
  {
  }

  /** A new user starting at zero keeps every post count accurate: while the
      foreign keys hold, no existing post names an unused id as its author. */
  lemma CreateUserKeepsPostCountsAccurate(s: Store, u: User, next: nat, faults: set<UserStep>)
    requires PostCountsAccurate(s) && ForeignKeysHold(s)
    requires u.postCount == 0
    ensures PostCountsAccurate(CreateUser(s, u, next, faults).state)
  {
  }

  // ---------------------------------------------------------------- posts

  datatype HookError = CounterUpdateFailed | CommentCountFailed | StatusUpdateFailed

  /** `Post.BeforeCreate`: `UPDATE users SET post_count = post_count + 1
      WHERE id = p.UserID`. A missing user matches no row and is no error;
      a failing update (`fails`) is returned as the hook's error. */
  function BeforeCreate(s: Store, p: Post, fails: bool): (r: Result<Store, HookError>)
    ensures r.Failure? <==> fails
    ensures r.Success? ==> r.value.posts == s.posts && r.value.comments == s.comments
    ensures r.Success? ==> r.value.users.Keys == s.users.Keys
    ensures r.Success? ==>
      forall k :: k in s.users && k != p.userId ==> r.value.users[k] == s.users[k]
    ensures r.Success? && p.userId in s.users ==>
      r.value.users[p.userId] == s.users[p.userId].(postCount := s.users[p.userId].postCount + 1)
    ensures r.Success? && p.userId !in s.users ==> r.value == s
  {
    if fails then Failure(CounterUpdateFailed)
    else if p.userId in s.users then
      var u := s.users[p.userId];
      Success(s.(users := s.users[p.userId := u.(postCount := u.postCount + 1)]))
    else Success(s)
  }

  /** The column defaults applied on insert: an empty `CommentStatus` becomes
      "有评论" (`ViewCount` defaults to 0, its zero value anyway). */
  function WithPostDefaults(p: Post): (r: Post)
    ensures r.commentStatus != ""
    ensures p.commentStatus == "" ==> r.commentStatus == HasComments
    ensures p.commentStatus != "" ==> r == p
    ensures r.(commentStatus := p.commentStatus) == p
  {
    if p.commentStatus == "" then p.(commentStatus := HasComments) else p
  }

  /** The driver calls of `db.Create(&post)` that can fail. */
  datatype CreateStep = CreateBegin | CounterUpdate | PostInsert | CreateCommit

  datatype CreateError = CreateBeginFailed | HookFailed(hook: HookError) | DuplicatePostId | UnknownAuthor | PostInsertFailed | CreateCommitFailed

  /** `db.Create(&post)`: in one transaction, run `BeforeCreate`, then insert
      the row with its defaults. The insert is refused for a taken id and for
      an author missing from `users` (the foreign key on `posts.user_id`). */
  function CreatePost(s: Store, p: Post, next: nat, faults: set<CreateStep>): (o: Outcome<Store, CreateError>)
    ensures o.RolledBack? ==> o.state == s
    ensures o.Committed? <==>
      && faults == {}
      && AssignedId(p.id, next) !in s.posts
      && p.userId in s.users
    // the new row, with its defaults, and no other post touched
    ensures o.Committed? ==>
      var id := AssignedId(p.id, next);
      && o.state.posts.Keys == s.posts.Keys + {id}
      && o.state.posts[id] == WithPostDefaults(p.(id := id))
      && forall k :: k in s.posts ==> o.state.posts[k] == s.posts[k]
    // the author's counter, and only it, went up by one
    ensures o.Committed? ==>
      && p.userId in s.users
      && o.state.users.Keys == s.users.Keys
      && o.state.users[p.userId] == s.users[p.userId].(postCount := s.users[p.userId].postCount + 1)
      && forall k :: k in s.users && k != p.userId ==> o.state.users[k] == s.users[k]
    ensures o.Committed? ==> o.state.comments == s.comments
  {
    if CreateBegin in faults then RolledBack(s, CreateBeginFailed)
    else
      var tx := Begin(s);
      match BeforeCreate(tx.work, p, CounterUpdate in faults)
      case Failure(e) => Rollback(tx, HookFailed(e))
      case Success(w) =>
        var tx := Write(tx, w);
        var id := AssignedId(p.id, next);
        if id in tx.work.posts then Rollback(tx, DuplicatePostId)
        else if p.userId !in tx.work.users then Rollback(tx, UnknownAuthor)
        else if PostInsert in faults then Rollback(tx, PostInsertFailed)
        else
          var tx := Write(tx, tx.work.(posts := tx.work.posts[id := WithPostDefaults(p.(id := id))]));
          if CreateCommit in faults then Rollback(tx, CreateCommitFailed)
          else
            NoCreateStepFails(faults);
            Commit(tx)
  }

  lemma NoCreateStepFails(faults: set<CreateStep>)
    requires CreateBegin !in faults && CounterUpdate !in faults && PostInsert !in faults && CreateCommit !in faults
    ensures faults == {}
  {
    forall s: CreateStep
      ensures s !in faults
    {
      match s
      case CreateBegin =>
      case CounterUpdate =>
      case PostInsert =>
      case CreateCommit =>
    }
  }

  /** A post created without a status reads "有评论"; an explicit status is kept. */
  lemma NewPostStatus(s: Store, p: Post, next: nat)
    ensures var o := CreatePost(s, p, next, {});
      o.Committed? ==>
        o.state.posts[AssignedId(p.id, next)].commentStatus
          == (if p.commentStatus == "" then HasComments else p.commentStatus)
  {
  }

  /** Adding one post by `author` adds exactly that post to the author's set
      and leaves every other user's set alone. */
  lemma PostsByInsert(posts: map<nat, Post>, id: nat, q: Post, u: nat)
    requires id !in posts
    ensures q.userId == u ==> PostsBy(posts[id := q], u) == PostsBy(posts, u) + {id}
    ensures q.userId != u ==> PostsBy(posts[id := q], u) == PostsBy(posts, u)
  {
  }

  /** The counter hook keeps `PostCount` equal to the number of posts a user
      has written: creating a post adds one post and one to the count. */
  lemma CreatePostKeepsPostCountsAccurate(s: Store, p: Post, next: nat, faults: set<CreateStep>)
    requires PostCountsAccurate(s)
    ensures PostCountsAccurate(CreatePost(s, p, next, faults).state)
  {
    var o := CreatePost(s, p, next, faults);
    if o.Committed? {
      var id := AssignedId(p.id, next);
      var q := WithPostDefaults(p.(id := id));
      assert o.state.posts == s.posts[id := q];
      forall u | u in o.state.users
        ensures o.state.users[u].postCount == |PostsBy(o.state.posts, u)|
      {
        PostsByInsert(s.posts, id, q, u);
        if u == p.userId {
          assert id !in PostsBy(s.posts, u);
        }
      }
    }
  }


  // ------------------------------------------------------------- comments

  /** `Comment.AfterDelete`: count the comments whose `post_id` is the deleted
      comment's `PostID`; when there are none, set that post's status to
      "无评论" (`UPDATE posts ... WHERE id = c.PostID`, which matches nothing
      when the post is gone). `countFails` and `updateFails` are the two
      queries failing. */
  function AfterDelete(s: Store, c: Comment, countFails: bool, updateFails: bool): (r: Result<Store, HookError>)
    ensures r.Failure? <==> countFails || (updateFails && CommentsOn(s.comments, c.postId) == {})
    ensures r.Success? ==> r.value.users == s.users && r.value.comments == s.comments
    // some comment remains: the post is left as it was
    ensures r.Success? && (exists k :: k in s.comments && s.comments[k].postId == c.postId) ==> r.value == s
    // none remains: the post is marked, and no other post changes
    ensures r.Success? && (forall k :: k in s.comments ==> s.comments[k].postId != c.postId) ==>
      && r.value.posts.Keys == s.posts.Keys
      && (c.postId in s.posts ==> r.value.posts[c.postId] == s.posts[c.postId].(commentStatus := NoComments))
      && forall k :: k in s.posts && k != c.postId ==> r.value.posts[k] == s.posts[k]
  {
    assert forall k :: k in s.comments && s.comments[k].postId == c.postId ==> k in CommentsOn(s.comments, c.postId);
    if countFails then Failure(CommentCountFailed)
    else if |CommentsOn(s.comments, c.postId)| == 0 then
      if updateFails then Failure(StatusUpdateFailed)
      else if c.postId in s.posts then
        Success(s.(posts := s.posts[c.postId := s.posts[c.postId].(commentStatus := NoComments)]))
      else Success(s)
    else
      assert CommentsOn(s.comments, c.postId) != {};
      Success(s)
  }

  /** Running the hook again for the same post, with no comments left, finds
      the status already set and changes nothing. */
  lemma AfterDeleteIdempotent(s: Store, c: Comment)
    ensures var t := AfterDelete(s, c, false, false).value;
      AfterDelete(t, c, false, false) == Success(t)
  {
  }

  /** The driver calls of `db.Delete(&comment)` that can fail. */
  datatype DeleteStep = DeleteBegin | RowDelete | CommentCount | StatusUpdate | DeleteCommit

  datatype DeleteError = DeleteBeginFailed | MissingWhereClause | RowDeleteFailed | DeleteHookFailed(hook: HookError) | DeleteCommitFailed

  /** `db.Delete(&c)`: begin a transaction; refuse a `c` without a primary
      key; otherwise delete the row with id `c.ID` (none may match), run
      `AfterDelete` with `c` as the caller holds it, and commit. */
  function DeleteComment(s: Store, c: Comment, faults: set<DeleteStep>): (o: Outcome<Store, DeleteError>)
    ensures o.RolledBack? ==> o.state == s
    ensures c.id == 0 && DeleteBegin !in faults ==> o == RolledBack(s, MissingWhereClause)
    ensures o.Committed? <==>
      && c.id != 0
      && DeleteBegin !in faults
      && RowDelete !in faults && CommentCount !in faults && DeleteCommit !in faults
      && (StatusUpdate in faults ==> CommentsOn(s.comments - {c.id}, c.postId) != {})
    ensures o.Committed? ==> o.state.comments == s.comments - {c.id} && o.state.users == s.users
    // a comment on the post survives: the posts are untouched
    ensures o.Committed? && CommentsOn(s.comments - {c.id}, c.postId) != {} ==> o.state.posts == s.posts
    // none survives: the post is marked "无评论", every other post is untouched
    ensures o.Committed? && CommentsOn(s.comments - {c.id}, c.postId) == {} ==>
      && o.state.posts.Keys == s.posts.Keys
      && (c.postId in s.posts ==> o.state.posts[c.postId] == s.posts[c.postId].(commentStatus := NoComments))
      && forall k :: k in s.posts && k != c.postId ==> o.state.posts[k] == s.posts[k]
  {
    if DeleteBegin in faults then RolledBack(s, DeleteBeginFailed)
    else if c.id == 0 then RolledBack(s, MissingWhereClause)
    else
      var tx := Begin(s);
      if RowDelete in faults then Rollback(tx, RowDeleteFailed)
      else
        var tx := Write(tx, tx.work.(comments := tx.work.comments - {c.id}));
        match AfterDelete(tx.work, c, CommentCount in faults, StatusUpdate in faults)
        case Failure(e) => Rollback(tx, DeleteHookFailed(e))
        case Success(w) =>
          var tx := Write(tx, w);
          if DeleteCommit in faults then Rollback(tx, DeleteCommitFailed)
          else Commit(tx)
  }

  /** Deleting the last comment of a post marks that post "无评论". */
  lemma DeletingLastCommentMarksPost(s: Store, c: Comment)
    requires c.id != 0
    requires CommentsOn(s.comments, c.postId) == {c.id}
    requires c.postId in s.posts
    ensures var o := DeleteComment(s, c, {});
      o.Committed? && o.state.posts[c.postId].commentStatus == NoComments
  {
  }

  /** Deleting a comment keeps every post without comments marked, provided
      the caller's copy of the comment names the post its row belongs to. */
  lemma DeleteCommentKeepsEmptyPostsMarked(s: Store, c: Comment, faults: set<DeleteStep>)
    requires EmptyPostsMarked(s)
    requires c.id in s.comments ==> s.comments[c.id].postId == c.postId
    ensures EmptyPostsMarked(DeleteComment(s, c, faults).state)
  {
  }

  /** The hook trusts the caller's copy of the comment: when that copy names
      another post than the stored row, the row's post can lose its last
      comment without being marked. */
  lemma StaleCommentLeavesPostUnmarked()
    ensures
      var s := Store(map[1 := User(1, "alice", "alice@example.com", "pw", "Alice", 2)],
                     map[3 := Post(3, "a", "x", 1, 0, HasComments), 4 := Post(4, "b", "y", 1, 0, HasComments)],
                     map[7 := Comment(7, "hi", 3, 1), 8 := Comment(8, "yo", 4, 1)]);
      var o := DeleteComment(s, Comment(7, "hi", 4, 1), {});
      && o.Committed?
      && CommentsOn(o.state.comments, 3) == {}
      && o.state.posts[3].commentStatus == HasComments
  {
  }

  /** Inserting a user, which no row refers to yet, keeps the foreign keys. */
  lemma CreateUserKeepsForeignKeys(s: Store, u: User, next: nat, faults: set<UserStep>)
    requires ForeignKeysHold(s)
    ensures ForeignKeysHold(CreateUser(s, u, next, faults).state)
  {
  }

  /** The insert checks the author, so creating a post keeps the foreign keys. */
  lemma CreatePostKeepsForeignKeys(s: Store, p: Post, next: nat, faults: set<CreateStep>)
    requires ForeignKeysHold(s)
    ensures ForeignKeysHold(CreatePost(s, p, next, faults).state)
  {
  }

  /** Removing a comment, which nothing refers to, keeps the foreign keys. */
  lemma DeleteCommentKeepsForeignKeys(s: Store, c: Comment, faults: set<DeleteStep>)
    requires ForeignKeysHold(s)
    ensures ForeignKeysHold(DeleteComment(s, c, faults).state)
  {
  }

  /** Creating a user or a post and deleting a comment keep every row stored
      under its own id. */
  lemma OperationsKeepWellKeyed(s: Store, u: User, p: Post, c: Comment, next: nat,
                                userFaults: set<UserStep>, createFaults: set<CreateStep>, deleteFaults: set<DeleteStep>)
    requires WellKeyed(s)
    ensures WellKeyed(CreateUser(s, u, next, userFaults).state)
    ensures WellKeyed(CreatePost(s, p, next, createFaults).state)
    ensures WellKeyed(DeleteComment(s, c, deleteFaults).state)
  {
  }

  /** The hook demonstration: bob, with one earlier post, writes a post
      without a status, which gets "有评论" and raises their count to 2; its
      only comment is then deleted and the post reads "无评论". The store
      starts with accurate post counts and keeps them. */
  lemma DemonstrationRun()
    ensures
      var bob := User(2, "bob", "bob@example.com", "hashed_password_456", "Bob", 1);
      var earlier := Post(1, "earlier", "text", 2, 0, HasComments);
      var s0 := Store(map[2 := bob], map[1 := earlier], map[]);
      var draft := Post(0, "title", "content", 2, 0, "");
      var created := CreatePost(s0, draft, 5, {});
      && PostCountsAccurate(s0)
      && created.Committed?
      && PostCountsAccurate(created.state)
      && created.state.users[2].postCount == 2
      && created.state.posts[5].commentStatus == HasComments
      && var comment := Comment(9, "the only comment", 5, 2);
         var s1 := created.state.(comments := map[9 := comment]);
         var deleted := DeleteComment(s1, comment, {});
         && deleted.Committed?
         && deleted.state.comments == map[]
         && deleted.state.posts[5].commentStatus == NoComments
  {
    var bob := User(2, "bob", "bob@example.com", "hashed_password_456", "Bob", 1);
    var s0 := Store(map[2 := bob], map[1 := Post(1, "earlier", "text", 2, 0, HasComments)], map[]);
    assert PostsBy(s0.posts, 2) == {1};
    CreatePostKeepsPostCountsAccurate(s0, Post(0, "title", "content", 2, 0, ""), 5, {});
  }

  /** Marking is not a whole-store invariant: a newly created post has no
      comments yet reads "有评论". */
  lemma NewPostBreaksEmptyPostsMarked()
    ensures
      var s := Store(map[1 := User(1, "alice", "alice@example.com", "pw", "Alice", 0)], map[], map[]);
      var o := CreatePost(s, Post(0, "title", "content", 1, 0, ""), 3, {});
      && EmptyPostsMarked(s)
      && o.Committed?
      && !EmptyPostsMarked(o.state)
  {
  }
}
