/**
 * The post app's request handlers: creating, updating and deleting posts,
 * creating comments (under a post named in the URL, or anywhere) and listing
 * a post's comments, deleting a comment, and the two like toggles. Every
 * handler maps the store to a new store or raises an error.
 */
module PostViews {
  import opened Wrappers
  import opened Errors
  import opened PostModels
  import UserModels

  const HttpOk: int := 200
  const HttpCreated: int := 201
  const HttpNoContent: int := 204

  // --------------------------------------------------------------------- posts

  /**
   * Creating a post: only the caption is a writable serializer field, so the
   * image column keeps its empty default.
   */
  function CreatePost(s: Store, author: UserModels.UserId, id: PostId, caption: Option<string>): (r: Result<Store, Error>)
    ensures r.Success? <==> CheckText(caption, CaptionMaxLength).Success?
    ensures r.Failure? ==> r == Failure(CheckText(caption, CaptionMaxLength).error)
    ensures r.Success? ==> r.value == s.(posts := s.posts + [Post(id, author, "", caption.value)])
  {
    var text :- CheckText(caption, CaptionMaxLength);
    Success(s.(posts := s.posts + [Post(id, author, "", text)]))
  }

  /** Creating a post adds its id and keeps the store well formed. */
  lemma CreatePostWellFormed(s: Store, author: UserModels.UserId, id: PostId, caption: Option<string>)
    requires WellFormed(s) && CreatePost(s, author, id, caption).Success?
    ensures id in PostIds(CreatePost(s, author, id, caption).value.posts)
    ensures WellFormed(CreatePost(s, author, id, caption).value)
  {
    var r := CreatePost(s, author, id, caption).value;
    assert r.posts[|s.posts|].id == id;
    assert PostIds(s.posts) <= PostIds(r.posts) by {
      forall q | q in PostIds(s.posts) ensures q in PostIds(r.posts) {
        var p :| p in s.posts && p.id == q;
        assert p in r.posts;
      }
    }
  }

  /**
   * `PUT` on a post: an unknown id is `NotFound`; otherwise the caption is
   * checked as on creation and replaces the caption of that post.
   */
  function UpdatePost(s: Store, post: PostId, caption: Option<string>): (r: Result<Store, Error>)
    ensures post !in PostIds(s.posts) ==> r == Failure(NotFound)
    ensures post in PostIds(s.posts) ==> (r.Success? <==> CheckText(caption, CaptionMaxLength).Success?)
    ensures r.Success? ==>
      && |r.value.posts| == |s.posts|
      && (forall i :: 0 <= i < |s.posts| ==>
            r.value.posts[i] == if s.posts[i].id == post then s.posts[i].(caption := caption.value) else s.posts[i])
      && r.value == s.(posts := r.value.posts)
  {
    if post !in PostIds(s.posts) then Failure(NotFound)
    else
      var text :- CheckText(caption, CaptionMaxLength);
      Success(s.(posts := seq(|s.posts|, i requires 0 <= i < |s.posts| =>
        if s.posts[i].id == post then s.posts[i].(caption := text) else s.posts[i])))
  }

  /** Updating a caption changes no id, so every reference stays valid. */
  lemma UpdatePostWellFormed(s: Store, post: PostId, caption: Option<string>)
    requires WellFormed(s) && UpdatePost(s, post, caption).Success?
    ensures PostIds(UpdatePost(s, post, caption).value.posts) == PostIds(s.posts)
    ensures WellFormed(UpdatePost(s, post, caption).value)
  {
    var r := UpdatePost(s, post, caption).value;
    forall q | q in PostIds(s.posts) ensures q in PostIds(r.posts) {
      var i :| 0 <= i < |s.posts| && s.posts[i].id == q;
      assert r.posts[i].id == q;
    }
    forall q | q in PostIds(r.posts) ensures q in PostIds(s.posts) {
      var i :| 0 <= i < |r.posts| && r.posts[i].id == q;
      assert s.posts[i].id == q;
    }
  }

  /** `DELETE` on a post: an unknown id is `NotFound`; otherwise the cascade runs. */
  function DestroyPost(s: Store, post: PostId): (r: Result<Store, Error>)
    ensures r.Failure? <==> post !in PostIds(s.posts)
    ensures r.Failure? ==> r.error == NotFound
    ensures r.Success? ==> post !in PostIds(r.value.posts)
    ensures r.Success? ==> forall c :: c in r.value.comments ==> c.post != post
    ensures r.Success? ==> forall l :: l in r.value.postLikes ==> l.target != post
    ensures r.Success? ==> forall p :: p in r.value.posts <==> p in s.posts && p.id != post
    ensures r.Success? ==> forall l :: l in r.value.postLikes <==> l in s.postLikes && l.target != post
    ensures r.Success? ==> forall c :: c in r.value.comments <==> c in s.comments && c.id !in CommentsGoingWith(s, post)
    ensures r.Success? ==> forall l :: l in r.value.commentLikes <==> l in s.commentLikes && l.target !in CommentsGoingWith(s, post)
  {
    if post !in PostIds(s.posts) then Failure(NotFound) else Success(DeletePost(s, post))
  }

  // ------------------------------------------------------------------ comments

  /** The writable fields of a comment as submitted; a missing or `null` parent is `None`. */
  datatype CommentForm = CommentForm(comment: Option<string>, parent: Option<CommentId>, post: Option<PostId>)

  datatype CommentFields = CommentFields(text: string, parent: Option<CommentId>, post: PostId)

  /**
   * The comment serializer's field checks, in field order: the text, then
   * the parent (which must name a comment), then the post (required, and it
   * must name a post).
   */
  function ValidateComment(s: Store, f: CommentForm): (r: Result<CommentFields, Error>)
    ensures r.Success? <==>
      && CheckText(f.comment, CommentMaxLength).Success?
      && (f.parent.Some? ==> f.parent.value in CommentIds(s.comments))
      && f.post.Some? && f.post.value in PostIds(s.posts)
    ensures r.Success? ==> r.value == CommentFields(f.comment.value, f.parent, f.post.value)
    ensures CheckText(f.comment, CommentMaxLength).Failure? ==> r == Failure(CheckText(f.comment, CommentMaxLength).error)
    ensures CheckText(f.comment, CommentMaxLength).Success? && f.parent.Some? && f.parent.value !in CommentIds(s.comments)
      ==> r == Failure(ValidationError(DoesNotExist))
  {
    var text :- CheckText(f.comment, CommentMaxLength);
    if f.parent.Some? && f.parent.value !in CommentIds(s.comments) then Failure(ValidationError(DoesNotExist))
    else if f.post.None? then Failure(ValidationError(FieldRequired))
    else if f.post.value !in PostIds(s.posts) then Failure(ValidationError(DoesNotExist))
    else Success(CommentFields(text, f.parent, f.post.value))
  }

  /** The comments whose post is `post`, in stored order. */
  function OnPost(post: PostId): Comment -> bool {
    (c: Comment) => c.post == post
  }

  /** Listing under `/posts/<pk>/comments/`: the comments whose post is `pk`. */
  function PostComments(s: Store, post: PostId): (r: seq<Comment>)
    ensures forall c :: c in r <==> c in s.comments && c.post == post
    ensures forall c: Comment :: c.post == post ==> multiset(r)[c] == multiset(s.comments)[c]
  {
    Filter(s.comments, OnPost(post))
  }

  /**
   * Creating a comment under `/posts/<pk>/comments/`: the body is validated
   * (its `post` field included), and the stored comment takes the post id
   * from the URL, which overrides the body's. A URL id naming no post is
   * refused by the database.
   */
  function CreatePostComment(s: Store, author: UserModels.UserId, urlPost: PostId, id: CommentId, f: CommentForm): (r: Result<Store, Error>)
    ensures r.Success? <==> ValidateComment(s, f).Success? && urlPost in PostIds(s.posts)
    ensures ValidateComment(s, f).Failure? ==> r == Failure(ValidateComment(s, f).error)
    ensures ValidateComment(s, f).Success? && urlPost !in PostIds(s.posts) ==> r == Failure(IntegrityError)
    ensures r.Success? ==>
      r.value == s.(comments := s.comments + [Comment(id, author, urlPost, f.comment.value, f.parent)])
  {
    var v :- ValidateComment(s, f);
    if urlPost !in PostIds(s.posts) then Failure(IntegrityError)
    else Success(s.(comments := s.comments + [Comment(id, author, urlPost, v.text, v.parent)]))
  }

  /** Creating a comment at `/comments/`: the post comes from the body. */
  function CreateComment(s: Store, author: UserModels.UserId, id: CommentId, f: CommentForm): (r: Result<Store, Error>)
    ensures r.Success? <==> ValidateComment(s, f).Success?
    ensures r.Failure? ==> r == Failure(ValidateComment(s, f).error)
    ensures r.Success? ==>
      r.value == s.(comments := s.comments + [Comment(id, author, f.post.value, f.comment.value, f.parent)])
  {
    var v :- ValidateComment(s, f);
    Success(s.(comments := s.comments + [Comment(id, author, v.post, v.text, v.parent)]))
  }

  /**
   * A comment created under a post is listed under that post, after the
   * ones already there, whatever post the body named; other posts' listings
   * do not change.
   */
  lemma CreatedCommentListedUnderUrlPost(s: Store, author: UserModels.UserId, urlPost: PostId, id: CommentId, f: CommentForm, q: PostId)
    requires CreatePostComment(s, author, urlPost, id, f).Success?
    ensures var c := Comment(id, author, urlPost, f.comment.value, f.parent);
      PostComments(CreatePostComment(s, author, urlPost, id, f).value, q)
        == PostComments(s, q) + (if q == urlPost then [c] else [])
  {
    var c := Comment(id, author, urlPost, f.comment.value, f.parent);
    FilterAppend(s.comments, [c], OnPost(q));
    assert [c][1..] == [];
  }

  /** Creating a comment under an existing post with a valid body keeps the store well formed. */
  lemma CreatePostCommentWellFormed(s: Store, author: UserModels.UserId, urlPost: PostId, id: CommentId, f: CommentForm)
    requires WellFormed(s) && CreatePostComment(s, author, urlPost, id, f).Success?
    ensures WellFormed(CreatePostComment(s, author, urlPost, id, f).value)
  {
    var r := CreatePostComment(s, author, urlPost, id, f).value;
    assert CommentIds(s.comments) <= CommentIds(r.comments) by {
      forall k | k in CommentIds(s.comments) ensures k in CommentIds(r.comments) {
        var c :| c in s.comments && c.id == k;
        assert c in r.comments;
      }
    }
  }

  /** `DELETE` on a comment: an unknown id is `NotFound`; otherwise the cascade runs. */
  function DestroyComment(s: Store, comment: CommentId): (r: Result<Store, Error>)
    ensures r.Failure? <==> comment !in CommentIds(s.comments)
    ensures r.Failure? ==> r.error == NotFound
    ensures r.Success? ==> comment !in CommentIds(r.value.comments)
    ensures r.Success? ==> r.value.posts == s.posts && r.value.postLikes == s.postLikes
    ensures r.Success? ==> forall c :: c in s.comments && c.parent == Some(comment) ==> c !in r.value.comments
    ensures r.Success? ==> forall c :: c in r.value.comments <==> c in s.comments && c.id !in Descendants(s.comments, {comment})
    ensures r.Success? ==> forall l :: l in r.value.commentLikes <==> l in s.commentLikes && l.target !in Descendants(s.comments, {comment})
  {
    if comment !in CommentIds(s.comments) then Failure(NotFound) else Success(DeleteComment(s, comment))
  }

  // --------------------------------------------------------------------- likes

  /** Every like except `l`. */
  function Other(l: Like): Like -> bool {
    (m: Like) => m != l
  }

  /**
   * The toggle both like views perform on one `(author, target)` pair:
   * delete the row when it exists, otherwise insert it.
   */
  function ToggleLike(likes: seq<Like>, l: Like): (r: seq<Like>)
    ensures l in r <==> l !in likes
    ensures forall m :: m != l ==> multiset(r)[m] == multiset(likes)[m]
    ensures Unique(likes) ==> Unique(r)
  {
    if l in likes then Filter(likes, Other(l)) else likes + [l]
  }

  /** Toggling the same pair twice restores the like rows (exactly, when the pair started absent). */
  lemma ToggleTwiceRestores(likes: seq<Like>, l: Like)
    requires Unique(likes)
    ensures multiset(ToggleLike(ToggleLike(likes, l), l)) == multiset(likes)
    ensures l !in likes ==> ToggleLike(ToggleLike(likes, l), l) == likes
  {
    var once := ToggleLike(likes, l);
    var twice := ToggleLike(once, l);
    if l !in likes {
      FilterAppend(likes, [l], Other(l));
      FilterKeepsAll(likes, Other(l));
      assert [l][1..] == [];
      assert Filter([l], Other(l)) == [];
    }
    forall m ensures multiset(twice)[m] == multiset(likes)[m] {
      if m == l {
        assert multiset(twice)[m] == 1 <==> multiset(likes)[m] == 1;
      }
    }
  }

  /** The result of a like view: the new store and the response status. */
  datatype Toggled = Toggled(store: Store, status: int)

  /**
   * `POST /posts/<pk>/like/`: an existing like by the user is deleted
   * (answering 204), otherwise one is inserted (answering 201); inserting a
   * like on a missing post is refused by the database.
   */
  function PostLikeToggle(s: Store, user: UserModels.UserId, post: PostId): (r: Result<Toggled, Error>)
    ensures r.Failure? <==> Like(user, post) !in s.postLikes && post !in PostIds(s.posts)
    ensures r.Failure? ==> r.error == IntegrityError
    ensures r.Success? ==>
      && r.value.store == s.(postLikes := r.value.store.postLikes)
      && (Like(user, post) in r.value.store.postLikes <==> Like(user, post) !in s.postLikes)
      && (forall m :: m != Like(user, post) ==> multiset(r.value.store.postLikes)[m] == multiset(s.postLikes)[m])
      && r.value.status == (if Like(user, post) in s.postLikes then HttpNoContent else HttpCreated)
    ensures WellFormed(s) && r.Success? ==> WellFormed(r.value.store)
  {
    var l := Like(user, post);
    if l !in s.postLikes && post !in PostIds(s.posts) then Failure(IntegrityError)
    else Success(Toggled(s.(postLikes := ToggleLike(s.postLikes, l)), if l in s.postLikes then HttpNoContent else HttpCreated))
  }

  /**
   * `POST /comments/<pk>/like/`: the same toggle over comment likes; both
   * outcomes answer 200.
   */
  function CommentLikeToggle(s: Store, user: UserModels.UserId, comment: CommentId): (r: Result<Toggled, Error>)
    ensures r.Failure? <==> Like(user, comment) !in s.commentLikes && comment !in CommentIds(s.comments)
    ensures r.Failure? ==> r.error == IntegrityError
    ensures r.Success? ==>
      && r.value.store == s.(commentLikes := r.value.store.commentLikes)
      && (Like(user, comment) in r.value.store.commentLikes <==> Like(user, comment) !in s.commentLikes)
      && (forall m :: m != Like(user, comment) ==> multiset(r.value.store.commentLikes)[m] == multiset(s.commentLikes)[m])
      && r.value.status == HttpOk
    ensures WellFormed(s) && r.Success? ==> WellFormed(r.value.store)
  {
    var l := Like(user, comment);
    if l !in s.commentLikes && comment !in CommentIds(s.comments) then Failure(IntegrityError)
    else Success(Toggled(s.(commentLikes := ToggleLike(s.commentLikes, l)), HttpOk))
  }

  /**
   * Liking twice on a well-formed store: both requests succeed, the statuses
   * are 201 then 204 or 204 then 201, and the like rows come back as they were.
   */
  lemma PostLikeToggleTwice(s: Store, user: UserModels.UserId, post: PostId)
    requires WellFormed(s) && PostLikeToggle(s, user, post).Success?
    ensures var once := PostLikeToggle(s, user, post).value;
      var twice := PostLikeToggle(once.store, user, post);
      && twice.Success?
      && {once.status, twice.value.status} == {HttpCreated, HttpNoContent}
      && twice.value.store.posts == s.posts
      && twice.value.store.comments == s.comments
      && twice.value.store.commentLikes == s.commentLikes
      && multiset(twice.value.store.postLikes) == multiset(s.postLikes)
  {
    ToggleTwiceRestores(s.postLikes, Like(user, post));
  }

  lemma CommentLikeToggleTwice(s: Store, user: UserModels.UserId, comment: CommentId)
    requires WellFormed(s) && CommentLikeToggle(s, user, comment).Success?
    ensures var once := CommentLikeToggle(s, user, comment).value;
      var twice := CommentLikeToggle(once.store, user, comment);
      && twice.Success?
      && twice.value.store.posts == s.posts
      && twice.value.store.comments == s.comments
      && twice.value.store.postLikes == s.postLikes
      && multiset(twice.value.store.commentLikes) == multiset(s.commentLikes)
  {
    ToggleTwiceRestores(s.commentLikes, Like(user, comment));
  }
}
