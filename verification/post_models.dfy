/**
 * The post app's tables: posts, comments (each on a post, optionally a reply
 * to another comment), and the two like tables with their one-like-per-author
 * constraints. The database is a record of sequences of rows; the foreign
 * keys declared with `on_delete=CASCADE` become the two delete functions at
 * the end of the module.
 */
module PostModels {
  import opened Wrappers
  import opened Text
  import opened Errors
  import UserModels

  type PostId = nat
  type CommentId = nat

  /** `Post.caption` carries a maximum-length validator of 2000 characters. */
  const CaptionMaxLength: nat := 2000

  /** `PostComment.comment` carries a maximum-length validator of 1000 characters. */
  const CommentMaxLength: nat := 1000

  /** The extensions the validator on `Post.image` accepts. */
  const PostImageExtensions: seq<string> := ["jpg", "jpeg", "png"]

  datatype Post = Post(id: PostId, author: UserModels.UserId, image: string, caption: string)

  /** A comment; `parent` is the comment it replies to, `None` for a top-level comment. */
  datatype Comment = Comment(
    id: CommentId,
    author: UserModels.UserId,
    post: PostId,
    text: string,
    parent: Option<CommentId>)

  /** A row of `PostLike` (the target is a post id) or of `CommentLike` (a comment id). */
  datatype Like = Like(author: UserModels.UserId, target: nat)

  datatype Store = Store(
    posts: seq<Post>,
    comments: seq<Comment>,
    postLikes: seq<Like>,
    commentLikes: seq<Like>)

  // -------------------------------------------------------------- validators

  /** `FileExtensionValidator(['jpg', 'jpeg', 'png'])` on an uploaded file name. */
  predicate PostImageAllowed(name: string) {
    FileExtension(name) in PostImageExtensions
  }

  /** A file named `stem.ext` is an acceptable post image exactly when `ext`, lower-cased, is listed. */
  lemma PostImageOfJoinedName(stem: string, ext: string)
    requires stem != [] && ext != []
    requires '/' !in stem && '/' !in ext && '.' !in ext
    ensures PostImageAllowed(stem + "." + ext) <==> Lower(ext) in PostImageExtensions
  {
    ExtensionOfJoinedName(stem, ext);
  }

  /**
   * How the REST framework's model serializer checks a required text column
   * with a maximum length: missing is `FieldRequired`, empty is `FieldBlank`,
   * over the limit is `TooLong`.
   */
  function CheckText(value: Option<string>, max: nat): (r: Result<string, Error>)
    ensures r.Success? <==> value.Some? && value.value != "" && |value.value| <= max
    ensures r.Success? ==> r.value == value.value
    ensures value.None? ==> r == Failure(ValidationError(FieldRequired))
    ensures value == Some("") ==> r == Failure(ValidationError(FieldBlank))
    ensures value.Some? && |value.value| > max ==> r == Failure(ValidationError(TooLong))
  {
    match value
    case None => Failure(ValidationError(FieldRequired))
    case Some(v) =>
      if v == "" then Failure(ValidationError(FieldBlank))
      else if |v| > max then Failure(ValidationError(TooLong))
      else Success(v)
  }

  // ------------------------------------------------------------------ queries

  /** The rows of `s` that satisfy `p`, in their original order (a query's `filter`). */
  function Filter<T(!new)>(s: seq<T>, p: T -> bool): (r: seq<T>)
    ensures |r| <= |s|
    ensures forall x :: x in r <==> x in s && p(x)
    ensures forall x :: multiset(r)[x] == if p(x) then multiset(s)[x] else 0
  {
    if s == [] then []
    else
      assert s == [s[0]] + s[1..];
      if p(s[0]) then [s[0]] + Filter(s[1..], p) else Filter(s[1..], p)
  }

  /** Filtering with a condition every row meets returns the rows unchanged. */
  lemma {:induction false} FilterKeepsAll<T(!new)>(s: seq<T>, p: T -> bool)
    requires forall x :: x in s ==> p(x)
    ensures Filter(s, p) == s
  {
    if s != [] {
      FilterKeepsAll(s[1..], p);
    }
  }

  /** Filtering distributes over concatenation. */
  lemma {:induction false} FilterAppend<T(!new)>(a: seq<T>, b: seq<T>, p: T -> bool)
    ensures Filter(a + b, p) == Filter(a, p) + Filter(b, p)
  {
    if a == [] {
      assert a + b == b;
    } else {
      var ab := a + b;
      assert ab[0] == a[0];
      assert ab[1..] == a[1..] + b;
      FilterAppend(a[1..], b, p);
    }
  }

  function PostIds(posts: seq<Post>): set<PostId> {
    set p | p in posts :: p.id
  }

  function CommentIds(comments: seq<Comment>): set<CommentId> {
    set c | c in comments :: c.id
  }

  // -------------------------------------------------------- unique constraints

  /**
   * The `UniqueConstraint` on `(author, post)` and on `(author, comment)`: no
   * like row occurs twice.
   */
  ghost predicate Unique(likes: seq<Like>) {
    forall l :: multiset(likes)[l] <= 1
  }

  /** The uniqueness constraint read as rows: two different positions hold different likes. */
  lemma {:induction false} UniqueIsDistinctRows(likes: seq<Like>)
    ensures Unique(likes) <==> forall i, j :: 0 <= i < j < |likes| ==> likes[i] != likes[j]
  {
    if likes != [] {
      var rest := likes[1..];
      assert likes == [likes[0]] + rest;
      assert multiset(likes) == multiset{likes[0]} + multiset(rest);
      UniqueIsDistinctRows(rest);
      if Unique(likes) {
        forall l ensures multiset(rest)[l] <= 1 {
          assert multiset(rest)[l] <= multiset(likes)[l];
        }
        assert multiset(likes)[likes[0]] == 1 + multiset(rest)[likes[0]];
        assert likes[0] !in rest;
        forall i, j | 0 <= i < j < |likes| ensures likes[i] != likes[j] {
          if i == 0 {
            assert likes[j] == rest[j - 1];
          } else {
            assert likes[i] == rest[i - 1] && likes[j] == rest[j - 1];
          }
        }
      }
      if forall i, j :: 0 <= i < j < |likes| ==> likes[i] != likes[j] {
        forall i, j | 0 <= i < j < |rest| ensures rest[i] != rest[j] {
          assert rest[i] == likes[i + 1] && rest[j] == likes[j + 1];
        }
        forall k | 0 <= k < |rest| ensures rest[k] != likes[0] {
          assert rest[k] == likes[k + 1];
        }
        forall l ensures multiset(likes)[l] <= 1 {
          if l == likes[0] {
            assert multiset(rest)[l] == 0;
          }
        }
      }
    }
  }

  // ------------------------------------------------------------ reply closure

  /** Every reply to a comment in `s` is itself in `s`. */
  predicate ClosedUnderReplies(comments: seq<Comment>, s: set<CommentId>) {
    forall c :: c in comments && c.parent.Some? && c.parent.value in s ==> c.id in s
  }

  /** `s` together with the direct replies to its members. */
  function WithReplies(comments: seq<Comment>, s: set<CommentId>): set<CommentId> {
    s + set c | c in comments && c.parent.Some? && c.parent.value in s :: c.id
  }

  /** A proper subset has fewer elements. */
  lemma ProperSubsetSmaller<T>(a: set<T>, b: set<T>)
    requires a < b
    ensures |a| < |b|
  {
    assert b == a + (b - a);
    assert a * (b - a) == {};
    assert b - a != {};
  }

  /** Adding the direct replies, when there are new ones, leaves fewer comments outside. */
  lemma NewRepliesShrinkRemainder(comments: seq<Comment>, roots: set<CommentId>)
    requires WithReplies(comments, roots) != roots
    ensures CommentIds(comments) - WithReplies(comments, roots) < CommentIds(comments) - roots
  {
    var next := WithReplies(comments, roots);
    assert next - roots <= CommentIds(comments);
    assert roots < next;
    assert next == roots + (next - roots);
    assert next - roots != {};
    assert (CommentIds(comments) - roots) - (CommentIds(comments) - next) == next - roots;
  }

  /**
   * `roots` and every comment that replies, directly or through a chain of
   * replies, to one of them: the rows a cascading delete along
   * `PostComment.parent` removes.
   */
  function Descendants(comments: seq<Comment>, roots: set<CommentId>): (r: set<CommentId>)
    ensures roots <= r
    ensures ClosedUnderReplies(comments, r)
    ensures r <= roots + CommentIds(comments)
    decreases |CommentIds(comments) - roots|
  {
    var next := WithReplies(comments, roots);
    if next == roots then roots
    else
      NewRepliesShrinkRemainder(comments, roots);
      ProperSubsetSmaller(CommentIds(comments) - next, CommentIds(comments) - roots);
      Descendants(comments, next)
  }

  /** The closure is the least one: any reply-closed set holding the roots holds all descendants. */
  lemma {:induction false} DescendantsLeast(comments: seq<Comment>, roots: set<CommentId>, t: set<CommentId>)
    requires roots <= t && ClosedUnderReplies(comments, t)
    ensures Descendants(comments, roots) <= t
    decreases |CommentIds(comments) - roots|
  {
    var next := WithReplies(comments, roots);
    if next != roots {
      NewRepliesShrinkRemainder(comments, roots);
      ProperSubsetSmaller(CommentIds(comments) - next, CommentIds(comments) - roots);
      DescendantsLeast(comments, next, t);
    }
  }

  // ---------------------------------------------------------- well-formedness

  /**
   * Every foreign key names an existing row and both like tables satisfy
   * their uniqueness constraints.
   */
  ghost predicate WellFormed(s: Store) {
    && (forall c :: c in s.comments ==> c.post in PostIds(s.posts))
    && (forall c :: c in s.comments && c.parent.Some? ==> c.parent.value in CommentIds(s.comments))
    && (forall l :: l in s.postLikes ==> l.target in PostIds(s.posts))
    && (forall l :: l in s.commentLikes ==> l.target in CommentIds(s.comments))
    && Unique(s.postLikes)
    && Unique(s.commentLikes)
  }

  // ------------------------------------------------------------------ cascades

  /** Removes the comments whose ids are in `gone`, and the likes on them. */
  function WithoutComments(s: Store, gone: set<CommentId>): (r: Store)
    ensures r.posts == s.posts && r.postLikes == s.postLikes
    ensures forall c :: c in r.comments <==> c in s.comments && c.id !in gone
    ensures forall l :: l in r.commentLikes <==> l in s.commentLikes && l.target !in gone
    ensures forall l :: multiset(r.commentLikes)[l] <= multiset(s.commentLikes)[l]
  {
    s.(comments := Filter(s.comments, (c: Comment) => c.id !in gone),
       commentLikes := Filter(s.commentLikes, (l: Like) => l.target !in gone))
  }

  /** The comments on post `post`, and every reply below them wherever it is posted. */
  function CommentsGoingWith(s: Store, post: PostId): (r: set<CommentId>)
    ensures forall c :: c in s.comments && c.post == post ==> c.id in r
    ensures ClosedUnderReplies(s.comments, r)
  {
    Descendants(s.comments, set c | c in s.comments && c.post == post :: c.id)
  }

  /**
   * Deleting a post: its row, its likes, its comments, every reply below
   * those comments and every like on a removed comment go.
   */
  function DeletePost(s: Store, post: PostId): (r: Store)
    ensures post !in PostIds(r.posts)
    ensures forall p :: p in r.posts <==> p in s.posts && p.id != post
    ensures forall l :: l in r.postLikes <==> l in s.postLikes && l.target != post
    ensures forall c :: c in r.comments ==> c in s.comments && c.post != post
    ensures forall c :: c in s.comments && c.post == post ==> c !in r.comments
    ensures forall c :: c in r.comments <==> c in s.comments && c.id !in CommentsGoingWith(s, post)
    ensures forall l :: l in r.commentLikes <==> l in s.commentLikes && l.target !in CommentsGoingWith(s, post)
    ensures ClosedUnderReplies(s.comments, set c | c in s.comments && c !in r.comments :: c.id)
  {
    var gone := CommentsGoingWith(s, post);
    var rest := WithoutComments(s, gone);
    rest.(posts := Filter(s.posts, (p: Post) => p.id != post),
          postLikes := Filter(s.postLikes, (l: Like) => l.target != post))
  }

  /** Deleting a comment: it, every reply below it, and the likes on all of them go. */
  function DeleteComment(s: Store, comment: CommentId): (r: Store)
    ensures r.posts == s.posts && r.postLikes == s.postLikes
    ensures comment !in CommentIds(r.comments)
    ensures forall c :: c in r.comments <==> c in s.comments && c.id !in Descendants(s.comments, {comment})
    ensures forall l :: l in r.commentLikes <==> l in s.commentLikes && l.target !in Descendants(s.comments, {comment})
    ensures forall c :: c in s.comments && c.parent == Some(comment) ==> c !in r.comments
    ensures ClosedUnderReplies(s.comments, set c | c in s.comments && c !in r.comments :: c.id)
  {
    WithoutComments(s, Descendants(s.comments, {comment}))
  }

  /** A row survives a removal of comments when the comment it points to survives. */
  lemma SurvivingComment(s: Store, gone: set<CommentId>, id: CommentId)
    requires id in CommentIds(s.comments) && id !in gone
    ensures id in CommentIds(WithoutComments(s, gone).comments)
  {
    var c :| c in s.comments && c.id == id;
    assert c in WithoutComments(s, gone).comments;
  }

  /** Removing a reply-closed set of comments keeps the store well formed. */
  lemma WithoutCommentsWellFormed(s: Store, gone: set<CommentId>)
    requires WellFormed(s) && ClosedUnderReplies(s.comments, gone)
    ensures WellFormed(WithoutComments(s, gone))
  {
    var r := WithoutComments(s, gone);
    forall c | c in r.comments && c.parent.Some?
      ensures c.parent.value in CommentIds(r.comments)
    {
      SurvivingComment(s, gone, c.parent.value);
    }
    forall l | l in r.commentLikes
      ensures l.target in CommentIds(r.comments)
    {
      SurvivingComment(s, gone, l.target);
    }
  }

  /** Deleting a post leaves no comment or like pointing at a missing row. */
  lemma DeletePostWellFormed(s: Store, post: PostId)
    requires WellFormed(s)
    ensures WellFormed(DeletePost(s, post))
  {
    var gone := CommentsGoingWith(s, post);
    var rest := WithoutComments(s, gone);
    WithoutCommentsWellFormed(s, gone);
    var r := DeletePost(s, post);
    assert r == rest.(posts := Filter(s.posts, (p: Post) => p.id != post),
                      postLikes := Filter(s.postLikes, (l: Like) => l.target != post));
    forall c | c in r.comments ensures c.post in PostIds(r.posts) {
      var p :| p in s.posts && p.id == c.post;
      assert p in r.posts;
    }
    forall l | l in r.postLikes ensures l.target in PostIds(r.posts) {
      var p :| p in s.posts && p.id == l.target;
      assert p in r.posts;
    }
  }

  /** Deleting a comment leaves no reply or like pointing at a missing comment. */
  lemma DeleteCommentWellFormed(s: Store, comment: CommentId)
    requires WellFormed(s)
    ensures WellFormed(DeleteComment(s, comment))
  {
    WithoutCommentsWellFormed(s, Descendants(s.comments, {comment}));
  }
}
