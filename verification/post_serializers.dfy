/**
 * The read-only fields the post and comment serializers compute from the
 * store: like counts, whether the requesting user liked the row, the
 * `comment_like_count` of a post, and a comment's replies.
 */
module PostSerializers {
  import opened Wrappers
  import opened PostModels
  import opened PostViews
  import UserModels

  /** Who is asking: nobody signed in, or a signed-in user. */
  datatype Viewer = Anonymous | Member(id: UserModels.UserId)

  // ------------------------------------------------------------------ counting

  /** The likes on target `t`. */
  function OnTarget(t: nat): Like -> bool {
    (l: Like) => l.target == t
  }

  /** A queryset's `count()` over the like rows on `t`. */
  function CountTarget(likes: seq<Like>, t: nat): (r: nat)
    ensures r <= |likes|
    ensures r == 0 <==> forall l :: l in likes ==> l.target != t
  {
    var on := Filter(likes, OnTarget(t));
    assert on != [] ==> on[0] in on;
    |on|
  }

  /** The users who liked target `t`. */
  function Likers(likes: seq<Like>, t: nat): set<UserModels.UserId> {
    set l | l in likes && l.target == t :: l.author
  }

  lemma LikersMembership(likes: seq<Like>, t: nat, u: UserModels.UserId)
    ensures u in Likers(likes, t) <==> Like(u, t) in likes
  {
    if u in Likers(likes, t) {
      var l :| l in likes && l.target == t && l.author == u;
      assert l == Like(u, t);
    }
  }

  /** Counting peels off the first row. */
  lemma CountTargetCons(likes: seq<Like>, t: nat)
    requires likes != []
    ensures CountTarget(likes, t) == (if likes[0].target == t then 1 else 0) + CountTarget(likes[1..], t)
  {
    assert likes == [likes[0]] + likes[1..];
  }

  /** Likers of the rows after the first, plus the first row's author when it is on `t`. */
  lemma LikersCons(likes: seq<Like>, t: nat)
    requires likes != []
    ensures Likers(likes, t) == (if likes[0].target == t then {likes[0].author} else {}) + Likers(likes[1..], t)
  {
    assert likes == [likes[0]] + likes[1..];
  }

  /** Under the uniqueness constraint the first row does not recur, and the rest is unique too. */
  lemma UniqueTail(likes: seq<Like>)
    requires Unique(likes) && likes != []
    ensures Unique(likes[1..]) && likes[0] !in likes[1..]
  {
    var rest := likes[1..];
    assert likes == [likes[0]] + rest;
    assert multiset(likes) == multiset{likes[0]} + multiset(rest);
    forall l ensures multiset(rest)[l] <= 1 {
      assert multiset(rest)[l] <= multiset(likes)[l];
    }
    assert multiset(likes)[likes[0]] == 1 + multiset(rest)[likes[0]];
  }

  /** Under the uniqueness constraint, the like count on `t` is the number of distinct users who liked it. */
  lemma {:induction false} CountIsLikers(likes: seq<Like>, t: nat)
    requires Unique(likes)
    ensures CountTarget(likes, t) == |Likers(likes, t)|
  {
    if likes == [] {
      assert Likers(likes, t) == {};
    } else {
      var rest := likes[1..];
      UniqueTail(likes);
      CountIsLikers(rest, t);
      CountTargetCons(likes, t);
      LikersCons(likes, t);
      if likes[0].target == t {
        LikersMembership(rest, t, likes[0].author);
      }
    }
  }

  // --------------------------------------------------------------------- posts

  /** `post_like_count`: the number of like rows on the post. */
  function PostLikeCount(s: Store, p: Post): (r: nat)
    ensures r == 0 <==> forall l :: l in s.postLikes ==> l.target != p.id
  {
    CountTarget(s.postLikes, p.id)
  }

  /**
   * `comment_like_count` as written: it counts the post's comments, not the
   * likes on them.
   */
  function CommentLikeCount(s: Store, p: Post): (r: nat)
    ensures r == 0 <==> forall c :: c in s.comments ==> c.post != p.id
  {
    var on := PostComments(s, p.id);
    assert on != [] ==> on[0] in on;
    |on|
  }

  /**
   * `comment_like_count` follows the comments: a comment created under the
   * post raises it by one, while liking or unliking a comment leaves it as
   * it was.
   */
  lemma CommentLikeCountFollowsComments(s: Store, p: Post, author: UserModels.UserId, id: CommentId, f: CommentForm, user: UserModels.UserId, comment: CommentId)
    ensures CreatePostComment(s, author, p.id, id, f).Success? ==>
      CommentLikeCount(CreatePostComment(s, author, p.id, id, f).value, p) == CommentLikeCount(s, p) + 1
    ensures CommentLikeToggle(s, user, comment).Success? ==>
      CommentLikeCount(CommentLikeToggle(s, user, comment).value.store, p) == CommentLikeCount(s, p)
  {
    if CreatePostComment(s, author, p.id, id, f).Success? {
      CreatedCommentListedUnderUrlPost(s, author, p.id, id, f, p.id);
    }
  }

  /**
   * `me_liked` on a post: false without a request or for an anonymous user,
   * otherwise whether the user is among the post's likers.
   */
  function PostMeLiked(s: Store, p: Post, request: Option<Viewer>): (r: bool)
    ensures r <==> request.Some? && request.value.Member? && request.value.id in Likers(s.postLikes, p.id)
  {
    match request
    case None => false
    case Some(Anonymous) => false
    case Some(Member(u)) =>
      LikersMembership(s.postLikes, p.id, u);
      Like(u, p.id) in s.postLikes
  }

  /**
   * What a post-like toggle does to the post's projection for the toggling
   * user: `me_liked` flips, `post_like_count` moves by one in the matching
   * direction, and every other post's count stays.
   */
  lemma PostLikeToggleProjection(s: Store, user: UserModels.UserId, p: Post)
    requires WellFormed(s) && PostLikeToggle(s, user, p.id).Success?
    ensures var t := PostLikeToggle(s, user, p.id).value.store;
      var before := PostMeLiked(s, p, Some(Member(user)));
      && PostMeLiked(t, p, Some(Member(user))) == !before
      && PostLikeCount(t, p) == (if before then PostLikeCount(s, p) - 1 else PostLikeCount(s, p) + 1)
      && forall q: Post :: q.id != p.id ==> PostLikeCount(t, q) == PostLikeCount(s, q)
  {
    var t := PostLikeToggle(s, user, p.id).value.store;
    ToggledCount(s.postLikes, t.postLikes, Like(user, p.id), p.id);
    forall q: Post | q.id != p.id ensures PostLikeCount(t, q) == PostLikeCount(s, q) {
      ToggledCount(s.postLikes, t.postLikes, Like(user, p.id), q.id);
    }
  }

  /** Flipping the membership of `l` alone adds or removes `l.author` among the likers of `l.target`. */
  lemma LikersAfterToggle(before: seq<Like>, after: seq<Like>, l: Like, t: nat)
    requires l in after <==> l !in before
    requires forall m :: m != l ==> multiset(after)[m] == multiset(before)[m]
    ensures t != l.target ==> Likers(after, t) == Likers(before, t)
    ensures t == l.target && l in before ==> Likers(after, t) == Likers(before, t) - {l.author}
    ensures t == l.target && l !in before ==> Likers(after, t) == Likers(before, t) + {l.author}
  {
    forall u | Like(u, t) != l ensures u in Likers(after, t) <==> u in Likers(before, t) {
      LikersMembership(after, t, u);
      LikersMembership(before, t, u);
      assert multiset(after)[Like(u, t)] == multiset(before)[Like(u, t)];
    }
    if t == l.target {
      LikersMembership(after, t, l.author);
      LikersMembership(before, t, l.author);
    }
  }

  /**
   * The counting core of both toggle projections: when `after` differs from
   * `before` only in the membership of `l`, the like count on `l.target`
   * moves by one and the count on any other target stays.
   */
  lemma ToggledCount(before: seq<Like>, after: seq<Like>, l: Like, t: nat)
    requires Unique(before) && Unique(after)
    requires l in after <==> l !in before
    requires forall m :: m != l ==> multiset(after)[m] == multiset(before)[m]
    ensures t == l.target ==> CountTarget(after, t) == (if l in before then CountTarget(before, t) - 1 else CountTarget(before, t) + 1)
    ensures t != l.target ==> CountTarget(after, t) == CountTarget(before, t)
  {
    CountIsLikers(before, t);
    CountIsLikers(after, t);
    LikersAfterToggle(before, after, l, t);
    LikersMembership(before, t, l.author);
  }

  // ------------------------------------------------------------------ comments

  /** The direct replies to comment `id`. */
  function RepliesTo(id: CommentId): Comment -> bool {
    (c: Comment) => c.parent == Some(id)
  }

  /**
   * `replies`: `None` when no comment replies to `c`, otherwise one entry per
   * reply row, in stored order.
   */
  function Replies(s: Store, c: Comment): (r: Option<seq<Comment>>)
    ensures r.None? <==> forall x :: x in s.comments ==> x.parent != Some(c.id)
    ensures r.Some? ==> forall x :: x in r.value <==> x in s.comments && x.parent == Some(c.id)
    ensures r.Some? ==> forall x: Comment :: x.parent == Some(c.id) ==> multiset(r.value)[x] == multiset(s.comments)[x]
  {
    var children := Filter(s.comments, RepliesTo(c.id));
    assert children != [] ==> children[0] in children;
    if children == [] then None else Some(children)
  }

  /** Every reply listed under a comment is among the comments deleting it would remove. */
  lemma RepliesAreDeletedWithParent(s: Store, c: Comment)
    requires Replies(s, c).Some?
    ensures forall x :: x in Replies(s, c).value ==> x !in DeleteComment(s, c.id).comments
  {
    var gone := Descendants(s.comments, {c.id});
    assert c.id in gone;
  }

  /** `likes_count` on a comment: the number of like rows on it. */
  function CommentLikesCount(s: Store, c: Comment): (r: nat)
    ensures r == 0 <==> forall l :: l in s.commentLikes ==> l.target != c.id
  {
    CountTarget(s.commentLikes, c.id)
  }

  /**
   * `me_liked` on a comment: whether the signed-in user is among its
   * likers; false for an anonymous user. Unlike the post serializer, this
   * one assumes a request is present.
   */
  function CommentMeLiked(s: Store, c: Comment, viewer: Viewer): (r: bool)
    ensures r <==> viewer.Member? && viewer.id in Likers(s.commentLikes, c.id)
  {
    match viewer
    case Anonymous => false
    case Member(u) =>
      LikersMembership(s.commentLikes, c.id, u);
      Like(u, c.id) in s.commentLikes
  }

  /** What a comment-like toggle does to the comment's `me_liked` and `likes_count`. */
  lemma CommentLikeToggleProjection(s: Store, user: UserModels.UserId, c: Comment)
    requires WellFormed(s) && CommentLikeToggle(s, user, c.id).Success?
    ensures var t := CommentLikeToggle(s, user, c.id).value.store;
      var before := CommentMeLiked(s, c, Member(user));
      && CommentMeLiked(t, c, Member(user)) == !before
      && CommentLikesCount(t, c) == (if before then CommentLikesCount(s, c) - 1 else CommentLikesCount(s, c) + 1)
  {
    var t := CommentLikeToggle(s, user, c.id).value.store;
    ToggledCount(s.commentLikes, t.commentLikes, Like(user, c.id), c.id);
  }
}
