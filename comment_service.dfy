/** The comment table (backend/src/comment/comment.service.ts): a feed's
    comments oldest first, posting, author-only editing and deletion, and the
    per-feed count. Ids are the uuids the database generates and timestamps come
    from the clock; both are parameters. */
module Comments {
  import opened Wrappers
  import opened Tables
  import opened HttpErrors

  datatype Comment = Comment(id: string, content: string, userId: nat, feedId: string, createdAt: int, updatedAt: int)

  const CommentNotFoundMessage := "댓글을 찾을 수 없습니다."
  const UpdateForbiddenMessage := "댓글을 수정할 권한이 없습니다."
  const DeleteForbiddenMessage := "댓글을 삭제할 권한이 없습니다."

  function HasId(id: string): Comment -> bool { (c: Comment) => c.id == id }
  function NotId(id: string): Comment -> bool { (c: Comment) => c.id != id }
  /** `where: { feedId }`. */
  function OnFeed(feedId: string): Comment -> bool { (c: Comment) => c.feedId == feedId }

  /** `order: { createdAt: 'ASC' }`. */
  function OldestFirst(c: Comment): int { c.createdAt }

  ghost predicate UniqueIds(comments: seq<Comment>) {
    forall i, j | 0 <= i < j < |comments| :: comments[i].id != comments[j].id
  }

  class CommentService {
    var comments: seq<Comment>

    ghost predicate Valid()
      reads this
    {
      UniqueIds(comments)
    }

    constructor()
      ensures Valid() && comments == []
    {
      comments := [];
    }

    /** `findByFeedId`: exactly the comments on that feed, the oldest first. */
    method FindByFeedId(feedId: string) returns (r: seq<Comment>)
      ensures multiset(r) == multiset(Filter(comments, OnFeed(feedId)))
      ensures forall c | c in r :: c in comments && c.feedId == feedId
      ensures forall c | c in comments && c.feedId == feedId :: c in r
      ensures forall i, j | 0 <= i < j < |r| :: r[i].createdAt <= r[j].createdAt
    {
      var onFeed := Filter(comments, OnFeed(feedId));
      FilterMembers(comments, OnFeed(feedId));
      r := SortByKey(onFeed, OldestFirst);
      assert SortedBy(r, OldestFirst);
      forall c | c in r ensures c in comments && c.feedId == feedId {
        assert c in multiset(r);
        assert c in onFeed;
        assert OnFeed(feedId)(c);
      }
      forall c | c in comments && c.feedId == feedId ensures c in r {
        assert OnFeed(feedId)(c);
        assert c in multiset(onFeed);
      }
    }

    /** `create`: one new comment at the end of the table. */
    method Create(content: string, feedId: string, userId: nat, newId: string, now: int) returns (comment: Comment)
      requires Valid()
      requires forall k | 0 <= k < |comments| :: comments[k].id != newId
      modifies this
      ensures Valid()
      ensures comment == Comment(newId, content, userId, feedId, now, now)
      ensures comments == old(comments) + [comment]
    {
      comment := Comment(newId, content, userId, feedId, now, now);
      comments := comments + [comment];
    }

    /** `findOne`: the comment with that id, or NotFound. */
    method FindOne(id: string) returns (r: Result<Comment, HttpError>)
      requires Valid()
      ensures r.Success? <==> exists k | 0 <= k < |comments| :: comments[k].id == id
      ensures r.Success? ==> r.value.id == id && r.value in comments
      ensures r.Failure? ==> r.error == NotFound(CommentNotFoundMessage)
    {
      var found := FindIndex(comments, HasId(id));
      if found.None? {
        forall k | 0 <= k < |comments| ensures comments[k].id != id {
          assert !HasId(id)(comments[k]);
        }
        return Failure(NotFound(CommentNotFoundMessage));
      }
      assert HasId(id)(comments[found.value]);
      r := Success(comments[found.value]);
    }

    /** `update`: NotFound first, then Forbidden for anyone but the author;
        otherwise only that comment's content (and update time) changes. */
    method Update(id: string, content: string, userId: nat, now: int) returns (r: Result<Comment, HttpError>)
      requires Valid()
      modifies this
      ensures Valid()
      ensures (forall k | 0 <= k < |old(comments)| :: old(comments)[k].id != id) ==>
        r == Failure(NotFound(CommentNotFoundMessage)) && comments == old(comments)
      ensures forall k | 0 <= k < |old(comments)| && old(comments)[k].id == id ::
        if old(comments)[k].userId != userId then
          r == Failure(Forbidden(UpdateForbiddenMessage)) && comments == old(comments)
        else
          && comments == old(comments)[k := old(comments)[k].(content := content, updatedAt := now)]
          && r == Success(comments[k])
    {
      var found := FindOne(id);
      if found.Failure? {
        return Failure(found.error);
      }
      var comment := found.value;
      if comment.userId != userId {
        return Failure(Forbidden(UpdateForbiddenMessage));
      }
      var i :| 0 <= i < |comments| && comments[i] == comment;
      comment := comment.(content := content, updatedAt := now);
      comments := comments[i := comment];
      r := Success(comment);
    }

    /** `delete`: NotFound first, then Forbidden for anyone but the author;
        otherwise exactly that comment leaves the table. */
    method Delete(id: string, userId: nat) returns (r: Result<(), HttpError>)
      requires Valid()
      modifies this
      ensures Valid()
      ensures (forall k | 0 <= k < |old(comments)| :: old(comments)[k].id != id) ==>
        r == Failure(NotFound(CommentNotFoundMessage)) && comments == old(comments)
      ensures forall k | 0 <= k < |old(comments)| && old(comments)[k].id == id ::
        if old(comments)[k].userId != userId then
          r == Failure(Forbidden(DeleteForbiddenMessage)) && comments == old(comments)
        else
          comments == old(comments)[..k] + old(comments)[k + 1..] && r == Success(())
    {
      var found := FindOne(id);
      if found.Failure? {
        return Failure(found.error);
      }
      var comment := found.value;
      if comment.userId != userId {
        return Failure(Forbidden(DeleteForbiddenMessage));
      }
      var i :| 0 <= i < |comments| && comments[i] == comment;
      RemoveOne(comments, i);
      RemoveKeepsIds(comments, i);
      comments := Filter(comments, NotId(id));
      r := Success(());
    }

    /** `getCommentCount`: counted on its own, it is the number of comments
        `findByFeedId` lists. */
    method GetCommentCount(feedId: string) returns (n: nat)
      ensures n == |Filter(comments, OnFeed(feedId))|
    {
      n := Count(comments, OnFeed(feedId));
      CountIsFilterLength(comments, OnFeed(feedId));
    }
  }

  /** Anything with the same elements as the feed's comments, in particular the
      list `findByFeedId` returns, is as long as the count. */
  lemma CountMatchesListing(comments: seq<Comment>, feedId: string, listed: seq<Comment>)
    requires multiset(listed) == multiset(Filter(comments, OnFeed(feedId)))
    ensures |listed| == Count(comments, OnFeed(feedId))
  {
    CountIsFilterLength(comments, OnFeed(feedId));
    assert |multiset(listed)| == |listed|;
    assert |multiset(Filter(comments, OnFeed(feedId)))| == |Filter(comments, OnFeed(feedId))|;
  }

  lemma RemoveOne(comments: seq<Comment>, i: nat)
    requires i < |comments| && UniqueIds(comments)
    ensures Filter(comments, NotId(comments[i].id)) == comments[..i] + comments[i + 1..]
  {
    var id := comments[i].id;
    forall k | 0 <= k < |comments| && k != i ensures NotId(id)(comments[k]) {
      if k < i { assert comments[k].id != comments[i].id; } else { assert comments[i].id != comments[k].id; }
    }
    FilterRemovesOne(comments, i, NotId(id));
  }

  lemma RemoveKeepsIds(comments: seq<Comment>, i: nat)
    requires i < |comments| && UniqueIds(comments)
    ensures UniqueIds(comments[..i] + comments[i + 1..])
  {
    var rest := comments[..i] + comments[i + 1..];
    assert forall k | 0 <= k < |rest| :: rest[k] == if k < i then comments[k] else comments[k + 1];
  }
}
