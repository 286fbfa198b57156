/** The feed table (backend/src/feed/feed.service.ts): listing newest first,
    posting, and author-only editing and deletion. Ids are the uuids the database
    generates and timestamps come from the clock; both are parameters. */
module Feeds {
  import opened Wrappers
  import opened Tables
  import opened HttpErrors

  datatype Feed = Feed(id: string, content: string, userId: nat, createdAt: int, updatedAt: int)

  const FeedNotFoundMessage := "피드를 찾을 수 없습니다."
  const UpdateForbiddenMessage := "피드를 수정할 권한이 없습니다."
  const DeleteForbiddenMessage := "피드를 삭제할 권한이 없습니다."

  function HasId(id: string): Feed -> bool { (f: Feed) => f.id == id }
  function NotId(id: string): Feed -> bool { (f: Feed) => f.id != id }

  /** `order: { createdAt: 'DESC' }` as an ascending key. */
  function NewestFirst(f: Feed): int { -f.createdAt }

  ghost predicate UniqueIds(feeds: seq<Feed>) {
    forall i, j | 0 <= i < j < |feeds| :: feeds[i].id != feeds[j].id
  }

  class FeedService {
    var feeds: seq<Feed>

    ghost predicate Valid()
      reads this
    {
      UniqueIds(feeds)
    }

    constructor()
      ensures Valid() && feeds == []
    {
      feeds := [];
    }

    /** `findAll`: every feed, the newest first. */
    method FindAll() returns (r: seq<Feed>)
      ensures multiset(r) == multiset(feeds)
      ensures forall i, j | 0 <= i < j < |r| :: r[i].createdAt >= r[j].createdAt
    {
      r := SortByKey(feeds, NewestFirst);
      assert SortedBy(r, NewestFirst);
      forall i, j | 0 <= i < j < |r| ensures r[i].createdAt >= r[j].createdAt {
        assert NewestFirst(r[i]) <= NewestFirst(r[j]);
      }
    }

    /** `create`: one new feed at the end of the table. */
    method Create(content: string, userId: nat, newId: string, now: int) returns (feed: Feed)
      requires Valid()
      requires forall k | 0 <= k < |feeds| :: feeds[k].id != newId
      modifies this
      ensures Valid()
      ensures feed == Feed(newId, content, userId, now, now)
      ensures feeds == old(feeds) + [feed]
    {
      feed := Feed(newId, content, userId, now, now);
      feeds := feeds + [feed];
    }

    /** `findOne`: the feed with that id, or NotFound. */
    method FindOne(id: string) returns (r: Result<Feed, HttpError>)
      requires Valid()
      ensures r.Success? <==> exists k | 0 <= k < |feeds| :: feeds[k].id == id
      ensures r.Success? ==> r.value.id == id && r.value in feeds
      ensures r.Failure? ==> r.error == NotFound(FeedNotFoundMessage)
    {
      var found := FindIndex(feeds, HasId(id));
      if found.None? {
        forall k | 0 <= k < |feeds| ensures feeds[k].id != id {
          assert !HasId(id)(feeds[k]);
        }
        return Failure(NotFound(FeedNotFoundMessage));
      }
      assert HasId(id)(feeds[found.value]);
      r := Success(feeds[found.value]);
    }

    /** `update`: NotFound first, then Forbidden for anyone but the author;
        otherwise only that feed's content (and update time) changes. */
    method Update(id: string, content: string, userId: nat, now: int) returns (r: Result<Feed, HttpError>)
      requires Valid()
      modifies this
      ensures Valid()
      ensures (forall k | 0 <= k < |old(feeds)| :: old(feeds)[k].id != id) ==>
        r == Failure(NotFound(FeedNotFoundMessage)) && feeds == old(feeds)
      ensures forall k | 0 <= k < |old(feeds)| && old(feeds)[k].id == id ::
        if old(feeds)[k].userId != userId then
          r == Failure(Forbidden(UpdateForbiddenMessage)) && feeds == old(feeds)
        else
          && feeds == old(feeds)[k := old(feeds)[k].(content := content, updatedAt := now)]
          && r == Success(feeds[k])
    {
      var found := FindOne(id);
      if found.Failure? {
        return Failure(found.error);
      }
      var feed := found.value;
      if feed.userId != userId {
        return Failure(Forbidden(UpdateForbiddenMessage));
      }
      var i :| 0 <= i < |feeds| && feeds[i] == feed;
      feed := feed.(content := content, updatedAt := now);
      feeds := feeds[i := feed];
      r := Success(feed);
    }

    /** `delete`: NotFound first, then Forbidden for anyone but the author;
        otherwise exactly that feed leaves the table. */
    method Delete(id: string, userId: nat) returns (r: Result<(), HttpError>)
      requires Valid()
      modifies this
      ensures Valid()
      ensures (forall k | 0 <= k < |old(feeds)| :: old(feeds)[k].id != id) ==>
        r == Failure(NotFound(FeedNotFoundMessage)) && feeds == old(feeds)
      ensures forall k | 0 <= k < |old(feeds)| && old(feeds)[k].id == id ::
        if old(feeds)[k].userId != userId then
          r == Failure(Forbidden(DeleteForbiddenMessage)) && feeds == old(feeds)
        else
          feeds == old(feeds)[..k] + old(feeds)[k + 1..] && r == Success(())
    {
      var found := FindOne(id);
      if found.Failure? {
        return Failure(found.error);
      }
      var feed := found.value;
      if feed.userId != userId {
        return Failure(Forbidden(DeleteForbiddenMessage));
      }
      var i :| 0 <= i < |feeds| && feeds[i] == feed;
      RemoveOne(feeds, i);
      feeds := Filter(feeds, NotId(id));
      r := Success(());
    }
  }

  /** Removing the feed with a unique id removes exactly that feed and keeps the
      ids unique. */
  lemma RemoveOne(feeds: seq<Feed>, i: nat)
    requires i < |feeds| && UniqueIds(feeds)
    ensures Filter(feeds, NotId(feeds[i].id)) == feeds[..i] + feeds[i + 1..]
    ensures UniqueIds(feeds[..i] + feeds[i + 1..])
  {
    RemoveKeepsIds(feeds, i);
    var id := feeds[i].id;
    forall k | 0 <= k < |feeds| && k != i ensures NotId(id)(feeds[k]) {
      if k < i { assert feeds[k].id != feeds[i].id; } else { assert feeds[i].id != feeds[k].id; }
    }
    FilterRemovesOne(feeds, i, NotId(id));
  }

  lemma RemoveKeepsIds(feeds: seq<Feed>, i: nat)
    requires i < |feeds| && UniqueIds(feeds)
    ensures UniqueIds(feeds[..i] + feeds[i + 1..])
  {
    var rest := feeds[..i] + feeds[i + 1..];
    assert forall k | 0 <= k < |rest| :: rest[k] == if k < i then feeds[k] else feeds[k + 1];
  }
}
