/** The board list's data hook (src/hooks/Board/usePosts.ts): it builds the list
    request from the URL parameters, keeps the posts and their total count, and
    derives the number of pages. The list service is a parameter: `respond` gives
    the outcome of the request it receives. */
module Posts {
  import opened Wrappers
  import opened UrlParams

  /** What `boardApi.getPosts` produced: the page of posts and the number of posts
      matching the filters, or a thrown error. */
  datatype FetchOutcome<P> = Fetched(data: seq<P>, totalCount: nat) | FetchFailed

  const FetchErrorMessage := "게시글을 불러오는데 실패했습니다."

  /** `Math.ceil(totalCount / 10)`: the fewest pages of ten holding every post. */
  function TotalPages(totalCount: int): (pages: int)
    ensures PageSize * (pages - 1) < totalCount <= PageSize * pages
  {
    -((-totalCount) / PageSize)
  }

  /** There are no pages exactly when there are no posts, and the i-th post (from 0)
      is on page i / 10 + 1, which is one of the pages. */
  lemma EveryPostHasAPage(totalCount: nat, i: nat)
    requires i < totalCount
    ensures TotalPages(totalCount) >= 1
    ensures 1 <= i / PageSize + 1 <= TotalPages(totalCount)
  {
    var n := TotalPages(totalCount);
    assert PageSize * (i / PageSize) <= i < PageSize * n;
  }

  /** The hook's state. */
  class PostsHook<P> {
    var posts: seq<P>
    var totalCount: nat
    var isLoading: bool
    var error: Option<string>

    /** The state before the first fetch. */
    constructor()
      ensures posts == [] && totalCount == 0 && !isLoading && error == None
    {
      posts := [];
      totalCount := 0;
      isLoading := false;
      error := None;
    }

    /** `totalPages`. */
    function Pages(): (pages: nat)
      reads this
      ensures PageSize * (pages - 1) < totalCount <= PageSize * pages
      ensures pages == 0 <==> totalCount == 0
    {
      TotalPages(totalCount)
    }

    /** `fetchPosts` (also `refetch`): builds the request field by field, sends it,
        and stores what came back; on an error it shows the error message and an
        empty list. The request it builds is the one `toApiParams` describes. */
    method FetchPosts(u: UrlSearchParams, respond: PostSearchParams -> FetchOutcome<P>)
      returns (request: PostSearchParams)
      modifies this
      ensures request == ApiParams(u)
      ensures respond(request).Fetched? ==>
        posts == respond(request).data && totalCount == respond(request).totalCount && error == None
      ensures respond(request).FetchFailed? ==>
        posts == [] && totalCount == 0 && error == Some(FetchErrorMessage)
      ensures !isLoading
    {
      isLoading := true;
      error := None;
      request := PostSearchParams(u.page, 10, "createdAt", "desc", None, None, None, None);
      if u.category != "" {
        request := request.(category := Some(u.category));
      }
      if u.keyword != "" {
        match u.searchType {
          case "title" => request := request.(titleLike := Some(u.keyword));
          case "content" => request := request.(contentLike := Some(u.keyword));
          case "author" => request := request.(authorLike := Some(u.keyword));
          case _ =>
        }
      }
      var outcome := respond(request);
      match outcome {
        case Fetched(data, count) =>
          posts := data;
          totalCount := count;
        case FetchFailed =>
          error := Some(FetchErrorMessage);
          posts := [];
          totalCount := 0;
      }
      isLoading := false;
    }
  }
}
