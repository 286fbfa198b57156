# A verified model of the portfolio site's logic

This project models the logic of a portfolio web site in Dafny. The site has a
React front end with a board, a feed and an account area, and a NestJS back end
over an ORM. The model covers the parts whose behaviour can be stated without a
browser or a database:

- **Input validators.** The client password policy and the class-validator DTOs of the server:
  `ClassValidator`, `SignUpDto`, `UpdateProfileDto`, `PasswordValidator`. The
  server accepts 6–20 character passwords and the client 8–128;
  `SignUpDto.ClientAndServerPasswordRulesDisagree` shows both sides of that gap.
- **Board paging and query logic.** Blocks of five page buttons (`Pagination`).
  The URL query string is read, merged and reset, and turned into the list request
  (`UrlParams`). The list hook builds the same request and derives the page count (`Posts`).
- **Relative Korean timestamps.** A chain of floor divisions on a millisecond
  difference, and the 24-hour freshness test (`DateUtils`).
- **Profile-image URLs.** Development and Cloudinary upload URLs, the file name
  taken back out of a local URL, and the Cloudinary public id (`ProfileImage`).
- **Tables and stores.** The user, feed and comment services are classes over
  sequences of rows (`Auth`, `Feeds`, `Comments`), with unique-key invariants.
  The two front-end stores are classes too (`AuthState`, `Toasts`).
- **Shared helpers.** `Wrappers` holds `Option` and `Result`. `Text` holds
  decimal rendering and parsing and JavaScript's `split`/`join`. `Tables` holds
  `findIndex`, `filter`, counting and the ordering an ORM `find` promises.
  `HttpErrors` holds the thrown HTTP exceptions.

The environment enters as parameters:

- The clock is a `now` argument in milliseconds.
- A fresh uuid or row id is an argument required to be unused.
- bcrypt is a hash function the service is given; `compare(p, h)` is `hash(p) == h`.
- JWT signing is a function of the payload.
- The image service is a log of the URLs handed to it for deletion.
- The board list service is a function from the request to its outcome.

Where the service code and the declared entities, DTOs or documented behaviour disagree, the model follows the service code:

- The user entity has no `profileImage` column, but `auth.service.ts` reads and
  writes one. The model keeps it as the service uses it.
- `signUp` returns a single `token`, not a token pair.
- `signUp` checks no password policy beyond the DTO.
- `signUp` has no compensating delete.
- `SignUpDto` declares no `profileImage`. Under the whitelisting pipe a sign-up
  body carrying one is rejected, so `profileImage ?? null` is always null over HTTP.
  `Auth.AuthService.SignUp` still takes the argument, as the service does.

## Model

| member | source | states |
|---|---|---|
| PasswordValidator.ValidatePassword | frontend/src/utils/password-validator.ts:7-41 | the errors are exactly the messages of the broken rules, in check order; `isValid` iff there are none |
| PasswordValidator.ReportsEveryBrokenRule | frontend/src/utils/password-validator.ts:13-35 | a rule is reported iff the password breaks it, so every failure is listed, not just the first |
| PasswordValidator.ReportedInCheckOrder | frontend/src/utils/password-validator.ts:13-35 | reported rules appear in the order too short, too long, no lowercase, no digit, no symbol, each at most once |
| PasswordValidator.ValidIffAllRulesHold | frontend/src/utils/password-validator.ts:13-40 | nothing is reported iff the length is 8–128 and there is an ASCII lowercase letter, an ASCII digit and a listed symbol |
| PasswordValidator.AtMostFourErrors | frontend/src/utils/password-validator.ts:13-20 | too short and too long never occur together; at most four messages |
| PasswordValidator.CharacterClassesAreNarrow | frontend/src/utils/password-validator.ts:22-35 | upper-case letters, backtick and tilde satisfy none of the lowercase, digit and symbol rules |
| PasswordValidator.Messages | frontend/src/utils/password-validator.ts:13-35 | one message per rule, position by position |
| PasswordValidator.ExampleTooShort | frontend/src/utils/password-validator.ts:13-15 | "short1!" breaks only the minimum length |
| PasswordValidator.ExampleNoSymbol | frontend/src/utils/password-validator.ts:33-35 | "alllowercase1" breaks only the symbol rule |
| PasswordValidator.ExampleValid | frontend/src/utils/password-validator.ts:37-40 | "Password123!" breaks nothing |
| ClassValidator.AcceptsIff | backend/src/main.ts:29-35 | a body is accepted iff it has no undeclared property and every decorator of every non-skipped property holds |
| SignUpDto.SignUpAcceptedIff | backend/src/auth/dto/signup.dto.ts:10-31 | accepted iff only the three fields are present, all strings, with userId 4–20, password 6–20 and nickname 2–20 characters |
| SignUpDto.ClientAndServerPasswordRulesDisagree | backend/src/auth/dto/signup.dto.ts:21-22 | a 21-character password passes the client and fails the server; a 6-character one passes the server and fails the client |
| UpdateProfileDto.UpdateProfileAcceptedIff | backend/src/auth/dto/update-profile.dto.ts:10-20 | accepted iff there is no extra field, the nickname has 2–20 characters, and the image is absent, null or a string of at most 255 characters |
| UpdateProfileDto.AcceptedImageUpdate | backend/src/auth/dto/update-profile.dto.ts:17-20 | an accepted body means omitted, null or a string image, never anything else |
| UpdateProfileDto.NullImagePassesValidation | backend/src/auth/dto/update-profile.dto.ts:17-20 | an explicit null image passes validation and reaches the service as a deletion request |
| Pagination.CurrentBlockInfo | src/common/components/Pagination.tsx:31-44 | the block starts at the page ≡ 1 (mod 5) at most four before the current page; it ends at the block's fifth page or the last page; it is the first block iff it starts at page 1 |
| Pagination.BlockPageRange | src/common/components/Pagination.tsx:18-28 | the buttons are the consecutive pages start..end of that same block, at most five, including the current page whenever it exists |
| Pagination.Navigation | src/common/components/Pagination.tsx:47-64 | "previous" is absent iff block index 0, else start−1; "next" is absent iff end = last page, else end+1; each button is shown iff its target exists |
| Pagination.PageClick | src/common/components/Pagination.tsx:67-71 | the page passed on is the one clicked |
| Pagination.ClickGuard | src/common/components/Pagination.tsx:67-71 | a click is passed on iff the page differs from the current one and lies in 1..totalPages |
| Pagination.BlockButtonsLeadToNeighbourBlocks | src/common/components/Pagination.tsx:47-64 | the block buttons lead to the last page of the previous block and the first page of the next block, and the click guard lets both through |
| UrlParams.PageOf | src/hooks/Board/userUrlParams.ts:9 | a missing, non-numeric or zero page reads as 1; any other number reads as itself; the page is never 0 |
| UrlParams.OrDefault | src/hooks/Board/userUrlParams.ts:10-14 | a non-empty value is kept; a missing or empty one gives the default |
| UrlParams.Read | src/hooks/Board/userUrlParams.ts:9-14 | each field comes from its own key: the page as `PageOf` reads it (1 when the key is absent), category and keyword as their non-empty value or "", the search type as its non-empty value or "title" |
| UrlParams.PageReadsBack | src/hooks/Board/userUrlParams.ts:9 | a page written as `String(n)` reads back as n, and 0 as 1 |
| UrlParams.ReadExamples | src/hooks/Board/userUrlParams.ts:9-14 | a non-numeric or zero page reads as 1, a negative one as itself; empty category and search type read as "" and "title" |
| UrlParams.ResetReadsDefaults | src/hooks/Board/userUrlParams.ts:55-57 | an empty query string reads as page 1, no category, no keyword, search by title |
| UrlParams.ApplyEntriesGet | src/hooks/Board/userUrlParams.ts:30-37 | after the entry loop a key holds its last entry's string form, or is gone if that entry clears it, or keeps its old value if no entry names it |
| UrlParams.Expected | src/hooks/Board/userUrlParams.ts:30-48 | a key other than page, category, keyword and searchType keeps its value; a key the update names is never left holding "" |
| UrlParams.Updated | src/hooks/Board/userUrlParams.ts:25-52 | an empty update leaves the query string as it was; a change of search without a page removes the page |
| UrlParams.UpdatedPerKey | src/hooks/Board/userUrlParams.ts:25-52 | every key of the updated query string agrees with the key-by-key reference `Expected` |
| UrlParams.UpdatedAllKeys | src/hooks/Board/userUrlParams.ts:25-52 | the same, for all keys at once |
| UrlParams.ReadAfterUpdate | src/hooks/Board/userUrlParams.ts:25-52 | given fields read back as given (page 0 reads as 1, an empty search type as "title"); an omitted page reads 1 after a change of search; other fields keep their values |
| UrlParams.PageAfterUpdate | src/hooks/Board/userUrlParams.ts:25-52 | the page read after an update: as given (0 reads as 1), 1 after a change of search without a page, otherwise unchanged |
| UrlParams.TextAfterUpdate | src/hooks/Board/userUrlParams.ts:25-52 | a text field read after an update: as given ("" reads as its default), otherwise unchanged |
| UrlParams.UrlParamsHook.SetUrlParams | src/hooks/Board/userUrlParams.ts:25-52 | the loop leaves the query string `Updated(old, np)` |
| UrlParams.UrlParamsHook.ResetUrlParams | src/hooks/Board/userUrlParams.ts:55-57 | no parameters are left, and they read as the defaults |
| UrlParams.ApiParams | src/hooks/Board/userUrlParams.ts:60-66 | the request always has the page, limit 10, sort by createdAt, descending |
| UrlParams.UrlParamsHook.ToApiParams | src/hooks/Board/userUrlParams.ts:60-71 | the request asks for the page read from the URL (never 0), ten per page, newest first, with a category filter iff a category is chosen |
| UrlParams.ApiParamsFilters | src/hooks/Board/userUrlParams.ts:69-82 | category filter iff a category is chosen; at most one text filter; exactly one, holding the keyword on the chosen field, iff the keyword is non-empty and the search type is known |
| UrlParams.NewSearchRequestsFirstPage | src/hooks/Board/userUrlParams.ts:40-48 | a new keyword search asks for page 1 with exactly one text filter holding the keyword |
| Posts.TotalPages | src/hooks/Board/usePosts.ts:86 | the least n with 10·n ≥ totalCount |
| Posts.EveryPostHasAPage | src/hooks/Board/usePosts.ts:86 | with any posts there is a page, and the i-th post's page i/10+1 exists |
| Posts.PostsHook.Pages | src/hooks/Board/usePosts.ts:86 | the fewest pages of ten holding all posts; zero iff there are none |
| Posts.PostsHook.FetchPosts | src/hooks/Board/usePosts.ts:26-73 | the request equals `toApiParams`'s; success stores the data and count; failure stores no posts, count 0 and the error; loading ends |
| DateUtils.Classify | frontend/src/utils/date-utils.ts:20-40 | "just now" iff less than a minute has passed (or the date is in the future); never "no date" |
| DateUtils.TimeAgo | frontend/src/utils/date-utils.ts:10-45 | "no date" iff there is no date; an invalid date is "just now"; otherwise "just now" iff under a minute |
| DateUtils.Render | frontend/src/utils/date-utils.ts:28-43 | every relative time ends in " 전"; a missing date shows "날짜 정보 없음" |
| DateUtils.KoreanTimeAgo | frontend/src/utils/date-utils.ts:10-45 | "날짜 정보 없음" iff there is no date; an invalid date shows "방금 전"; any date shows a text ending in " 전" |
| DateUtils.ChainedUnits | frontend/src/utils/date-utils.ts:20-25 | each chained floor division equals one division by the unit's length in milliseconds |
| DateUtils.ClassifyThresholds | frontend/src/utils/date-utils.ts:20-40 | the largest unit with one whole unit passed is shown, with the count of whole units; under a minute or in the future, "just now" |
| DateUtils.CountsArePositive | frontend/src/utils/date-utils.ts:28-38 | every count shown is at least 1 |
| DateUtils.TwelveMonthsBeforeAYear | frontend/src/utils/date-utils.ts:24-31 | 360–364 days ago shows "12개월 전" |
| DateUtils.IsWithin24Hours | frontend/src/utils/date-utils.ts:52-64 | a date is recent iff less than 86 400 000 ms have passed, future dates included; an invalid or missing date is not recent |
| DateUtils.RecentIffShownInHoursOrLess | frontend/src/utils/date-utils.ts:20-59 | within 24 hours iff the relative time shows hours, minutes or "just now" |
| DateUtils.Examples | frontend/src/utils/date-utils.ts:10-45 | rendered values for under a minute, two hours, an invalid date and no date |
| ProfileImage.ExtName | backend/src/auth/profile-image.service.ts:35 | the extension is the last segment from its last dot on when that dot is not its first character and the segment is not `..`, and empty otherwise; it is a suffix of the last segment with one dot and no `/` |
| ProfileImage.ExtNameAtLastDot | backend/src/auth/profile-image.service.ts:35 | a name without `/` whose last dot is past its first character has the extension from that dot on |
| ProfileImage.ExtNameExample | backend/src/auth/profile-image.service.ts:35 | `photo.jpg` has the extension `.jpg` |
| ProfileImage.ExtNameLastDotWins | backend/src/auth/profile-image.service.ts:35 | `archive.tar.gz` has the extension `.gz` |
| ProfileImage.LocalFileName | backend/src/auth/profile-image.service.ts:87-90 | nothing iff the URL is empty or ends with `/`; otherwise the non-empty, `/`-free tail of the URL after its last `/` (or the whole URL) |
| ProfileImage.LocalUploadUrl | backend/src/auth/profile-image.service.ts:41-42 | the URL starts with the base URL and ends with the file name, and `LocalFileName` gives a plain file name back |
| ProfileImage.LocalUploadRoundTrip | backend/src/auth/profile-image.service.ts:35-42 | the last segment of a development upload URL is the stored file name `<uuid><ext>` |
| ProfileImage.PublicIdOfParts | backend/src/auth/profile-image.service.ts:131-144 | a public id comes out iff some segment is `upload` with at least two segments after it |
| ProfileImage.PublicId | backend/src/auth/profile-image.service.ts:124-129 | a URL not containing `cloudinary.com` gives no public id |
| ProfileImage.CloudinaryUrlShape | backend/src/auth/profile-image.service.ts:124-149 | for `…/upload/<version>/<folders>/<file>` the public id is the folders and the file up to its first dot, joined by `/` |
| ProfileImage.PublicIdOfSegments | backend/src/auth/profile-image.service.ts:131-141 | the same on the segment list |
| ProfileImage.DocumentedExample | backend/src/auth/profile-image.service.ts:119-123 | the documented URL maps to `profile-images/xuifnwovnojdrdw07hkl` |
| ProfileImage.Destroyed | backend/src/auth/profile-image.service.ts:108-111 | a URL with a non-empty public id destroys exactly that asset; otherwise nothing is destroyed, and never the empty id |
| ProfileImage.ProfileImageStorage.UploadImage | backend/src/auth/profile-image.service.ts:26-60 | development stores `<uuid><ext>` and returns its local URL; production stores Cloudinary's asset and returns its URL |
| ProfileImage.ProfileImageStorage.DeleteImage | backend/src/auth/profile-image.service.ts:67-79 | an empty URL changes nothing; otherwise the local file or the Cloudinary asset named by the URL goes |
| ProfileImage.ProfileImageStorage.DeleteFromLocal | backend/src/auth/profile-image.service.ts:84-100 | removes exactly the file named by a non-empty last segment |
| ProfileImage.ProfileImageStorage.DeleteFromCloudinary | backend/src/auth/profile-image.service.ts:105-117 | removes exactly the asset of a non-empty public id |
| HttpErrors.Status | backend/src/auth/auth.service.ts:35-43 | a conflict is 409, unauthorized 401, not found 404, forbidden 403; all are 4xx |
| Auth.Public | backend/src/auth/auth.service.ts:61-69 | the returned user has every field of the row except the password |
| Auth.PayloadOf | backend/src/auth/jwt.service.ts:10-18 | the token claims are the id as `sub`, the userId and the nickname |
| Auth.AuthService.TokenIgnoresSecrets | backend/src/auth/jwt.service.ts:10-18 | two rows with the same id, userId and nickname get the same token: the password, image and dates do not enter it |
| Auth.NicknameHeldIff | backend/src/auth/auth.service.ts:131-137 | the nickname lookup finds someone iff some row holds the nickname |
| Auth.ChangeImage | backend/src/auth/auth.service.ts:141-151 | null clears an existing image and deletes it; a non-empty different value replaces it and deletes the old one; omitted, empty or the same value keeps it; only a replaced truthy image is deleted |
| Auth.RemoveOne | backend/src/auth/auth.service.ts:199 | removing the row with a unique id removes exactly that row |
| Auth.RemoveKeepsKeys | backend/src/auth/auth.service.ts:199 | removal keeps ids, userIds and nicknames unique |
| Auth.AuthService.SignUp | backend/src/auth/auth.service.ts:27-70 | a taken userId is a conflict, checked before the nickname; nothing is stored on a conflict; otherwise one row with the password's hash is appended and the user without password is returned with its token; with the userId and nickname both free, sign-up succeeds |
| Auth.AuthService.SignIn | backend/src/auth/auth.service.ts:73-98 | success iff a row has the userId and the password's hash; the same unauthorized error for an unknown user and a wrong password |
| Auth.AuthService.FindUserById | backend/src/auth/auth.service.ts:101-114 | the row with that id without its password, or nothing iff no row has the id |
| Auth.AuthService.UpdateProfile | backend/src/auth/auth.service.ts:117-165 | not found first; a conflict only when the nickname changed and is held; otherwise only that row changes, to the new nickname and `ChangeImage`'s image, and the replaced image is sent for deletion |
| Auth.AuthService.CheckNicknameAvailability | backend/src/auth/auth.service.ts:168-174 | available iff no row holds the nickname |
| Auth.AuthService.DeleteAccount | backend/src/auth/auth.service.ts:177-204 | not found first; a wrong password deletes nothing; otherwise the truthy image is sent for deletion and exactly that row is removed |
| Auth.AuthService.SignUpThenSignIn | backend/src/auth/auth.service.ts:27-98 | after a successful sign-up, signing in with the same userId and password succeeds and returns the same user and token |
| Feeds.FeedService.FindAll | backend/src/feed/feed.service.ts:18-25 | every feed exactly once, newest createdAt first |
| Feeds.FeedService.Create | backend/src/feed/feed.service.ts:28-34 | exactly one feed with the content and author is appended; the rest is unchanged |
| Feeds.FeedService.FindOne | backend/src/feed/feed.service.ts:37-48 | found iff a feed has the id; otherwise NotFound |
| Feeds.FeedService.Update | backend/src/feed/feed.service.ts:51-62 | not found first; a non-author is forbidden and nothing changes; the author changes only that feed's content |
| Feeds.FeedService.Delete | backend/src/feed/feed.service.ts:65-74 | not found first; a non-author is forbidden and nothing changes; the author removes exactly that feed |
| Feeds.RemoveOne | backend/src/feed/feed.service.ts:73 | removing the feed with a unique id removes exactly that feed |
| Feeds.RemoveKeepsIds | backend/src/feed/feed.service.ts:73 | removal keeps ids unique |
| Comments.CommentService.FindByFeedId | backend/src/comment/comment.service.ts:18-28 | exactly the feed's comments, in both directions, oldest first |
| Comments.CommentService.Create | backend/src/comment/comment.service.ts:31-42 | exactly one comment with the content, feed and author is appended |
| Comments.CommentService.FindOne | backend/src/comment/comment.service.ts:45-56 | found iff a comment has the id; otherwise NotFound |
| Comments.CommentService.Update | backend/src/comment/comment.service.ts:59-70 | not found first; a non-author is forbidden; the author changes only that comment's content |
| Comments.CommentService.Delete | backend/src/comment/comment.service.ts:73-82 | not found first; a non-author is forbidden; the author removes exactly that comment |
| Comments.CommentService.GetCommentCount | backend/src/comment/comment.service.ts:85-89 | the count is the number of the feed's comments |
| Comments.CountMatchesListing | backend/src/comment/comment.service.ts:85-89 | the count equals the length of the feed's listing |
| Comments.RemoveOne | backend/src/comment/comment.service.ts:81 | removing the comment with a unique id removes exactly that comment |
| Comments.RemoveKeepsIds | backend/src/comment/comment.service.ts:81 | removal keeps ids unique |
| AuthState.AuthStore.constructor | frontend/src/store/authStore.ts:31-37 | no user, no tokens, not authenticated, not loading, no error, no redirect |
| AuthState.AuthStore.Persisted | frontend/src/store/authStore.ts:86-92 | exactly the user, both tokens and the authenticated flag |
| AuthState.AuthStore.SetLoading | frontend/src/store/authStore.ts:40 | only the loading flag changes |
| AuthState.AuthStore.SetError | frontend/src/store/authStore.ts:43 | only the error changes |
| AuthState.AuthStore.Login | frontend/src/store/authStore.ts:46-53 | the user and both tokens are set, authenticated, the error is cleared; loading and redirect are kept |
| AuthState.AuthStore.Logout | frontend/src/store/authStore.ts:56-64 | user, tokens, error and redirect are cleared and not authenticated; the persisted part is empty |
| AuthState.AuthStore.UpdateAccessToken | frontend/src/store/authStore.ts:67-70 | only the access token changes |
| AuthState.AuthStore.UpdateUser | frontend/src/store/authStore.ts:73-76 | only the user changes |
| AuthState.AuthStore.ClearError | frontend/src/store/authStore.ts:79 | only the error changes, to none |
| AuthState.AuthStore.SetShouldRedirect | frontend/src/store/authStore.ts:82 | only the redirect flag changes |
| Toasts.ToastStore.constructor | frontend/src/store/toastStore.ts:17 | the list starts empty |
| Toasts.ToastStore.AddToast | frontend/src/store/toastStore.ts:19-26 | exactly one toast is appended, with the clock's decimal form as its id |
| Toasts.ToastStore.RemoveToast | frontend/src/store/toastStore.ts:28-32 | every toast with the id leaves and every other one stays |
| Toasts.RemovalKeepsTheRest | frontend/src/store/toastStore.ts:30 | a toast stays iff its id differs; the list never grows; an unknown id changes nothing |
| Toasts.RemovalKeepsOrder | frontend/src/store/toastStore.ts:30 | the remaining toasts keep their relative order |
| Toasts.SameMillisecondToastsLeaveTogether | frontend/src/store/toastStore.ts:19-32 | two toasts added in the same millisecond share an id, so removing one removes both |
| Tables.FindIndex | backend/src/auth/profile-image.service.ts:132 | the first index whose element matches; none iff nothing matches |
| Tables.FilterMembers | frontend/src/store/toastStore.ts:30 | exactly the elements that pass survive a filter |
| Tables.FilterConcat | frontend/src/store/toastStore.ts:30 | the filter of a concatenation is the concatenation of the filters |
| Tables.CountIsFilterLength | backend/src/comment/comment.service.ts:85-89 | a count equals the length of the matching filter |
| Tables.SortByKey | backend/src/feed/feed.service.ts:21-23 | the result is a permutation of the rows sorted by the key |
| Text.NumberOfIntToString | src/hooks/Board/userUrlParams.ts:30-37 | `Number(String(n))` is `n` for every integer |
| Text.SplitJoin | backend/src/auth/profile-image.service.ts:131-141 | splitting a join of separator-free parts gives the parts back |
| Text.JoinSplit | backend/src/auth/profile-image.service.ts:131-141 | joining a split gives the string back |
| Text.LastSegmentIsSuffix | backend/src/auth/profile-image.service.ts:87-88 | the last piece of a split is the separator-free tail of the string after its last separator, or the whole string |
| Text.LastSegmentEmptyIff | backend/src/auth/profile-image.service.ts:87-90 | the last piece is empty iff the string is empty or ends with the separator |

## Left out

- Rendering, React effects, scroll-to-top and the UI components are left out. The board, feed and account pages are rendered views.
- Network calls, the ORM and the database are left out. Each table is a sequence of rows, and the list service's answer is a parameter of `Posts.PostsHook.FetchPosts`.
- Relations the ORM loads (`relations: ['user']`) are left out. Rows carry only their own columns.
- Concurrency is left out. Two requests racing past a uniqueness check are not modelled; each method runs alone.
- Ties in `createdAt` are left out. The model requires only a non-increasing or non-decreasing order, since the ORM leaves the order of equal timestamps open.
- bcrypt salting is left out. Hashing is a fixed function, and comparing means hashing again.
- JWT expiry and verification (`jwt.service.ts`) are not part of this model. Signing is a function of the payload.
- Cloudinary uploads, file writes and their error paths are left out. An upload always succeeds with the URL and public id given. Errors thrown while deleting a file or an asset are caught and logged by the source, and the model leaves them out.
- `Auth.AuthService.SignUp`: failures of the database save are not modelled.
- `UrlParams.UrlParamsHook.SetUrlParams`: the order of keys in the query string is not modelled, because the query string is a map. An update object holding a key with the value `undefined` is not modelled either; a key is given or omitted.
- `UrlParams.Read`: a query string is a map, so a key given twice in the URL keeps one value; `URLSearchParams.get` returns the first of several, which the model does not represent.
- `ProfileImage.ExtName`: a name ending in `/` is not modelled as Node's `path.extname` treats it (`"a.jpg/"` gives `.jpg` there and `""` here); multer hands over the base name of the uploaded file, so such a name does not reach the service.
- `UrlParams.PageOf`: JavaScript's `Number` is modelled only on decimal integers with an optional sign (`+` or `-`). Whitespace, decimals, exponents, `Infinity` and `-Infinity`, and hexadecimal, binary (`0b`) and octal (`0o`) literals count as not a number here, while `Number` accepts them (`Number("Infinity") || 1` is `Infinity`, the model reads 1).
- `DateUtils.TimeAgo`: the date argument is taken as its millisecond time value. Date-string parsing and floating-point time values are left out.
- The copy of `koreanTimeAgo` inline in `src/components/TechDemo/Board/BoardItem.tsx` is not part of this model.
- String lengths are counted in characters, not UTF-16 code units. This matters only for the DTO and password length bounds on text outside the Basic Multilingual Plane.
- Persisting the auth store to and rehydrating it from `localStorage` is left out. Only the persisted subset is modelled.
