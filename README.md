# A Dafny model of the pirate_bay forum, catalogue and user back end and its page scripts

This project models the rules of a small torrent-index web application: an Express/Mongoose back
end (forum, torrent and user controllers, the authentication middleware, the four schemas) and
four of its browser scripts (the thread page, the torrent details page, the home page and the
forum index). MongoDB collections are in-memory sequences of records; object ids and timestamps
are naturals. bcrypt's hash and compare, JWT signing and verification, the user lookup of the
middleware, and the metadata `parse-torrent` extracts are parameters of the operations that use them.

The modules follow the program:

- `Models` (models.dfy) holds the stored documents: the Torrent, User, Thread and Forum schemas as datatypes, the category enum, the defaults, and validity predicates for required and unique paths. The in-memory User document and its password-hashing save hook are a class.
- `BBCode` (bbcode.dfy) holds `parseBBCode`: three non-greedy left-to-right passes, for `[b]`, `[i]` and `[quote]`, then newline conversion.
- `ForumController` holds `getForums` with its topic and post counts, and the thread list of a forum with its reply counts, last posts and activity order. It also holds `getLastThreadInForum`, the paginated rendered posts of a thread, `createPost` and `createForum`.
- `UserController` holds registration, login and the profile with its stats, followers and follow status. It also holds the uploads and posts of a user, and follow, unfollow, bookmark and unbookmark. The last four are methods that change the loaded `UserDocument` in place and then save it.
- `TorrentController` holds the listing filter built field by field, upload with its metadata mapping and duplicate check, the lucky and top selections, and download tracking on a `Catalog` class.
- `AuthMiddleware` holds `protect` and `identifyUser`, their header parsing and their outcome ladder.
- `ThreadPage` (inner.js) holds the reply textarea as a class, whose handlers overwrite its value. That covers the BBCode buttons, the quote button and quote-reply. It also holds the checks made before a reply is sent, and the two page-number bars, built in a loop.
- `TorrentPage` (torrent.js) holds the magnet link, a magnet URI as BitTorrent BEP 9 describes it. It also holds the displayed hash and file count, and the bookmark button as a class that mirrors the stored bookmark list.
- `HomePage` (home.js) holds the search parameters assembled step by step, and the lucky-search request.
- `SearchPage` (search.js) holds the listing request the search results page sends for the query in its address. It stands beside the request that forwards both search parameters encoded.
- `ForumPage` (forum.js) holds the split of the listed forums into the FAQ, guide and community tables, and the moderator-only controls.
- `Collections`, `Text`, `Uri` and `Wrappers` are the shared vocabulary:
  - filtering, sorting by a key, counting and summing;
  - add-if-absent and remove-all on id lists;
  - split and join, trim and case mapping;
  - `parseInt`;
  - `encodeURIComponent` with its percent-decoding inverse, and query-string lookup.

Things the model shows about the program as it is written:

- `createForum` stores only `name` and `description` (forumController.js:40-42), and the Forum schema declares no `type`. So every forum created through the API is listed by the forum index in none of its three tables. The tables select by `type` (`ForumPage.ApiForumsListedNowhere`, `ForumController.CreateForumIgnoresType`).
- `createPost` does not look at `isLocked`: `ForumController.CreatePost` takes only the thread id, so no thread record and no lock can stop a post. A locked thread's reply count still rises (`ForumController.ReplyCountAfterPost`). `createPost` does not touch the thread's `updatedAt` either.
- registerUser checks only the email before creating (userController.js:20-24). A taken username, or a missing field, fails at `User.create` and is answered 500. A body with no email is the exception, as long as any user is stored: Mongoose drops the undefined `email` from the filter, `findOne({})` finds a user, and the answer is 400 "User already exists". The login handler in turn checks such a body's password against the first stored user (`UserController.FindByEmail`). The `else` branch answering 400 "Invalid user data" (lines 39-41) cannot be reached, because `create` either returns a document or throws.
- The quote-reply text `[quote=name]…[/quote]` from the thread page is not one of the three tags `parseBBCode` knows. It is rendered as it was typed (`ThreadPage.QuoteReplyRendersLiterally`).
- The User schema has no `role` path, and login returns no role. The forum index's moderator test therefore holds only for a user record that carries a `role` from elsewhere. `ForumPage.ForumIndex.constructor` takes the stored role as given.
- Three defects are logged under "## Findings". The `protect` middleware sends two responses for a Bearer header with no token. The lucky search sends its query unencoded. The search results page forwards only the query, unencoded, so the checked categories never reach the listing.

## Model

| member | source | states |
|---|---|---|
| Models.ParseCategory | backend/models/Torrent.js:12-16 | a category string is accepted exactly when it is one of the six enum names, and then names that category |
| Models.NewTorrentDefaults | backend/models/Torrent.js:31-42 | a new torrent has 0 seeders, leechers and downloads, keeps its files, image paths and hash, and is valid exactly when name, description, infoHash and torrentFilePath are present |
| Models.CatalogExtends | backend/models/Torrent.js:21-25 | a valid catalogue stays valid after adding a torrent exactly when that torrent is valid and its info hash and id are unused |
| Models.UserDocument.Load | backend/models/User.js:4-35 | a loaded document holds the stored user and counts as unmodified |
| Models.UserDocument.Create | backend/models/User.js:20-31 | a new user has the default avatar `uploads/avatars/default.png`, empty following and bookmark lists, and a password marked modified |
| Models.UserDocument.Save | backend/models/User.js:38-45 | saving replaces the password by its salted hash only when it was modified, leaves it as stored otherwise, and changes no other field |
| Models.NewThreadDefaults | backend/models/Thread.js:3-25 | a new thread is unlocked, its timestamps start equal, it keeps forum and author, and it is valid exactly when it has a title |
| BBCode.NewlinesToBreaks | backend/controllers/forumController.js:13 | the result holds no newline, and text without a newline is unchanged (the mapping itself is stated by the three lemmas below) |
| BBCode.NewlinesToBreaksConcat | backend/controllers/forumController.js:13 | the global replacement distributes over concatenation: it works character by character |
| BBCode.NewlinesToBreaksChar | backend/controllers/forumController.js:13 | a newline becomes `<br>` and every other character stays as it is |
| BBCode.NewlineBecomesBreak | backend/controllers/forumController.js:13 | in `a + "\n" + b` with newline-free `a`, the newline is replaced by `<br>` in place, `a` is kept and the replacement goes on in `b` |
| BBCode.ParseBBCode | backend/controllers/forumController.js:7-15 | rendered text never holds a newline; absent input renders as the empty string |
| BBCode.EmptyRendersEmpty | backend/controllers/forumController.js:8 | absent and empty input both render as `''` |
| BBCode.ReplacePairs | backend/controllers/forumController.js:9-11 | one global, lazy pass of a tag pair, scanning from the left; it has no contract of its own, and the lemmas from here to `BBCode.WrappedSelection` state what it does |
| BBCode.NoOpenUnchanged | backend/controllers/forumController.js:9-11 | a pass leaves text without its opening tag unchanged |
| BBCode.NoCloseUnchanged | backend/controllers/forumController.js:9-11 | a pass leaves text without its closing tag unchanged: an unterminated tag is copied literally |
| BBCode.NoBracketRendersLiterally | backend/controllers/forumController.js:7-14 | text without `[` renders as itself with newlines turned into `<br>`; nothing else is altered or escaped |
| BBCode.BracketFreePrefix | backend/controllers/forumController.js:9-11 | a pass copies a bracket-free prefix and continues after it |
| BBCode.FirstCloseAfter | backend/controllers/forumController.js:9 | the first closing tag is found right after a selection that holds none |
| BBCode.MatchStep | backend/controllers/forumController.js:9-11 | with the opening tag at the start and a closing tag at offset `j` after it, none earlier, the pass wraps exactly the text before that nearest closing tag (the lazy `.*?`) and resumes after it |
| BBCode.PairAtStart | backend/controllers/forumController.js:9-11 | a leading pair around text without the closing tag becomes left + text + right |
| BBCode.WrappedSelection | backend/controllers/forumController.js:9-11 | a pair after a bracket-free prefix is replaced in place, with everything before it kept |
| BBCode.LaterPassesUnchanged | backend/controllers/forumController.js:10-11 | the italic and quote passes leave bracket-free text unchanged |
| BBCode.BoldSelectionPass | backend/controllers/forumController.js:9 | `pre[b]x[/b]post` becomes `pre<strong>x</strong>post` under the bold pass |
| BBCode.BoldSelectionRenders | backend/controllers/forumController.js:7-14 | a bracket-free, newline-free text with one bold pair renders the pair as `<strong>` and the rest unchanged |
| BBCode.BoldThenItalicPasses | backend/controllers/forumController.js:9-10 | the bold pass and then the italic pass turn `[b]x[/b][i]y[/i]` into `<strong>x</strong><em>y</em>` |
| BBCode.BracketFreeAfterTwoPasses | backend/controllers/forumController.js:11-13 | when the first two passes leave no `[` and no newline, the quote and newline passes change nothing more |
| BBCode.BoldThenItalic | backend/controllers/forumController.js:9-14 | the passes apply in their fixed order: `[b]x[/b][i]y[/i]` renders as `<strong>x</strong><em>y</em>` |
| BBCode.NoPairRendersLiterally | backend/controllers/forumController.js:9-14 | newline-free text with no `[/b]`, `[i]` and `[quote]` renders as itself |
| BBCode.UnterminatedExample | backend/controllers/forumController.js:9 | `[b]bold` with no closing tag is copied literally |
| ForumController.GetForums | backend/controllers/forumController.js:18-31 | every forum, in store order, with topics the number of its threads and posts its aggregated post count |
| ForumController.JoinedThreadsAtMostOne | backend/controllers/forumController.js:24-26 | with unique thread ids a post joins at most one thread of the forum, and one exactly when its thread exists and belongs to the forum |
| ForumController.ForumPostCount | backend/controllers/forumController.js:23-29 | the aggregation's `$count`: per post, the number of threads it joins in the forum; no contract of its own, `ForumController.ForumPostCountCountsPostsInForum` states what it counts |
| ForumController.ForumPostCountCountsPostsInForum | backend/controllers/forumController.js:23-29 | the aggregated count is the number of posts whose thread exists and belongs to the forum, 0 when there is none |
| ForumController.ReplyCount | backend/controllers/forumController.js:59-67 | zero exactly when the thread has at most one post, otherwise the number of its posts less the opening one |
| ForumController.ReplyCountAfterPost | backend/controllers/forumController.js:59-67 | a new post in a thread that had posts raises its reply count by one, whether or not the thread is locked; the first post and posts elsewhere leave it |
| ForumController.Summarize | backend/controllers/forumController.js:58-72 | reply count is posts-minus-one floored at 0; last post is null exactly when the thread has no post, otherwise a post of the thread with the greatest createdAt |
| ForumController.FindForum | backend/controllers/forumController.js:76 | the forum with the id, or null exactly when there is none |
| ForumController.ForumThreadOrder | backend/controllers/forumController.js:53-54 | exactly the forum's threads, as a permutation, most recently updated first |
| ForumController.SummarizeAll | backend/controllers/forumController.js:58-73 | one summary per thread, in thread order |
| ForumController.GetThreadsInForum | backend/controllers/forumController.js:51-81 | the forum (or null) and its threads in non-increasing updatedAt order, each with its reply count and last post |
| ForumController.GetLastThreadInForum | backend/controllers/forumController.js:98-104 | 404 exactly when the forum has no thread; otherwise a thread of the forum with the greatest updatedAt |
| ForumController.PageNumber | backend/controllers/forumController.js:110 | the page read as `parseInt(page)`, or 1 when that is falsy, is never 0 |
| ForumController.PageNumberOfDecimal | backend/controllers/forumController.js:110 | no page parameter is page 1, `0` is page 1, a decimal page number `n` is page `n` (exact in the source up to 2^53, see `Text.ParseInt` under "## Left out") |
| ForumController.TotalPages | backend/controllers/forumController.js:109-129 | the fewest pages of five that hold every post: `ceil(total / 5)` |
| ForumController.Rendered | backend/controllers/forumController.js:120-123 | a served post keeps its id, thread, author and time, and its content is the rendered BBCode |
| ForumController.RenderedAll | backend/controllers/forumController.js:120-124 | every post of the page is rendered, in order |
| ForumController.ThreadOrder | backend/controllers/forumController.js:113-115 | exactly the thread's posts, as a permutation, oldest first |
| ForumController.PageStart | backend/controllers/forumController.js:116 | the skip is negative exactly below page 1 |
| ForumController.PostsForPage | backend/controllers/forumController.js:111-131 | a page below 1 is refused with 500; otherwise the page echoes its number, reports `ceil(total/5)` pages and holds up to five posts from index `(page-1)*5` |
| ForumController.GetPostsInThread | backend/controllers/forumController.js:107-132 | the page read from the query is served as PostsForPage serves it; only a negative page number is refused |
| ForumController.PostsOnPage | backend/controllers/forumController.js:113-124 | slot k of page p is the rendered post at index `(p-1)*5 + k` of the oldest-first order |
| ForumController.EveryPostOnItsPage | backend/controllers/forumController.js:109-129 | post i of the oldest-first order is served on page `i/5 + 1`, within the page count, at slot `i%5` |
| ForumController.PositionOnPage | backend/controllers/forumController.js:116-129 | page `i/5+1`, slot `i%5` addresses index i, and that page does not exceed the page count |
| ForumController.PagesPastTheEndEmpty | backend/controllers/forumController.js:113-117 | a page after the last one is served empty, not refused |
| ForumController.TwelvePostsExample | backend/controllers/forumController.js:109-129 | twelve posts give three pages, and page 3 holds two posts |
| ForumController.CreatePost | backend/controllers/forumController.js:134-140 | one post is appended with the thread, author, content and time given, and the earlier posts are unchanged |
| ForumController.CreatePostForumCount | backend/controllers/forumController.js:22-29 | a new post raises the post count of exactly the forum its thread belongs to, by one |
| ForumController.CreateForum | backend/controllers/forumController.js:39-48 | created exactly when name and description are present and the name is unused, holding only those two fields; otherwise 500 and no change |
| ForumController.CreateForumKeepsForumsValid | backend/models/Forum.js:3-16 | creating a forum keeps names unique and required paths present |
| ForumController.CreateForumIgnoresType | backend/controllers/forumController.js:40-42 | the submitted `type` has no effect on the stored forum or the response |
| UserController.FindByUsername | backend/controllers/userController.js:74 | the first user in store order with the username, or none exactly when no user has it |
| UserController.FindByEmail | backend/controllers/userController.js:20 | the first user in store order with the email, or none exactly when no user has it; with no email in the body, the first stored user, none only on an empty store |
| UserController.FindUserById | backend/controllers/userController.js:98 | the first user in store order with the id, or none exactly when there is none |
| UserController.RegisterUser | backend/controllers/userController.js:16-45 | 400 exactly when the email lookup finds a user, which with no email in the body is exactly when the store is not empty; 500 when the lookup finds none and a field is missing or the username is taken; otherwise 201 with a token for the new id and one new user with hashed password, default avatar and empty lists |
| UserController.RegisteredUserKeepsStoreValid | backend/models/User.js:5-14 | adding a valid user with a fresh id, username and email keeps the unique indexes |
| Models.MatchPassword | backend/models/User.js:48-51 | bcrypt's `compare` of the entered password with the stored hash; no contract of its own, `UserController.LoginUser` and `UserController.LoginAfterRegistration` state its use |
| UserController.LoginUser | backend/controllers/userController.js:50-69 | logged in exactly when the email lookup finds a user and the password matches, and then with that user's token; the same 401 for an unknown email and a wrong password; 500 for a missing password when the lookup finds a user; a body with no email is checked against the first stored user |
| UserController.LoginAfterRegistration | backend/controllers/userController.js:26-62 | a newly registered user can log in with the password it registered with |
| UserController.PopulateUsers | backend/controllers/userController.js:77 | the populated list is, position by position, the card of each listed id that has a user, in the list's order and with its repetitions; ids without a user are dropped |
| UserController.PopulateUsersCount | backend/controllers/userController.js:77 | the populated list holds one card per listed id that resolves |
| UserController.FindTorrent | backend/controllers/userController.js:76 | the first torrent in store order with the id, none exactly when no torrent has it |
| UserController.PopulateTorrents | backend/controllers/userController.js:76 | the populated bookmarks are, position by position, the card of each bookmarked id that names a torrent, in the list's order and with its repetitions; ids of removed torrents are dropped |
| UserController.PopulateTorrentsCount | backend/controllers/userController.js:76 | the populated bookmarks hold one entry per listed id that resolves |
| UserController.Followers | backend/controllers/userController.js:93 | exactly the users whose following list holds the profile id, one card each |
| UserController.IsFollowing | backend/controllers/userController.js:96-102 | false without a viewer; otherwise true exactly when the viewer's following list holds the profile id |
| UserController.ProfileStats | backend/controllers/userController.js:84-90 | uploads and posts are the user's torrent and post counts; totalDownloads is the sum of downloads over the user's torrents, 0 when there are none |
| UserController.StatsAfterUpload | backend/controllers/userController.js:84-90 | a new torrent by the user adds one upload and its downloads; one by anybody else changes nothing |
| UserController.GetUserProfile | backend/controllers/userController.js:72-123 | 404 exactly when no user has the username; otherwise the user's public fields, populated lists, followers, follow status and stats |
| UserController.FollowShowsOnProfile | backend/controllers/userController.js:93-102 | when a user follows the target, the target's profile shows that user among its followers and as following for that viewer |
| UserController.UploadOrder | backend/controllers/userController.js:160-161 | exactly the user's torrents, newest first |
| UserController.GetUserUploads | backend/controllers/userController.js:155-166 | 404 exactly when no user has the username; otherwise the user's torrents newest first |
| UserController.WithThread | backend/controllers/userController.js:178-181 | a post with the title of the first thread in store order with its thread id, or null exactly when the thread is missing |
| UserController.UserPostOrder | backend/controllers/userController.js:176-177 | exactly the user's posts, newest first |
| UserController.GetUserPosts | backend/controllers/userController.js:171-186 | 404 exactly when no user has the username; otherwise the user's posts newest first, each with its thread title |
| UserController.FollowUser | backend/controllers/userController.js:191-210 | 404 and no change for an unknown username; otherwise the target id is appended only if absent, nothing else changes, and the password hash stays |
| UserController.UnfollowUser | backend/controllers/userController.js:215-232 | 404 and no change for an unknown username; otherwise every occurrence of the target id is removed, nothing else changes, and the password hash stays |
| UserController.BookmarkTorrent | backend/controllers/userController.js:237-251 | the torrent id is appended to the bookmarks only if absent; following and the password stay |
| UserController.UnbookmarkTorrent | backend/controllers/userController.js:256-268 | every occurrence of the torrent id is removed from the bookmarks; following and the password stay |
| UserController.FollowTwice | backend/controllers/userController.js:200-204 | following the same user twice leaves the list as one follow leaves it |
| TorrentController.BuildQueryFilter | backend/controllers/torrentController.js:10-24 | a name condition exactly for a non-empty `q`, a category list exactly for a non-empty `categories`, split on `,` |
| TorrentController.NameMatches | backend/controllers/torrentController.js:14-17 | the name condition: no condition, or a case-insensitive substring test; no contract of its own, `TorrentController.GetTorrents` states its use |
| TorrentController.GetTorrents | backend/controllers/torrentController.js:26 | exactly the torrents matching both conditions, each as often as it is stored |
| TorrentController.FilterBoth | backend/controllers/torrentController.js:10-26 | filtering by a conjunction is filtering by one condition and then the other |
| TorrentController.FiltersAreConjunctive | backend/controllers/torrentController.js:10-26 | the listing filters by name and then by category |
| TorrentController.EmptyQueryListsEverything | backend/controllers/torrentController.js:10-26 | with no parameters every torrent is listed, in store order |
| TorrentController.FileList | backend/controllers/torrentController.js:56 | the parsed files mapped in order to path and length, or one entry with the torrent's name and size when there are no files |
| TorrentController.FileListSize | backend/controllers/torrentController.js:55-56 | the file sizes add up to the parsed lengths, or to the torrent size for a single file |
| TorrentController.UploadTorrent | backend/controllers/torrentController.js:36-92 | 400 exactly without a file; 400 exactly for a known info hash; 201 exactly for a parsed, new, schema-valid upload, adding exactly one record; no change otherwise; the uploaded file is cleaned up exactly when it is not kept |
| TorrentController.UploadKeepsCatalogValid | backend/controllers/torrentController.js:59-82 | an upload keeps info hashes unique and required fields present |
| TorrentController.UploadedRecordDefaults | backend/controllers/torrentController.js:53-79 | the new record takes name and hash from the parsed file, starts with zero counters, and keeps the image paths in upload order |
| TorrentController.GetLuckyTorrent | backend/controllers/torrentController.js:109-128 | 404 exactly when nothing matches; otherwise a matching torrent whose seeders are at least those of every match |
| TorrentController.BySeeders | backend/controllers/torrentController.js:136-138 | exactly the torrents of the category, as a permutation, in non-increasing seeders order |
| TorrentController.GetTopTorrents | backend/controllers/torrentController.js:134-146 | the first `min(n, 100)` of the category's torrents by seeders; none left out has more seeders than one listed |
| TorrentController.TopListsAllWhenFew | backend/controllers/torrentController.js:139 | with at most 100 torrents of the category, all of them are listed |
| TorrentController.Tracked | backend/controllers/torrentController.js:158 | downloads and leechers rise by exactly one; every other field stays |
| TorrentController.PositionOf | backend/controllers/torrentController.js:155-156 | the index of the first record with the id, or none exactly when there is none |
| TorrentController.Catalog.TrackDownload | backend/controllers/torrentController.js:151-172 | found exactly when some record has the id; then only that record is tracked; otherwise 404 and no change |
| TorrentController.Catalog.Upload | backend/controllers/torrentController.js:36-92 | the catalogue becomes what UploadTorrent gives, and stays valid |
| AuthMiddleware.HeaderToken | backend/middleware/authMiddleware.js:9 | the token is the second space-separated piece of the header, absent when there is none |
| AuthMiddleware.Decoded | backend/middleware/authMiddleware.js:10 | a missing or empty token is not verified; any other token is what `verify` makes of it |
| AuthMiddleware.Decision | backend/middleware/authMiddleware.js:4-31 | "no token" exactly without a Bearer header; "token failed" exactly when the token does not verify; "user not found" exactly when the id has no user; otherwise proceed with that user |
| AuthMiddleware.ProceedNeedsVerifiedToken | backend/middleware/authMiddleware.js:7-22 | a request proceeds only with a Bearer header whose token verifies to an existing user |
| AuthMiddleware.Protect | backend/middleware/authMiddleware.js:4-31 | calls next exactly on Proceed; where the Bearer header carries a token a refusal is one 401 with its reason; where it carries none two 401s are sent |
| AuthMiddleware.ProtectOnce | backend/middleware/authMiddleware.js:4-31 | the intended ladder: exactly one 401 for every refused request, none for one that proceeds |
| AuthMiddleware.BareBearerHasNoToken | backend/middleware/authMiddleware.js:7-9 | the header `Bearer` passes the prefix test and has no token |
| AuthMiddleware.BareBearerDoubleResponse | backend/middleware/authMiddleware.js:23-30 | the header `Bearer` draws "token failed" and then "no token" |
| AuthMiddleware.TokenIsSecondPiece | backend/middleware/authMiddleware.js:9 | `Bearer <token>` yields `<token>` whatever space-separated text follows |
| AuthMiddleware.IdentifyUser | backend/middleware/authMiddleware.js:33-46 | always calls next; the user is unset exactly without a Bearer header, and holds a user exactly when protect would let the request proceed |
| ThreadPage.Replaced | frontend/public/js/inner.js:201 | the text before the selection and after it is kept, with the replacement between them |
| ThreadPage.Tagged | frontend/public/js/inner.js:200 | the tagged text is longer than the selection by twice the tag's length plus 5 |
| ThreadPage.QuoteReply | frontend/public/js/inner.js:128 | the quote-reply text; no contract of its own, `ThreadPage.QuoteReplyQuotesTrimmedPost` states its parts |
| ThreadPage.QuoteReplyQuotesTrimmedPost | frontend/public/js/inner.js:125-128 | the quote reply is `[quote=user]`, the post without its surrounding white space, then `[/quote]` and a newline |
| ThreadPage.Textarea.constructor | frontend/public/js/inner.js:10 | the reply box starts with its text and the caret at its end |
| ThreadPage.Textarea.WrapText | frontend/public/js/inner.js:196-203 | the selection is replaced by `[tag]selection[/tag]`, and the caret goes to the end |
| ThreadPage.QuoteBlock | frontend/public/js/inner.js:207-215 | the newline-framed `[quote]` block; no contract of its own, `ThreadPage.Textarea.InsertQuote` states where it goes |
| ThreadPage.Textarea.InsertQuote | frontend/public/js/inner.js:207-215 | the selection is replaced by a newline, `[quote]selection[/quote]` and a newline |
| ThreadPage.Textarea.PrependQuoteReply | frontend/public/js/inner.js:118-134 | the quote reply is put in front of the existing text |
| ThreadPage.WrapKeepsSurroundings | frontend/public/js/inner.js:196-203 | wrapping keeps everything outside the selection, puts the tags around it, and grows the text by twice the tag's length plus 5 |
| ThreadPage.WrappedBoldRenders | frontend/public/js/inner.js:200 | in bracket-free text a selection made bold renders as `<strong>selection</strong>`, with the rest unchanged |
| ThreadPage.QuoteReplyBrackets | frontend/public/js/inner.js:128 | a quote reply's only `[` characters are its two tags |
| ThreadPage.QuoteReplyHoldsNoTag | frontend/public/js/inner.js:128 | a quote reply holds no `[/b]`, `[i]` or `[quote]` |
| ThreadPage.QuoteReplyRendersLiterally | frontend/public/js/inner.js:128 | `[quote=name]…[/quote]` renders as it was typed |
| ThreadPage.CheckReply | frontend/public/js/inner.js:143-154 | refused without a token, refused exactly when the text is all white space, otherwise the trimmed, non-empty text is sent |
| ThreadPage.ReplyHeaderCarriesToken | frontend/public/js/inner.js:165 | the middleware reads the stored token back from the reply's `Bearer` header |
| ThreadPage.PageEntries | frontend/public/js/inner.js:97-103 | pages 1 to totalPages in order, each in bold exactly when it is the current page |
| ThreadPage.OneCurrentPage | frontend/public/js/inner.js:97-103 | exactly one page is bold when the current page is in range, none otherwise |
| ThreadPage.PaginationBars.constructor | frontend/public/js/inner.js:8-9 | both bars start empty |
| ThreadPage.PaginationBars.Display | frontend/public/js/inner.js:91-106 | both bars are empty for at most one page; otherwise `Page: ` and the entries; the top and bottom bars are identical |
| TorrentPage.TrackerParams | frontend/public/js/torrent.js:27 | one `tr=` parameter per tracker, encoded, in list order |
| TorrentPage.TrackerQuery | frontend/public/js/torrent.js:27 | for at least one tracker, splitting the query on `&` gives back the encoded `tr` parameters in order |
| TorrentPage.FiveTrackerParameters | frontend/public/js/torrent.js:20-27 | the tracker query splits on `&` back into its five `tr` parameters |
| TorrentPage.MagnetLink | frontend/public/js/torrent.js:97 | the magnet URI; no contract of its own, `TorrentPage.MagnetParameters` states its parameters |
| TorrentPage.MagnetParameters | frontend/public/js/torrent.js:97 | the magnet link's `&`-separated parameters are `xt=urn:btih:<hash>`, `dn=<encoded name>` and the `tr` parameters in order |
| TorrentPage.DisplayedHash | frontend/public/js/torrent.js:78 | the displayed hash has the same length, equals the hash up to case, and holds no lower-case letter |
| TorrentPage.FileCount | frontend/public/js/torrent.js:63 | the file count is the list's length, 0 exactly when there is no list or it is empty |
| TorrentPage.UploadedFileCount | frontend/public/js/torrent.js:63 | an uploaded single-file torrent shows one file, a multi-file one as many as it lists |
| TorrentPage.BookmarkButton.Render | frontend/public/js/torrent.js:119-140 | the button shows bookmarked exactly when the stored list holds the torrent |
| TorrentPage.BookmarkButton.Click | frontend/public/js/torrent.js:142-166 | DELETE when bookmarked, PUT otherwise; only a successful response removes every occurrence or appends the id, creating the list, and flips the button |
| TorrentPage.BookmarkButton.BookmarkThenUnbookmark | frontend/public/js/torrent.js:142-161 | a successful bookmark and then unbookmark restores the stored list |
| HomePage.CheckedValues | frontend/public/js/home.js:10-12 | the values of the checked boxes, in document order |
| HomePage.Lookup | frontend/public/js/home.js:13-15 | the value of the first parameter with the key, with no earlier parameter holding the key, or none exactly when no parameter has it |
| HomePage.CollectValues | frontend/public/js/home.js:12 | one category per checked box, in order |
| HomePage.BuildSearchParams | frontend/public/js/home.js:7-17 | `q` exactly for a non-empty query; `categories` is the checked values joined by `,`, exactly when a box is checked; nothing else |
| HomePage.CategoriesRoundTrip | frontend/public/js/home.js:15 | splitting the joined categories on `,` gives the checked values back when none holds a comma |
| HomePage.LuckyClickAsWritten | frontend/public/js/home.js:21-29 | an empty query is refused with no request; otherwise a request is sent, and for a query without `&` the server reads the query as typed under `q` |
| HomePage.LuckyQueryTruncated | frontend/public/js/home.js:29 | a typed `&` cuts the query: for `x&y`, with no `q` parameter in `y`, the server searches for `x` and not for the typed query |
| HomePage.LuckyClickEncoded | frontend/public/js/home.js:21-29 | an empty query is refused with no request; otherwise the encoded query is sent |
| HomePage.LuckyQueryEncodedIntact | frontend/public/js/home.js:29 | with the query encoded, the server reads back exactly the typed text's UTF-8 bytes |
| SearchPage.ListingQueryAsWritten | frontend/public/js/search.js:19-22 | no query string exactly for a falsy query; an `&`-free query is read back intact under `q`, and no `categories` parameter is ever read |
| SearchPage.SearchQueryTruncated | frontend/public/js/search.js:21 | a typed `&` cuts the query: for `x&y`, with no `q` parameter in `y`, the listing searches for `x` |
| SearchPage.SearchFilterAsWritten | frontend/public/js/search.js:3-22 | a home-page search reaches the listing filter with an `&`-free query intact and never with a category condition, whichever boxes were checked |
| SearchPage.ListingQueryEncoded | frontend/public/js/search.js:19-22 | the corrected request: the server reads back under `q` and under `categories` exactly the encoded values, and nothing for a falsy parameter |
| SearchPage.SearchRequestEncoded | frontend/public/js/search.js:3-22 | with the corrected page, the listing reads the UTF-8 bytes of the typed query and of the comma-joined checked values, and nothing for a parameter the form left out |
| ForumPage.Listed | backend/controllers/forumController.js:30 | the forums the API lists carry no `type` |
| ForumPage.SectionsPartition | frontend/public/js/forum.js:27-29 | the three tables are disjoint, together hold exactly the forums typed `faq`, `guide` or `forum`, and a forum of any other type or none is in no table |
| ForumPage.ApiForumsListedNowhere | frontend/public/js/forum.js:27-29 | none of the forums `GET /api/forums` returns appears in any table |
| ForumPage.SimpleRows | frontend/public/js/forum.js:40-56 | an empty list shows only its placeholder; otherwise one row per item, in order |
| ForumPage.FullRows | frontend/public/js/forum.js:58-82 | an empty list shows only its placeholder; otherwise one row per forum with its counts, each with a delete button exactly for a moderator |
| ForumPage.DisplaySimpleList | frontend/public/js/forum.js:40-56 | the rows appended are the simple rows of the list |
| ForumPage.DisplayFullList | frontend/public/js/forum.js:58-82 | the rows appended are the full rows of the list |
| ForumPage.ForumIndex.constructor | frontend/public/js/forum.js:8-14 | the create form shows exactly for a stored user whose role is `moderator` |
| ForumPage.ForumIndex.ShowForums | frontend/public/js/forum.js:17-38 | each table gets the rows of its type; a failed fetch changes only the community table, to the error row |
| Collections.Filter | frontend/public/js/forum.js:27-29 | an order-preserving sublist of exactly the elements that satisfy the test, each as often as it occurs |
| Collections.FilterConcat | backend/controllers/torrentController.js:26 | filtering distributes over concatenation |
| Collections.SortBy | backend/controllers/forumController.js:54 | a sorted permutation of the input |
| Collections.MaxBy | backend/controllers/torrentController.js:115 | none exactly for an empty list; otherwise an element whose key is at least every element's key |
| Collections.Window | backend/controllers/forumController.js:116-117 | `skip` then `limit`: the elements from `skip` on, at most `limit` of them |
| Collections.First | backend/controllers/userController.js:54 | an element at a position where it passes the test and no earlier element does, or none exactly when none passes |
| Collections.AddIfAbsent | backend/controllers/userController.js:201-204 | the id is in the result, nothing is removed, and it is added once only when it was absent |
| Collections.RemoveAll | backend/controllers/userController.js:225 | the id is gone and every other element keeps its count |
| Collections.AddIfAbsentIdempotent | backend/controllers/userController.js:201-204 | adding twice is adding once, and adding a present id changes nothing |
| Collections.AddIfAbsentNoDuplicates | backend/controllers/userController.js:201-204 | a list without duplicates keeps none after adding, and holds the id once |
| Collections.RemoveAllAbsent | backend/controllers/userController.js:225 | removing an absent id changes nothing, and removing twice is removing once |
| Collections.RemoveAfterAdd | frontend/public/js/torrent.js:152-157 | removing after adding is removing |
| Collections.CountUnique | backend/controllers/forumController.js:24-26 | a test that at most one element passes is counted once or not at all |
| Text.IndexOf | backend/controllers/forumController.js:9-11 | the first position of the pattern, or none exactly when it does not occur |
| Text.Split | backend/controllers/torrentController.js:22 | at least one piece, and no piece holds the separator |
| Text.SplitJoin | frontend/public/js/home.js:15 | splitting a join of separator-free pieces gives the pieces back |
| Text.JoinLength | frontend/public/js/home.js:15 | a join is as long as its pieces plus one separator between each two |
| Text.TrimEmptyIffBlank | frontend/public/js/inner.js:149-150 | trimming gives the empty string exactly for all-white-space text |
| Text.TrimSpec | frontend/public/js/inner.js:149 | the trimmed text is the slice between the leading and trailing white space, starting and ending with no white space |
| Text.ToUpper | frontend/public/js/torrent.js:78 | every ASCII lower-case letter mapped to upper case and every other character kept, length kept; exact on the hexadecimal info hash it is applied to |
| Text.ToLower | backend/controllers/torrentController.js:14-17 | every ASCII upper-case letter mapped to lower case and every other character kept, length kept |
| Text.Decimal | backend/controllers/forumController.js:110 | a non-empty string of decimal digits whose value is the number |
| Text.ParseInt | backend/controllers/forumController.js:110 | `parseInt` with no radix; no contract of its own, `Text.ParseIntDecimal` and `Text.ParseIntUnsignedDecimal` state what it reads |
| Text.ParseIntDecimal | backend/controllers/forumController.js:110 | `parseInt` reads a number's decimal form back as the number, read as an unbounded integer (the source's double is exact up to 2^53) |
| Text.ParseIntUnsignedDecimal | backend/controllers/forumController.js:110 | for unsigned input, `parseInt` reads the longest digit prefix as an unbounded integer, and gives NaN when there is none |
| Uri.Utf8 | frontend/public/js/torrent.js:97 | one to four bytes per character, one byte exactly for ASCII |
| Uri.EncodeURIComponent | frontend/public/js/torrent.js:97 | the encoding holds only unreserved characters and `%`, and leaves unreserved text unchanged |
| Uri.NoSeparatorInEncoded | frontend/public/js/torrent.js:27 | an encoded component holds no `&` and no `=` |
| Uri.DecodeEncode | frontend/public/js/home.js:29 | percent-decoding an encoded string gives its UTF-8 bytes |
| Uri.FirstWithKey | backend/controllers/torrentController.js:111 | the value of a piece with the key that no earlier piece has, or none exactly when no piece has it |
| Uri.LeadingParameter | backend/controllers/torrentController.js:111 | the query parser reads the value of a leading parameter up to the next `&`, when the rest of the query does not repeat the key |
| Uri.TwoParameters | backend/controllers/torrentController.js:111 | in `k1=v1&k2=v2` with distinct keys, the parser reads each value under its own key |
| Uri.OtherKeyAbsent | backend/controllers/torrentController.js:111 | a query string of one parameter holds no other key |

## Left out

- MongoDB and Mongoose machinery is replaced by sequences. That covers queries, `populate`, aggregation pipelines and indexes. The atomicity of `$inc` under concurrent requests is not modelled, nor are uniqueness races between concurrent writes.
- `parse-torrent`, bencode decoding and the SHA-1 info hash come from a foreign library. The parsed metadata is an input, and `None` stands for a file it refuses.
- `fs` reads and unlinks are file I/O. The model records only whether a cleanup of the uploaded file is requested.
- bcrypt's `genSalt`, `hash` and `compare`, and JWT `sign` and `verify`, are foreign cryptography. They are function parameters, and the 30-day expiry of `generateToken` is part of `sign`.
- UserController.FindByEmail: an email missing from the request body is taken to be dropped from the filter by Mongoose, so that `findOne({})` returns a stored user. MongoDB returns an arbitrary document there, and the model takes the first in store order.
- `updateUserAvatar` is not modelled. It is file handling around one field assignment.
- `getTorrentById` and `getThreadById` are not modelled. Each is a single lookup by id with a 404.
- The handlers the route files name but no shown file defines have no source to model. Neither does the `moderator` middleware, nor the server and route wiring.
- Text.ParseInt: JavaScript numbers are IEEE-754 doubles, so `parseInt` rounds a value past 2^53 (`9007199254740993` reads as `9007199254740992`), and the page's skip `(page - 1) * 5` and `currentPage` are computed in doubles too. The model reads digits into an unbounded integer and does not model that rounding.
- Strings are sequences of Unicode scalar values, not UTF-16 code units. A lone surrogate, on which `encodeURIComponent` throws `URIError`, cannot be expressed.
- Text.ToLower: maps ASCII letters only, while `toLowerCase` and the `'i'` option of a regular expression fold all Unicode letters. Text.ToUpper is ASCII only as well, which is exact on the hexadecimal info hash it is used on.
- `TorrentController.NameMatches` reads the search term as a literal, case-insensitive substring over ASCII case. Regular-expression metacharacters and Unicode case folding are not modelled.
- `ForumController.ThreadOrder`, `UserController.UploadOrder`, `UserController.UserPostOrder`, `TorrentController.BySeeders` and `ForumController.ForumThreadOrder` fix the order of the sort key only. The store's order among equal keys is unspecified, so it is not modelled.
- `ForumController.Summarize`: when several posts share the greatest `createdAt`, it names one of them. The model does not say which one the store would return.
- Populated user and thread references are modelled as the ids they replace. The model says nothing about displayed names beyond the cards and titles above.
- The Post schema file is not part of this model. `ForumController.CreatePost` therefore applies no schema validation, and neither does anything else that reads posts.
- `createPost` does not update the thread's `updatedAt`, and that is modelled as written. Mongoose timestamps on other writes are not modelled either.
- `formatBytes` uses floating-point `Math.log` and `toFixed`, so it is left out.
- The query-string encoding of `URLSearchParams` and its decoding by `URLSearchParams.get` on the search page are taken as inverse. A search parameter is its value.
- Uri.QueryValue: a key repeated in a query string reads as its first value, while Express's query parser makes an array of all of them, which `new RegExp` would read as the values joined by `,`. Uri.LeadingParameter, HomePage.LuckyQueryTruncated and SearchPage.SearchQueryTruncated therefore require that the rest of the query does not repeat the key.
- The server's reading of a query string is modelled by splitting on `&` and taking the text after the first `=`. Its percent-decoding, its reading of `+` as a space, and a `#` ending the address are not modelled. So an unencoded query is shown to lose what follows an `&`, and not what it loses to `+`, `%` or `#`.
- The search results page's title and result rows are display only and are left out.
- Page markup is modelled as rows and entries, not `innerHTML` strings. The file-list markup of the torrent page and the post markup of `displayPosts` (avatar paths, dates) are left out, because they are display only.
- DOM events, `fetch`, `localStorage`, `alert`, `confirm`, timers and redirects are browser I/O. Responses are inputs to the modelled handlers.
- The JSON shapes of responses are modelled by result datatypes, without field names or messages.
- An exception thrown by the next handler inside `protect`'s `try` would reach its catch branch. This is not modelled, because `next` is outside the middleware.
- Some forum index and thread page handlers are not modelled. They are request plumbing with no rule beyond what is modelled:
  - the forum index's create-forum form and delete button handlers;
  - the thread page's pagination click handler;
  - the thread page's thread and post fetching.

## Findings

| source | as written | input that shows it | evidently intended | confidence | as-written member | corrected member |
|---|---|---|---|---|---|---|
| backend/middleware/authMiddleware.js:23-30 | the catch branch answers 401 "token failed" without returning, and then the `if (!token)` check answers 401 "no token" for the same request | the header `Authorization: Bearer` (or `Bearer ` with nothing after it): the token is undefined or empty, verification throws, and both responses are attempted | one 401 response per refused request | not executed; high, from reading the control flow | AuthMiddleware.Protect, AuthMiddleware.BareBearerDoubleResponse | AuthMiddleware.ProtectOnce |
| frontend/public/js/home.js:29 | the lucky request puts the typed query after `q=` without encoding it | the query `rock&roll`: the server's `req.query.q` is `rock` | the query encoded with `encodeURIComponent`, so that the server reads it intact | not executed; high, `&` ends a query parameter | HomePage.LuckyClickAsWritten, HomePage.LuckyQueryTruncated | HomePage.LuckyClickEncoded, HomePage.LuckyQueryEncodedIntact |
| frontend/public/js/search.js:19-22 | the search page reads only `q` from its address and puts the decoded query after `q=` without encoding it; `categories` is never passed on | a home search for `linux` with the Music box checked: the listing gets no `categories` parameter, so no category condition is applied; a search for `rock&roll`: the listing's `req.query.q` is `rock` | both parameters forwarded, each encoded with `encodeURIComponent` | not executed; high, for `&` from the query-string rules and for the categories from reading the page | SearchPage.SearchFilterAsWritten, SearchPage.SearchQueryTruncated | SearchPage.ListingQueryEncoded, SearchPage.SearchRequestEncoded |
