/**
 * The forum controller's handlers over in-memory stores of forums, threads and posts: the
 * per-forum topic and post counts, the thread list of a forum with reply counts and last posts,
 * the paginated and rendered posts of a thread, and the creation of forums and posts.
 */
module ForumController {
  import opened Wrappers
  import opened Text
  import opened Collections
  import opened Models
  import opened BBCode

  // ----- Selection keys -----

  /** `{ forum: id }` as a thread filter. */
  function InForum(forum: Id): Thread -> bool
  {
    (t: Thread) => t.forum == forum
  }

  /** `{ thread: id }` as a post filter. */
  function InThread(thread: Id): Post -> bool
  {
    (p: Post) => p.thread == thread
  }

  /** The sort key of `.sort({ updatedAt: -1 })`. */
  function NewestActivityFirst(): Thread -> int
  {
    (t: Thread) => -(t.updatedAt as int)
  }

  /** The sort key of `.sort({ createdAt: 1 })`. */
  function OldestPostFirst(): Post -> int
  {
    (p: Post) => p.createdAt as int
  }

  /** The sort key of `.sort({ createdAt: -1 })` followed by `findOne`. */
  function PostTime(): Post -> int
  {
    (p: Post) => p.createdAt as int
  }

  function PostsOf(posts: seq<Post>, thread: Id): seq<Post>
  {
    Filter(posts, InThread(thread))
  }

  // ----- getForums -----

  /** The documents `$lookup` + `$unwind` pair with `p`, restricted by `$match` to `forum`. */
  function JoinedThreads(threads: seq<Thread>, forum: Id, p: Post): nat
  {
    Count(threads, (t: Thread) => t.id == p.thread && t.forum == forum)
  }

  function JoinWeight(threads: seq<Thread>, forum: Id): Post -> nat
  {
    (p: Post) => JoinedThreads(threads, forum, p)
  }

  /** The `$count` of the aggregation, or 0 when it yields no document. */
  function ForumPostCount(threads: seq<Thread>, posts: seq<Post>, forum: Id): nat
  {
    SumOf(posts, JoinWeight(threads, forum))
  }

  /** A post whose thread exists and belongs to `forum`. */
  predicate PostInForum(threads: seq<Thread>, forum: Id, p: Post)
  {
    exists k :: 0 <= k < |threads| && threads[k].id == p.thread && threads[k].forum == forum
  }

  function PostsInForum(threads: seq<Thread>, forum: Id): Post -> bool
  {
    (p: Post) => PostInForum(threads, forum, p)
  }

  ghost predicate UniqueThreadIds(threads: seq<Thread>)
  {
    forall i, j :: 0 <= i < |threads| && 0 <= j < |threads| && threads[i].id == threads[j].id ==> i == j
  }

  datatype ForumStats = ForumStats(forum: Forum, topics: nat, posts: nat)

  /** `getForums`: every forum, in store order, with its topic and post counts. */
  function GetForums(forums: seq<Forum>, threads: seq<Thread>, posts: seq<Post>): (r: seq<ForumStats>)
    ensures |r| == |forums|
    ensures forall k :: 0 <= k < |r| ==> r[k].forum == forums[k]
    ensures forall k :: 0 <= k < |r| ==> r[k].topics == |Filter(threads, InForum(forums[k].id))|
    ensures forall k :: 0 <= k < |r| ==> r[k].posts == ForumPostCount(threads, posts, forums[k].id)
  {
    seq(|forums|, k requires 0 <= k < |forums| =>
      ForumStats(forums[k], Count(threads, InForum(forums[k].id)), ForumPostCount(threads, posts, forums[k].id)))
  }

  /** With distinct thread ids, `$unwind` pairs a post with at most one thread: one whose id is the
      post's thread and whose forum is `forum`, if there is one. */
  lemma JoinedThreadsAtMostOne(threads: seq<Thread>, forum: Id, p: Post)
    requires UniqueThreadIds(threads)
    ensures JoinedThreads(threads, forum, p) == if PostInForum(threads, forum, p) then 1 else 0
  {
    var q := (t: Thread) => t.id == p.thread && t.forum == forum;
    assert forall i, j :: 0 <= i < |threads| && 0 <= j < |threads| && q(threads[i]) && q(threads[j]) ==> i == j;
    CountUnique(threads, q);
  }

  /** The post count of a forum is the number of posts whose thread exists and belongs to it. */
  lemma {:induction false} ForumPostCountCountsPostsInForum(threads: seq<Thread>, posts: seq<Post>, forum: Id)
    requires UniqueThreadIds(threads)
    ensures ForumPostCount(threads, posts, forum) == Count(posts, PostsInForum(threads, forum))
    decreases |posts|
  {
    if posts != [] {
      assert posts == [posts[0]] + posts[1..];
      SumConcat([posts[0]], posts[1..], JoinWeight(threads, forum));
      assert SumOf([posts[0]], JoinWeight(threads, forum)) == JoinedThreads(threads, forum, posts[0]) by {
        assert [posts[0]][1..] == [];
      }
      JoinedThreadsAtMostOne(threads, forum, posts[0]);
      ForumPostCountCountsPostsInForum(threads, posts[1..], forum);
      FilterConcat([posts[0]], posts[1..], PostsInForum(threads, forum));
      assert Filter([posts[0]], PostsInForum(threads, forum))
          == (if PostInForum(threads, forum, posts[0]) then [posts[0]] else []) by {
        assert [posts[0]][1..] == [];
      }
    }
  }

  // ----- getThreadsInForum -----

  /** `replyCount > 0 ? replyCount - 1 : 0` over `Post.countDocuments({ thread })`. */
  function ReplyCount(posts: seq<Post>, thread: Id): (r: nat)
    ensures r == 0 <==> Count(posts, InThread(thread)) <= 1
    ensures Count(posts, InThread(thread)) >= 1 ==> r == Count(posts, InThread(thread)) - 1
  {
    var n := |PostsOf(posts, thread)|;
    if n > 0 then n - 1 else 0
  }

  /** A new post raises the reply count of its own thread by one once the thread has an opening
      post, and leaves every other thread's count as it was. */
  lemma ReplyCountAfterPost(posts: seq<Post>, p: Post, thread: Id)
    ensures ReplyCount(posts + [p], thread)
         == if p.thread == thread && PostsOf(posts, thread) != [] then ReplyCount(posts, thread) + 1
            else ReplyCount(posts, thread)
  {
    FilterConcat(posts, [p], InThread(thread));
    assert Filter([p], InThread(thread)) == (if p.thread == thread then [p] else []) by {
      assert [p][1..] == [];
    }
  }

  datatype LastPost = LastPost(user: Id, createdAt: Time)

  datatype ThreadSummary = ThreadSummary(thread: Thread, replyCount: nat, lastPost: Option<LastPost>)

  /** One element of `threadsWithStats`: the thread, its reply count, and the author and time of
      its newest post, or null when it has no post. */
  function Summarize(posts: seq<Post>, t: Thread): (r: ThreadSummary)
    ensures r.thread == t && r.replyCount == ReplyCount(posts, t.id)
    ensures r.lastPost.None? <==> PostsOf(posts, t.id) == []
    ensures r.lastPost.Some? ==>
              exists p :: p in PostsOf(posts, t.id) && LastPost(p.user, p.createdAt) == r.lastPost.value
    ensures r.lastPost.Some? ==>
              forall p :: p in PostsOf(posts, t.id) ==> p.createdAt <= r.lastPost.value.createdAt
  {
    var thread := PostsOf(posts, t.id);
    var newest := MaxBy(thread, PostTime());
    var last := if newest.None? then None else Some(LastPost(newest.value.user, newest.value.createdAt));
    assert newest.Some? ==> forall p :: p in thread ==> PostTime()(p) <= PostTime()(newest.value);
    ThreadSummary(t, ReplyCount(posts, t.id), last)
  }

  function ThreadsOf(ss: seq<ThreadSummary>): (r: seq<Thread>)
    ensures |r| == |ss| && forall k :: 0 <= k < |ss| ==> r[k] == ss[k].thread
  {
    seq(|ss|, k requires 0 <= k < |ss| => ss[k].thread)
  }

  /** `Forum.findById`: the forum with that id, or null. */
  function FindForum(forums: seq<Forum>, id: Id): (r: Option<Forum>)
    ensures r.Some? ==> r.value in forums && r.value.id == id
    ensures r.None? <==> forall k :: 0 <= k < |forums| ==> forums[k].id != id
  {
    if forums == [] then None
    else if forums[0].id == id then Some(forums[0])
    else
      var rest := FindForum(forums[1..], id);
      assert forall k :: 1 <= k < |forums| ==> forums[k] == forums[1..][k - 1];
      rest
  }

  /** The threads of a forum in the order `.sort({ updatedAt: -1 })` lists them. */
  function ForumThreadOrder(threads: seq<Thread>, forum: Id): (r: seq<Thread>)
    ensures multiset(r) == multiset(Filter(threads, InForum(forum)))
    ensures forall k :: 0 <= k < |r| ==> r[k].forum == forum
    ensures forall i, j :: 0 <= i < j < |r| ==> r[i].updatedAt >= r[j].updatedAt
  {
    var sorted := SortBy(Filter(threads, InForum(forum)), NewestActivityFirst());
    SortedAllSatisfy(Filter(threads, InForum(forum)), NewestActivityFirst(), InForum(forum));
    assert forall i, j :: 0 <= i < j < |sorted| ==> NewestActivityFirst()(sorted[i]) <= NewestActivityFirst()(sorted[j]);
    sorted
  }

  datatype ThreadsInForum = ThreadsInForum(forum: Option<Forum>, threads: seq<ThreadSummary>)

  /**
   * `getThreadsInForum`: the threads of the forum, most recently updated first, each with its
   * summary, and the forum itself (null when no forum has that id, in which case the list is
   * still built from whatever threads name it).
   */
  function GetThreadsInForum(forums: seq<Forum>, threads: seq<Thread>, posts: seq<Post>, forum: Id): (r: ThreadsInForum)
    ensures r.forum == FindForum(forums, forum)
    ensures ThreadsOf(r.threads) == ForumThreadOrder(threads, forum)
    ensures forall k :: 0 <= k < |r.threads| ==> r.threads[k] == Summarize(posts, r.threads[k].thread)
  {
    ThreadsInForum(FindForum(forums, forum), SummarizeAll(posts, ForumThreadOrder(threads, forum)))
  }

  /** One summary per thread, in the order of the threads. */
  function SummarizeAll(posts: seq<Post>, sorted: seq<Thread>): (r: seq<ThreadSummary>)
    ensures ThreadsOf(r) == sorted
    ensures forall k :: 0 <= k < |r| ==> r[k] == Summarize(posts, r[k].thread)
  {
    var summaries := seq(|sorted|, k requires 0 <= k < |sorted| => Summarize(posts, sorted[k]));
    assert ThreadsOf(summaries) == sorted;
    summaries
  }

  /** The last-activity time a thread is ranked by. */
  function UpdatedAt(): Thread -> int
  {
    (t: Thread) => t.updatedAt as int
  }

  datatype LastThreadResult = LastThread(thread: Thread) | NoThreads

  /** `getLastThreadInForum`: the most recently updated thread of the forum; 404 when it has none. */
  function GetLastThreadInForum(threads: seq<Thread>, forum: Id): (r: LastThreadResult)
    ensures r.NoThreads? <==> forall k :: 0 <= k < |threads| ==> threads[k].forum != forum
    ensures r.LastThread? ==> r.thread in threads && r.thread.forum == forum
    ensures r.LastThread? ==>
              forall k :: 0 <= k < |threads| && threads[k].forum == forum ==> threads[k].updatedAt <= r.thread.updatedAt
  {
    var inForum := Filter(threads, InForum(forum));
    var newest := MaxBy(inForum, UpdatedAt());
    assert forall k :: 0 <= k < |threads| && threads[k].forum == forum ==> threads[k] in inForum by {
      forall k | 0 <= k < |threads| && threads[k].forum == forum ensures threads[k] in inForum {
        assert threads[k] in threads;
      }
    }
    if newest.None? then NoThreads
    else
      assert forall t :: t in inForum ==> UpdatedAt()(t) <= UpdatedAt()(newest.value);
      LastThread(newest.value)
  }

  // ----- getPostsInThread -----

  const PostsPerPage: nat := 5

  /** `parseInt(req.query.page) || 1`: NaN and 0 are falsy, so both give page 1. */
  function PageNumber(query: Option<string>): (r: int)
    ensures r != 0
  {
    if query.None? then 1
    else match ParseInt(query.value)
      case None => 1
      case Some(n) => if n == 0 then 1 else n
  }

  /** A missing page parameter is page 1, and a decimal page number is read back as itself. */
  lemma PageNumberOfDecimal(n: nat)
    ensures PageNumber(None) == 1
    ensures PageNumber(Some(Decimal(n))) == if n == 0 then 1 else n
  {
    ParseIntDecimal(n);
  }

  /** `Math.ceil(total / POSTS_PER_PAGE)`: the fewest pages of five that hold every post. */
  function TotalPages(total: nat): (r: nat)
    ensures r * PostsPerPage >= total
    ensures r == 0 || (r - 1) * PostsPerPage < total
  {
    (total + PostsPerPage - 1) / PostsPerPage
  }

  /** `post.toObject()` with its content replaced by the rendered BBCode. */
  function Rendered(p: Post): (r: Post)
    ensures r.id == p.id && r.thread == p.thread && r.user == p.user && r.createdAt == p.createdAt
    ensures r.content == ParseBBCode(Some(p.content))
  {
    p.(content := ParseBBCode(Some(p.content)))
  }

  /** Each post of a page with its content rendered. */
  function RenderedAll(window: seq<Post>): (r: seq<Post>)
    ensures |r| == |window|
    ensures forall k :: 0 <= k < |r| ==> r[k] == Rendered(window[k])
  {
    seq(|window|, k requires 0 <= k < |window| => Rendered(window[k]))
  }

  /** The posts of a thread in the order the page query reads them. */
  function ThreadOrder(posts: seq<Post>, thread: Id): (r: seq<Post>)
    ensures multiset(r) == multiset(PostsOf(posts, thread))
    ensures |r| == |PostsOf(posts, thread)|
    ensures SortedBy(r, OldestPostFirst())
  {
    var r := SortBy(PostsOf(posts, thread), OldestPostFirst());
    assert |r| == |multiset(r)|;
    r
  }

  /** `(page - 1) * POSTS_PER_PAGE`: the number of posts the page skips, negative below page 1. */
  function PageStart(page: int): (r: int)
    ensures r < 0 <==> page < 1
  {
    (page - 1) * PostsPerPage
  }

  datatype PostsPage = PostsPage(posts: seq<Post>, currentPage: int, totalPages: nat)

  /** A negative page gives a negative `skip`, which the store refuses, answered by 500. */
  datatype PostsResult = Page(page: PostsPage) | PostsServerError

  /**
   * The page-th group of five posts of the thread, oldest first, each with its content rendered,
   * with the page number echoed and the page count; a page below 1 is refused.
   */
  function PostsForPage(posts: seq<Post>, thread: Id, page: int): (r: PostsResult)
    ensures r.PostsServerError? <==> page < 1
    ensures r.Page? ==> r.page.currentPage == page && r.page.totalPages == TotalPages(|PostsOf(posts, thread)|)
    ensures r.Page? ==> var skip, n := PageStart(page), |PostsOf(posts, thread)|;
              |r.page.posts| == (if skip >= n then 0 else if skip + PostsPerPage <= n then PostsPerPage else n - skip)
  {
    var skip := PageStart(page);
    if skip < 0 then PostsServerError
    else
      var window := Window(ThreadOrder(posts, thread), skip, PostsPerPage);
      Page(PostsPage(RenderedAll(window), page, TotalPages(|PostsOf(posts, thread)|)))
  }

  /** `getPostsInThread`: the page read from the query, served as `PostsForPage` serves it. */
  function GetPostsInThread(posts: seq<Post>, thread: Id, pageQuery: Option<string>): (r: PostsResult)
    ensures r.PostsServerError? <==> PageNumber(pageQuery) < 0
    ensures r.Page? ==> r.page.currentPage == PageNumber(pageQuery) >= 1
    ensures r == PostsForPage(posts, thread, PageNumber(pageQuery))
  {
    PostsForPage(posts, thread, PageNumber(pageQuery))
  }

  /** The page holds, in order and rendered, the thread's posts from position `skip` on. */
  lemma PostsOnPage(posts: seq<Post>, thread: Id, page: int)
    requires page >= 1
    ensures var r, skip := PostsForPage(posts, thread, page), PageStart(page);
            forall k :: 0 <= k < |r.page.posts| ==> r.page.posts[k] == Rendered(ThreadOrder(posts, thread)[skip + k])
  {
    var skip := PageStart(page);
    var order := ThreadOrder(posts, thread);
    var window := Window(order, skip, PostsPerPage);
    var r := PostsForPage(posts, thread, page);
    assert r.page.posts == RenderedAll(window);
    forall k | 0 <= k < |r.page.posts| ensures r.page.posts[k] == Rendered(order[skip + k]) {
      RenderedWindowAt(order, skip, k);
    }
  }

  lemma RenderedWindowAt(s: seq<Post>, skip: nat, k: nat)
    requires k < |RenderedAll(Window(s, skip, PostsPerPage))|
    ensures skip + k < |s| && RenderedAll(Window(s, skip, PostsPerPage))[k] == Rendered(s[skip + k])
  {
  }

  /** Every post of the thread is on exactly the page its position says: the `i`-th oldest is
      item `i % 5` of page `i / 5 + 1`, and that page lies within the page count. A query
      `page=<n>` is served as page `n` (`PageNumberOfDecimal`). */
  lemma EveryPostOnItsPage(posts: seq<Post>, thread: Id, i: nat)
    requires i < |PostsOf(posts, thread)|
    ensures var r := PostsForPage(posts, thread, i / PostsPerPage + 1);
            && r.Page?
            && i / PostsPerPage + 1 <= r.page.totalPages
            && i % PostsPerPage < |r.page.posts|
            && r.page.posts[i % PostsPerPage] == Rendered(ThreadOrder(posts, thread)[i])
  {
    var page := i / PostsPerPage + 1;
    var order := ThreadOrder(posts, thread);
    PositionOnPage(i, |PostsOf(posts, thread)|);
    SlotOnPage(order, i);
    assert PostsForPage(posts, thread, page).page.posts == RenderedAll(Window(order, PageStart(page), PostsPerPage));
  }

  /** Post `i` of an ordered list is slot `i % 5` of the window of page `i / 5 + 1`. */
  lemma SlotOnPage(order: seq<Post>, i: nat)
    requires i < |order|
    ensures var window := RenderedAll(Window(order, PageStart(i / PostsPerPage + 1), PostsPerPage));
            i % PostsPerPage < |window| && window[i % PostsPerPage] == Rendered(order[i])
  {
    PositionOnPage(i, |order|);
    WindowSlot(order, PageStart(i / PostsPerPage + 1), i % PostsPerPage);
  }

  lemma WindowSlot(s: seq<Post>, skip: nat, slot: nat)
    requires slot < PostsPerPage && skip + slot < |s|
    ensures slot < |RenderedAll(Window(s, skip, PostsPerPage))|
    ensures RenderedAll(Window(s, skip, PostsPerPage))[slot] == Rendered(s[skip + slot])
  {
  }

  /** Position `i` of `n` posts lies on page `i / 5 + 1`, which starts at `i - i % 5`. */
  lemma PositionOnPage(i: nat, n: nat)
    requires i < n
    ensures PageStart(i / PostsPerPage + 1) + i % PostsPerPage == i
    ensures 0 <= i % PostsPerPage < PostsPerPage
    ensures i / PostsPerPage + 1 <= TotalPages(n)
  {
    var q, m := i / PostsPerPage, i % PostsPerPage;
    assert q * PostsPerPage + m == i;
    assert TotalPages(n) * PostsPerPage >= n;
  }

  /** A page past the last one is empty. */
  lemma PagesPastTheEndEmpty(posts: seq<Post>, thread: Id, pageQuery: Option<string>)
    requires PageNumber(pageQuery) > TotalPages(|PostsOf(posts, thread)|)
    ensures GetPostsInThread(posts, thread, pageQuery).Page?
    ensures GetPostsInThread(posts, thread, pageQuery).page.posts == []
  {
  }

  /** Twelve posts make three pages, the third holding the last two. */
  lemma TwelvePostsExample(posts: seq<Post>, thread: Id)
    requires |PostsOf(posts, thread)| == 12
    ensures var r := GetPostsInThread(posts, thread, Some(Decimal(3)));
            r.Page? && r.page.totalPages == 3 && |r.page.posts| == 2 && r.page.currentPage == 3
  {
    PageNumberOfDecimal(3);
  }

  // ----- createPost -----

  /**
   * `createPost`: the post is stored as given, with the caller as author. Nothing checks that the
   * thread exists or is unlocked, and the thread itself is not touched.
   */
  function CreatePost(posts: seq<Post>, thread: Id, user: Id, content: string, id: Id, now: Time): (r: seq<Post>)
    ensures |r| == |posts| + 1 && r[..|posts|] == posts
    ensures r[|posts|] == Post(id, thread, user, content, now)
  {
    posts + [Post(id, thread, user, content, now)]
  }

  /** Posting into a thread counts for that thread's forum, and for no other forum. */
  lemma CreatePostForumCount(threads: seq<Thread>, posts: seq<Post>, thread: Id, user: Id, content: string,
                             id: Id, now: Time, forum: Id)
    requires UniqueThreadIds(threads)
    ensures ForumPostCount(threads, CreatePost(posts, thread, user, content, id, now), forum)
         == ForumPostCount(threads, posts, forum)
            + (if exists k :: 0 <= k < |threads| && threads[k].id == thread && threads[k].forum == forum then 1 else 0)
  {
    var p := Post(id, thread, user, content, now);
    SumConcat(posts, [p], JoinWeight(threads, forum));
    assert SumOf([p], JoinWeight(threads, forum)) == JoinedThreads(threads, forum, p) by {
      assert [p][1..] == [];
    }
    JoinedThreadsAtMostOne(threads, forum, p);
  }

  // ----- createForum -----

  datatype CreateForumResult = ForumCreated(forum: Forum) | ForumServerError

  /**
   * `createForum`: only `name` and `description` reach `Forum.create`; a missing or empty one fails
   * validation and a name already in use fails the unique index, both answered by 500. The `type`
   * the client sends is accepted and dropped.
   */
  function CreateForum(forums: seq<Forum>, name: Option<string>, description: Option<string>,
                       forumType: Option<string>, id: Id, now: Time): (r: (seq<Forum>, CreateForumResult))
    ensures r.1.ForumCreated? <==>
              && name.Some? && Present(name.value) && description.Some? && Present(description.value)
              && forall k :: 0 <= k < |forums| ==> forums[k].name != name.value
    ensures r.1.ForumCreated? ==> r.1.forum == Forum(id, name.value, description.value, now, now)
                                  && r.0 == forums + [r.1.forum]
    ensures r.1.ForumServerError? ==> r.0 == forums
  {
    if name.None? || description.None? || !Present(name.value) || !Present(description.value) then
      (forums, ForumServerError)
    else if exists k :: 0 <= k < |forums| && forums[k].name == name.value then
      (forums, ForumServerError)
    else
      var f := Forum(id, name.value, description.value, now, now);
      (forums + [f], ForumCreated(f))
  }

  /** Creating a forum keeps the store valid, names unique, given a fresh id. */
  lemma CreateForumKeepsForumsValid(forums: seq<Forum>, name: Option<string>, description: Option<string>,
                                    forumType: Option<string>, id: Id, now: Time)
    requires ValidForums(forums)
    requires forall k :: 0 <= k < |forums| ==> forums[k].id != id
    ensures ValidForums(CreateForum(forums, name, description, forumType, id, now).0)
  {
    var r := CreateForum(forums, name, description, forumType, id, now);
    if r.1.ForumCreated? {
      var fs := r.0;
      assert forall k :: 0 <= k < |forums| ==> fs[k] == forums[k];
    }
  }

  /** The forum's `type` has no effect on what is stored or answered. */
  lemma CreateForumIgnoresType(forums: seq<Forum>, name: Option<string>, description: Option<string>,
                               t1: Option<string>, t2: Option<string>, id: Id, now: Time)
    ensures CreateForum(forums, name, description, t1, id, now) == CreateForum(forums, name, description, t2, id, now)
  {
  }
}
