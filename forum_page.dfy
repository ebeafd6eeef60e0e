/**
 * The forum index page script: the forums the API lists are split by their `type` into the FAQ,
 * guide and community tables, each table shows a placeholder row when its list is empty, and the
 * create form and delete buttons are shown to moderators only. Table contents are modelled as
 * lists of rows rather than as markup.
 */
module ForumPage {
  import opened Wrappers
  import opened Collections
  import opened Models
  import ForumController

  /** One forum as the page receives it; `forumType` is absent when the document has no `type`. */
  datatype ListedForum = ListedForum(id: Id, name: string, description: string, forumType: Option<string>,
                                     topics: nat, posts: nat)

  /** What `GET /api/forums` sends for one forum: the stored fields, which include no `type`, and the counts. */
  function Listed(stats: seq<ForumController.ForumStats>): (r: seq<ListedForum>)
    ensures |r| == |stats|
    ensures forall k :: 0 <= k < |r| ==> r[k].forumType.None? && r[k].id == stats[k].forum.id
  {
    seq(|stats|, k requires 0 <= k < |stats| =>
      ListedForum(stats[k].forum.id, stats[k].forum.name, stats[k].forum.description, None, stats[k].topics, stats[k].posts))
  }

  function OfType(t: string): ListedForum -> bool
  {
    (f: ListedForum) => f.forumType == Some(t)
  }

  function Faqs(all: seq<ListedForum>): seq<ListedForum> { Filter(all, OfType("faq")) }
  function Guides(all: seq<ListedForum>): seq<ListedForum> { Filter(all, OfType("guide")) }
  function CommunityForums(all: seq<ListedForum>): seq<ListedForum> { Filter(all, OfType("forum")) }

  predicate Sectioned(f: ListedForum)
  {
    f.forumType == Some("faq") || f.forumType == Some("guide") || f.forumType == Some("forum")
  }

  function IsSectioned(): ListedForum -> bool
  {
    (f: ListedForum) => Sectioned(f)
  }

  /**
   * The three tables partition the forums that carry one of the three types, keeping their order
   * within each table: no forum is in two tables, and a forum with any other type, or none,
   * is in no table.
   */
  lemma SectionsPartition(all: seq<ListedForum>)
    ensures forall f :: !(f in Faqs(all) && f in Guides(all)) && !(f in Faqs(all) && f in CommunityForums(all))
                        && !(f in Guides(all) && f in CommunityForums(all))
    ensures forall f :: f in all && !Sectioned(f) ==> f !in Faqs(all) && f !in Guides(all) && f !in CommunityForums(all)
    ensures multiset(Faqs(all)) + multiset(Guides(all)) + multiset(CommunityForums(all)) == multiset(Filter(all, IsSectioned()))
  {
    var lhs := multiset(Faqs(all)) + multiset(Guides(all)) + multiset(CommunityForums(all));
    var rhs := multiset(Filter(all, IsSectioned()));
    forall f ensures lhs[f] == rhs[f] {
      assert multiset(Faqs(all))[f] == if OfType("faq")(f) then multiset(all)[f] else 0;
      assert multiset(Guides(all))[f] == if OfType("guide")(f) then multiset(all)[f] else 0;
      assert multiset(CommunityForums(all))[f] == if OfType("forum")(f) then multiset(all)[f] else 0;
    }
    assert lhs == rhs;
  }

  /**
   * A forum created through the API is stored without a type, so the page lists none of the
   * forums the API returns: every table shows its placeholder.
   */
  lemma ApiForumsListedNowhere(forums: seq<Forum>, threads: seq<Thread>, posts: seq<Post>)
    ensures var all := Listed(ForumController.GetForums(forums, threads, posts));
            Faqs(all) == [] && Guides(all) == [] && CommunityForums(all) == []
  {
    var all := Listed(ForumController.GetForums(forums, threads, posts));
    assert forall f :: f in all ==> f.forumType.None?;
  }

  // ----- Rendering -----

  datatype Row = SimpleRow(id: Id, name: string, description: string)
               | FullRow(id: Id, name: string, description: string, deleteButton: bool, topics: nat, posts: nat)
               | NoItemsRow | NoForumsRow | LoadErrorRow

  /** The rows of an FAQ or guide table: the placeholder alone for an empty list, otherwise one row per item. */
  function SimpleRows(list: seq<ListedForum>): (r: seq<Row>)
    ensures list == [] <==> r == [NoItemsRow]
    ensures list != [] ==> |r| == |list| && forall k :: 0 <= k < |r| ==> r[k] == SimpleRow(list[k].id, list[k].name, list[k].description)
  {
    if list == [] then [NoItemsRow]
    else
      var r := seq(|list|, k requires 0 <= k < |list| => SimpleRow(list[k].id, list[k].name, list[k].description));
      assert r[0].SimpleRow?;
      r
  }

  /** The rows of the community table; each carries a delete button exactly for a moderator. */
  function FullRows(list: seq<ListedForum>, isModerator: bool): (r: seq<Row>)
    ensures list == [] <==> r == [NoForumsRow]
    ensures list != [] ==> |r| == |list| && forall k :: 0 <= k < |r| ==>
              r[k] == FullRow(list[k].id, list[k].name, list[k].description, isModerator, list[k].topics, list[k].posts)
    ensures forall k :: 0 <= k < |r| && r[k].FullRow? ==> r[k].deleteButton == isModerator
  {
    if list == [] then [NoForumsRow]
    else
      var r := seq(|list|, k requires 0 <= k < |list| =>
        FullRow(list[k].id, list[k].name, list[k].description, isModerator, list[k].topics, list[k].posts));
      assert r[0].FullRow?;
      r
  }

  /** `displaySimpleList`: the placeholder for an empty list, otherwise one row appended per item. */
  method DisplaySimpleList(list: seq<ListedForum>) returns (rows: seq<Row>)
    ensures rows == SimpleRows(list)
  {
    if |list| == 0 {
      return [NoItemsRow];
    }
    rows := [];
    for i := 0 to |list|
      invariant |rows| == i
      invariant forall k :: 0 <= k < i ==> rows[k] == SimpleRow(list[k].id, list[k].name, list[k].description)
    {
      rows := rows + [SimpleRow(list[i].id, list[i].name, list[i].description)];
    }
  }

  /** `displayFullList`: as `displaySimpleList`, with the counts and the moderator's delete button. */
  method DisplayFullList(list: seq<ListedForum>, isModerator: bool) returns (rows: seq<Row>)
    ensures rows == FullRows(list, isModerator)
  {
    if |list| == 0 {
      return [NoForumsRow];
    }
    rows := [];
    for i := 0 to |list|
      invariant |rows| == i
      invariant forall k :: 0 <= k < i ==>
                  rows[k] == FullRow(list[k].id, list[k].name, list[k].description, isModerator, list[k].topics, list[k].posts)
    {
      var deleteButton := isModerator;
      rows := rows + [FullRow(list[i].id, list[i].name, list[i].description, deleteButton, list[i].topics, list[i].posts)];
    }
  }

  /** The page: who is viewing it, whether the create form is shown, and the three tables. */
  class ForumIndex {
    const isModerator: bool
    var createFormShown: bool
    var faqRows: seq<Row>
    var guideRows: seq<Row>
    var forumRows: seq<Row>

    /** The create form is revealed only for a stored user whose role is `moderator`. */
    constructor (role: Option<string>)
      ensures isModerator <==> role == Some("moderator")
      ensures createFormShown == isModerator
      ensures faqRows == [] && guideRows == [] && forumRows == []
    {
      isModerator := role == Some("moderator");
      createFormShown := role == Some("moderator");
      faqRows, guideRows, forumRows := [], [], [];
    }

    /**
     * `fetchAndDisplayForums`: with the forums fetched, each table gets the rows of its section;
     * when the fetch fails, only the community table changes, to the error row.
     */
    method ShowForums(response: Option<seq<ListedForum>>)
      modifies this
      ensures response.Some? ==> && faqRows == SimpleRows(Faqs(response.value))
                                 && guideRows == SimpleRows(Guides(response.value))
                                 && forumRows == FullRows(CommunityForums(response.value), isModerator)
      ensures response.None? ==> faqRows == old(faqRows) && guideRows == old(guideRows) && forumRows == [LoadErrorRow]
      ensures createFormShown == old(createFormShown)
    {
      if response.None? {
        forumRows := [LoadErrorRow];
        return;
      }
      var allForums := response.value;
      faqRows, guideRows, forumRows := [], [], [];
      var faqs := Filter(allForums, OfType("faq"));
      var guides := Filter(allForums, OfType("guide"));
      var forums := Filter(allForums, OfType("forum"));
      faqRows := DisplaySimpleList(faqs);
      guideRows := DisplaySimpleList(guides);
      forumRows := DisplayFullList(forums, isModerator);
    }
  }
}
