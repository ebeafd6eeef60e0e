/**
 * The thread page script: the reply box's BBCode buttons and quote-reply, the checks made before
 * a reply is sent, and the page-number bars. The reply box is a textarea whose value and
 * selection the handlers overwrite; assigning a textarea's value puts the caret at its end, as the
 * HTML standard's value setter does.
 */
module ThreadPage {
  import opened Wrappers
  import opened Text
  import opened BBCode
  import AuthMiddleware

  // ----- Editing the reply box -----

  /** `value.substring(0, start) + replacement + value.substring(end)`. */
  function Replaced(value: string, start: nat, end: nat, replacement: string): (r: string)
    requires start <= end <= |value|
    ensures |r| == |value| - (end - start) + |replacement|
    ensures r[..start] == value[..start]
    ensures r[start..start + |replacement|] == replacement
    ensures r[start + |replacement|..] == value[end..]
  {
    value[..start] + replacement + value[end..]
  }

  /** `[tag]text[/tag]`. */
  function Tagged(tag: string, text: string): (r: string)
    ensures |r| == |text| + 2 * |tag| + 5
  {
    "[" + tag + "]" + text + "[/" + tag + "]"
  }

  /** The block the quote button puts in place of the selection. */
  function QuoteBlock(text: string): string
  {
    "\n" + Tagged("quote", text) + "\n"
  }

  /** The text quote-reply puts in front of the reply box: `[quote=user]` around the trimmed post. */
  function QuoteReply(username: string, rawContent: string): string
  {
    "[quote=" + username + "]" + Trim(rawContent) + "[/quote]\n"
  }

  /**
   * A quote reply opens with `[quote=<username>]`, closes with `[/quote]` and a newline, and quotes
   * the post with the surrounding white space dropped: the quoted text neither starts nor ends
   * with white space, and is empty exactly when the post is all white space.
   */
  lemma QuoteReplyQuotesTrimmedPost(username: string, rawContent: string)
    ensures var q, t, n := QuoteReply(username, rawContent), Trim(rawContent), |username| + 8;
            && |q| == n + |t| + 9
            && q[..n] == "[quote=" + username + "]"
            && q[n..n + |t|] == t
            && q[n + |t|..] == "[/quote]\n"
            && (t != [] ==> !IsWhiteSpace(t[0]) && !IsWhiteSpace(t[|t| - 1]))
            && (t == [] <==> forall k :: 0 <= k < |rawContent| ==> IsWhiteSpace(rawContent[k]))
  {
    TrimSpec(rawContent);
    var head, t := "[quote=" + username + "]", Trim(rawContent);
    assert QuoteReply(username, rawContent) == head + t + "[/quote]\n";
  }

  /** The reply textarea, with the selection the browser keeps inside its value. */
  class Textarea {
    var value: string
    var selectionStart: nat
    var selectionEnd: nat

    ghost predicate Valid()
      reads this
    {
      selectionStart <= selectionEnd <= |value|
    }

    constructor (initial: string)
      ensures value == initial && selectionStart == |initial| && selectionEnd == |initial|
      ensures Valid()
    {
      value, selectionStart, selectionEnd := initial, |initial|, |initial|;
    }

    function Selected(): string
      reads this
      requires Valid()
    {
      value[selectionStart..selectionEnd]
    }

    /** `wrapText(tag)`: the selection is wrapped in `[tag]` and `[/tag]`; the rest of the value is kept. */
    method WrapText(tag: string)
      requires Valid()
      modifies this
      ensures value == Replaced(old(value), old(selectionStart), old(selectionEnd), Tagged(tag, old(Selected())))
      ensures selectionStart == |value| && selectionEnd == |value|
      ensures Valid()
    {
      var start, end := selectionStart, selectionEnd;
      var selectedText := value[start..end];
      value := value[..start] + Tagged(tag, selectedText) + value[end..];
      selectionStart, selectionEnd := |value|, |value|;
    }

    /** The quote button: the selection becomes a `[quote]` pair on lines of its own. */
    method InsertQuote()
      requires Valid()
      modifies this
      ensures value == Replaced(old(value), old(selectionStart), old(selectionEnd), QuoteBlock(old(Selected())))
      ensures selectionStart == |value| && selectionEnd == |value|
      ensures Valid()
    {
      var start, end := selectionStart, selectionEnd;
      var selectedText := value[start..end];
      value := value[..start] + "\n" + Tagged("quote", selectedText) + "\n" + value[end..];
      selectionStart, selectionEnd := |value|, |value|;
    }

    /** A quote button click on a post: the quote goes in front of whatever the box holds. */
    method PrependQuoteReply(username: string, rawContent: string)
      modifies this
      ensures value == QuoteReply(username, rawContent) + old(value)
      ensures selectionStart == |value| && selectionEnd == |value|
      ensures Valid()
    {
      var quoteText := "[quote=" + username + "]" + Trim(rawContent) + "[/quote]\n";
      value := quoteText + value;
      selectionStart, selectionEnd := |value|, |value|;
    }
  }

  /** Wrapping grows the value by the two tags and keeps the text on either side of the selection. */
  lemma WrapKeepsSurroundings(value: string, start: nat, end: nat, tag: string)
    requires start <= end <= |value|
    ensures var r := Replaced(value, start, end, Tagged(tag, value[start..end]));
            && |r| == |value| + 2 * |tag| + 5
            && r[..start] == value[..start]
            && r[start..start + 2 + |tag|] == "[" + tag + "]"
            && r[start + 2 + |tag|..end + 2 + |tag|] == value[start..end]
            && r[end + |tag| + 2..end + 2 * |tag| + 5] == "[/" + tag + "]"
            && r[end + 2 * |tag| + 5..] == value[end..]
  {
    var sel := value[start..end];
    var open, close := "[" + tag + "]", "[/" + tag + "]";
    assert Tagged(tag, sel) == open + sel + close;
    assert |open| == 2 + |tag| && |close| == |tag| + 3;
    SlicesOfReplaced(value, start, end, open, sel, close);
    assert start + |open| == start + 2 + |tag|;
    assert start + |open| + |sel| == end + 2 + |tag|;
    assert start + |open| + |sel| + |close| == end + 2 * |tag| + 5;
  }

  /** Replacing `value[start..end]` by `a + b + c` leaves the three pieces side by side between the kept ends. */
  lemma SlicesOfReplaced(value: string, start: nat, end: nat, a: string, b: string, c: string)
    requires start <= end <= |value| && |b| == end - start
    ensures var r, i, j, k := Replaced(value, start, end, a + b + c), start + |a|, start + |a| + |b|, start + |a| + |b| + |c|;
            && r[..start] == value[..start] && r[start..i] == a && r[i..j] == b && r[j..k] == c && r[k..] == value[end..]
  {
    var r := Replaced(value, start, end, a + b + c);
    var t := a + b + c;
    assert r[start..start + |t|] == t;
    var i, j := start + |a|, start + |a| + |b|;
    assert r[start..i] == t[..|a|];
    assert r[i..j] == t[|a|..|a| + |b|];
    assert r[j..start + |t|] == t[|a| + |b|..];
  }

  /**
   * Bold applied to a selection in text without `[` or newlines renders as that selection in
   * `<strong>`, with the text around it unchanged.
   */
  lemma WrappedBoldRenders(value: string, start: nat, end: nat)
    requires start <= end <= |value|
    requires '[' !in value && '\n' !in value
    ensures ParseBBCode(Some(Replaced(value, start, end, Tagged("b", value[start..end]))))
         == value[..start] + "<strong>" + value[start..end] + "</strong>" + value[end..]
  {
    var pre, sel, post := value[..start], value[start..end], value[end..];
    SlicesLack(value, start, end, '[');
    SlicesLack(value, start, end, '\n');
    BoldTagged(sel);
    RegroupWrapped(pre, "[b]", sel, "[/b]", post);
    BoldSelectionRenders(pre, sel, post);
  }

  /** A character missing from `value` is missing from its three pieces around a selection. */
  lemma SlicesLack(value: string, start: nat, end: nat, c: char)
    requires start <= end <= |value| && c !in value
    ensures c !in value[..start] && c !in value[start..end] && c !in value[end..]
  {
    assert forall x :: x in value[..start] || x in value[start..end] || x in value[end..] ==> x in value;
  }

  lemma BoldTagged(sel: string)
    ensures Tagged("b", sel) == "[b]" + sel + "[/b]"
  {
  }

  lemma RegroupWrapped(pre: string, a: string, sel: string, b: string, post: string)
    ensures pre + (a + sel + b) + post == pre + a + sel + b + post
  {
  }

  /** The only `[` of a quote-reply block around bracket-free text open its two tags. */
  lemma QuoteReplyBrackets(username: string, body: string)
    requires '[' !in username && '[' !in body
    ensures var q := "[quote=" + username + "]" + body + "[/quote]";
            forall i :: 0 <= i < |q| && q[i] == '[' ==> i == 0 || i == |q| - 8
  {
    var q := "[quote=" + username + "]" + body + "[/quote]";
    var n := 8 + |username| + |body|;
    forall i | 0 < i < |q| && i != |q| - 8 ensures q[i] != '[' {
      if i < 7 {
        assert q[..7] == "[quote=";
        assert q[i] == "[quote="[i];
      } else if i < 7 + |username| {
        assert q[i] == username[i - 7];
      } else if i == 7 + |username| {
        assert q[i] == ']';
      } else if i < n {
        assert q[i] == body[i - 8 - |username|];
      } else {
        assert q[n..] == "[/quote]";
        assert q[i] == "[/quote]"[i - n];
      }
    }
  }

  /**
   * A quote-reply block is not one of the three tags the renderer knows, so it is copied
   * literally: the post shows `[quote=user]...[/quote]` as text.
   */
  lemma QuoteReplyRendersLiterally(username: string, body: string)
    requires '[' !in username && '[' !in body && '\n' !in username && '\n' !in body
    ensures var q := "[quote=" + username + "]" + body + "[/quote]";
            ParseBBCode(Some(q)) == q
  {
    var q := "[quote=" + username + "]" + body + "[/quote]";
    QuoteReplyHoldsNoTag(username, body);
    QuoteReplyHoldsNoNewline(username, body);
    NoPairRendersLiterally(q);
  }

  /** No opening tag the renderer knows, and no closing bold tag, occurs in a quote-reply block. */
  lemma QuoteReplyHoldsNoTag(username: string, body: string)
    requires '[' !in username && '[' !in body
    ensures var q := "[quote=" + username + "]" + body + "[/quote]";
            forall i: nat :: i <= |q| ==> !OccursAt(q, "[/b]", i) && !OccursAt(q, "[i]", i) && !OccursAt(q, "[quote]", i)
  {
    var q := "[quote=" + username + "]" + body + "[/quote]";
    var n := |q| - 8;
    QuoteReplyBrackets(username, body);
    assert q[..7] == "[quote=";
    assert q[n..] == "[/quote]";
    assert q[1] == 'q' && q[6] == '=';
    assert q[n + 1] == '/' && q[n + 2] == 'q';
    TwoBracketsNoTag(q, n);
  }

  /** A string whose only `[` start `[q...=` at 0 and `[/q` at `n` holds none of the tags below. */
  lemma TwoBracketsNoTag(q: string, n: nat)
    requires 8 <= n + 8 == |q| && n >= 7
    requires q[1] == 'q' && q[6] == '=' && q[n + 1] == '/' && q[n + 2] == 'q'
    requires forall i :: 0 <= i < |q| && q[i] == '[' ==> i == 0 || i == n
    ensures forall i: nat :: i <= |q| ==> !OccursAt(q, "[/b]", i) && !OccursAt(q, "[i]", i) && !OccursAt(q, "[quote]", i)
  {
    forall i: nat | i <= |q| ensures !OccursAt(q, "[/b]", i) && !OccursAt(q, "[i]", i) && !OccursAt(q, "[quote]", i) {
      if i < |q| && q[i] == '[' && i == 0 {
        MismatchAt(q, "[/b]", i, 1);
        MismatchAt(q, "[i]", i, 1);
        MismatchAt(q, "[quote]", i, 6);
      } else if i < |q| && q[i] == '[' {
        MismatchAt(q, "[/b]", i, 2);
        MismatchAt(q, "[i]", i, 1);
        MismatchAt(q, "[quote]", i, 1);
      } else {
        MismatchAt(q, "[/b]", i, 0);
        MismatchAt(q, "[i]", i, 0);
        MismatchAt(q, "[quote]", i, 0);
      }
    }
  }

  /** A pattern does not occur at `i` when its character `m` differs from the text there. */
  lemma MismatchAt(s: string, pat: string, i: nat, m: nat)
    requires m < |pat|
    requires i + m < |s| ==> s[i + m] != pat[m]
    ensures !OccursAt(s, pat, i)
  {
    assert i + |pat| <= |s| ==> s[i..i + |pat|][m] == s[i + m];
  }

  lemma QuoteReplyHoldsNoNewline(username: string, body: string)
    requires '\n' !in username && '\n' !in body
    ensures '\n' !in "[quote=" + username + "]" + body + "[/quote]"
  {
    var q := "[quote=" + username + "]" + body + "[/quote]";
    var n := |q| - 8;
    forall c | c in q ensures c != '\n' {
      var k :| 0 <= k < |q| && q[k] == c;
      if k < 7 {
        assert q[k] == q[..7][k];
      } else if k < 7 + |username| {
        assert q[k] == username[k - 7];
      } else if k == 7 + |username| {
      } else if k < n {
        assert q[k] == body[k - 8 - |username|];
      } else {
        assert q[k] == q[n..][k - n];
      }
    }
  }

  // ----- Sending a reply -----

  datatype ReplyCheck = MustLogIn | EmptyReply | SendReply(content: string)

  /** The checks before a reply is posted: a stored token, then content that is not all white space. */
  function CheckReply(token: Option<string>, replyText: string): (r: ReplyCheck)
    ensures r == MustLogIn <==> !Truthy(token)
    ensures r == EmptyReply <==> Truthy(token) && forall k :: 0 <= k < |replyText| ==> IsWhiteSpace(replyText[k])
    ensures r.SendReply? ==> r.content == Trim(replyText) && r.content != []
  {
    TrimSpec(replyText);
    if !Truthy(token) then MustLogIn
    else if Trim(replyText) == [] then EmptyReply
    else SendReply(Trim(replyText))
  }

  /** The header a reply is sent with, `Bearer <token>`. */
  function ReplyAuthorization(token: string): string
  {
    "Bearer " + token
  }

  /** The server's middleware recovers the stored token from the header a reply is sent with. */
  lemma ReplyHeaderCarriesToken(token: string)
    requires ' ' !in token
    ensures AuthMiddleware.RequestToken(Some(ReplyAuthorization(token))) == Some(token)
  {
    AuthMiddleware.TokenIsSecondPiece(token, []);
    assert "Bearer " + token + [] == ReplyAuthorization(token);
  }

  // ----- Page-number bars -----

  /** One entry of a page-number bar: the current page in bold, every other page as a link. */
  datatype PageEntry = CurrentPage(page: nat) | PageLink(page: nat)

  /** The entries `displayPagination` lists: pages 1 to `totalPages` in order. */
  function PageEntries(currentPage: int, totalPages: nat): (r: seq<PageEntry>)
    ensures |r| == totalPages
    ensures forall k :: 0 <= k < |r| ==> r[k].page == k + 1
    ensures forall k :: 0 <= k < |r| ==> (r[k].CurrentPage? <==> k + 1 == currentPage)
  {
    seq(totalPages, k requires 0 <= k < totalPages => if k + 1 == currentPage then CurrentPage(k + 1) else PageLink(k + 1))
  }

  function CountCurrent(entries: seq<PageEntry>): nat
  {
    if entries == [] then 0 else (if entries[0].CurrentPage? then 1 else 0) + CountCurrent(entries[1..])
  }

  lemma {:induction false} CountCurrentOne(entries: seq<PageEntry>, i: nat)
    requires i < |entries| && entries[i].CurrentPage?
    requires forall k :: 0 <= k < |entries| && k != i ==> entries[k].PageLink?
    ensures CountCurrent(entries) == 1
    decreases |entries|
  {
    if i == 0 {
      CountCurrentNone(entries[1..]);
    } else {
      CountCurrentOne(entries[1..], i - 1);
    }
  }

  lemma {:induction false} CountCurrentNone(entries: seq<PageEntry>)
    requires forall k :: 0 <= k < |entries| ==> entries[k].PageLink?
    ensures CountCurrent(entries) == 0
    decreases |entries|
  {
    if entries != [] {
      CountCurrentNone(entries[1..]);
    }
  }

  /** Exactly one page is bold when the current page is in range, and none otherwise. */
  lemma OneCurrentPage(currentPage: int, totalPages: nat)
    ensures CountCurrent(PageEntries(currentPage, totalPages)) == if 1 <= currentPage <= totalPages then 1 else 0
  {
    var entries := PageEntries(currentPage, totalPages);
    if 1 <= currentPage <= totalPages {
      CountCurrentOne(entries, currentPage - 1);
    } else {
      CountCurrentNone(entries);
    }
  }

  function EntryHtml(e: PageEntry): string
  {
    match e
    case CurrentPage(n) => "<b>" + Decimal(n) + "</b> "
    case PageLink(n) => "<a href=\"#\" class=\"page-link\" data-page=\"" + Decimal(n) + "\">" + Decimal(n) + "</a> "
  }

  function EntriesHtml(entries: seq<PageEntry>): string
  {
    if entries == [] then [] else EntriesHtml(entries[..|entries| - 1]) + EntryHtml(entries[|entries| - 1])
  }

  /** The entry for page `page` of a bar whose current page is `currentPage`. */
  function Entry(currentPage: int, page: nat): PageEntry
  {
    if page == currentPage then CurrentPage(page) else PageLink(page)
  }

  lemma PageEntriesGrow(currentPage: int, n: nat)
    requires n > 0
    ensures PageEntries(currentPage, n) == PageEntries(currentPage, n - 1) + [Entry(currentPage, n)]
  {
    var entries := PageEntries(currentPage, n);
    assert entries[..n - 1] == PageEntries(currentPage, n - 1);
    assert entries[n - 1] == Entry(currentPage, n);
    assert entries == entries[..n - 1] + [entries[n - 1]];
  }

  lemma EntriesHtmlAppend(entries: seq<PageEntry>, e: PageEntry)
    ensures EntriesHtml(entries + [e]) == EntriesHtml(entries) + EntryHtml(e)
  {
    assert (entries + [e])[..|entries|] == entries;
  }

  lemma AppendAssociates(a: string, b: string, c: string)
    ensures a + b + c == a + (b + c)
  {
  }

  /** The two page-number containers above and below the posts. */
  class PaginationBars {
    var top: string
    var bottom: string

    constructor ()
      ensures top == [] && bottom == []
    {
      top, bottom := [], [];
    }

    /**
     * `displayPagination`: both bars are emptied, and for more than one page both receive the same
     * `Page: ` list of every page.
     */
    method Display(currentPage: int, totalPages: int)
      modifies this
      ensures totalPages <= 1 ==> top == [] && bottom == []
      ensures totalPages > 1 ==> top == "Page: " + EntriesHtml(PageEntries(currentPage, totalPages))
      ensures top == bottom
    {
      top, bottom := [], [];
      if totalPages <= 1 {
        return;
      }
      var html := "Page: ";
      for i := 1 to totalPages + 1
        invariant html == "Page: " + EntriesHtml(PageEntries(currentPage, i - 1))
      {
        var item: string;
        if i == currentPage {
          item := "<b>" + Decimal(i) + "</b> ";
        } else {
          item := "<a href=\"#\" class=\"page-link\" data-page=\"" + Decimal(i) + "\">" + Decimal(i) + "</a> ";
        }
        assert item == EntryHtml(Entry(currentPage, i));
        PageEntriesGrow(currentPage, i);
        EntriesHtmlAppend(PageEntries(currentPage, i - 1), Entry(currentPage, i));
        AppendAssociates("Page: ", EntriesHtml(PageEntries(currentPage, i - 1)), item);
        html := html + item;
      }
      top := html;
      bottom := html;
    }
  }
}
