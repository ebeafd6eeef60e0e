/**
 * `parseBBCode` of the forum controller: three global, lazy, dot-matches-newline regex
 * replacements for `[b]`, `[i]` and `[quote]`, in that order, then every newline to `<br>`.
 * Nothing is escaped: text outside a matched pair of tags is copied as it is.
 */
module BBCode {
  import opened Wrappers
  import opened Text

  /**
   * One `s.replace(/open(.*?)close/gs, left + '$1' + right)`. The regex engine tries each start
   * position from the left; a match at a position needs `open` there and some later `close`, and
   * the lazy group stops at the first such `close`. After a match the scan resumes after it;
   * where no match starts, one character is copied.
   */
  function ReplacePairs(s: string, open: string, close: string, left: string, right: string): string
    requires open != []
    decreases |s|
  {
    if s == [] then []
    else if open <= s && IndexOf(s[|open|..], close).Some? then
      var after := s[|open|..];
      var j := IndexOf(after, close).value;
      left + after[..j] + right + ReplacePairs(after[j + |close|..], open, close, left, right)
    else [s[0]] + ReplacePairs(s[1..], open, close, left, right)
  }

  function BoldPass(s: string): string { ReplacePairs(s, "[b]", "[/b]", "<strong>", "</strong>") }
  function ItalicPass(s: string): string { ReplacePairs(s, "[i]", "[/i]", "<em>", "</em>") }
  function QuotePass(s: string): string { ReplacePairs(s, "[quote]", "[/quote]", "<blockquote>", "</blockquote>") }

  /** `s.replace(/\n/g, '<br>')`. */
  function NewlinesToBreaks(s: string): (r: string)
    ensures '\n' !in r
    ensures '\n' !in s ==> r == s
  {
    if s == [] then []
    else (if s[0] == '\n' then "<br>" else [s[0]]) + NewlinesToBreaks(s[1..])
  }

  /** The replacement works character by character: it distributes over concatenation. */
  lemma {:induction false} NewlinesToBreaksConcat(a: string, b: string)
    ensures NewlinesToBreaks(a + b) == NewlinesToBreaks(a) + NewlinesToBreaks(b)
    decreases |a|
  {
    if a == [] {
      assert a + b == b;
    } else {
      assert (a + b)[1..] == a[1..] + b;
      NewlinesToBreaksConcat(a[1..], b);
      var head := if a[0] == '\n' then "<br>" else [a[0]];
      assert NewlinesToBreaks(a + b) == head + NewlinesToBreaks(a[1..] + b);
      assert head + (NewlinesToBreaks(a[1..]) + NewlinesToBreaks(b)) == head + NewlinesToBreaks(a[1..]) + NewlinesToBreaks(b);
    }
  }

  /** A newline becomes `<br>`, and any other character stays as it is. */
  lemma NewlinesToBreaksChar(c: char)
    ensures NewlinesToBreaks([c]) == if c == '\n' then "<br>" else [c]
  {
    assert [c][1..] == [];
  }

  /** Each newline is replaced where it stands: the newline-free text before it is kept, `<br>`
      takes its place, and the replacement goes on after it. */
  lemma NewlineBecomesBreak(a: string, b: string)
    requires '\n' !in a
    ensures NewlinesToBreaks(a + "\n" + b) == a + "<br>" + NewlinesToBreaks(b)
  {
    NewlinesToBreaksConcat(a + "\n", b);
    NewlinesToBreaksConcat(a, "\n");
    NewlinesToBreaksChar('\n');
  }

  /** The rendering applied to every post's content at read time. */
  function ParseBBCode(text: Option<string>): (r: string)
    ensures '\n' !in r
    ensures text.None? ==> r == []
  {
    if text.None? || text.value == [] then []
    else NewlinesToBreaks(QuotePass(ItalicPass(BoldPass(text.value))))
  }

  /** An absent or empty text renders as the empty string. */
  lemma EmptyRendersEmpty()
    ensures ParseBBCode(None) == [] && ParseBBCode(Some([])) == []
  {
  }

  // ----- Occurrences -----

  /** An occurrence in a suffix of `s` is an occurrence in `s`. */
  lemma SuffixContains(s: string, k: nat, pat: string)
    requires k <= |s|
    ensures Contains(s[k..], pat) ==> Contains(s, pat)
  {
    if Contains(s[k..], pat) {
      var i: nat :| i <= |s[k..]| && OccursAt(s[k..], pat, i);
      assert s[k..][i..i + |pat|] == s[k + i..k + i + |pat|];
      assert OccursAt(s, pat, k + i);
    }
  }

  /** A non-empty pattern can only occur where its first character stands. */
  lemma OccursAtFirstChar(s: string, pat: string, i: nat)
    requires pat != [] && OccursAt(s, pat, i)
    ensures i < |s| && s[i] == pat[0]
  {
    assert s[i..i + |pat|][0] == s[i];
  }

  // ----- Literal pass-through -----

  /** Without any opening tag, a pass copies its input. */
  lemma {:induction false} NoOpenUnchanged(s: string, open: string, close: string, left: string, right: string)
    requires open != [] && !Contains(s, open)
    ensures ReplacePairs(s, open, close, left, right) == s
    decreases |s|
  {
    if s != [] {
      assert open <= s ==> OccursAt(s, open, 0);
      SuffixContains(s, 1, open);
      NoOpenUnchanged(s[1..], open, close, left, right);
      assert [s[0]] + s[1..] == s;
    }
  }

  /** Without any closing tag, a pass copies its input: an unterminated tag stays literal. */
  lemma {:induction false} NoCloseUnchanged(s: string, open: string, close: string, left: string, right: string)
    requires open != [] && !Contains(s, close)
    ensures ReplacePairs(s, open, close, left, right) == s
    decreases |s|
  {
    if s != [] {
      if open <= s {
        SuffixContains(s, |open|, close);
      }
      SuffixContains(s, 1, close);
      NoCloseUnchanged(s[1..], open, close, left, right);
      assert [s[0]] + s[1..] == s;
    }
  }

  /** A tag is a `[`-led pattern, so a string without `[` holds none. */
  lemma NoBracketNoTag(s: string, pat: string)
    requires pat != [] && pat[0] == '[' && '[' !in s
    ensures !Contains(s, pat)
  {
    if Contains(s, pat) {
      var i: nat :| i <= |s| && OccursAt(s, pat, i);
      OccursAtFirstChar(s, pat, i);
    }
  }

  /** A string without `[` renders with only its newlines changed: `<`, `>`, `&` and every other
      character pass through unescaped. */
  lemma NoBracketRendersLiterally(s: string)
    requires s != [] && '[' !in s
    ensures ParseBBCode(Some(s)) == NewlinesToBreaks(s)
  {
    NoBracketNoTag(s, "[b]");
    NoOpenUnchanged(s, "[b]", "[/b]", "<strong>", "</strong>");
    NoBracketNoTag(s, "[i]");
    NoOpenUnchanged(s, "[i]", "[/i]", "<em>", "</em>");
    NoBracketNoTag(s, "[quote]");
    NoOpenUnchanged(s, "[quote]", "[/quote]", "<blockquote>", "</blockquote>");
  }

  // ----- Matched pairs -----

  /** With no `[` in `pre`, a pass copies `pre` and continues after it. */
  lemma {:induction false} BracketFreePrefix(pre: string, t: string, open: string, close: string, left: string, right: string)
    requires open != [] && open[0] == '[' && '[' !in pre
    ensures ReplacePairs(pre + t, open, close, left, right) == pre + ReplacePairs(t, open, close, left, right)
    decreases |pre|
  {
    if pre != [] {
      var s := pre + t;
      assert pre[0] in pre;
      assert s[0] == pre[0] != open[0];
      assert !(open <= s);
      assert s[1..] == pre[1..] + t;
      BracketFreePrefix(pre[1..], t, open, close, left, right);
      var rest := ReplacePairs(t, open, close, left, right);
      assert ReplacePairs(s, open, close, left, right) == [s[0]] + (pre[1..] + rest);
      assert [pre[0]] + (pre[1..] + rest) == pre + rest;
    } else {
      assert pre + t == t;
    }
  }

  /** The first closing tag after a selection that holds none is the one right after it. */
  lemma FirstCloseAfter(sel: string, close: string, post: string)
    requires |close| >= 1 && close[0] == '[' && '[' !in close[1..]
    requires !Contains(sel, close)
    ensures IndexOf(sel + close + post, close) == Some(|sel|)
  {
    var s := sel + close + post;
    assert s[|sel|..|sel| + |close|] == close;
    assert OccursAt(s, close, |sel|);
    forall j: nat | j < |sel| ensures !OccursAt(s, close, j) {
      if j + |close| <= |sel| {
        assert s[j..j + |close|] == sel[j..j + |close|];
        assert OccursAt(s, close, j) ==> OccursAt(sel, close, j);
      }
    }
  }

  /**
   * One step of a pass where a pair matches: with the opening tag at the start and `j` the
   * position of the nearest closing tag after it, the shortest match is replaced by
   * left + selection + right, and the pass resumes after that closing tag.
   */
  lemma MatchStep(s: string, open: string, close: string, left: string, right: string, j: nat)
    requires open != [] && open <= s
    requires OccursAt(s[|open|..], close, j)
    requires forall i: nat :: i < j ==> !OccursAt(s[|open|..], close, i)
    ensures j + |close| <= |s| - |open|
    ensures ReplacePairs(s, open, close, left, right)
         == left + s[|open|..][..j] + right + ReplacePairs(s[|open|..][j + |close|..], open, close, left, right)
  {
    IndexOfFirst(s[|open|..], close, j);
    UnfoldMatch(s, open, close, left, right, j);
  }

  /** The matching branch of a pass, for the position `IndexOf` reports. */
  lemma UnfoldMatch(s: string, open: string, close: string, left: string, right: string, j: nat)
    requires open != [] && open <= s
    requires IndexOf(s[|open|..], close) == Some(j)
    ensures j + |close| <= |s| - |open|
    ensures ReplacePairs(s, open, close, left, right)
         == left + s[|open|..][..j] + right + ReplacePairs(s[|open|..][j + |close|..], open, close, left, right)
  {
    var after := s[|open|..];
    assert OccursAt(after, close, j);
    assert s != [];
    assert IndexOf(after, close).value == j;
  }

  /** A pair at the very start of the text is replaced, and the pass goes on after its closing tag. */
  lemma PairAtStart(sel: string, post: string, open: string, close: string, left: string, right: string)
    requires |open| >= 1
    requires |close| >= 1 && close[0] == '[' && '[' !in close[1..]
    requires !Contains(sel, close)
    ensures ReplacePairs(open + sel + close + post, open, close, left, right)
         == left + sel + right + ReplacePairs(post, open, close, left, right)
  {
    var t := open + sel + close + post;
    assert open <= t;
    var after := t[|open|..];
    assert after == sel + close + post;
    FirstCloseAfter(sel, close, post);
    MatchStep(t, open, close, left, right, |sel|);
    assert after[..|sel|] == sel;
    assert after[|sel| + |close|..] == post;
  }

  /**
   * The text `wrapText` produces renders the selection between the replacement markup: with no `[`
   * before the inserted opening tag and no closing tag inside the selection, the pass turns
   * `pre + open + sel + close + post` into `pre + left + sel + right` followed by the pass over `post`.
   */
  lemma WrappedSelection(pre: string, sel: string, post: string, open: string, close: string, left: string, right: string)
    requires |open| >= 1 && open[0] == '[' && '[' !in pre
    requires |close| >= 1 && close[0] == '[' && '[' !in close[1..]
    requires !Contains(sel, close)
    ensures ReplacePairs(pre + open + sel + close + post, open, close, left, right)
         == pre + left + sel + right + ReplacePairs(post, open, close, left, right)
  {
    var t := open + sel + close + post;
    RegroupFive(pre, open, sel, close, post);
    BracketFreePrefix(pre, t, open, close, left, right);
    PairAtStart(sel, post, open, close, left, right);
    var rest := ReplacePairs(post, open, close, left, right);
    RegroupFive(pre, left, sel, right, rest);
  }

  lemma RegroupFive(a: string, b: string, c: string, d: string, e: string)
    ensures a + (b + c + d + e) == a + b + c + d + e
  {
  }

  /** Without any `[`, the italic and quote passes copy their input. */
  lemma LaterPassesUnchanged(s: string)
    requires '[' !in s
    ensures QuotePass(ItalicPass(s)) == s
  {
    NoBracketNoTag(s, "[i]");
    NoOpenUnchanged(s, "[i]", "[/i]", "<em>", "</em>");
    NoBracketNoTag(s, "[quote]");
    NoOpenUnchanged(s, "[quote]", "[/quote]", "<blockquote>", "</blockquote>");
  }

  /** The bold pass over the text `wrapText('b')` leaves when nothing before the selection holds `[`. */
  lemma BoldSelectionPass(pre: string, sel: string, post: string)
    requires '[' !in pre && '[' !in sel && '[' !in post
    ensures BoldPass(pre + "[b]" + sel + "[/b]" + post) == pre + "<strong>" + sel + "</strong>" + post
  {
    NoBracketNoTag(sel, "[/b]");
    WrappedSelection(pre, sel, post, "[b]", "[/b]", "<strong>", "</strong>");
    NoBracketNoTag(post, "[b]");
    NoOpenUnchanged(post, "[b]", "[/b]", "<strong>", "</strong>");
  }

  /** `wrapText('b')` over a selection: with no `[` and no newline anywhere else, the posted text
      renders as exactly the selection in `<strong>`. */
  lemma BoldSelectionRenders(pre: string, sel: string, post: string)
    requires '[' !in pre && '[' !in sel && '[' !in post
    requires '\n' !in pre && '\n' !in sel && '\n' !in post
    ensures ParseBBCode(Some(pre + "[b]" + sel + "[/b]" + post)) == pre + "<strong>" + sel + "</strong>" + post
  {
    var text := pre + "[b]" + sel + "[/b]" + post;
    var out := pre + "<strong>" + sel + "</strong>" + post;
    BoldSelectionPass(pre, sel, post);
    PlainMarkup();
    NotInFive('[', pre, "<strong>", sel, "</strong>", post);
    NotInFive('\n', pre, "<strong>", sel, "</strong>", post);
    LaterPassesUnchanged(out);
    assert text != [];
  }

  /** A character that is in none of five pieces is not in their concatenation. */
  lemma NotInFive(c: char, a: string, b: string, m: string, d: string, e: string)
    requires c !in a && c !in b && c !in m && c !in d && c !in e
    ensures c !in a + b + m + d + e
  {
  }

  /** A pattern holding a character that `s` lacks does not occur in `s`. */
  lemma MissingCharNoTag(s: string, pat: string, c: char)
    requires c in pat && c !in s
    ensures !Contains(s, pat)
  {
  }

  /** An italic pair around bracket-free text holds no opening bold tag. */
  lemma ItalicPairHoldsNoBold(x: string)
    requires '[' !in x
    ensures !Contains("[i]" + x + "[/i]", "[b]")
  {
    var t := "[i]" + x + "[/i]";
    forall i: nat | i <= |t| ensures !OccursAt(t, "[b]", i) {
      if i + 3 <= |t| {
        assert t[i..i + 3][0] == t[i] && t[i..i + 3][1] == t[i + 1];
        if i < 3 {
          assert t[..3] == "[i]";
        } else if i < |x| + 3 {
          assert t[i] == x[i - 3];
        } else {
          assert t[|x| + 3..] == "[/i]";
        }
      }
    }
  }

  /** The bold pass over a bold pair followed by an italic pair replaces the bold pair only. */
  lemma BoldThenItalicBoldPass(x: string, y: string)
    requires '[' !in x && '[' !in y
    ensures BoldPass("[b]" + x + "[/b]" + ("[i]" + y + "[/i]")) == "<strong>" + x + "</strong>" + ("[i]" + y + "[/i]")
  {
    var italic := "[i]" + y + "[/i]";
    NoBracketNoTag(x, "[/b]");
    PairAtStart(x, italic, "[b]", "[/b]", "<strong>", "</strong>");
    ItalicPairHoldsNoBold(y);
    NoOpenUnchanged(italic, "[b]", "[/b]", "<strong>", "</strong>");
  }

  /** The italic pass over bracket-free text followed by an italic pair replaces that pair. */
  lemma ItalicPairAtEnd(pre: string, y: string)
    requires '[' !in pre && '[' !in y
    ensures ItalicPass(pre + "[i]" + y + "[/i]") == pre + "<em>" + y + "</em>"
  {
    assert pre + "[i]" + y + "[/i]" == pre + "[i]" + y + "[/i]" + [];
    NoBracketNoTag(y, "[/i]");
    WrappedSelection(pre, y, [], "[i]", "[/i]", "<em>", "</em>");
  }

  /** Without any `[`, the quote pass copies its input. */
  lemma QuotePassBracketFree(s: string)
    requires '[' !in s
    ensures QuotePass(s) == s
  {
    NoBracketNoTag(s, "[quote]");
    NoOpenUnchanged(s, "[quote]", "[/quote]", "<blockquote>", "</blockquote>");
  }

  /** When the bold and italic passes already leave no `[` and no newline, that is the rendering. */
  lemma BracketFreeAfterTwoPasses(t: string, out: string)
    requires t != [] && ItalicPass(BoldPass(t)) == out && '[' !in out && '\n' !in out
    ensures ParseBBCode(Some(t)) == out
  {
    QuotePassBracketFree(out);
  }

  /** The bold and then the italic pass over a bold pair followed by an italic pair. */
  lemma BoldThenItalicPasses(x: string, y: string)
    requires '[' !in x && '[' !in y
    ensures ItalicPass(BoldPass("[b]" + x + "[/b]" + ("[i]" + y + "[/i]"))) == "<strong>" + x + "</strong>" + ("<em>" + y + "</em>")
  {
    var bold := "<strong>" + x + "</strong>";
    BoldThenItalicBoldPass(x, y);
    PlainMarkup();
    NotInWrapped('[', "<strong>", x, "</strong>");
    Regroup(bold, "[i]", y, "[/i]");
    ItalicPairAtEnd(bold, y);
    Regroup(bold, "<em>", y, "</em>");
  }

  lemma Regroup(a: string, b: string, c: string, d: string)
    ensures a + (b + c + d) == a + b + c + d
  {
  }

  /** The markup the bold and italic passes insert holds no `[` and no newline. */
  lemma PlainMarkup()
    ensures '[' !in "<strong>" && '[' !in "</strong>" && '[' !in "<em>" && '[' !in "</em>"
    ensures '\n' !in "<strong>" && '\n' !in "</strong>" && '\n' !in "<em>" && '\n' !in "</em>"
  {
  }

  /** A character that is in none of three pieces is not in their concatenation. */
  lemma NotInWrapped(c: char, left: string, x: string, right: string)
    requires c !in left && c !in x && c !in right
    ensures c !in left + x + right
  {
  }

  /** A bold pair followed by an italic pair, both around bracket-free text, renders as both. */
  lemma BoldThenItalic(x: string, y: string) returns (t: string, out: string)
    requires '[' !in x && '[' !in y && '\n' !in x && '\n' !in y
    ensures t == "[b]" + x + "[/b]" + ("[i]" + y + "[/i]")
    ensures out == "<strong>" + x + "</strong>" + ("<em>" + y + "</em>")
    ensures ParseBBCode(Some(t)) == out
  {
    t := "[b]" + x + "[/b]" + ("[i]" + y + "[/i]");
    out := "<strong>" + x + "</strong>" + ("<em>" + y + "</em>");
    BoldThenItalicPasses(x, y);
    PlainMarkup();
    NotInWrapped('[', "<strong>", x, "</strong>");
    NotInWrapped('[', "<em>", y, "</em>");
    NotInWrapped('\n', "<strong>", x, "</strong>");
    NotInWrapped('\n', "<em>", y, "</em>");
    assert t != [];
    BracketFreeAfterTwoPasses(t, out);
  }

  /** Text in which no pass finds a pair, and without newlines, renders as itself. */
  lemma NoPairRendersLiterally(s: string)
    requires s != [] && '\n' !in s
    requires !Contains(s, "[/b]") && !Contains(s, "[i]") && !Contains(s, "[quote]")
    ensures ParseBBCode(Some(s)) == s
  {
    NoCloseUnchanged(s, "[b]", "[/b]", "<strong>", "</strong>");
    NoOpenUnchanged(s, "[i]", "[/i]", "<em>", "</em>");
    NoOpenUnchanged(s, "[quote]", "[/quote]", "<blockquote>", "</blockquote>");
  }

  /** An opening tag with nothing to close it is copied: `[b]bold` with no closing tag renders as itself. */
  lemma UnterminatedExample(s: string)
    requires s == "[b]bold"
    ensures ParseBBCode(Some(s)) == s
  {
    MissingCharNoTag(s, "[/b]", '/');
    MissingCharNoTag(s, "[i]", 'i');
    MissingCharNoTag(s, "[quote]", 'q');
    NoPairRendersLiterally(s);
  }
}
