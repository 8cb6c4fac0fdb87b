/**
 get_new_posts: read the cursor, scan the listing, report an exception to the chat, and move
 the cursor to the newest post found. Browser set-up, login and navigation are one abstract
 step that either succeeds or raises.
 */
module Scraper {
  import opened Wrappers
  import opened CursorStore
  import opened Listing
  import opened Notifier

  /**
   The `for post_element in posts_on_page` loop, appending to the posts gathered so far. It
   stops at the cursor, skips an entry whose lookup fails or whose page has no title, and stops
   at an exception, keeping a post appended just before it.
   */
  method ScanPage(postsOnPage: seq<Entry>, cursor: Option<string>, gathered: seq<Post>)
      returns (newPosts: seq<Post>, end: PassEnd)
    ensures newPosts == gathered + Pass(postsOnPage, cursor).batch
    ensures end == Pass(postsOnPage, cursor).end
  {
    newPosts := gathered;
    end := Exhausted;
    for i := 0 to |postsOnPage|
      invariant Pass(postsOnPage[..i], cursor).end == Exhausted
      invariant newPosts == gathered + Pass(postsOnPage[..i], cursor).batch
    {
      var e := postsOnPage[i];
      if e.LookupFails? {
        // NoSuchElementException: go on with the next entry
        PassGoesOn(postsOnPage, i, cursor);
        continue;
      }
      if e.LookupRaises? {
        PassHaltsAt(postsOnPage, i, cursor);
        assert newPosts + [] == newPosts;
        end := Raised;
        return;
      }
      var link := e.link;
      if Some(link) == cursor {
        PassHaltsAt(postsOnPage, i, cursor);
        assert newPosts + [] == newPosts;
        end := FoundCursor;
        return;
      }
      if e.PageRaises? {
        PassHaltsAt(postsOnPage, i, cursor);
        assert newPosts + [] == newPosts;
        end := Raised;
        return;
      }
      if e.Untitled? {
        // no h1.entry-title on the post page: go on with the next entry
        PassGoesOn(postsOnPage, i, cursor);
        continue;
      }
      ghost var done := Pass(postsOnPage[..i], cursor).batch;
      var post := Post(e.title, link, e.content);
      assert gathered + (done + [post]) == (gathered + done) + [post];
      newPosts := newPosts + [post];
      if e.TitledThenRaises? {
        // closing the post tab or switching back raises after the append
        PassHaltsAt(postsOnPage, i, cursor);
        end := Raised;
        return;
      }
      PassGoesOn(postsOnPage, i, cursor);
    }
    assert postsOnPage[..|postsOnPage|] == postsOnPage;
  }

  /**
   The `while not scraping_done` loop. Each pass reads the listing afresh (`pages[passes]`); the
   loop ends when a pass finds the cursor, when a pass reads an empty listing, or when an exception
   leaves it. No step moves to another page. The model runs at most |pages| passes.
   */
  method ScanListing(pages: seq<seq<Entry>>, cursor: Option<string>)
      returns (newPosts: seq<Post>, status: Status)
    ensures ScanResult(newPosts, status) == Scan(pages, cursor)
  {
    newPosts := [];
    status := OutOfPasses;
    var passes := 0;
    var scrapingDone := false;
    ThenEmpty(Scan(pages, cursor));
    while !scrapingDone
      invariant passes <= |pages| && !scrapingDone
      invariant Scan(pages, cursor) == Then(newPosts, Scan(pages[passes..], cursor))
      decreases |pages| - passes
    {
      if passes == |pages| {
        // the program itself would go on with another pass
        break;
      }
      ghost var rest := pages[passes..];
      ghost var before := newPosts;
      var postsOnPage := pages[passes];
      ScanAfterPass(rest, cursor);
      passes := passes + 1;
      assert rest[1..] == pages[passes..];
      if postsOnPage == [] {
        assert before + [] == before;
        status := EmptyPage;
        break;
      }
      var end;
      newPosts, end := ScanPage(postsOnPage, cursor, newPosts);
      ghost var batch := Pass(postsOnPage, cursor).batch;
      scrapingDone := end == FoundCursor;
      if scrapingDone {
        status := Found;
        break;
      }
      if end == Raised {
        // the exception leaves both loops
        status := Failed;
        break;
      }
      ThenThen(before, batch, Scan(pages[passes..], cursor));
    }
  }

  /** What the outer loop does with one pass, according to what it read and how it ended. */
  lemma ScanAfterPass(pages: seq<seq<Entry>>, cursor: Option<string>)
    requires pages != []
    ensures pages[0] == [] ==> Scan(pages, cursor) == ScanResult([], EmptyPage)
    ensures pages[0] != [] && Pass(pages[0], cursor).end == FoundCursor
        ==> Scan(pages, cursor) == ScanResult(Pass(pages[0], cursor).batch, Found)
    ensures pages[0] != [] && Pass(pages[0], cursor).end == Raised
        ==> Scan(pages, cursor) == ScanResult(Pass(pages[0], cursor).batch, Failed)
    ensures pages[0] != [] && Pass(pages[0], cursor).end == Exhausted
        ==> Scan(pages, cursor) == Then(Pass(pages[0], cursor).batch, Scan(pages[1..], cursor))
  {
  }

  /** What get_new_posts amounts to for its caller. */
  datatype Outcome =
    /** It returned these posts. */
    | Returned(posts: seq<Post>)
    /** Reporting a scraping exception to the chat raised in turn, and that escaped. */
    | Escaped
    /** The scan was still going when the listings the model supplies ran out. */
    | StillScanning(posts: seq<Post>)

  /** One call of get_new_posts: its outcome, the cursor file afterwards, and whether it sent an error report. */
  datatype CycleResult = CycleResult(outcome: Outcome, stored: Option<string>, reported: bool)

  /** The posts a call gathers: none when set-up raises, otherwise the scan's. */
  function Gathered(text: Option<string>, setupRaises: bool, pages: seq<seq<Entry>>): ScanResult {
    if setupRaises then ScanResult([], Failed) else Scan(pages, CursorOf(text))
  }

  /**
   The specification of one call of get_new_posts, given the cursor file's text and whether
   the chat accepts the error report. The cursor is overwritten exactly when the call returns a
   non-empty batch, with the batch's first link; partial posts survive a scraping exception.
   */
  function Cycle(text: Option<string>, setupRaises: bool, pages: seq<seq<Entry>>, reportOk: bool): (r: CycleResult)
    ensures r.outcome.Returned? && r.outcome.posts != [] ==> r.stored == Some(r.outcome.posts[0].link)
    ensures !(r.outcome.Returned? && r.outcome.posts != []) ==> r.stored == text
    ensures r.outcome.Escaped? ==> r.reported && !reportOk
  {
    var g := Gathered(text, setupRaises, pages);
    if g.status == Failed && !reportOk then CycleResult(Escaped, text, true)
    else if g.status == OutOfPasses then CycleResult(StillScanning(g.posts), text, false)
    else CycleResult(Returned(g.posts), if g.posts != [] then Some(g.posts[0].link) else text, g.status == Failed)
  }

  /**
   get_new_posts. `setupRaises` says whether browser set-up, login or navigation to the listing
   raised; `pages[i]` is what the listing shows on pass i.
   */
  method GetNewPosts(file: CursorFile, chat: Chat, setupRaises: bool, pages: seq<seq<Entry>>)
      returns (outcome: Outcome)
    modifies file, chat
    ensures var r := Cycle(old(file.text), setupRaises, pages, chat.accepts(|old(chat.attempted)|));
      outcome == r.outcome && file.text == r.stored
      && chat.attempted == old(chat.attempted) + (if r.reported then [ScraperError] else [])
      && chat.received == old(chat.received) + Accepted(if r.reported then [ScraperError] else [], chat.accepts, |old(chat.attempted)|)
  {
    var cursor := file.Read();
    var newPosts: seq<Post> := [];
    var status := Failed;
    if !setupRaises {
      newPosts, status := ScanListing(pages, cursor);
    }
    if status == Failed {
      // the except clause reports the error to the chat; if that send raises, it escapes
      var ok := chat.Send(ScraperError);
      assert [ScraperError][1..] == [];
      if !ok {
        return Escaped;
      }
    }
    if status == OutOfPasses {
      return StillScanning(newPosts);
    }
    if newPosts != [] {
      file.Save(newPosts[0].link);
    }
    outcome := Returned(newPosts);
  }

  /**
   An exception during set-up or login changes no stored state: the cursor file is as it was
   and exactly one error report is attempted.
   */
  lemma SetupFailureKeepsCursor(text: Option<string>, pages: seq<seq<Entry>>, reportOk: bool)
    ensures Cycle(text, true, pages, reportOk).stored == text
    ensures Cycle(text, true, pages, reportOk).reported
    ensures Cycle(text, true, pages, reportOk).outcome == if reportOk then Returned([]) else Escaped
  {
  }

  /** When the scan ends by itself and any error report goes through, the call returns what it gathered. */
  lemma CycleReturns(text: Option<string>, setupRaises: bool, pages: seq<seq<Entry>>, reportOk: bool)
    requires var g := Gathered(text, setupRaises, pages);
      g.status == Found || g.status == EmptyPage || (g.status == Failed && reportOk)
    ensures var g := Gathered(text, setupRaises, pages);
      Cycle(text, setupRaises, pages, reportOk)
      == CycleResult(Returned(g.posts), if g.posts != [] then Some(g.posts[0].link) else text, g.status == Failed)
  {
  }

  /**
   An exception mid-scan does not discard the posts gathered before it, on this pass or on the
   passes that ran to the end of the listing before it: once the report is sent they are
   returned and the cursor moves to the first one's link. When the report itself fails,
   nothing is returned and the cursor stays.
   */
  lemma ExceptionKeepsGatheredPosts(text: Option<string>, pages: seq<seq<Entry>>, reportOk: bool)
    requires FirstStop(pages, CursorOf(text)) < |pages|
    requires pages[FirstStop(pages, CursorOf(text))] != []
    requires var es := pages[FirstStop(pages, CursorOf(text))];
      !StepOf(es[FirstHalt(es, CursorOf(text))], CursorOf(text)).Stop?
    ensures var c := CursorOf(text); var n := FirstStop(pages, c);
      var es := pages[n]; var k := FirstHalt(es, c);
      var gathered := AllExtracted(pages[..n]) + (Extracted(es[..k]) + TailAt(es, c, k));
      var r := Cycle(text, false, pages, reportOk);
      r.reported
      && r.outcome == (if reportOk then Returned(gathered) else Escaped)
      && r.stored == (if reportOk && gathered != [] then Some(gathered[0].link) else text)
  {
    var c := CursorOf(text);
    ScanSpec(pages, c);
    if reportOk {
      CycleReturns(text, false, pages, reportOk);
    }
  }

  /**
   The duplicates the missing pagination causes survive an exception: after n passes over the
   same listing in which nothing matches the cursor, a pass that raises makes the call return n
   copies of the page's posts followed by what that pass gathered, and save the first link.
   */
  lemma RepeatedPassesThenException(text: Option<string>, es: seq<Entry>, pages: seq<seq<Entry>>, n: nat, reportOk: bool)
    requires es != [] && FirstHalt(es, CursorOf(text)) == |es|
    requires n < |pages| && forall i :: 0 <= i < n ==> pages[i] == es
    requires FirstHalt(pages[n], CursorOf(text)) < |pages[n]|
    requires !StepOf(pages[n][FirstHalt(pages[n], CursorOf(text))], CursorOf(text)).Stop?
    ensures var c := CursorOf(text); var last := pages[n]; var k := FirstHalt(last, c);
      var gathered := Repeat(Extracted(es), n) + (Extracted(last[..k]) + TailAt(last, c, k));
      var r := Cycle(text, false, pages, reportOk);
      r.reported
      && r.outcome == (if reportOk then Returned(gathered) else Escaped)
      && r.stored == (if reportOk && gathered != [] then Some(gathered[0].link) else text)
  {
    var c := CursorOf(text);
    FirstStopIs(pages, c, n);
    var done := pages[..n];
    assert forall i :: 0 <= i < |done| ==> done[i] == es;
    AllExtractedRepeat(done, es);
    assert AllExtracted(done) == Repeat(Extracted(es), n);
    ExceptionKeepsGatheredPosts(text, pages, reportOk);
  }

  /** The first stopping pass is determined by the passes before and at it. */
  lemma FirstStopIs(pages: seq<seq<Entry>>, cursor: Option<string>, n: nat)
    requires n <= |pages|
    requires forall i :: 0 <= i < n ==> pages[i] != [] && FirstHalt(pages[i], cursor) == |pages[i]|
    requires n < |pages| ==> pages[n] == [] || FirstHalt(pages[n], cursor) < |pages[n]|
    ensures FirstStop(pages, cursor) == n
  {
  }

  /**
   When the stored cursor is the link of the entry at position k of the first listing and every
   entry before it is extracted, the call returns exactly the first k posts, in listing order,
   sends no report, and moves the cursor to the first entry's link when k > 0.
   */
  lemma CursorFoundCycle(text: Option<string>, pages: seq<seq<Entry>>, reportOk: bool, k: nat)
    requires pages != []
    requires k < |pages[0]| && pages[0][k].HasLink() && Some(pages[0][k].link) == CursorOf(text)
    requires forall i :: 0 <= i < k ==> pages[0][i].Titled? && Some(pages[0][i].link) != CursorOf(text)
    ensures var r := Cycle(text, false, pages, reportOk);
      r.outcome.Returned? && !r.reported
      && |r.outcome.posts| == k
      && (forall i :: 0 <= i < k ==> r.outcome.posts[i] == PostOf(pages[0][i]))
      && r.stored == (if k > 0 then Some(pages[0][0].link) else text)
  {
    var c := CursorOf(text);
    var listing := pages[0];
    CursorAtPosition(listing, c, k);
    ScanAfterPass(pages, c);
    var g := Gathered(text, false, pages);
    assert g == ScanResult(Pass(listing, c).batch, Found);
    CycleReturns(text, false, pages, reportOk);
    assert k > 0 ==> g.posts[0].link == listing[0].link;
  }

  /**
   When every pass reads the same non-empty listing and no entry of it carries the stored
   cursor's link or raises, the call never returns: after any number of passes it is still
   scanning, has gathered the page's posts once per pass, and has neither saved a cursor nor sent
   anything.
   */
  lemma MissingCursorNeverReturns(text: Option<string>, es: seq<Entry>, pages: seq<seq<Entry>>, reportOk: bool)
    requires es != [] && FirstHalt(es, CursorOf(text)) == |es|
    requires forall i :: 0 <= i < |pages| ==> pages[i] == es
    ensures var r := Cycle(text, false, pages, reportOk);
      r.outcome == StillScanning(Repeat(Extracted(es), |pages|)) && r.stored == text && !r.reported
  {
    ScanWithoutCursorRepeats(pages, es, CursorOf(text));
  }

  /**
   After a call that returned new posts, a second call that reads the same listings finds the
   saved cursor and returns nothing, leaving the cursor where it is, provided the saved link has
   no surrounding whitespace (reading the file strips it).
   */
  lemma SecondCycleIsQuiet(text: Option<string>, pages: seq<seq<Entry>>, ok1: bool, ok2: bool)
    requires Cycle(text, false, pages, ok1).outcome.Returned?
    requires Cycle(text, false, pages, ok1).outcome.posts != []
    requires Bare(Cycle(text, false, pages, ok1).outcome.posts[0].link)
    ensures var saved := Cycle(text, false, pages, ok1).stored;
      Cycle(saved, false, pages, ok2) == CycleResult(Returned([]), saved, false)
  {
    var c := CursorOf(text);
    var g := Gathered(text, false, pages);
    assert g == Scan(pages, c);
    assert g.status != OutOfPasses && !(g.status == Failed && !ok1);
    CycleReturns(text, false, pages, ok1);
    var link := g.posts[0].link;
    var saved := Some(link);
    assert Cycle(text, false, pages, ok1).stored == saved;
    ReadAfterSave(link);
    RescanFindsNothing(pages, c);
    assert Gathered(saved, false, pages) == ScanResult([], Found);
    CycleReturns(saved, false, pages, ok2);
  }
}
