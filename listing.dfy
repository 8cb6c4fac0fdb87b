/**
 The article listing as the scraper sees it, and the specification of the scan over it.

 The browser is abstract: each `article` element of the listing is described by what reading
 it yields. One pass walks the entries in rendered order. The scan repeats passes, each reading
 the listing afresh from the browser, until a pass finds the stored cursor, a pass reads an empty
 listing or an exception escapes. Nothing moves the browser to another page between passes.
 */
module Listing {
  import opened Wrappers

  /** A post as handed to the notifier: the page's title and content, the listing's link. */
  datatype Post = Post(title: string, link: string, content: string)

  /** What one `article` element of the listing yields. */
  datatype Entry =
    /** `.entry-title` or its `a` is missing: NoSuchElementException, caught per entry. */
    | LookupFails
    /** Reading the title or link raises some other exception, before any cursor comparison. */
    | LookupRaises
    /** The link is read and the post page has an `h1.entry-title` and an `entry-content`. */
    | Titled(link: string, title: string, content: string)
    /** As Titled, but closing the post tab or switching back raises after the post is appended. */
    | TitledThenRaises(link: string, title: string, content: string)
    /** The link is read but the post page has no `h1.entry-title`. */
    | Untitled(link: string)
    /** The link is read, but opening, waiting for or converting the post page raises. */
    | PageRaises(link: string)
  {
    predicate HasLink() { !LookupFails? && !LookupRaises? }
    predicate HasPost() { Titled? || TitledThenRaises? }
  }

  /** The post an entry with a titled page contributes. */
  function PostOf(e: Entry): (p: Post)
    requires e.HasPost()
    ensures p.link == e.link && p.title == e.title && p.content == e.content
  {
    Post(e.title, e.link, e.content)
  }

  /** What the loop body does with one entry. */
  datatype Step = Skip | Append(post: Post) | Stop | Raise | AppendThenRaise(post: Post)

  /** The body of the `for post_element in posts_on_page` loop for one entry. */
  function StepOf(e: Entry, cursor: Option<string>): (s: Step)
    ensures s.Stop? <==> e.HasLink() && Some(e.link) == cursor
    ensures (s.Append? || s.AppendThenRaise?) <==> e.HasPost() && Some(e.link) != cursor
    ensures s.Append? || s.AppendThenRaise? ==> s.post == PostOf(e)
    ensures s.AppendThenRaise? <==> e.TitledThenRaises? && Some(e.link) != cursor
    ensures s.Raise? <==> e.LookupRaises? || (e.PageRaises? && Some(e.link) != cursor)
  {
    match e
    case LookupFails => Skip
    case LookupRaises => Raise
    case Titled(link, title, content) => if Some(link) == cursor then Stop else Append(Post(title, link, content))
    case TitledThenRaises(link, title, content) =>
      if Some(link) == cursor then Stop else AppendThenRaise(Post(title, link, content))
    case Untitled(link) => if Some(link) == cursor then Stop else Skip
    case PageRaises(link) => if Some(link) == cursor then Stop else Raise
  }

  /** An entry at which the pass ends: it carries the cursor's link or it raises. */
  predicate Halts(e: Entry, cursor: Option<string>) {
    var s := StepOf(e, cursor);
    s.Stop? || s.Raise? || s.AppendThenRaise?
  }

  /** How a pass over the listing ended. */
  datatype PassEnd = Exhausted | FoundCursor | Raised

  datatype PassResult = PassResult(batch: seq<Post>, end: PassEnd)

  /** The pass state after one more entry. */
  function Advance(r: PassResult, e: Entry, cursor: Option<string>): PassResult {
    if r.end != Exhausted then r
    else match StepOf(e, cursor)
      case Skip => r
      case Append(p) => PassResult(r.batch + [p], Exhausted)
      case Stop => PassResult(r.batch, FoundCursor)
      case Raise => PassResult(r.batch, Raised)
      case AppendThenRaise(p) => PassResult(r.batch + [p], Raised)
  }

  /** One pass of the inner loop over the entries, element by element in listing order. */
  function Pass(es: seq<Entry>, cursor: Option<string>): (r: PassResult)
    ensures |r.batch| <= |es|
    ensures r.end == Exhausted <==> forall i :: 0 <= i < |es| ==> !Halts(es[i], cursor)
    decreases |es|
  {
    if es == [] then PassResult([], Exhausted)
    else
      var front := es[..|es| - 1];
      assert forall i :: 0 <= i < |front| ==> front[i] == es[i];
      Advance(Pass(front, cursor), es[|es| - 1], cursor)
  }

  lemma PassSnoc(a: seq<Entry>, e: Entry, cursor: Option<string>)
    ensures Pass(a + [e], cursor) == Advance(Pass(a, cursor), e, cursor)
  {
    assert (a + [e])[..|a|] == a;
  }

  /** What a halting entry leaves in the batch: its post when it is appended before the exception. */
  function HaltPost(e: Entry, cursor: Option<string>): (ps: seq<Post>)
    ensures ps != [] ==> e.TitledThenRaises? && Some(e.link) != cursor && ps == [PostOf(e)]
  {
    match StepOf(e, cursor)
    case AppendThenRaise(p) => [p]
    case _ => []
  }

  /** One more entry for a pass that is still going. */
  lemma AdvanceGoingOn(r: PassResult, e: Entry, cursor: Option<string>)
    requires r.end == Exhausted
    ensures Halts(e, cursor) ==>
      Advance(r, e, cursor)
      == PassResult(r.batch + HaltPost(e, cursor), if StepOf(e, cursor).Stop? then FoundCursor else Raised)
    ensures !Halts(e, cursor) ==>
      Advance(r, e, cursor) == PassResult(r.batch + (if e.Titled? then [PostOf(e)] else []), Exhausted)
  {
    if Halts(e, cursor) && HaltPost(e, cursor) == [] {
      assert r.batch + [] == r.batch;
    }
  }

  /** A pass whose entry i is the first to halt ends there, whatever follows. */
  lemma PassHaltsAt(es: seq<Entry>, i: nat, cursor: Option<string>)
    requires i < |es| && Pass(es[..i], cursor).end == Exhausted && Halts(es[i], cursor)
    ensures Pass(es, cursor).batch == Pass(es[..i], cursor).batch + HaltPost(es[i], cursor)
    ensures Pass(es, cursor).end == if StepOf(es[i], cursor).Stop? then FoundCursor else Raised
  {
    var before, upto, after := es[..i], es[..i + 1], es[i + 1..];
    assert upto == before + [es[i]];
    PassSnoc(before, es[i], cursor);
    AdvanceGoingOn(Pass(before, cursor), es[i], cursor);
    var r := Pass(upto, cursor);
    assert r.end != Exhausted;
    assert es == upto + after;
    PassIgnoresRest(upto, after, cursor);
  }

  /** An entry that does not halt the pass adds its post, if it has one, and the pass goes on. */
  lemma PassGoesOn(es: seq<Entry>, i: nat, cursor: Option<string>)
    requires i < |es| && Pass(es[..i], cursor).end == Exhausted && !Halts(es[i], cursor)
    ensures Pass(es[..i + 1], cursor).end == Exhausted
    ensures Pass(es[..i + 1], cursor).batch
         == Pass(es[..i], cursor).batch + (if es[i].Titled? then [PostOf(es[i])] else [])
  {
    PassSnoc(es[..i], es[i], cursor);
    assert es[..i] + [es[i]] == es[..i + 1];
    AdvanceGoingOn(Pass(es[..i], cursor), es[i], cursor);
  }

  /** Index of the first entry at which a pass ends, or |es| when none does. */
  function FirstHalt(es: seq<Entry>, cursor: Option<string>): (k: nat)
    ensures k <= |es|
    ensures forall i :: 0 <= i < k ==> !Halts(es[i], cursor)
    ensures k < |es| ==> Halts(es[k], cursor)
  {
    if es == [] then 0
    else if Halts(es[0], cursor) then 0
    else 1 + FirstHalt(es[1..], cursor)
  }

  /** The posts of the titled entries, in order: the entries that are successfully extracted. */
  function Extracted(es: seq<Entry>): (ps: seq<Post>)
    ensures |ps| <= |es|
  {
    if es == [] then []
    else (if es[0].Titled? then [PostOf(es[0])] else []) + Extracted(es[1..])
  }

  lemma {:induction false} ExtractedSnoc(a: seq<Entry>, e: Entry)
    ensures Extracted(a + [e]) == Extracted(a) + (if e.Titled? then [PostOf(e)] else [])
  {
    var last: seq<Post> := if e.Titled? then [PostOf(e)] else [];
    if a == [] {
      assert a + [e] == [e];
      assert [e][1..] == [];
      assert Extracted([e]) == last + Extracted([]);
    } else {
      var first: seq<Post> := if a[0].Titled? then [PostOf(a[0])] else [];
      var b := a + [e];
      assert b[0] == a[0];
      assert b[1..] == a[1..] + [e];
      assert Extracted(b) == first + Extracted(a[1..] + [e]);
      ExtractedSnoc(a[1..], e);
      assert Extracted(a) == first + Extracted(a[1..]);
    }
  }

  /** How a pass ends, given the index of its first halting entry. */
  function EndAt(es: seq<Entry>, cursor: Option<string>, k: nat): PassEnd
    requires k <= |es|
  {
    if k == |es| then Exhausted
    else if StepOf(es[k], cursor).Stop? then FoundCursor
    else Raised
  }

  /** What the entry at index k leaves in the batch when the pass halts there. */
  function TailAt(es: seq<Entry>, cursor: Option<string>, k: nat): seq<Post>
    requires k <= |es|
  {
    if k == |es| then [] else HaltPost(es[k], cursor)
  }

  /**
   A pass yields exactly the extracted posts of the entries strictly before the first entry that
   carries the cursor's link or raises, in listing order, followed by the post of that entry when
   it raised only after its post was appended; it ends with that entry.
   */
  lemma {:induction false} PassSpec(es: seq<Entry>, cursor: Option<string>)
    ensures Pass(es, cursor).batch == Extracted(es[..FirstHalt(es, cursor)]) + TailAt(es, cursor, FirstHalt(es, cursor))
    ensures Pass(es, cursor).end == EndAt(es, cursor, FirstHalt(es, cursor))
  {
    if es == [] {
      assert es[..0] == [];
    } else {
      var n := |es|;
      var a, e := es[..n - 1], es[n - 1];
      assert es == a + [e];
      PassSpec(a, cursor);
      PassSnoc(a, e, cursor);
      var ka := FirstHalt(a, cursor);
      if ka < |a| {
        PassSpecEarly(a, e, cursor);
      } else {
        PassSpecLast(a, e, cursor);
      }
    }
  }

  /** The first halting entry is determined by the halting entries before and at it. */
  lemma FirstHaltIs(es: seq<Entry>, cursor: Option<string>, k: nat)
    requires k <= |es|
    requires forall i :: 0 <= i < k ==> !Halts(es[i], cursor)
    requires k < |es| ==> Halts(es[k], cursor)
    ensures FirstHalt(es, cursor) == k
  {
  }

  /** PassSpec for a + [e] when a pass over a already halted. */
  lemma PassSpecEarly(a: seq<Entry>, e: Entry, cursor: Option<string>)
    requires FirstHalt(a, cursor) < |a|
    requires Pass(a, cursor).batch == Extracted(a[..FirstHalt(a, cursor)]) + TailAt(a, cursor, FirstHalt(a, cursor))
    requires Pass(a, cursor).end == EndAt(a, cursor, FirstHalt(a, cursor))
    requires Pass(a + [e], cursor) == Advance(Pass(a, cursor), e, cursor)
    ensures Pass(a + [e], cursor).batch
         == Extracted((a + [e])[..FirstHalt(a + [e], cursor)]) + TailAt(a + [e], cursor, FirstHalt(a + [e], cursor))
    ensures Pass(a + [e], cursor).end == EndAt(a + [e], cursor, FirstHalt(a + [e], cursor))
  {
    var es := a + [e];
    var ka := FirstHalt(a, cursor);
    assert es[ka] == a[ka];
    assert forall i :: 0 <= i < ka ==> es[i] == a[i];
    FirstHaltIs(es, cursor, ka);
    assert es[..ka] == a[..ka];
  }

  /** PassSpec for a + [e] when a pass over a ran to the end of a. */
  lemma PassSpecLast(a: seq<Entry>, e: Entry, cursor: Option<string>)
    requires FirstHalt(a, cursor) == |a|
    requires Pass(a, cursor).batch == Extracted(a[..FirstHalt(a, cursor)]) + TailAt(a, cursor, FirstHalt(a, cursor))
    requires Pass(a, cursor).end == EndAt(a, cursor, FirstHalt(a, cursor))
    requires Pass(a + [e], cursor) == Advance(Pass(a, cursor), e, cursor)
    ensures Pass(a + [e], cursor).batch
         == Extracted((a + [e])[..FirstHalt(a + [e], cursor)]) + TailAt(a + [e], cursor, FirstHalt(a + [e], cursor))
    ensures Pass(a + [e], cursor).end == EndAt(a + [e], cursor, FirstHalt(a + [e], cursor))
  {
    var es := a + [e];
    assert a[..|a|] == a;
    assert Extracted(a) + [] == Extracted(a);
    var r := Pass(a, cursor);
    assert r == PassResult(Extracted(a), Exhausted);
    AdvanceGoingOn(r, e, cursor);
    FirstHaltSnoc(a, e, cursor);
    assert es[|a|] == e;
    if Halts(e, cursor) {
      assert es[..|a|] == a;
    } else {
      assert es[..|es|] == es;
      ExtractedSnoc(a, e);
      assert Extracted(es) + [] == Extracted(es);
    }
  }

  /** When no entry of a halts, the first halting entry of a + [e] is e, or there is none. */
  lemma {:induction false} FirstHaltSnoc(a: seq<Entry>, e: Entry, cursor: Option<string>)
    requires FirstHalt(a, cursor) == |a|
    ensures FirstHalt(a + [e], cursor) == if Halts(e, cursor) then |a| else |a| + 1
  {
    if a == [] {
      assert a + [e] == [e];
      assert [e][1..] == [];
    } else {
      assert !Halts(a[0], cursor);
      assert (a + [e])[0] == a[0];
      assert (a + [e])[1..] == a[1..] + [e];
      FirstHaltSnoc(a[1..], e, cursor);
    }
  }

  /** Once a pass has ended, no later entry is examined. */
  lemma {:induction false} PassIgnoresRest(a: seq<Entry>, b: seq<Entry>, cursor: Option<string>)
    requires Pass(a, cursor).end != Exhausted
    ensures Pass(a + b, cursor) == Pass(a, cursor)
  {
    if b == [] {
      assert a + b == a;
    } else {
      var b', x := b[..|b| - 1], b[|b| - 1];
      assert a + b == (a + b') + [x];
      PassIgnoresRest(a, b', cursor);
      PassSnoc(a + b', x, cursor);
    }
  }

  /**
   An entry whose link lookup fails, or whose page has no title (and whose link is not the
   cursor), contributes nothing: the pass goes on with the next entry as if it were absent.
   */
  lemma {:induction false} SkippedEntryIsInvisible(a: seq<Entry>, e: Entry, b: seq<Entry>, cursor: Option<string>)
    requires e == LookupFails || (e.Untitled? && Some(e.link) != cursor)
    ensures Pass(a + [e] + b, cursor) == Pass(a + b, cursor)
  {
    if b == [] {
      assert a + [e] + b == a + [e];
      assert a + b == a;
      PassSnoc(a, e, cursor);
    } else {
      var b', x := b[..|b| - 1], b[|b| - 1];
      assert a + [e] + b == (a + [e] + b') + [x];
      assert a + b == (a + b') + [x];
      SkippedEntryIsInvisible(a, e, b', cursor);
      PassSnoc(a + [e] + b', x, cursor);
      PassSnoc(a + b', x, cursor);
    }
  }

  /** Every post the extraction yields is some titled entry of the listing. */
  lemma {:induction false} ExtractedComeFromTitled(es: seq<Entry>, p: Post) returns (i: nat)
    requires p in Extracted(es)
    ensures i < |es| && es[i] == Titled(p.link, p.title, p.content)
  {
    if es[0].Titled? && PostOf(es[0]) == p {
      i := 0;
    } else {
      var j := ExtractedComeFromTitled(es[1..], p);
      i := j + 1;
    }
  }

  /**
   Every post of a pass is the listing's link with its page's title and content, taken from an
   entry before the first halting one or from that entry itself when it raised after appending;
   none of them carries the cursor's link.
   */
  lemma PassBatchProvenance(es: seq<Entry>, cursor: Option<string>, p: Post)
    requires p in Pass(es, cursor).batch
    ensures exists i :: 0 <= i <= FirstHalt(es, cursor) && i < |es| && es[i].HasPost() && PostOf(es[i]) == p
    ensures Some(p.link) != cursor
  {
    PassSpec(es, cursor);
    var k := FirstHalt(es, cursor);
    if p in Extracted(es[..k]) {
      var i := ExtractedComeFromTitled(es[..k], p);
      assert es[i] == es[..k][i];
      assert !Halts(es[i], cursor);
    } else {
      assert p in TailAt(es, cursor, k);
      assert es[k].HasPost() && PostOf(es[k]) == p;
    }
  }

  /** The titled entries of a listing in which every entry is titled are all of its posts. */
  lemma {:induction false} ExtractedAllTitled(es: seq<Entry>)
    requires forall i :: 0 <= i < |es| ==> es[i].Titled?
    ensures |Extracted(es)| == |es|
    ensures forall i :: 0 <= i < |es| ==> Extracted(es)[i] == PostOf(es[i])
  {
    if es != [] {
      ExtractedAllTitled(es[1..]);
      assert forall i :: 1 <= i < |es| ==> es[1..][i - 1] == es[i];
    }
  }

  /**
   When the entry at position k is the first whose link is the cursor and every entry before it is
   extracted successfully, the pass yields exactly the posts of the first k entries.
   */
  lemma CursorAtPosition(es: seq<Entry>, cursor: Option<string>, k: nat)
    requires k < |es| && es[k].HasLink() && Some(es[k].link) == cursor
    requires forall i :: 0 <= i < k ==> es[i].Titled? && Some(es[i].link) != cursor
    ensures Pass(es, cursor).end == FoundCursor
    ensures |Pass(es, cursor).batch| == k
    ensures forall i :: 0 <= i < k ==> Pass(es, cursor).batch[i] == PostOf(es[i])
  {
    FirstHaltIs(es, cursor, k);
    PassFoundAt(es, cursor, k);
    var before := es[..k];
    assert forall i :: 0 <= i < k ==> before[i] == es[i];
    ExtractedAllTitled(before);
  }

  /** A pass whose first halting entry carries the cursor's link yields the extracted posts before it. */
  lemma PassFoundAt(es: seq<Entry>, cursor: Option<string>, k: nat)
    requires k < |es| && FirstHalt(es, cursor) == k && StepOf(es[k], cursor).Stop?
    ensures Pass(es, cursor) == PassResult(Extracted(es[..k]), FoundCursor)
  {
    PassSpec(es, cursor);
    assert TailAt(es, cursor, k) == [];
    assert Extracted(es[..k]) + [] == Extracted(es[..k]);
  }

  /** The first extracted post is the first titled entry. */
  lemma {:induction false} ExtractedHead(es: seq<Entry>) returns (j: nat)
    requires Extracted(es) != []
    ensures j < |es| && es[j].Titled? && Extracted(es)[0] == PostOf(es[j])
    ensures forall i :: 0 <= i < j ==> !es[i].Titled?
  {
    if es[0].Titled? {
      j := 0;
    } else {
      var j' := ExtractedHead(es[1..]);
      j := j' + 1;
      assert forall i :: 1 <= i < j ==> es[i] == es[1..][i - 1];
    }
  }

  lemma {:induction false} ExtractedNone(es: seq<Entry>)
    requires forall i :: 0 <= i < |es| ==> !es[i].Titled?
    ensures Extracted(es) == []
  {
    if es != [] {
      assert forall i :: 0 <= i < |es[1..]| ==> es[1..][i] == es[i + 1];
      ExtractedNone(es[1..]);
    }
  }

  lemma {:induction false} ExtractedEmpty(es: seq<Entry>)
    requires Extracted(es) == []
    ensures forall i :: 0 <= i < |es| ==> !es[i].Titled?
  {
    if es != [] {
      ExtractedEmpty(es[1..]);
      assert forall i :: 1 <= i < |es| ==> es[i] == es[1..][i - 1];
    }
  }

  /**
   Cursor monotonicity within a pass: the first post of a non-empty batch is the first entry with
   a titled page, which lies before the entry where the pass stopped (or is that entry, when it
   raised after appending).
   */
  lemma NewestPostPrecedesStop(es: seq<Entry>, cursor: Option<string>) returns (j: nat)
    requires Pass(es, cursor).batch != []
    ensures j <= FirstHalt(es, cursor) && j < |es| && es[j].HasPost()
    ensures PostOf(es[j]) == Pass(es, cursor).batch[0]
    ensures j == FirstHalt(es, cursor) ==> es[j].TitledThenRaises? && Some(es[j].link) != cursor
    ensures forall i :: 0 <= i < j ==> !es[i].HasPost() && !Halts(es[i], cursor)
  {
    PassSpec(es, cursor);
    var k := FirstHalt(es, cursor);
    var before := Extracted(es[..k]);
    if before != [] {
      j := ExtractedHead(es[..k]);
      assert forall i :: 0 <= i <= j ==> es[..k][i] == es[i];
    } else {
      j := k;
      ExtractedEmpty(es[..k]);
      assert forall i :: 0 <= i < k ==> es[..k][i] == es[i];
      assert Pass(es, cursor).batch == TailAt(es, cursor, k);
    }
  }

  /**
   Rescanning with a new cursor: when no entry before j has a titled page or halts under the old
   cursor, and entry j (if any) carries the new cursor's link, the pass under the new cursor
   yields nothing and ends at the new cursor, or runs out when j is the listing's end.
   */
  lemma QuietBefore(es: seq<Entry>, old_: Option<string>, new_: Option<string>, j: nat)
    requires j <= |es|
    requires forall i :: 0 <= i < j ==> !es[i].HasPost() && !Halts(es[i], old_)
    requires j < |es| ==> StepOf(es[j], new_).Stop?
    ensures Pass(es, new_).batch == []
    ensures Pass(es, new_).end == FoundCursor || (j == |es| && Pass(es, new_).end == Exhausted)
  {
    PassSpec(es, new_);
    var k := FirstHalt(es, new_);
    assert k <= j by {
      if j < |es| { assert Halts(es[j], new_); }
    }
    var before := es[..k];
    assert forall i :: 0 <= i < k ==> before[i] == es[i];
    forall i | 0 <= i < k ensures !before[i].Titled? {
      QuietEntry(es[i], old_, new_);
    }
    ExtractedNone(before);
    if k < |es| {
      if k < j {
        QuietEntry(es[k], old_, new_);
      }
      assert StepOf(es[k], new_).Stop?;
      assert TailAt(es, new_, k) == [];
    }
  }

  /**
   An entry that neither has a titled page nor halts under one cursor is a failed lookup or an
   untitled page: under another cursor it can only halt as that cursor.
   */
  lemma QuietEntry(e: Entry, old_: Option<string>, new_: Option<string>)
    requires !e.HasPost() && !Halts(e, old_)
    ensures e.LookupFails? || e.Untitled?
    ensures Halts(e, new_) ==> StepOf(e, new_).Stop?
  {
  }

  /** How the scan as a whole ended. OutOfPasses: the listings the model supplies ran out. */
  datatype Status = Found | EmptyPage | Failed | OutOfPasses

  datatype ScanResult = ScanResult(posts: seq<Post>, status: Status)

  /** Posts gathered so far, followed by what the rest of the scan yields. */
  function Then(prefix: seq<Post>, r: ScanResult): ScanResult {
    ScanResult(prefix + r.posts, r.status)
  }

  /**
   The outer `while not scraping_done` loop. `pages[i]` is what `find_elements` reads on pass i;
   nothing moves to another page between passes, so the same listing is read again, but what the
   browser yields may differ from pass to pass. The model runs at most |pages| passes.
   */
  function Scan(pages: seq<seq<Entry>>, cursor: Option<string>): (r: ScanResult)
    ensures r.status == OutOfPasses <==>
      forall i :: 0 <= i < |pages| ==> pages[i] != [] && Pass(pages[i], cursor).end == Exhausted
    ensures r.status == EmptyPage ==> exists i :: 0 <= i < |pages| && pages[i] == []
    decreases |pages|
  {
    if pages == [] then ScanResult([], OutOfPasses)
    else if pages[0] == [] then ScanResult([], EmptyPage)
    else
      var p := Pass(pages[0], cursor);
      match p.end
      case FoundCursor => ScanResult(p.batch, Found)
      case Raised => ScanResult(p.batch, Failed)
      case Exhausted =>
        var rest := pages[1..];
        assert forall i :: 0 <= i < |rest| ==> rest[i] == pages[i + 1];
        Then(p.batch, Scan(rest, cursor))
  }

  /** Index of the first pass that reads an empty listing or halts, or |pages| when none does. */
  function FirstStop(pages: seq<seq<Entry>>, cursor: Option<string>): (n: nat)
    ensures n <= |pages|
    ensures forall i :: 0 <= i < n ==> pages[i] != [] && FirstHalt(pages[i], cursor) == |pages[i]|
    ensures n < |pages| ==> pages[n] == [] || FirstHalt(pages[n], cursor) < |pages[n]|
  {
    if pages == [] then 0
    else if pages[0] == [] || FirstHalt(pages[0], cursor) < |pages[0]| then 0
    else 1 + FirstStop(pages[1..], cursor)
  }

  /** The extracted posts of every listing, one listing after the other. */
  function AllExtracted(pages: seq<seq<Entry>>): (ps: seq<Post>)
    decreases |pages|
  {
    if pages == [] then [] else Extracted(pages[0]) + AllExtracted(pages[1..])
  }

  /** How the scan ends at pass n, the first pass that reads an empty listing or halts. */
  function Ending(pages: seq<seq<Entry>>, cursor: Option<string>, n: nat): ScanResult
    requires n <= |pages|
    requires n < |pages| ==> pages[n] == [] || FirstHalt(pages[n], cursor) < |pages[n]|
  {
    if n == |pages| then ScanResult([], OutOfPasses)
    else if pages[n] == [] then ScanResult([], EmptyPage)
    else
      var es := pages[n];
      var k := FirstHalt(es, cursor);
      ScanResult(Extracted(es[..k]) + TailAt(es, cursor, k), if StepOf(es[k], cursor).Stop? then Found else Failed)
  }

  /**
   The scan keeps every post of the passes that ran to the end of their listing, in order, then
   adds what the first stopping pass yields and ends as that pass does: at the cursor, at an empty
   listing, at an exception, or when the listings run out.
   */
  lemma {:induction false} ScanSpec(pages: seq<seq<Entry>>, cursor: Option<string>)
    ensures var n := FirstStop(pages, cursor);
      Scan(pages, cursor) == Then(AllExtracted(pages[..n]), Ending(pages, cursor, n))
  {
    if pages == [] || pages[0] == [] || FirstHalt(pages[0], cursor) < |pages[0]| {
      ScanSpecStops(pages, cursor);
    } else {
      ScanSpec(pages[1..], cursor);
      ScanSpecGoesOn(pages, cursor);
    }
  }

  /** ScanSpec when the first pass already stops the scan. */
  lemma ScanSpecStops(pages: seq<seq<Entry>>, cursor: Option<string>)
    requires pages == [] || pages[0] == [] || FirstHalt(pages[0], cursor) < |pages[0]|
    ensures var n := FirstStop(pages, cursor);
      Scan(pages, cursor) == Then(AllExtracted(pages[..n]), Ending(pages, cursor, n))
  {
    var n := FirstStop(pages, cursor);
    assert n == 0 && pages[..n] == [];
    if pages != [] && pages[0] != [] {
      PassSpec(pages[0], cursor);
    }
    ThenEmpty(Ending(pages, cursor, n));
  }

  /** ScanSpec when the first pass runs to the end of its listing, given ScanSpec for the rest. */
  lemma ScanSpecGoesOn(pages: seq<seq<Entry>>, cursor: Option<string>)
    requires pages != [] && pages[0] != [] && FirstHalt(pages[0], cursor) == |pages[0]|
    requires var m := FirstStop(pages[1..], cursor);
      Scan(pages[1..], cursor) == Then(AllExtracted(pages[1..][..m]), Ending(pages[1..], cursor, m))
    ensures var n := FirstStop(pages, cursor);
      Scan(pages, cursor) == Then(AllExtracted(pages[..n]), Ending(pages, cursor, n))
  {
    var es, rest := pages[0], pages[1..];
    var m := FirstStop(rest, cursor);
    ScanFirstExhausted(pages, cursor);
    var n := m + 1;
    assert FirstStop(pages, cursor) == n;
    AllExtractedShifts(pages, n);
    EndingShifts(pages, cursor, n);
    ThenThen(Extracted(es), AllExtracted(rest[..m]), Ending(rest, cursor, m));
  }

  /** A first pass that runs to the end of its listing keeps its posts and the scan goes on. */
  lemma ScanFirstExhausted(pages: seq<seq<Entry>>, cursor: Option<string>)
    requires pages != [] && pages[0] != [] && FirstHalt(pages[0], cursor) == |pages[0]|
    ensures Scan(pages, cursor) == Then(Extracted(pages[0]), Scan(pages[1..], cursor))
  {
    var es := pages[0];
    PassSpec(es, cursor);
    assert es[..|es|] == es;
    assert Extracted(es) + [] == Extracted(es);
    assert Pass(es, cursor) == PassResult(Extracted(es), Exhausted);
  }

  lemma AllExtractedShifts(pages: seq<seq<Entry>>, n: nat)
    requires 0 < n <= |pages|
    ensures AllExtracted(pages[..n]) == Extracted(pages[0]) + AllExtracted(pages[1..][..n - 1])
  {
    var done := pages[..n];
    assert done[0] == pages[0] && done[1..] == pages[1..][..n - 1];
  }

  lemma EndingShifts(pages: seq<seq<Entry>>, cursor: Option<string>, n: nat)
    requires 0 < n <= |pages|
    requires n < |pages| ==> pages[n] == [] || FirstHalt(pages[n], cursor) < |pages[n]|
    ensures Ending(pages, cursor, n) == Ending(pages[1..], cursor, n - 1)
  {
    if n < |pages| {
      assert pages[1..][n - 1] == pages[n];
    }
  }

  lemma ThenEmpty(r: ScanResult)
    ensures Then([], r) == r
  {
    assert [] + r.posts == r.posts;
  }

  lemma ThenThen(a: seq<Post>, b: seq<Post>, r: ScanResult)
    ensures Then(a, Then(b, r)) == Then(a + b, r)
  {
    assert a + (b + r.posts) == (a + b) + r.posts;
  }

  function Repeat(s: seq<Post>, n: nat): (r: seq<Post>)
    ensures |r| == n * |s|
  {
    if n == 0 then [] else s + Repeat(s, n - 1)
  }

  /** Reading the same listing on every pass extracts the same posts on every pass. */
  lemma {:induction false} AllExtractedRepeat(pages: seq<seq<Entry>>, es: seq<Entry>)
    requires forall i :: 0 <= i < |pages| ==> pages[i] == es
    ensures AllExtracted(pages) == Repeat(Extracted(es), |pages|)
  {
    if pages != [] {
      assert forall i :: 0 <= i < |pages[1..]| ==> pages[1..][i] == pages[i + 1];
      AllExtractedRepeat(pages[1..], es);
    }
  }

  /**
   When every pass reads the same non-empty listing in which no entry carries the cursor's link or
   raises, every pass appends the same posts again and the loop never ends by itself: after any
   number of passes it is still running, holding one copy of the page's posts per pass.
   */
  lemma ScanWithoutCursorRepeats(pages: seq<seq<Entry>>, es: seq<Entry>, cursor: Option<string>)
    requires es != [] && FirstHalt(es, cursor) == |es|
    requires forall i :: 0 <= i < |pages| ==> pages[i] == es
    ensures Scan(pages, cursor) == ScanResult(Repeat(Extracted(es), |pages|), OutOfPasses)
  {
    ScanSpec(pages, cursor);
    var n := FirstStop(pages, cursor);
    assert pages[..n] == pages;
    AllExtractedRepeat(pages, es);
    assert Repeat(Extracted(es), |pages|) + [] == Repeat(Extracted(es), |pages|);
  }

  /**
   When some entry of the first listing carries the cursor's link or raises, the scan is one
   pass: it ends there with the extracted posts before that entry (and the entry's own post when it
   raised after appending it).
   */
  lemma ScanStopsAtFirstHalt(pages: seq<seq<Entry>>, cursor: Option<string>)
    requires pages != [] && FirstHalt(pages[0], cursor) < |pages[0]|
    ensures var es := pages[0]; var k := FirstHalt(es, cursor);
      Scan(pages, cursor) == ScanResult(Extracted(es[..k]) + TailAt(es, cursor, k),
                                        if StepOf(es[k], cursor).Stop? then Found else Failed)
  {
    PassSpec(pages[0], cursor);
  }

  /**
   A scan ends with an empty page only at a pass that reads an empty listing, and then it keeps
   exactly the posts of the passes before it: the empty pass adds nothing.
   */
  lemma ScanEmptyPage(pages: seq<seq<Entry>>, cursor: Option<string>) returns (n: nat)
    requires Scan(pages, cursor).status == EmptyPage
    ensures n < |pages| && pages[n] == []
    ensures forall i :: 0 <= i < n ==> pages[i] != [] && FirstHalt(pages[i], cursor) == |pages[i]|
    ensures Scan(pages, cursor).posts == AllExtracted(pages[..n])
  {
    ScanSpec(pages, cursor);
    n := FirstStop(pages, cursor);
    assert AllExtracted(pages[..n]) + [] == AllExtracted(pages[..n]);
  }

  /**
   The watermark is idempotent: when a scan gathered posts, scanning the same listings again with
   the newest post's link as the cursor finds the cursor and yields nothing.
   */
  lemma {:induction false} RescanFindsNothing(pages: seq<seq<Entry>>, cursor: Option<string>)
    requires Scan(pages, cursor).posts != []
    ensures Scan(pages, Some(Scan(pages, cursor).posts[0].link)) == ScanResult([], Found)
  {
    var es := pages[0];
    var p := Pass(es, cursor);
    var post := Scan(pages, cursor).posts[0];
    var c' := Some(post.link);
    if p.batch != [] {
      assert post == p.batch[0];
      var j := NewestPostPrecedesStop(es, cursor);
      assert StepOf(es[j], c').Stop?;
      QuietBefore(es, cursor, c', j);
    } else {
      assert p.end == Exhausted;
      var rest := Scan(pages[1..], cursor);
      assert Scan(pages, cursor) == Then([], rest);
      ThenEmpty(rest);
      RescanFindsNothing(pages[1..], cursor);
      PassSpec(es, cursor);
      var k := FirstHalt(es, cursor);
      assert k == |es| && es[..k] == es;
      assert Extracted(es) + [] == Extracted(es);
      ExtractedEmpty(es);
      QuietBefore(es, cursor, c', |es|);
      ThenEmpty(Scan(pages[1..], c'));
    }
  }
}
