# Watermark scan of the internship-blog relay, in Dafny

The relay scrapes a login-gated blog, works out which posts are new since the last check, and
forwards them to a Telegram chat. Its one piece of real logic is an incremental "watermark" scan,
which is modelled here:

- **Stored cursor** (`CursorStore`). The file `last_post_url.txt` holds the link of the last
  delivered post. Reading it gives none when the file does not exist. Otherwise it gives the file's
  text stripped of surrounding whitespace, exactly as Python's `str.strip()` strips it. Saving
  overwrites the file with the link as it is. The file is the `text: Option<string>` field of
  class `CursorFile`.
- **Listing** (`Listing`). The browser is abstract. Each `article` entry of the listing is
  described by what reading it yields:
  - the title or link lookup fails (`NoSuchElementException`, caught);
  - the lookup raises some other exception;
  - a link whose post page has a title and content;
  - the same, but closing the post tab or switching back raises after the post was appended;
  - a link whose post page has no `h1.entry-title`;
  - a link whose post page raises while it is opened, awaited or converted.

  `Pass` specifies one run of the inner `for` loop, entry by entry. `FirstHalt` and `Extracted` are
  an independent head-first reference for it, and `PassSpec` connects the two. `Scan` specifies the
  outer `while not scraping_done` loop. Each pass calls `find_elements` again, so each pass reads
  its own listing: `pages[i]` is what pass i reads. The loop has no step to the next page, so in
  the program these are re-readings of the same page, which may still differ from pass to pass
  (a wait that times out, a tab left focused). `FirstStop`, `AllExtracted` and `Ending` are the
  reference for the scan, and `ScanSpec` connects them to `Scan`.
- **Scraper** (`Scraper`). `ScanListing` is the nested loop itself: a flag, an accumulating
  sequence, `break` and `continue`. It is proved against `Scan`. `GetNewPosts` is the whole of
  `get_new_posts`: read the cursor, scan, report an exception to the chat, and save the first
  gathered link. It is proved against the function `Cycle`.
- **Notifier** (`Notifier`). Class `Chat` records every send attempt and every message received.
  Whether the network accepts the n-th attempt is the input `accepts`. `SendPosts` walks the batch
  in reverse, newest last. It makes one attempt per post and a failed attempt does not stop it.

Three behaviours of the code are easy to miss:
- The code does not discard the posts gathered before an exception. The `except` clause swallows
  the error, and the posts are returned and the cursor advances (`ExceptionKeepsGatheredPosts`).
  This includes the copies gathered by earlier passes over the same page
  (`RepeatedPassesThenException`).
- The cursor is saved inside `get_new_posts`, before the caller sends anything.
- When the cursor is absent from a non-empty page, the code does not return the first page. It
  rescans that page, appending its posts again on every pass, until a pass finds the cursor, reads
  an empty listing or raises. When every re-reading is the same, that is forever
  (`MissingCursorNeverReturns`).

For example, `CursorFoundCycle` with k = 8 covers a stored cursor `.../x/42` and a listing
`50, 49, ..., 43, 42`: posts 50 down to 43 are returned and the cursor becomes `.../x/50`.

## Model

| member | source | states |
|---|---|---|
| `CursorStore.TrimStart` | main.py:44 | the result is a suffix of the input, everything dropped is whitespace in Python's sense, and the result does not start with whitespace |
| `CursorStore.TrimEnd` | main.py:44 | the result is a prefix of the input, everything dropped is whitespace, and the result does not end with whitespace |
| `CursorStore.Strip` | main.py:44 | the result neither starts nor ends with whitespace and is no longer than the input |
| `CursorStore.StripSplits` | main.py:44 | the input is the stripped text with a whitespace-only prefix before it and a whitespace-only suffix after it |
| `CursorStore.StripOfPadded` | main.py:44 | stripping whitespace padding off a text with no surrounding whitespace yields exactly that text |
| `CursorStore.SpaceStripsToEmpty` | main.py:44 | a text made only of whitespace strips to the empty text |
| `CursorStore.BareIsStripped` | main.py:44 | a text with no surrounding whitespace strips to itself |
| `CursorStore.StripIdempotent` | main.py:44 | stripping twice is the same as stripping once |
| `CursorStore.CursorOf` | main.py:39-44 | reading gives none exactly when the file does not exist; a value read never has surrounding whitespace |
| `CursorStore.CursorFile.Read` | main.py:39-44 | returns none when the file is absent, otherwise the file's text stripped (`CursorOf`) |
| `CursorStore.CursorFile.Save` | main.py:47-50 | the file afterwards holds exactly the given link, whatever it held before |
| `CursorStore.ReadAfterSave` | main.py:39-50 | a link saved and read back is the link stripped, and a link without surrounding whitespace comes back unchanged |
| `Listing.StepOf` | main.py:142-184 | what one entry does: a failed link lookup is skipped before any compare; the entry carrying the cursor's link stops the pass whatever its page holds; a raise in the lookup or in opening the page halts with nothing appended; a titled entry away from the cursor is appended as its own post, and when closing its tab raises the pass halts after that append |
| `Listing.Pass` | main.py:141-184 | one pass over the entries in listing order appends at most one post per entry, and runs to the end of the listing exactly when no entry carries the cursor's link or raises |
| `Listing.FirstHalt` | main.py:141-152 | the index of the first entry that carries the cursor's link or raises: no entry before it does, and the entry at it does (or it is the listing's length) |
| `Listing.ExtractedComeFromTitled` | main.py:163-177 | every extracted post is the link, title and content of some titled entry of the listing: nothing is invented |
| `Listing.PassSpec` | main.py:141-184 | one pass yields exactly the extracted posts of the entries strictly before the first entry that matches the cursor or raises, in listing order, followed by that entry's own post when it raised only after the append; it ends with the cursor found, with an exception, or with the listing exhausted, according to that entry |
| `Listing.HaltPost` | main.py:175-181 | a halting entry leaves a post in the batch only when its link is not the cursor and it raised after the append, and then that post is its own |
| `Listing.PassIgnoresRest` | main.py:149-152 | after the pass has ended, appending further entries changes nothing: no entry at or after the stop is examined |
| `Listing.PassHaltsAt` | main.py:149-152 | when entry i is the first to match the cursor or raise, the pass ends there with the posts gathered before it, plus its own post when it raised after the append, and the end reports which it was |
| `Listing.PassGoesOn` | main.py:141-184 | an entry that neither matches the cursor nor raises adds its post when its page has a title, adds nothing otherwise, and the pass continues |
| `Listing.SkippedEntryIsInvisible` | main.py:141-184 | an entry whose lookup fails (compared with no cursor), or whose page has no title and whose link is not the cursor, can be removed without changing the pass; later entries are still processed |
| `Listing.PassBatchProvenance` | main.py:141-181 | every post of a pass is the listing's link plus its page's title and content, taken from an entry at or before the stop; no post carries the cursor's link |
| `Listing.CursorAtPosition` | main.py:141-177 | when the entry at position k is the first with the cursor's link and all entries before it are extracted, the pass finds the cursor and yields the posts of exactly those k entries, in order |
| `Listing.ScanWithoutCursorRepeats` | main.py:132-195 | when every pass reads the same non-empty listing in which no entry matches the cursor or raises, after n passes the loop is still running and holds n copies of the page's posts |
| `Listing.Scan` | main.py:132-195 | the outer loop runs out of passes exactly when every listing it read was non-empty and every pass ran to its end; it ends on an empty page only when some listing read was empty |
| `Listing.FirstStop` | main.py:134-139 | the index of the first pass that reads an empty listing or halts: every pass before it read a non-empty listing and ran to its end, and the pass at it stops the loop (or it is the number of passes) |
| `Listing.ScanSpec` | main.py:132-196 | the scan keeps the posts of every pass that ran to the end of its listing, in order, then adds what the first stopping pass yields and ends as that pass does: cursor found, empty listing, exception, or listings exhausted |
| `Listing.AllExtractedRepeat` | main.py:134-141 | passes that read the same listing extract the same posts on every pass |
| `Listing.ScanStopsAtFirstHalt` | main.py:134-187 | when an entry of the first listing matches the cursor or raises, the scan is a single pass that ends there with the posts that pass gathered |
| `Listing.ScanEmptyPage` | main.py:135-139 | the scan ends with an empty page only at a pass that reads an empty listing, and that pass adds nothing: the posts are exactly those of the passes before it |
| `Listing.NewestPostPrecedesStop` | main.py:203-205 | the first post of a pass comes from the first entry with a titled page, which lies strictly before the entry where the pass stopped, or is that entry when it raised after the append |
| `Listing.RescanFindsNothing` | main.py:141-205 | when a scan gathered posts, scanning the same listings with the newest post's link as the cursor finds the cursor and yields no posts |
| `Listing.QuietBefore` | main.py:141-166 | when no entry before position j has a titled page or halts under the old cursor and entry j carries the new cursor, a pass under the new cursor gathers nothing and stops at the new cursor (or runs out when j is the end) |
| `Scraper.ScanPage` | main.py:141-184 | one run of the `for` loop appends to the posts already gathered exactly the posts `Pass` yields for the listing, and reports how the pass ended (`Pass`) |
| `Scraper.ScanListing` | main.py:132-195 | the nested loop, reading the listing afresh on each pass, yields exactly the posts and the end status that `Scan` specifies |
| `Scraper.Cycle` | main.py:102-208 | the cursor is overwritten with the first post's link exactly when the call returns a non-empty batch, and is otherwise unchanged; the call escapes only when the error report fails |
| `Scraper.GetNewPosts` | main.py:101-208 | outcome and cursor file are as `Cycle` specifies; exactly one error report is attempted when scraping raised, and none otherwise |
| `Scraper.SetupFailureKeepsCursor` | main.py:107-207 | an exception during set-up leaves the cursor file unchanged and attempts one error report; the call returns nothing, or escapes if the report fails |
| `Scraper.ExceptionKeepsGatheredPosts` | main.py:196-208 | after an exception in any pass, every post gathered before it is returned, both the earlier full passes' and this pass's, and the cursor moves to the first one's link once the report is sent; if the report fails, nothing is returned and the cursor stays |
| `Scraper.RepeatedPassesThenException` | main.py:132-208 | after n passes over the same listing where nothing matches the cursor, a pass that raises makes the call return n copies of the page's posts followed by what that pass gathered, and save the first link once the report is sent |
| `Scraper.CursorFoundCycle` | main.py:141-208 | with the stored cursor at position k of the first listing and every entry before it extracted, the call returns exactly those k posts in listing order, sends no report, and saves the first entry's link when k > 0 |
| `Scraper.MissingCursorNeverReturns` | main.py:132-195 | when every pass reads the same non-empty listing in which no entry matches the cursor or raises, the call never returns, never saves the cursor and sends nothing |
| `Scraper.SecondCycleIsQuiet` | main.py:39-205 | after a call that returned posts, a second call reading the same listings returns no posts and leaves the saved cursor in place, provided the saved link has no surrounding whitespace |
| `Notifier.Chat.Send` | main.py:63 | one attempt: the message is recorded as attempted, and it is received exactly when the network accepts this attempt |
| `Notifier.SendPosts` | main.py:59-69 | the attempts are exactly one announcement per post of the reversed batch, and the chat receives exactly those whose attempts were accepted, in order |
| `Notifier.AnnounceFromHere` | main.py:59-63 | walking the batch backwards from position i announces post i right after every post behind it |
| `Notifier.ReversedAt` | main.py:59 | the k-th element of the reversal is the k-th element from the end |
| `Notifier.DeliveryAttemptOrder` | main.py:59 | attempt k announces the batch element k places from the end, so a newest-first batch goes out oldest first |
| `Notifier.AcceptedMembers` | main.py:62-66 | a message is received exactly when some attempt for it was accepted, whatever happened to the attempts before it |
| `Notifier.AcceptedAll` | main.py:62-66 | when every attempt is accepted, every message is received, in order |

## Left out

- Browser set-up, stealth options, the waits and their timeouts, and the opening, switching and
  closing of tabs are left out as calls into the browser driver (main.py:80-130, 155-160,
  180-181). Set-up, login and navigation collapse into one input, `setupRaises`. Each listing entry
  is described by what reading it yields, including whether those tab calls raise.
- A listing that is empty on the first pass normally never reaches the scan: the wait for an
  `article` (main.py:128-130) times out, which is `setupRaises` with its error report. The
  `EmptyPage` end (main.py:137-139) covers a listing that empties between that wait and the
  read at main.py:135, or on a later pass.
- After a page with no title, the code continues without closing that tab or switching back. What
  the browser then yields for later entries and later passes is part of their abstract
  description; the tab state itself is not modelled.
- An anchor without an `href` is not modelled: every link is a string. In such a case
  `get_attribute` returns `None`, which would equal an absent cursor.
- Pickled cookies, BeautifulSoup parsing and html2text conversion are left out. They are
  serialisation and foreign library calls, replaced by the page's title and content given as
  strings (main.py:25-36, 162-173).
- Text-mode decoding and newline translation when the cursor file is read are left out. Only the
  final `strip()` is modelled.
- Failures of file I/O, of `driver.quit()` and of creating the driver are left out.
- The Telethon client, message formatting, the `/refresh` handler, the start-up message, the
  5-minute timer loop, `asyncio.sleep` pacing and the unguarded interleaving of the two entry
  points are left out. They are network, presentation, timing and concurrency (main.py:53-60,
  69, 211-286).
- ScanListing: the outer loop need not terminate, so the model runs at most one pass per listing
  it is given (`pages`). When they run out it reports `OutOfPasses`. `GetNewPosts` then returns
  `StillScanning` without saving or sending, where the program itself would keep looping.
