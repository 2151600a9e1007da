/**
 * The thread harvester: per channel it pages through the "newest threads"
 * endpoint (or takes only the first page), strips the volatile engagement
 * fields from each thread, turns threads into harvest entries, merges every
 * channel's entries newest first, and picks out the entries whose thread id
 * the previous harvest did not contain.
 *
 * The API is a sequence of responses, one per request in the order the
 * requests are made; a request past the end of that sequence is answered
 * with a page that has no items. The previous harvest file is `None` when it
 * is missing or is not valid JSON.
 */
module Harvester {

  import opened Wrappers
  import opened Json
  import opened Sorting

  /** A thread record as the API returns it. */
  type Thread = Object

  /** Fields that change with engagement and must not make a thread look new. */
  const VolatileKeys: set<string> :=
    {"updated_at", "reaction_total", "reply_count", "is_favorite", "user_reacted_count"}

  // ---------------------------------------------------------------------------
  // Sanitising a thread

  function Sanitized(thread: Thread): Thread {
    thread - VolatileKeys
  }

  /** `_sanitize_thread`: copy the record, then pop each volatile key that is present. */
  method SanitizeThread(thread: Thread) returns (sanitized: Thread)
    ensures sanitized.Keys == thread.Keys - VolatileKeys
    ensures forall k :: k in sanitized ==> sanitized[k] == thread[k]
    ensures sanitized == Sanitized(thread)
  {
    sanitized := thread;
    sanitized := sanitized - {"updated_at"};
    sanitized := sanitized - {"reaction_total"};
    sanitized := sanitized - {"reply_count"};
    sanitized := sanitized - {"is_favorite"};
    sanitized := sanitized - {"user_reacted_count"};
  }

  /** Sanitising a sanitised thread changes nothing. */
  lemma {:induction false} SanitizedIdempotent(thread: Thread)
    ensures Sanitized(Sanitized(thread)) == Sanitized(thread)
  {
  }

  /** A thread without any volatile key comes back unchanged. */
  lemma {:induction false} SanitizedWithoutVolatileKeys(thread: Thread)
    requires thread.Keys !! VolatileKeys
    ensures Sanitized(thread) == thread
  {
  }

  /** Two records agree on every key that is not volatile. */
  ghost predicate SameApartFromVolatile(t1: Thread, t2: Thread) {
    forall k :: k !in VolatileKeys ==> (k in t1 <==> k in t2) && (k in t1 ==> t1[k] == t2[k])
  }

  /**
   * Two fetches of a thread compare equal after sanitising exactly when they
   * differ only in volatile fields.
   */
  lemma {:induction false} SanitizedEqualIff(t1: Thread, t2: Thread)
    ensures Sanitized(t1) == Sanitized(t2) <==> SameApartFromVolatile(t1, t2)
  {
    if SameApartFromVolatile(t1, t2) {
      assert Sanitized(t1).Keys == Sanitized(t2).Keys;
    }
    if Sanitized(t1) == Sanitized(t2) {
      forall k | k !in VolatileKeys
        ensures (k in t1 <==> k in t2) && (k in t1 ==> t1[k] == t2[k])
      {
        assert k in t1 <==> k in Sanitized(t1);
        assert k in t2 <==> k in Sanitized(t2);
      }
    }
  }

  // ---------------------------------------------------------------------------
  // Cursor pagination

  /** One response of the threads endpoint: `items` and `next_cursor`, either possibly absent. */
  datatype Page = Page(items: Option<seq<Thread>>, nextCursor: Option<string>)

  /** The answer to the `k`-th request. */
  function Response(pages: seq<Page>, k: nat): Page {
    if k < |pages| then pages[k] else Page(None, None)
  }

  /** `data.get("items") or []`. */
  function PageItems(page: Page): seq<Thread> {
    if page.items.Some? then page.items.value else []
  }

  /** The page names a next cursor that is not empty. */
  predicate HasNextCursor(page: Page) {
    page.nextCursor.Some? && page.nextCursor.value != ""
  }

  /** The loop stops after this page. */
  predicate EndsPagination(page: Page) {
    PageItems(page) == [] || !HasNextCursor(page)
  }

  /** Every thread `iter_all_threads` yields, in order. */
  function AllThreads(pages: seq<Page>): seq<Thread>
    decreases |pages|
  {
    var page := Response(pages, 0);
    if PageItems(page) == [] then []
    else if !HasNextCursor(page) then PageItems(page)
    else PageItems(page) + AllThreads(pages[1..])
  }

  /** How many requests `iter_all_threads` makes. */
  function RequestCount(pages: seq<Page>): nat
    decreases |pages|
  {
    if EndsPagination(Response(pages, 0)) then 1 else 1 + RequestCount(pages[1..])
  }

  /** The items of the first `n` responses, concatenated. */
  function ItemsOfFirst(pages: seq<Page>, n: nat): seq<Thread>
    decreases n
  {
    if n == 0 || pages == [] then [] else PageItems(pages[0]) + ItemsOfFirst(pages[1..], n - 1)
  }

  lemma {:induction false} ResponseOfTail(pages: seq<Page>, k: nat)
    requires pages != []
    ensures Response(pages[1..], k) == Response(pages, k + 1)
  {
  }

  /**
   * Pagination requests pages until the first one that has no items or no
   * next cursor, requests nothing after it, and yields the items of all the
   * pages it requested, in order.
   */
  lemma {:induction false} PaginationStops(pages: seq<Page>)
    ensures var n := RequestCount(pages);
            1 <= n <= |pages| + 1 &&
            (forall j :: 0 <= j < n - 1 ==> !EndsPagination(Response(pages, j))) &&
            EndsPagination(Response(pages, n - 1)) &&
            AllThreads(pages) == ItemsOfFirst(pages, n)
    decreases |pages|
  {
    var page := Response(pages, 0);
    if !EndsPagination(page) {
      var rest := pages[1..];
      PaginationStops(rest);
      var n := RequestCount(pages);
      forall j | 0 <= j < n - 1
        ensures !EndsPagination(Response(pages, j))
      {
        if j > 0 {
          ResponseOfTail(pages, j - 1);
        }
      }
      ResponseOfTail(pages, n - 2);
    }
  }

  /** A page that continues pagination contributes its items and one request. */
  lemma {:induction false} PaginationStep(pages: seq<Page>, k: nat)
    requires k < |pages| && !EndsPagination(pages[k])
    ensures AllThreads(pages[k..]) == PageItems(pages[k]) + AllThreads(pages[k + 1..])
    ensures RequestCount(pages[k..]) == 1 + RequestCount(pages[k + 1..])
  {
    assert pages[k..][1..] == pages[k + 1..];
  }

  /** The page that ends pagination contributes its items, if any, and the last request. */
  lemma {:induction false} PaginationEnd(pages: seq<Page>, k: nat)
    requires k <= |pages| && EndsPagination(Response(pages, k))
    ensures AllThreads(pages[k..]) == (if HasNextCursor(Response(pages, k)) then [] else PageItems(Response(pages, k)))
    ensures RequestCount(pages[k..]) == 1
  {
    assert Response(pages[k..], 0) == Response(pages, k);
  }

  /** The cursor sent with the `j`-th request: none at first, then the previous page's `next_cursor`. */
  function CursorSent(pages: seq<Page>, j: nat): Option<string> {
    if j == 0 then None else Response(pages, j - 1).nextCursor
  }

  /**
   * `iter_all_threads`: request a page with the current cursor, stop on an
   * empty page, yield its items, take its `next_cursor`, stop when that is
   * missing or empty. `cursors` records the cursor sent with each request.
   */
  method IterAllThreads(pages: seq<Page>) returns (threads: seq<Thread>, cursors: seq<Option<string>>)
    ensures threads == AllThreads(pages)
    ensures |cursors| == RequestCount(pages) && cursors[0] == None
    ensures forall j :: 0 <= j < |cursors| - 1 ==> j < |pages| && HasNextCursor(pages[j])
    ensures forall j :: 0 <= j < |cursors| ==> cursors[j] == CursorSent(pages, j)
  {
    var cursor: Option<string> := None;
    threads, cursors := [], [];
    var k := 0;
    while true
      invariant 0 <= k <= |pages|
      invariant |cursors| == k
      invariant threads + AllThreads(pages[k..]) == AllThreads(pages)
      invariant RequestCount(pages) == k + RequestCount(pages[k..])
      invariant cursor == CursorSent(pages, k)
      invariant forall j :: 0 <= j < k ==> HasNextCursor(pages[j])
      invariant forall j :: 0 <= j < k ==> cursors[j] == CursorSent(pages, j)
      decreases |pages| - k
    {
      var data := Response(pages, k);
      cursors := cursors + [cursor];
      var items := PageItems(data);
      if items == [] {
        PaginationEnd(pages, k);
        break;
      }
      ghost var old_threads := threads;
      threads := threads + items;
      cursor := data.nextCursor;
      if !(cursor.Some? && cursor.value != "") {
        PaginationEnd(pages, k);
        break;
      }
      PaginationStep(pages, k);
      assert threads + AllThreads(pages[k + 1..]) == old_threads + (items + AllThreads(pages[k + 1..]));
      k := k + 1;
    }
  }

  // ---------------------------------------------------------------------------
  // Harvest entries of one channel

  /** One harvested thread: `{channel_id, channel_name, thread_id, thread}`. */
  datatype Entry = Entry(channelId: Value, channelName: Value, threadId: Value, thread: Thread)

  /** `thread.get("id", "")`. */
  function ThreadId(thread: Thread): Value {
    GetOr(thread, "id", Str(""))
  }

  function EntryFor(channelId: Value, channelName: Value, thread: Thread): Entry {
    Entry(channelId, channelName, ThreadId(thread), Sanitized(thread))
  }

  /** The entries for `threads`: threads whose id is falsy are skipped. */
  function Entries(channelId: Value, channelName: Value, threads: seq<Thread>): (entries: seq<Entry>)
    ensures |entries| <= |threads|
    decreases |threads|
  {
    if threads == [] then []
    else
      var last := threads[|threads| - 1];
      Entries(channelId, channelName, threads[..|threads| - 1])
        + (if Truthy(ThreadId(last)) then [EntryFor(channelId, channelName, last)] else [])
  }

  /** The threads one channel's task looks at: every page, or only the first. */
  function ChannelThreads(allThreads: bool, pages: seq<Page>): seq<Thread> {
    if allThreads then AllThreads(pages) else PageItems(Response(pages, 0))
  }

  /** `_collect_threads_for_channel_sync`. */
  method CollectThreadsForChannel(channelId: Value, channelName: Value, allThreads: bool, pages: seq<Page>)
    returns (results: seq<Entry>)
    ensures results == Entries(channelId, channelName, ChannelThreads(allThreads, pages))
  {
    var threads: seq<Thread>;
    if allThreads {
      var cursors;
      threads, cursors := IterAllThreads(pages);
    } else {
      var data := Response(pages, 0);
      threads := PageItems(data);
    }
    results := [];
    for i := 0 to |threads|
      invariant results == Entries(channelId, channelName, threads[..i])
    {
      assert threads[..i + 1][..i] == threads[..i];
      var thread := threads[i];
      var threadId := GetOr(thread, "id", Str(""));
      if !Truthy(threadId) {
        continue;
      }
      var sanitized := SanitizeThread(thread);
      results := results + [Entry(channelId, channelName, threadId, sanitized)];
    }
    assert threads[..|threads|] == threads;
  }

  /** Entries of concatenated thread lists are the concatenated entries: order is kept. */
  lemma {:induction false} EntriesAppend(channelId: Value, channelName: Value, a: seq<Thread>, b: seq<Thread>)
    ensures Entries(channelId, channelName, a + b)
            == Entries(channelId, channelName, a) + Entries(channelId, channelName, b)
    decreases |b|
  {
    if b == [] {
      assert a + b == a;
    } else {
      var b' := b[..|b| - 1];
      assert (a + b)[..|a + b| - 1] == a + b';
      EntriesAppend(channelId, channelName, a, b');
    }
  }

  /** Every entry carries the channel, a truthy id equal to its thread's `id`, and no volatile key. */
  predicate WellFormedEntry(e: Entry, channelId: Value, channelName: Value) {
    e.channelId == channelId && e.channelName == channelName &&
    Truthy(e.threadId) && "id" in e.thread && e.thread["id"] == e.threadId &&
    e.thread.Keys !! VolatileKeys
  }

  /**
   * An entry comes from exactly the threads whose id is truthy, each turned
   * into a well-formed entry of the given channel.
   */
  lemma {:induction false} EntriesExact(channelId: Value, channelName: Value, threads: seq<Thread>)
    ensures forall e :: e in Entries(channelId, channelName, threads) ==> WellFormedEntry(e, channelId, channelName)
    ensures forall e :: e in Entries(channelId, channelName, threads) <==>
              exists i :: 0 <= i < |threads| && Truthy(ThreadId(threads[i])) && e == EntryFor(channelId, channelName, threads[i])
  {
    EntriesFromThreads(channelId, channelName, threads);
    forall e | e in Entries(channelId, channelName, threads)
      ensures WellFormedEntry(e, channelId, channelName)
    {
      var i :| 0 <= i < |threads| && Truthy(ThreadId(threads[i])) && e == EntryFor(channelId, channelName, threads[i]);
      EntryForWellFormed(channelId, channelName, threads[i]);
    }
  }

  lemma {:induction false} EntryForWellFormed(channelId: Value, channelName: Value, thread: Thread)
    requires Truthy(ThreadId(thread))
    ensures WellFormedEntry(EntryFor(channelId, channelName, thread), channelId, channelName)
  {
  }

  lemma {:induction false} EntriesFromThreads(channelId: Value, channelName: Value, threads: seq<Thread>)
    ensures forall e :: e in Entries(channelId, channelName, threads) <==>
              exists i :: 0 <= i < |threads| && Truthy(ThreadId(threads[i])) && e == EntryFor(channelId, channelName, threads[i])
    decreases |threads|
  {
    if threads != [] {
      var init := threads[..|threads| - 1];
      EntriesFromThreads(channelId, channelName, init);
      forall e
        ensures e in Entries(channelId, channelName, threads) <==>
          exists i :: 0 <= i < |threads| && Truthy(ThreadId(threads[i])) && e == EntryFor(channelId, channelName, threads[i])
      {
        if e in Entries(channelId, channelName, init) {
          var i :| 0 <= i < |init| && Truthy(ThreadId(init[i])) && e == EntryFor(channelId, channelName, init[i]);
          assert threads[i] == init[i];
        }
        if exists i :: 0 <= i < |threads| && Truthy(ThreadId(threads[i])) && e == EntryFor(channelId, channelName, threads[i]) {
          var i :| 0 <= i < |threads| && Truthy(ThreadId(threads[i])) && e == EntryFor(channelId, channelName, threads[i]);
          if i < |init| {
            assert init[i] == threads[i];
          }
        }
      }
    }
  }

  /** With the same page source, the single-page harvest is a prefix of the full harvest. */
  lemma {:induction false} SinglePageIsPrefix(channelId: Value, channelName: Value, pages: seq<Page>)
    ensures var single := Entries(channelId, channelName, ChannelThreads(false, pages));
            var full := Entries(channelId, channelName, ChannelThreads(true, pages));
            |single| <= |full| && single == full[..|single|]
  {
    var first := PageItems(Response(pages, 0));
    if first != [] && HasNextCursor(Response(pages, 0)) {
      EntriesAppend(channelId, channelName, first, AllThreads(pages[1..]));
    }
  }

  // ---------------------------------------------------------------------------
  // All channels, the merge and the known ids

  /**
   * `(row.get("thread") or {}).get("created_at", 0)` as a number: an integer
   * as itself, a boolean as 0 or 1; any other value is read as 0.
   */
  function CreatedAt(e: Entry): (t: int)
    ensures "created_at" !in e.thread ==> t == 0
  {
    var v := GetOr(e.thread, "created_at", Int(0));
    if v.Int? then v.i
    else if v.Bool? then (if v.b then 1 else 0)
    else 0
  }

  /** The key order of `sort(key=created_at, reverse=True)`. */
  predicate NewerOrSame(a: Entry, b: Entry) {
    CreatedAt(a) >= CreatedAt(b)
  }

  lemma NewerOrSameIsTotalPreorder()
    ensures TotalPreorder(NewerOrSame)
  {
  }

  /** `sort(key=created_at, reverse=True)`: the same entries, newest first. */
  function SortNewestFirst(entries: seq<Entry>): (sorted: seq<Entry>)
    ensures multiset(sorted) == multiset(entries)
    ensures forall i, j :: 0 <= i < j < |sorted| ==> CreatedAt(sorted[i]) >= CreatedAt(sorted[j])
  {
    NewerOrSameIsTotalPreorder();
    SortBySorted(entries, NewerOrSame);
    SortBy(entries, NewerOrSame)
  }

  /** The channel's task results, for each row with a truthy id, in row order. */
  function ChannelResults(rows: seq<Object>, responses: seq<seq<Page>>, allThreads: bool): (results: seq<seq<Entry>>)
    requires |responses| == |rows|
    ensures |results| <= |rows|
    decreases |rows|
  {
    if rows == [] then []
    else
      var n := |rows| - 1;
      var channelId := GetOr(rows[n], "id", Str(""));
      var channelName := GetOr(rows[n], "name", Str(""));
      ChannelResults(rows[..n], responses[..n], allThreads)
        + (if Truthy(channelId)
           then [Entries(channelId, channelName, ChannelThreads(allThreads, responses[n]))]
           else [])
  }

  /**
   * The rows are handled one after another: the results of two runs of rows
   * are the results of their concatenation, in row order.
   */
  lemma {:induction false} ChannelResultsAppend(rows1: seq<Object>, responses1: seq<seq<Page>>,
                                                rows2: seq<Object>, responses2: seq<seq<Page>>, allThreads: bool)
    requires |responses1| == |rows1| && |responses2| == |rows2|
    ensures ChannelResults(rows1 + rows2, responses1 + responses2, allThreads)
            == ChannelResults(rows1, responses1, allThreads) + ChannelResults(rows2, responses2, allThreads)
    decreases |rows2|
  {
    if rows2 == [] {
      assert rows1 + rows2 == rows1 && responses1 + responses2 == responses1;
    } else {
      var n := |rows2| - 1;
      var rows, responses := rows1 + rows2, responses1 + responses2;
      assert rows[..|rows| - 1] == rows1 + rows2[..n];
      assert responses[..|responses| - 1] == responses1 + responses2[..n];
      assert rows[|rows| - 1] == rows2[n] && responses[|responses| - 1] == responses2[n];
      ChannelResultsAppend(rows1, responses1, rows2[..n], responses2[..n], allThreads);
    }
  }

  /**
   * One row gives one task result, the entries of its channel's threads, when
   * its `id` is truthy, and none otherwise.
   */
  lemma {:induction false} ChannelResultsOfRow(row: Object, pages: seq<Page>, allThreads: bool)
    ensures var channelId, channelName := GetOr(row, "id", Str("")), GetOr(row, "name", Str(""));
            ChannelResults([row], [pages], allThreads)
            == if Truthy(channelId) then [Entries(channelId, channelName, ChannelThreads(allThreads, pages))] else []
  {
    assert [row][..0] == [] && [pages][..0] == [];
  }

  /** `order` lists every task index below `n` exactly once: the order in which the tasks finish. */
  predicate IsCompletionOrder(order: seq<nat>, n: nat) {
    |order| == n &&
    (forall k :: 0 <= k < n ==> order[k] < n) &&
    (forall k, l :: 0 <= k < l < n ==> order[k] != order[l]) &&
    (forall t :: 0 <= t < n ==> t in order)
  }

  function InCompletionOrder(results: seq<seq<Entry>>, order: seq<nat>): seq<seq<Entry>>
    requires forall k :: 0 <= k < |order| ==> order[k] < |results|
  {
    seq(|order|, k requires 0 <= k < |order| => results[order[k]])
  }

  /** `[item for channel_items in per_channel_results for item in channel_items]`. */
  function Flatten(lists: seq<seq<Entry>>): seq<Entry>
    decreases |lists|
  {
    if lists == [] then [] else Flatten(lists[..|lists| - 1]) + lists[|lists| - 1]
  }

  /** All entries, newest first. */
  function Merge(perChannel: seq<seq<Entry>>): (merged: seq<Entry>)
    ensures multiset(merged) == multiset(Flatten(perChannel))
    ensures forall i, j :: 0 <= i < j < |merged| ==> CreatedAt(merged[i]) >= CreatedAt(merged[j])
  {
    SortNewestFirst(Flatten(perChannel))
  }

  lemma {:induction false} FlattenAppend(a: seq<seq<Entry>>, b: seq<seq<Entry>>)
    ensures Flatten(a + b) == Flatten(a) + Flatten(b)
    decreases |b|
  {
    if b == [] {
      assert a + b == a;
    } else {
      var b' := b[..|b| - 1];
      assert (a + b)[..|a + b| - 1] == a + b';
      FlattenAppend(a, b');
    }
  }

  /** Removing the position of the last task from a completion order leaves a completion order of the others. */
  lemma {:induction false} DropLastTask(order: seq<nat>, n: nat, p: nat)
    requires n > 0 && IsCompletionOrder(order, n)
    requires p < n && order[p] == n - 1
    ensures IsCompletionOrder(order[..p] + order[p + 1..], n - 1)
  {
    var order' := order[..p] + order[p + 1..];
    forall t | 0 <= t < n - 1
      ensures t in order'
    {
      assert t in order;
      var q :| 0 <= q < n && order[q] == t;
      if q < p {
        assert order'[q] == t;
      } else {
        assert q != p;
        assert order'[q - 1] == t;
      }
    }
    forall k | 0 <= k < n - 1
      ensures order'[k] < n - 1
    {
      if k < p {
        assert order'[k] == order[k];
      } else {
        assert order'[k] == order[k + 1];
      }
    }
  }

  lemma {:induction false} FlattenInsertAt(before: seq<seq<Entry>>, after: seq<seq<Entry>>, x: seq<Entry>)
    ensures multiset(Flatten(before + [x] + after)) == multiset(Flatten(before + after)) + multiset(x)
  {
    FlattenAppend(before + [x], after);
    FlattenAppend(before, [x]);
    FlattenAppend(before, after);
    assert [x][..0] == [];
  }

  lemma {:induction false} LastTaskInCompletionOrder(results: seq<seq<Entry>>, order: seq<nat>, p: nat)
    requires |results| > 0 && IsCompletionOrder(order, |results|)
    requires p < |results| && order[p] == |results| - 1
    requires IsCompletionOrder(order[..p] + order[p + 1..], |results| - 1)
    ensures var r' := InCompletionOrder(results[..|results| - 1], order[..p] + order[p + 1..]);
            InCompletionOrder(results, order) == r'[..p] + [results[|results| - 1]] + r'[p..]
  {
    var n := |results|;
    var order' := order[..p] + order[p + 1..];
    var r := InCompletionOrder(results, order);
    var r' := InCompletionOrder(results[..n - 1], order');
    var s := r'[..p] + [results[n - 1]] + r'[p..];
    assert |r| == |s|;
    forall k | 0 <= k < n
      ensures r[k] == s[k]
    {
      if k < p {
        assert order'[k] == order[k];
      } else if k > p {
        assert order'[k - 1] == order[k];
      }
    }
  }

  /** Whatever order the channel tasks finish in, the flattened entries are the same multiset. */
  lemma {:induction false} CompletionOrderKeepsEntries(results: seq<seq<Entry>>, order: seq<nat>)
    requires IsCompletionOrder(order, |results|)
    ensures multiset(Flatten(InCompletionOrder(results, order))) == multiset(Flatten(results))
    decreases |results|
  {
    var n := |results|;
    if n > 0 {
      var init, last := results[..n - 1], results[n - 1];
      assert n - 1 in order;
      var p :| 0 <= p < n && order[p] == n - 1;
      var order' := order[..p] + order[p + 1..];
      DropLastTask(order, n, p);
      CompletionOrderKeepsEntries(init, order');
      LastTaskInCompletionOrder(results, order, p);
      InsertLastTask(InCompletionOrder(init, order'), p, init, last);
      assert Flatten(results) == Flatten(init) + last;
    }
  }

  /** Inserting one more channel's entries anywhere into a reordering of the others gives the union of the multisets. */
  lemma {:induction false} InsertLastTask(others: seq<seq<Entry>>, p: nat, init: seq<seq<Entry>>, last: seq<Entry>)
    requires p <= |others|
    requires multiset(Flatten(others)) == multiset(Flatten(init))
    ensures multiset(Flatten(others[..p] + [last] + others[p..])) == multiset(Flatten(init)) + multiset(last)
  {
    var a, b := others[..p], others[p..];
    FlattenInsertAt(a, b, last);
    assert a + b == others;
  }

  /**
   * The merged harvest is a permutation of the concatenated per-channel
   * lists, ordered newest first, and entries with equal `created_at` keep
   * the order they had in the concatenation.
   */
  lemma {:induction false} MergeSortedPermutation(perChannel: seq<seq<Entry>>)
    ensures multiset(Merge(perChannel)) == multiset(Flatten(perChannel))
    ensures forall i, j :: 0 <= i < j < |Merge(perChannel)| ==>
              CreatedAt(Merge(perChannel)[i]) >= CreatedAt(Merge(perChannel)[j])
    ensures forall x :: TieClass(Merge(perChannel), x, NewerOrSame) == TieClass(Flatten(perChannel), x, NewerOrSame)
  {
    NewerOrSameIsTotalPreorder();
    SortBySorted(Flatten(perChannel), NewerOrSame);
    forall x
      ensures TieClass(Merge(perChannel), x, NewerOrSame) == TieClass(Flatten(perChannel), x, NewerOrSame)
    {
      SortByStable(Flatten(perChannel), x, NewerOrSame);
    }
  }

  /** The ids the previous harvest's rows carry as non-empty strings. */
  function IdsIn(rows: seq<Object>): (ids: set<string>)
    ensures forall s :: s in ids <==>
              s != "" && exists i :: 0 <= i < |rows| && Get(rows[i], "thread_id") == Str(s)
    decreases |rows|
  {
    if rows == [] then {}
    else
      var n := |rows| - 1;
      var id := Get(rows[n], "thread_id");
      assert forall i :: 0 <= i < n ==> rows[..n][i] == rows[i];
      IdsIn(rows[..n]) + (if id.Str? && id.s != "" then {id.s} else {})
  }

  /** The known-id set: empty when the previous file is missing or undecodable. */
  function KnownIds(previous: Option<seq<Object>>): set<string> {
    match previous
    case None => {}
    case Some(rows) => IdsIn(rows)
  }

  /** The known-id load of `_main_async`. */
  method LoadKnownThreadIds(previous: Option<seq<Object>>) returns (ids: set<string>)
    ensures ids == KnownIds(previous)
  {
    ids := {};
    if previous.None? {
      return;
    }
    var rows := previous.value;
    for i := 0 to |rows|
      invariant ids == IdsIn(rows[..i])
    {
      assert rows[..i + 1][..i] == rows[..i];
      var threadId := Get(rows[i], "thread_id");
      if threadId.Str? && threadId.s != "" {
        ids := ids + {threadId.s};
      }
    }
    assert rows[..|rows|] == rows;
  }

  /** The entry's `thread_id` is a string in the known set. */
  predicate IsKnown(e: Entry, known: set<string>) {
    e.threadId.Str? && e.threadId.s in known
  }

  /** `[row for row in results if row.get("thread_id") not in existing_thread_ids]`. */
  function NewItems(merged: seq<Entry>, known: set<string>): (news: seq<Entry>)
    ensures |news| <= |merged|
    ensures forall e :: e in news ==> e in merged && !IsKnown(e, known)
    decreases |merged|
  {
    if merged == [] then []
    else
      var n := |merged| - 1;
      NewItems(merged[..n], known) + (if IsKnown(merged[n], known) then [] else [merged[n]])
  }

  /**
   * The new items are exactly the merged entries whose id is not known, and
   * they stay in the merged (newest-first) order.
   */
  lemma {:induction false} NewItemsExact(merged: seq<Entry>, known: set<string>)
    ensures forall e :: e in NewItems(merged, known) <==> e in merged && !IsKnown(e, known)
    ensures SortedBy(merged, NewerOrSame) ==> SortedBy(NewItems(merged, known), NewerOrSame)
    decreases |merged|
  {
    if merged != [] {
      var n := |merged| - 1;
      NewItemsExact(merged[..n], known);
      assert merged == merged[..n] + [merged[n]];
      if SortedBy(merged, NewerOrSame) {
        assert SortedBy(merged[..n], NewerOrSame);
        var news := NewItems(merged, known);
        var init := NewItems(merged[..n], known);
        if !IsKnown(merged[n], known) {
          forall i | 0 <= i < |init|
            ensures NewerOrSame(init[i], merged[n])
          {
            assert init[i] in merged[..n];
          }
        }
      }
    }
  }

  /**
   * The filter works entry by entry: the new items of a concatenation are
   * the new items of each part, concatenated. With the one-entry case this
   * makes the new items the subsequence of `merged` of the unknown entries,
   * duplicates and order included.
   */
  lemma {:induction false} NewItemsAppend(a: seq<Entry>, b: seq<Entry>, known: set<string>)
    ensures NewItems(a + b, known) == NewItems(a, known) + NewItems(b, known)
    decreases |b|
  {
    if b == [] {
      assert a + b == a;
    } else {
      var b' := b[..|b| - 1];
      assert (a + b)[..|a + b| - 1] == a + b';
      assert (a + b)[|a + b| - 1] == b[|b| - 1];
      NewItemsAppend(a, b', known);
    }
  }

  /** A single entry is new exactly when its id is not known. */
  lemma {:induction false} NewItemsOfEntry(e: Entry, known: set<string>)
    ensures NewItems([e], known) == if IsKnown(e, known) then [] else [e]
  {
    assert [e][..0] == [];
  }

  /** On a first run (or after a corrupt file) every merged entry is new. */
  lemma {:induction false} FirstRunAllNew(merged: seq<Entry>)
    ensures NewItems(merged, KnownIds(None)) == merged
    decreases |merged|
  {
    if merged != [] {
      var n := |merged| - 1;
      FirstRunAllNew(merged[..n]);
      assert merged == merged[..n] + [merged[n]];
    }
  }

  /** The JSON object an entry is written as. */
  function EntryRow(e: Entry): Object {
    map["channel_id" := e.channelId, "channel_name" := e.channelName,
        "thread_id" := e.threadId, "thread" := Obj(e.thread)]
  }

  function Rows(entries: seq<Entry>): seq<Object> {
    seq(|entries|, i requires 0 <= i < |entries| => EntryRow(entries[i]))
  }

  /**
   * Re-running against the harvest just written finds nothing new, as long
   * as thread ids are non-empty strings.
   */
  lemma {:induction false} RepeatRunFindsNothingNew(merged: seq<Entry>)
    requires forall e :: e in merged ==> e.threadId.Str? && e.threadId.s != ""
    ensures NewItems(merged, KnownIds(Some(Rows(merged)))) == []
  {
    var rows := Rows(merged);
    var known := IdsIn(rows);
    forall e | e in merged
      ensures IsKnown(e, known)
    {
      var i :| 0 <= i < |merged| && merged[i] == e;
      assert rows[i] == EntryRow(e);
      assert Get(rows[i], "thread_id") == e.threadId;
      assert e.threadId.s in known;
    }
    NothingNewWhenAllKnown(merged, known);
  }

  lemma {:induction false} NothingNewWhenAllKnown(merged: seq<Entry>, known: set<string>)
    requires forall e :: e in merged ==> IsKnown(e, known)
    ensures NewItems(merged, known) == []
    decreases |merged|
  {
    if merged != [] {
      var n := |merged| - 1;
      assert merged[n] in merged;
      forall e | e in merged[..n]
        ensures IsKnown(e, known)
      {
        assert e in merged;
      }
      NothingNewWhenAllKnown(merged[..n], known);
    }
  }

  /**
   * `_main_async` without its I/O: collect every channel's entries, take the
   * task results in the order the tasks complete, flatten and sort them
   * newest first, then keep the entries with an unknown id (and sort those
   * again). `responses[i]` is what the API answers for row `i`'s channel.
   */
  method Harvest(rows: seq<Object>, responses: seq<seq<Page>>, allThreads: bool,
                 completion: seq<nat>, previous: Option<seq<Object>>)
    returns (results: seq<Entry>, newResults: seq<Entry>)
    requires |responses| == |rows|
    requires IsCompletionOrder(completion, |ChannelResults(rows, responses, allThreads)|)
    ensures results == Merge(InCompletionOrder(ChannelResults(rows, responses, allThreads), completion))
    ensures newResults == NewItems(results, KnownIds(previous))
  {
    var knownIds := LoadKnownThreadIds(previous);
    var tasks: seq<seq<Entry>> := [];
    for i := 0 to |rows|
      invariant tasks == ChannelResults(rows[..i], responses[..i], allThreads)
    {
      assert rows[..i + 1][..i] == rows[..i];
      assert responses[..i + 1][..i] == responses[..i];
      var channelId := GetOr(rows[i], "id", Str(""));
      var channelName := GetOr(rows[i], "name", Str(""));
      if !Truthy(channelId) {
        continue;
      }
      var channelItems := CollectThreadsForChannel(channelId, channelName, allThreads, responses[i]);
      tasks := tasks + [channelItems];
    }
    assert rows[..|rows|] == rows;
    assert responses[..|responses|] == responses;
    var perChannelResults := InCompletionOrder(tasks, completion);
    results := Flatten(perChannelResults);
    results := SortNewestFirst(results);
    newResults := NewItems(results, knownIds);
    MergeSortedPermutation(perChannelResults);
    NewItemsExact(results, knownIds);
    SortByOfSorted(newResults, NewerOrSame);
    newResults := SortNewestFirst(newResults);
  }
}
