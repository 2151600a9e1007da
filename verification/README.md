# hp-bot in Dafny

A model of the three scripts of hp-bot, a bot that watches Holoplus talent
channels and forwards their new threads to a Discord webhook:

- **The channel lister** (`talent-channel.py`) fetches the talent channels.
  It writes a snapshot of their `id` and `name`, sorted by id. See
  module `ChannelLister`.
- **The thread harvester** (`talent-channel-newest.py`) handles each channel
  as follows:
  - It takes one page of the "newest threads" endpoint, or pages through
    all of it with a cursor.
  - It drops the engagement fields that change between fetches.
  - It turns each thread with an id into a harvest entry.
  - It merges all channels' entries, newest first.
  - It picks out the entries whose thread id the previous harvest did not
    contain.

  See module `Harvester`.
- **The notifier** (`notify.py`) turns each new entry into a webhook message
  with one embed. It also derives the file name under which a thread's voice
  clip is attached. See module `Notifier`.

Supporting modules:

- `Json` holds JSON values as the scripts see them after decoding. It covers
  Python truthiness, `dict.get` and `a or b`.
- `Text` covers `strip`, `rstrip`, `split`, `join`, truncation with an
  ellipsis, and Python's string order.
- `Sorting` models Python's stable key sort as a stable insertion sort over
  an arbitrary total preorder. It proves that the result is sorted, is a
  permutation of the input, keeps the input order among tied elements, and
  leaves an already sorted list unchanged.
- `Wrappers` holds `Option`.

The network, the files and the process environment are parameters:

- **API answers.** The API's answers to successive page requests are a
  sequence of `Harvester.Page` values. A request past the end of that
  sequence is answered with an empty page.
- **The previous harvest file.** It is `None` when the file is missing or
  reading it fails with `json.JSONDecodeError`. Otherwise it is the list of
  rows it holds. Any other read error (an unreadable file, text that is not
  UTF-8) aborts the run and is not modelled.
- **Task completion order.** The order in which the per-channel tasks
  complete (`asyncio.as_completed`) is an explicit permutation,
  `completion`.

Three behaviours of the code worth knowing:

- **No de-duplication.** The harvest is not de-duplicated: a thread that
  appears twice in the responses appears twice in the merged list.
- **Channel ids need not be strings.** The lister compares ids with
  Python's `<=` on whatever type they have. The model allows lists whose
  ids are all strings or all integers (see `KeyLe`, `ComparableIds`).
- **Ties are not broken by any secondary key.** Entries with equal
  `created_at` keep their order in the flattened task results, which
  depends on the completion order.

## Model

| member | source | states |
|---|---|---|
| Harvester.SanitizeThread | talent-channel-newest.py:87-98 | The copy has exactly the thread's keys minus the five volatile ones, and every remaining key keeps its value. |
| Harvester.SanitizedIdempotent | talent-channel-newest.py:87-98 | Sanitising a sanitised thread changes nothing. |
| Harvester.SanitizedWithoutVolatileKeys | talent-channel-newest.py:87-98 | A thread without volatile keys is returned unchanged. |
| Harvester.SanitizedEqualIff | talent-channel-newest.py:87-98 | Two fetches of a thread are equal after sanitising if and only if they differ only in volatile fields: engagement churn does not make a thread look changed. |
| Harvester.PaginationStops | talent-channel-newest.py:44-70 | Requests continue exactly until the first page that has no items or no non-empty `next_cursor`. At most one request more than the given responses is made. The threads yielded are the items of all requested pages, in order. |
| Harvester.IterAllThreads | talent-channel-newest.py:44-70 | The loop yields `AllThreads(pages)` and makes `RequestCount(pages)` requests. The first request is sent with no cursor and each later one with the previous page's `next_cursor`, which was present and non-empty. |
| Harvester.CollectThreadsForChannel | talent-channel-newest.py:100-145 | The channel's entries are those of all pages (`--all`) or of the first page only. Threads with a falsy id are skipped, and page order is kept. |
| Harvester.EntriesExact | talent-channel-newest.py:107-120 | An entry is produced for exactly the threads whose id is truthy. Each entry carries the channel, a truthy `thread_id` equal to the thread's `id`, and a thread without volatile keys. |
| Harvester.EntriesAppend | talent-channel-newest.py:100-120 | The entries of two concatenated thread lists are the two entry lists concatenated, so order within a channel is preserved. |
| Harvester.SinglePageIsPrefix | talent-channel-newest.py:100-143 | For the same responses, the single-page harvest is a prefix of the full paginated harvest. |
| Harvester.Entries | talent-channel-newest.py:107-120 | A channel yields at most one entry per thread. |
| Harvester.ChannelResults | talent-channel-newest.py:209-223 | The rows give at most one task each. |
| Harvester.ChannelResultsAppend | talent-channel-newest.py:210-223 | Rows are handled one after another: the tasks of two runs of rows are the tasks of each run, in row order. |
| Harvester.ChannelResultsOfRow | talent-channel-newest.py:211-223 | A row with a truthy `id` gives one task, whose result is the entries of that channel's threads (all pages or the first); a row with a falsy `id` gives none. |
| Harvester.CreatedAt | talent-channel-newest.py:238 | An entry whose thread has no `created_at` sorts as 0. Integers count as themselves and booleans as 0 or 1. |
| Harvester.SortNewestFirst | talent-channel-newest.py:237-240 | The sort keeps the same entries (a permutation) and orders them newest first. |
| Harvester.Flatten | talent-channel-newest.py:232-234 | The flattened list is the task results concatenated in order (see `FlattenAppend`). |
| Harvester.FlattenAppend | talent-channel-newest.py:232-234 | Flattening a concatenation of result lists concatenates their flattenings. |
| Harvester.Merge | talent-channel-newest.py:232-240 | The merged list is a permutation of the flattened results, newest first. |
| Harvester.NewerOrSameIsTotalPreorder | talent-channel-newest.py:237-240 | Ordering by `created_at` descending is a total preorder, so the sort is well defined. |
| Harvester.CompletionOrderKeepsEntries | talent-channel-newest.py:225-234 | Whatever order the channel tasks complete in, the flattened list holds the same entries (as a multiset). |
| Harvester.MergeSortedPermutation | talent-channel-newest.py:232-240 | The merged list is a permutation of the flattened task results. It is sorted by `created_at`, newest first, and entries with equal `created_at` keep their flattened order (stability). |
| Harvester.IdsIn | talent-channel-newest.py:197-200 | The known ids are exactly the non-empty string `thread_id` values of the previous rows. |
| Harvester.LoadKnownThreadIds | talent-channel-newest.py:193-206 | The loop collects `KnownIds(previous)`: no ids when the file is missing or undecodable, otherwise the non-empty string ids of its rows. |
| Harvester.NewItemsExact | talent-channel-newest.py:251-253 | An entry is new if and only if it is in the merged list and its `thread_id` is not a known id. When the merged list is sorted newest first, so are the new items. |
| Harvester.NewItemsAppend | talent-channel-newest.py:251-253 | The filter works entry by entry: the new items of a concatenation are the concatenated new items of its parts. With `NewItemsOfEntry` this makes the new items the subsequence of the unknown entries, in merged order and with duplicates kept. |
| Harvester.NewItemsOfEntry | talent-channel-newest.py:252 | One entry is kept exactly when its `thread_id` is not a known id. |
| Harvester.NewItems | talent-channel-newest.py:251-253 | The new items are no more than the merged entries, and each is a merged entry with an unknown id. |
| Harvester.FirstRunAllNew | talent-channel-newest.py:201-206 | Without a usable previous file, every merged entry is new. |
| Harvester.RepeatRunFindsNothingNew | talent-channel-newest.py:193-253 | Re-running against the harvest just written finds nothing new, provided thread ids are non-empty strings. |
| Harvester.Harvest | talent-channel-newest.py:166-257 | The full harvest is the merge (flatten, then sort newest first) of the per-channel results in completion order. One task runs per channel row with a truthy id. The new items are the merged entries with an unknown id, and the second sort leaves them unchanged. |
| Sorting.SortBySorted | talent-channel-newest.py:237-240 | Python's key sort yields a list ordered by the key. |
| Sorting.SortByStable | talent-channel-newest.py:237-240 | Python's sort is stable: elements with equal keys keep their input order. |
| Sorting.InsertSorted | talent-channel-newest.py:237-240 | Inserting into a sorted list keeps it sorted (the step of the stable sort). |
| Sorting.SortByOfSorted | talent-channel-newest.py:254-257 | Sorting an already sorted list returns it unchanged, so re-sorting the new items is a no-op. |
| Sorting.SortThree | talent-channel.py:35 | A concrete three-element sort: the element keyed lowest comes first and the one keyed between the others comes second. |
| Text.Strip | notify.py:31 | `strip()` removes exactly the leading and trailing `str.isspace` characters. The result is a slice of the input that neither starts nor ends with whitespace. |
| Text.StripKeepsHead | notify.py:31 | A string starting with a non-space character keeps that character first and is not emptied by `strip()`. |
| Text.RStrip | notify.py:119 | `rstrip("/")` removes exactly the trailing slashes and leaves a prefix that does not end in `/`. |
| Text.Split | notify.py:119 | `split(sep)` yields at least one part and no part contains `sep`. |
| Text.JoinSplit | notify.py:119 | Joining the parts of a split with the same separator gives the string back. |
| Text.SplitLastIsTail | notify.py:119 | `s.split(sep)[-1]` is the suffix of `s` after its last `sep`, or all of `s` when it has none. |
| Text.LastField | notify.py:119-121 | The last field is a suffix of the string free of the separator, preceded by the separator unless it is the whole string. |
| Text.Truncate | notify.py:47-48 | The cut text is at most `limit` characters long. Text within the limit is unchanged; longer text keeps its first `limit - 1` characters and ends with `…`. |
| Text.LexLeReflexive | talent-channel.py:35 | Python's string `<=` is reflexive. |
| Text.LexLeTotal | talent-channel.py:35 | Python's string `<=` relates any two strings. |
| Text.LexLeTransitive | talent-channel.py:35 | Python's string `<=` is transitive. |
| Text.LexLeAntisymmetric | talent-channel.py:35 | Two strings each `<=` the other are equal. |
| Notifier.Description | notify.py:39-48 | The description is at most 3800 characters long and is empty exactly when the body is. |
| Notifier.EmbedTitle | notify.py:61 | The embed title is never empty. |
| Notifier.Header | notify.py:31 | The header is never empty and starts with `[`. |
| Notifier.Content | notify.py:79-81 | The content is never empty and has at most 2000 characters. |
| Notifier.ThreadUrl | notify.py:51-53 | There is a thread URL exactly when the thread id is truthy, and it starts with `https://www.holoplus.com/app/threads/`. |
| Notifier.AuthorOf | notify.py:56-72 | An author is given only with a truthy name or an icon, and an icon only when it is truthy. |
| Notifier.ImageOf | notify.py:74-76 | An image is given only when `image_urls` is a non-empty list, and it is the first URL. |
| Notifier.BuildPayload | notify.py:20-87 | The payload always carries a non-empty content of at most 2000 characters and exactly one embed. The embed's title is non-empty and its description, when present, is 1 to 3800 characters long. It has a URL exactly when the thread id is truthy, an author only with a truthy name or icon, and an image exactly when `image_urls` is non-empty. The voice-clip URL is returned beside the message. |
| Notifier.TitleAndBodyFallback | notify.py:28-29 | Title and body come from the Japanese translation, else from the thread, else are `""`. |
| Notifier.ContentIsHeader | notify.py:79-85 | The header always starts with `[`, so the content is always the header cut down to 2000 characters. The fallback to the thread URL is never taken. |
| Notifier.ContentTruncation | notify.py:79-81 | A header of at most 2000 characters is sent as is. A longer one becomes its first 1999 characters and `…`, 2000 characters in all. |
| Notifier.DescriptionTruncation | notify.py:39-62 | The description is null exactly when the body is empty. It is the body when that has at most 3800 characters, else the body's first 3799 characters and `…`. |
| Notifier.EmbedTitleFallback | notify.py:61 | The embed title falls back from the title to the channel name to `Holoplus Thread`. |
| Notifier.EmbedUrl | notify.py:50-66 | The embed links to `https://www.holoplus.com/app/threads/<id>` exactly when the entry's `thread_id` or else the thread's `id` is truthy, using the first truthy one. |
| Notifier.EmbedAuthor | notify.py:56-72 | The author is present exactly when the user's name (falling back to the channel name) or the user's icon is truthy. The icon is included only when it is truthy. |
| Notifier.EmbedImage | notify.py:74-76 | The image is the first of `image_urls` when there are any, and absent otherwise. |
| Notifier.SameFieldsApartFromVoiceClip | notify.py:21-36 | Entries that differ only in the thread's voice clip read the same channel name, title, body, id, user and image URLs. |
| Notifier.SameFieldsSameMessage | notify.py:20-85 | The message depends only on the fields it reads. |
| Notifier.PayloadIgnoresVoiceClip | notify.py:35-36 | The voice clip never changes the message: it is only returned beside it. |
| Notifier.HarvestedEntryLinksToThread | notify.py:51-53 | An entry written by the harvester with a non-empty string id, read back, links to that thread. |
| Notifier.LastSegmentDot | notify.py:119-120 | The last path segment contains a dot exactly when the URL has a dot after its last slash. |
| Notifier.VoiceFilenameSpec | notify.py:116-122 | The attachment is named `voice-clip.` plus an extension free of `.` and `/`. When the last path segment (after trailing slashes are removed) has a dot, the URL ends with that dot and extension; otherwise the extension is `m4a`. |
| Notifier.VoiceExtension | notify.py:119-121 | The extension contains no `.` and no `/`. |
| Notifier.VoiceFilename | notify.py:116-122 | The file name starts with `voice-clip.`, and what follows has no `.` and no `/`, so that dot is the name's only dot. |
| Notifier.VoiceExtensionFollowsDot | notify.py:119-122 | When the last segment has a dot, the URL without trailing slashes ends with `.` and the extension. |
| ChannelLister.IdOrderIsTotalPreorder | talent-channel.py:35 | Ordering by id (integers by value, strings as strings) is a total preorder, so `sorted` is well defined on comparable ids. |
| ChannelLister.KeyLeTotal | talent-channel.py:35 | Any two ids are ordered one way or the other. |
| ChannelLister.KeyLeTransitive | talent-channel.py:35 | The id order is transitive. |
| ChannelLister.KeyLe | talent-channel.py:35 | Equal ids are ordered both ways (Python's `<=` is reflexive on integers and on strings). |
| ChannelLister.Project | talent-channel.py:38-41 | A row has exactly the keys `id` and `name`, and its `id` is the item's sort key. |
| ChannelLister.SortedItems | talent-channel.py:35 | `sorted` returns the same items (a permutation), ascending by id. |
| ChannelLister.Snapshot | talent-channel.py:30-43 | The snapshot has one row per channel. |
| ChannelLister.SnapshotShape | talent-channel.py:35-43 | Each row has exactly the keys `id` and `name`, and the rows ascend by id. With string ids, each row's id is a string and the rows ascend in string order. |
| ChannelLister.SnapshotStablePermutation | talent-channel.py:35-43 | The rows are the projections of a permutation of the channels, in which channels with equal ids keep their input order. |
| ChannelLister.StringOrderExample | talent-channel.py:35 | Ids compare as strings: `c2, c1, c10` sorts to `c1, c10, c2`. |

## Left out

- **HTTP calls.** The API and webhook calls (`fetch_newest_threads`, `fetch_talent_channels`, `send_discord_webhook`) are left out, with their headers, timeouts and HTTP errors. The model takes the API's answers as parameters and stops at the payload and the attachment name.
- **Concurrency.** `asyncio`, the worker threads and the progress bar are left out. The only visible effect of the concurrency, the task completion order, is a parameter of `Harvester.Harvest`.
- **Startup and output.** Command-line parsing, the environment variables and their fatal messages, `print`, and every `main` are left out.
- **Files and JSON.** Reading and writing the JSON files and JSON decoding itself are not modelled. A decoded file is a `Json.Value` tree or, for the previous harvest, an `Option` of rows.
- **load_new_threads and the notifier loop.** `load_new_threads` and the notifier's per-entry sending loop are pure I/O around `Notifier.BuildPayload` and are not modelled.
- **Channel list extraction.** The lister's `data.get("items") or []` is not modelled: `ChannelLister.Snapshot` takes the item list.
- Harvester.CreatedAt: only integer and boolean `created_at` values are modelled; any other value is read as 0. Python instead:
  - compares floats with integers numerically;
  - sorts a harvest whose `created_at` values are all strings as strings, without raising;
  - raises on `None`, even when every value is `None`, as soon as two entries are compared;
  - raises on strings mixed with numbers.
- Harvester.Harvest: the previous harvest's rows are taken to be objects. A list holding a non-object makes `row.get` raise, and the model does not capture that crash.
- Harvester.Harvest: the test `row.get("thread_id") not in existing_thread_ids` is modelled for string and non-string ids alike. An unhashable id (a list or an object) would raise in Python and is not modelled.
- Harvester.IterAllThreads: a request beyond the given responses is answered with an empty page, which ends pagination. A real endpoint that never stops sending cursors would loop forever.
- Notifier.BuildPayload: requires `Renderable`:
  - every nested value the code dereferences with `.get` is an object or falsy;
  - `image_urls` is a list or falsy;
  - the title, body, channel name and thread id used in text are strings (the id may also be falsy).

  Python would raise on other shapes, or format non-strings with `str()`; neither is modelled.
- ChannelLister.Snapshot: requires `ComparableIds`: at most one item, or ids that are all strings or all integers. Python also compares booleans and floats with integers; such id lists are excluded.
- ChannelLister.Snapshot: the sort is modelled on values, as a function returning a new sequence. This matches `sorted`, which does not sort in place.
