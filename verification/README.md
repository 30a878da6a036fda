# Hypnohub downloader, modelled in Dafny

This project models the core of `v1.py`, a script that downloads every post
matching a Hypnohub tag query. The script runs in three stages.

1. **Enumeration** (`get_post_queue`). `THREAD_COUNT` = 30 shards page
   through the listing endpoint. Shard `k` asks for page `30 * v + k`,
   where `v` is the number of pages it has already taken. An empty page
   ends a shard. The shards' post lists are then flattened, in shard
   order, into the work queue.
2. **Download** (`download_queue` and its worker `download_posts_from_queue`).
   For each post the worker:
   - resolves the image URL of a deleted post;
   - names the files `{id}_{md5}`;
   - skips a post whose image already exists;
   - otherwise tries the download up to `RETRY_COUNT` = 100 times;
   - puts the post in the successful, failed or skipped list;
   - writes the metadata file.
3. **Around them**:
   - the status display: the fraction done, the ETA and `pretty_timedelta`;
   - `main`'s handling of the user's answers: normalising the query,
     deriving the default folder name, and choosing the folder.

Modules (one file each):

| module | file | models |
|---|---|---|
| `Wrappers` | wrappers.dfy | `Option` |
| `Text` | text.dfy | Python's `str.split`, `str.join`, `str.strip` (Python's whitespace set) and character filtering |
| `Decimal` | decimal.dfy | `str(int)` and reading it back |
| `Posts` | posts.dfy | the listing entry and the `Post` record |
| `Sharding` | sharding.dfy | one query-fetcher shard |
| `Enumeration` | enumeration.dfy | the pool of shards and the flattened queue |
| `Naming` | naming.dfy | file stems, the image extension, and the output paths |
| `Download` | download.dfy | the worker, the retry loop, and the drain of the queue |
| `TimeFormat` | timefmt.dfy | `pretty_timedelta` |
| `Progress` | progress.dfy | the progress fraction and the ETA |
| `Inputs` | inputs.dfy | query normalisation and the folder name |

The network and the disk are modelled as plain data:

- The listing endpoint is a sequence of responses, one per request. Each
  response is a listing, a malformed page, or a request error.
- `get_deleted_post_image` and the per-try download result are functions
  in a `Network` value.
- The disk is the set of image paths that exist.
- The thread pool is modelled as one sequential pass over the queue.
- A worker whose URL resolution raises is one fewer worker. That post is
  never classified.

A failed listing request does not end a shard. `except Exception: pass`
(`v1.py:122-123`) leaves `visited_pages` unchanged, so the loop asks for
the same page again. `Sharding.Step` leaves the shard unchanged on a
request error.

## Model

| member | source | states |
|---|---|---|
| Posts.ConvertPrefix | v1.py:118-120 | The entries converted before the first one that lacks `id` or `md5`, each the conversion of the entry at the same position. The entry after the prefix is the one that fails. |
| Sharding.ParsePage | v1.py:112-120 | A decoded page is a full listing, with one post per entry in order, exactly when every entry converts. Otherwise it is malformed and carries the converted prefix. It is an empty listing exactly when the array is empty. |
| Sharding.ParsedIsFaithful | v1.py:112-120 | Take a listing whose pages are the conversions of their raw entries. Then the response decoded from the page a shard requests is always one the shard invariant allows: the true listing of that page, or a malformed page. |
| Sharding.PageOwner | v1.py:100-114 | The page that shard `k` requests at step `v` is at least 1, is owned by shard `k`, and is reached at step `v`. |
| Sharding.PageCoverage | v1.py:100-114 | Every page number is requested by its owning shard at the matching step, so no page is missed. |
| Sharding.PagesDisjoint | v1.py:100-114 | Two (shard, step) pairs that request the same page are the same pair, so no page is fetched twice. |
| Sharding.Step | v1.py:110-123 | An empty page ends the shard. A non-empty page on a running shard is appended whole, in order, and advances `visited_pages` by exactly one, so the next request is `THREAD_COUNT` pages later. Conversely, the shard advances only on such a page. An exception, including a malformed page, changes nothing, so the same page is asked for again. A finished shard stays as it is. |
| Sharding.Run | v1.py:110-123 | Running a shard over its responses keeps its identity, never loses posts already gathered, and never lowers its page count. |
| Sharding.RequestsOwned | v1.py:112-114 | Every page a shard requests belongs to that shard, at a step it has reached. |
| Sharding.StepCollects | v1.py:110-123 | Each step keeps the shard invariant for a fixed listing, whether the response is a request error, a malformed page, or the true page. The shard's posts are exactly those of the pages it has taken, each of those pages was non-empty, and a finished shard saw its next page empty. |
| Sharding.RunCollects | v1.py:110-123 | A whole run keeps the shard invariant when every response is a request error, a malformed page, or the true page. |
| Sharding.StepAsWritten | v1.py:118-121 | The loop body as written. On a running shard, a malformed page appends its converted prefix to the posts and changes nothing else: the shard keeps its number and page count and is not finished, so the same page is requested again. Every other response is handled as by `Step`. |
| Sharding.PartialPageDuplicates | v1.py:118-121 | A concrete run: the loop as written gathers a post twice, while the atomic step gathers it once. |
| Sharding.AsWrittenBreaksCollected | v1.py:118-121 | On a listing whose first page is `[p, q]`, a malformed first response keeps the shard invariant under `Step` and breaks it under the loop body as written, which holds `p` though no page was taken. |
| Sharding.RunAsWrittenAgrees | v1.py:110-123 | When no response is malformed, the loop as written and the atomic loop end in the same shard. |
| Enumeration.FlattenSlice | v1.py:132 | Each shard's list appears whole and in place in the flattened queue, after the lists of the shards before it. |
| Enumeration.AllShardsArePages | v1.py:100-132 | Taken together, the shards' shares of pages 1..P hold the same posts as pages 1..P. |
| Enumeration.EnumerationComplete | v1.py:129-135 | Take a listing whose pages 1..P are non-empty and whose later pages are empty, and shards that see only that listing, malformed pages or exceptions. Then the queue holds every listed post as many times as the listing does, and its size is the number of listed posts. |
| Enumeration.EnumerationTerminates | v1.py:100-132 | When every request is answered with its true page, every shard returns after its own share of pages 1..P and one empty page. The queue then exists and holds exactly the listed posts. |
| Decimal.IntRoundTrip | v1.py:164 | Reading back the decimal spelling of any integer, negative ones included, gives that integer. |
| Decimal.IntToDecimalInjective | v1.py:164 | Distinct ids have distinct decimal spellings. |
| Naming.Extension | v1.py:165 | `url.split('.')[-1]` is the suffix of the URL after its last `.`, or the whole URL when it has no `.`. It contains no `.`. |
| Naming.StemRoundTrip | v1.py:164 | The stem `{id}_{md5}` reads back into the id and md5 it was made from. |
| Naming.ImagePathExtension | v1.py:165-169 | The extension read off an image path is the one it was built with. |
| Naming.ImagePathsDistinct | v1.py:164-174 | Two posts get the same image path only when they have the same id, md5 and extension. |
| Naming.MetadataPathsDistinct | v1.py:195 | Two posts get the same metadata path only when they have the same id and md5. |
| Download.FirstSuccess | v1.py:170-187 | The first succeeding try below the bound, with every earlier try failing. None only when every try fails. |
| Download.RetryLoop | v1.py:170-187 | The `for ... else` loop stops at the first successful try. It reports failure only after all `retryCount` tries failed. It agrees with `FirstSuccess`. |
| Download.ProcessPost | v1.py:157-196 | The worker aborts exactly when URL resolution raises. Otherwise it returns the post with its URL filled in and the image path built from the stem and the URL's extension. The post is skipped exactly when image saving is off or the image exists. |
| Download.Classification | v1.py:168-196 | A skipped post makes no try. A successful post stops at its first good try. A failed post made all `retryCount` tries and every one failed. The metadata path is written exactly when metadata saving is on. |
| Download.RetryBound | v1.py:170-187 | A post whose every try fails is failed after exactly `retryCount` tries. |
| Download.ShippedSettings | v1.py:8-14 | With the settings as shipped, a failed post was tried 100 times and every try failed, and every handled post has its metadata file written. |
| Download.Record | v1.py:182-189 | A handled post joins the front of the list of its outcome, and the other two lists are unchanged. |
| Download.Drain | v1.py:152-205 | Posts classified, posts aborted and posts left in the queue add up to the queue's length. |
| Download.DownloadQueue | v1.py:138-205 | `total_posts` is the queue's size. At most that many posts are classified. |
| Download.DrainShape | v1.py:152-162 | The disk only grows. At most one post is aborted per worker. Posts are left over only when every worker has died, and they are the tail of the queue. |
| Download.DrainFiles | v1.py:166-196 | The disk after the drain is the disk before plus the image of each post in the successful list, and nothing else. A failed post leaves no image, so a later run retries it. With metadata saving on, the drain writes one metadata file per classified post. Each file written is the `{id}_{md5}.json` of a post in one of the three lists, and each such post has its file written. With metadata saving off, no file is written. |
| Download.DrainEarned | v1.py:166-189 | After the drain, every post in a list earned that list. A successful post had a try succeed and its image is on disk. A failed post had every one of its `retryCount` tries fail. A skipped post had image saving off or its image already on disk. |
| Download.DownloadEarned | v1.py:138-225 | The three lists `download_queue` returns hold only posts that earned their outcome, in the sense of `DrainEarned`. |
| Download.WorkerKeepsKeys | v1.py:161-162 | The worker changes a post only by filling in its URL. Id and md5 are kept. |
| Download.DrainConserves | v1.py:152-199 | Every dequeued post lands in exactly one place: a result list, the aborted posts, or the rest of the queue. |
| Download.DownloadConserves | v1.py:138-225 | `download_queue` loses no post and counts none twice. The keys in its three lists, plus the aborted and left-over posts, are the keys of the queue. |
| Download.DrainComplete | v1.py:152-199 | When no resolution raises, the queue is drained and the three lists together hold every post. |
| Download.DownloadComplete | v1.py:138-225 | When every deleted post's URL resolves, all `total_posts` posts are classified. |
| Download.ProcessSameOutcome | v1.py:169 | The worker's result depends on the disk only through whether the post's own image path exists. |
| Download.WorkerDiskLocal | v1.py:161-189 | The worker consults the disk only to skip a post whose image exists. |
| Download.DrainIdempotent | v1.py:166-189 | Take a second pass over the same queue against the disk the first pass left. It downloads nothing and leaves the disk unchanged. Every post the first pass saved or skipped is skipped. The same posts are aborted or left over. |
| Download.DownloadIdempotent | v1.py:246 | Resuming into the same folder does not download existing images again. |
| TimeFormat.Fields | v1.py:54-55 | The two `divmod`s give hours, minutes and seconds that recombine to the total. Minutes and seconds are below 60. |
| TimeFormat.Pad2 | v1.py:56 | `f'{x:02}'` is at least two characters of digits and sign, and exactly two for 0..99. A single digit gets one leading `0`. Any other value is exactly as long as its plain `str(x)`, so it is not padded: 166 hours print as `166`. |
| TimeFormat.Pad2RoundTrip | v1.py:56 | The padded spelling reads back as the number. |
| TimeFormat.PrettyRoundTrip | v1.py:53-56 | The `HH:MM:SS` display loses nothing: reading it back gives the number of seconds. |
| TimeFormat.PrettyWidth | v1.py:53-56 | Durations under 100 hours display as exactly 8 characters with `:` at positions 2 and 5. |
| Progress.Fraction | v1.py:64-65 | The fraction is undefined exactly when there are no posts, since the division raises. Otherwise it times the total is the count done, and it lies in [0, 1]. |
| Progress.Eta | v1.py:67-71 | With nothing done the ETA is zero, from the caught ZeroDivisionError. Otherwise ETA plus elapsed time, scaled by the fraction done, is the elapsed time. |
| Progress.EtaBounds | v1.py:67-71 | Before the end the ETA is non-negative, and it is zero exactly when every post is done. |
| Progress.EtaMonotone | v1.py:67-71 | At the same elapsed time, more posts done never raises the ETA. |
| Progress.CompleteAtEnd | v1.py:64-65 | When every deleted post's URL resolves, the fraction computed from the final tally is exactly 1. The status thread may stop on its flag before it draws that tally. |
| Text.JoinSplit | v1.py:239 | Joining the pieces of a split with the same separator gives back the string. |
| Text.StripSlice | v1.py:238 | `strip()` returns a slice of the string, with only whitespace before and after it and non-whitespace at both ends. |
| Text.FilterIdempotent | v1.py:242 | Filtering twice with the same test is filtering once. |
| Text.FilterAppend | v1.py:242 | Filtering a concatenation filters each part and keeps their order. |
| Inputs.Words | v1.py:238-239 | The words of the query are non-empty and contain no space. |
| Inputs.QueryWords | v1.py:238-239 | The normalised query is the words joined by single spaces. It has no leading, trailing or doubled space, and splitting it on spaces gives back exactly the words. |
| Inputs.QueryEnds | v1.py:238-239 | The normalised query is empty exactly when the stripped answer is. Otherwise it starts and ends with the same characters as the stripped answer. |
| Inputs.QueryIdempotent | v1.py:238-239 | Normalising a normalised query changes nothing. |
| Inputs.Prefix100 | v1.py:241 | `query[:100]` is the prefix of length 100 of a longer query, and the whole query otherwise. |
| Inputs.FolderTextParts | v1.py:241-242 | Before stripping, the default name is the time stamp's allowed characters in order, one space, then the query prefix's allowed characters in order. |
| Inputs.DefaultFolderAllowed | v1.py:241-242 | The default folder name holds only alphanumerics, spaces, `_` and `-`, and neither starts nor ends with whitespace. |
| Inputs.DefaultFolderShape | v1.py:242 | The default name is the filtered text with its surrounding whitespace cut off and nothing else removed. |
| Inputs.DefaultFolderVerbatim | v1.py:241-242 | A clean time stamp and a short clean query give the name `stamp + ' ' + query`. |
| Inputs.FolderDefault | v1.py:247-249 | An empty or all-whitespace answer picks the default folder. The chosen folder never has whitespace at its ends when the default does not. |
| Inputs.FolderFromAnswer | v1.py:247-249 | Any other answer is used as typed, less its leading and trailing whitespace. |

## Left out

- HTTP requests, sessions and timeouts. Listing responses and the network are inputs to the model.
- The inside of `get_deleted_post_image`: the thumbnail redirect, the page fetch and the regex. It is the `resolve` function of `Network`, returning None when it raises.
- JSON decoding. A page is modelled as a decoded array of entries. A non-empty JSON object raises on its first entry and is a request error. An empty object or `null` ends the shard like an empty array, and is not modelled separately.
- Threads. The query-fetcher pool is modelled as independent shard runs. The download pool is modelled as one sequential pass over the queue. The status thread runs outside the drain, and the order of posts within each list is the order of that pass.
- The filesystem. The disk is the set of existing image paths. Directory creation, the bytes written, and the JSON written by `json.dump` are not modelled.
- Failing file writes. A metadata write that raises, or an image write that raises after `open` created the file, is not modelled: a failed try leaves no file behind.
- Terminal output: `clear`, the progress bar drawing, percentage rounding, and the final summary printout.
- The clock. Times are given as values: `pretty_timedelta` takes whole seconds, because `round(total_seconds())` on floats is not modelled, and the ETA is computed over exact reals.
- `input()`. The answers are parameters.
- `str.isalnum`, which follows Unicode tables, is a parameter.
- The `%Y-%m-%d %H-%M-%S` time stamp is a string parameter.
- Sharding.Run: built on the atomic step, so on a malformed page the shard, `Enumeration.ShardResults` and `Enumeration.Enumerate` do not compute what `v1.py:110-132` computes. The loop as written is `Sharding.RunAsWritten`. `Sharding.RunAsWrittenAgrees` shows the two agree when no page is malformed. The difference is the finding below.
- Download.DownloadIdempotent: the second pass sees the same network answers as the first, so a post that failed fails again. A network that recovers between runs is not modelled.
- Download.DrainConserves: identifies posts by `(id, md5)`, because the worker fills in the URL of a deleted post.

## Findings

| source | as written | input that shows it | evidently intended | confidence | as-written member | corrected member |
|---|---|---|---|---|---|---|
| v1.py:118-121 | `posts.extend(...)` consumes the generator entry by entry. When entry `i` lacks `md5`, the KeyError comes after entries `0..i-1` are appended. `visited_pages` is not incremented, so the same page is requested again and those posts are appended a second time. | A shard's first page is `[p, q]`. On the first request `q` lacks `md5`; on the retry the page is whole. The shard then holds `[p, p, q]` (lemma `Sharding.PartialPageDuplicates`). | A page's posts are added once, only when the whole page converts. `Sharding.StepCollects` proves that the atomic step keeps the shard holding exactly the posts of the pages it took, malformed pages included. `Sharding.AsWrittenBreaksCollected` shows the step as written does not. | not executed | Sharding.StepAsWritten | Sharding.Step |
