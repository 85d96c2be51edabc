# ciri blacklist cache, modelled in Dafny

ciri is a Discord bot. Its image commands fetch promoted posts for some tags from
pr0gramm and post one of them. To avoid posting the same image twice in a short
time, the bot keeps a blacklist of recently posted ids. This blacklist is one global
`cache::Queue<u64>`: a `VecDeque` of ids with the oldest at the front, plus a
`HashSet` (`lookup`) kept beside it so that membership tests do not scan the deque.
The queue is bounded by the deque's allocation capacity. When the deque is full,
`push` evicts the oldest id. Only the deque is written to the cache file
`ciri.json`; the set is rebuilt after loading.

The project has four modules:

- `Prelude` (`prelude.dfy`) holds Rust's `Option`, `Result` and `u64`.
- `Cache` (`cache.dfy`) models `src/cache.rs`. The value type `QueueState` and the
  functions `Pushed`, `Cleared`, `Optimized`, `Restored` and `PushedAll` state what
  the operations do, and the lemmas state the cache's properties. The class
  `Queue` has the Rust struct's fields (`queue: seq`, `lookup: set`, plus the
  capacity `cap`). Each of its methods is proved to change those fields exactly as
  the matching function says.
- `CacheFile` (`cache_file.dfy`) models the cache file. It has the compact JSON
  text `{"queue":[...]}` that `serde_json` writes, a decoder for that text, and the
  way `src/main.rs` overwrites the file.
- `Bot` (`bot.dfy`) models the decision logic of `pr0_fetch` and the blacklist
  loading in `main`. The fetched candidates, the previous file text and the random
  draw are parameters.

Points where the code behaves differently from what one might expect:

- There is one blacklist for the whole bot (src/main.rs:43-46, 116).
- `push` does not check for duplicates: an id that is already present is
  appended again.
- The bound is the deque's allocation capacity, not a fixed 128. `reserve(128)`
  after loading only guarantees room for 128 more ids than were loaded, so the
  bound can grow with every restart (`Bot.Startup`).
- The file is written synchronously, inside `pr0_fetch`, right after each push
  (src/main.rs:328-336).
- `main` rebuilds the set (`optimize`) only when the loaded deque is non-empty.

## Model

| member | source | states |
|---|---|---|
| `Cache.Empty` | src/cache.rs:17-23 | a new queue has length 0, contains nothing, and is consistent (the set equals the deque's items, with no repeats) |
| `Cache.Pushed` | src/cache.rs:44-58 | below capacity: appends at the back, returns `None`, length + 1. At capacity: drops exactly the front (oldest) item and returns it as `Some`, appends the new item, keeps the rest in order and the length unchanged. The length never exceeds the capacity, and the pushed item is contained afterwards |
| `Cache.PushKeepsConsistent` | src/cache.rs:44-58 | pushing an item that is not contained keeps the set equal to the deque's items with no repeats, and the evicted item is then no longer contained |
| `Cache.DuplicatePushLosesItem` | src/cache.rs:49-55 | without that freshness, the set drifts from the deque: push 1 again into `[1]` (capacity 2), then push 2, and 1 is still queued but `contains(1)` is false |
| `Cache.PushedAll` | src/cache.rs:47-54 | any run of pushes keeps the length within the capacity and leaves the capacity unchanged |
| `Cache.PushedAllKeepsNewest` | src/cache.rs:47-55 | after any run of pushes, the deque holds exactly the `cap` most recent items of all that were queued (strict first-in, first-out eviction) |
| `Cache.PushedAllKeepsConsistent` | src/cache.rs:44-58 | a run of pushes of distinct items, none of them already contained, keeps the queue consistent |
| `Cache.FreshPushesFromEmpty` | src/cache.rs:44-58 | starting empty and pushing distinct items: length = min(cap, number pushed), and `contains(x)` holds exactly for the `cap` most recent items |
| `Cache.FifoExample` | src/cache.rs:47-55 | with capacity 2, pushing 1, 2, 3 leaves `[2, 3]`: 1 is no longer contained, 2 and 3 are |
| `Cache.Cleared` | src/cache.rs:65-69 | `clear` leaves length 0 and nothing contained, and keeps the capacity |
| `Cache.Optimized` | src/cache.rs:71-78 | `optimize` leaves the deque and capacity alone and makes the set exactly the deque's items, so `contains(x)` holds iff `x` is queued |
| `Cache.OptimizeIdempotent` | src/cache.rs:71-78 | optimizing twice gives the same state as optimizing once |
| `Cache.Persisted` | src/cache.rs:9-11 | what is serialised: the deque alone, since `lookup` is `#[serde(skip)]` |
| `Cache.Restored` | src/cache.rs:9-11 | a queue loaded by serde has the saved deque and contains nothing, because `lookup` is skipped |
| `Cache.RestoreThenOptimize` | src/main.rs:95-103 | saving a consistent queue, loading it (with any capacity large enough) and optimizing gives the same deque and the same `contains` answers as before |
| `Cache.Queue.constructor` | src/cache.rs:17-23 | `new()`: empty deque, empty set, and whatever capacity the allocator gives |
| `Cache.Queue.WithCapacity` | src/cache.rs:25-31 | `with_capacity(n)`: empty, with capacity at least `n` |
| `Cache.Queue.FromSaved` | src/cache.rs:6-12 | deserialising gives the saved deque, an empty set, and a capacity at least the deque's length |
| `Cache.Queue.Reserve` | src/cache.rs:33-37 | `reserve(n)`: the capacity becomes at least `len + n`, never shrinks, and stays the same if it was already large enough; the items are untouched |
| `Cache.Queue.Len` | src/cache.rs:39-42 | the deque's length, never above the capacity |
| `Cache.Queue.Contains` | src/cache.rs:60-63 | reads only the set; when the set mirrors the deque, this is membership in the deque |
| `Cache.Queue.Push` | src/cache.rs:44-58 | changes the fields and returns the evicted item exactly as `Pushed`; keeps consistency when the item was not contained |
| `Cache.Queue.Clear` | src/cache.rs:65-69 | changes the fields exactly as `Cleared` |
| `Cache.Queue.Optimize` | src/cache.rs:71-78 | the loop over the deque leaves the fields exactly as `Optimized` |
| `CacheFile.Encode` | src/main.rs:331 | the text `to_writer` produces for the blacklist: `{"queue":[` then the ids in decimal, separated by commas, then `]}` |
| `CacheFile.Decode` | src/main.rs:95-98 | reading the file back: the ids of a compact `{"queue":[...]}` text, or failure on any other text, on trailing characters or on an id beyond `u64` |
| `CacheFile.DecodeEncode` | src/main.rs:95-98 | reading the file text back gives exactly the deque that was serialised (round trip) |
| `CacheFile.StrayCharacterRejected` | src/main.rs:95-98 | a list holding any character other than digits and commas does not decode |
| `CacheFile.WriteInPlace` | src/main.rs:329-331 | the file as written without truncation: the new text followed by whatever old text lies beyond its length |
| `CacheFile.ShorterWriteUnreadable` | src/main.rs:329-331 | when the file holds an earlier serialisation that is longer than the new one, the file as written no longer decodes (with the compact decoder `Decode`; trailing whitespace, which `serde_json` would accept, cannot occur in files the program writes) |
| `CacheFile.Saved` | src/main.rs:329-331 | the file as written with truncation holds exactly the new text, whatever it held before, and decodes to the saved deque |
| `Bot.FileIsVideo` | src/main.rs:291-293 | `file_is_video(f)` holds exactly when `f` is some stem followed by `.webm` or by `.mp4` |
| `Bot.PostUrl` | src/main.rs:343-351 | the posted URL is a host followed by the image path. The host is `https://vid.pr0gramm.com/` exactly for videos and `https://img.pr0gramm.com/` exactly for everything else |
| `Bot.PostUrlInjective` | src/main.rs:343-351 | different image paths give different URLs |
| `Bot.Unlisted` | src/main.rs:311-315 | the filter: every remaining candidate was fetched and its id is not in the blacklist's set |
| `Bot.UnlistedCounts` | src/main.rs:311-315 | the filter keeps each candidate whose id is not blacklisted, as often as it occurs, and drops every blacklisted one |
| `Bot.UnlistedKeepsOrder` | src/main.rs:311-315 | the remaining candidates keep their relative order (an increasing embedding into the fetched list) |
| `Bot.Retain` | src/main.rs:311-315 | the `retain` loop that asks `contains` for each candidate leaves exactly the filtered list |
| `Bot.Score` | src/main.rs:317 | the sort key `up - down` |
| `Bot.InsertByScore` | src/main.rs:317 | inserting into a list sorted by `up - down` keeps it sorted and adds exactly that item |
| `Bot.SortByScore` | src/main.rs:317 | the sorted candidates are a permutation of the filtered ones, in non-decreasing `up - down` order |
| `Bot.Choose` | src/main.rs:321 | fails with "no image found" exactly when no candidate remains; otherwise returns a candidate, and every candidate can be drawn |
| `Bot.Pr0Fetch` | src/main.rs:307-338 | fails exactly when every fetched id is blacklisted. On failure: "no image found", with the blacklist and file untouched. On success: the chosen item was fetched and was not blacklisted before, now it is; the blacklist changed by one `push`; the URL is `PostUrl` of its path; the file decodes to the new deque; consistency is kept |
| `Bot.LoadedQueue` | src/main.rs:95-98 | a file holding the saved form of a deque loads back as exactly that deque (the save/load round trip at start-up); a missing or unreadable file gives the empty deque |
| `Bot.Startup` | src/main.rs:95-107 | after start-up the deque is what was loaded, the set mirrors it, and the capacity leaves room for at least 128 more ids |
| `Bot.EvictionCorruptsCacheFile` | src/main.rs:328-331 | a full blacklist `[10, 11]` (capacity 2) that takes id 9 becomes `[11, 9]`; written in place over `{"queue":[10,11]}`, the file no longer loads |

## Findings

| source | as written | input that shows it | evidently intended | confidence | as-written member | corrected member |
|---|---|---|---|---|---|---|
| src/main.rs:329-331 | The cache file is opened with `write(true).create(true)` and no `truncate(true)`, so a shorter serialisation leaves the old file's tail behind it. `serde_json` refuses such trailing text at the next start-up, and the blacklist then restarts empty. | A full blacklist `[10, 11]` evicts 10 and takes 9. The file `{"queue":[10,11]}` becomes `{"queue":[11,9]}}`. With capacity 128 the same happens whenever the evicted id has more digits than the new one. | Truncate on open, so that the file holds exactly the new serialisation. | high; not executed | `CacheFile.ShorterWriteUnreadable` | `CacheFile.Saved` |

## Left out

- The Discord client is not modelled: logging setup, event handlers, command registration, `say` and `reply.edit`, and the `args[0]` lookup (src/main.rs:54-183, 295, 340-368). These are I/O and library calls.
- The HTTP request and the parsing of its JSON response are not modelled (src/main.rs:276-305); the candidate list is an input. `thumb` and `created` are never read, so `Image` omits them.
- The random generator is not modelled: `Choose` takes the draw `roll` as an input and picks index `roll mod n`.
- `ping` and `int2float_concat` are left out (src/main.rs:199-247). They involve shard-manager locking and floating point.
- Locking is left out and the model is sequential. `pr0_fetch` releases the typemap lock between the filter (src/main.rs:308) and the push (src/main.rs:325). Two commands running at once could therefore push the same id, which breaks the freshness that `Cache.PushKeepsConsistent` needs.
- The `None` branches of `data.get::<Pr0ListKey>()` are left out (src/main.rs:309, 326). `main` always inserts the blacklist (src/main.rs:116), so these branches cannot run.
- The exact capacity growth of `VecDeque` is left out because the allocator decides it. `cap` is abstract: chosen freely by `new` and by deserialisation (at least the length), and bounded below by `reserve`.
- Bot.Pr0Fetch: assumes that opening and writing the cache file succeed. In the source, a failure to open the file is ignored without a log line (src/main.rs:329), and a failure of `serde_json::to_writer` is logged as a warning (src/main.rs:331-335); because it writes straight to the unbuffered file, part of the new text may already be in the file when that happens. The model also uses the corrected, truncating write; the as-written write is modelled by `CacheFile.WriteInPlace`.
- Cache.Pushed and Cache.Queue.Push: require a positive capacity. With `len == capacity == 0`, `pop_front().unwrap()` panics (src/cache.rs:49); a fresh `Queue::new()` may have capacity 0. The model does not capture that panic. The program never reaches it, because `main` reserves 128 slots before any push (src/main.rs:100).
- Bot.Score: `up - down` is computed on unbounded integers. The source subtracts `i64` vote counts, which cannot overflow for real vote numbers.
- Bot.SortByScore: fixes one sorted order (insertion by score). `sort_unstable_by` may order equal scores differently. Every order it can produce is likewise a sorted permutation, so the contract is the same.
- CacheFile.Decode: reads only the compact form that `serde_json::to_writer` produces. It does not accept whitespace, which `serde_json` does, and it accepts leading zeros, which `serde_json` does not. Both reject trailing text.
- The commented-out `Display` implementation (src/cache.rs:80-93) and the commented-out embed reply (src/main.rs:355-367) are not code and are not modelled.
