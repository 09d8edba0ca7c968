# practice_data_structures in Dafny

A Dafny model of the practice exercises in rodonguyen/practice_data_structures.
The exercises are small Python programs with no connection to one another.
They fall into six families, and each family is one or more Dafny modules:

- **Interval concurrency counters.** `max_concurrent_streams` (a difference
  array over half-open intervals) and the two older solutions of old/test.py
  (a per-second array over one day and a sorted sweep over start/end
  events): `ConcurrentStreams`, `StreamSweeps`, with the shared meaning in
  `Intervals`.
- **Key/value and routing state machines.**
  - The flat `Router`: `FlatRouter`.
  - The segment trie `TrieRouter`: `TrieRouter`.
  - The LRU cache on a doubly linked list: `LruCache`.
  - The sliding-log rate limiter and the counter limiter's window slide:
    `RateLimiter`.
  - `ChemicalMachine`: `ChemicalMachine`.
- **Classic containers.**
  - The singly and doubly linked lists with stored minimum and maximum:
    `LinkedList`, `DoublyLinkedList`.
  - The search tree and its mirrored variant: `BinaryTree`, `MirroredBst`.
  - Adjacency-list graphs: `Graph`.
  - Union-find by relabelling: `UnionFind`.
  - The two binary-search boundaries: `BinarySearch`.
- **Number theory and digits.**
  - The Euler sieve: `Sieve`, on the facts in `Primes`.
  - `distinctPrimeFactors` and `closestPrimes`: `WeeklyContest`.
  - `minimumPartition`: `MinimumPartition`.
  - `addTwoNumbers`: `AddTwoNumbers`.
- **Graph and tree algorithms.**
  - BFS and DFS with parent maps: `Bfs`, `Dfs`.
  - `findRedundantConnection`: `RedundantConnection`.
  - `longestPath`: `LongestPath`.
  - `getNeuronStrengths`: `NeuronStrengths`, with its meaning on a forest
    in `NeuronBest` and the demo checks in
    `NeuronExamples`.
  - `smallestEquivalentString`: `EquivalentString`.
  - The red/blue `minCost`: `RedBlue`.
- **Counting and grouping.**
  - Anagram grouping: `Anagrams`.
  - The quiz analyser: `Quiz`.
  - "completed by exactly one learner": `CompletedByOne`.
  - The easiest answer: `EasiestAnswer`.
  - The most popular next course: `PopularNext`.
  - The shared behaviour of Python's insertion-ordered dicts, counters and
    stable sort is in `Counting`, `Grouping` and `Sorting`.

Conventions used throughout:

- A Python exception becomes the `Err` of a `Result`, and `None` becomes an
  `Option` (module `Results`).
- Where Python mutates an object and then raises, the model returns the
  mutated state together with the error (in the LRU cache, the `Raised`
  value inside the `Err`).
- A clock reading is an explicit integer `now`, and handlers are opaque
  numbers.
- Python dicts keep their keys in insertion order, and the model keeps that
  order wherever a result depends on it.
- Linked nodes are modelled as sequences or datatypes. The exceptions are
  the LRU cache and the `prev` links of the doubly linked list: there the
  aliasing is the behaviour, so nodes live in a heap map with explicit node
  ids.

Each operation is stated against a partner: an independent reference
definition, an invariant it keeps, or an inverse. The defects the model
exposes are listed under "Findings". Each one has a lemma about the code as
written and a corrected definition with its intended property proved.

## Model

| member | source | states |
|---|---|---|
| ConcurrentStreams.MaxConcurrentStreams | concurrent_streams.py:13-46 | for starts inside the array and non-negative ends, the result is the largest number of half-open streams `[start, end)` live at one second of 0..100000, and 0 for no streams or a negative count |
| ConcurrentStreams.LoadFront | concurrent_streams.py:33-36 | the running count splits into the first stream's contribution plus the rest's |
| ConcurrentStreams.Example1Peak | test_concurrent_streams.py:12-16 | two overlapping streams peak at 2 |
| ConcurrentStreams.Example2Peak | test_concurrent_streams.py:19-25 | the second test input peaks at 3 |
| ConcurrentStreams.Example3Peak | test_concurrent_streams.py:28-38 | the third test input peaks at 5 |
| ConcurrentStreams.Example4Peak | test_concurrent_streams.py:41-49 | the fourth test input peaks at 4 |
| ConcurrentStreams.NestedPeak | test_concurrent_streams.py:84-89 | nested intervals peak at 3 |
| ConcurrentStreams.ZeroDurationPeak | test_concurrent_streams.py:58 | a stream `[1000, 1000)` is never live, so the peak is 0 |
| ConcurrentStreams.AdjacentPeak | test_concurrent_streams.py:61-65 | a stream ending when the next starts does not overlap it: peak 1 |
| ConcurrentStreams.BoundaryPeak | test_concurrent_streams.py:92-96 | two streams reaching the last second both count: peak 2 |
| ConcurrentStreams.DeltaSnoc | concurrent_streams.py:33-36 | one more stream adds +1 at its start and -1 at its end to the difference array |
| Intervals.LoadIsCovering | concurrent_streams.py:17-20 | with `start <= end`, the running sum of +1 at starts and -1 at ends at second `t` is the number of streams with `start <= t < end` |
| Intervals.LoadBounds | concurrent_streams.py:39-44 | with `start <= end` the count at any second lies between 0 and the number of streams |
| Intervals.CoveringAtMost | concurrent_streams.py:39-44 | no more streams cover a second than there are streams |
| Intervals.LoadStep | concurrent_streams.py:42-44 | moving from one second to the next adds exactly that second's difference-array entry |
| Intervals.LoadBeforeZero | concurrent_streams.py:20 | with non-negative times nothing is live before second 0 |
| Intervals.LoadAfterEnds | old/test.py:10-14 | nothing is live from the last end time on, so a scan may stop there |
| Intervals.LoadSnoc | concurrent_streams.py:33-36 | appending a stream adds only its own contribution to the count |
| Intervals.LoadFromFrontSame | concurrent_streams.py:33-36 | accumulating the streams from the front gives the same count as from the back |
| Intervals.SumOfConcat | concurrent_streams.py:33-36 | a sum over a concatenation is the sum of the parts |
| Intervals.SumOfPermutation | concurrent_streams.py:33-36 | reordering a sequence keeps any sum over it |
| Intervals.LoadPermutation | concurrent_streams.py:33-36 | the order of the input list does not change the count at any second |
| Intervals.PeakPermutation | concurrent_streams.py:33-44 | permuting the input keeps the peak, in both directions |
| Intervals.PeakUnique | concurrent_streams.py:39-44 | the peak over a range is one value |
| Intervals.PeakEverUnique | old/test.py:35-40 | the peak over all time is one value |
| Intervals.PeakAtMostCount | concurrent_streams.py:39-44 | with `start <= end` the peak lies between 0 and the number of streams |
| Intervals.PeakRangeIsPeakEver | old/test.py:14-19 | for streams within `[0, hi]`, the peak over seconds 0..hi is the peak over all time, in both directions |
| StreamSweeps.LastEnd | old/test.py:3-10 | `max_time` is 0 or some stream's end, and no end exceeds it |
| StreamSweeps.DeltaSnoc | old/test.py:5-9 | one more stream adds +1 at its start and -1 at its end to the day array |
| StreamSweeps.MaxConcurrentDay | old/test.py:1-21 | with both times inside the day, the result is the peak count over seconds 0..max_time; skipping zero entries changes nothing |
| StreamSweeps.DayTally | old/test.py:2-10 | for streams inside the day, the first loop leaves at each second the number of streams starting there minus those ending there, and `max_time` the latest end or 0 |
| StreamSweeps.EventLeIsOrder | old/test.py:31 | Python's `(time, delta)` tuple order is a total, antisymmetric order |
| StreamSweeps.Events | old/test.py:26-29 | one start record and one end record per stream |
| StreamSweeps.EventsUpTo | old/test.py:27-33 | the deltas of the events at or before `t` add up to the count at `t` |
| StreamSweeps.PrefixBounded | old/test.py:31-40 | in `(time, delta)` order every running sum is at most the count at some instant, or at most 0 |
| StreamSweeps.InstantIsPrefix | old/test.py:31-40 | in `(time, delta)` order the count at every instant is some running sum |
| StreamSweeps.SameUpToPrefix | old/test.py:37-40 | when every event is at or before `t`, the count at `t` is the total |
| StreamSweeps.LaterNonNegative | old/test.py:31-33 | when every event sorts at or after a start record at time `t`, the deltas up to `t` add up to at least 0 |
| StreamSweeps.SortedEvents | old/test.py:31 | the sorted records are ordered by `(time, delta)` and are a permutation of the records |
| StreamSweeps.MaxConcurrentSweep | old/test.py:24-42 | the result is the peak count over all time, 0 when it is negative; ends sort before starts at equal times |
| StreamSweeps.SolutionsAgree | old/test.py:1-42 | on streams inside one day with `start <= end` the two solutions return the same value |
| StreamSweeps.DemoPeak | old/test.py:48-60 | the demonstration input peaks at 3 |
| FlatRouter.Set | xero2/route.py:4-16 | fails with "Route is invalid" exactly for an empty route or one not starting with "/"; otherwise binds the route to the response, adds only that route and keeps every other binding |
| FlatRouter.Get | xero2/route.py:18-21 | answers the bound response exactly when the route is bound, and "Route not found" otherwise |
| FlatRouter.SetThenGet | xero2/route.py:12-21 | `get` after a successful `set` returns the response just set; a second `set` overwrites it; other routes answer as before |
| FlatRouter.RouteExamples | xero2/route_test.py:7-30 | "" and "badroute" are invalid and "/foo" valid; setting "badroute" raises "Route is invalid"; "/foo" reads back "bar"; an unknown route raises "Route not found" |
| TrieRouter.Split | xero/routing.py:57 | `str.split("/")` yields at least one piece, none holding a slash |
| TrieRouter.JoinSplit | xero/routing.py:57 | joining the pieces of a split with "/" gives back the string |
| TrieRouter.SplitPlain | xero/routing.py:57 | a string without slashes splits into itself |
| TrieRouter.SplitCons | xero/routing.py:57 | splitting `a + "/" + b` yields `a` followed by the pieces of `b` |
| TrieRouter.SplitJoin | xero/routing.py:132 | splitting undoes joining when no part holds a slash |
| TrieRouter.Normalize | xero/routing.py:53-54 | the path starts with "/" afterwards, and a path that already did is unchanged |
| TrieRouter.SegmentsJoin | xero/routing.py:57 | the segments of "/" joined onto parts are those parts |
| TrieRouter.SegmentsNormalized | xero/routing.py:53-57 | a path without its leading slash has the same segments as with it, for both `add_route` and `find_route` |
| TrieRouter.WithChild | xero/routing.py:71-86 | storing a child changes only that child entry of the node |
| TrieRouter.AddRoute | xero/routing.py:41-90 | `add_route` raises exactly when a `:name` segment meets a node holding another parameter name; otherwise `route_count` grows by one and `find_route` on the same path returns the new handler; the trie keeps its shape either way |
| TrieRouter.AddSegments | xero/routing.py:56-90 | the same once the path is split into segments |
| TrieRouter.FirstParamKey | xero/routing.py:122-125 | the key found starts with ":" and is a child key; no key starts with ":" when none is found |
| TrieRouter.WithChildWellFormed | xero/routing.py:71-86 | storing a well-formed child keeps the node well formed |
| TrieRouter.InsertWellFormed | xero/routing.py:59-89 | every trie `add_route` builds lists each child key once, and a node flagged wildcard has a "*" child, also after a conflict |
| TrieRouter.WalkNeverFails | xero/routing.py:130-134 | on such a trie the lookup of the "*" child at line 134 always succeeds, so `find_route` never raises |
| TrieRouter.WalkShift | xero/routing.py:110-112 | the walk from segment `i` depends only on the segments from `i` on |
| TrieRouter.AddThenFind | xero/routing.py:59-125 | registering a compatible path never conflicts, and walking the same segments afterwards, `:name` and `*` included, reaches the handler just registered whatever was registered before |
| TrieRouter.AddRouteThenFind | xero/routing.py:41-143 | after `add_route(p, h)` on a compatible path, `find_route(p)` returns `h` with no parameters and the count has grown by one |
| TrieRouter.InsertConflict | xero/routing.py:63-69 | registration raises exactly on a path one of whose `:name` segments meets another parameter name already set at that node |
| TrieRouter.LiteralCompatible | xero/routing.py:82-86 | a path of plain segments never conflicts |
| TrieRouter.InsertFacts | xero/routing.py:56-90 | registration raises exactly on an incompatible path, otherwise makes the path find the handler, and keeps the trie's shape |
| TrieRouter.AddKeepsRoutes | xero/routing.py:59-125 | registering a route leaves the lookup of every other route registered before (a path spelled out by child keys, empty segments aside) as it was |
| TrieRouter.Descend | xero/routing.py:59-86 | the node the registration of a path prefix reaches, existing or fresh |
| TrieRouter.CompatibleAppend | xero/routing.py:59-86 | a path registers without conflict exactly when its prefix does and the rest does from the node the prefix reaches |
| TrieRouter.WalkPrefix | xero/routing.py:110-117 | a request repeating a registered prefix walks the child keys that registration created down to the node where the rest was registered |
| TrieRouter.FirstParamOnly | xero/routing.py:122-125 | when every key starting with ":" is the same key, the parameter-child search finds it |
| TrieRouter.ParamStep | xero/routing.py:119-125 | at a node holding `:x`, a segment that is no child key binds `x` to it and continues through the `:x` child |
| TrieRouter.ParamBinds | xero/routing.py:119-125 | after registering `pre + [":x"] + post`, the request `pre + [v] + post` finds that handler with exactly `x` bound to `v`, for every compatible trie, every real name `x` and every non-empty `v` that is no child key at that node |
| TrieRouter.WildcardCaptures | xero/routing.py:130-135 | after registering `pre + ["*"]`, the request `pre + rest` finds that handler with "*" bound to `rest` joined by "/", whenever the first segment of `rest` is non-empty, no child key and the node has no parameter name |
| TrieRouter.ConflictingParameter | xero/routing.py:64-69 | `/users/:id` then `/users/:name` raises the conflict "id" vs "name", and the failed registration is not counted |
| TrieRouter.ExactBeforeParameter | xero/routing.py:114-125 | with `/users/:id` and `/users/me` registered, `/users/me` reaches the literal route and `/users/7` binds `id` to "7" |
| TrieRouter.NonEmpty | xero/routing.py:60-61 | no empty segment remains |
| TrieRouter.InsertSkipsEmpty | xero/routing.py:60-61 | registering segments with empty ones gives the same trie and outcome as without them |
| TrieRouter.DemoRouterShape | xero/routing.py:203-214 | the eight demonstration routes register without conflict, the count is 8, and the root holds the home handler with the children users, posts, api, search and files |
| TrieRouter.DemoStaticShape | xero/routing.py:203-206 | the four static routes register into a root with three children |
| TrieRouter.DemoUsersStep | xero/routing.py:209 | `/users/:id` sets the parameter name `id` on the users node |
| TrieRouter.DemoPostsStep | xero/routing.py:210 | `/posts/:id` sets `id` on the posts node |
| TrieRouter.DemoSearchStep | xero/routing.py:211 | `/search/:query` adds a search node with parameter name `query` |
| TrieRouter.DemoTrieExtends | xero/routing.py:214 | the demonstration trie is the previous one with the files node added |
| TrieRouter.DemoFilesStep | xero/routing.py:214 | `/files/*` adds a files node flagged wildcard with a "*" child |
| TrieRouter.DemoHome | xero/routing.py:245 | "/" reaches the home handler |
| TrieRouter.DemoUsers | xero/routing.py:246 | "/users" reaches the users handler |
| TrieRouter.DemoUserDetail | xero/routing.py:250 | "/users/123" reaches the user detail handler with `id` bound to "123" |
| TrieRouter.DemoFiles | xero/routing.py:256 | "/files/images/photo.jpg" reaches the files handler with "*" bound to "images/photo.jpg" |
| TrieRouter.DemoTrailing | xero/routing.py:260 | "/users/" resolves like "/users" |
| TrieRouter.DemoUnknown | xero/routing.py:261 | "/nonexistent" matches nothing |
| TrieRouter.DemoTooDeep | xero/routing.py:262 | "/users/123/posts" matches nothing |
| RateLimiter.Prune | xero/ratelimiter.py:21-22 | pruning never lengthens the log |
| RateLimiter.PruneSuffix | xero/ratelimiter.py:21-22 | pruning drops a prefix: every dropped time is at most `now - window_size`, and the oldest kept one is later |
| RateLimiter.PruneKeepsWindow | xero/ratelimiter.py:20-22 | on an ordered log, every kept time lies inside the window |
| RateLimiter.PruneKeepsOrder | xero/ratelimiter.py:21-22 | pruning keeps an ordered log ordered and no later than the clock |
| RateLimiter.IsAllowed | xero/ratelimiter.py:17-30 | a request is admitted exactly when the pruned log holds fewer than `max_requests` times; an admission appends `now`, a refusal keeps only the pruning; an admitted log never exceeds `max_requests` |
| RateLimiter.OrderedSuffix | xero/ratelimiter.py:21-22 | a suffix of an ordered log is ordered |
| RateLimiter.OrderedSnoc | xero/ratelimiter.py:26 | appending a time no earlier than the log keeps it ordered |
| RateLimiter.IsAllowedKeepsInvariant | xero/ratelimiter.py:17-30 | with a clock that never runs backwards, one call keeps the log ordered oldest first, no later than the clock and within `max_requests` |
| RateLimiter.AdmitKeepsInvariant | xero/ratelimiter.py:25-30 | the decision after pruning keeps that invariant |
| RateLimiter.Run | xero/ratelimiter.py:17-30 | a run of calls gives one answer per call |
| RateLimiter.RunKeepsInvariant | xero/ratelimiter.py:17-30 | over any run at non-decreasing times the log stays ordered and within `max_requests`; the bound on the answers themselves is RateLimiter.AdmitsAtMostMax |
| RateLimiter.RunStep | xero/ratelimiter.py:17-30 | a run is its first call followed by the rest from the new log |
| RateLimiter.RunSnoc | xero/ratelimiter.py:17-30 | a run with one more call is the shorter run followed by that call on the log it leaves |
| RateLimiter.PruneTwice | xero/ratelimiter.py:21-22 | pruning at a cutoff and then at a later one is pruning at the later one |
| RateLimiter.PruneSnoc | xero/ratelimiter.py:21-26 | a time appended no earlier than the log survives a later pruning exactly when it is later than the cutoff |
| RateLimiter.WithinPrefix | xero/ratelimiter.py:17-30 | the count of admitted calls among the first `k` depends on those calls only |
| RateLimiter.WithinMonotone | xero/ratelimiter.py:21 | a later window start counts no more admitted calls |
| RateLimiter.RunMatchesWindow | xero/ratelimiter.py:17-30 | from a fresh limiter at non-decreasing times, a call is admitted exactly when fewer than `max_requests` earlier calls were admitted inside the window ending at it, and the log holds exactly the admitted calls of the current window |
| RateLimiter.WindowStep | xero/ratelimiter.py:17-30 | one more call keeps both halves of that characterisation |
| RateLimiter.AdmitStep | xero/ratelimiter.py:25-30 | the answers stay characterised by the window counts after one more call |
| RateLimiter.AdmitOld | xero/ratelimiter.py:17-30 | an earlier call keeps its answer and its window count |
| RateLimiter.AdmitNew | xero/ratelimiter.py:21-27 | the new call is admitted exactly when its window holds fewer than `max_requests` admitted calls |
| RateLimiter.LogStep | xero/ratelimiter.py:21-26 | after one more call the log still holds exactly the admitted calls past any cutoff from the new window start on |
| RateLimiter.WindowCap | xero/ratelimiter.py:17-30 | among the first `m` calls, those admitted inside a window ending no earlier than the last of them number at most `max_requests` |
| RateLimiter.AdmitsAtMostMax | xero/ratelimiter.py:5-30 | at a clock that never runs backwards, no window `(t - window_size, t]` ever holds more than `max_requests` admitted calls |
| RateLimiter.BackwardsClockOverAdmits | xero/ratelimiter.py:17-30 | when the clock steps back, calls at 100, 105, 200, 101 with 2 per 10 are all admitted although three lie in (95, 105] |
| RateLimiter.DefaultLimiterFills | xero/ratelimiter.py:11-13 | the default limiter (4 requests per 1 unit) admits four calls at time 10 |
| RateLimiter.DefaultLimiterRefills | xero/ratelimiter.py:21-30 | the full limiter refuses a fifth call at time 10 and admits one at time 11 into a pruned log |
| RateLimiter.DefaultLimiterTail | xero/ratelimiter.py:21-30 | from the full log: refused at 10, admitted at 11 |
| RateLimiter.DefaultLimiterMiddle | xero/ratelimiter.py:21-30 | from two requests at 10: two more pass, one is refused, one at 11 passes |
| RateLimiter.DefaultLimiterExample | xero/ratelimiter.py:11-30 | calls at 10, 10, 10, 10, 10, 11 answer true, true, true, true, false, true |
| RateLimiter.Slide | xero/ratelimiter.py:80-95 | within one window nothing changes; after at least one window the current count moves to the last one and resets, after two both reset, and the window starts at `now` |
| RateLimiter.SlideIdempotent | xero/ratelimiter.py:80-95 | sliding twice at the same instant is sliding once |
| RateLimiter.SlideCarriesCurrent | xero/ratelimiter.py:83-95 | a slide keeps both counts non-negative and carries no more than the current window counted |
| ChemicalMachine.Add | old/leetcoding01.py:14-15 | the chemical is appended and the contents before it are kept |
| ChemicalMachine.ApplyHeat | old/leetcoding01.py:17-38 | more than two chemicals become ["UNKNOWN"], an empty machine stays empty, otherwise one or two chemicals result |
| ChemicalMachine.HeatMatchesTable | old/leetcoding01.py:24-38 | heating two or one chemicals agrees with the reaction table written position by position: GREEN+GREEN gives ORANGE, GREEN+YELLOW either way gives BROWN, ORANGE gives RED, RED, BROWN gives MAGENTA, anything else UNKNOWN |
| ChemicalMachine.HeatIgnoresOrder | old/leetcoding01.py:23-38 | heating depends only on which chemicals are inside, not on their order |
| ChemicalMachine.HeatOrangeTwice | old/leetcoding01.py:32-34 | ORANGE heated gives RED, RED, which heated again gives UNKNOWN |
| ChemicalMachine.UnknownIsStable | old/leetcoding01.py:32-38 | heating ["UNKNOWN"] leaves it |
| ChemicalMachine.EmptyMachine | old/leetcoding01.py:40-43 | hands back the exact contents and leaves the machine empty |
| ChemicalMachine.AddAll | old/leetcoding01.py:14-15 | adding a run grows the contents by its length |
| ChemicalMachine.AddAllThenEmpty | old/leetcoding01.py:14-43 | adding a run and emptying hands the run back after the old contents, in order |
| ChemicalMachine.DemoRun | old/leetcoding01.py:46-57 | GREEN and YELLOW heated give BROWN; then RED and YELLOW give UNKNOWN and the machine ends empty |
| LruCache.Remove | xero/lru_cache.py:53-56 | `_remove` keeps every pointer naming an allocated node and changes no key or value; it raises `AttributeError` exactly when the node lacks a neighbour, and a missing right neighbour raises only after the left neighbour's `next` has been cleared |
| LruCache.Insert | xero/lru_cache.py:58-62 | `_insert` keeps every pointer naming an allocated node and changes no key or value; it raises `AttributeError`, before any write, exactly when the right sentinel has no `prev` |
| LruCache.ClassState | xero/lru_cache.py:16-19 | the class body allocates the two sentinels and an empty dictionary |
| LruCache.NewCache | xero/lru_cache.py:21-24 | `__init__` links the shared sentinels to each other, so the list is empty, and keeps the shared dictionary as it was |
| LruCache.Get | xero/lru_cache.py:26-34 | `get` keeps the dictionary and every key and value; it can raise only for a present key, and then leaves the dictionary as it was and every pointer naming an allocated node |
| LruCache.AtHeap | xero/lru_cache.py:30-32 | a raise inside `_remove` or `_insert` leaves the cache with the heap writes made so far and the dictionary untouched |
| LruCache.GetSpec | xero/lru_cache.py:26-34 | on a consistent cache: a missing key answers -1 and changes nothing; a present key answers its value and moves its node to the most-recently-used end, and the key order becomes the old one with that key moved to the back |
| LruCache.GetPresent | xero/lru_cache.py:30-34 | `get` of a present key answers its node's value and moves that node to the back |
| LruCache.RemoveEncodes | xero/lru_cache.py:53-56 | unlinking the `i`-th listed node leaves the others linked in order |
| LruCache.InsertEncodes | xero/lru_cache.py:58-62 | linking an unlisted node puts it at the most-recently-used end |
| LruCache.MoveToEnd | xero/lru_cache.py:53-62 | `_remove` then `_insert` of a listed node moves it to the right end and keeps the others in their order |
| LruCache.Moved | xero/lru_cache.py:53-62 | the heap after moving the `i`-th node to the back lists the nodes in that order and keeps every payload |
| LruCache.MovedIsConsistent | xero/lru_cache.py:31-32 | moving a node to the back keeps a consistent cache consistent |
| LruCache.MovedKeys | xero/lru_cache.py:31-32 | moving a node to the back moves its key to the back of the key order |
| LruCache.EncodesDistinct | xero/lru_cache.py:53-62 | a linked list from sentinel to sentinel never holds a node twice |
| LruCache.EncodesNoDups | xero/lru_cache.py:53-62 | the listed nodes are distinct |
| LruCache.WithoutMembers | xero/lru_cache.py:53-56 | without position `i`, exactly the other nodes are listed |
| LruCache.Keys | xero/lru_cache.py:8-11 | the key order reads each listed node's key, position by position |
| LruCache.KeysWithout | xero/lru_cache.py:31-32 | listing node `i` last reads the keys with key `i` moved to the back |
| LruCache.ToBack | xero/lru_cache.py:31-32 | moving an element to the back keeps the length and puts it last |
| LruCache.KeysSamePayload | xero/lru_cache.py:53-62 | relinking without changing keys keeps the key order of the same nodes |
| LruCache.ConsistentRelinked | xero/lru_cache.py:53-62 | a relinked state with the same payloads, dictionary and node set is consistent |
| LruCache.EncodesSameLinks | xero/lru_cache.py:39 | overwriting a payload keeps the list |
| LruCache.CacheSameKeys | xero/lru_cache.py:39 | overwriting a value keeps the dictionary naming the nodes holding each key |
| LruCache.LinkedSameLinks | xero/lru_cache.py:39 | overwriting a payload keeps every pointer valid |
| LruCache.AllocatedSameShape | xero/lru_cache.py:39 | overwriting a payload keeps the structural invariant |
| LruCache.SetValueShape | xero/lru_cache.py:39 | overwriting one node's value keeps every node, pointer and key |
| LruCache.ConsistentSetValue | xero/lru_cache.py:39 | overwriting a listed node's value keeps the cache consistent |
| LruCache.SamePayloadTrans | xero/lru_cache.py:39-41 | payload agreement composes across steps |
| LruCache.PutPresent | xero/lru_cache.py:37-42 | `put` of a present key keeps the structural invariant, the dictionary and the capacity, so it never evicts; if it raises, the new value has already been written |
| LruCache.PutPresentSpec | xero/lru_cache.py:37-42 | on a consistent cache, `put` of a present key succeeds, the key then holds the new value and is most recently used, and every other key keeps its value |
| LruCache.PutPresentKeys | xero/lru_cache.py:37-42 | `put` of a present key moves that key to the back of the key order, the others keeping their relative order |
| LruCache.Overwritten | xero/lru_cache.py:39 | overwriting the value of the key's node keeps the cache consistent and every key in place |
| LruCache.PutPresentMoves | xero/lru_cache.py:39-41 | `put` of a present key is the value overwrite followed by the move to the back |
| LruCache.ValuesAfterSet | xero/lru_cache.py:39 | after the overwrite the key answers the new value and every other key its old one |
| LruCache.PutAbsent | xero/lru_cache.py:43-51 | `put` of a new key keeps the structural invariant and the capacity, and, from a dictionary within the capacity, leaves at most `capacity` keys; if it raises, the new key is already recorded against its freshly allocated node |
| LruCache.ConsistentAllocate | xero/lru_cache.py:44-46 | the new node is fresh; once linked and recorded, the cache is consistent with the node appended to the list |
| LruCache.AllocateEncodes | xero/lru_cache.py:45 | allocating the fresh node leaves the listed nodes as they were |
| LruCache.AllocateLinked | xero/lru_cache.py:45-46 | a fresh node linked at the back and recorded under its key gives a consistent cache |
| LruCache.ValuesKept | xero/lru_cache.py:45-46 | allocating and linking a new node keeps every other key's value |
| LruCache.KeysAfterAllocate | xero/lru_cache.py:45-46 | the key order gains the new key at the back |
| LruCache.PutAbsentFits | xero/lru_cache.py:43-49 | a new key that fits is linked in and recorded, with no eviction |
| LruCache.PutAbsentSpec | xero/lru_cache.py:43-49 | `put` of a new key that fits appends the key as most recently used with its value; every other key keeps its value |
| LruCache.PutAbsentOverflow | xero/lru_cache.py:43-51 | `put` of a new key beyond the capacity links the new node and then runs the eviction step on the grown dictionary |
| LruCache.NewValueStored | xero/lru_cache.py:45 | the node a `put` of a new key allocates holds the key and value given |
| LruCache.EvictAsWritten | xero/lru_cache.py:49-51 | the eviction as written removes one dictionary entry and keeps the rest; if it raises, the dictionary is unchanged and the list keeps whatever unlinking was done |
| LruCache.EvictAsWrittenSpec | xero/lru_cache.py:49-51 | as written, eviction unlinks the oldest node but pops the second node's key: the dictionary still maps the oldest key to a node no longer listed and has lost the key of a listed node |
| LruCache.PutEvictsWrongKey | xero/lru_cache.py:36-51 | `put` of a new key into a full consistent cache, as written: the list drops its oldest node, the dictionary keeps that node's key and no longer holds the key of the node now least recently used |
| LruCache.EvictOldest | xero/lru_cache.py:49-51 | the corrected eviction removes one dictionary entry and keeps the rest; if it raises, the dictionary is unchanged and the list keeps whatever unlinking was done |
| LruCache.EvictOldestSpec | xero/lru_cache.py:49-51 | the corrected eviction unlinks the oldest node and pops that node's own key, keeping the cache consistent |
| LruCache.ListedAfterPop | xero/lru_cache.py:49-51 | popping the oldest node's key keeps every other listed node recorded under its key |
| LruCache.PutFixedEvicts | xero/lru_cache.py:43-51 | with the corrected eviction, `put` of a new key into a full cache stays consistent: the new node joins the list, and the least recently used node leaves it together with its key |
| LruCache.PutFixedThenGet | xero/lru_cache.py:26-51 | with the corrected eviction and a capacity of at least 1, `get` right after `put(key, value)` answers `value` |
| LruCache.NoIdsNoKeys | xero/lru_cache.py:19 | a consistent cache with an empty list has an empty dictionary |
| LruCache.ZeroCapacityPutRaises | xero/lru_cache.py:43-51 | with capacity 0, `put(1, 1)` raises `KeyError` from `pop` after key 1 has been stored, and a cache built afterwards answers `get(1)` with 1 |
| LruCache.SharedAcrossInstances | xero/lru_cache.py:17-24 | a second cache answers a key that was only ever put into the first, because sentinels and dictionary are class attributes |
| LruCache.FreshCache | xero/lru_cache.py:16-24 | a cache given sentinels and a dictionary of its own starts consistent, with nothing listed |
| LruCache.FreshInstanceEmpty | xero/lru_cache.py:16-34 | with per-instance state, every key of a new cache answers -1 and the cache is unchanged, whatever another cache holds |
| LinkedList.ExtremeIndex | my_data_structures/linkedlist.py:65-86 | the scan finds the first position of a smallest (largest) node: nothing beats it and it beats everything before it |
| LinkedList.FirstExtremeUnique | my_data_structures/linkedlist.py:71-82 | because the comparison is strict there is only one first extreme position |
| LinkedList.Search | my_data_structures/linkedlist.py:65-86 | `search_min` / `search_max` answer `None` exactly for an empty chain, and otherwise the node at the first extreme position |
| LinkedList.New | my_data_structures/linkedlist.py:13-18 | a one-node list is valid: last node, length, minimum and maximum all the node |
| LinkedList.Append | my_data_structures/linkedlist.py:29-37 | `append` grows `length` by one and makes the node `last_node`; the chain gains the node at its end while `last_node` still ends it, and is unchanged otherwise; it raises exactly when a stored extreme is `None` |
| LinkedList.AppendKeepsValid | my_data_structures/linkedlist.py:29-37 | appending a fresh node to a valid list puts it at the end and keeps `minimum` and `maximum` the first extremes |
| LinkedList.TrackedIsSearch | my_data_structures/linkedlist.py:34-37 | updating the stored extreme with a strict comparison gives the scan's answer over the longer chain |
| LinkedList.Remove | my_data_structures/linkedlist.py:39-63 | as written: succeeds exactly for index 0 on a non-empty chain or an index from 1 below `length` on the chain; then unlinks exactly that node, keeps the others in order and decrements `length`; an index outside those ranges decrements `length` and raises; `last_node` is never changed |
| LinkedList.RemoveIsUnlink | my_data_structures/linkedlist.py:43-63 | a successful `remove` is the unlink of the node at the index followed by the recomputation of a removed extreme |
| LinkedList.RemoveKeepsValid | my_data_structures/linkedlist.py:39-63 | removing a node other than the last from a valid list unlinks exactly that node, keeps the others in order and keeps the list valid |
| LinkedList.ExtremeSurvives | my_data_structures/linkedlist.py:58-63 | removing a node that is not the first extreme leaves that extreme the first extreme of the rest |
| LinkedList.ExtremeAfterRemoval | my_data_structures/linkedlist.py:58-63 | a first extreme stays the first extreme, one place earlier if it came after the removed node |
| LinkedList.UniqueIdsWithout | my_data_structures/linkedlist.py:52-53 | unlinking keeps node identities distinct |
| LinkedList.StoredExtreme | my_data_structures/linkedlist.py:58-63 | a stored extreme is recomputed when it was the removed node and kept otherwise; either way it is the first extreme of the rest |
| LinkedList.UnlinkKeepsFields | my_data_structures/linkedlist.py:43-63 | unlinking from a valid list of two or more leaves distinct nodes, a matching length and the first extremes of the rest |
| LinkedList.RemoveLastLosesAppend | my_data_structures/linkedlist.py:29-63 | as written, removing the end node of [a, b] leaves `last_node` on the removed node, so a node appended afterwards is not reachable although `length` counts it |
| LinkedList.RemoveFixed | my_data_structures/linkedlist.py:39-63 | the corrected remove fails exactly when the one as written does, unlinks the same node, and leaves `last_node` ending the chain |
| LinkedList.RemoveFixedThenAppend | my_data_structures/linkedlist.py:29-63 | with `last_node` maintained, the list stays valid after a removal and a node appended afterwards lands at the end |
| DoublyLinkedList.New | my_data_structures/doubly_linked_list.py:18-23 | a one-node list is valid and has no back links |
| DoublyLinkedList.Insert | my_data_structures/doubly_linked_list.py:34-46 | `insert` points the new node back at the old last node and otherwise behaves as the singly linked `append` |
| DoublyLinkedList.Delete | my_data_structures/doubly_linked_list.py:48-72 | `delete` changes no `prev` link and otherwise behaves as the singly linked `remove` |
| DoublyLinkedList.InsertKeepsBackLinks | my_data_structures/doubly_linked_list.py:34-46 | inserting a fresh node into a valid back-linked list appends it and keeps every node after the head pointing back at its predecessor |
| DoublyLinkedList.DeleteLeavesStalePrev | my_data_structures/doubly_linked_list.py:52-62 | deleting a middle node leaves its successor pointing back at the deleted node, so the list is no longer back linked |
| DoublyLinkedList.DeleteFixed | my_data_structures/doubly_linked_list.py:48-72 | the corrected `delete` fails exactly when the one as written does, unlinks the same node, and repoints the successor's `prev` at the deleted node's predecessor |
| DoublyLinkedList.DeleteFixedShape | my_data_structures/doubly_linked_list.py:52-64 | on a valid list every index in range is deleted without error, leaving the other nodes in order |
| DoublyLinkedList.DeleteFixedKeepsBackLinks | my_data_structures/doubly_linked_list.py:52-62 | the corrected `delete` of any listed node keeps every later node pointing back at the node before it |
| DoublyLinkedList.RelinkedAt | my_data_structures/doubly_linked_list.py:55-62 | after the corrected unlink each middle node of the shorter list points back at its new predecessor |
| DoublyLinkedList.SearchData | my_data_structures/doubly_linked_list.py:74-83 | raises exactly on a missing head; otherwise finds the first node holding the data, or answers `-1` exactly when no node holds it |
| DoublyLinkedList.FirstWithDataSpec | my_data_structures/doubly_linked_list.py:74-83 | the walk answers `-1` exactly when no node holds the data, and otherwise the first node that does |
| DoublyLinkedList.FirstWithDataUnique | my_data_structures/doubly_linked_list.py:74-83 | a value held by exactly one node is found at that node |
| DoublyLinkedList.InsertAllBuilds | my_data_structures/doubly_linked_list.py:123-129 | nodes inserted one after another end up in order, each pointing back at the one before |
| DoublyLinkedList.InsertAllSearch | my_data_structures/doubly_linked_list.py:142-144 | in a list built that way `search_data` finds the node holding a value only it holds and answers `-1` for a value no node holds |
| BinaryTree.Insert | my_data_structures/binary_tree.py:11-25 | inserting into a node holding data keeps the root and adds exactly the value |
| BinaryTree.InsertSpec | my_data_structures/binary_tree.py:14-25 | on a search tree, `insert` raises exactly for a value already present, and otherwise keeps the search-tree order |
| BinaryTree.InsertIntoBlank | my_data_structures/binary_tree.py:12-15 | inserting into `Node()` stores the value and then raises as a duplicate |
| BinaryTree.Search | my_data_structures/binary_tree.py:35-39 | a node found holds the value sought |
| BinaryTree.SearchSpec | my_data_structures/binary_tree.py:35-39 | on a search tree, `search` finds a node exactly when the value is present, and answers `-1` otherwise |
| BinaryTree.Inorder | my_data_structures/binary_tree.py:42-48 | the traversal is empty exactly for an empty tree |
| BinaryTree.InorderSpec | my_data_structures/binary_tree.py:42-48 | the traversal lists exactly the tree's values, strictly increasing on a search tree |
| BinaryTree.LeftmostBelow | my_data_structures/binary_tree.py:70-80 | the walk as written raises exactly when the node has no left child |
| BinaryTree.Leftmost | my_data_structures/binary_tree.py:76-80 | the corrected walk left ends on a value of the tree |
| BinaryTree.Rightmost | my_data_structures/binary_tree.py:70-74 | the corrected walk right ends on a value of the tree |
| BinaryTree.MinMaxSpec | my_data_structures/binary_tree.py:70-80 | on a search tree the corrected walks give the smallest and the largest value |
| BinaryTree.MinMaxAsWrittenWrong | my_data_structures/binary_tree.py:70-80 | as written, on the tree 11 with children 2 and 82, `maximum` answers 2 where 82 is intended; on a single node `minimum` raises |
| BinaryTree.DeleteFixedSpec | my_data_structures/binary_tree.py:50-68 | with the successor taken from the right subtree's leftmost node, delete removes exactly the value and keeps the search-tree order |
| BinaryTree.DeleteAgrees | my_data_structures/binary_tree.py:50-68 | wherever `delete` as written succeeds, it returns what the corrected delete returns |
| BinaryTree.DeleteTwoChildrenFails | my_data_structures/binary_tree.py:59-63 | deleting the root 11 of 11 with children 2 and 82 raises, because 82 has no left child; the corrected delete leaves 82 with left child 2 |
| BinaryTree.DemoTree | my_data_structures/binary_tree.py:83-97 | inserting 82, 2, 13, 14 under 11 gives the expected shape; deleting 82 lifts 13 into its place and the traversal is 2, 11, 13, 14 |
| MirroredBst.Add | old/leetcoding02.py:22-44 | `add` never rejects: the tree gains exactly one more copy of the value |
| MirroredBst.AddKeepsMirrored | old/leetcoding02.py:29-44 | adding keeps values at least a node's on its left and smaller ones on its right, and adds the value to the set of values |
| MirroredBst.ExistSpec | old/leetcoding02.py:47-62 | on a mirrored tree `exist` answers exactly whether the value is stored, and false on an empty tree |
| MirroredBst.AddThenExist | old/leetcoding02.py:22-62 | after `add(n)` `exist(n)` holds, and every value that existed still does |
| MirroredBst.DuplicatesStored | old/leetcoding02.py:32-37 | a value added twice is stored twice, the copy to the left of the first |
| MirroredBst.MElemsIsElems | old/leetcoding02.py:22-44 | a value is among the stored copies exactly when it is in the tree |
| BinarySearch.SearchLast | my_data_structures/binary_tree_search_2boundaries.py:4-13 | on a sorted array, the answer lies in `low - 1 .. high` (it is `high` when `low > high`); everything from `low` to it is at most the key and everything after it up to `high` is greater |
| BinarySearch.SearchFirst | my_data_structures/binary_tree_search_2boundaries.py:16-25 | on a sorted array, the answer lies in `low .. high + 1` (it is `low` when `low > high`); everything from `low` before it is below the key and everything from it up to `high` is at least the key |
| BinarySearch.EqualRun | my_data_structures/binary_tree_search_2boundaries.py:4-25 | over a whole sorted array, the positions from the first boundary to the last hold exactly the copies of the key |
| BinarySearch.SampleCall | my_data_structures/binary_tree_search_2boundaries.py:27-30 | on [1, 2, 3, 4] with key 3 both searches answer 2 |
| Graph.NoEdges | my_data_structures/graph_adjacency_list.py:6-8 | every listed vertex gets an empty neighbour set |
| Graph.AddEdges | my_data_structures/graph_adjacency_list.py:10-14 | the construction loop adds no vertex |
| Graph.AddEdgesSpec | my_data_structures/graph_adjacency_list.py:10-14 | the loop succeeds exactly when every endpoint it touches is a listed vertex, and then adds to each set exactly the neighbours the edges give: both directions when undirected, one when directed |
| Graph.Construct | my_data_structures/graph_adjacency_list.py:5-16 | `construct` has exactly the listed vertices |
| Graph.ConstructSymmetric | my_data_structures/graph_adjacency_list.py:5-16 | the undirected construction is symmetric |
| Graph.InsertEdge | my_data_structures/graph_adjacency_list.py:18-30 | missing endpoints become vertices with empty sets, then the edge is added (both directions when undirected, only `v1` to `v2` when directed) and every other set is kept |
| Graph.DeleteEdge | my_data_structures/graph_adjacency_list.py:32-43 | nothing changes when an endpoint is not a vertex; otherwise the edge is discarded, absent or not, and every other set is kept |
| Graph.InsertKeepsSymmetric | my_data_structures/graph_adjacency_list.py:29-30 | inserting an edge keeps an undirected graph symmetric |
| Graph.DeleteKeepsSymmetric | my_data_structures/graph_adjacency_list.py:42-43 | deleting an edge keeps an undirected graph symmetric |
| Graph.DirectedChangesOneEdge | my_data_structures/graph_adjacency_list.py:85-114 | the directed graph's insertion and deletion change only the edge from the first endpoint to the second |
| Graph.InsertThenDelete | my_data_structures/graph_adjacency_list.py:18-43 | deleting an edge just inserted between two existing, non-adjacent vertices restores the graph |
| UnionFind.At | my_data_structures/union_find.py:1-2 | Python indexing succeeds exactly for an index from `-len` below `len`, and reads the entry for a non-negative one |
| UnionFind.Relabel | my_data_structures/union_find.py:8-10 | relabelling keeps the length |
| UnionFind.Union | my_data_structures/union_find.py:4-10 | `union` raises exactly when `find` of either argument raises, and otherwise rewrites every entry labelled `find(y)` to `find(x)` |
| UnionFind.RelabelMerges | my_data_structures/union_find.py:7-10 | afterwards two indices share a label exactly when they did before or each carried one of the two labels; entries with neither label are unchanged |
| UnionFind.UnionJoins | my_data_structures/union_find.py:4-10 | after `union(x, y)`, `find(x) == find(y)` and equals the old `find(x)`; when they already shared a label nothing changes |
| Bfs.Expand | my_data_structures/bfs.py:25-30 | the neighbour loop only appends to the queue |
| Bfs.Search | my_data_structures/bfs.py:16-30 | the visited list starts with the start node and holds no node twice; the dequeued nodes are a prefix of it; exactly the visited nodes other than the start have a parent; each parent is the first dequeued node listing the child as a neighbour; the search reports the target exactly when it was dequeued, as the last node; a `KeyError` ends it on a node without an entry; a search that runs out visits every neighbour of every visited node |
| Bfs.Dequeue | my_data_structures/bfs.py:19-20 | the head of the queue was never dequeued before, and taking it keeps the invariant |
| Bfs.Discover | my_data_structures/bfs.py:27-30 | visiting, enqueuing and recording one new neighbour keeps the invariant |
| Bfs.ExpandKeeps | my_data_structures/bfs.py:25-30 | the neighbour loop completes the closure for the node just dequeued |
| Dfs.UnvisitedShrinks | my_data_structures/dfs.py:22 | visiting a new node of the graph shrinks the set of unvisited nodes |
| Dfs.UnvisitedMonotone | my_data_structures/dfs.py:22 | the set of unvisited nodes never grows |
| Dfs.Visit | my_data_structures/dfs.py:14-27 | a call with `kill_signal` set returns at once and changes nothing; otherwise the node is appended to the visited list, no node is appended twice, entries for nodes already visited are never touched again, and every parent entry names an edge from a visited node |
| Dfs.Loop | my_data_structures/dfs.py:24-27 | the neighbour loop only extends the visited list, without repetitions, and every parent it writes names an edge from a visited node |
| Dfs.Search | my_data_structures/dfs.py:45-49 | the top-level call visits the start first and no node twice; what it reaches and when it finds the target is stated by Dfs.SearchFindsReachable |
| Graph.ReachStep | my_data_structures/dfs.py:24-27 | a node reaches itself, and a neighbour of a reachable node is reachable |
| Dfs.VisitSound | my_data_structures/dfs.py:14-27 | a call on a reachable node visits only nodes reachable from the start |
| Dfs.LoopSound | my_data_structures/dfs.py:24-27 | the neighbour loop of a visited node visits only reachable nodes |
| Dfs.ClosedTrans | my_data_structures/dfs.py:22-27 | two stretches of the search that each expand their new nodes together expand all of them |
| Dfs.VisitClosed | my_data_structures/dfs.py:14-27 | a call that does not raise leaves every newly visited node other than the target with all its neighbours visited; on a graph whose neighbours are all keys, a call on a key never raises |
| Dfs.LoopClosed | my_data_structures/dfs.py:24-27 | without the kill signal the loop leaves every remaining neighbour visited, and the nodes it visits are expanded |
| Dfs.WalkInside | my_data_structures/dfs.py:14-27 | a walk from a visited node stays among visited nodes unless the target has been visited |
| Dfs.SearchFindsReachable | my_data_structures/dfs.py:14-49 | every visited node is reachable from the start; when the search does not raise, the target is visited exactly when it is reachable; on a graph whose neighbours are all keys a search from a key never raises |
| Dfs.SiblingsContinue | my_data_structures/dfs.py:14-27 | with edges 0 to 1 and 0 to 2 and target 1, finding 1 does not stop the loop at 0, which goes on to visit 2 |
| Dfs.KilledChildGetsParent | my_data_structures/dfs.py:19-27 | on the chain 0, 1, 2 with target 1, node 2 gets parent 1 although the call on it returns at once |
| RedundantConnection.Merge | leetcoding01.py:10-13 | `union` relabels exactly the labelled vertices carrying `rootY` to `rootX` |
| RedundantConnection.Scan | leetcoding01.py:18-33 | an edge returned is one of the edges |
| RedundantConnection.FindRedundantConnection | leetcoding01.py:15-33 | an edge returned is one of the input edges |
| RedundantConnection.CompSnoc | leetcoding01.py:18-31 | one more edge joins the components of its two ends and leaves the others alone |
| RedundantConnection.CompFacts | leetcoding01.py:18-31 | a component holds its vertex, lies within the touched vertices, and is shared by all its members |
| RedundantConnection.Isolated | leetcoding01.py:16 | a vertex no edge touches is alone in its component |
| RedundantConnection.FreshEdge | leetcoding01.py:21-23 | both ends unlabelled: both get the first end as label, and the labels still name the components |
| RedundantConnection.JoinEdge | leetcoding01.py:24-27 | one end unlabelled: it joins the other end's label, and the labels still name the components |
| RedundantConnection.MergeEdge | leetcoding01.py:30-31 | both ends labelled differently: merging the second label into the first keeps the labels naming the components |
| RedundantConnection.ScanIsFirstClosing | leetcoding01.py:18-33 | from labels that name the components of the edges read so far, the loop returns the first edge whose ends are already connected, or falls through when there is none |
| RedundantConnection.FindsFirstCycle | leetcoding01.py:15-33 | for vertices from 1 and no self-loops, `findRedundantConnection` answers the first edge closing a cycle, and falls through to `None` exactly when no edge does |
| RedundantConnection.ZeroLabelMissesCycle | leetcoding01.py:16-21 | why the search is stated only for vertices numbered from 1: the label 0 means "not seen yet", so a vertex 0, outside the problem's numbering, never gets a label and the doubled edge between 0 and 1 goes unreported |
| RedundantConnection.Sample | leetcoding01.py:37 | [1, 4], [3, 4], [1, 3], [1, 2], [4, 5] answers [1, 3] |
| LongestPath.ChildrenSpec | leetcode/2246.py:2-8 | the dictionary maps each parent value to exactly the indices naming it, every one of them, in increasing order, and no list is empty |
| LongestPath.ChildrenMembers | leetcode/2246.py:4-8 | every listed child is an index below the bound whose parent is the key |
| LongestPath.ChildrenComplete | leetcode/2246.py:4-8 | every index appears under its parent, and every key is some index's parent |
| LongestPath.ChildrenSorted | leetcode/2246.py:4-8 | every children list is strictly increasing |
| LongestPath.DfsIsChain | leetcode/2246.py:12-34 | `dfs` returns exactly the longest downward chain of differing characters from its node, fails exactly when that chain runs out of fuel, and never lowers `ans` |
| LongestPath.ScanIsBelow | leetcode/2246.py:21-34 | the children loop ends with one more than the longest differing chain among the children scanned and the ones left |
| LongestPath.TopTwoSingle | leetcode/2246.py:21-29 | the longest single chain the bend reference keeps is the longest chain below a differing child, the one `dfs` adds 1 to |
| LongestPath.ChainAtMostBest | leetcode/2246.py:12-34 | the chain `dfs` returns never exceeds the best path in the node's subtree, so the last child's chain on line 32 never raises `ans` above the best path |
| LongestPath.DfsExact | leetcode/2246.py:12-34 | whenever `dfs` answers, it leaves in `ans` exactly the larger of the old `ans` and the best path bending at some node of the subtree: one node plus its two longest chains below children with other characters |
| LongestPath.ScanExact | leetcode/2246.py:21-32 | from any point of the children loop, `ans` ends exactly as the best of its old value, the best path below the children left, and the best bend at the node pairing the two kept chains with those of the children left |
| LongestPath.ScanExactStep | leetcode/2246.py:22-29 | the same for a loop with a child left: folding the child's chain into the two longest keeps that best bend |
| LongestPath.LongestPathIsBend | leetcode/2246.py:1-38 | whenever `longestPath` answers, the answer is exactly the most nodes on a path of differing characters bending at some node below node 0 |
| LongestPath.DepthBelowSize | leetcode/2246.py:12-34 | in a tree given by its parent array, every node lies less deep than the number of nodes, so `n + 1` levels of recursion reach every node |
| LongestPath.TreeFuel | leetcode/2246.py:12-34 | in a tree, the walk below any node never exceeds the number of nodes less its depth in levels |
| LongestPath.TreeFuelBelow | leetcode/2246.py:21-29 | the same bound covers every child scanned |
| LongestPath.LongestPathAnswers | leetcode/2246.py:1-38 | on every parent array that forms a tree rooted at node 0, `longestPath` answers, and answers the best bend |
| LongestPath.SampleCall | leetcode/2246.py:40-42 | the sample answers 4 |
| NeuronStrengths.Edges | microsoft2.py:4-10 | the adjacency list has one slot per neuron plus the unused slot 0 |
| NeuronStrengths.AddEdgeLists | microsoft2.py:7-10 | adding an edge appends one endpoint to the other's list, both ways, and changes no other list |
| NeuronStrengths.EdgesSymmetric | microsoft2.py:6-10 | `v` occurs in `u`'s list as often as `u` in `v`'s |
| NeuronStrengths.AddEdgeCount | microsoft2.py:9-10 | one edge adds exactly one occurrence in each endpoint's list |
| NeuronStrengths.EdgesInRange | microsoft2.py:6-10 | every neighbour listed is a neuron between 1 and `n` |
| NeuronStrengths.Dfs | microsoft2.py:22-42 | `dfs` only adds nodes of the graph to the visited set |
| NeuronStrengths.Walk | microsoft2.py:25-40 | the neighbour loop only adds nodes of the graph to the visited set |
| NeuronStrengths.Gain | microsoft2.py:22-42 | what a subtree adds on top of the strength it starts from is never negative |
| NeuronStrengths.WalkStep | microsoft2.py:26-33 | an unvisited neighbour is marked, explored from the running strength plus its own sign, and the running strength becomes the larger of the two |
| NeuronStrengths.GainStep | microsoft2.py:26-33 | an unvisited neighbour adds the positive part of its own subtree's gain |
| NeuronStrengths.WalkShift | microsoft2.py:25-42 | raising the starting strength by `d` raises the result by `d` and visits the same nodes |
| NeuronStrengths.WalkIsGain | microsoft2.py:25-42 | the loop returns its starting strength plus a gain independent of it |
| NeuronStrengths.DfsIsGain | microsoft2.py:22-42 | `dfs` returns its starting strength plus the gain of the node |
| NeuronStrengths.GainBound | microsoft2.py:22-42 | the gain is at most the number of nodes newly visited |
| NeuronStrengths.DfsBounds | microsoft2.py:22-42 | `dfs` returns between its starting strength and that plus the number of nodes it visits |
| NeuronStrengths.Branches | microsoft2.py:45-50 | each neighbour of the neuron adds a non-negative amount to the total |
| NeuronStrengths.Strength | microsoft2.py:16-56 | a neuron's strength is at least its own sign |
| NeuronStrengths.GetNeuronStrengths | microsoft2.py:1-60 | one strength per neuron; what each strength means is stated by NeuronBest.StrengthsAreBest |
| NeuronStrengths.EdgesValid | microsoft2.py:4-10 | the adjacency list built from `n - 1` edges between neurons 1 to `n` is valid for the search |
| NeuronBest.StrengthsAreBest | microsoft2.py:1-60 | when the edges form a forest, entry `i` of the result is the best total of signs over the connected sets of neurons that contain neuron `i + 1`: some such set reaches it and none exceeds it |
| NeuronBest.StrengthIsBest | microsoft2.py:16-56 | on a forest, a neuron's strength is reached by a connected set containing it, and no connected set containing it weighs more |
| NeuronBest.GainUpper | microsoft2.py:22-42 | on a forest, every set hanging on a node through unvisited nodes weighs at most what `dfs` adds on top of its starting strength |
| NeuronBest.GainWitness | microsoft2.py:22-42 | the amount `dfs` adds is the weight of some connected set of newly visited nodes hanging on the node |
| NeuronBest.BranchesIsGain | microsoft2.py:44-50 | on a forest, no neighbour of the neuron is reached through an earlier one, so marking each neighbour without checking it counts every branch once |
| NeuronBest.GainCloses | microsoft2.py:22-42 | `dfs` visits everything reachable: each newly visited node has all its neighbours visited |
| NeuronBest.GainStays | microsoft2.py:22-42 | `dfs` never leaves a region whose only exits lead to visited nodes |
| NeuronBest.EdgesLinkBack | microsoft2.py:6-10 | every edge is listed from both of its ends |
| NeuronBest.WeightSplit | microsoft2.py:48-56 | the total of signs over two disjoint sets is the sum of their totals |
| NeuronExamples.StarExample | microsoft2.py:65-78 | the first example, a star around neuron 1, answers [0, -1, 1, -1] |
| NeuronExamples.AllStrongExample | microsoft2.py:80-93 | the second example, all neurons strong, answers [5, 5, 5, 5, 5] |
| NeuronExamples.PathExample | microsoft2.py:95-106 | the third example, a path 1-2-3-4, answers [1, 2, 2, 1] |
| EquivalentString.Build | leetcode/1061_lex.py:21-28 | building the matrix raises an `IndexError` exactly when some pair has no `s2[i]` or a character whose index lies outside -26 .. 25; otherwise the matrix is symmetric and within the letters |
| EquivalentString.MarksSpec | leetcode/1061_lex.py:24-28 | the matrix marks exactly the cells of each pair in both orders, at the rows Python's indexing reaches, wrapping negative indices, so it is symmetric and holds only letters |
| EquivalentString.Dfs | leetcode/1061_lex.py:4-18 | `dfs` only adds letters to the visited list, and answers a letter |
| EquivalentString.Scan | leetcode/1061_lex.py:11-16 | the letter loop only adds letters to the visited list, and answers a letter |
| EquivalentString.PathEquiv | leetcode/1061_lex.py:24-28 | the two ends of a chain of marked pairs are equivalent |
| EquivalentString.EquivSymmetric | leetcode/1061_lex.py:27-28 | equivalence is symmetric, because every pair is marked both ways |
| EquivalentString.EquivLetter | leetcode/1061_lex.py:24-28 | a letter is equivalent only to letters |
| EquivalentString.SameClass | leetcode/1061_lex.py:27-28 | two letters of a marked pair are equivalent to the same letters |
| EquivalentString.DfsSpec | leetcode/1061_lex.py:4-18 | `dfs` from a letter answers a letter equivalent to it and no greater than any equivalent letter it could still reach without the visited ones, nor greater than itself |
| EquivalentString.ScanSpec | leetcode/1061_lex.py:11-18 | the letter loop, from a running minimum that bounds the letters seen so far, ends with that bound for every letter reachable from the node |
| EquivalentString.ScanVisit | leetcode/1061_lex.py:12-16 | visiting a marked, unvisited letter keeps the running minimum correct |
| EquivalentString.ScanEnd | leetcode/1061_lex.py:18 | after the last letter the running minimum is the answer |
| EquivalentString.ScanChild | leetcode/1061_lex.py:13-16 | taking the smaller of the running minimum and the child's answer bounds everything reached through that child |
| EquivalentString.TopLevel | leetcode/1061_lex.py:34 | a call with an empty visited list answers the least letter equivalent to its letter |
| EquivalentString.Translate | leetcode/1061_lex.py:31-37 | the loop raises an `IndexError` exactly when some character of `baseStr` lies outside -26 .. 25, and otherwise answers one character per character |
| EquivalentString.SmallestEquivalentString | leetcode/1061_lex.py:1-41 | the call raises an `IndexError` exactly when some pair or some character of `baseStr` is out of range, and otherwise answers as many characters as `baseStr` |
| EquivalentString.TranslateSpec | leetcode/1061_lex.py:31-37 | each letter is replaced by the least letter equivalent to it, never a greater one, and each character whose index wraps is kept as it is |
| EquivalentString.SmallestEquivalentStringSpec | leetcode/1061_lex.py:1-41 | when nothing is out of range, each letter of `baseStr` becomes the least letter reachable from it through the pairs, and each character whose index wraps stays as it is |
| EquivalentString.MarksHas | leetcode/1061_lex.py:24-28 | a cell is marked exactly when some pair names it, in one order or the other |
| EquivalentString.Lookup | leetcode/1061_lex.py:4-18 | the top-level `dfs` raises exactly for an index outside -26 .. 25; a negative index answers itself, because its wrapped row only reaches letters above it; a letter answers a letter |
| EquivalentString.HeadSpec | leetcode/1061_lex.py:34-37 | one character of `baseStr` becomes its least equivalent letter, or itself when its index wraps, and the memo stays correct |
| EquivalentString.TranslateCons | leetcode/1061_lex.py:33-37 | the loop answers the first character and then the rest with the memo extended |
| EquivalentString.WrappedPair | leetcode/1061_lex.py:25-37 | with `s1` a backquote and `s2` "a", the backquote wraps to row 25, so "z`" translates to "a`" |
| RedBlue.Run | leetcoding02.py:6-24 | after `i` stations the answer list holds `i + 1` entries starting at 0, and `mi` is the last |
| RedBlue.MinCost | leetcoding02.py:5-24 | the loop fails on an index error exactly when `blue` is shorter than `red`, and otherwise yields one entry per station plus the leading 0 |
| RedBlue.RunPrefix | leetcoding02.py:11-24 | the loop only appends: the entries after `i` stations are a prefix of those after more |
| RedBlue.FlagNeverCleared | leetcoding02.py:9-19 | `isOnBlue` is set after a station exactly when the greedy chose blue at some earlier station, and is never reset |
| RedBlue.GreedyEntries | leetcoding02.py:12-24 | each entry is the smaller of going on by red and going on by blue, where blue is charged `blueCost` only until blue was first chosen, ties going to blue |
| RedBlue.GreedyNondecreasing | leetcoding02.py:15-24 | with non-negative costs the entries never decrease |
| RedBlue.RouteAtLeastBest | leetcoding02.py:5-24 | every route of lines costs at least the best cost of reaching its last station on its last line |
| RedBlue.BestRoute | leetcoding02.py:5-24 | for each station and line there is a route ending there on that line that costs exactly the best cost |
| RedBlue.BestIsCheapest | leetcoding02.py:5-24 | the smaller of the two best costs is the cheapest cost of any route to that station |
| RedBlue.MinCostFixed | leetcoding02.py:5-24 | the corrected computation fails exactly when `blue` is shorter than `red`, and otherwise each entry is the cheapest cost of reaching that station |
| RedBlue.CheapestNondecreasing | leetcoding02.py:5-24 | with non-negative costs the cheapest cost never decreases from one station to the next |
| RedBlue.GreedyMissesCheaperRoute | leetcoding02.py:12-24 | on red [1, 6, 9, 5], blue [5, 2, 3, 10] and a charge of 8 the greedy answers 16 for the third station, where red then blue twice costs 14 |
| RedBlue.GreedyUndercharges | leetcoding02.py:12-24 | on red [10, 1, 10], blue [1, 10, 1] and a charge of 8 the greedy answers 11, below the 19 that every route costs, because moving back to blue is never charged again |
| AddTwoNumbers.Step | leetcode/addtwonumbers.py:13-15 | one digit step keeps the digits written so far plus the carry equal to the sum of the two prefixes |
| AddTwoNumbers.TurnBreaks | leetcode/addtwonumbers.py:17 | breaking out with no carry at the end of both lists leaves the sum in `l1` |
| AddTwoNumbers.ShapeNext | leetcode/addtwonumbers.py:18-22 | padding the shorter list with a 0 node keeps both lists the same length and the step inside the longer input |
| AddTwoNumbers.TurnContinues | leetcode/addtwonumbers.py:17-22 | moving on to the next nodes, padded with zeros when needed, keeps the loop invariant |
| AddTwoNumbers.Add | leetcode/addtwonumbers.py:7-52 | an empty list returns its inputs unchanged; otherwise `l1` comes back as digits whose number is the sum of the two inputs, as long as the longer input or one digit more, which is then 1, and `l2` comes back padded with zeros to the same length |
| Sieve.EulerFlagPrime | leetcode/euler_prime_flag.py:1-14 | the result lists, in increasing order, exactly the primes up to `n`, both with the break on the first factor of `num` and without it, the variant in leetcode/324_weekly_contest.py lines 81-94 |
| Sieve.MarkMultiples | leetcode/euler_prime_flag.py:8-13 | the inner loop flags only composites, unflags nothing, and flags every `num * p` within range for each listed prime `p` up to the least prime factor of `num` |
| Sieve.FlagIsComposite | leetcode/euler_prime_flag.py:6-7 | when `num` is reached, its flag is clear exactly when it is prime |
| Sieve.ListNext | leetcode/euler_prime_flag.py:6-7 | appending `num` when its flag is clear keeps the list equal to the primes seen so far |
| Sieve.RangeStop | leetcode/euler_prime_flag.py:9-10 | breaking once `num * prime` exceeds `n` misses no multiple that the sieve needs |
| Sieve.FactorStop | leetcode/euler_prime_flag.py:12-13 | breaking at the first prime dividing `num` misses no multiple that the sieve needs, since that prime is the least factor of `num` |
| Sieve.AllMarked | leetcode/324_weekly_contest.py:88-93 | running through every listed prime, without the break, flags all the multiples the sieve needs |
| Sieve.NextComplete | leetcode/euler_prime_flag.py:5-13 | after the inner loop for `num`, every composite up to `num + 1` is flagged |
| WeeklyContest.Max | leetcode/324_weekly_contest.py:7 | the maximum is an element and no element exceeds it |
| WeeklyContest.IsPrimeTrial | leetcode/324_weekly_contest.py:13-23 | the trial division answers true exactly for primes, with 2 and 3 admitted at once |
| WeeklyContest.TrialPrimes | leetcode/324_weekly_contest.py:12-25 | the list holds, in increasing order, exactly the primes up to the maximum |
| WeeklyContest.DistinctPrimeFactors | leetcode/324_weekly_contest.py:6-41 | an empty list fails, as `max` does; otherwise the answer is the number of primes up to the largest element that divide the product |
| WeeklyContest.DividingSnoc | leetcode/324_weekly_contest.py:36-38 | each prime adds one to the count exactly when it divides the product |
| WeeklyContest.DividingAll | leetcode/324_weekly_contest.py:35-39 | the count covers exactly the primes up to the maximum that divide the product |
| WeeklyContest.PrimesBetweenSpec | leetcode/324_weekly_contest.py:98-106 | the primes kept are, in increasing order, exactly the primes between `left` and `right` |
| WeeklyContest.IncreasingUnique | leetcode/324_weekly_contest.py:103-106 | two increasing lists with the same members are equal, so the kept list is determined by its members |
| WeeklyContest.ClosestPrimes | leetcode/324_weekly_contest.py:97-118 | fewer than two primes in range answers [-1, -1]; otherwise the answer is the first adjacent pair with the smallest gap, or empty when every gap is at least 10^6 |
| WeeklyContest.KeepFrom | leetcode/324_weekly_contest.py:103-106 | the filter keeps, in order, exactly the primes from `left` on |
| WeeklyContest.ClosestPair | leetcode/324_weekly_contest.py:110-118 | the answer is the first adjacent pair with the strictly smallest gap below 10^6, or empty when there is none |
| MinimumPartition.Grow | leetcode/324_weekly_contest.py:62-71 | the inner loop ends with a piece length at least the one it started from, within the string |
| MinimumPartition.Partition | leetcode/324_weekly_contest.py:47-77 | with `k` below 9 and some digit above `k` the answer is -1; otherwise it is the number of pieces the greedy cuts |
| MinimumPartition.ValueNonneg | leetcode/324_weekly_contest.py:64 | the value of a digit string is never negative |
| MinimumPartition.ValuePrefix | leetcode/324_weekly_contest.py:64 | a prefix of a digit string is worth no more than the whole |
| MinimumPartition.ValueDropFront | leetcode/324_weekly_contest.py:64 | dropping the first digit does not raise the value |
| MinimumPartition.ValueSuffix | leetcode/324_weekly_contest.py:64 | a suffix of a digit string is worth no more than the whole |
| MinimumPartition.GrowSpec | leetcode/324_weekly_contest.py:62-71 | the greedy piece fits within `k`, and no longer piece from the same start fits |
| MinimumPartition.PiecesSpec | leetcode/324_weekly_contest.py:61-71 | the greedy pieces cover the rest of the string, each fits within `k`, and each is as long as it can be |
| MinimumPartition.FirstPiece | leetcode/324_weekly_contest.py:62-71 | the first piece is the longest one that fits, and the rest is cut the same way from where it ends |
| MinimumPartition.SuffixFits | leetcode/324_weekly_contest.py:64 | the tail of a piece that fits also fits |
| MinimumPartition.PiecesMonotone | leetcode/324_weekly_contest.py:61-71 | cutting from a later start takes no more pieces |
| MinimumPartition.PiecesOptimal | leetcode/324_weekly_contest.py:47-77 | no partition into pieces that fit within `k` has fewer pieces than the greedy one |
| Anagrams.CharLeOrder | leetcode/compare_time.py:5 | characters are compared by a total order, which is what `sorted` needs |
| Anagrams.KeySpec | leetcode/compare_time.py:5 | the key of a string holds the same characters, in sorted order |
| Anagrams.KeyIffAnagram | test.py:7 | two strings get the same key exactly when they are anagrams |
| Anagrams.Pairs | leetcode/compare_time.py:4-5 | each string is paired with its own key, in input order |
| Anagrams.PairsAt | leetcode/compare_time.py:4-9 | the list filed under a key holds exactly the strings with that key, in input order |
| Anagrams.GroupsAreFilters | leetcode/compare_time.py:1-15 | there is one group per distinct key, and the `i`-th group holds, in input order, the strings whose key is the `i`-th key first seen |
| Anagrams.KeysMatchGroups | leetcode/compare_time.py:17-27 | `groupAnagrams2` returns the distinct keys in first-seen order, one per group of `groupAnagrams1`, each the key of every string in its group |
| Anagrams.GroupAt | test.py:4-12 | the `i`-th group holds exactly the input strings with the `i`-th key, and that key belongs to some input string |
| Anagrams.GroupMembership | test.py:4-12 | no group is empty, and an input string is in a group exactly when its key is that group's key |
| Anagrams.SameGroupIffAnagrams | test.py:4-12 | two input strings share a group exactly when they are anagrams |
| Anagrams.KeyListed | leetcode/compare_time.py:17-27 | the key of every input string is among the keys returned |
| Anagrams.GroupsPartitionInput | leetcode/compare_time.py:1-15 | the groups together hold every input string exactly as often as the input does |
| Anagrams.GroupsInFirstOccurrenceOrder | leetcode/compare_time.py:11-13 | a group comes before another only if one of its strings occurs in the input before every string of the other |
| Quiz.WrongAnswers | old/go1.py:43-46 | every wrong answer collected for a question differs from that question's key |
| Quiz.RowCorrect | old/go1.py:34-36 | the questions one response gets right are positions within the response |
| Quiz.Correct | old/go1.py:33-36 | every question counted as right is a question of the key |
| Quiz.CountCorrect | old/go1.py:30-38 | counting fails on an index error exactly when some response is longer than the key; otherwise every question listed has a count |
| Quiz.FindMisleading | old/go1.py:40-54 | finding misleading answers fails exactly when some response is longer than the key |
| Quiz.MoreCorrectOrder | old/go1.py:22 | comparing by count, largest first, is a total preorder, as the sort key needs |
| Quiz.RowCorrectCount | old/go1.py:34-36 | one response adds 1 to a question's count exactly when it answers that question rightly |
| Quiz.CorrectCount | old/go1.py:33-36 | a question's count is the number of responses answering it rightly |
| Quiz.CountCorrectSpec | old/go1.py:30-38 | a question is in the dictionary exactly when someone answered it rightly, with the number of such responses as its count |
| Quiz.CountItems | old/go1.py:21-38 | the dictionary's items name each question once, with its positive count, and name every question answered rightly |
| Quiz.WrongPairAt | old/go1.py:45-46 | one answer is collected for a question exactly when it is that question's answer and it is wrong |
| Quiz.RowWrongAt | old/go1.py:44-46 | one response contributes its answer to a question exactly when it answered that question wrongly |
| Quiz.WrongAt_Groups | old/go1.py:43-46 | the wrong answers gathered under a question are, in response order, exactly the wrong answers to it |
| Quiz.MostCommonSpec | old/go1.py:51-52 | `most_common(1)` picks an answer given at least as often as any other, the first seen among equals |
| Quiz.MisleadingSpec | old/go1.py:40-54 | each question appears once, exactly when it has a wrong answer, and maps to its most common wrong answer |
| Quiz.AnalyzeErrors | old/go1.py:17-28 | the analysis fails on an index error exactly when some response is longer than the key, and `max` fails on an empty sequence exactly when no question was answered rightly |
| Quiz.EasiestSpec | old/go1.py:21 | the easiest question has the largest count, positive, and is the first such question in dictionary order |
| Quiz.ByDifficultySpec | old/go1.py:22 | the questions by difficulty are the dictionary's items sorted by count, largest first, stable among equal counts |
| Quiz.EasiestHeadsDifficulty | old/go1.py:21-22 | the easiest question heads the list by difficulty |
| Quiz.SortedHeadIsFirstMax | old/go1.py:21-22 | the head of the sorted items is the first item with the largest count |
| CompletedByOne.TallyOnce | old/test2.py:17-20 | the courses kept are, in first-seen order, the distinct courses with a count of 1 |
| CompletedByOne.OnceMembership | old/test2.py:19-20 | a course is kept exactly when it was completed exactly once |
| CompletedByOne.CompletedByOneSpec | old/test2.py:11-22 | the result lists each course completed by exactly one entry, once, in the order first seen, and no other course |
| EasiestAnswer.Letters | old/test3.py:4-7 | every answer tallied is a letter of the key |
| EasiestAnswer.KeyAt | old/test3.py:7 | the key is read at each question answered rightly |
| EasiestAnswer.Tally | old/test3.py:2 | the counter has exactly the key's letters as keys |
| EasiestAnswer.Easiest | old/test3.py:9-14 | the scan answers -1 with 0 when every count is 0, and otherwise the first index whose letter has the largest count |
| EasiestAnswer.GetEasiestAnswer | old/test3.py:1-14 | the call fails on an index error exactly when some response is longer than the key |
| EasiestAnswer.TallyCounts | old/test3.py:2-7 | a letter's count is the number of times it was tallied |
| EasiestAnswer.PoolOfSnoc | old/test3.py:6-7 | one more right answer adds 1 to the count of its question's letter |
| EasiestAnswer.PoolOfCorrect | old/test3.py:4-7 | counting the key's letter over the right answers is counting, over all responses, the right answers to questions carrying that letter |
| EasiestAnswer.LettersPool | old/test3.py:7 | counting a letter among the tallied answers is counting the right answers whose question carries that letter |
| EasiestAnswer.LetterCount | old/test3.py:2-7 | the counter of a letter pools the right answers to every question carrying that letter |
| EasiestAnswer.EasiestAnswerSpec | old/test3.py:1-14 | the answer is -1 exactly when no letter of the key was answered rightly; otherwise it is the first index whose letter has the largest pooled count |
| PopularNext.Steps | old/test4.py:25-27 | the steps of a history are its adjacent pairs, in order |
| PopularNext.LeaderMoves | old/test4.py:17-19 | a course whose count passes the leader's takes the lead with a count one higher |
| PopularNext.LeaderStays | old/test4.py:17 | a count that only ties the leader's does not move the lead |
| PopularNext.AddNextTracks | old/test4.py:12-19 | `add_next_watched_course` keeps the tracker's counts equal to the successors seen and its leader the first to reach the top count |
| PopularNext.TrackSpec | old/test4.py:28-35 | the tracker built from a course's successors tracks them |
| PopularNext.VisitAllShape | old/test4.py:23-35 | each course gets one tracker, in first-seen order |
| PopularNext.VisitAllIsTrack | old/test4.py:24-35 | the trackers are keyed by the distinct courses with a successor, each built from that course's successors in order |
| PopularNext.TrackSnoc | old/test4.py:35 | one more successor is one more `add_next_watched_course` |
| PopularNext.VisitStep | old/test4.py:26-35 | one step keeps every tracker equal to the one built from its successors so far |
| PopularNext.PopularCourses | old/test4.py:37-41 | the result names each course with a successor once, in first-seen order |
| PopularNext.LeaderIsMost | old/test4.py:12-19 | the leader is a successor seen most often, the first to reach that count |
| PopularNext.LeaderCount | old/test4.py:17-19 | the leader's count is the top count |
| PopularNext.PopularNextSpec | old/test4.py:22-41 | each pair names a course and its most frequent next course, the one that reached that count first |
| Grouping.GroupBy | old/go1.py:41-46 | grouping keeps keys and lists consistent |
| Grouping.GroupByIsFilter | old/go1.py:41-46 | a `defaultdict(list)` filled in input order has the distinct keys in first-seen order, and under each key the values filed with it, in input order |
| Grouping.GroupByPartition | old/go1.py:41-46 | the lists together hold every value filed, as often as filed |
| Grouping.TallyIsCount | old/test2.py:12-15 | a counting dict has the distinct items, in first-seen order, each counted as often as it occurs |
| Grouping.ItemsOfTally | old/go1.py:21-22 | the items of a counting dict pair each distinct item, in first-seen order, with its count |
| Grouping.FirstMax | old/go1.py:21 | `max` with a key returns an item with the largest count, the first such |
| Grouping.TallyFirstMax | old/go1.py:51-52 | `most_common(1)` names an item occurring most often, the first seen among equals |
| Sorting.SortPerm | old/go1.py:22 | `sorted` returns a permutation of its input |
| Sorting.SortSorted | old/go1.py:22 | the result of `sorted` is ordered by the key |
| Sorting.SortStable | old/go1.py:22 | `sorted` is stable: items with equal keys keep their input order |
| Sorting.SortedUnique | leetcode/compare_time.py:5 | for an order where equal keys mean equal items, only one ordered permutation exists |
| Counting.Distinct | leetcode/compare_time.py:6-7 | the keys of a dict filled in order are the distinct items, with no repetition |
| Counting.DistinctFirstOccurrence | leetcode/compare_time.py:11-13 | a key comes before another only if it first occurs earlier |

## Findings

| source | as written | input that shows it | evidently intended | confidence | as-written member | corrected member |
|---|---|---|---|---|---|---|
| xero/lru_cache.py:49-51 | eviction unlinks the oldest node, then pops the key of the node that has just become the oldest | capacity 1 holding key 1, then `put(2, 2)`: the node of 1 leaves the list, key 2 is popped, and 1 stays in the dictionary | pop the key of the node that was unlinked | high, not executed | LruCache.PutEvictsWrongKey | LruCache.PutFixedEvicts |
| xero/lru_cache.py:16-24 | the sentinels and the dictionary are class attributes, so every cache shares one list and one dictionary | put key 1 into one cache; a second cache answers `get(1)` with the stored value | each cache starts empty with its own list and dictionary | high, not executed | LruCache.SharedAcrossInstances | LruCache.FreshInstanceEmpty |
| my_data_structures/binary_tree.py:70-80 | `minimum` starts at the left child, and `maximum` walks left like `minimum` | the tree 11 with children 2 and 82: `maximum` answers 2; a single node: `minimum` raises | walk left from the node itself for the minimum and right for the maximum | high, not executed | BinaryTree.MinMaxAsWrittenWrong | BinaryTree.MinMaxSpec |
| my_data_structures/binary_tree.py:59-63 | a node with two children takes its successor from `root.right.left`, which may be missing | delete 11 from the tree 11 with children 2 and 82: 82 has no left child and the call raises | take the leftmost value of the right subtree | high, not executed | BinaryTree.DeleteTwoChildrenFails | BinaryTree.DeleteFixedSpec |
| my_data_structures/linkedlist.py:39-63 | `remove` never updates `last_node` | remove index 1 of [a, b], then append c: `last_node` is still b, so c hangs off the removed node | move `last_node` to the new end when the end node is removed | high, not executed | LinkedList.RemoveLastLosesAppend | LinkedList.RemoveFixedThenAppend |
| my_data_structures/doubly_linked_list.py:52-62 | `delete` rewrites `next` only, so the successor's `prev` still names the removed node | delete index 1 of [a, b, c]: c's `prev` is still b | point the successor's `prev` at the node before the removed one | high, not executed | DoublyLinkedList.DeleteLeavesStalePrev | DoublyLinkedList.DeleteFixedKeepsBackLinks |
| leetcoding02.py:11-24 | one running cost and a flag that is never cleared: the greedy keeps only the cheaper line so far, and charges the change onto blue only once | red [1, 6, 9, 5], blue [5, 2, 3, 10], charge 8: 16 at the third station where 14 is possible; red [10, 1, 10], blue [1, 10, 1], charge 8: 11 where every route costs 19 | the cheapest cost of reaching each station when every change from red onto blue costs the charge | medium, not executed | RedBlue.GreedyMissesCheaperRoute | RedBlue.MinCostFixed |

## Left out

- DayTally (StreamSweeps): requires every time to lie in 0 .. 86400. Python raises an `IndexError` on a larger index and wraps a negative one to the end of the day list; neither case is modelled. StreamSweeps.MaxConcurrentDay and StreamSweeps.SolutionsAgree inherit the restriction.
- MaxConcurrentStreams (ConcurrentStreams): requires every start in 0 .. 100000 and every end non-negative. A larger start raises an `IndexError` in Python and a negative time wraps to the end of the difference array; neither case is modelled.
- Add (AddTwoNumbers): requires both lists to hold digits 0 .. 9, as the problem states. On other values Python still computes something (`sum // 10` and `sum - carry*10`), but that is not modelled.
- Partition (MinimumPartition): takes the string as its digit values, so the `ValueError` that `int()` raises on a non-digit character is not modelled.
- LongestPath (LongestPath): requires `len(parent) <= len(s)`. A shorter `s` raises an `IndexError` in Python, and that case is not modelled. The fuel bound stands for the `RecursionError` on a parent array with a cycle. Python's default recursion limit of 1000 is not modelled, so a tree deeper than that answers in the model while the source raises.
- Search (Dfs): Python's recursion limit is not modelled, so a search deeper than about 1000 calls succeeds in the model where the source raises `RecursionError`. Bfs.Search loops and has no such limit.
- GetNeuronStrengths (NeuronStrengths): what an entry means is proved only when the edges form a forest, through NeuronBest.StrengthsAreBest. On a graph with a cycle the neighbour loop can count one region twice, and the model then says only what `dfs` computes.
- FindsFirstCycle (RedundantConnection): stated only for vertices numbered from 1 and edges between two different vertices, which is the problem's domain. RedundantConnection.ZeroLabelMissesCycle shows why vertex 0 is outside it.
- AdmitsAtMostMax (RateLimiter): holds only for a clock that never runs backwards. `time.time()` is the wall clock and may step back, and RateLimiter.BackwardsClockOverAdmits shows the bound failing then.
- RateLimiter: `time.time()` is a float and becomes an integer `now`. The counter limiter's estimate in `is_allowed` (xero/ratelimiter.py:55-78, 97-145) uses float percentages and `int()` truncation, so only its window slide is modelled.
- xero/ratelimiter_retest.py repeats the same two limiters. It is not part of this model.
- FlatRouter: the class-level `routes` dictionary is one table shared by every `Router`, and the model threads that one table through every call. Per-instance tables do not exist in the source, so none are modelled.
- TrieRouter: the locks of xero/routing.py:35-39 are not modelled, because the model is single-threaded. Handlers are opaque numbers. `SimpleServer` and `demonstrate_routing` (xero/routing.py:191-296) are demonstration code; only the routes they register and the lookups they make are modelled.
- DoublyLinkedList: `get_successor` and `get_predecessor` are empty (`pass`) and have nothing to model. `search_min` and `search_max` are the same code as the singly linked ones and are modelled once, by LinkedList.Search.
- LinkedList, DoublyLinkedList: node data are integers. Python's comparison of mixed or `None` data, and the `TypeError` it can raise, is not modelled.
- expense_tracker.py is an interactive `input()` loop that writes a CSV file and renders with `tabulate`. It is I/O and not part of this model.
- q2.py and old/q2.py wrap the `ecdsa` and `base58` libraries, whose behaviour cannot be seen. They are not part of this model.
- `neighbous` (old/leetcoding02.py:87-99) works on `sqrt` float distances and a heap. It is not modelled.
- `run10000` (leetcode/compare_time.py:30-46) only measures time with `perf_counter`. It is not modelled.
- EasiestAnswer: the string and `ast` parsing of old/test3.py:30-56 is not modelled; the answers arrive already parsed.
- Module-level demonstration code and `print` calls are not modelled. Where a demonstration prints a result, a lemma states that value instead.
