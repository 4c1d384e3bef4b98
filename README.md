# URLReport in Dafny

This project models the hit-count aggregator of `URLReport.java`. The program
reads lines of the form `<unix timestamp in seconds>|<url>`. For each line it
counts one hit for the URL on the line's GMT day. It then prints the days in
ascending order, and under each day its URLs sorted by hit count.

The model has five modules:

- `Options` (`option.dfy`) is the `Option` datatype. Every Java exception that
  `addURL` catches becomes `None`, and `addURL` returns `false`.
- `JavaString` (`java_string.dfy`) models the `java.lang.String` and
  `java.lang.Long` operations the report relies on:
  - `toLowerCase`, `startsWith`, `substring` (which throws past the end) and
    `trim`;
  - `split("\\|")`, including Java's dropping of trailing empty strings;
  - `compareTo`, `Long.parseLong` and `Long.toString`.
- `URLs` (`urls.dfy`) covers:
  - the `URL` record and its constructor;
  - `normalizeURL`, both as written and as its comment intends;
  - the two comparators;
  - the order in which `printURLStats` drains its priority queue.
- `Dates` (`dates.dfy`) is `normalizeDate` with the time zone fixed to GMT.
  A `LocalDate` is a day number counted from 1970-01-01. The `long`
  multiplication `timestamp*1000` wraps exactly as in Java.
- `Report` (`report.dfy`) covers:
  - line parsing;
  - the `DateNode` class, whose `urlMap` is updated in place;
  - the `URLReport` class, with `dateMap`, `head` and the doubly linked list of
    day nodes rewired in place through their `next`/`prev` fields.

`URLReport` keeps a ghost sequence `nodes`: the list from `head`, in order.
Its invariant `Valid()` says three things. The list is linked both ways along
`nodes`, and its dates strictly ascend. `dateMap` holds exactly the nodes of
the list, each under its own date. Every node's `urlMap` maps each key to its
own record, with a count of at least 1, and every key was accepted by the URL
constructor. No listed day has an empty `urlMap`, because `addURL` links a new
day only after its first URL is counted. `HitCount(date, url)` reads the count a day's node holds for a
URL (0 if absent). The mutating methods state their effect on it.

## Model

| member | source | states |
|---|---|---|
| URLs.NormalizeURL | URLReport.java:66-75 | As written. The result is `None` (a substring past the end throws) exactly when the lower-cased input is `http://`, `www.`, or `http://`, one character, `www.`. Otherwise it is a suffix of the lower-cased input, 0, 5, 8 or 13 characters shorter. Each drop is tied to its prefix: an input with neither prefix comes back lower-cased and otherwise unchanged. After `www.` alone the first 5 characters go. After `http://` the first 8 go, and when the remainder starts with `www.` the first 13 go. |
| URLs.NormalizeURLDropsOneTooMany | URLReport.java:68-73 | Take a non-empty host without either prefix, whose part after the first character does not start with `www.`. Then `http://host` and `www.host` normalise to the lower-cased host minus its first character. So `http://host` does not normalise to what the intended normaliser gives. |
| URLs.NormalizeURLThrowsOnBarePrefix | URLReport.java:68-73 | `www.`, `HTTP://` and `http://xwww.` make the as-written normaliser throw. The intended one maps `www.` to the empty string. |
| URLs.NormalizeURLIntended | URLReport.java:65-75 | The corrected normaliser drops 7 characters after `http://` and 4 after `www.`. Its result is a suffix of the lower-cased input and never fails. |
| URLs.NormalizeURLIntendedIgnoresPrefixes | URLReport.java:45-47 | With the intended normaliser, `host`, `www.host`, `http://host` and `http://www.host` all normalise to the lower-cased host, in any letter case. |
| URLs.NewURL | URLReport.java:59-63 | The URL constructor succeeds exactly when `normalizeURL` does not throw. The record keeps the raw string and starts at count 1. |
| URLs.CompareDescending | URLReport.java:25-31 | A higher count comes first and a lower count later. Equal counts are ordered by `urlString.compareTo`. The result is 0 exactly when both records are equal. |
| URLs.CompareAscending | URLReport.java:37-43 | A lower count comes first and a higher count later. Equal counts are ordered by `urlString.compareTo`. The result is 0 exactly when both records are equal. |
| URLs.CompareAscendingIsReversedCount | URLReport.java:25-43 | The ascending comparator is the descending one with every count negated. |
| URLs.CompareDescendingAntisymmetric | URLReport.java:25-31 | `compare(a, b) == -compare(b, a)`. |
| URLs.CompareAscendingAntisymmetric | URLReport.java:37-43 | `compare(a, b) == -compare(b, a)`. |
| URLs.CompareDescendingTransitive | URLReport.java:25-31 | `compare(a, b) <= 0` and `compare(b, c) <= 0` imply `compare(a, c) <= 0`. |
| URLs.CompareAscendingTransitive | URLReport.java:37-43 | `compare(a, b) <= 0` and `compare(b, c) <= 0` imply `compare(a, c) <= 0`. |
| JavaString.CompareStringsLexicographic | URLReport.java:29 | The tie-break `urlString.compareTo` is lexicographic. After a common prefix, the string that ends first, or whose next character is smaller, compares below the other. |
| URLs.SelectedCompare | URLReport.java:118 | The comparator `printURLStats` uses. With `SORT_DESCENDING` the higher count comes first, otherwise the lower one. Equal counts are ordered by `urlString.compareTo`. |
| URLs.SelectedCompareIsTotalOrder | URLReport.java:116-119 | The comparator chosen by `SORT_DESCENDING` is a strict total order on URL records: zero only on equal records, antisymmetric and transitive. |
| URLs.LeastIndex | URLReport.java:122 | `poll` takes an element that compares at or below every element left in the queue. |
| URLs.DrainQueue | URLReport.java:121-124 | Polling until the queue is empty emits exactly the queue's elements, each once, in strictly increasing comparator order. |
| URLs.SortedListingHitsDescend | URLReport.java:17 | With `SORT_DESCENDING`, a day's listing never shows a URL with more hits after one with fewer. |
| URLs.SortedListingTiesByString | URLReport.java:21-29 | In a day's listing, URLs with the same count appear in `String.compareTo` order. |
| URLs.SortedListingUnique | URLReport.java:120-124 | The listing of a map is unique, so the hash map's iteration order in `forEach` cannot show in the output. |
| Dates.NormalizeDate | URLReport.java:200-202 | As written: the day is the 86,400,000-millisecond window that contains the wrapped product `timestamp*1000`. |
| Dates.WrapLong | URLReport.java:201 | Two's-complement `long` arithmetic: the result agrees with the exact value modulo 2^64, and equals it whenever the exact value fits in a long. |
| Dates.EpochDay | URLReport.java:196-199 | The day the comment describes: the 86400-second window that contains the timestamp. |
| Dates.NormalizeDateIsEpochDay | URLReport.java:200-202 | While `timestamp*1000` fits in a long, `normalizeDate` is the GMT day containing the timestamp. Negative timestamps round toward the earlier day. |
| Dates.SameDayIffSameWindow | URLReport.java:200-202 | Two timestamps in that range share a day (and so a `DateNode`) exactly when they lie in the same 86400-second window. |
| Dates.NormalizeDateMonotone | URLReport.java:200-202 | Within that range, a later timestamp never lands on an earlier day. |
| Dates.NormalizeDateOverflows | URLReport.java:201 | Just past that range, the product wraps and a far-future timestamp is filed under a day before 1970. |
| Report.ParseLine | URLReport.java:174-176 | The URL string that parsing yields is already trimmed. |
| Report.LineKey | URLReport.java:174-185 | The key `addURL` counts a line under. It is `None` exactly when `addURL` returns false: `data[0]`, `parseLong` or `data[1]` throws, or the URL constructor does. Otherwise it is (`normalizeDate(ts)`, trimmed URL). |
| Report.ParseLineRoundTrip | URLReport.java:174-176 | Parsing the line made of `Long.toString(ts)`, a bar and `url`, with or without further bar-separated fields, gives back `ts` and `url`. Here `url` is non-empty, has no bar and no surrounding white space. |
| Report.ParseLineNeedsSecondField | URLReport.java:174-176 | A bar-free field alone is rejected, and so is that field followed by one bar, because `split` drops the trailing empty string. |
| Report.ParseLineRejectsNoSecondField | URLReport.java:174-176 | A bar-free field followed only by bars, any number of them, is rejected. `split` drops every trailing empty string, so `data[1]` throws. |
| Report.ParseLineRejectsBadTimestamp | URLReport.java:174-175 | A line whose first field, trimmed, is not a valid long is rejected, alone or followed by a bar and anything else. |
| Report.LineKeyRejectsBareWww | URLReport.java:176-185 | A line whose URL is `www.` parses, but `addURL` rejects it, because the URL constructor throws. |
| Report.DateNode.constructor | URLReport.java:101-104 | A new day node has its date, an empty map and no links. |
| Report.DateNode.CompareTo | URLReport.java:107-109 | Negative, zero or positive exactly as the node's date is before, equal to or after the other node's date. |
| Report.DateNode.SetOrIncrementURL | URLReport.java:128-137 | For an existing key the count rises by exactly 1. A new key enters with a fresh record of count 1, or the call throws when the URL constructor does. Every other key and record is unchanged. |
| Report.DateNode.PrintURLStats | URLReport.java:115-125 | It requires a non-empty map, since a `PriorityQueue` with initial capacity 0 throws. The emitted records are exactly the day's records, each key's own one, each once, in strictly increasing order of the selected comparator. |
| Report.URLReport.constructor | URLReport.java:146-149 | The new report is valid and empty: no days, no list, every count 0. |
| Report.URLReport.PrintDateStats | URLReport.java:157-164 | Walking from `head` reports every day of `dateMap`, in strictly ascending date order. Each day carries its sorted URL listing. Under `Valid()`, no listed day reaches `printURLStats` with an empty map. |
| Report.DaysListed | URLReport.java:157-164 | A report that follows the list node by node lists each date of `dateMap` once, in ascending order, and no other date. |
| Report.URLReport.AddURL | URLReport.java:172-194 | `addURL` returns true exactly when the line parses and the URL constructor succeeds. Then exactly one count rises by 1, that of (`normalizeDate(ts)`, trimmed URL), and the day joins `dateMap` if it was new. On false, `dateMap`, `head`, the list and every count are left as before. The invariant is kept. The count change is also stated on snapshots of all counts. |
| Report.HitKey | URLReport.java:179-185 | The key a hit for (date, URL) is counted under. It is present exactly when the URL constructor succeeds, and is then (date, URL). |
| Report.URLReport.CountHit | URLReport.java:177-188 | After parsing, the hit for (date, URL) is counted on the day's existing node or on a new one. It succeeds exactly when the hit has a key, and only that key's count changes. |
| Report.URLReport.CountOnExistingDay | URLReport.java:179-182 | On a day already present, `setOrIncrementURL` raises only that day's count for the URL. |
| Report.URLReport.CountOnNewDay | URLReport.java:183-188 | On a new day, the node is created and counted first. It is linked and entered in `dateMap` only when the URL constructor did not throw. |
| Report.URLReport.LinkNewDay | URLReport.java:186-187 | Inserting the new node and putting it in `dateMap` adds exactly that day, with the node's counts. Every other day's counts are unchanged. |
| Report.URLReport.InsertDateNodeOrdered | URLReport.java:205-226 | Given a strictly ascending list and a node with a new date: the list becomes the old one with the node inserted at one position, still strictly ascending and linked both ways. `head` ends at the least date. |
| Report.URLReport.PushFront | URLReport.java:209-213 | A node earlier than the head becomes the new head and links to the old one both ways. |
| Report.URLReport.FindPredecessor | URLReport.java:215-218 | The walk stops at the last node dated before the new node: the node after it, if any, is dated after the new node. |
| Report.URLReport.SpliceAfter | URLReport.java:219-224 | Rewiring places the new node right after that node. All `next`/`prev` links agree with the new order. |
| Report.AscendingInsert | URLReport.java:205-226 | A node placed between its date neighbours keeps the list strictly ascending. |
| Report.ChainedAfterSplice | URLReport.java:219-224 | The four pointer writes of the splice link the whole list correctly. |
| Report.ChainedAfterPrepend | URLReport.java:209-212 | The pointer writes of the prepend link the whole list correctly. |
| Report.InsertedMembers | URLReport.java:205-226 | After an insertion, the list holds the old nodes and the new one, and nothing else. |
| Report.URLReport.AddLines | URLReport.java:245-250 | Feeding every line to `addURL` in order collects exactly the rejected lines, in input order. Each (day, URL) count rises by the number of accepted lines with that key. |
| Report.URLReport.ReadLine | URLReport.java:246-249 | One turn of the read loop. Given the rejected lines and counts for the first i lines, it calls `addURL` on line i. Afterwards the rejected lines and counts are those for the first i + 1 lines, and the invariant still holds. |
| Report.CountsStep | URLReport.java:245-250 | One turn of the read loop, on snapshots of all counts: the counts after a line are the starting counts plus the keys accepted so far, that line's key included. |
| Report.LinesPartition | URLReport.java:245-250 | Every line is accepted or rejected. The number of counted hits plus the number of rejected lines is the number of lines. |
| Report.RejectedLinesExact | URLReport.java:247-248 | A line is reported as rejected exactly when it is one of the input lines and `addURL` returns false on it. |
| Report.AcceptedKeysSound | URLReport.java:245-250 | Every counted (day, URL) key comes from an input line that `addURL` accepts. |
| Report.AcceptedKeysComplete | URLReport.java:245-250 | The key of every accepted input line is counted. |

## Left out

- `ProducerConsumer.java` is not part of this model. It is a concurrent demonstration (locks, conditions, a thread pool, endless loops) with no part in the aggregation.
- `main`: opening and closing the file, `Scanner`, the usage message and `System.exit` are I/O. The read loop is modelled by `AddLines`, which takes the file's lines as a sequence. Its standard-error message is the returned list of rejected lines.
- Printing and formatting (`String.format`, `System.out.println`, the `MM/dd/yyyy` `DateTimeFormatter` and the `GMT` suffix) are left out. `PrintURLStats` and `PrintDateStats` return what they would print, as sequences.
- `java.time` is replaced by day arithmetic for the fixed `GMT` zone. A `LocalDate` is its day number since 1970-01-01.
- `Report.DateNode.SetOrIncrementURL`: the Java `int` hit count is unbounded here. The wrap after 2^31-1 hits of one URL on one day is not modelled.
- `Report.DateNode.CompareTo`: returns only the sign of the date difference. `LocalDate.compareTo` may return other magnitudes, and its only caller uses only the sign.
- `JavaString.ToLower`: lowercases ASCII letters only. Locale-dependent and non-ASCII case mappings of `toLowerCase` are not modelled.
- `JavaString.ParseLong`: accepts ASCII digits only. Java's `Long.parseLong` also accepts every other Unicode decimal digit, so a line whose timestamp is `١` (U+0661) is counted by Java and rejected here.
- `URLs.NormalizeURL`: its `substring` indices count Unicode scalar values, not UTF-16 code units. On inputs with characters outside the Basic Multilingual Plane, the Java indices land elsewhere. For example, Java does not throw on `http://` followed by an emoji and `www.`, but the model does.
- `JavaString.CompareStrings`: compares characters as Unicode scalar values. Java compares UTF-16 code units, which orders characters outside the Basic Multilingual Plane differently.
- `URLs.NewURL`: the `normURLString` field and `URL.equals` are left out. The aggregation never calls `equals`. Of `normalizeURL`, only whether it throws can change what is counted.
- `HashMap` and `PriorityQueue` internals are not modelled. Maps are Dafny maps. The queue is a pool from which the least element is taken repeatedly. Because the comparator is a strict total order, the drained order does not depend on the heap layout or on hash iteration order (`URLs.SortedListingUnique`).
- URL records are values in `urlMap`. The in-place `url.hitCount += 1` is modelled as replacing the key's record, which no other reference can observe.
- `addURL` is split into `CountHit`, `CountOnExistingDay`, `CountOnNewDay` and `LinkNewDay`. `insertDateNodeOrdered` is split into `PushFront`, `FindPredecessor` and `SpliceAfter`. Each is one branch or step of the Java method, kept apart so that each proof stays small.

## Findings

| source | as written | input that shows it | evidently intended | confidence | as-written member | corrected member |
|---|---|---|---|---|---|---|
| URLReport.java:68-73 | After matching `http://` (7 characters) `normalizeURL` drops 8, and after `www.` (4 characters) it drops 5. It loses the host's first letter, and throws on `www.` and `http://`. | `http://example.com` normalises to `xample.com`. A line with timestamp 0 and URL `www.` is rejected because the URL constructor throws. | Drop exactly the matched prefix: `http://example.com` and `example.com` both normalise to `example.com`. | high (not executed) | URLs.NormalizeURL (URLs.NormalizeURLDropsOneTooMany, URLs.NormalizeURLThrowsOnBarePrefix, Report.LineKeyRejectsBareWww) | URLs.NormalizeURLIntended (URLs.NormalizeURLIntendedIgnoresPrefixes) |
| URLReport.java:201 | `timestamp*1000` is a `long` product and wraps silently for timestamps beyond about 9.2e15 seconds. | The timestamp 9223372036854776 is filed under a day before 1970. | The GMT day containing the timestamp, `floorDiv(timestamp, 86400)`. | medium (not executed) | Dates.NormalizeDate (Dates.NormalizeDateOverflows) | Dates.EpochDay (Dates.NormalizeDateIsEpochDay) |

The aggregation (`Report.LineKey`, `Report.URLReport.AddURL`) keeps the as-written `normalizeURL` and `normalizeDate`. These decide which lines `addURL` accepts and under which day it counts them. The corrected definitions are proved equal to the as-written ones wherever the as-written ones behave as intended: on inputs without either prefix (the postcondition of `URLs.NormalizeURL` for such inputs, together with the first postcondition of `URLs.NormalizeURLIntendedIgnoresPrefixes`), and on timestamps whose product fits in a long (`Dates.NormalizeDateIsEpochDay`).
