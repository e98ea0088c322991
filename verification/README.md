# HttpUtils query parsing and JSON headers, in Dafny

`HttpUtils` is a static facade over a pooled Apache HttpClient. It offers GET and POST
helpers (form-encoded and JSON bodies) and two string helpers. Most of it is network I/O
delegated to the library. This project models the two parts that carry their own logic:

- `parseQueryStringToMap(url)`. It takes the text after the first `?` and splits it on `&`.
  Each segment is split on `=`, and its two parts become a map entry only when that split
  has exactly two parts. A later segment overrides an earlier one with the same key.
  Nothing is percent-decoded. The behaviour hangs on Java's `String.split`, so that is
  modelled exactly (module `JavaString`):
  - The delimiter is one literal character.
  - The input itself is returned when the delimiter does not occur.
  - Otherwise trailing empty pieces are dropped, but leading ones are kept.
- The header map that `postWithJson` sends (module `JsonHeaders`). A null map counts as
  empty. `Content-Type` is then set to `application/json;charset=UTF-8` after the caller's
  entries, so it always wins. The two-argument overload passes an empty map.

Modules:

- `JavaNull`: `Option`, where `None` stands for a Java `null`.
- `JavaString`: the split model.
  - `Pieces` is a reference split defined one character at a time.
  - `Join` is its inverse.
  - `DropTrailingEmpty` drops trailing empty pieces.
  - `JavaSplit` is Java's `split`.
- `QueryString`:
  - `SubstringAfter` models `StringUtils.substringAfter`.
  - `SegmentPair` models the `pair.length == 2` test.
  - `Collect` is the `put` loop, written as a fold.
  - `ParseQueryStringToMap` is the whole function.
  - `ParseQueryStringToMapLoop` is the loop exactly as the source writes it.
- `JsonHeaders`: `MergeJsonHeaders`, `PostWithJson` and `PostWithJsonDefault`.

Because of Java's `split`, a segment with more than one `=` is not always dropped. Trailing
empty pieces vanish, so `a=b=` (and `a=b==`) is kept as `a -> b`. The code drops `a==b`,
`a=1=2`, `a=` and `=`, and it keeps `=b` with the empty key.

## Model

| member | source | states |
|---|---|---|
| `JavaString.Pieces` | src/main/java/com/meetgwo/utils/HttpUtils.java:209 | splitting at every delimiter gives one piece more than there are delimiters, and no piece contains the delimiter |
| `JavaString.JoinPieces` | src/main/java/com/meetgwo/utils/HttpUtils.java:209 | the pieces, joined again with the delimiter, give back the input string exactly |
| `JavaString.PiecesJoin` | src/main/java/com/meetgwo/utils/HttpUtils.java:209 | splitting delimiter-free pieces that were joined with the delimiter gives back exactly those pieces |
| `JavaString.DropTrailingEmpty` | src/main/java/com/meetgwo/utils/HttpUtils.java:211 | the result is the longest prefix that does not end in an empty string, and everything dropped is empty |
| `JavaString.JavaSplit` | src/main/java/com/meetgwo/utils/HttpUtils.java:209-211 | no part contains the delimiter, and there are at most one more parts than delimiters |
| `JavaString.JavaSplitRoundTrip` | src/main/java/com/meetgwo/utils/HttpUtils.java:209-211 | joining the parts of `split` gives the input minus only trailing delimiters; nothing else is lost or changed |
| `JavaString.JavaSplitJoin` | src/main/java/com/meetgwo/utils/HttpUtils.java:209-211 | `split` inverts join-plus-trailing-delimiters whenever the pieces are delimiter-free and the last one is non-empty |
| `JavaString.JavaSplitTwoParts` | src/main/java/com/meetgwo/utils/HttpUtils.java:211-212 | when `split` gives two parts, the input is the first part, the delimiter, the second part, then only more delimiters |
| `JavaString.JavaSplitOccurs` | src/main/java/com/meetgwo/utils/HttpUtils.java:209 | every part returned by `split` occurs unchanged as a contiguous substring of the input |
| `JavaString.JavaSplitExamples` | src/main/java/com/meetgwo/utils/HttpUtils.java:211 | Java's edge cases: `""`, `"a"`, `"="`, `"a="`, `"=b"`, `"a=b="` and `"a==b"` split on `=` as Java splits them |
| `QueryString.SubstringAfter` | src/main/java/com/meetgwo/utils/HttpUtils.java:208 | the result is the suffix that follows the first `?`, or empty when there is no `?` |
| `QueryString.SegmentPair` | src/main/java/com/meetgwo/utils/HttpUtils.java:211-213 | a kept pair has a key and value free of `=`, the value is non-empty, and `key=value` is a prefix of the segment |
| `QueryString.SegmentPairShape` | src/main/java/com/meetgwo/utils/HttpUtils.java:211-213 | a kept segment is exactly `key`, `=`, `value`, followed by nothing but more `=` |
| `QueryString.SegmentPairOfShape` | src/main/java/com/meetgwo/utils/HttpUtils.java:211-213 | conversely, every segment of that shape is kept with exactly that key and value |
| `QueryString.SegmentWithoutSeparatorDropped` | src/main/java/com/meetgwo/utils/HttpUtils.java:211-212 | a segment with no `=`, the empty segment included, adds nothing |
| `QueryString.SegmentEmptyValueDropped` | src/main/java/com/meetgwo/utils/HttpUtils.java:211-212 | a key followed only by `=` characters (`a=`, `a==`, `=`) adds nothing, because its value would be empty |
| `QueryString.SegmentExtraPartDropped` | src/main/java/com/meetgwo/utils/HttpUtils.java:211-212 | a segment whose second `=` is followed by more text (`a=1=2`, `a==b`) adds nothing |
| `QueryString.Collect` | src/main/java/com/meetgwo/utils/HttpUtils.java:210-215 | the map has at most one entry per segment, and no key or value contains `=` or is an empty value |
| `QueryString.CollectKeys` | src/main/java/com/meetgwo/utils/HttpUtils.java:210-215 | a key is in the map if and only if some segment is kept with that key |
| `QueryString.CollectLastWins` | src/main/java/com/meetgwo/utils/HttpUtils.java:210-213 | a key maps to the value of the last segment kept with that key, whatever earlier segments said |
| `QueryString.CollectEntry` | src/main/java/com/meetgwo/utils/HttpUtils.java:212-213 | every entry of the map is the pair of one of the segments |
| `QueryString.ParseQueryStringToMap` | src/main/java/com/meetgwo/utils/HttpUtils.java:202-217 | a null URL or one without `?` gives the empty map; the size is bounded by the number of `&`-segments; no key or value holds `=` |
| `QueryString.ParseQueryStringToMapLoop` | src/main/java/com/meetgwo/utils/HttpUtils.java:202-217 | the source's loop, one `put` per two-part segment, builds exactly the map of the functional definition |
| `QueryString.AfterFirstQueryMark` | src/main/java/com/meetgwo/utils/HttpUtils.java:205-209 | only the text after the first `?` is parsed; later `?` characters stay inside keys and values |
| `QueryString.ParseOfSegments` | src/main/java/com/meetgwo/utils/HttpUtils.java:208-215 | the map of a URL is the map of the `&`-segments of the text after its first `?` |
| `QueryString.EntriesOccurInQuery` | src/main/java/com/meetgwo/utils/HttpUtils.java:209-213 | every `key=value` occurs verbatim in the query text, neither part holds `&`, and nothing is decoded |
| `QueryString.ParseEmptyQuery` | src/main/java/com/meetgwo/utils/HttpUtils.java:205-213 | a URL that ends in `?` gives the empty map: its one segment is empty and has no `=` |
| `QueryString.ParseSingleSegment` | src/main/java/com/meetgwo/utils/HttpUtils.java:208-215 | a query text of one segment gives exactly that segment's pair, or the empty map when the segment is dropped |
| `QueryString.ParseDropsBareKey` | src/main/java/com/meetgwo/utils/HttpUtils.java:209-215 | in `k1=v1&k2=v2&bare` the segment without `=` is dropped and the two pairs are kept |
| `QueryString.ParseDropsTwoSeparators` | src/main/java/com/meetgwo/utils/HttpUtils.java:211-212 | `?a=1=2` splits into three parts and gives the empty map |
| `QueryString.ParseTrailingSeparator` | src/main/java/com/meetgwo/utils/HttpUtils.java:211-213 | `?a=b=` gives `{a: b}`, because `split` drops the trailing empty part |
| `QueryString.ParseEmptyValue` | src/main/java/com/meetgwo/utils/HttpUtils.java:211-212 | `?a=` gives the empty map |
| `QueryString.ParseEmptyKey` | src/main/java/com/meetgwo/utils/HttpUtils.java:211-213 | `?=b` gives the empty key mapped to `b` |
| `QueryString.ParseRepeatedKey` | src/main/java/com/meetgwo/utils/HttpUtils.java:210-213 | `k=v1&k=v2` gives `{k: v2}`: the last value wins |
| `QueryString.ParseSecondQueryMark` | src/main/java/com/meetgwo/utils/HttpUtils.java:208 | `?k=v?w` gives `{k: v?w}`: a second `?` stays inside the value |
| `JsonHeaders.MergeJsonHeaders` | src/main/java/com/meetgwo/utils/HttpUtils.java:92-97 | `Content-Type` is the JSON type whatever the caller gave, the keys are the caller's plus `Content-Type`, and every other header is unchanged; a null map acts as empty |
| `JsonHeaders.PostWithJson` | src/main/java/com/meetgwo/utils/HttpUtils.java:92-100 | the request carries the URL and the JSON text unchanged, the forced `Content-Type`, and exactly the caller's other headers |
| `JsonHeaders.PostWithJsonDefault` | src/main/java/com/meetgwo/utils/HttpUtils.java:81-84 | the two-argument form sends exactly one header, `Content-Type: application/json;charset=UTF-8` |
| `JsonHeaders.NullHeadersAreEmpty` | src/main/java/com/meetgwo/utils/HttpUtils.java:94 | a null header map gives the same request as an empty one |
| `JsonHeaders.CallerContentTypeOverridden` | src/main/java/com/meetgwo/utils/HttpUtils.java:97 | a caller's `Content-Type` is replaced in place: the header names and their number stay the same |
| `JsonHeaders.MergeIdempotent` | src/main/java/com/meetgwo/utils/HttpUtils.java:97 | merging an already merged map changes nothing |
| `JsonHeaders.OtherSpellingKept` | src/main/java/com/meetgwo/utils/HttpUtils.java:97 | map keys are compared exactly, so a caller's `content-type` stays beside the forced `Content-Type` |

## Left out

- The pooled client and its constants (200 connections, 10 per route, 5000/5000/10000 ms timeouts, HttpUtils.java:41-53): this only configures the library.
- `get` and `post` execution: request sending, reading the entity as UTF-8, and closing the response on every path (HttpUtils.java:61-73, 111-140, 146-196). This is network I/O inside the library, and exceptions simply propagate.
- How the request applies headers (`setHeader`, HttpUtils.java:121-123): the model stops at the header map that is passed. HttpClient matches header names without regard to case, and a `HashMap` iterates in no fixed order, so it is not modelled which of `content-type` and `Content-Type` reaches the wire.
- The content type that `StringEntity` itself carries (`ContentType.APPLICATION_JSON`, HttpUtils.java:99): it belongs to the library.
- The percent-encoding done by `URIBuilder.addParameter` and `UrlEncodedFormEntity` (HttpUtils.java:69, 174): library code that is not part of this model.
- `decodeUrl` (HttpUtils.java:219-227): it wraps `java.net.URLDecoder` and returns null when that throws. The decoder is not part of this model.
- The mutation of the caller's `HashMap` by `postWithJson` (HttpUtils.java:97): only the resulting header map is modelled, not the aliasing.
- `JsonHeaders.PostWithJson`: the JSON text is a string, never `null`. The source hands a null `json` to `new StringEntity` (HttpUtils.java:99), which throws `IllegalArgumentException`; that error is not modelled.
- `JsonHeaders.PostWithJson`: the header map is a map of strings with no `null` key or value. In the source a null key makes `setHeader` fail (HttpUtils.java:122), and a null value is passed on as it is; neither is modelled.
- `JsonHeaders.PostWithJsonDefault`: as for `PostWithJson`, a null `json` and the exception `StringEntity` throws for it are not modelled.
- Header values are `Object` in the source and are cast to `String` when applied. They are modelled as strings, so a non-string value's `ClassCastException` is not modelled.
- `ParseDropsBareKey`, `ParseRepeatedKey` and `ParseSecondQueryMark` are stated for any base URL without `?` and any plain keys and values, not for one literal URL each. The other `Parse…` examples fix the query text but also hold for any base URL without `?`.
