# bookmark-generator, modelled in Dafny

The bookmark generator lists the Ingress resources of a Kubernetes cluster
and turns them into browser bookmark files. This project models the two
components that do the actual work:

- **Ingress extraction and aggregation** (`pkg/kubernetes/client.go`),
  in module `Kubernetes`:
  - `extractIngressInfo` flattens one ingress into `IngressInfo` records,
    one per (rule, path), or one per rule without an HTTP section. Rules
    with an empty host are skipped.
  - The URL scheme is `https` exactly when a TLS entry of the ingress lists
    the host.
  - `GetIngresses` concatenates the records of all ingresses and sorts them
    by URL.
  - `GetIngressesByNamespace` groups the records by namespace, keeps the
    first record of each host, and sorts each namespace's list by host.
- **Bookmark serialisers** (`pkg/bookmarks/generator.go`), in module
  `Bookmarks`:
  - `escapeHTML` escapes the five HTML special characters.
  - `generateGUID` is a 31-multiplier rolling hash, shown as a fixed-layout
    pseudo-UUID.
  - `GenerateFirefox` writes the Netscape bookmark HTML.
  - `GenerateChrome` builds Chrome's bookmark tree.

Supporting modules:

- `Text` writes out what the code takes from Go: the `<` order on strings,
  `%d`, and `%0Nx` on non-negative integers.
- `Sorting` stands in for `sort.Slice`. It is an in-place sort of an array,
  which promises only sortedness and a permutation, as Go does.
- `Wrappers` holds `Option`.

Each loop in the source is a Dafny `method` with loop invariants. Each method
is proved equal to a reference function (`Extracted`, `Grouped`, `Escaped`,
`GuidOf`, `FirefoxDocument`, `ChromeTree`), or is proved directly against
what the source promises (`GetIngresses`, `GetIngressesByNamespace`). Lemmas
then prove the properties of those functions.

Modelling choices:

- The cluster is not contacted. The ingresses that the `List` call would
  return are an input sequence of datatypes. These keep only the fields
  that the extraction reads.
- The clock is a parameter: a timestamp in seconds, as a `nat`.
- Go's `int` is 64 bits wide, so the GUID hash wraps modulo 2^64. The model
  keeps the hash as its unsigned 64-bit pattern, a `nat` below 2^64, and
  writes the wrap as `% 2^64`. `hash & 0xffffffff` becomes `% 2^32` and
  `hash & 0xffffffffffff` becomes `% 2^48`. For a two's-complement value
  these are the same bits. The model uses unbounded integers, not
  bit-vectors.
- The Chrome bookmark file is a datatype tree (`ChromeBookmarks`, `Roots`,
  `Node`), not JSON text. A node's JSON `"type"` is its constructor
  (`TypeOf`).
- `GenerateFirefox` and `GenerateChrome` build each child's title with a
  call to `Title`, where the Go code calls `fmt.Sprintf("%s (%s)", ...)`
  inline.
- The inner loop of `extractIngressInfo` (client.go:117-148) is the method
  `AppendPathRecords`. The per-host de-duplication loop of
  `GetIngressesByNamespace` (client.go:81-85) is `KeepFirstHosts`. Their
  callers use them exactly where the Go code runs those loops.

Behaviour of the code that the model keeps:

- A rule whose HTTP section is present but lists no paths yields **no**
  record: the path loop of client.go:116-117 runs zero times. The comment
  at client.go:150 speaks of "no HTTP paths" getting one record, but
  the code reaches that branch only when the HTTP section is absent. The
  model follows the code.
- A rule with no HTTP section yields one record whose `Path` is `"/"`, but
  whose URL is `scheme://host` with no path (client.go:166, 172).
- The first bookmark in the Chrome tree gets id `"1"`, which is also the
  id of the folder "Kubernetes Ingresses" that holds it (generator.go:59,
  75).
- Two URLs get the same GUID exactly when their hashes agree on the low
  48 bits (`GuidEqualIff`). Hashes collide too: "Aa" and "BB" both hash
  to 2112 and so get the same GUID (`GuidCollision`).

## Model

| member | source | states |
|---|---|---|
| Kubernetes.ResolveScheme | pkg/kubernetes/client.go:124-137 | the nested TLS loops with their two breaks give `Scheme(tls, host)`: "https" when some TLS entry lists the host, "http" otherwise |
| Kubernetes.SchemeIsHttpsIffTls | pkg/kubernetes/client.go:124-137 | the scheme is "https" if and only if some host of some TLS entry equals the rule's host, and "http" in every other case |
| Kubernetes.SchemePrefix | pkg/kubernetes/client.go:139 | a URL built from the scheme, "://", a non-empty host and any tail starts with "https://" exactly when a TLS entry lists the host |
| Kubernetes.AppendPathRecords | pkg/kubernetes/client.go:117-148 | the path loop appends one record per declared path, in order, to the records so far: `acc + PathRecords(...)` |
| Kubernetes.ExtractIngressInfo | pkg/kubernetes/client.go:107-179 | the loop over rules returns exactly `Extracted(ingress)`, the rule-by-rule concatenation of the per-rule records |
| Kubernetes.PathRecordsAt | pkg/kubernetes/client.go:117-147 | an HTTP section yields as many records as declared paths, and record k is the record of path k |
| Kubernetes.RuleRecordsShape | pkg/kubernetes/client.go:110-175 | an empty host yields nothing. No HTTP section yields one record with path "/" and URL scheme://host with no path. An HTTP section yields one record per path, in order, an empty path becoming "/", with URL scheme://host+path. Each record carries the ingress's name and namespace and the rule's host |
| Kubernetes.RulesRecordsConcat | pkg/kubernetes/client.go:110-176 | the records of a concatenation of rule lists are the concatenation of their records: rule order is kept |
| Kubernetes.ExtractedCount | pkg/kubernetes/client.go:110-176 | the number of records is the sum over rules of 0 (empty host), 1 (no HTTP section) or the number of paths |
| Kubernetes.ExtractedFacts | pkg/kubernetes/client.go:110-175 | every record has a non-empty host that is some rule's host, the ingress's name and namespace, a URL of the scheme, "://", the host and possibly the path, and an "https://" URL exactly when a TLS entry lists its host |
| Kubernetes.SortedCopy | pkg/kubernetes/client.go:57-59 | sorting a slice in place returns a sequence that is sorted by the key and is a permutation of the input |
| Kubernetes.GetIngresses | pkg/kubernetes/client.go:50-61 | the result is sorted non-decreasingly by URL, is a permutation of the concatenated extractions of all ingresses in listing order, and has the same length |
| Kubernetes.FirstWithHostNone | pkg/kubernetes/client.go:80-85 | no record with a host is found exactly when no record has that host |
| Kubernetes.FirstWithHostAt | pkg/kubernetes/client.go:80-85 | the record at the first position holding a host is the one found for that host |
| Kubernetes.FirstWithHostFound | pkg/kubernetes/client.go:80-85 | a record found for a host sits at the first position holding that host |
| Kubernetes.FirstWithHostMeaning | pkg/kubernetes/client.go:80-85 | the three facts above together: what "the first record with this host" means |
| Kubernetes.FirstWithHostAppend | pkg/kubernetes/client.go:73-85 | in a concatenation, the first record with a host comes from the left part if the host occurs there, otherwise from the right part |
| Kubernetes.FirstWithHostHasHost | pkg/kubernetes/client.go:80-85 | a record found for a host has that host and is one of the records |
| Kubernetes.KeepFirstMeaning | pkg/kubernetes/client.go:80-85 | after the de-duplication loop, a host is a key exactly when it was already a key or occurs in the records. Its value is the earlier value, or else the first record with that host |
| Kubernetes.KeepFirstHosts | pkg/kubernetes/client.go:81-85 | the loop stores a record only under a host that is not yet a key, giving `KeepFirst(start, infos)` |
| Kubernetes.GroupByNamespace | pkg/kubernetes/client.go:71-86 | the grouping loop, including the creation of an empty inner map for a new namespace, gives `Grouped(items)` |
| Kubernetes.NamespaceRecordsOutside | pkg/kubernetes/client.go:73-86 | a namespace with no listed ingress has no records |
| Kubernetes.NamespacesLast | pkg/kubernetes/client.go:73-78 | the namespaces of the listed ingresses grow by the namespace of each ingress visited |
| Kubernetes.GroupedStepSame | pkg/kubernetes/client.go:74-85 | visiting an ingress updates its own namespace's map to hold, for each host, the first record of that namespace so far |
| Kubernetes.GroupedStepOther | pkg/kubernetes/client.go:74-85 | visiting an ingress leaves the maps of all other namespaces unchanged |
| Kubernetes.GroupedMeaning | pkg/kubernetes/client.go:71-86 | the nested map has one key per namespace of any listed ingress, even one whose ingresses yield no record. Under it, there is one key per host among that namespace's records, holding the first record with that host in ingress-then-record order |
| Kubernetes.GroupedKeyedByHost | pkg/kubernetes/client.go:82-83 | every record in an inner map is stored under its own host |
| Kubernetes.GroupedHosts | pkg/kubernetes/client.go:80-85 | the keys of a namespace's map are exactly the hosts of that namespace's records |
| Kubernetes.MapValues | pkg/kubernetes/client.go:91-94 | ranging over a per-host map, in any order, collects each value once: no duplicates, every record is the map's value under its host, and every key is covered |
| Kubernetes.SortedValuesAreStrict | pkg/kubernetes/client.go:91-99 | sorting those values by host gives a list strictly ascending by host that holds exactly the map's values |
| Kubernetes.SortGroups | pkg/kubernetes/client.go:89-102 | the conversion loop produces one list per namespace key, each holding exactly that namespace's map values and strictly sorted by host |
| Kubernetes.GetIngressesByNamespace | pkg/kubernetes/client.go:71-104 | the keys are the namespaces of the listed ingresses. Each list is strictly ascending by host (no host twice) and has the same hosts as that namespace's records. Each entry is the first record with its host. A namespace without records maps to the empty list |
| Kubernetes.StrictlySortedUnique | pkg/kubernetes/client.go:97-99 | two lists strictly sorted by host that hold the same records are equal |
| Kubernetes.NamespaceListDeterministic | pkg/kubernetes/client.go:90-101 | what GetIngressesByNamespace promises fixes each list completely, so Go's map iteration order cannot change the result |
| Sorting.SortBy | pkg/kubernetes/client.go:57-59 | `sort.Slice` with a `<` comparison: afterwards the array is sorted by the key and is a permutation of its old contents |
| Sorting.NoDuplicatesMultiset | pkg/kubernetes/client.go:90-99 | a sequence has no duplicates exactly when every element occurs at most once in its multiset |
| Sorting.NoDuplicatesPermutation | pkg/kubernetes/client.go:97-99 | a permutation of a list without duplicates has none |
| Text.LessIrreflexive | pkg/kubernetes/client.go:58 | Go's `<` on strings is irreflexive |
| Text.LessTransitive | pkg/kubernetes/client.go:58 | Go's `<` on strings is transitive |
| Text.LessTotal | pkg/kubernetes/client.go:98 | any two strings are equal or one is less than the other |
| Text.LessAsymmetric | pkg/kubernetes/client.go:98 | `a < b` excludes `b < a` |
| Text.NotLessTransitive | pkg/kubernetes/client.go:57-59 | "not less" is transitive, so the order the sort establishes is a total preorder |
| Text.DecimalRoundTrip | pkg/bookmarks/generator.go:59 | `%d` of a non-negative number reads back as the number |
| Text.DecimalInjective | pkg/bookmarks/generator.go:59 | two numbers have the same `%d` text exactly when they are equal |
| Text.ParseAppendSixZeros | pkg/bookmarks/generator.go:57 | appending "000000" to a decimal multiplies its value by 10^6 |
| Text.HexIsLowerHex | pkg/bookmarks/generator.go:141 | every character of a `%0Nx` rendering is a lower-case hexadecimal digit |
| Text.HexRoundTrip | pkg/bookmarks/generator.go:141 | a `%0Nx` rendering of a number below 16^N reads back as the number |
| Text.HexSuffix | pkg/bookmarks/generator.go:141 | the last b digits of an N-digit rendering are the b-digit rendering |
| Text.HexMod | pkg/bookmarks/generator.go:141 | an N-digit rendering depends only on the number modulo 16^N |
| Bookmarks.EscapeHtml | pkg/bookmarks/generator.go:113-132 | the character loop returns `Escaped(s)`: each character replaced by its entity or copied, left to right |
| Bookmarks.EscapedConcat | pkg/bookmarks/generator.go:124-130 | escaping distributes over concatenation |
| Bookmarks.EscapedCons | pkg/bookmarks/generator.go:124-130 | escaping a string is escaping its first character followed by escaping the rest |
| Bookmarks.EscapedIdentity | pkg/bookmarks/generator.go:124-130 | a string with none of the five special characters is returned unchanged |
| Bookmarks.EscapedIsSafe | pkg/bookmarks/generator.go:115-130 | the output contains no raw `<`, `>`, `"` or `'` |
| Bookmarks.EscapedSingle | pkg/bookmarks/generator.go:115-121 | a one-character string escapes to that character's entry in the replacement table, or to itself |
| Bookmarks.EscapedTestCases | pkg/bookmarks/generator_test.go:106-110 | the package's escape table test rows, for any plain words in place of the test's words |
| Bookmarks.UnescapeEntity | pkg/bookmarks/generator.go:115-121 | each of the five entities reads back to its character |
| Bookmarks.UnescapePlain | pkg/bookmarks/generator.go:127-128 | a copied character reads back as itself |
| Bookmarks.UnescapeChar | pkg/bookmarks/generator.go:125-129 | whatever one character is escaped to reads back as that character |
| Bookmarks.UnescapeEscaped | pkg/bookmarks/generator.go:113-132 | escaping loses nothing: reading the entities back gives the original string |
| Bookmarks.EscapedInjective | pkg/bookmarks/generator.go:113-132 | two strings escape to the same text exactly when they are equal |
| Bookmarks.GenerateGuid | pkg/bookmarks/generator.go:134-142 | the hash loop, starting at 0 and wrapping at 64 bits, followed by the format gives `GuidOf(url)` |
| Bookmarks.GuidShape | pkg/bookmarks/generator.go:141 | every GUID has 36 characters, the fixed middle "-0000-4000-a000-", and lower-case hex digits in the first 8 and the last 12 positions |
| Bookmarks.GuidSegmentsAgree | pkg/bookmarks/generator.go:141 | the first segment equals the last 8 digits of the final segment, since both are the low 32 bits of the hash |
| Bookmarks.GuidSegmentsParse | pkg/bookmarks/generator.go:141 | the first segment reads back as the hash's low 32 bits, and the last as its low 48 bits |
| Bookmarks.GuidEqualIff | pkg/bookmarks/generator.go:137-141 | two hashes give the same GUID exactly when they agree on the low 48 bits |
| Bookmarks.GuidCollision | pkg/bookmarks/generator.go:137-141 | the distinct URLs "Aa" and "BB" get the same GUID, so the GUID does not identify its URL |
| Bookmarks.StampIsMicroseconds | pkg/bookmarks/generator.go:57 | a date stamp reads back as the timestamp times 10^6, that is, in microseconds |
| Bookmarks.GenerateFirefox | pkg/bookmarks/generator.go:20-47 | the loop with `+=` produces `FirefoxDocument(ingresses, timestamp)`: the preamble, then one line per record, then the closing tags |
| Bookmarks.EntriesConcat | pkg/bookmarks/generator.go:36-40 | the lines of a concatenation of record lists are the concatenation of their lines |
| Bookmarks.EntriesSplit | pkg/bookmarks/generator.go:36-40 | the lines come in input order: record k's line follows the lines of the records before it and precedes those after it |
| Bookmarks.FirefoxFrame | pkg/bookmarks/generator.go:23-44 | the document starts with the DOCTYPE and the whole preamble, and ends with the two closing list tags. For no records it is exactly the preamble followed by the closing tags |
| Bookmarks.FirefoxListsRecord | pkg/bookmarks/generator.go:37-39 | each record's raw URL and its escaped "host (namespace)" title occur in the document |
| Bookmarks.FirefoxListsPlainTitle | pkg/bookmarks/generator_test.go:40-51 | a title without special characters, such as "example.com (default)", occurs as it is |
| Bookmarks.ChildrenAt | pkg/bookmarks/generator.go:53-64 | child k is the bookmark built from record k |
| Bookmarks.GenerateChrome | pkg/bookmarks/generator.go:50-108 | the children loop, with the id taken from the current length, gives exactly `ChromeTree(Children(ingresses, timestamp), timestamp)` |
| Bookmarks.ChromeTreeShape | pkg/bookmarks/generator.go:66-108 | checksum "computed_checksum" and version 1. The bookmark bar holds exactly one entry, the folder "Kubernetes Ingresses", whose children are the given children. "other" and "synced" are empty folders. The folders have the literal ids "0", "1", "2" and "3" (which parse as 0 to 3), GUIDs ending in ...0 to ...3, and the generation time as both date_added and date_modified |
| Bookmarks.RootGuidsDistinct | pkg/bookmarks/generator.go:74-101 | no two of the four folders share a GUID |
| Bookmarks.ChildIds | pkg/bookmarks/generator.go:59 | child k's id reads as k+1, so no two children share an id |
| Bookmarks.ChildFacts | pkg/bookmarks/generator.go:55-63 | child k is a "url" node with record k's URL, the unescaped title "host (namespace)", the GUID of that URL in the fixed 36-character layout, and a date_added equal to the timestamp in microseconds |

## Left out

- `NewClient` and the `Ingresses("").List(...)` calls (client.go:29-41, 45,
  66) are cluster I/O. The listed ingresses are an input instead. So the
  error results of `GetIngresses` and `GetIngressesByNamespace` are not
  modelled; they only pass the list call's error through.
- `time.Now()` (generator.go:21, 51) is a `nat` parameter. So negative
  (pre-1970) timestamps, which `%d` would print with a sign, are not
  modelled.
- `json.MarshalIndent` (generator.go:110), its byte output, its key order
  and its error result are a foreign library. The tree is a datatype, and
  `"type"` is derived from the constructor.
- The conversion to `[]byte` of the Firefox HTML (generator.go:46) is not
  modelled; the document is a string.
- `internal/handlers/handler.go` and `cmd/bookmark-generator/main.go` are
  HTTP routing and configuration, and are not part of this model. The
  `GenerateFirefoxGrouped` and `GenerateChromeGrouped` that handler.go
  calls are not defined in generator.go, so they are not modelled.
- UTF-8 decoding: strings are sequences of Unicode code points. Go's
  replacement of invalid bytes by U+FFFD when ranging over a string is not
  modelled.
- Kubernetes.SortedCopy, Kubernetes.GetIngresses, Kubernetes.SortGroups:
  `sort.Slice` is not stable and its exact output order for equal keys is
  unspecified. The model states only sortedness and a permutation. For
  `GetIngresses`, records with equal URLs may therefore come in any order.
- Kubernetes.MapValues, Kubernetes.SortGroups: Go's map iteration order is
  a nondeterministic choice (`:|`). `NamespaceListDeterministic` shows that
  it does not affect the result.
- Go's `int` width: `%d` of the id `len(children)+1` and the 64-bit hash
  are the only places where it matters. The hash wrap is modelled; ids are
  unbounded.
