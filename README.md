# SimString in Dafny

A model of the core of SimString, a Java library for approximate dictionary matching.
It follows the CPMerge algorithm of Okazaki and Tsujii, "Simple and Efficient Algorithm
for Approximate Dictionary Matching" (COLING 2010). The library works like this:

- Every string is turned into a set of character n-grams, trigrams by default. The
  string is padded on the left with U+0001 up to the n-gram length. An n-gram that
  occurs several times is told apart by a repetition number.
- The number of features is the size of a string.
- The index keeps an append-only vocabulary, where a string's position is its *sid*.
  It also keeps a vector of inverted lists. Slot `l - 1` maps each feature to the
  ascending list of sids of the strings of size `l` that have the feature.
- A query is answered size class by size class. For each admissible size `l`, the
  posting lists of the query's features are fetched and sorted, absent lists first
  and then by length. An overlap join then counts each sid in the lists:
  - the first `|X| - minOverlap + 1` lists are scanned in full;
  - the candidates they produce are looked up by binary search in the remaining lists;
  - a candidate is dropped as soon as it reaches `minOverlap` (and is reported) or can
    no longer reach it.

The project has five modules:

- `Counting`: counting over sequences, and duplicate-free sequences.
- `Ngrams`: `NgramGenerator`, the feature extraction.
- `Postings`: `InvertedList`, a class whose `postings` map is updated in place.
- `Index`: `SimStringIndex`, a class over a sequence of `InvertedList?` references,
  plus the vocabulary.
  - It is tied to a ghost vector of abstract slots.
  - It has an index invariant: every present list is non-empty, strictly ascending and
    names only strings of its size class that have its feature; every stored string is
    listed under each of its features; the size class of every stored string is
    allocated; and the vector is exactly as long as the largest stored size, with only
    size classes of stored strings allocated. The invariant fixes the whole index from
    the vocabulary.
  - It has the comparator sort used by `getAndSort`, done in place on an array.
- `Matching`: `SimString`, namely the overlap join, retrieval over all size classes,
  `searchForOne` and `addAll`.

The similarity measure is a parameter. `Distance` carries the three functions the
algorithm asks of it (`minSize`, `maxSize` and `minOverlap`) at a fixed threshold. What
retrieval promises is stated against the predicate `Matches`: the candidate's size lies
in `[max(minSize(q), 1), maxSize(q)]` and its overlap with the query reaches
`max(minOverlap(q, l), 1)`.

## Model

| member | source | states |
|---|---|---|
| `Ngrams.PadLeft` | src/main/java/simstring/NgramGenerator.java:33-34 | The result has length the larger of n and the length of s and ends with s, and everything before s is the U+0001 mark. |
| `Ngrams.Windows` | src/main/java/simstring/NgramGenerator.java:38 | There are (length of s) - n + 1 windows, and window i is the length-n substring starting at i. |
| `Ngrams.RawNgrams` | src/main/java/simstring/NgramGenerator.java:33-38 | The padded string yields exactly FeatureCount(s, n) raw n-grams, which is the string's size. |
| `Ngrams.CharacterNgrams` | src/main/java/simstring/NgramGenerator.java:32-51 | It yields FeatureCount >= 1 tokens, none twice. A token occurs iff it is a feature (gram g with repetition r < occurrences of g). It is a permutation of the reference enumeration. |
| `Ngrams.CountWindows` | src/main/java/simstring/NgramGenerator.java:35-41 | The statistics map has exactly the distinct windows as keys, each mapped to its number of occurrences. |
| `Ngrams.EmitTokens` | src/main/java/simstring/NgramGenerator.java:43-50 | In any key order, it emits distinct tokens: (g, r) occurs iff r < stats[g]. There is one token per window. |
| `Ngrams.FeatureSeqEnumeratesFeatures` | src/main/java/simstring/NgramGenerator.java:43-50 | The reference enumeration (each window tagged with the number of equal windows before it) has one feature per window, has no duplicates, and lists exactly the features. |
| `Ngrams.FeatureIsWindow` | src/main/java/simstring/NgramGenerator.java:38-48 | Every feature's gram is one of the raw windows and has length n. |
| `Postings.AscendingUnique` | src/main/java/simstring/SimStringIndex.java:79-81 | Two strictly ascending sid lists with the same elements are equal. |
| `Postings.Find` | src/main/java/simstring/InvertedList.java:36-38 | The lookup is None iff the key is absent, and otherwise it is the stored list. |
| `Postings.InvertedList.constructor` | src/main/java/simstring/InvertedList.java:17-19 | A new inverted list has no keys. |
| `Postings.InvertedList.Put` | src/main/java/simstring/InvertedList.java:26-29 | Only key's list changes, and it becomes the old list (empty if the key was absent) followed by value. |
| `Postings.InvertedList.PutAll` | src/main/java/simstring/InvertedList.java:31-34 | Only key's list changes, and it becomes the old list followed by all of sids. The key becomes present even when sids is empty. |
| `Postings.InvertedList.Get` | src/main/java/simstring/InvertedList.java:36-38 | Get is None exactly for keys never put, and otherwise returns the stored list. |
| `Postings.InvertedList.KeySet` | src/main/java/simstring/InvertedList.java:40-42 | The key set holds exactly the keys whose lookup is present. |
| `Postings.GetDistinguishesAbsentFromEmpty` | src/main/java/simstring/InvertedList.java:8-38 | An unknown key gives None, while a key put with no sids gives a present empty list. |
| `Index.LookupAll` | src/main/java/simstring/SimStringIndex.java:113-117 | There is one fetched list per query feature, in query order. |
| `Index.Grow` | src/main/java/simstring/SimStringIndex.java:68-71 | The vector is grown to at least l slots, the old slots are kept, and the new ones are unallocated. |
| `Index.AppendToLists` | src/main/java/simstring/SimStringIndex.java:78-81 | sid is appended to the list of every given feature, and a missing list is created; every other list is kept. |
| `Index.AppendToListsSameFeatures` | src/main/java/simstring/SimStringIndex.java:79-81 | Filing depends only on which features are given, not on their (hash map) order. |
| `Index.Inserted` | src/main/java/simstring/SimStringIndex.java:65-82 | After filing, the vector covers the string's size class and that slot is allocated. |
| `Index.InsertedLists` | src/main/java/simstring/SimStringIndex.java:65-82 | After inserting str under a fresh sid, the list of (l, f) is the old list plus sid when l is str's size and f is one of its features. Every other list, present or absent, is unchanged. |
| `Index.InsertKeepsInvariant` | src/main/java/simstring/SimStringIndex.java:52-82 | Insertion preserves the index invariant: posting lists stay sound, non-empty and strictly ascending, every string is listed under each of its features, its size class exists, and no slot beyond the stored sizes appears. |
| `Index.InsertKeepsSound` | src/main/java/simstring/SimStringIndex.java:65-82 | After an insertion, every stored list is non-empty, strictly ascending, and names only strings of its size having its feature. |
| `Index.InsertKeepsComplete` | src/main/java/simstring/SimStringIndex.java:65-82 | After an insertion, every stored string, old or new, is in the list of each of its features in its size class. |
| `Index.InsertKeepsSizeClasses` | src/main/java/simstring/SimStringIndex.java:69-76 | After an insertion, the slot of every stored string's size class is allocated. |
| `Index.InsertKeepsNoSpareSlots` | src/main/java/simstring/SimStringIndex.java:66-76 | After an insertion, the vector is still as long as the largest stored size and its last slot is allocated, and every allocated slot is the size class of a stored string. |
| `Index.InsertedSlotKept` | src/main/java/simstring/SimStringIndex.java:68-76 | An insertion leaves every slot other than the string's size class as it was; slots added by growing are unallocated. |
| `Index.LookupMeaning` | src/main/java/simstring/SimStringIndex.java:107-117 | Under the invariant, the fetched list of (l, f) holds sid iff sid is a stored string of size l having feature f. |
| `Index.InvariantDeterminesLists` | src/main/java/simstring/SimStringIndex.java:52-82 | Two indexes satisfying the invariant for the same vocabulary give the same lookup for every size and feature: both absent, or the same list. |
| `Index.InvariantDeterminesSlots` | src/main/java/simstring/SimStringIndex.java:52-82 | Two slot vectors satisfying the invariant for the same vocabulary are equal, so the index is a function of the strings inserted. |
| `Index.FetchedListsAscending` | src/main/java/simstring/SimString.java:101 | Every fetched present list is strictly ascending, as binarySearch requires. |
| `Index.CountLookups` | src/main/java/simstring/SimStringIndex.java:103-117 | The number of fetched lists holding sid is sid's overlap with the query features when sid has size l, and 0 otherwise. |
| `Index.CompareOrdersByRank` | src/main/java/simstring/SimStringIndex.java:121-129 | The comparator orders by rank (null first, then by size) and is sign-antisymmetric, so it is a total preorder. |
| `Index.NullsComeFirst` | src/main/java/simstring/SimStringIndex.java:124-126 | In comparator order, every list before an absent one is absent. |
| `Index.RankSortedIsOrdered` | src/main/java/simstring/SimStringIndex.java:121-129 | A sequence whose ranks never decrease is ordered by the comparator. |
| `Index.SortPostings` | src/main/java/simstring/SimStringIndex.java:121-129 | The array ends ordered by the comparator and is a permutation of its old contents. |
| `Index.SinkLast` | src/main/java/simstring/SimStringIndex.java:121-129 | One insertion step extends the rank-sorted prefix by one element, and the array stays a permutation. |
| `Index.SimStringIndex.constructor` | src/main/java/simstring/SimStringIndex.java:38-46 | A new index is empty and satisfies the invariant. |
| `Index.SimStringIndex.Insert` | src/main/java/simstring/SimStringIndex.java:52-56 | The vocabulary gains exactly str, the slots become Inserted(old slots, str, old size), and the invariant holds. |
| `Index.SimStringIndex.AddToVocabulary` | src/main/java/simstring/SimStringIndex.java:59-63 | The returned sid is the old vocabulary length, and str is appended. |
| `Index.SimStringIndex.AddToIndex` | src/main/java/simstring/SimStringIndex.java:65-82 | The slots become Inserted(old slots, str, sid), and the vocabulary is unchanged. |
| `Index.SimStringIndex.FileUnder` | src/main/java/simstring/SimStringIndex.java:79-81 | After the put loop, the list is AppendToLists of its old contents. |
| `Index.SimStringIndex.GrowVector` | src/main/java/simstring/SimStringIndex.java:68-71 | The slots become Grow(old slots, l). |
| `Index.SimStringIndex.AllocateSlot` | src/main/java/simstring/SimStringIndex.java:73-76 | The slot becomes allocated, and an existing list is kept as it was. |
| `Index.SimStringIndex.GetString` | src/main/java/simstring/SimStringIndex.java:92-94 | It returns the string named by sid, and that sid is listed under every feature of the string in its size class. |
| `Index.SimStringIndex.Size` | src/main/java/simstring/SimStringIndex.java:153-155 | It returns the vector length, which is the largest size of a stored string, and 0 exactly when nothing is stored. |
| `Index.SimStringIndex.GetAndSort` | src/main/java/simstring/SimStringIndex.java:103-132 | It returns empty when the size class is missing, and otherwise a permutation of the per-feature lookups. The result is in comparator order, and every present list is strictly ascending. |
| `Matching.IsInvertedListEmpty` | src/main/java/simstring/SimString.java:58-66 | It is true iff every fetched list is absent. |
| `Matching.BinarySearch` | src/main/java/simstring/SimString.java:101 | A non-negative result is an index of key. A negative result means key is absent, and -(result + 1) is the insertion point. |
| `Matching.SignatureCounts` | src/main/java/simstring/SimString.java:77-87 | Each sid is counted exactly as many times as the first `end` lists hold it, and only sids with a non-zero count appear. |
| `Matching.CollectReached` | src/main/java/simstring/SimString.java:91-96 | It returns exactly the counted sids whose count reaches minOverlap, once each. |
| `Matching.ScanCandidates` | src/main/java/simstring/SimString.java:99-111 | Each candidate gains one iff list k holds it. Exactly those reaching minOverlap are reported, and those reaching it or unable to reach it are marked for pruning. |
| `Matching.Prune` | src/main/java/simstring/SimString.java:112-115 | Exactly the sids of pruneSet are removed, and the remaining counts are kept. |
| `Matching.ExtendOnce` | src/main/java/simstring/SimString.java:99-116 | One extension step keeps the join invariants: candidates carry their counts, reports are sound and complete, and pruned sids are gone. |
| `Matching.CountAndPrune` | src/main/java/simstring/SimString.java:74-118 | The join reports exactly the sids held by at least minOverlap fetched lists, each once (soundness, completeness, no duplicates). |
| `Matching.SignatureSuffices` | src/main/java/simstring/SimString.java:77-80 | A sid in at least minOverlap lists occurs in the first (query size) - minOverlap + 1 lists. |
| `Matching.CandidatesHaveList` | src/main/java/simstring/SimString.java:99-101 | While candidates remain, list k is present, so binarySearch never receives null. |
| `Matching.ExtendKeepsCounts` | src/main/java/simstring/SimString.java:99-116 | After a pass, the surviving candidates carry their counts over k + 1 lists and are below minOverlap. |
| `Matching.ExtendKeepsResults` | src/main/java/simstring/SimString.java:99-116 | After a pass, the reports stay distinct, sound and complete. |
| `Matching.AllAbsentCountsZero` | src/main/java/simstring/SimString.java:71-72 | When every list is absent, no sid is counted. |
| `Matching.AllAbsentPermutation` | src/main/java/simstring/SimString.java:70-72 | Sorting does not change whether every fetched list is absent. |
| `Matching.QueryMatchesItself` | src/main/java/simstring/SimString.java:34-52 | A stored copy of the query matches whenever the measure admits the query's own size with full overlap. |
| `Matching.AdmittedStep` | src/main/java/simstring/SimString.java:46-52 | Appending the join of size class l extends the admitted sids from sizes [lo, l) to [lo, l + 1), keeping them distinct. |
| `Matching.SimString.constructor` | src/main/java/simstring/SimString.java:23-25 | A new matcher has an empty, valid index with trigrams. |
| `Matching.SimString.OverlapJoin` | src/main/java/simstring/SimString.java:68-120 | It returns None iff no query feature has a list in class l, and then no string of size l shares a feature. Otherwise it returns each sid once: exactly the strings of size l sharing at least minOverlap features. |
| `Matching.SimString.RetrieveIds` | src/main/java/simstring/SimString.java:34-52 | Each sid appears once, and sid appears iff its string matches the query. |
| `Matching.SimString.Retrieve` | src/main/java/simstring/SimString.java:34-56 | A string is returned iff it is a stored string matching the query. |
| `Matching.SimString.SearchForOne` | src/main/java/simstring/SimString.java:137-143 | It returns None iff nothing matches, and otherwise a matching stored string. |
| `Matching.SimString.Add` | src/main/java/simstring/SimString.java:129 | One insertion appends the string to the vocabulary, files it exactly as Inserted does, and keeps the index valid. |
| `Matching.SimString.AddAll` | src/main/java/simstring/SimString.java:127-130 | The vocabulary gains all the strings in order, and the index stays valid, which fixes the whole slot vector. |

## Left out

- Cosine and the `double` threshold `alpha` are left out, since they involve floating
  point. Retrieval is stated for an arbitrary `Distance` at a fixed threshold; Cosine.java
  is not part of this model. `search(query, alpha)` only fixes Cosine, so `SearchForOne`
  takes the measure as a parameter.
- `computeSimilarity` is never called by the core, so it is left out.
- These members are left out because they hold no matching logic: logging, `toString`,
  `main`, `setSize`, `setNgramGenerator`, `getNgramGenerator`, `getVocabulary`, `clear`
  and `getInstance`. The n-gram size is a constant field of the index, and the default
  size of 3 is used by the `SimString` constructor.
- The Java `int` width is not modelled: sids, counts and sizes are unbounded, so
  overflow past 2^31 - 1 strings is out of scope.
- Posting lists are values (`seq<nat>`), not shared `ArrayList` objects. The source
  returns the stored list itself from `get` and `getAndSort`; a caller mutating it would
  alter the index, and that aliasing is not modelled.
- Hash map iteration order is left open. Each loop over `keySet()` picks an arbitrary
  remaining key, so every contract holds for every order.
- `Collections.sort` is modelled by an insertion sort that uses the source's
  comparator. The result is proved ordered and a permutation; stability is not stated.
- `StringUtils.padLeft` and `StringUtils.getCharacterNgrams` belong to a library that is
  not part of this model. They are modelled from their documented behaviour, as
  `PadLeft` and `Windows` (every length-n substring, left to right).
  `Collections.binarySearch` is modelled by its documented algorithm.
- Feature tokens are pairs `(gram, repetition)`. The source spells them as `gram` and
  `gram + repetition`. Every gram has the same length, so that spelling is one-to-one.
- `GetAndSort` and `OverlapJoin` require `l >= 1`, and `OverlapJoin` and `CountAndPrune`
  require `minOverlap >= 1`. For `l <= 0` the source throws at `index.get(l-1)`. `retrieve`
  always passes values that meet these requirements, because it takes `max(…, 1)`.
- Ngrams.PadLeft, Ngrams.Windows and Ngrams.CharacterNgrams: strings are modelled as
  sequences of Unicode code points, while Java's `length()` and `substring` count UTF-16
  code units. The counts agree only on text inside the Basic Multilingual Plane. A
  character outside it counts once here and twice in the source. This changes the
  padding, the windows, and hence the size class of such strings.
- Matching.SimString.AddAll: the contract states the new vocabulary and the index
  invariant rather than the slot vector as a fold of `Inserted` over the strings.
  `InvariantDeterminesSlots` shows that the invariant fixes the whole slot vector,
  given the vocabulary. So the contract determines the final index, but only through
  that lemma.
