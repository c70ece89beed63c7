/** Approximate dictionary matching (SimString): the overlap join over the posting lists
    of one size class, and retrieval over all admissible size classes. */
module Matching {
  import opened Counting
  import opened Ngrams
  import opened Postings
  import opened Index

  function Max(a: int, b: int): int { if a < b then b else a }

  function Min(a: int, b: int): int { if a < b then a else b }

  /** A similarity measure at a fixed threshold: the smallest and largest candidate size for a
      query of size q, and the least overlap a candidate of size l needs. */
  datatype Distance = Distance(minSize: int -> int, maxSize: int -> int, minOverlap: (int, int) -> int)

  /** The fetched lists that are present are strictly ascending. */
  predicate AscendingLists(post: seq<Posting>) {
    forall p :: p in post && p.Some? ==> StrictlyAscending(p.value)
  }

  /** The join state a sid has at position k of the fetched lists: one count per list holding it. */
  lemma CountStep(post: seq<Posting>, k: nat)
    requires k < |post|
    ensures forall sid :: Count(post[..k + 1], sid) == Count(post[..k], sid) + (if Holds(post[k], sid) then 1 else 0)
  {
    forall sid ensures Count(post[..k + 1], sid) == Count(post[..k], sid) + (if Holds(post[k], sid) then 1 else 0) {
      CountIfSnoc(post, k, p => Holds(p, sid));
    }
  }

  /** Whether every fetched list is absent. */
  method IsInvertedListEmpty(post: seq<Posting>) returns (empty: bool)
    ensures empty <==> forall i :: 0 <= i < |post| ==> post[i].None?
  {
    empty := true;
    var i := 0;
    while i < |post|
      invariant 0 <= i <= |post|
      invariant empty && forall j :: 0 <= j < i ==> post[j].None?
    {
      if post[i].Some? {
        empty := false;
        break;
      }
      i := i + 1;
    }
  }

  /** The library's binary search on a sorted list: the index of key when present, otherwise
      -(insertion point + 1). */
  method BinarySearch(a: seq<nat>, key: nat) returns (idx: int)
    requires forall i, j :: 0 <= i < j < |a| ==> a[i] <= a[j]
    ensures 0 <= idx ==> idx < |a| && a[idx] == key
    ensures idx < 0 ==> key !in a
    ensures idx < 0 ==> var point := -(idx + 1);
      0 <= point <= |a| && (forall i :: 0 <= i < point ==> a[i] < key) && (forall i :: point <= i < |a| ==> key < a[i])
  {
    var low, high := 0, |a| - 1;
    while low <= high
      invariant 0 <= low <= high + 1 <= |a|
      invariant forall i :: 0 <= i < low ==> a[i] < key
      invariant forall i :: high < i < |a| ==> key < a[i]
    {
      var mid := (low + high) / 2;
      if a[mid] < key {
        low := mid + 1;
      } else if a[mid] > key {
        high := mid - 1;
      } else {
        return mid;
      }
    }
    idx := -(low + 1);
  }

  /** The signature pass: counts, over the first `end` lists, how many hold each sid. */
  method SignatureCounts(post: seq<Posting>, end: nat) returns (countMap: map<nat, nat>)
    requires end <= |post| && AscendingLists(post)
    ensures forall sid :: sid in countMap <==> Count(post[..end], sid) > 0
    ensures forall sid :: sid in countMap ==> countMap[sid] == Count(post[..end], sid)
  {
    countMap := map[];
    for k := 0 to end
      invariant forall sid :: sid in countMap <==> Count(post[..k], sid) > 0
      invariant forall sid :: sid in countMap ==> countMap[sid] == Count(post[..k], sid)
    {
      CountStep(post, k);
      if post[k].Some? {
        var list := post[k].value;
        assert post[k] in post;
        for j := 0 to |list|
          invariant forall sid :: sid in countMap <==> Count(post[..k], sid) > 0 || sid in list[..j]
          invariant forall sid :: sid in countMap ==>
            countMap[sid] == Count(post[..k], sid) + (if sid in list[..j] then 1 else 0)
        {
          var sid := list[j];
          assert list[..j + 1] == list[..j] + [sid];
          assert sid !in list[..j] by {
            forall i | 0 <= i < j ensures list[..j][i] != sid {
              assert list[i] < list[j];
            }
          }
          if sid !in countMap {
            countMap := countMap[sid := 0];
          }
          countMap := countMap[sid := countMap[sid] + 1];
        }
        assert list[..|list|] == list;
      }
    }
  }

  /** Every counted sid whose count reaches minOverlap, once each. */
  method CollectReached(countMap: map<nat, nat>, minOverlap: int) returns (results: seq<nat>)
    ensures Distinct(results)
    ensures forall sid :: sid in results <==> sid in countMap && countMap[sid] >= minOverlap
  {
    results := [];
    var keys := countMap.Keys;
    while keys != {}
      invariant keys <= countMap.Keys
      invariant Distinct(results)
      invariant forall sid :: sid in results <==> sid in countMap && sid !in keys && countMap[sid] >= minOverlap
      decreases keys
    {
      var sid :| sid in keys;
      if countMap[sid] >= minOverlap {
        DistinctSnoc(results, sid);
        results := results + [sid];
      }
      keys := keys - {sid};
    }
  }

  /** The removal pass: drops every sid of pruneSet from the counts. */
  method Prune(countMap: map<nat, nat>, pruneSet: seq<nat>) returns (rest: map<nat, nat>)
    ensures forall sid :: sid in rest <==> sid in countMap && sid !in pruneSet
    ensures forall sid :: sid in rest ==> rest[sid] == countMap[sid]
  {
    rest := countMap;
    for p := 0 to |pruneSet|
      invariant forall sid :: sid in rest <==> sid in countMap && sid !in pruneSet[..p]
      invariant forall sid :: sid in rest ==> rest[sid] == countMap[sid]
    {
      assert pruneSet[..p + 1] == pruneSet[..p] + [pruneSet[p]];
      rest := rest - {pruneSet[p]};
    }
    assert pruneSet[..|pruneSet|] == pruneSet;
  }

  /** One pass of the extension loop over the surviving candidates, at list k: a candidate
      found in list k gains one; one that reaches minOverlap is reported and marked for
      removal, and one that can no longer reach it with the remaining lists is marked too. */
  method ScanCandidates(post: seq<Posting>, k: nat, minOverlap: int,
                        countMap: map<nat, nat>, results: seq<nat>, pruneSet: seq<nat>)
    returns (countMap': map<nat, nat>, results': seq<nat>, pruneSet': seq<nat>)
    requires k < |post| && AscendingLists(post)
    requires countMap != map[] ==> post[k].Some?
    requires Distinct(results) && forall sid :: sid in results ==> sid !in countMap
    ensures countMap'.Keys == countMap.Keys
    ensures forall sid :: sid in countMap ==> countMap'[sid] == countMap[sid] + (if Holds(post[k], sid) then 1 else 0)
    ensures Distinct(results')
    ensures forall sid :: sid in results' <==> sid in results || (sid in countMap && countMap'[sid] >= minOverlap)
    ensures forall sid :: sid in pruneSet' <==> (sid in pruneSet ||
      (sid in countMap && (countMap'[sid] >= minOverlap || countMap'[sid] + (|post| - k - 1) < minOverlap)))
  {
    countMap', results', pruneSet' := countMap, results, pruneSet;
    var keys := countMap.Keys;
    while keys != {}
      invariant keys <= countMap.Keys && countMap'.Keys == countMap.Keys
      invariant forall sid :: sid in countMap ==>
        countMap'[sid] == countMap[sid] + (if sid !in keys && Holds(post[k], sid) then 1 else 0)
      invariant Distinct(results')
      invariant forall sid :: sid in results' <==> (sid in results ||
        (sid in countMap && sid !in keys && countMap'[sid] >= minOverlap))
      invariant forall sid :: sid in pruneSet' <==> (sid in pruneSet || (sid in countMap && sid !in keys &&
        (countMap'[sid] >= minOverlap || countMap'[sid] + (|post| - k - 1) < minOverlap)))
      decreases keys
    {
      var sid :| sid in keys;
      var list := post[k].value;
      assert post[k] in post;
      var found := BinarySearch(list, sid);
      assert found >= 0 <==> sid in list;
      if found >= 0 {
        countMap' := countMap'[sid := countMap'[sid] + 1];
      }
      if minOverlap <= countMap'[sid] {
        DistinctSnoc(results', sid);
        results' := results' + [sid];
        pruneSet' := pruneSet' + [sid];
      } else if countMap'[sid] + (|post| - k - 1) < minOverlap {
        pruneSet' := pruneSet' + [sid];
      }
      keys := keys - {sid};
    }
  }

  /** The overlap join on fetched lists sorted absent first, then by length: the sids held by
      at least minOverlap of the lists, each once. Only the first |post| - minOverlap + 1 lists
      are scanned in full (a sid in none of them is in too few lists); the candidates they
      produce are then looked up in each remaining list by binary search and dropped as soon
      as they reach minOverlap (reported) or cannot reach it any more. */
  method CountAndPrune(post: seq<Posting>, querySize: nat, minOverlap: int) returns (results: seq<nat>)
    requires |post| == querySize && minOverlap >= 1
    requires NullsFirstByLength(post) && AscendingLists(post)
    ensures Distinct(results)
    ensures forall sid :: sid in results <==> Count(post, sid) >= minOverlap
  {
    var signatureSize := querySize - minOverlap + 1;
    var k := Max(signatureSize, 0);
    var countMap := SignatureCounts(post, k);
    SignatureSuffices(post, k, minOverlap);

    results := [];
    if k == querySize {
      assert post[..k] == post;
      results := CollectReached(countMap, minOverlap);
    }
    var pruneSet: seq<nat> := [];
    var j := k;
    while j < querySize
      invariant k <= j <= querySize
      invariant CandidatesCounted(post, k, j, countMap)
      invariant j > k ==> CandidatesBelow(countMap, minOverlap)
      invariant PrunedGone(pruneSet, countMap)
      invariant ReportsSound(post, j, minOverlap, countMap, results)
      invariant ReportsComplete(post, j, minOverlap, countMap, results)
    {
      countMap, results, pruneSet, j := ExtendOnce(post, k, j, minOverlap, countMap, results, pruneSet);
    }
    assert post[..querySize] == post;
  }

  /** Every surviving candidate carries its count over the first k lists, and was met in one
      of the first k0. */
  ghost predicate CandidatesCounted(post: seq<Posting>, k0: nat, k: nat, countMap: map<nat, nat>) {
    k0 <= k <= |post| &&
    forall sid :: sid in countMap ==> countMap[sid] == Count(post[..k], sid) && Count(post[..k0], sid) > 0
  }

  /** No surviving candidate has reached minOverlap. */
  ghost predicate CandidatesBelow(countMap: map<nat, nat>, minOverlap: int) {
    forall sid :: sid in countMap ==> countMap[sid] < minOverlap
  }

  /** Pruned sids are no longer candidates. */
  ghost predicate PrunedGone(pruneSet: seq<nat>, countMap: map<nat, nat>) {
    forall sid :: sid in pruneSet ==> sid !in countMap
  }

  /** The reported sids are distinct, reach minOverlap and, while lists remain, are no
      longer candidates. */
  ghost predicate ReportsSound(post: seq<Posting>, k: nat, minOverlap: int, countMap: map<nat, nat>, results: seq<nat>) {
    Distinct(results) &&
    (k < |post| ==> forall sid :: sid in results ==> sid !in countMap) &&
    (forall sid :: sid in results ==> Count(post, sid) >= minOverlap)
  }

  /** Every sid reaching minOverlap is reported, or is a candidate with lists left to scan. */
  ghost predicate ReportsComplete(post: seq<Posting>, k: nat, minOverlap: int, countMap: map<nat, nat>, results: seq<nat>) {
    forall sid :: Count(post, sid) >= minOverlap ==> sid in results || (sid in countMap && k < |post|)
  }

  /** One iteration of the extension loop: scan the candidates against list k, then prune;
      next is the position of the list the following iteration scans. */
  method ExtendOnce(post: seq<Posting>, ghost k0: nat, k: nat, minOverlap: int,
                    countMap: map<nat, nat>, results: seq<nat>, pruneSet: seq<nat>)
    returns (countMap': map<nat, nat>, results': seq<nat>, pruneSet': seq<nat>, next: nat)
    requires k0 <= k < |post| && NullsFirstByLength(post) && AscendingLists(post)
    requires CandidatesCounted(post, k0, k, countMap)
    requires k > k0 ==> CandidatesBelow(countMap, minOverlap)
    requires PrunedGone(pruneSet, countMap)
    requires ReportsSound(post, k, minOverlap, countMap, results)
    requires ReportsComplete(post, k, minOverlap, countMap, results)
    ensures next == k + 1
    ensures CandidatesCounted(post, k0, next, countMap')
    ensures CandidatesBelow(countMap', minOverlap)
    ensures PrunedGone(pruneSet', countMap')
    ensures ReportsSound(post, next, minOverlap, countMap', results')
    ensures ReportsComplete(post, next, minOverlap, countMap', results')
  {
    next := k + 1;
    CandidatesHaveList(post, k0, k, countMap);
    var scanned;
    scanned, results', pruneSet' := ScanCandidates(post, k, minOverlap, countMap, results, pruneSet);
    countMap' := Prune(scanned, pruneSet');
    ExtendKeepsCounts(post, k0, k, minOverlap, countMap, scanned, pruneSet', countMap');
    ExtendKeepsResults(post, k0, k, minOverlap, countMap, results, pruneSet, scanned, results', pruneSet', countMap');
  }

  lemma CountPrefix(post: seq<Posting>, k: nat, sid: nat)
    requires k <= |post|
    ensures Count(post[..k], sid) <= Count(post, sid) <= Count(post[..k], sid) + (|post| - k)
  {
    CountIfPrefix(post, k, p => Holds(p, sid));
  }

  /** The surviving candidates of a pass carry their count over the first k + 1 lists and
      are below minOverlap. */
  lemma ExtendKeepsCounts(post: seq<Posting>, k0: nat, k: nat, minOverlap: int, countMap: map<nat, nat>,
                          scanned: map<nat, nat>, pruneSet': seq<nat>, countMap': map<nat, nat>)
    requires k0 <= k < |post|
    requires CandidatesCounted(post, k0, k, countMap)
    requires scanned.Keys == countMap.Keys
    requires forall sid :: sid in countMap ==> scanned[sid] == countMap[sid] + (if Holds(post[k], sid) then 1 else 0)
    requires forall sid :: sid in countMap && scanned[sid] >= minOverlap ==> sid in pruneSet'
    requires forall sid :: sid in countMap' <==> sid in scanned && sid !in pruneSet'
    requires forall sid :: sid in countMap' ==> countMap'[sid] == scanned[sid]
    ensures CandidatesCounted(post, k0, k + 1, countMap')
    ensures CandidatesBelow(countMap', minOverlap)
  {
    CountStep(post, k);
  }

  /** The reports of a pass keep the results distinct, sound and complete. */
  lemma ExtendKeepsResults(post: seq<Posting>, k0: nat, k: nat, minOverlap: int,
                           countMap: map<nat, nat>, results: seq<nat>, pruneSet: seq<nat>,
                           scanned: map<nat, nat>, results': seq<nat>, pruneSet': seq<nat>, countMap': map<nat, nat>)
    requires k0 <= k < |post|
    requires CandidatesCounted(post, k0, k, countMap)
    requires PrunedGone(pruneSet, countMap)
    requires ReportsSound(post, k, minOverlap, countMap, results)
    requires ReportsComplete(post, k, minOverlap, countMap, results)
    requires scanned.Keys == countMap.Keys
    requires forall sid :: sid in countMap ==> scanned[sid] == countMap[sid] + (if Holds(post[k], sid) then 1 else 0)
    requires Distinct(results')
    requires forall sid :: sid in results' <==> sid in results || (sid in countMap && scanned[sid] >= minOverlap)
    requires forall sid :: sid in pruneSet' <==> (sid in pruneSet ||
      (sid in countMap && (scanned[sid] >= minOverlap || scanned[sid] + (|post| - k - 1) < minOverlap)))
    requires forall sid :: sid in countMap' <==> sid in scanned && sid !in pruneSet'
    ensures PrunedGone(pruneSet', countMap')
    ensures ReportsSound(post, k + 1, minOverlap, countMap', results')
    ensures ReportsComplete(post, k + 1, minOverlap, countMap', results')
  {
    CountStep(post, k);
    forall sid | sid in countMap
      ensures Count(post[..k + 1], sid) <= Count(post, sid) <= Count(post[..k + 1], sid) + (|post| - k - 1)
    {
      CountPrefix(post, k + 1, sid);
    }
    assert post[..|post|] == post;
  }

  /** Scanning the first max(|post| - minOverlap + 1, 0) lists in full finds every sid that
      can reach minOverlap. */
  lemma SignatureSuffices(post: seq<Posting>, k: nat, minOverlap: int)
    requires minOverlap >= 1 && k == Max(|post| - minOverlap + 1, 0)
    ensures k <= |post|
    ensures forall sid :: Count(post, sid) >= minOverlap ==> Count(post[..k], sid) > 0
  {
    forall sid | Count(post, sid) >= minOverlap ensures Count(post[..k], sid) > 0 {
      CountIfPrefix(post, k, p => Holds(p, sid));
    }
  }

  /** A candidate was found in a list before k0; with absent lists first, list k is present. */
  lemma CandidatesHaveList(post: seq<Posting>, k0: nat, k: nat, countMap: map<nat, nat>)
    requires k0 <= k < |post| && NullsFirstByLength(post)
    requires forall sid :: sid in countMap ==> Count(post[..k0], sid) > 0
    ensures countMap != map[] ==> post[k].Some?
  {
    if countMap != map[] {
      var sid :| sid in countMap;
      var j :| 0 <= j < k0 && Holds(post[..k0][j], sid);
      assert post[j].Some? && Compare(post[j], post[k]) <= 0;
    }
  }

  /** Whether string s, of the index with n-gram size n, is a match for query under d: its
      size lies in the admissible range and it shares enough features with the query. */
  ghost predicate Matches(d: Distance, query: string, s: string, n: nat)
    requires n >= 1
  {
    var q := FeatureCount(query, n);
    var l := FeatureCount(s, n);
    Max(d.minSize(q), 1) <= l <= d.maxSize(q) &&
    Overlap(FeatureSeq(query, n), s, n) >= Max(d.minOverlap(q, l), 1)
  }

  /** When every fetched list is absent, the count of every sid is zero. */
  lemma AllAbsentCountsZero(post: seq<Posting>, sid: nat)
    requires forall i :: 0 <= i < |post| ==> post[i].None?
    ensures Count(post, sid) == 0
  {
  }

  /** A permutation of the fetched lists has absent lists only exactly when the original has. */
  lemma AllAbsentPermutation(a: seq<Posting>, b: seq<Posting>)
    requires multiset(a) == multiset(b)
    ensures (forall i :: 0 <= i < |a| ==> a[i].None?) <==> (forall i :: 0 <= i < |b| ==> b[i].None?)
  {
    CountIfPermutation(a, b, (p: Posting) => p.Some?);
  }

  /** A stored string equal to the query is a match whenever the measure admits a candidate
      of the query's own size with full overlap, as a similarity threshold of at most 1 does. */
  lemma QueryMatchesItself(d: Distance, query: string, n: nat)
    requires n >= 1
    requires var q := FeatureCount(query, n); d.minSize(q) <= q <= d.maxSize(q) && d.minOverlap(q, q) <= q
    ensures Matches(d, query, query, n)
  {
    var fs := FeatureSeq(query, n);
    FeatureSeqEnumeratesFeatures(query, n);
    forall i | 0 <= i < |fs| ensures IsFeature(query, n, fs[i]) {
      assert fs[i] in fs;
    }
    CountIfAll(fs, f => IsFeature(query, n, f));
  }

  /** sid names a stored string whose size lies in [lo, hi) and that shares with the query
      features at least the overlap its size demands. */
  ghost predicate Admitted(vocabulary: seq<string>, n: nat, queryFeatures: seq<Feature>, d: Distance, lo: int, hi: int, sid: int)
    requires n >= 1
  {
    0 <= sid < |vocabulary| &&
    lo <= FeatureCount(vocabulary[sid], n) < hi &&
    Overlap(queryFeatures, vocabulary[sid], n) >= Max(d.minOverlap(|queryFeatures|, FeatureCount(vocabulary[sid], n)), 1)
  }

  /** Adding the join result of size class l extends the admitted sids from [lo, l) to
      [lo, l + 1), keeping them distinct. */
  lemma AdmittedStep(vocabulary: seq<string>, n: nat, queryFeatures: seq<Feature>, d: Distance, lo: int, l: int,
                     sids: seq<nat>, found: seq<nat>)
    requires n >= 1 && lo <= l
    requires Distinct(sids) && forall sid :: sid in sids <==> Admitted(vocabulary, n, queryFeatures, d, lo, l, sid)
    requires Distinct(found)
    requires forall sid :: sid in found <==> (0 <= sid < |vocabulary| && FeatureCount(vocabulary[sid], n) == l &&
      Overlap(queryFeatures, vocabulary[sid], n) >= Max(d.minOverlap(|queryFeatures|, l), 1))
    ensures Distinct(sids + found)
    ensures forall sid :: sid in sids + found <==> Admitted(vocabulary, n, queryFeatures, d, lo, l + 1, sid)
  {
    DistinctAppend(sids, found);
  }

  class SimString {
    const index: SimStringIndex

    ghost predicate Valid()
      reads this, index, index.Repr
    {
      index.Valid()
    }

    /** t is a stored string that matches query under d. */
    ghost predicate MatchStored(d: Distance, query: string, t: string)
      reads this, index
      requires index.ngramSize >= 1
    {
      exists sid :: 0 <= sid < |index.vocabulary| && index.vocabulary[sid] == t && Matches(d, query, t, index.ngramSize)
    }

    /** A matcher over an empty index using the default n-gram size. */
    constructor()
      ensures Valid() && fresh(index) && fresh(index.Repr)
      ensures index.vocabulary == [] && index.ngramSize == DefaultNgramSize
    {
      index := new SimStringIndex(DefaultNgramSize);
    }

    /** The sids of size class l sharing at least minOverlap of the query features ngrams,
        each once; None when every query feature is absent from that class. */
    method OverlapJoin(ngrams: seq<Feature>, minOverlap: int, l: int) returns (r: Option<seq<nat>>)
      requires Valid() && l >= 1 && minOverlap >= 1
      ensures r.None? <==> forall i :: 0 <= i < |ngrams| ==> Lookup(index.Slots, l, ngrams[i]).None?
      ensures r.None? ==> forall sid :: 0 <= sid < |index.vocabulary| && FeatureCount(index.vocabulary[sid], index.ngramSize) == l ==>
        Overlap(ngrams, index.vocabulary[sid], index.ngramSize) == 0
      ensures r.Some? ==> Distinct(r.value)
      ensures r.Some? ==> forall sid :: sid in r.value <==>
        0 <= sid < |index.vocabulary| && FeatureCount(index.vocabulary[sid], index.ngramSize) == l &&
        Overlap(ngrams, index.vocabulary[sid], index.ngramSize) >= minOverlap
    {
      var post := index.GetAndSort(ngrams, l);
      ghost var fetched := LookupAll(index.Slots, l, ngrams);
      ghost var slotExists := l <= |index.Slots| && index.Slots[l - 1].Some?;
      if slotExists {
        AllAbsentPermutation(post, fetched);
      } else {
        assert forall i :: 0 <= i < |ngrams| ==> fetched[i].None?;
      }
      var empty := IsInvertedListEmpty(post);
      if empty {
        forall sid | 0 <= sid < |index.vocabulary| && FeatureCount(index.vocabulary[sid], index.ngramSize) == l
          ensures Overlap(ngrams, index.vocabulary[sid], index.ngramSize) == 0
        {
          CountLookups(index.Slots, index.vocabulary, index.ngramSize, l, ngrams, sid);
          AllAbsentCountsZero(fetched, sid);
        }
        return None;
      }
      assert |post| == |ngrams| by {
        assert |multiset(post)| == |multiset(fetched)|;
      }
      var results := CountAndPrune(post, |ngrams|, minOverlap);
      forall sid: nat ensures sid in results <==>
        sid < |index.vocabulary| && FeatureCount(index.vocabulary[sid], index.ngramSize) == l &&
        Overlap(ngrams, index.vocabulary[sid], index.ngramSize) >= minOverlap
      {
        CountIfPermutation(post, fetched, p => Holds(p, sid));
        CountLookups(index.Slots, index.vocabulary, index.ngramSize, l, ngrams, sid);
      }
      r := Some(results);
    }

    /** The sids of every stored string matching query under d, each once, gathered size
        class by size class from the smallest admissible size to the largest. */
    method RetrieveIds(query: string, d: Distance) returns (sids: seq<nat>)
      requires Valid()
      ensures Distinct(sids)
      ensures forall sid :: sid in sids <==>
        0 <= sid < |index.vocabulary| && Matches(d, query, index.vocabulary[sid], index.ngramSize)
    {
      var n := index.ngramSize;
      var queryFeatures := CharacterNgrams(query, n);
      var querySize := |queryFeatures|;
      var minCandidateSize := Max(d.minSize(querySize), 1);
      var maxCandidateSize := Min(d.maxSize(querySize), index.Size());
      ghost var vocabulary := index.vocabulary;
      sids := [];
      var l := minCandidateSize;
      while l <= maxCandidateSize
        invariant minCandidateSize <= l <= Max(maxCandidateSize + 1, minCandidateSize)
        invariant Distinct(sids)
        invariant forall sid :: sid in sids <==> Admitted(vocabulary, n, queryFeatures, d, minCandidateSize, l, sid)
      {
        var minOverlap := Max(d.minOverlap(querySize, l), 1);
        var res := OverlapJoin(queryFeatures, minOverlap, l);
        ghost var found := if res.Some? then res.value else [];
        AdmittedStep(vocabulary, n, queryFeatures, d, minCandidateSize, l, sids, found);
        if res.Some? {
          sids := sids + res.value;
        }
        l := l + 1;
      }
      forall sid | 0 <= sid < |vocabulary|
        ensures Admitted(vocabulary, n, queryFeatures, d, minCandidateSize, l, sid) <==> Matches(d, query, vocabulary[sid], n)
      {
        var s := vocabulary[sid];
        CountIfPermutation(queryFeatures, FeatureSeq(query, n), f => IsFeature(s, n, f));
      }
    }

    /** The stored strings matching query under d, one entry per matching sid. */
    method Retrieve(query: string, d: Distance) returns (r: seq<string>)
      requires Valid()
      ensures forall t :: t in r <==> MatchStored(d, query, t)
    {
      var sids := RetrieveIds(query, d);
      r := [];
      for i := 0 to |sids|
        invariant |r| == i && forall j :: 0 <= j < i ==> sids[j] in sids && r[j] == index.vocabulary[sids[j]]
      {
        assert sids[i] in sids;
        var t := index.GetString(sids[i]);
        r := r + [t];
      }
      forall t | t in r ensures MatchStored(d, query, t) {
        var i :| 0 <= i < |r| && r[i] == t;
        assert sids[i] in sids;
      }
      forall t | MatchStored(d, query, t) ensures t in r {
        var sid :| 0 <= sid < |index.vocabulary| && index.vocabulary[sid] == t && Matches(d, query, t, index.ngramSize);
        var i :| 0 <= i < |sids| && sids[i] == sid;
        assert r[i] == t;
      }
    }

    /** One stored string matching query under d, or None when there is none. */
    method SearchForOne(query: string, d: Distance) returns (r: Option<string>)
      requires Valid()
      ensures r.None? <==> forall sid :: 0 <= sid < |index.vocabulary| ==> !Matches(d, query, index.vocabulary[sid], index.ngramSize)
      ensures r.Some? ==> MatchStored(d, query, r.value)
    {
      var candidates := Retrieve(query, d);
      if |candidates| > 0 {
        assert candidates[0] in candidates;
        r := Some(candidates[0]);
      } else {
        r := None;
        forall sid | 0 <= sid < |index.vocabulary| ensures !Matches(d, query, index.vocabulary[sid], index.ngramSize) {
          assert index.vocabulary[sid] !in candidates;
        }
      }
    }

    /** The action addAll applies to each string: one insertion into the index. */
    method Add(str: string)
      requires Valid()
      modifies index.Repr
      ensures Valid() && fresh(index.Repr - old(index.Repr))
      ensures index.vocabulary == old(index.vocabulary) + [str]
      ensures index.Slots == Inserted(old(index.Slots), str, |old(index.vocabulary)|, index.ngramSize)
    {
      index.Insert(str);
    }

    /** Inserts every string, in order. */
    method AddAll(strings: seq<string>)
      requires Valid()
      modifies index.Repr
      ensures Valid() && fresh(index.Repr - old(index.Repr))
      ensures index.vocabulary == old(index.vocabulary) + strings
    {
      for i := 0 to |strings|
        invariant Valid() && fresh(index.Repr - old(index.Repr))
        invariant index.vocabulary == old(index.vocabulary) + strings[..i]
      {
        PrefixSnoc(strings, i);
        Add(strings[i]);
      }
      assert strings[..|strings|] == strings;
    }
  }
}
