/** The size-partitioned index (SimStringIndex): an append-only vocabulary of strings,
    indexed by sid, and a vector of inverted lists where slot l - 1 holds the strings
    with exactly l features. */
module Index {
  import opened Counting
  import opened Ngrams
  import opened Postings

  /** One slot of the index vector as a value: None when no list was ever allocated. */
  type Slot = Option<map<Feature, seq<nat>>>

  /** The inverted list of size class l (l >= 1) as a map; empty when there is none. */
  function SlotMap(slots: seq<Slot>, l: int): map<Feature, seq<nat>> {
    if 1 <= l <= |slots| && slots[l - 1].Some? then slots[l - 1].value else map[]
  }

  /** The posting list of feature f among the strings of size l. */
  function Lookup(slots: seq<Slot>, l: int, f: Feature): Posting {
    Find(SlotMap(slots, l), f)
  }

  /** One lookup per query feature, in query order. */
  function LookupAll(slots: seq<Slot>, l: int, ngrams: seq<Feature>): (r: seq<Posting>)
    ensures |r| == |ngrams|
    ensures forall i :: 0 <= i < |ngrams| ==> r[i] == Lookup(slots, l, ngrams[i])
  {
    seq(|ngrams|, i requires 0 <= i < |ngrams| => Lookup(slots, l, ngrams[i]))
  }

  /** A stored list is ascending and names only strings of its size class having its feature. */
  ghost predicate ListSound(list: seq<nat>, vocabulary: seq<string>, n: nat, l: int, f: Feature)
    requires n >= 1
  {
    StrictlyAscending(list) &&
    forall sid :: sid in list ==> sid < |vocabulary| && FeatureCount(vocabulary[sid], n) == l && IsFeature(vocabulary[sid], n, f)
  }

  /** Every stored list is sound and, since a key is only ever created by appending to it,
      non-empty. */
  ghost predicate PostingsSound(slots: seq<Slot>, vocabulary: seq<string>, n: nat)
    requires n >= 1
  {
    forall i, f :: 0 <= i < |slots| && slots[i].Some? && f in slots[i].value ==>
      ListSound(slots[i].value[f], vocabulary, n, i + 1, f) && slots[i].value[f] != []
  }

  /** The size class of every stored string is allocated. */
  ghost predicate SizeClassesExist(slots: seq<Slot>, vocabulary: seq<string>, n: nat)
    requires n >= 1
  {
    forall sid :: 0 <= sid < |vocabulary| ==>
      FeatureCount(vocabulary[sid], n) <= |slots| && slots[FeatureCount(vocabulary[sid], n) - 1].Some?
  }

  /** Every stored string is listed under each of its features in its own size class. */
  ghost predicate PostingsComplete(slots: seq<Slot>, vocabulary: seq<string>, n: nat)
    requires n >= 1
  {
    forall sid, f :: 0 <= sid < |vocabulary| && IsFeature(vocabulary[sid], n, f) ==>
      Holds(Lookup(slots, FeatureCount(vocabulary[sid], n), f), sid)
  }

  /** The sizes of the stored strings. */
  ghost function Sizes(vocabulary: seq<string>, n: nat): set<int>
    requires n >= 1
  {
    if vocabulary == [] then {}
    else Sizes(vocabulary[..|vocabulary| - 1], n) + {FeatureCount(vocabulary[|vocabulary| - 1], n)}
  }

  /** l is among the sizes exactly when some stored string has size l. */
  lemma {:induction false} SizesMeaning(vocabulary: seq<string>, n: nat, l: int)
    requires n >= 1
    ensures l in Sizes(vocabulary, n) <==> exists sid :: 0 <= sid < |vocabulary| && FeatureCount(vocabulary[sid], n) == l
    decreases |vocabulary|
  {
    if vocabulary != [] {
      var last := |vocabulary| - 1;
      var front := vocabulary[..last];
      SizesMeaning(front, n, l);
      if l in Sizes(front, n) {
        var sid :| 0 <= sid < |front| && FeatureCount(front[sid], n) == l;
        assert vocabulary[sid] == front[sid];
      }
      if exists sid :: 0 <= sid < |vocabulary| && FeatureCount(vocabulary[sid], n) == l {
        var sid :| 0 <= sid < |vocabulary| && FeatureCount(vocabulary[sid], n) == l;
        if sid < last {
          assert front[sid] == vocabulary[sid];
        }
      }
    }
  }

  /** The vector is only as long as the largest stored size, whose slot is allocated, and
      only size classes of stored strings are allocated. */
  ghost predicate NoSpareSlots(slots: seq<Slot>, vocabulary: seq<string>, n: nat)
    requires n >= 1
  {
    (|slots| > 0 ==> slots[|slots| - 1].Some?) &&
    forall i :: 0 <= i < |slots| && slots[i].Some? ==> i + 1 in Sizes(vocabulary, n)
  }

  /** The index invariant, on the abstract slots and the vocabulary. */
  ghost predicate IndexInvariant(slots: seq<Slot>, vocabulary: seq<string>, n: nat) {
    n >= 1 && PostingsSound(slots, vocabulary, n) && PostingsComplete(slots, vocabulary, n) &&
    SizeClassesExist(slots, vocabulary, n) && NoSpareSlots(slots, vocabulary, n)
  }

  /** The vector grown to at least l slots, the new slots unallocated. */
  function Grow(slots: seq<Slot>, l: nat): (r: seq<Slot>)
    ensures |r| == if |slots| < l then l else |slots|
    ensures r[..|slots|] == slots
    ensures forall i :: |slots| <= i < |r| ==> r[i].None?
  {
    if |slots| < l then slots + seq(l - |slots|, _ => None) else slots
  }

  /** The lists of m after sid is appended to the list of every one of features, a missing
      list being created first; the other lists are kept. */
  function AppendToLists(m: map<Feature, seq<nat>>, features: seq<Feature>, sid: nat): (r: map<Feature, seq<nat>>)
    ensures forall f :: f in r <==> f in m || f in features
    ensures forall f :: f in r && f !in features ==> r[f] == m[f]
    ensures forall f :: f in features ==> r[f] == ListOf(m, f) + [sid]
  {
    map f | f in m.Keys + (set g | g in features) :: if f in features then ListOf(m, f) + [sid] else m[f]
  }

  /** Appending to the lists of one more feature, not yet among features. */
  lemma AppendOne(m: map<Feature, seq<nat>>, ngrams: seq<Feature>, j: nat, sid: nat)
    requires j < |ngrams| && Distinct(ngrams)
    ensures AppendToLists(m, ngrams[..j + 1], sid) ==
      AppendToLists(m, ngrams[..j], sid)[ngrams[j] := ListOf(AppendToLists(m, ngrams[..j], sid), ngrams[j]) + [sid]]
  {
    var pre, x := ngrams[..j], ngrams[j];
    assert ngrams[..j + 1] == pre + [x];
    assert x !in pre by {
      forall i | 0 <= i < j ensures pre[i] != x {
        assert pre[i] == ngrams[i];
      }
    }
    AppendFresh(m, pre, x, sid);
  }

  lemma AppendFresh(m: map<Feature, seq<nat>>, pre: seq<Feature>, x: Feature, sid: nat)
    requires x !in pre
    ensures AppendToLists(m, pre + [x], sid) ==
      AppendToLists(m, pre, sid)[x := ListOf(AppendToLists(m, pre, sid), x) + [sid]]
  {
    var before, after := AppendToLists(m, pre, sid), AppendToLists(m, pre + [x], sid);
    assert ListOf(before, x) == ListOf(m, x);
    var expected := before[x := ListOf(before, x) + [sid]];
    assert after.Keys == expected.Keys;
    forall f | f in after ensures after[f] == expected[f] {
      if f != x && f in pre {
        assert f in pre + [x];
      }
    }
  }

  /** Only which features are appended to matters, not their order. */
  lemma AppendToListsSameFeatures(m: map<Feature, seq<nat>>, a: seq<Feature>, b: seq<Feature>, sid: nat)
    requires forall f :: f in a <==> f in b
    ensures AppendToLists(m, a, sid) == AppendToLists(m, b, sid)
  {
  }

  /** The slots after str is filed under the fresh identifier sid: the vector grows to the
      string's size class if needed and that slot is allocated, with sid at the end of the
      list of every feature of str. */
  function Inserted(slots: seq<Slot>, str: string, sid: nat, n: nat): (r: seq<Slot>)
    requires n >= 1
    ensures |r| == if |slots| < FeatureCount(str, n) then FeatureCount(str, n) else |slots|
    ensures r[FeatureCount(str, n) - 1].Some?
  {
    var l := FeatureCount(str, n);
    Grow(slots, l)[l - 1 := Some(AppendToLists(SlotMap(slots, l), FeatureSeq(str, n), sid))]
  }

  /** What the invariant means for a lookup: a fetched list holds sid exactly when sid names
      a stored string of that size having that feature. */
  lemma LookupMeaning(slots: seq<Slot>, vocabulary: seq<string>, n: nat, l: int, f: Feature, sid: nat)
    requires IndexInvariant(slots, vocabulary, n)
    ensures Holds(Lookup(slots, l, f), sid) <==>
      sid < |vocabulary| && FeatureCount(vocabulary[sid], n) == l && IsFeature(vocabulary[sid], n, f)
  {
    if Holds(Lookup(slots, l, f), sid) {
      assert ListSound(slots[l - 1].value[f], vocabulary, n, (l - 1) + 1, f);
    }
  }

  /** The invariant determines every lookup from the vocabulary: two slot vectors that both
      satisfy it for the same strings give the same answer, absent or the same list, for
      every size and feature. */
  lemma InvariantDeterminesLists(slots: seq<Slot>, other: seq<Slot>, vocabulary: seq<string>, n: nat, l: int, f: Feature)
    requires IndexInvariant(slots, vocabulary, n) && IndexInvariant(other, vocabulary, n)
    ensures forall sid :: Holds(Lookup(slots, l, f), sid) <==> Holds(Lookup(other, l, f), sid)
    ensures Lookup(slots, l, f) == Lookup(other, l, f)
  {
    forall sid ensures Holds(Lookup(slots, l, f), sid) <==> Holds(Lookup(other, l, f), sid) {
      LookupMeaning(slots, vocabulary, n, l, f, sid);
      LookupMeaning(other, vocabulary, n, l, f, sid);
    }
    StoredListNonEmpty(slots, vocabulary, n, l, f);
    StoredListNonEmpty(other, vocabulary, n, l, f);
    if Lookup(slots, l, f).Some? && Lookup(other, l, f).Some? {
      StoredListSound(slots, vocabulary, n, l, f);
      StoredListSound(other, vocabulary, n, l, f);
      var a, b := Lookup(slots, l, f).value, Lookup(other, l, f).value;
      forall sid ensures sid in a <==> sid in b {
        assert Holds(Lookup(slots, l, f), sid) <==> Holds(Lookup(other, l, f), sid);
      }
      AscendingUnique(a, b);
    } else if Lookup(slots, l, f).Some? {
      assert Holds(Lookup(slots, l, f), Lookup(slots, l, f).value[0]);
    } else if Lookup(other, l, f).Some? {
      assert Holds(Lookup(other, l, f), Lookup(other, l, f).value[0]);
    }
  }

  /** A present list holds at least one sid. */
  lemma StoredListNonEmpty(slots: seq<Slot>, vocabulary: seq<string>, n: nat, l: int, f: Feature)
    requires n >= 1 && PostingsSound(slots, vocabulary, n)
    ensures Lookup(slots, l, f).Some? ==> Lookup(slots, l, f).value != []
  {
    if Lookup(slots, l, f).Some? {
      assert slots[(l - 1)].value[f] != [];
    }
  }

  /** The invariant determines the whole index from the vocabulary: the vector length, which
      slots are allocated, and every list. */
  lemma InvariantDeterminesSlots(slots: seq<Slot>, other: seq<Slot>, vocabulary: seq<string>, n: nat)
    requires IndexInvariant(slots, vocabulary, n) && IndexInvariant(other, vocabulary, n)
    ensures slots == other
  {
    AllocatedInBoth(slots, other, vocabulary, n);
    AllocatedInBoth(other, slots, vocabulary, n);
    forall i | 0 <= i < |slots| ensures slots[i] == other[i] {
      if slots[i].Some? {
        SlotDetermined(slots, other, vocabulary, n, i);
      }
    }
  }

  /** A slot allocated under both vectors holds the same lists in both. */
  lemma SlotDetermined(slots: seq<Slot>, other: seq<Slot>, vocabulary: seq<string>, n: nat, i: nat)
    requires IndexInvariant(slots, vocabulary, n) && IndexInvariant(other, vocabulary, n)
    requires i < |slots| && i < |other| && slots[i].Some? && other[i].Some?
    ensures slots[i] == other[i]
  {
    var a, b := slots[i].value, other[i].value;
    forall f ensures f in a <==> f in b {
      InvariantDeterminesLists(slots, other, vocabulary, n, i + 1, f);
    }
    forall f | f in a ensures a[f] == b[f] {
      InvariantDeterminesLists(slots, other, vocabulary, n, i + 1, f);
    }
    assert a == b;
  }

  /** Every slot allocated in slots is allocated in other, which is at least as long. */
  lemma AllocatedInBoth(slots: seq<Slot>, other: seq<Slot>, vocabulary: seq<string>, n: nat)
    requires IndexInvariant(slots, vocabulary, n) && IndexInvariant(other, vocabulary, n)
    ensures |slots| <= |other|
    ensures forall i :: 0 <= i < |slots| && slots[i].Some? ==> other[i].Some?
  {
    forall i | 0 <= i < |slots| && slots[i].Some? ensures i < |other| && other[i].Some? {
      SizesMeaning(vocabulary, n, i + 1);
    }
    if |slots| > 0 {
      assert slots[|slots| - 1].Some?;
    }
  }

  /** Every fetched list is strictly ascending, as the binary search of the join needs. */
  lemma FetchedListsAscending(slots: seq<Slot>, vocabulary: seq<string>, n: nat, l: int, ngrams: seq<Feature>)
    requires IndexInvariant(slots, vocabulary, n)
    ensures forall p :: p in LookupAll(slots, l, ngrams) && p.Some? ==> StrictlyAscending(p.value)
  {
    forall i | 0 <= i < |ngrams| && Lookup(slots, l, ngrams[i]).Some?
      ensures StrictlyAscending(Lookup(slots, l, ngrams[i]).value)
    {
      StoredListSound(slots, vocabulary, n, l, ngrams[i]);
    }
  }

  /** Counting, over the lookups of some query features, the lists that hold sid gives the
      overlap of those features with the string sid names, within its size class, and 0
      outside it. */
  lemma CountLookups(slots: seq<Slot>, vocabulary: seq<string>, n: nat, l: int, ngrams: seq<Feature>, sid: nat)
    requires IndexInvariant(slots, vocabulary, n)
    ensures Count(LookupAll(slots, l, ngrams), sid) ==
      if sid < |vocabulary| && FeatureCount(vocabulary[sid], n) == l then Overlap(ngrams, vocabulary[sid], n) else 0
  {
    var post := LookupAll(slots, l, ngrams);
    forall i | 0 <= i < |ngrams| ensures Holds(post[i], sid) <==>
      sid < |vocabulary| && FeatureCount(vocabulary[sid], n) == l && IsFeature(vocabulary[sid], n, ngrams[i])
    {
      LookupMeaning(slots, vocabulary, n, l, ngrams[i], sid);
    }
    if sid < |vocabulary| && FeatureCount(vocabulary[sid], n) == l {
      CountIfPointwise(post, p => Holds(p, sid), ngrams, f => IsFeature(vocabulary[sid], n, f));
    }
  }

  /** A stored list stays sound when the vocabulary grows at its end. */
  lemma ListSoundInLargerVocabulary(list: seq<nat>, vocabulary: seq<string>, str: string, n: nat, l: int, f: Feature)
    requires n >= 1 && ListSound(list, vocabulary, n, l, f)
    ensures ListSound(list, vocabulary + [str], n, l, f)
  {
    var v := vocabulary + [str];
    forall x | x in list ensures x < |v| && v[x] == vocabulary[x] { }
  }

  /** Appending the fresh sid of str to the list of one of its features keeps that list
      sound, and in particular strictly ascending. */
  lemma AppendedListSound(list: seq<nat>, vocabulary: seq<string>, str: string, n: nat, f: Feature)
    requires n >= 1 && ListSound(list, vocabulary, n, FeatureCount(str, n), f)
    requires IsFeature(str, n, f)
    ensures ListSound(list + [|vocabulary|], vocabulary + [str], n, FeatureCount(str, n), f)
  {
    ListSoundInLargerVocabulary(list, vocabulary, str, n, FeatureCount(str, n), f);
    var list' := list + [|vocabulary|];
    forall i, j | 0 <= i < j < |list'| ensures list'[i] < list'[j] {
      if j < |list| {
        assert list'[i] == list[i] && list'[j] == list[j];
      } else {
        assert list'[i] in list;
      }
    }
  }

  /** Under the invariant's soundness part, every list of every size class is sound (an
      absent one is empty). */
  lemma StoredListSound(slots: seq<Slot>, vocabulary: seq<string>, n: nat, l: int, f: Feature)
    requires n >= 1 && PostingsSound(slots, vocabulary, n)
    ensures ListSound(ListOf(SlotMap(slots, l), f), vocabulary, n, l, f)
  {
    if f in SlotMap(slots, l) {
      assert ListSound(slots[l - 1].value[f], vocabulary, n, (l - 1) + 1, f);
    }
  }

  /** An insertion changes one list at most by appending sid, and does so exactly for the
      features of str in the size class of str; every other list, present or absent, is kept. */
  lemma {:induction false} InsertedLists(slots: seq<Slot>, str: string, sid: nat, n: nat, l: int, f: Feature)
    requires n >= 1
    ensures var after := Inserted(slots, str, sid, n);
      if l == FeatureCount(str, n) && IsFeature(str, n, f) then
        Lookup(after, l, f) == Some(ListOf(SlotMap(slots, l), f) + [sid])
      else
        Lookup(after, l, f) == Lookup(slots, l, f)
  {
    var L := FeatureCount(str, n);
    var after := Inserted(slots, str, sid, n);
    var g := Grow(slots, L);
    FeatureSeqEnumeratesFeatures(str, n);
    if l != L && 1 <= l <= |after| {
      assert after[l - 1] == g[l - 1];
      if l <= |slots| {
        assert g[l - 1] == g[..|slots|][l - 1];
      }
    }
  }

  /** One list of the index after an insertion is sound. */
  lemma InsertedListSound(before: seq<Slot>, vocabulary: seq<string>, str: string, n: nat, i: nat, f: Feature)
    requires n >= 1 && PostingsSound(before, vocabulary, n)
    requires var after := Inserted(before, str, |vocabulary|, n);
      i < |after| && after[i].Some? && f in after[i].value
    ensures var after := Inserted(before, str, |vocabulary|, n);
      ListSound(after[i].value[f], vocabulary + [str], n, i + 1, f) && after[i].value[f] != []
  {
    var after := Inserted(before, str, |vocabulary|, n);
    var list := ListOf(SlotMap(before, i + 1), f);
    StoredListSound(before, vocabulary, n, i + 1, f);
    InsertedLists(before, str, |vocabulary|, n, i + 1, f);
    assert Lookup(after, i + 1, f) == Some(after[i].value[f]);
    if i + 1 == FeatureCount(str, n) && IsFeature(str, n, f) {
      AppendedListSound(list, vocabulary, str, n, f);
    } else {
      ListSoundInLargerVocabulary(list, vocabulary, str, n, i + 1, f);
      StoredListNonEmpty(before, vocabulary, n, i + 1, f);
    }
  }

  lemma InsertKeepsSound(before: seq<Slot>, vocabulary: seq<string>, str: string, n: nat)
    requires n >= 1 && PostingsSound(before, vocabulary, n)
    ensures PostingsSound(Inserted(before, str, |vocabulary|, n), vocabulary + [str], n)
  {
    var after := Inserted(before, str, |vocabulary|, n);
    forall i, f | 0 <= i < |after| && after[i].Some? && f in after[i].value
      ensures ListSound(after[i].value[f], vocabulary + [str], n, i + 1, f) && after[i].value[f] != []
    {
      InsertedListSound(before, vocabulary, str, n, i, f);
    }
  }

  lemma InsertKeepsComplete(before: seq<Slot>, vocabulary: seq<string>, str: string, n: nat)
    requires n >= 1 && PostingsComplete(before, vocabulary, n)
    ensures PostingsComplete(Inserted(before, str, |vocabulary|, n), vocabulary + [str], n)
  {
    var v := vocabulary + [str];
    forall sid, f | 0 <= sid < |v| && IsFeature(v[sid], n, f)
      ensures Holds(Lookup(Inserted(before, str, |vocabulary|, n), FeatureCount(v[sid], n), f), sid)
    {
      InsertedListComplete(before, vocabulary, str, n, sid, f);
    }
  }

  /** After an insertion, a stored string, old or new, is listed under one of its features. */
  lemma InsertedListComplete(before: seq<Slot>, vocabulary: seq<string>, str: string, n: nat, sid: nat, f: Feature)
    requires n >= 1 && PostingsComplete(before, vocabulary, n)
    requires sid < |vocabulary| + 1 && IsFeature((vocabulary + [str])[sid], n, f)
    ensures Holds(Lookup(Inserted(before, str, |vocabulary|, n), FeatureCount((vocabulary + [str])[sid], n), f), sid)
  {
    var s := (vocabulary + [str])[sid];
    InsertedLists(before, str, |vocabulary|, n, FeatureCount(s, n), f);
    if sid < |vocabulary| {
      assert s == vocabulary[sid];
      assert Holds(Lookup(before, FeatureCount(vocabulary[sid], n), f), sid);
    }
  }

  lemma InsertKeepsSizeClasses(before: seq<Slot>, vocabulary: seq<string>, str: string, n: nat)
    requires n >= 1 && SizeClassesExist(before, vocabulary, n)
    ensures SizeClassesExist(Inserted(before, str, |vocabulary|, n), vocabulary + [str], n)
  {
    var v := vocabulary + [str];
    var after := Inserted(before, str, |vocabulary|, n);
    forall sid | 0 <= sid < |v|
      ensures FeatureCount(v[sid], n) <= |after| && after[FeatureCount(v[sid], n) - 1].Some?
    {
      if sid < |vocabulary| {
        var l := FeatureCount(vocabulary[sid], n);
        assert v[sid] == vocabulary[sid];
        InsertedLists(before, str, |vocabulary|, n, l, Feature([], 0));
        assert before[l - 1].Some?;
        if l != FeatureCount(str, n) {
          assert after[l - 1] == Grow(before, FeatureCount(str, n))[l - 1] == before[l - 1];
        }
      }
    }
  }

  /** Inserting a fresh string keeps the index invariant: lists stay strictly ascending
      because the new sid exceeds every stored one and the string's features are distinct. */
  lemma InsertKeepsInvariant(before: seq<Slot>, vocabulary: seq<string>, str: string, n: nat)
    requires IndexInvariant(before, vocabulary, n)
    ensures IndexInvariant(Inserted(before, str, |vocabulary|, n), vocabulary + [str], n)
  {
    InsertKeepsSound(before, vocabulary, str, n);
    InsertKeepsComplete(before, vocabulary, str, n);
    InsertKeepsSizeClasses(before, vocabulary, str, n);
    InsertKeepsNoSpareSlots(before, vocabulary, str, n);
  }

  /** An insertion grows the vector only up to the size of str and allocates only its slot. */
  lemma InsertKeepsNoSpareSlots(before: seq<Slot>, vocabulary: seq<string>, str: string, n: nat)
    requires n >= 1 && NoSpareSlots(before, vocabulary, n)
    ensures NoSpareSlots(Inserted(before, str, |vocabulary|, n), vocabulary + [str], n)
  {
    InsertedLastSlot(before, str, |vocabulary|, n);
    SizesSnoc(vocabulary, str, n);
    forall i | 0 <= i < |Inserted(before, str, |vocabulary|, n)| && Inserted(before, str, |vocabulary|, n)[i].Some?
      ensures i + 1 in Sizes(vocabulary, n) + {FeatureCount(str, n)}
    {
      InsertedSlotOccurs(before, vocabulary, str, n, i);
    }
  }

  /** Adding a string adds its size to the sizes. */
  lemma SizesSnoc(vocabulary: seq<string>, str: string, n: nat)
    requires n >= 1
    ensures Sizes(vocabulary + [str], n) == Sizes(vocabulary, n) + {FeatureCount(str, n)}
  {
    assert (vocabulary + [str])[..|vocabulary|] == vocabulary;
  }

  /** After an insertion the last slot of the vector is allocated, if it was before. */
  lemma InsertedLastSlot(slots: seq<Slot>, str: string, sid: nat, n: nat)
    requires n >= 1 && (|slots| > 0 ==> slots[|slots| - 1].Some?)
    ensures var after := Inserted(slots, str, sid, n); after[|after| - 1].Some?
  {
    var l := FeatureCount(str, n);
    GrowThenAllocateLast(slots, l, Some(AppendToLists(SlotMap(slots, l), FeatureSeq(str, n), sid)));
  }

  /** Growing to l and allocating slot l - 1 leaves the last slot allocated, if it was. */
  lemma GrowThenAllocateLast(slots: seq<Slot>, l: nat, x: Slot)
    requires 1 <= l && x.Some? && (|slots| > 0 ==> slots[|slots| - 1].Some?)
    ensures var r := Grow(slots, l)[l - 1 := x]; r[|r| - 1].Some?
  {
    var g := Grow(slots, l);
    if |g| - 1 != l - 1 {
      assert g[|slots| - 1] == g[..|slots|][|slots| - 1];
    }
  }

  /** A slot other than the size class of str is unchanged by its insertion, or new and
      unallocated. */
  lemma InsertedSlotKept(slots: seq<Slot>, str: string, sid: nat, n: nat, i: nat)
    requires n >= 1 && i != FeatureCount(str, n) - 1 && i < |Inserted(slots, str, sid, n)|
    ensures Inserted(slots, str, sid, n)[i] == if i < |slots| then slots[i] else None
  {
    var g := Grow(slots, FeatureCount(str, n));
    if i < |slots| {
      assert g[i] == g[..|slots|][i];
    }
  }

  /** An allocated slot after an insertion is the size class of a stored string. */
  lemma InsertedSlotOccurs(before: seq<Slot>, vocabulary: seq<string>, str: string, n: nat, i: nat)
    requires n >= 1 && NoSpareSlots(before, vocabulary, n)
    requires var after := Inserted(before, str, |vocabulary|, n); i < |after| && after[i].Some?
    ensures i + 1 in Sizes(vocabulary, n) + {FeatureCount(str, n)}
  {
    if i != FeatureCount(str, n) - 1 {
      InsertedSlotKept(before, str, |vocabulary|, n, i);
    }
  }

  /** The sort key of a fetched list: absent lists first, then by length. */
  function Rank(p: Posting): nat {
    if p.None? then 0 else |p.value| + 1
  }

  /** The source's comparator: null before non-null, non-null lists by size. */
  function Compare(o1: Posting, o2: Posting): int {
    if o1.None? then (if o2.None? then 0 else -1)
    else (if o2.None? then 1 else |o1.value| - |o2.value|)
  }

  /** The comparator is consistent with the rank, which makes it a total preorder as a
      sort requires: antisymmetric in sign and transitive. */
  lemma CompareOrdersByRank(a: Posting, b: Posting)
    ensures Compare(a, b) <= 0 <==> Rank(a) <= Rank(b)
    ensures Compare(a, b) == 0 <==> Rank(a) == Rank(b)
    ensures Compare(a, b) < 0 <==> Compare(b, a) > 0
  {
  }

  /** All absent lists first, then the present ones by non-decreasing length. */
  predicate NullsFirstByLength(s: seq<Posting>) {
    forall i, j :: 0 <= i < j < |s| ==> Compare(s[i], s[j]) <= 0
  }

  lemma NullsComeFirst(s: seq<Posting>, i: nat, j: nat)
    requires NullsFirstByLength(s) && i < j < |s| && s[j].None?
    ensures s[i].None?
  {
  }

  /** Ranks never decrease along s. */
  predicate RankSorted(s: seq<Posting>) {
    forall x, y :: 0 <= x < y < |s| ==> Rank(s[x]) <= Rank(s[y])
  }

  lemma RankSortedIsOrdered(s: seq<Posting>)
    requires RankSorted(s)
    ensures NullsFirstByLength(s)
  {
    forall x, y | 0 <= x < y < |s| ensures Compare(s[x], s[y]) <= 0 {
      CompareOrdersByRank(s[x], s[y]);
    }
  }

  /** The in-place sort of the fetched lists (insertion sort, stable, like the library's
      sort on short lists). */
  method SortPostings(a: array<Posting>)
    modifies a
    ensures NullsFirstByLength(a[..])
    ensures multiset(a[..]) == multiset(old(a[..]))
  {
    for i := 0 to a.Length
      invariant RankSorted(a[..i])
      invariant multiset(a[..]) == multiset(old(a[..]))
    {
      SinkLast(a, i);
    }
    assert a[..a.Length] == a[..];
    RankSortedIsOrdered(a[..]);
  }

  /** Moves a[i] left past every element of higher rank in the sorted prefix a[..i]. */
  method SinkLast(a: array<Posting>, i: nat)
    requires i < a.Length && RankSorted(a[..i])
    modifies a
    ensures RankSorted(a[..i + 1])
    ensures multiset(a[..]) == multiset(old(a[..]))
  {
    var j := i;
    while j > 0 && Compare(a[j - 1], a[j]) > 0
      invariant 0 <= j <= i
      invariant SortedExcept(a[..], i, j)
      invariant BelowLater(a[..], i, j)
      invariant multiset(a[..]) == multiset(old(a[..]))
    {
      CompareOrdersByRank(a[j - 1], a[j]);
      ghost var s := a[..];
      SwapKeepsOrder(s, i, j);
      a[j - 1], a[j] := a[j], a[j - 1];
      assert a[..] == s[j - 1 := s[j]][j := s[j - 1]];
      j := j - 1;
    }
    if j > 0 {
      CompareOrdersByRank(a[j - 1], a[j]);
    }
    SinkDone(a[..], i, j);
  }

  /** Once the sinking element ranks at least as high as its left neighbour, the prefix is
      sorted. */
  lemma SinkDone(s: seq<Posting>, i: nat, j: nat)
    requires j <= i < |s| && SortedExcept(s, i, j) && BelowLater(s, i, j)
    requires j > 0 ==> Rank(s[j - 1]) <= Rank(s[j])
    ensures RankSorted(s[..i + 1])
  {
  }

  /** a[..i + 1] is ordered by rank, except possibly around position j. */
  ghost predicate SortedExcept(s: seq<Posting>, i: nat, j: nat)
    requires i < |s|
  {
    forall x, y :: 0 <= x < y <= i && y != j ==> Rank(s[x]) <= Rank(s[y])
  }

  /** The element at j ranks below every later element of a[..i + 1]. */
  ghost predicate BelowLater(s: seq<Posting>, i: nat, j: nat)
    requires j <= i < |s|
  {
    forall y :: j < y <= i ==> Rank(s[j]) < Rank(s[y])
  }

  /** One exchange of the sinking element with its higher-ranked left neighbour. */
  lemma SwapKeepsOrder(s: seq<Posting>, i: nat, j: nat)
    requires 0 < j <= i < |s|
    requires SortedExcept(s, i, j) && BelowLater(s, i, j) && Rank(s[j - 1]) > Rank(s[j])
    ensures SortedExcept(s[j - 1 := s[j]][j := s[j - 1]], i, j - 1)
    ensures BelowLater(s[j - 1 := s[j]][j := s[j - 1]], i, j - 1)
    ensures multiset(s[j - 1 := s[j]][j := s[j - 1]]) == multiset(s)
  {
  }

  class SimStringIndex {
    var index: seq<InvertedList?>
    var vocabulary: seq<string>
    const ngramSize: nat
    ghost var Slots: seq<Slot>
    ghost var Repr: set<object>

    /** The vector and its lists, tied to the abstract slots; distinct slots own distinct lists. */
    ghost predicate Frame()
      reads this, Repr
    {
      this in Repr &&
      |Slots| == |index| &&
      (forall i :: 0 <= i < |index| ==> (index[i] == null <==> Slots[i].None?)) &&
      (forall i :: 0 <= i < |index| && index[i] != null ==> index[i] in Repr && Slots[i] == Some(index[i].postings)) &&
      (forall i, j :: 0 <= i < j < |index| && index[i] != null ==> index[i] != index[j])
    }

    ghost predicate Valid()
      reads this, Repr
    {
      Frame() && IndexInvariant(Slots, vocabulary, ngramSize)
    }

    constructor(n: nat)
      requires n >= 1
      ensures Valid() && fresh(Repr)
      ensures ngramSize == n && vocabulary == [] && Slots == []
    {
      index := [];
      vocabulary := [];
      ngramSize := n;
      Slots := [];
      Repr := {this};
    }

    /** Adds str under the next sid: the vocabulary grows by exactly str, and the size class
        of str gains the new sid under each of its features. */
    method Insert(str: string)
      requires Valid()
      modifies Repr
      ensures Valid() && fresh(Repr - old(Repr))
      ensures vocabulary == old(vocabulary) + [str]
      ensures Slots == Inserted(old(Slots), str, |old(vocabulary)|, ngramSize)
    {
      ghost var slots, words := Inserted(Slots, str, |vocabulary|, ngramSize), vocabulary + [str];
      InsertKeepsInvariant(Slots, vocabulary, str, ngramSize);
      var sid := AddToVocabulary(str);
      var ngrams := CharacterNgrams(str, ngramSize);
      FeatureSeqEnumeratesFeatures(str, ngramSize);
      AddToIndex(ngrams, sid, str);
      assert Slots == slots && vocabulary == words;
    }

    /** Appends str to the vocabulary; its sid is the old vocabulary length. */
    method AddToVocabulary(str: string) returns (sid: nat)
      modifies this`vocabulary
      ensures sid == |old(vocabulary)|
      ensures vocabulary == old(vocabulary) + [str]
    {
      sid := |vocabulary|;
      vocabulary := vocabulary + [str];
    }

    /** Files sid under each of the features ngrams of str, in slot |ngrams| - 1, growing
        the vector and allocating the slot when needed. */
    method AddToIndex(ngrams: seq<Feature>, sid: nat, ghost str: string)
      requires Frame() && ngramSize >= 1
      requires |ngrams| == FeatureCount(str, ngramSize)
      requires Distinct(ngrams)
      requires forall f :: f in ngrams <==> f in FeatureSeq(str, ngramSize)
      modifies Repr
      ensures Frame() && fresh(Repr - old(Repr))
      ensures vocabulary == old(vocabulary)
      ensures Slots == Inserted(old(Slots), str, sid, ngramSize)
    {
      var idx := |ngrams| - 1;
      GrowVector(idx + 1);
      AllocateSlot(idx);
      ghost var m0 := SlotMap(old(Slots), idx + 1);
      var list := index[idx];
      FileUnder(list, ngrams, sid);
      AppendToListsSameFeatures(m0, ngrams, FeatureSeq(str, ngramSize), sid);
      Slots := Slots[idx := Some(list.postings)];
    }

    /** Puts sid under every one of the distinct features ngrams in list. */
    static method FileUnder(list: InvertedList, ngrams: seq<Feature>, sid: nat)
      requires Distinct(ngrams)
      modifies list
      ensures list.postings == AppendToLists(old(list.postings), ngrams, sid)
    {
      for j := 0 to |ngrams|
        invariant list.postings == AppendToLists(old(list.postings), ngrams[..j], sid)
      {
        AppendOne(old(list.postings), ngrams, j, sid);
        list.Put(ngrams[j], sid);
      }
      assert ngrams[..|ngrams|] == ngrams;
    }

    /** Pads the vector with unallocated slots up to length l. */
    method GrowVector(l: nat)
      requires Frame()
      modifies this`index, this`Slots
      ensures Frame()
      ensures Slots == Grow(old(Slots), l)
    {
      if l > |index| {
        index := index + seq(l - |index|, _ => null);
        Slots := Slots + seq(l - |Slots|, _ => None);
      }
    }

    /** Allocates an empty list in slot idx when there is none. */
    method AllocateSlot(idx: nat)
      requires Frame() && idx < |index|
      modifies this`index, this`Slots, this`Repr
      ensures Frame() && fresh(Repr - old(Repr))
      ensures Slots == old(Slots)[idx := Some(SlotMap(old(Slots), idx + 1))]
      ensures index[idx] != null
    {
      if index[idx] == null {
        var list := new InvertedList();
        index := index[idx := list];
        Slots := Slots[idx := Some(list.postings)];
        Repr := Repr + {list};
      }
    }

    /** The string a sid names; every one of its features lists the sid in its size class. */
    function GetString(sid: nat): (r: string)
      reads this, Repr
      requires Valid() && sid < |vocabulary|
      ensures r == vocabulary[sid]
      ensures forall f :: IsFeature(r, ngramSize, f) ==> Holds(Lookup(Slots, FeatureCount(r, ngramSize), f), sid)
    {
      vocabulary[sid]
    }

    /** The number of slots of the vector, allocated or not: the largest size of a stored
        string, and 0 for an empty vocabulary. */
    function Size(): (r: nat)
      reads this, Repr
      requires Valid()
      ensures r == |Slots|
      ensures forall sid :: 0 <= sid < |vocabulary| ==> FeatureCount(vocabulary[sid], ngramSize) <= r
      ensures r > 0 ==> exists sid :: 0 <= sid < |vocabulary| && FeatureCount(vocabulary[sid], ngramSize) == r
      ensures r == 0 <==> |vocabulary| == 0
    {
      SizesMeaning(vocabulary, ngramSize, |Slots|);
      assert |vocabulary| > 0 ==> FeatureCount(vocabulary[0], ngramSize) <= |Slots|;
      |index|
    }

    /** Fetches the posting list of every query feature in size class l and orders them
        absent first, then by length; empty when the class does not exist. */
    method GetAndSort(ngrams: seq<Feature>, l: int) returns (result: seq<Posting>)
      requires Valid() && l >= 1
      ensures l > |Slots| || Slots[l - 1].None? ==> result == []
      ensures l <= |Slots| && Slots[l - 1].Some? ==> multiset(result) == multiset(LookupAll(Slots, l, ngrams))
      ensures NullsFirstByLength(result)
      ensures forall p :: p in result && p.Some? ==> StrictlyAscending(p.value)
    {
      FetchedListsAscending(Slots, vocabulary, ngramSize, l, ngrams);
      result := [];
      if l > |index| {
        return;
      }
      var source := index[l - 1];
      if source != null {
        for i := 0 to |ngrams|
          invariant result == LookupAll(Slots, l, ngrams[..i])
        {
          result := result + [source.Get(ngrams[i])];
        }
        assert ngrams[..|ngrams|] == ngrams;
      }
      ghost var fetched := result;
      var a := new Posting[|result|](i requires 0 <= i < |result| => result[i]);
      assert a[..] == result;
      SortPostings(a);
      result := a[..];
      forall p | p in result ensures p in fetched {
        assert p in multiset(result);
      }
    }
  }
}
