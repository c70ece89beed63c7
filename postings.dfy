/** Inverted lists: feature -> list of string identifiers (InvertedList). */
module Postings {
  import opened Ngrams
  import opened Counting

  datatype Option<T> = None | Some(value: T)

  /** A posting list as fetched: Some(list) for a present key (possibly empty), None for
      a key that was never put. */
  type Posting = Option<seq<nat>>

  /** A list of sids in strictly increasing order, hence without duplicates. */
  predicate StrictlyAscending(s: seq<nat>) {
    forall i, j :: 0 <= i < j < |s| ==> s[i] < s[j]
  }

  /** A strictly ascending list is determined by its elements. */
  lemma {:induction false} AscendingUnique(a: seq<nat>, b: seq<nat>)
    requires StrictlyAscending(a) && StrictlyAscending(b)
    requires forall x :: x in a <==> x in b
    ensures a == b
    decreases |a|
  {
    if a == [] {
      assert forall x :: x in multiset(b) <==> x in b;
      assert multiset(b) == multiset{};
      assert |b| == |multiset(b)| == 0;
    } else {
      assert a[0] in b;
      assert b != [];
      assert b[0] in a;
      assert a[0] == b[0];
      forall x ensures x in a[1..] <==> x in b[1..] {
        if x in a[1..] {
          assert x in a && x != a[0];
        }
        if x in b[1..] {
          assert x in b && x != b[0];
        }
      }
      AscendingUnique(a[1..], b[1..]);
      assert a == [a[0]] + a[1..] && b == [b[0]] + b[1..];
    }
  }

  /** The fetched list p is present and holds sid. */
  predicate Holds(p: Posting, sid: nat) {
    p.Some? && sid in p.value
  }

  /** How many of the fetched lists hold sid. */
  function Count(post: seq<Posting>, sid: nat): nat {
    CountIf(post, p => Holds(p, sid))
  }

  /** The list stored under key in m, or the empty list when key is absent. */
  function ListOf(m: map<Feature, seq<nat>>, key: Feature): seq<nat> {
    if key in m then m[key] else []
  }

  /** Looking key up in m: Some(list) when present, None when absent. */
  function Find(m: map<Feature, seq<nat>>, key: Feature): (r: Posting)
    ensures r.None? <==> key !in m
    ensures r.Some? ==> r.value == m[key]
  {
    if key in m then Some(m[key]) else None
  }

  class InvertedList {
    var postings: map<Feature, seq<nat>>

    /** A fresh list has no keys: every lookup is absent. */
    constructor()
      ensures postings == map[]
    {
      postings := map[];
    }

    /** Appends value to key's list, creating an empty list first when key is absent. */
    method Put(key: Feature, value: nat)
      modifies this
      ensures postings == old(postings)[key := ListOf(old(postings), key) + [value]]
    {
      if key !in postings {
        postings := postings[key := []];
      }
      postings := postings[key := postings[key] + [value]];
    }

    /** Appends all of sids, in order, to key's list; with no sids the key still becomes
        present, with an empty list. */
    method PutAll(key: Feature, sids: seq<nat>)
      modifies this
      ensures postings == old(postings)[key := ListOf(old(postings), key) + sids]
    {
      if key !in postings {
        postings := postings[key := []];
      }
      postings := postings[key := postings[key] + sids];
    }

    /** The list of key, or None for a key that was never put. */
    function Get(key: Feature): (r: Posting)
      reads this
      ensures r.None? <==> key !in postings
      ensures r.Some? ==> r.value == postings[key]
    {
      Find(postings, key)
    }

    /** The keys that were ever put: exactly those whose lookup is present. */
    function KeySet(): (r: set<Feature>)
      reads this
      ensures forall key :: key in r <==> Get(key).Some?
    {
      postings.Keys
    }
  }

  /** A sequence of puts on a fresh list, read back: a key that was never put is absent,
      which differs from the present-but-empty list a put of no sids leaves. */
  method GetDistinguishesAbsentFromEmpty(key: Feature, other: Feature) returns (absent: Posting, empty: Posting)
    requires key != other
    ensures absent == None
    ensures empty == Some([])
  {
    var list := new InvertedList();
    list.PutAll(other, []);
    absent := list.Get(key);
    empty := list.Get(other);
  }
}
