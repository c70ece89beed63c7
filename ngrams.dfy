/** Feature extraction: a string becomes the set of its character n-grams, with repeated
    n-grams told apart by a repetition index (NgramGenerator). */
module Ngrams {
  import opened Counting

  /** The padding character, U+0001 ("start of heading"). */
  const Mark: char := '\U{1}'

  /** The n-gram length the generator is built with when none is given. */
  const DefaultNgramSize: nat := 3

  /** A feature token. The source writes it as the string `gram` when `rep` is 0 and as
      `gram` followed by the decimal digits of `rep` otherwise; since every gram of one
      generator has the same length, that spelling is one-to-one and the model keeps
      the pair itself. */
  datatype Feature = Feature(gram: string, rep: nat)

  /** Left padding with Mark up to total length n (a string already that long is kept). */
  function PadLeft(s: string, n: nat): (r: string)
    ensures |r| == if |s| < n then n else |s|
    ensures r[|r| - |s|..] == s
    ensures forall i :: 0 <= i < |r| - |s| ==> r[i] == Mark
  {
    if |s| < n then seq(n - |s|, _ => Mark) + s else s
  }

  /** All contiguous substrings of length n, left to right. */
  function Windows(s: string, n: nat): (w: seq<string>)
    requires 1 <= n <= |s|
    ensures |w| == |s| - n + 1
    ensures forall i :: 0 <= i < |w| ==> |w[i]| == n && w[i] == s[i..i + n]
  {
    seq(|s| - n + 1, i requires 0 <= i < |s| - n + 1 => s[i..i + n])
  }

  /** The size of a string: how many windows its padded form has. */
  function FeatureCount(s: string, n: nat): nat
    requires n >= 1
  {
    (if |s| < n then n else |s|) - n + 1
  }

  /** The raw (possibly repeated) n-grams of s. */
  function RawNgrams(s: string, n: nat): (w: seq<string>)
    requires n >= 1
    ensures |w| == FeatureCount(s, n)
  {
    Windows(PadLeft(s, n), n)
  }

  /** f is a feature of s: its gram occurs more than f.rep times among the raw n-grams. */
  predicate IsFeature(s: string, n: nat, f: Feature) {
    n >= 1 && f.rep < multiset(RawNgrams(s, n))[f.gram]
  }

  /** A reference enumeration of the features of s: the window at position i, tagged
      with how many equal windows come before it. */
  function FeatureSeq(s: string, n: nat): seq<Feature>
    requires n >= 1
  {
    var w := RawNgrams(s, n);
    seq(|w|, i requires 0 <= i < |w| => Feature(w[i], multiset(w[..i])[w[i]]))
  }

  /** How many of the given tokens are features of s (the overlap with s's feature set). */
  function Overlap(ngrams: seq<Feature>, s: string, n: nat): nat {
    CountIf(ngrams, f => IsFeature(s, n, f))
  }

  lemma PrefixMultisetGrows(w: seq<string>, i: nat, j: nat)
    requires i <= j <= |w|
    ensures multiset(w[..i]) <= multiset(w[..j])
  {
    assert w[..j] == w[..i] + w[i..j];
  }

  /** Fewer copies of w[i] come before position i than in any prefix reaching past i. */
  lemma OccurrencesBefore(w: seq<string>, i: nat, j: nat)
    requires i < j <= |w|
    ensures multiset(w[..i])[w[i]] < multiset(w[..j])[w[i]]
  {
    assert w[..i + 1] == w[..i] + [w[i]];
    PrefixMultisetGrows(w, i + 1, j);
  }

  /** The r-th earlier occurrence of g (counting from 0) exists whenever g occurs more than r times. */
  lemma {:induction false} NthOccurrence(w: seq<string>, g: string, r: nat, j: nat)
    requires j <= |w| && r < multiset(w[..j])[g]
    ensures exists i :: 0 <= i < j && w[i] == g && multiset(w[..i])[g] == r
    decreases j
  {
    assert j > 0;
    assert w[..j] == w[..j - 1] + [w[j - 1]];
    if r < multiset(w[..j - 1])[g] {
      NthOccurrence(w, g, r, j - 1);
    } else {
      assert w[j - 1] == g && multiset(w[..j - 1])[g] == r;
    }
  }

  lemma FeatureSeqAt(s: string, n: nat, i: nat)
    requires n >= 1 && i < FeatureCount(s, n)
    ensures |FeatureSeq(s, n)| == FeatureCount(s, n)
    ensures FeatureSeq(s, n)[i] == Feature(RawNgrams(s, n)[i], multiset(RawNgrams(s, n)[..i])[RawNgrams(s, n)[i]])
  {
  }

  /** No feature is listed twice by the reference enumeration. */
  lemma FeatureSeqDistinct(s: string, n: nat)
    requires n >= 1
    ensures Distinct(FeatureSeq(s, n))
  {
    var w := RawNgrams(s, n);
    var fs := FeatureSeq(s, n);
    forall i, j | 0 <= i < j < |fs| ensures fs[i] != fs[j] {
      FeatureSeqAt(s, n, i);
      FeatureSeqAt(s, n, j);
      if w[i] == w[j] {
        OccurrencesBefore(w, i, j);
      }
    }
  }

  /** The reference enumeration lists exactly the features, one per window. */
  lemma FeatureSeqEnumeratesFeatures(s: string, n: nat)
    requires n >= 1
    ensures |FeatureSeq(s, n)| == FeatureCount(s, n)
    ensures Distinct(FeatureSeq(s, n))
    ensures forall f :: f in FeatureSeq(s, n) <==> IsFeature(s, n, f)
  {
    FeatureSeqDistinct(s, n);
    forall f | f in FeatureSeq(s, n) ensures IsFeature(s, n, f) {
      FeatureSeqSound(s, n, f);
    }
    forall f | IsFeature(s, n, f) ensures f in FeatureSeq(s, n) {
      FeatureSeqComplete(s, n, f);
    }
  }

  lemma FeatureSeqSound(s: string, n: nat, f: Feature)
    requires n >= 1 && f in FeatureSeq(s, n)
    ensures IsFeature(s, n, f)
  {
    var w := RawNgrams(s, n);
    var fs := FeatureSeq(s, n);
    var i :| 0 <= i < |fs| && fs[i] == f;
    FeatureSeqAt(s, n, i);
    OccurrencesBefore(w, i, |w|);
    assert w[..|w|] == w;
  }

  lemma FeatureSeqComplete(s: string, n: nat, f: Feature)
    requires IsFeature(s, n, f)
    ensures f in FeatureSeq(s, n)
  {
    var w := RawNgrams(s, n);
    assert w[..|w|] == w;
    NthOccurrence(w, f.gram, f.rep, |w|);
    var i :| 0 <= i < |w| && w[i] == f.gram && multiset(w[..i])[f.gram] == f.rep;
    FeatureSeqAt(s, n, i);
  }

  /** Every feature's gram is one of the windows of the padded string: a length-n substring. */
  lemma FeatureIsWindow(s: string, n: nat, f: Feature)
    requires IsFeature(s, n, f)
    ensures f.gram in RawNgrams(s, n) && |f.gram| == n
  {
    assert f.gram in multiset(RawNgrams(s, n));
  }

  /** The generator's main operation: pad, collect window statistics, then emit each
      distinct window once plus one suffixed copy per extra occurrence. */
  method CharacterNgrams(str: string, ngramSize: nat) returns (ngrams: seq<Feature>)
    requires ngramSize >= 1
    ensures |ngrams| == FeatureCount(str, ngramSize) >= 1
    ensures Distinct(ngrams)
    ensures forall f :: f in ngrams <==> IsFeature(str, ngramSize, f)
    ensures multiset(ngrams) == multiset(FeatureSeq(str, ngramSize))
  {
    var s := str;
    if |s| < ngramSize {
      s := PadLeft(s, ngramSize);
    }
    var raw := Windows(s, ngramSize);
    assert raw == RawNgrams(str, ngramSize);
    var stats := CountWindows(raw);
    ngrams := EmitTokens(stats, raw);
    assert |ngrams| == |raw|;
    FeatureSeqEnumeratesFeatures(str, ngramSize);
    DistinctSameElements(ngrams, FeatureSeq(str, ngramSize));
  }

  /** The statistics pass: how many times each window occurs. */
  method CountWindows(raw: seq<string>) returns (stats: map<string, nat>)
    ensures forall g :: g in stats <==> g in raw
    ensures forall g :: g in stats ==> stats[g] == multiset(raw)[g]
  {
    stats := map[];
    var i := 0;
    while i < |raw|
      invariant 0 <= i <= |raw|
      invariant forall g :: g in stats <==> g in multiset(raw[..i])
      invariant forall g :: g in stats ==> stats[g] == multiset(raw[..i])[g]
    {
      var g := raw[i];
      assert raw[..i + 1] == raw[..i] + [g];
      if g !in stats {
        stats := stats[g := 0];
      }
      stats := stats[g := stats[g] + 1];
      i := i + 1;
    }
    assert raw[..i] == raw;
  }

  /** The emission pass: gram k once, then k with suffix 1 .. stats[k] - 1, for every key in
      an arbitrary order, as the source's hash map is visited. Given the statistics of a
      sequence of windows, the result holds one token per window. */
  method EmitTokens(stats: map<string, nat>, ghost raw: seq<string>) returns (ngrams: seq<Feature>)
    requires forall g :: g in stats <==> g in raw
    requires forall g :: g in stats ==> stats[g] == multiset(raw)[g]
    ensures Distinct(ngrams)
    ensures forall f :: f in ngrams <==> f.gram in stats && f.rep < stats[f.gram]
    ensures |ngrams| == |raw|
  {
    ngrams := [];
    var keys := stats.Keys;
    ghost var done: set<string> := {};
    ghost var grams: multiset<string> := multiset{};
    while keys != {}
      invariant keys !! done && keys + done == stats.Keys
      invariant Distinct(ngrams)
      invariant forall f :: f in ngrams <==> f.gram in done && f.rep < stats[f.gram]
      invariant |ngrams| == |grams|
      invariant forall g :: grams[g] == if g in done then stats[g] else 0
      decreases keys
    {
      var k :| k in keys;
      DistinctSnoc(ngrams, Feature(k, 0));
      EmitStep(ngrams, stats, done, k, 0);
      ngrams := ngrams + [Feature(k, 0)];
      grams := grams + multiset{k};
      var j := 1;
      while j < stats[k]
        invariant 1 <= j <= stats[k]
        invariant Distinct(ngrams)
        invariant EmittedSoFar(ngrams, stats, done, k, j)
        invariant |ngrams| == |grams|
        invariant forall g :: grams[g] == if g in done then stats[g] else if g == k then j else 0
      {
        DistinctSnoc(ngrams, Feature(k, j));
        EmitStep(ngrams, stats, done, k, j);
        ngrams := ngrams + [Feature(k, j)];
        grams := grams + multiset{k};
        j := j + 1;
      }
      EmitDone(ngrams, stats, done, k);
      done := done + {k};
      keys := keys - {k};
    }
    assert grams == multiset(raw);
  }

  /** The tokens emitted so far: all of the finished grams, and the first j of gram k. */
  ghost predicate EmittedSoFar(ngrams: seq<Feature>, stats: map<string, nat>, done: set<string>, k: string, j: nat)
    requires done <= stats.Keys
  {
    forall f :: f in ngrams <==> (f.gram in done && f.rep < stats[f.gram]) || (f.gram == k && f.rep < j)
  }

  lemma EmitStep(ngrams: seq<Feature>, stats: map<string, nat>, done: set<string>, k: string, j: nat)
    requires done <= stats.Keys && k !in done
    requires forall f :: f in ngrams <==> (f.gram in done && f.rep < stats[f.gram]) || (j > 0 && f.gram == k && f.rep < j)
    ensures EmittedSoFar(ngrams + [Feature(k, j)], stats, done, k, j + 1)
  {
  }

  lemma EmitDone(ngrams: seq<Feature>, stats: map<string, nat>, done: set<string>, k: string)
    requires done <= stats.Keys && k in stats
    requires EmittedSoFar(ngrams, stats, done, k, stats[k])
    ensures forall f :: f in ngrams <==> f.gram in done + {k} && f.rep < stats[f.gram]
  {
  }
}
