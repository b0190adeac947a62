/**
 * Deduplication and truncation at the end of `run_scraper`: a
 * first-occurrence-wins filter on the (title, company) key, then a cut to the
 * first `target_count` records.
 */
module Deduplication {
  import opened Text
  import opened Records

  /** The keys of all records of `s`. */
  function KeySet(s: seq<Internship>): set<(string, string)> {
    set i | 0 <= i < |s| :: Key(s[i])
  }

  /** No two records of `s` share a key. */
  predicate DistinctKeys(s: seq<Internship>) {
    forall i, j :: 0 <= i < j < |s| ==> Key(s[i]) != Key(s[j])
  }

  /** `s[i]` is the first record of `s` with its key. */
  predicate FirstOccurrence(s: seq<Internship>, i: int) {
    0 <= i < |s| && forall k :: 0 <= k < i ==> Key(s[k]) != Key(s[i])
  }

  /** The specification of the `seen`-set loop: scanning left to right, a
      record is kept when its key has not been seen before. */
  function Dedup(s: seq<Internship>): seq<Internship>
    decreases |s|
  {
    if s == [] then []
    else
      var init, last := s[..|s| - 1], s[|s| - 1];
      if Key(last) in KeySet(init) then Dedup(init) else Dedup(init) + [last]
  }

  /** The positions of the first occurrences of the keys of `s`, ascending. */
  function KeptIndices(s: seq<Internship>): seq<int>
    decreases |s|
  {
    if s == [] then []
    else KeptIndices(s[..|s| - 1]) + (if FirstOccurrence(s, |s| - 1) then [|s| - 1] else [])
  }

  /** Python's `s[:n]`: the first `n` records, or, for negative `n`, all but the last `-n`. */
  function Truncate(s: seq<Internship>, n: int): seq<Internship> {
    if n >= 0 then (if n <= |s| then s[..n] else s)
    else if |s| + n >= 0 then s[..|s| + n] else []
  }

  lemma KeySetSnoc(s: seq<Internship>, x: Internship)
    ensures KeySet(s + [x]) == KeySet(s) + {Key(x)}
  {
    var t := s + [x];
    assert Key(t[|s|]) == Key(x);
    forall k | k in KeySet(s) ensures k in KeySet(t) {
      var i :| 0 <= i < |s| && Key(s[i]) == k;
      assert t[i] == s[i];
    }
  }

  /** Every key of the input is kept and no other key appears. */
  lemma {:induction false} DedupKeys(s: seq<Internship>)
    ensures KeySet(Dedup(s)) == KeySet(s)
    decreases |s|
  {
    if s != [] {
      var init, last := s[..|s| - 1], s[|s| - 1];
      assert s == init + [last];
      DedupKeys(init);
      KeySetSnoc(init, last);
      if Key(last) !in KeySet(init) {
        KeySetSnoc(Dedup(init), last);
      }
    }
  }

  /** No two kept records share a key. */
  lemma {:induction false} DedupDistinct(s: seq<Internship>)
    ensures DistinctKeys(Dedup(s))
    decreases |s|
  {
    if s != [] {
      var init, last := s[..|s| - 1], s[|s| - 1];
      DedupDistinct(init);
      DedupKeys(init);
      if Key(last) !in KeySet(init) {
        var d := Dedup(init);
        forall i | 0 <= i < |d| ensures Key(d[i]) != Key(last) {
          assert Key(d[i]) in KeySet(d);
        }
      }
    }
  }

  /** The kept records appear in the input, in the input's order. */
  lemma {:induction false} DedupSubsequence(s: seq<Internship>)
    ensures IsSubsequence(Dedup(s), s)
    decreases |s|
  {
    if s != [] {
      var init := s[..|s| - 1];
      DedupSubsequence(init);
      var d := Dedup(s);
      if d != [] && d == Dedup(init) + [s[|s| - 1]] {
        assert d[..|d| - 1] == Dedup(init);
      }
    }
  }

  /** The `j`-th kept record is the first occurrence of its key in the input. */
  lemma {:induction false} DedupKeepsFirstAt(s: seq<Internship>, j: nat)
    requires j < |Dedup(s)|
    ensures exists i :: FirstOccurrence(s, i) && s[i] == Dedup(s)[j]
    decreases |s|
  {
    var init, last := s[..|s| - 1], s[|s| - 1];
    var d := Dedup(init);
    assert Dedup(s) == d || Dedup(s) == d + [last];
    if j < |d| {
      assert Dedup(s)[j] == d[j];
      DedupKeepsFirstAt(init, j);
      var i :| FirstOccurrence(init, i) && init[i] == d[j];
      forall k | 0 <= k < i ensures Key(s[k]) != Key(s[i]) {
        assert s[k] == init[k] && s[i] == init[i];
      }
      assert FirstOccurrence(s, i);
    } else {
      assert Dedup(s) == d + [last] && Dedup(s)[j] == last;
      assert Key(last) !in KeySet(init);
      forall k | 0 <= k < |s| - 1 ensures Key(s[k]) != Key(last) {
        assert s[k] == init[k];
        assert Key(init[k]) in KeySet(init);
      }
      assert FirstOccurrence(s, |s| - 1);
    }
  }

  /** The last record is a first occurrence exactly when its key is new. */
  lemma LastIsFirstOccurrence(s: seq<Internship>)
    requires s != []
    ensures FirstOccurrence(s, |s| - 1) <==> Key(s[|s| - 1]) !in KeySet(s[..|s| - 1])
  {
    var init := s[..|s| - 1];
    if Key(s[|s| - 1]) in KeySet(init) {
      var k :| 0 <= k < |init| && Key(init[k]) == Key(s[|s| - 1]);
      assert s[k] == init[k];
    } else {
      forall k | 0 <= k < |s| - 1 ensures Key(s[k]) != Key(s[|s| - 1]) {
        assert s[k] == init[k];
        assert Key(init[k]) in KeySet(init);
      }
    }
  }

  /** Dropping the last record keeps the first occurrences before it. */
  lemma FirstOccurrenceInit(s: seq<Internship>, i: int)
    requires s != [] && i < |s| - 1
    ensures FirstOccurrence(s, i) <==> FirstOccurrence(s[..|s| - 1], i)
  {
  }

  /** The `j`-th kept record sits at the `j`-th first-occurrence position:
      the kept records are the first occurrences, in ascending position. */
  lemma {:induction false} KeptIndicesSpec(s: seq<Internship>)
    ensures |KeptIndices(s)| == |Dedup(s)|
    ensures forall j :: 0 <= j < |KeptIndices(s)| ==>
      FirstOccurrence(s, KeptIndices(s)[j]) && s[KeptIndices(s)[j]] == Dedup(s)[j]
    ensures forall j1, j2 :: 0 <= j1 < j2 < |KeptIndices(s)| ==> KeptIndices(s)[j1] < KeptIndices(s)[j2]
    ensures forall i :: FirstOccurrence(s, i) ==> i in KeptIndices(s)
    decreases |s|
  {
    if s != [] {
      var init, last := s[..|s| - 1], s[|s| - 1];
      KeptIndicesSpec(init);
      LastIsFirstOccurrence(s);
      var ki, di := KeptIndices(init), Dedup(init);
      var k, d := KeptIndices(s), Dedup(s);
      assert k[..|ki|] == ki && d[..|di|] == di;
      forall j | 0 <= j < |ki| ensures FirstOccurrence(s, k[j]) && s[k[j]] == d[j] {
        assert k[j] == ki[j] && d[j] == di[j];
        FirstOccurrenceInit(s, ki[j]);
        assert s[ki[j]] == init[ki[j]];
      }
      forall i | FirstOccurrence(s, i) ensures i in k {
        if i < |s| - 1 {
          FirstOccurrenceInit(s, i);
          assert i in ki;
        } else {
          assert k[|k| - 1] == i;
        }
      }
    }
  }

  /** First-seen order: the kept records are the first occurrences of the
      input's keys, taken at ascending positions. */
  lemma DedupOrder(s: seq<Internship>)
    ensures exists idx: seq<int> ::
      && |idx| == |Dedup(s)|
      && (forall j :: 0 <= j < |idx| ==> FirstOccurrence(s, idx[j]) && s[idx[j]] == Dedup(s)[j])
      && (forall j1, j2 :: 0 <= j1 < j2 < |idx| ==> idx[j1] < idx[j2])
      && (forall i :: FirstOccurrence(s, i) ==> i in idx)
  {
    KeptIndicesSpec(s);
    var idx := KeptIndices(s);
    assert |idx| == |Dedup(s)|;
  }

  /** Stable first-occurrence-wins deduplication: the result is a subsequence
      of the input holding exactly one record per key of the input, and that
      record is the key's first occurrence; the kept records are exactly the
      first occurrences, in the order of their positions in the input. */
  lemma DedupSpec(s: seq<Internship>)
    ensures IsSubsequence(Dedup(s), s)
    ensures DistinctKeys(Dedup(s))
    ensures KeySet(Dedup(s)) == KeySet(s)
    ensures forall j :: 0 <= j < |Dedup(s)| ==> exists i :: FirstOccurrence(s, i) && s[i] == Dedup(s)[j]
    ensures exists idx: seq<int> ::
      && |idx| == |Dedup(s)|
      && (forall j :: 0 <= j < |idx| ==> FirstOccurrence(s, idx[j]) && s[idx[j]] == Dedup(s)[j])
      && (forall j1, j2 :: 0 <= j1 < j2 < |idx| ==> idx[j1] < idx[j2])
      && (forall i :: FirstOccurrence(s, i) ==> i in idx)
  {
    DedupSubsequence(s);
    DedupDistinct(s);
    DedupKeys(s);
    forall j | 0 <= j < |Dedup(s)| ensures exists i :: FirstOccurrence(s, i) && s[i] == Dedup(s)[j] {
      DedupKeepsFirstAt(s, j);
    }
    DedupOrder(s);
  }

  /** A sequence whose keys are already distinct is left as it is. */
  lemma {:induction false} DedupOfDistinct(s: seq<Internship>)
    requires DistinctKeys(s)
    ensures Dedup(s) == s
    decreases |s|
  {
    if s != [] {
      var init, last := s[..|s| - 1], s[|s| - 1];
      DedupOfDistinct(init);
      forall i | 0 <= i < |init| ensures Key(init[i]) != Key(last) {
        assert init[i] == s[i];
      }
      assert Key(last) !in KeySet(init);
      assert s == init + [last];
    }
  }

  /** Deduplicating twice is deduplicating once. */
  lemma DedupIdempotent(s: seq<Internship>)
    ensures Dedup(Dedup(s)) == Dedup(s)
  {
    DedupDistinct(s);
    DedupOfDistinct(Dedup(s));
  }

  /** The deduplicated list has one record per distinct key of the input. */
  lemma {:induction false} DedupLength(s: seq<Internship>)
    ensures |Dedup(s)| == |KeySet(s)|
    decreases |s|
  {
    if s != [] {
      var init, last := s[..|s| - 1], s[|s| - 1];
      assert s == init + [last];
      DedupLength(init);
      KeySetSnoc(init, last);
      if Key(last) in KeySet(init) {
        assert KeySet(s) == KeySet(init);
      } else {
        assert |Dedup(s)| == |Dedup(init)| + 1;
        assert |KeySet(init) + {Key(last)}| == |KeySet(init)| + 1;
      }
    }
  }

  /** The cut keeps a prefix; for a non-negative count its length is the
      smaller of the count and the input's length. */
  lemma TruncateSpec(s: seq<Internship>, n: int)
    ensures Truncate(s, n) <= s
    ensures n >= 0 ==> |Truncate(s, n)| == if n <= |s| then n else |s|
    ensures n < 0 ==> |Truncate(s, n)| == if |s| + n >= 0 then |s| + n else 0
  {
  }

  /** The loop of `run_scraper` that keeps the first record of each
      (title, company) key, using a set of seen keys. */
  method RemoveDuplicates(items: seq<Internship>) returns (unique: seq<Internship>)
    ensures unique == Dedup(items)
  {
    unique := [];
    var seen: set<(string, string)> := {};
    for i := 0 to |items|
      invariant unique == Dedup(items[..i])
      invariant seen == KeySet(items[..i])
    {
      var key := Key(items[i]);
      assert items[..i + 1][..i] == items[..i];
      KeySetSnoc(items[..i], items[i]);
      assert items[..i + 1] == items[..i] + [items[i]];
      if key !in seen {
        seen := seen + {key};
        unique := unique + [items[i]];
      }
    }
    assert items[..|items|] == items;
  }
}
