/**
  `encontrar_prato_na_pergunta`: which dish of the menu a question is about.
  The candidates are the keys of `TITULO_NORM_TO_ORIG` (normalised titles,
  in dictionary order). Tier 1 takes the longest key contained in the
  normalised question; failing that, tier 2 takes the key sharing the most
  words with it, provided it shares at least two.
 */
module Resolver {
  import opened Wrappers
  import opened Text

  // ---------------------------------------------------------------------
  // Tier 1: sorted(keys, key=len, reverse=True), first contained key
  // ---------------------------------------------------------------------

  ghost predicate DescByLen(ks: seq<string>) {
    forall i, j :: 0 <= i < j < |ks| ==> |ks[i]| >= |ks[j]|
  }

  /** Insert `k` after every key at least as long as it, so that keys of
      equal length keep their arrival order. */
  function InsertByLen(k: string, ks: seq<string>): (r: seq<string>)
    requires DescByLen(ks)
    ensures |r| == |ks| + 1
    ensures r[0] == k || (|ks| > 0 && r[0] == ks[0])
    ensures DescByLen(r)
  {
    if |ks| == 0 then [k]
    else if |ks[0]| >= |k| then
      var rest := InsertByLen(k, ks[1..]);
      assert |rest[0]| <= |ks[0]|;
      var r := [ks[0]] + rest;
      assert DescByLen(r) by {
        forall a, b | 0 <= a < b < |r| ensures |r[a]| >= |r[b]| {
          assert r[b] == rest[b - 1];
          if a > 0 {
            assert r[a] == rest[a - 1];
          } else if b > 1 {
            assert |rest[0]| >= |rest[b - 1]|;
          }
        }
      }
      r
    else
      var r := [k] + ks;
      assert DescByLen(r) by {
        forall a, b | 0 <= a < b < |r| ensures |r[a]| >= |r[b]| {
          assert r[b] == ks[b - 1];
          if a > 0 {
            assert r[a] == ks[a - 1];
          } else {
            assert |ks[0]| >= |ks[b - 1]|;
          }
        }
      }
      r
  }

  /** Insertion adds exactly the inserted key. */
  lemma {:induction false} InsertByLenPerm(k: string, ks: seq<string>)
    requires DescByLen(ks)
    ensures multiset(InsertByLen(k, ks)) == multiset(ks) + multiset{k}
    decreases |ks|
  {
    if |ks| > 0 && |ks[0]| >= |k| {
      InsertByLenPerm(k, ks[1..]);
      assert ks == [ks[0]] + ks[1..];
    }
  }

  /** `sorted(ks, key=len, reverse=True)`: longest first, and a stable sort,
      so keys of equal length stay in dictionary order. */
  function SortByLenDesc(ks: seq<string>): (r: seq<string>)
    ensures DescByLen(r)
  {
    if |ks| == 0 then []
    else InsertByLen(ks[|ks| - 1], SortByLenDesc(ks[..|ks| - 1]))
  }

  /** Sorting only reorders the keys. */
  lemma {:induction false} SortByLenDescPerm(ks: seq<string>)
    ensures multiset(SortByLenDesc(ks)) == multiset(ks)
    decreases |ks|
  {
    if |ks| > 0 {
      var n := |ks| - 1;
      SortByLenDescPerm(ks[..n]);
      InsertByLenPerm(ks[n], SortByLenDesc(ks[..n]));
      assert ks == ks[..n] + [ks[n]];
    }
  }

  /** `tnorm and tnorm in qn`. */
  predicate Hit(qn: string, k: string) {
    k != "" && Contains(qn, k)
  }

  /** The first key of `ks` that is a hit. */
  function FirstHit(ks: seq<string>, qn: string): (r: Option<string>)
    ensures r.Some? ==> r.value in ks && Hit(qn, r.value)
    ensures r.None? <==> forall i :: 0 <= i < |ks| ==> !Hit(qn, ks[i])
  {
    if |ks| == 0 then None
    else if Hit(qn, ks[0]) then Some(ks[0])
    else
      assert forall i :: 1 <= i < |ks| ==> ks[i] == ks[1..][i - 1];
      FirstHit(ks[1..], qn)
  }

  /** Index `i` holds the tier-1 answer: a hit no other hit is longer than,
      and strictly longer than every hit before it. */
  ghost predicate LongestAt(ks: seq<string>, qn: string, i: int) {
    && 0 <= i < |ks| && Hit(qn, ks[i])
    && forall j :: 0 <= j < |ks| && Hit(qn, ks[j]) ==> |ks[j]| <= |ks[i]| && (j < i ==> |ks[j]| < |ks[i]|)
  }

  /** The tier-1 answer read directly off the dictionary order: scanning the
      keys, a hit replaces the answer so far only when strictly longer. */
  function LongestHit(ks: seq<string>, qn: string): (r: Option<string>)
    ensures r.None? <==> forall j :: 0 <= j < |ks| ==> !Hit(qn, ks[j])
    ensures r.Some? ==> exists i :: LongestAt(ks, qn, i) && ks[i] == r.value
  {
    if |ks| == 0 then None
    else
      var n := |ks| - 1;
      var b := LongestHit(ks[..n], qn);
      assert forall j :: 0 <= j < n ==> ks[..n][j] == ks[j];
      if Hit(qn, ks[n]) && (b.None? || |ks[n]| > |b.value|) then
        assert LongestAt(ks, qn, n) by {
          if b.Some? {
            var i :| LongestAt(ks[..n], qn, i) && ks[..n][i] == b.value;
          }
        }
        Some(ks[n])
      else if b.Some? then
        assert exists i :: LongestAt(ks, qn, i) && ks[i] == b.value by {
          var i :| LongestAt(ks[..n], qn, i) && ks[..n][i] == b.value;
          assert LongestAt(ks, qn, i);
        }
        b
      else
        b
  }

  /** Inserting a key into a length-sorted list changes its first hit only
      when the new key is a hit longer than the old first hit. */
  lemma {:induction false} FirstHitInsert(x: string, s: seq<string>, qn: string)
    requires DescByLen(s)
    ensures FirstHit(InsertByLen(x, s), qn) ==
      if Hit(qn, x) && (FirstHit(s, qn).None? || |x| > |FirstHit(s, qn).value|) then Some(x) else FirstHit(s, qn)
    decreases |s|
  {
    if |s| > 0 {
      if |s[0]| >= |x| {
        var rest := InsertByLen(x, s[1..]);
        assert ([s[0]] + rest)[1..] == rest;
        if !Hit(qn, s[0]) {
          FirstHitInsert(x, s[1..], qn);
        }
      } else {
        assert ([x] + s)[1..] == s;
        var f := FirstHit(s, qn);
        if f.Some? {
          var i :| 0 <= i < |s| && s[i] == f.value;
          assert |s[i]| <= |s[0]|;
        }
      }
    }
  }

  /** The loop over the length-sorted keys returns the longest key that
      occurs in the question, and among equally long ones the first in
      dictionary order: the stable sort is what makes ties deterministic. */
  lemma {:induction false} SortedFirstHitIsLongest(ks: seq<string>, qn: string)
    ensures FirstHit(SortByLenDesc(ks), qn) == LongestHit(ks, qn)
    decreases |ks|
  {
    if |ks| > 0 {
      var n := |ks| - 1;
      SortedFirstHitIsLongest(ks[..n], qn);
      FirstHitInsert(ks[n], SortByLenDesc(ks[..n]), qn);
    }
  }

  // ---------------------------------------------------------------------
  // Tier 2: word overlap
  // ---------------------------------------------------------------------

  /** `len(q_tokens & set(tnorm.split()))`. */
  function Overlap(q: set<string>, k: string): nat {
    |q * WordSet(k)|
  }

  /** Index `i` holds the tier-2 answer under `score`: a score of at least
      two that no key exceeds, and that every key before it falls short of. */
  ghost predicate BestAt(ks: seq<string>, score: string -> nat, i: int) {
    && 0 <= i < |ks| && score(ks[i]) >= 2
    && forall j :: 0 <= j < |ks| ==> score(ks[j]) <= score(ks[i]) && (j < i ==> score(ks[j]) < score(ks[i]))
  }

  /** The `(best, best_score)` loop: a key replaces the best so far when its
      score is strictly higher and at least two. */
  function BestOverlap(ks: seq<string>, score: string -> nat): (r: (Option<string>, nat))
    ensures r.0.None? <==> r.1 == 0
    ensures r.0.None? <==> forall j :: 0 <= j < |ks| ==> score(ks[j]) < 2
    ensures r.0.Some? ==> exists i :: BestAt(ks, score, i) && ks[i] == r.0.value && r.1 == score(ks[i])
  {
    if |ks| == 0 then (None, 0)
    else
      var n := |ks| - 1;
      var (b, s) := BestOverlap(ks[..n], score);
      var sc := score(ks[n]);
      assert forall j :: 0 <= j < n ==> ks[..n][j] == ks[j];
      if sc > s && sc >= 2 then
        assert BestAt(ks, score, n) by {
          if b.Some? {
            var i :| BestAt(ks[..n], score, i) && ks[..n][i] == b.value && s == score(ks[i]);
          }
        }
        (Some(ks[n]), sc)
      else if b.Some? then
        assert exists i :: BestAt(ks, score, i) && ks[i] == b.value && s == score(ks[i]) by {
          var i :| BestAt(ks[..n], score, i) && ks[..n][i] == b.value && s == score(ks[i]);
          assert BestAt(ks, score, i);
        }
        (b, s)
      else
        (b, s)
  }

  /** A key sharing two words with the question is not empty. */
  lemma OverlapNeedsWords(q: set<string>, k: string)
    requires Overlap(q, k) >= 2
    ensures k != ""
  {
    var w :| w in q * WordSet(k);
  }

  // ---------------------------------------------------------------------
  // encontrar_prato_na_pergunta
  // ---------------------------------------------------------------------

  /** `encontrar_prato_na_pergunta(pergunta)` over the menu keys `keys`:
      a non-empty key, and no dish exactly when no key occurs in the
      normalised question and none shares two of its words. */
  function EncontrarPrato(keys: seq<string>, pergunta: string): (r: Option<string>)
    ensures r.Some? ==> r.value in keys && r.value != ""
    ensures r.None? <==> forall k :: k in keys ==>
      (!Hit(NormText(pergunta), k) && Overlap(WordSet(NormText(pergunta)), k) < 2)
  {
    var qn := NormText(pergunta);
    TiersGiveKeys(keys, qn);
    match FirstHit(SortByLenDesc(keys), qn)
    case Some(k) => Some(k)
    case None => BestOverlap(keys, k => Overlap(WordSet(qn), k)).0
  }

  /** Each tier answers with a non-empty key of `keys`; tier 1 finds
      nothing exactly when no key is a hit, and tier 2 exactly when no key
      shares two words with the question. */
  lemma TiersGiveKeys(keys: seq<string>, qn: string)
    ensures var f := FirstHit(SortByLenDesc(keys), qn);
      && (f.Some? ==> f.value in keys && f.value != "")
      && (f.None? <==> forall k :: k in keys ==> !Hit(qn, k))
    ensures var b := BestOverlap(keys, k => Overlap(WordSet(qn), k)).0;
      && (b.Some? ==> b.value in keys && b.value != "")
      && (b.None? <==> forall k :: k in keys ==> Overlap(WordSet(qn), k) < 2)
  {
    var s := SortByLenDesc(keys);
    SortByLenDescPerm(keys);
    forall k ensures k in s <==> k in keys {
      assert k in s <==> k in multiset(s);
      assert k in keys <==> k in multiset(keys);
    }
    var score := k => Overlap(WordSet(qn), k);
    var b := BestOverlap(keys, score);
    if b.0.Some? {
      var i :| BestAt(keys, score, i) && keys[i] == b.0.value && b.1 == score(keys[i]);
      OverlapNeedsWords(WordSet(qn), keys[i]);
    }
  }

  /** The resolved dish is a non-empty menu key: the longest key occurring
      in the normalised question when there is one, and otherwise the first
      key with the largest word overlap of at least two; with neither, no
      dish is resolved. */
  lemma EncontrarPratoSpec(keys: seq<string>, pergunta: string)
    ensures var qn := NormText(pergunta);
      LongestHit(keys, qn).Some? ==> EncontrarPrato(keys, pergunta) == LongestHit(keys, qn)
    ensures var qn := NormText(pergunta);
      LongestHit(keys, qn).None? ==> EncontrarPrato(keys, pergunta) == BestOverlap(keys, k => Overlap(WordSet(qn), k)).0
    ensures var r := EncontrarPrato(keys, pergunta); r.Some? ==> r.value in keys && r.value != ""
  {
    var qn := NormText(pergunta);
    SortedFirstHitIsLongest(keys, qn);
    var s := SortByLenDesc(keys);
    var f := FirstHit(s, qn);
    if f.Some? {
      SortByLenDescPerm(keys);
      assert f.value in multiset(s);
    } else {
      var score := k => Overlap(WordSet(qn), k);
      var b := BestOverlap(keys, score);
      if b.0.Some? {
        var i :| BestAt(keys, score, i) && keys[i] == b.0.value && b.1 == score(keys[i]);
        OverlapNeedsWords(WordSet(qn), keys[i]);
      }
    }
  }
}
