/**
  Evidence retrieval for the generative branch of `answer_question`:
  `retrieve_by_dish_title` (the deterministic title lookup), the semantic
  search with its score threshold and its narrowing to the current dish,
  and the final `drop_duplicates(subset=["document_id"]).head(5)`.
  The FAISS search itself is an opaque parameter.
 */
module Retrieval {
  import opened Wrappers
  import opened Text
  import opened Data

  // ---------------------------------------------------------------------
  // Order-preserving selections
  // ---------------------------------------------------------------------

  /** `a` is `b` with some elements left out and the rest in order. */
  predicate Subseq<T(==)>(a: seq<T>, b: seq<T>)
    decreases |b|
  {
    |a| == 0 || (|b| > 0 && ((a[0] == b[0] && Subseq(a[1..], b[1..])) || Subseq(a, b[1..])))
  }

  lemma {:induction false} SubseqTrans<T>(a: seq<T>, b: seq<T>, c: seq<T>)
    requires Subseq(a, b) && Subseq(b, c)
    ensures Subseq(a, c)
    decreases |c|
  {
    if |a| > 0 {
      if b[0] == c[0] && Subseq(b[1..], c[1..]) {
        if a[0] == b[0] && Subseq(a[1..], b[1..]) {
          SubseqTrans(a[1..], b[1..], c[1..]);
        } else {
          SubseqTrans(a, b[1..], c[1..]);
        }
      } else {
        SubseqTrans(a, b, c[1..]);
      }
    }
  }

  /** Everything a subsequence holds comes from the sequence. */
  lemma {:induction false} SubseqMember<T>(a: seq<T>, b: seq<T>, k: int)
    requires Subseq(a, b) && 0 <= k < |a|
    ensures a[k] in b
    decreases |b|
  {
    if a[0] == b[0] && Subseq(a[1..], b[1..]) {
      if k > 0 {
        SubseqMember(a[1..], b[1..], k - 1);
      }
    } else {
      SubseqMember(a, b[1..], k);
    }
  }

  /** `xs[p(xs)]`: the elements satisfying `p`, in order. */
  function Filter<T>(xs: seq<T>, p: T -> bool): (r: seq<T>)
    ensures Subseq(r, xs)
    ensures forall k :: 0 <= k < |r| ==> p(r[k])
    ensures forall i :: 0 <= i < |xs| && p(xs[i]) ==> xs[i] in r
  {
    if |xs| == 0 then []
    else
      var rest := Filter(xs[1..], p);
      assert forall i :: 1 <= i < |xs| ==> xs[i] == xs[1..][i - 1];
      if p(xs[0]) then
        assert ([xs[0]] + rest)[1..] == rest;
        [xs[0]] + rest
      else rest
  }

  /** `head(n)`: the first `n` elements, or all of them when fewer. */
  function Take<T>(xs: seq<T>, n: nat): (r: seq<T>)
    ensures |r| == if n <= |xs| then n else |xs|
    ensures forall k :: 0 <= k < |r| ==> r[k] == xs[k]
  {
    if n <= |xs| then xs[..n] else xs
  }

  /** A prefix is a subsequence. */
  lemma {:induction false} TakeSubseq<T>(xs: seq<T>, n: nat)
    ensures Subseq(Take(xs, n), xs)
    decreases |xs|
  {
    var t := Take(xs, n);
    if |t| > 0 {
      TakeSubseq(xs[1..], n - 1);
      assert t[1..] == Take(xs[1..], n - 1);
    }
  }

  // ---------------------------------------------------------------------
  // retrieve_by_dish_title
  // ---------------------------------------------------------------------

  /** The `__titulo_norm` column: the normal form of the title, with a
      missing title read as "". */
  function TitleNorm(r: Row): string {
    NormText(OrEmpty(r.titulo))
  }

  /** The rows `keep` accepts whose `key` equals `dn`, or, when there are
      none, those whose `key` contains `dn`; in order. */
  function MatchesBy(rows: seq<Row>, keep: Row -> bool, key: Row -> string, dn: string): (ms: seq<Row>)
    ensures Subseq(ms, rows)
    ensures forall k :: 0 <= k < |ms| ==> keep(ms[k]) && Contains(key(ms[k]), dn)
    ensures (exists i :: 0 <= i < |rows| && keep(rows[i]) && key(rows[i]) == dn) ==>
      forall k :: 0 <= k < |ms| ==> key(ms[k]) == dn
    ensures |ms| == 0 <==> forall i :: 0 <= i < |rows| && keep(rows[i]) ==> !Contains(key(rows[i]), dn)
    ensures (exists i :: 0 <= i < |rows| && keep(rows[i]) && key(rows[i]) == dn) ==>
      forall i :: 0 <= i < |rows| && keep(rows[i]) && key(rows[i]) == dn ==> rows[i] in ms
    ensures (forall i :: 0 <= i < |rows| && keep(rows[i]) ==> key(rows[i]) != dn) ==>
      forall i :: 0 <= i < |rows| && keep(rows[i]) && Contains(key(rows[i]), dn) ==> rows[i] in ms
  {
    var pool := Filter(rows, keep);
    var exact := Filter(pool, (r: Row) => key(r) == dn);
    forall k | 0 <= k < |pool| ensures keep(pool[k]) && pool[k] in rows {
      SubseqMember(pool, rows, k);
    }
    if |exact| > 0 then
      SubseqTrans(exact, pool, rows);
      forall k | 0 <= k < |exact| ensures keep(exact[k]) && Contains(key(exact[k]), dn) {
        SubseqMember(exact, pool, k);
      }
      assert forall i :: 0 <= i < |rows| && keep(rows[i]) && key(rows[i]) == dn ==> rows[i] in exact;
      SubseqMember(exact, rows, 0);
      exact
    else
      var loose := Filter(pool, (r: Row) => Contains(key(r), dn));
      SubseqTrans(loose, pool, rows);
      forall k | 0 <= k < |loose| ensures keep(loose[k]) {
        SubseqMember(loose, pool, k);
      }
      assert forall i :: 0 <= i < |rows| && keep(rows[i]) ==> rows[i] in pool;
      assert forall i :: 0 <= i < |rows| && keep(rows[i]) && Contains(key(rows[i]), dn) ==> rows[i] in loose;
      if |loose| > 0 then
        SubseqMember(loose, rows, 0);
        loose
      else loose
  }

  /** The pdf rows whose normalised title equals `dn`, or, when there are
      none, those whose normalised title contains `dn`; dataset order. */
  function TitleMatches(rows: seq<Row>, dn: string): (ms: seq<Row>)
    ensures Subseq(ms, rows)
    ensures forall k :: 0 <= k < |ms| ==> IsPdf(ms[k]) && Contains(TitleNorm(ms[k]), dn)
    ensures (exists i :: 0 <= i < |rows| && IsPdf(rows[i]) && TitleNorm(rows[i]) == dn) ==>
      forall k :: 0 <= k < |ms| ==> TitleNorm(ms[k]) == dn
    ensures |ms| == 0 <==> forall i :: 0 <= i < |rows| && IsPdf(rows[i]) ==> !Contains(TitleNorm(rows[i]), dn)
    ensures (exists i :: 0 <= i < |rows| && IsPdf(rows[i]) && TitleNorm(rows[i]) == dn) ==>
      forall i :: 0 <= i < |rows| && IsPdf(rows[i]) && TitleNorm(rows[i]) == dn ==> rows[i] in ms
    ensures (forall i :: 0 <= i < |rows| && IsPdf(rows[i]) ==> TitleNorm(rows[i]) != dn) ==>
      forall i :: 0 <= i < |rows| && IsPdf(rows[i]) && Contains(TitleNorm(rows[i]), dn) ==> rows[i] in ms
  {
    MatchesBy(rows, IsPdf, TitleNorm, dn)
  }

  /** Rows scored with the constant 1.0 the title lookup assigns. */
  function Scored(rows: seq<Row>): seq<Hit> {
    seq(|rows|, k requires 0 <= k < |rows| => Hit(rows[k], 1.0))
  }

  /** `retrieve_by_dish_title(dish_title, top_k)`. */
  function RetrieveByDishTitle(ds: Dataset, dishTitle: string, topK: nat): (hs: seq<Hit>)
    ensures |hs| <= topK
    ensures dishTitle == "" ==> hs == []
    ensures forall k :: 0 <= k < |hs| ==>
      hs[k].score == 1.0 && hs[k].row in ds.rows && IsPdf(hs[k].row)
      && Contains(TitleNorm(hs[k].row), NormText(dishTitle))
    ensures dishTitle != "" ==>
      var ms := TitleMatches(ds.rows, NormText(dishTitle));
      && |hs| == (if topK <= |ms| then topK else |ms|)
      && forall k :: 0 <= k < |hs| ==> hs[k].row == ms[k]
  {
    if dishTitle == "" then []
    else
      var ms := TitleMatches(ds.rows, NormText(dishTitle));
      var top := Take(ms, topK);
      var hs := Scored(top);
      forall k | 0 <= k < |hs|
        ensures hs[k].row == ms[k] && hs[k].score == 1.0 && hs[k].row in ds.rows
      {
        assert hs[k] == Hit(top[k], 1.0);
        SubseqMember(ms, ds.rows, k);
      }
      hs
  }

  /** The title lookup finds something exactly when the title is non-empty,
      `top_k` is positive and some pdf row's normalised title contains the
      normalised title asked for; and an exact match, when there is one,
      shuts out mere containment. */
  lemma RetrieveByDishTitleFinds(ds: Dataset, dishTitle: string, topK: nat)
    ensures |RetrieveByDishTitle(ds, dishTitle, topK)| > 0 <==>
      dishTitle != "" && topK > 0 &&
      exists i :: 0 <= i < |ds.rows| && IsPdf(ds.rows[i]) && Contains(TitleNorm(ds.rows[i]), NormText(dishTitle))
    ensures dishTitle != "" && (exists i :: 0 <= i < |ds.rows| && IsPdf(ds.rows[i]) && TitleNorm(ds.rows[i]) == NormText(dishTitle)) ==>
      forall k :: 0 <= k < |RetrieveByDishTitle(ds, dishTitle, topK)| ==>
        TitleNorm(RetrieveByDishTitle(ds, dishTitle, topK)[k].row) == NormText(dishTitle)
  {
    if dishTitle != "" {
      FindsWhenMatches(ds, dishTitle, topK);
      MatchesExist(ds.rows, NormText(dishTitle));
      if exists i :: 0 <= i < |ds.rows| && IsPdf(ds.rows[i]) && TitleNorm(ds.rows[i]) == NormText(dishTitle) {
        FindsExactOnly(ds, dishTitle, topK);
      }
    }
  }

  lemma MatchesExist(rows: seq<Row>, dn: string)
    ensures |TitleMatches(rows, dn)| > 0 <==>
      exists i :: 0 <= i < |rows| && IsPdf(rows[i]) && Contains(TitleNorm(rows[i]), dn)
  {
  }

  lemma FindsWhenMatches(ds: Dataset, dishTitle: string, topK: nat)
    requires dishTitle != ""
    ensures |RetrieveByDishTitle(ds, dishTitle, topK)| > 0 <==>
      topK > 0 && |TitleMatches(ds.rows, NormText(dishTitle))| > 0
  {
  }

  lemma FindsExactOnly(ds: Dataset, dishTitle: string, topK: nat)
    requires dishTitle != ""
    requires exists i :: 0 <= i < |ds.rows| && IsPdf(ds.rows[i]) && TitleNorm(ds.rows[i]) == NormText(dishTitle)
    ensures forall k :: 0 <= k < |RetrieveByDishTitle(ds, dishTitle, topK)| ==>
      TitleNorm(RetrieveByDishTitle(ds, dishTitle, topK)[k].row) == NormText(dishTitle)
  {
    var ms := TitleMatches(ds.rows, NormText(dishTitle));
    var hs := RetrieveByDishTitle(ds, dishTitle, topK);
    forall k | 0 <= k < |hs| ensures TitleNorm(hs[k].row) == NormText(dishTitle) {
      assert hs[k].row == ms[k];
    }
  }

  // ---------------------------------------------------------------------
  // Semantic search, threshold, narrowing
  // ---------------------------------------------------------------------

  /** `retrieve_faiss(query, top_k)`: the index, the embedding model and
      the sorting by score are outside the model. */
  type Search = (string, nat) -> seq<Hit>

  /** `hits[hits["score"] >= min_score]`. */
  function Threshold(hs: seq<Hit>, minScore: real): (r: seq<Hit>)
    ensures Subseq(r, hs)
    ensures forall k :: 0 <= k < |r| ==> r[k].score >= minScore
    ensures forall i :: 0 <= i < |hs| && hs[i].score >= minScore ==> hs[i] in r
  {
    Filter(hs, (h: Hit) => h.score >= minScore)
  }

  /** `titulo.astype(str).str.lower().str.contains(prato_atual.lower())`. */
  predicate Mentions(h: Hit, prato: string) {
    Contains(Lower(Render(h.row.titulo)), Lower(prato))
  }

  /** The hits whose title mentions the current dish, when there are any;
      otherwise all of them. */
  function NarrowToDish(hs: seq<Hit>, prato: string): (r: seq<Hit>)
    ensures Subseq(r, hs)
    ensures (exists i :: 0 <= i < |hs| && Mentions(hs[i], prato)) ==>
      (forall k :: 0 <= k < |r| ==> Mentions(r[k], prato)) &&
      (forall i :: 0 <= i < |hs| && Mentions(hs[i], prato) ==> hs[i] in r)
    ensures (forall i :: 0 <= i < |hs| ==> !Mentions(hs[i], prato)) ==> r == hs
  {
    var sub := Filter(hs, (h: Hit) => Mentions(h, prato));
    if |sub| > 0 then
      SubseqMember(sub, hs, 0);
      sub
    else
      SubseqRefl(hs);
      hs
  }

  lemma {:induction false} SubseqRefl<T>(xs: seq<T>)
    ensures Subseq(xs, xs)
    decreases |xs|
  {
    if |xs| > 0 {
      SubseqRefl(xs[1..]);
    }
  }

  // ---------------------------------------------------------------------
  // drop_duplicates(subset=["document_id"])
  // ---------------------------------------------------------------------

  ghost predicate DistinctDocs(hs: seq<Hit>) {
    forall i, j :: 0 <= i < j < |hs| ==> hs[i].row.documentId != hs[j].row.documentId
  }

  /** Hit `i` is the first of its document. */
  ghost predicate FirstOfDoc(hs: seq<Hit>, i: int) {
    0 <= i < |hs| && forall j :: 0 <= j < i ==> hs[j].row.documentId != hs[i].row.documentId
  }

  /** Keep the first hit of every document not in `seen`. */
  function DedupFrom(hs: seq<Hit>, seen: set<string>): (r: seq<Hit>)
    ensures Subseq(r, hs)
    ensures forall k :: 0 <= k < |r| ==> r[k].row.documentId !in seen
    ensures DistinctDocs(r)
  {
    if |hs| == 0 then []
    else
      var id := hs[0].row.documentId;
      if id in seen then DedupFrom(hs[1..], seen)
      else
        var rest := DedupFrom(hs[1..], seen + {id});
        assert ([hs[0]] + rest)[1..] == rest;
        [hs[0]] + rest
  }

  /** Every kept hit is the first hit of its document. */
  lemma {:induction false} DedupFromFirst(hs: seq<Hit>, seen: set<string>, k: int)
    requires 0 <= k < |DedupFrom(hs, seen)|
    ensures exists i :: FirstOfDoc(hs, i) && hs[i] == DedupFrom(hs, seen)[k]
    decreases |hs|
  {
    var id := hs[0].row.documentId;
    var r := DedupFrom(hs, seen);
    if id in seen {
      DedupFromFirst(hs[1..], seen, k);
      var i :| FirstOfDoc(hs[1..], i) && hs[1..][i] == r[k];
      assert FirstOfDoc(hs, i + 1);
    } else if k == 0 {
      assert FirstOfDoc(hs, 0);
    } else {
      var rest := DedupFrom(hs[1..], seen + {id});
      DedupFromFirst(hs[1..], seen + {id}, k - 1);
      var i :| FirstOfDoc(hs[1..], i) && hs[1..][i] == rest[k - 1];
      assert FirstOfDoc(hs, i + 1);
    }
  }

  /** Every document outside `seen` keeps a hit. */
  lemma {:induction false} DedupFromCovers(hs: seq<Hit>, seen: set<string>, i: int)
    requires 0 <= i < |hs| && hs[i].row.documentId !in seen
    ensures exists k :: 0 <= k < |DedupFrom(hs, seen)| && DedupFrom(hs, seen)[k].row.documentId == hs[i].row.documentId
    decreases |hs|
  {
    var id := hs[0].row.documentId;
    var r := DedupFrom(hs, seen);
    if id in seen {
      DedupFromCovers(hs[1..], seen, i - 1);
    } else if hs[i].row.documentId == id {
      assert r[0].row.documentId == id;
    } else {
      var rest := DedupFrom(hs[1..], seen + {id});
      DedupFromCovers(hs[1..], seen + {id}, i - 1);
      var k :| 0 <= k < |rest| && rest[k].row.documentId == hs[1..][i - 1].row.documentId;
      assert r[k + 1] == rest[k];
    }
  }

  /** `drop_duplicates(subset=["document_id"])`: keeps one hit per
      document, in order. */
  function DedupByDoc(hs: seq<Hit>): (r: seq<Hit>)
    ensures Subseq(r, hs)
    ensures DistinctDocs(r)
  {
    DedupFrom(hs, {})
  }

  /** The hit kept for a document is its first one, and no document is
      lost. */
  lemma DedupByDocKeepsFirsts(hs: seq<Hit>)
    ensures forall k :: 0 <= k < |DedupByDoc(hs)| ==> exists i :: FirstOfDoc(hs, i) && hs[i] == DedupByDoc(hs)[k]
    ensures forall i :: 0 <= i < |hs| ==> exists k :: 0 <= k < |DedupByDoc(hs)| && DedupByDoc(hs)[k].row.documentId == hs[i].row.documentId
  {
    assert DedupByDoc(hs) == DedupFrom(hs, {});
    forall k | 0 <= k < |DedupByDoc(hs)| ensures exists i :: FirstOfDoc(hs, i) && hs[i] == DedupByDoc(hs)[k] {
      DedupFromFirst(hs, {}, k);
    }
    forall i | 0 <= i < |hs| ensures exists k :: 0 <= k < |DedupByDoc(hs)| && DedupByDoc(hs)[k].row.documentId == hs[i].row.documentId {
      DedupFromCovers(hs, {}, i);
    }
  }

  // ---------------------------------------------------------------------
  // The evidence of the generative branch
  // ---------------------------------------------------------------------

  /** `top_k=8` of the title lookup. */
  const TitleTopK: nat := 8

  /** `.head(5)` after the deduplication. */
  const EvidenceLimit: nat := 5

  /** The title lookup for the current dish, when there is one. */
  function TitleHits(ds: Dataset, prato: Option<string>): seq<Hit> {
    if Truthy(prato) then RetrieveByDishTitle(ds, prato.value, TitleTopK) else []
  }

  /** The hits before deduplication. Title hits are taken as they are;
      only when there are none do the semantic hits count, and those must
      reach the threshold and are narrowed to the current dish when there
      is one. */
  function Candidates(byTitle: seq<Hit>, semantic: seq<Hit>, prato: Option<string>, minScore: real): (c: seq<Hit>)
    ensures |byTitle| > 0 ==> c == byTitle
    ensures |byTitle| == 0 ==> Subseq(c, semantic) && forall k :: 0 <= k < |c| ==> c[k].score >= minScore
    ensures |byTitle| == 0 && Truthy(prato) && (exists i :: 0 <= i < |semantic| && semantic[i].score >= minScore && Mentions(semantic[i], prato.value)) ==>
      && (forall k :: 0 <= k < |c| ==> Mentions(c[k], prato.value))
      && (forall i :: 0 <= i < |semantic| && semantic[i].score >= minScore && Mentions(semantic[i], prato.value) ==> semantic[i] in c)
    ensures |byTitle| == 0 && (!Truthy(prato) || forall i :: 0 <= i < |semantic| && semantic[i].score >= minScore ==> !Mentions(semantic[i], prato.value)) ==>
      forall i :: 0 <= i < |semantic| && semantic[i].score >= minScore ==> semantic[i] in c
  {
    if |byTitle| > 0 then byTitle
    else
      var sem := Threshold(semantic, minScore);
      if Truthy(prato) then
        var n := NarrowToDish(sem, prato.value);
        SubseqTrans(n, sem, semantic);
        forall k | 0 <= k < |n| ensures n[k].score >= minScore {
          SubseqMember(n, sem, k);
        }
        if exists i :: 0 <= i < |semantic| && semantic[i].score >= minScore && Mentions(semantic[i], prato.value) then
          NarrowSome(semantic, minScore, prato.value);
          n
        else
          NarrowNone(semantic, minScore, prato.value);
          n
      else sem
  }

  /** Some thresholded hit mentions the dish: narrowing keeps exactly the
      thresholded hits that do. */
  lemma NarrowSome(semantic: seq<Hit>, minScore: real, prato: string)
    requires exists i :: 0 <= i < |semantic| && semantic[i].score >= minScore && Mentions(semantic[i], prato)
    ensures var n := NarrowToDish(Threshold(semantic, minScore), prato);
      && (forall k :: 0 <= k < |n| ==> Mentions(n[k], prato))
      && (forall i :: 0 <= i < |semantic| && semantic[i].score >= minScore && Mentions(semantic[i], prato) ==> semantic[i] in n)
  {
    var sem := Threshold(semantic, minScore);
    var i :| 0 <= i < |semantic| && semantic[i].score >= minScore && Mentions(semantic[i], prato);
    var j :| 0 <= j < |sem| && sem[j] == semantic[i];
    assert Mentions(sem[j], prato);
    forall i' | 0 <= i' < |semantic| && semantic[i'].score >= minScore && Mentions(semantic[i'], prato)
      ensures semantic[i'] in NarrowToDish(sem, prato)
    {
      var j' :| 0 <= j' < |sem| && sem[j'] == semantic[i'];
      assert Mentions(sem[j'], prato);
    }
  }

  /** No thresholded hit mentions the dish: narrowing keeps them all. */
  lemma NarrowNone(semantic: seq<Hit>, minScore: real, prato: string)
    requires forall i :: 0 <= i < |semantic| && semantic[i].score >= minScore ==> !Mentions(semantic[i], prato)
    ensures NarrowToDish(Threshold(semantic, minScore), prato) == Threshold(semantic, minScore)
  {
    var sem := Threshold(semantic, minScore);
    forall j | 0 <= j < |sem| ensures !Mentions(sem[j], prato) {
      SubseqMember(sem, semantic, j);
    }
  }

  /** The hits handed to `format_context`: at most five, one per
      document, chosen from the candidates in order. */
  function EvidenceOf(byTitle: seq<Hit>, semantic: seq<Hit>, prato: Option<string>, minScore: real): (hs: seq<Hit>)
    ensures |hs| <= EvidenceLimit
    ensures DistinctDocs(hs)
    ensures Subseq(hs, Candidates(byTitle, semantic, prato, minScore))
  {
    var c := Candidates(byTitle, semantic, prato, minScore);
    var d := DedupByDoc(c);
    TakeSubseq(d, EvidenceLimit);
    SubseqTrans(Take(d, EvidenceLimit), d, c);
    Take(d, EvidenceLimit)
  }

  /** Every piece of evidence is a title hit when there are title hits;
      otherwise it is a semantic hit that reached the threshold, and one
      that mentions the current dish whenever such a hit exists. */
  lemma EvidenceOfDrawn(byTitle: seq<Hit>, semantic: seq<Hit>, prato: Option<string>, minScore: real)
    ensures |byTitle| > 0 ==>
      forall k :: 0 <= k < |EvidenceOf(byTitle, semantic, prato, minScore)| ==> EvidenceOf(byTitle, semantic, prato, minScore)[k] in byTitle
    ensures |byTitle| == 0 ==>
      forall k :: 0 <= k < |EvidenceOf(byTitle, semantic, prato, minScore)| ==>
        && EvidenceOf(byTitle, semantic, prato, minScore)[k] in semantic
        && EvidenceOf(byTitle, semantic, prato, minScore)[k].score >= minScore
    ensures |byTitle| == 0 && Truthy(prato) && (exists i :: 0 <= i < |semantic| && semantic[i].score >= minScore && Mentions(semantic[i], prato.value)) ==>
      forall k :: 0 <= k < |EvidenceOf(byTitle, semantic, prato, minScore)| ==> Mentions(EvidenceOf(byTitle, semantic, prato, minScore)[k], prato.value)
  {
    var e := EvidenceOf(byTitle, semantic, prato, minScore);
    var c := Candidates(byTitle, semantic, prato, minScore);
    forall k | 0 <= k < |e| ensures e[k] in c {
      SubseqMember(e, c, k);
    }
    if |byTitle| == 0 {
      forall k | 0 <= k < |e| ensures e[k] in semantic && e[k].score >= minScore {
        var j :| 0 <= j < |c| && c[j] == e[k];
        SubseqMember(c, semantic, j);
      }
    }
  }

  /** With title hits, the semantic hits play no part: the evidence is the
      first five documents of the title hits, with no threshold and no
      narrowing. */
  lemma EvidenceOfTitleFirst(byTitle: seq<Hit>, semantic: seq<Hit>, prato: Option<string>, minScore: real)
    requires |byTitle| > 0
    ensures EvidenceOf(byTitle, semantic, prato, minScore) == Take(DedupByDoc(byTitle), EvidenceLimit)
  {
  }

  /** The evidence of a question: title lookup for the current dish, and
      `search(query, top_k)` only when that finds nothing. */
  function Evidence(ds: Dataset, prato: Option<string>, query: string, search: Search, topK: nat, minScore: real): (r: seq<Hit>)
    ensures |r| <= EvidenceLimit && DistinctDocs(r)
    ensures forall k :: 0 <= k < |r| ==>
      r[k] in TitleHits(ds, prato) || (r[k] in search(query, topK) && r[k].score >= minScore)
  {
    var e := EvidenceOf(TitleHits(ds, prato), search(query, topK), prato, minScore);
    EvidenceOfDrawn(TitleHits(ds, prato), search(query, topK), prato, minScore);
    e
  }

  /** When the current dish has rows of its own, the semantic search is
      never consulted: the evidence is the first five documents of the
      title hits, each a pdf row of that dish scored 1.0. */
  lemma EvidenceTitleFirst(ds: Dataset, prato: Option<string>, query: string, search: Search, topK: nat, minScore: real)
    requires |TitleHits(ds, prato)| > 0
    ensures Evidence(ds, prato, query, search, topK, minScore) == Take(DedupByDoc(TitleHits(ds, prato)), EvidenceLimit)
    ensures Truthy(prato)
    ensures forall k :: 0 <= k < |Evidence(ds, prato, query, search, topK, minScore)| ==>
      var h := Evidence(ds, prato, query, search, topK, minScore)[k];
      h.score == 1.0 && IsPdf(h.row) && Contains(TitleNorm(h.row), NormText(prato.value))
  {
    var th := TitleHits(ds, prato);
    var d := DedupByDoc(th);
    EvidenceOfTitleFirst(th, search(query, topK), prato, minScore);
    forall k | 0 <= k < |Take(d, EvidenceLimit)| ensures Take(d, EvidenceLimit)[k] in th {
      SubseqMember(d, th, k);
    }
  }
}
