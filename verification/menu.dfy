/**
  The menu catalog built once from the dataset: the two normalised-title
  dictionaries of `_build_menu_maps` (`TITULO_NORM_TO_ORIG`,
  `TITULO_NORM_TO_CAT`) and the deterministic listings
  `listar_pratos_da_categoria` and `listar_todos_pratos`.
 */
module Menu {
  import opened Wrappers
  import opened Text
  import opened Data
  import opened Category
  import opened StrOrder

  // ---------------------------------------------------------------------
  // Insertion-ordered dictionaries
  // ---------------------------------------------------------------------

  /** A Python `dict` with string keys: entries in insertion order. */
  type AList<V> = seq<(string, V)>

  ghost predicate Distinct<T>(xs: seq<T>) {
    forall i, j :: 0 <= i < j < |xs| ==> xs[i] != xs[j]
  }

  /** `list(d.keys())`. */
  function Keys<V>(m: AList<V>): (ks: seq<string>)
    ensures |ks| == |m|
    ensures forall i :: 0 <= i < |m| ==> ks[i] == m[i].0
  {
    if |m| == 0 then [] else [m[0].0] + Keys(m[1..])
  }

  /** `d.get(k)`. */
  function Get<V>(m: AList<V>, k: string): (o: Option<V>)
    ensures o.None? <==> k !in Keys(m)
  {
    if |m| == 0 then None
    else if m[0].0 == k then Some(m[0].1)
    else
      assert Keys(m) == [m[0].0] + Keys(m[1..]);
      Get(m[1..], k)
  }

  /** `d[k] = v`: an existing key keeps its position and takes the new
      value; a new key goes to the end. */
  function Put<V>(m: AList<V>, k: string, v: V): (r: AList<V>)
    ensures Keys(r) == if k in Keys(m) then Keys(m) else Keys(m) + [k]
    ensures Get(r, k) == Some(v)
    ensures forall k' :: k' != k ==> Get(r, k') == Get(m, k')
    decreases |m|
  {
    if |m| == 0 then [(k, v)]
    else if m[0].0 == k then
      assert Keys(m) == [m[0].0] + Keys(m[1..]);
      var r := [(k, v)] + m[1..];
      assert r[1..] == m[1..];
      r
    else
      var rest := Put(m[1..], k, v);
      var r := [m[0]] + rest;
      assert r[1..] == rest;
      assert Keys(m) == [m[0].0] + Keys(m[1..]);
      assert Keys(r) == [m[0].0] + Keys(rest);
      r
  }

  /** The keys of a list of pairs, in order. */
  function Firsts<V>(ps: seq<(string, V)>): (ks: seq<string>)
    ensures |ks| == |ps|
    ensures forall i :: 0 <= i < |ps| ==> ks[i] == ps[i].0
  {
    seq(|ps|, i requires 0 <= i < |ps| => ps[i].0)
  }

  /** The dict comprehension `{k: v for (k, v) in ps}`. */
  function FromPairs<V>(ps: seq<(string, V)>): (m: AList<V>)
    decreases |ps|
  {
    if |ps| == 0 then []
    else Put(FromPairs(ps[..|ps| - 1]), ps[|ps| - 1].0, ps[|ps| - 1].1)
  }

  /** The distinct elements of `xs` in order of first occurrence. */
  function DedupFirst<T(==,!new)>(xs: seq<T>): (r: seq<T>)
    ensures Distinct(r)
    ensures forall y :: y in r <==> y in xs
    decreases |xs|
  {
    if |xs| == 0 then []
    else
      var init := xs[..|xs| - 1];
      var d := DedupFirst(init);
      assert forall y :: y in xs <==> y in init || y == xs[|xs| - 1];
      if xs[|xs| - 1] in d then d else d + [xs[|xs| - 1]]
  }

  /** A dictionary built from pairs lists its keys in the order of their
      first occurrence. */
  lemma {:induction false} FromPairsKeys<V>(ps: seq<(string, V)>)
    ensures Keys(FromPairs(ps)) == DedupFirst(Firsts(ps))
    decreases |ps|
  {
    if |ps| > 0 {
      var init := ps[..|ps| - 1];
      FromPairsKeys(init);
      assert Firsts(ps)[..|ps| - 1] == Firsts(init);
    }
  }

  /** Index `i` holds the last pair of `ps` with key `k`. */
  ghost predicate LastWith<V>(ps: seq<(string, V)>, k: string, i: int) {
    0 <= i < |ps| && ps[i].0 == k && forall j :: i < j < |ps| ==> ps[j].0 != k
  }

  /** A key is present exactly when some pair has it. */
  lemma FromPairsHas<V>(ps: seq<(string, V)>, k: string)
    ensures Get(FromPairs(ps), k).Some? <==> k in Firsts(ps)
  {
    FromPairsKeys(ps);
  }

  /** The value of the last pair with key `k`, if any. */
  function LastValue<V>(ps: seq<(string, V)>, k: string): Option<V>
    decreases |ps|
  {
    if |ps| == 0 then None
    else if ps[|ps| - 1].0 == k then Some(ps[|ps| - 1].1)
    else LastValue(ps[..|ps| - 1], k)
  }

  /** Looking a key up in a dictionary built from pairs finds the value of
      the last pair with that key. */
  lemma {:induction false} FromPairsGet<V>(ps: seq<(string, V)>, k: string)
    ensures Get(FromPairs(ps), k) == LastValue(ps, k)
    decreases |ps|
  {
    if |ps| > 0 {
      FromPairsGet(ps[..|ps| - 1], k);
    }
  }

  lemma {:induction false} LastValueAt<V>(ps: seq<(string, V)>, k: string, i: int)
    requires LastWith(ps, k, i)
    ensures LastValue(ps, k) == Some(ps[i].1)
    decreases |ps|
  {
    var n := |ps| - 1;
    if i < n {
      var init := ps[..n];
      assert LastWith(init, k, i) by {
        forall j | i < j < |init| ensures init[j].0 != k {
          assert init[j] == ps[j];
        }
      }
      LastValueAt(init, k, i);
    }
  }

  /** Last write wins: a present key holds the value of the last pair that
      has it. */
  lemma FromPairsLastWins<V>(ps: seq<(string, V)>, k: string, i: int)
    requires LastWith(ps, k, i)
    ensures Get(FromPairs(ps), k) == Some(ps[i].1)
  {
    FromPairsGet(ps, k);
    LastValueAt(ps, k, i);
  }

  /** The last index of a key that occurs among the pairs. */
  lemma LastWithExists<V>(ps: seq<(string, V)>, k: string) returns (i: int)
    requires exists j :: 0 <= j < |ps| && ps[j].0 == k
    ensures LastWith(ps, k, i)
    decreases |ps|
  {
    if ps[|ps| - 1].0 == k {
      i := |ps| - 1;
    } else {
      var j :| 0 <= j < |ps| && ps[j].0 == k;
      i := LastWithExists(ps[..|ps| - 1], k);
    }
  }

  // ---------------------------------------------------------------------
  // The categoria_corr column
  // ---------------------------------------------------------------------

  /** `df["categoria_corr"]`, computed once when the dataset is loaded:
      the derived category of each row, an official category or "". */
  function Corr(ds: Dataset): (c: seq<string>)
    ensures |c| == |ds.rows|
    ensures forall i :: 0 <= i < |c| ==> c[i] == "" || c[i] in CategoriasOficiais
  {
    seq(|ds.rows|, i requires 0 <= i < |ds.rows| => CategoriaCorr(ds, ds.rows[i]))
  }

  // ---------------------------------------------------------------------
  // _build_menu_maps
  // ---------------------------------------------------------------------

  /** Row `r`, whose derived category is `c`, yields the menu pair `p`: a
      pdf row with title `p.0` and category `p.1`. */
  predicate MenuPair(r: Row, c: string, p: (string, string)) {
    IsPdf(r) && r.titulo == Str(p.0) && p.1 == c
  }

  /** `(titulo, categoria_corr)` of the pdf rows whose title is present. */
  function MenuPairsOf(rows: seq<Row>, corr: seq<string>): seq<(string, string)>
    requires |corr| == |rows|
  {
    if |rows| == 0 then []
    else
      var here := if IsPdf(rows[0]) && rows[0].titulo.Str? then [(rows[0].titulo.s, corr[0])] else [];
      here + MenuPairsOf(rows[1..], corr[1..])
  }

  /** Every pdf row with a title yields its pair. */
  lemma {:induction false} MenuPairsComplete(rows: seq<Row>, corr: seq<string>, i: int)
    requires |corr| == |rows|
    requires 0 <= i < |rows| && IsPdf(rows[i]) && rows[i].titulo.Str?
    ensures (rows[i].titulo.s, corr[i]) in MenuPairsOf(rows, corr)
    decreases |rows|
  {
    if i > 0 {
      MenuPairsComplete(rows[1..], corr[1..], i - 1);
      assert rows[1..][i - 1] == rows[i] && corr[1..][i - 1] == corr[i];
    }
  }

  /** Every pair comes from some row. */
  lemma {:induction false} MenuPairsSound(rows: seq<Row>, corr: seq<string>, p: (string, string))
    requires |corr| == |rows|
    requires p in MenuPairsOf(rows, corr)
    ensures exists i :: 0 <= i < |rows| && MenuPair(rows[i], corr[i], p)
    decreases |rows|
  {
    if !(IsPdf(rows[0]) && rows[0].titulo.Str? && p == (rows[0].titulo.s, corr[0])) {
      MenuPairsSound(rows[1..], corr[1..], p);
      var i :| 0 <= i < |rows[1..]| && MenuPair(rows[1..][i], corr[1..][i], p);
      assert MenuPair(rows[i + 1], corr[i + 1], p);
    } else {
      assert MenuPair(rows[0], corr[0], p);
    }
  }

  /** `df_menu` after `dropna().drop_duplicates()`. */
  function DfMenu(ds: Dataset): seq<(string, string)> {
    DfMenuOf(ds.rows, Corr(ds))
  }

  /** `(norm(titulo), titulo)` for each menu pair. */
  function OrigPairs(df: seq<(string, string)>): seq<(string, string)> {
    seq(|df|, i requires 0 <= i < |df| => (NormText(df[i].0), df[i].0))
  }

  /** `(norm(titulo), categoria_corr)` for each menu pair. */
  function CatPairs(df: seq<(string, string)>): seq<(string, string)> {
    seq(|df|, i requires 0 <= i < |df| => (NormText(df[i].0), df[i].1))
  }

  /** `TITULO_NORM_TO_ORIG`: normalised title to original title. Every
      key is the normal form of the title it maps to. */
  function TituloNormToOrig(ds: Dataset): (m: AList<string>)
    ensures forall k :: Get(m, k).Some? ==> NormText(Get(m, k).value) == k
  {
    var m := FromPairs(OrigPairs(DfMenu(ds)));
    forall k | Get(m, k).Some? ensures NormText(Get(m, k).value) == k {
      MenuMapsSameRowOf(ds.rows, Corr(ds), k);
    }
    m
  }

  /** `TITULO_NORM_TO_CAT`: normalised title to category. It has the keys
      of `TITULO_NORM_TO_ORIG`, and every value is an official category or
      "". */
  function TituloNormToCat(ds: Dataset): (m: AList<string>)
    ensures forall k :: Get(m, k).Some? ==> Get(m, k).value == "" || Get(m, k).value in CategoriasOficiais
  {
    var df := DfMenu(ds);
    var m := FromPairs(CatPairs(df));
    forall k | Get(m, k).Some? ensures Get(m, k).value == "" || Get(m, k).value in CategoriasOficiais {
      PairsSameKeys(df, k);
      MenuMapsSameRowOf(ds.rows, Corr(ds), k);
    }
    m
  }

  /** The two dictionaries over one list of menu pairs hold the same keys. */
  lemma PairsSameKeys(df: seq<(string, string)>, k: string)
    ensures Get(FromPairs(OrigPairs(df)), k).Some? <==> Get(FromPairs(CatPairs(df)), k).Some?
  {
    assert Firsts(OrigPairs(df)) == Firsts(CatPairs(df));
    FromPairsHas(OrigPairs(df), k);
    FromPairsHas(CatPairs(df), k);
  }

  /** Both dictionaries hold the same keys in the same order. */
  lemma MenuMapsSameKeys(ds: Dataset)
    ensures Keys(TituloNormToOrig(ds)) == Keys(TituloNormToCat(ds))
  {
    var df := DfMenu(ds);
    assert Firsts(OrigPairs(df)) == Firsts(CatPairs(df));
    FromPairsKeys(OrigPairs(df));
    FromPairsKeys(CatPairs(df));
  }

  /** A normalised-title dictionary over menu pairs `df` has key `k`
      exactly when some pair's title normalises to `k`. */
  lemma OrigKeys(df: seq<(string, string)>, k: string)
    ensures Get(FromPairs(OrigPairs(df)), k).Some? <==> exists p :: p in df && NormText(p.0) == k
  {
    var po := OrigPairs(df);
    FromPairsHas(po, k);
    if k in Firsts(po) {
      var i :| 0 <= i < |po| && Firsts(po)[i] == k;
      assert po[i].0 == NormText(df[i].0);
      assert df[i] in df;
    }
    if exists p :: p in df && NormText(p.0) == k {
      var p :| p in df && NormText(p.0) == k;
      var j :| 0 <= j < |df| && df[j] == p;
      assert po[j].0 == NormText(df[j].0);
      assert Firsts(po)[j] == k;
    }
  }

  /** Two dictionaries built from pair lists with the same keys, position
      by position, take a present key's values from the same position: the
      last one with that key. */
  lemma SameKeysSamePosition<V, W>(po: seq<(string, V)>, pc: seq<(string, W)>, k: string)
    requires Firsts(po) == Firsts(pc)
    requires Get(FromPairs(po), k).Some?
    ensures exists i :: (LastWith(po, k, i)
      && Get(FromPairs(po), k) == Some(po[i].1)
      && Get(FromPairs(pc), k) == Some(pc[i].1))
  {
    FromPairsHas(po, k);
    var j :| 0 <= j < |po| && Firsts(po)[j] == k;
    var i := LastWithExists(po, k);
    assert LastWith(pc, k, i) by {
      forall m | i < m < |pc| ensures pc[m].0 != k {
        assert Firsts(po)[m] == Firsts(pc)[m];
      }
      assert Firsts(po)[i] == Firsts(pc)[i];
    }
    FromPairsLastWins(po, k, i);
    FromPairsLastWins(pc, k, i);
  }

  /** The menu pairs of `rows` with derived categories `corr`, deduplicated. */
  function DfMenuOf(rows: seq<Row>, corr: seq<string>): seq<(string, string)>
    requires |corr| == |rows|
  {
    DedupFirst(MenuPairsOf(rows, corr))
  }

  lemma MenuKeysOf(rows: seq<Row>, corr: seq<string>, k: string)
    requires |corr| == |rows|
    ensures Get(FromPairs(OrigPairs(DfMenuOf(rows, corr))), k).Some? <==>
      exists i :: 0 <= i < |rows| && IsPdf(rows[i]) && rows[i].titulo.Str? && NormText(rows[i].titulo.s) == k
  {
    var df := DfMenuOf(rows, corr);
    OrigKeys(df, k);
    if Get(FromPairs(OrigPairs(df)), k).Some? {
      var p :| p in df && NormText(p.0) == k;
      MenuPairsSound(rows, corr, p);
    }
    if exists i :: 0 <= i < |rows| && IsPdf(rows[i]) && rows[i].titulo.Str? && NormText(rows[i].titulo.s) == k {
      var i :| 0 <= i < |rows| && IsPdf(rows[i]) && rows[i].titulo.Str? && NormText(rows[i].titulo.s) == k;
      MenuPairsComplete(rows, corr, i);
      assert (rows[i].titulo.s, corr[i]) in df;
    }
  }

  lemma MenuMapsSameRowOf(rows: seq<Row>, corr: seq<string>, k: string)
    requires |corr| == |rows|
    requires Get(FromPairs(OrigPairs(DfMenuOf(rows, corr))), k).Some?
    ensures exists i :: (0 <= i < |rows| && IsPdf(rows[i]) && rows[i].titulo.Str?
      && NormText(rows[i].titulo.s) == k
      && Get(FromPairs(OrigPairs(DfMenuOf(rows, corr))), k) == Some(rows[i].titulo.s)
      && Get(FromPairs(CatPairs(DfMenuOf(rows, corr))), k) == Some(corr[i]))
  {
    var df := DfMenuOf(rows, corr);
    var po, pc := OrigPairs(df), CatPairs(df);
    assert Firsts(po) == Firsts(pc);
    SameKeysSamePosition(po, pc, k);
    var j :| LastWith(po, k, j) && Get(FromPairs(po), k) == Some(po[j].1) && Get(FromPairs(pc), k) == Some(pc[j].1);
    assert df[j] in df;
    MenuPairsSound(rows, corr, df[j]);
    var i :| 0 <= i < |rows| && MenuPair(rows[i], corr[i], df[j]);
  }

  /** A key of the menu is exactly the normal form of some pdf row's
      title. */
  lemma MenuKeys(ds: Dataset, k: string)
    ensures Get(TituloNormToOrig(ds), k).Some? <==>
      exists i :: 0 <= i < |ds.rows| && IsPdf(ds.rows[i]) && ds.rows[i].titulo.Str? && NormText(ds.rows[i].titulo.s) == k
  {
    MenuKeysOf(ds.rows, Corr(ds), k);
  }

  /** For a key, the two dictionaries give the title and the derived
      category of one and the same pdf row, and that title normalises to
      the key. */
  lemma MenuMapsSameRow(ds: Dataset, k: string)
    requires Get(TituloNormToOrig(ds), k).Some?
    ensures exists i :: (0 <= i < |ds.rows| && IsPdf(ds.rows[i]) && ds.rows[i].titulo.Str?
      && NormText(ds.rows[i].titulo.s) == k
      && Get(TituloNormToOrig(ds), k) == Some(ds.rows[i].titulo.s)
      && Get(TituloNormToCat(ds), k) == Some(Corr(ds)[i]))
  {
    MenuMapsSameRowOf(ds.rows, Corr(ds), k);
  }

  // ---------------------------------------------------------------------
  // Listings
  // ---------------------------------------------------------------------

  /** Row `r` contributes the title `p` to a listing: a pdf row whose title,
      stripped, is `p`, and `p` is neither empty nor "nan" in any case. */
  predicate Listed(r: Row, p: string) {
    IsPdf(r) && r.titulo.Str? && Strip(r.titulo.s) == p && p != "" && Lower(p) != "nan"
  }

  /** Whether a row with derived category `c` passes the category filter
      (`None` means no filter). */
  predicate InCategory(c: string, cat: Option<string>) {
    cat.None? || c == cat.value
  }

    /** The title row `r` contributes to a listing, if any. */
  function ListedTitle(r: Row): (t: Option<string>)
    ensures forall p :: Listed(r, p) <==> t == Some(p)
  {
    if r.titulo.Str? && Listed(r, Strip(r.titulo.s)) then Some(Strip(r.titulo.s)) else None
  }

  /** The titles `title` gives to the rows that pass the filter, in row
      order, repetitions kept. */
  function CollectTitles(rows: seq<Row>, corr: seq<string>, cat: Option<string>, title: Row -> Option<string>): seq<string>
    requires |corr| == |rows|
  {
    if |rows| == 0 then []
    else
      var here := if title(rows[0]).Some? && InCategory(corr[0], cat) then [title(rows[0]).value] else [];
      here + CollectTitles(rows[1..], corr[1..], cat, title)
  }

  lemma {:induction false} CollectTitlesComplete(rows: seq<Row>, corr: seq<string>, cat: Option<string>, title: Row -> Option<string>, i: int, p: string)
    requires |corr| == |rows|
    requires 0 <= i < |rows| && title(rows[i]) == Some(p) && InCategory(corr[i], cat)
    ensures p in CollectTitles(rows, corr, cat, title)
    decreases |rows|
  {
    if i > 0 {
      CollectTitlesComplete(rows[1..], corr[1..], cat, title, i - 1, p);
      assert rows[1..][i - 1] == rows[i] && corr[1..][i - 1] == corr[i];
    }
  }

  lemma {:induction false} CollectTitlesSound(rows: seq<Row>, corr: seq<string>, cat: Option<string>, title: Row -> Option<string>, p: string)
    requires |corr| == |rows|
    requires p in CollectTitles(rows, corr, cat, title)
    ensures exists i :: 0 <= i < |rows| && title(rows[i]) == Some(p) && InCategory(corr[i], cat)
    decreases |rows|
  {
    var here := if title(rows[0]).Some? && InCategory(corr[0], cat) then [title(rows[0]).value] else [];
    if p !in here {
      CollectTitlesSound(rows[1..], corr[1..], cat, title, p);
      var i :| 0 <= i < |rows[1..]| && title(rows[1..][i]) == Some(p) && InCategory(corr[1..][i], cat);
      assert rows[i + 1] == rows[1..][i] && corr[i + 1] == corr[1..][i];
    }
  }

  /** `titulo.dropna().astype(str).str.strip()` over the rows that pass the
      filter, with empty and "nan" titles dropped. */
  function CleanTitles(rows: seq<Row>, corr: seq<string>, cat: Option<string>): seq<string>
    requires |corr| == |rows|
  {
    CollectTitles(rows, corr, cat, ListedTitle)
  }

  /** Every row that passes the filter contributes its title. */
  lemma CleanTitlesComplete(rows: seq<Row>, corr: seq<string>, cat: Option<string>, i: int, p: string)
    requires |corr| == |rows|
    requires 0 <= i < |rows| && Listed(rows[i], p) && InCategory(corr[i], cat)
    ensures p in CleanTitles(rows, corr, cat)
  {
    CollectTitlesComplete(rows, corr, cat, ListedTitle, i, p);
  }

  /** Every title comes from a row that passes the filter. */
  lemma CleanTitlesSound(rows: seq<Row>, corr: seq<string>, cat: Option<string>, p: string)
    requires |corr| == |rows|
    requires p in CleanTitles(rows, corr, cat)
    ensures exists i :: 0 <= i < |rows| && Listed(rows[i], p) && InCategory(corr[i], cat)
  {
    CollectTitlesSound(rows, corr, cat, ListedTitle, p);
    var i :| 0 <= i < |rows| && ListedTitle(rows[i]) == Some(p) && InCategory(corr[i], cat);
    assert Listed(rows[i], p);
  }

  /** The titles listed under filter `cat`, in increasing order without
      repetition: exactly those of the rows that pass the filter. */
  function ListingOf(rows: seq<Row>, corr: seq<string>, cat: Option<string>): (ps: seq<string>)
    requires |corr| == |rows|
    ensures StrictlySorted(ps)
    ensures forall p :: p in ps <==> exists i :: 0 <= i < |rows| && Listed(rows[i], p) && InCategory(corr[i], cat)
  {
    var ps := SortedSet(CleanTitles(rows, corr, cat));
    forall p ensures p in ps <==> exists i :: 0 <= i < |rows| && Listed(rows[i], p) && InCategory(corr[i], cat) {
      if p in ps {
        CleanTitlesSound(rows, corr, cat, p);
      }
      if exists i :: 0 <= i < |rows| && Listed(rows[i], p) && InCategory(corr[i], cat) {
        var i :| 0 <= i < |rows| && Listed(rows[i], p) && InCategory(corr[i], cat);
        CleanTitlesComplete(rows, corr, cat, i, p);
      }
    }
    ps
  }

  /** `listar_pratos_da_categoria(cat)`: strictly increasing, so free of
      duplicates, and holding exactly the listed titles of the rows whose
      `categoria_corr` is `cat`. */
  function ListarPratosDaCategoria(ds: Dataset, cat: string): (ps: seq<string>)
    ensures StrictlySorted(ps)
    ensures forall p :: p in ps <==> exists i :: 0 <= i < |ds.rows| && Listed(ds.rows[i], p) && Corr(ds)[i] == cat
  {
    ListingOf(ds.rows, Corr(ds), Some(cat))
  }

  /** `listar_todos_pratos()`: strictly increasing and holding exactly the
      listed titles of all pdf rows. */
  function ListarTodosPratos(ds: Dataset): (ps: seq<string>)
    ensures StrictlySorted(ps)
    ensures forall p :: p in ps <==> exists i :: 0 <= i < |ds.rows| && Listed(ds.rows[i], p)
  {
    ListingOf(ds.rows, Corr(ds), None)
  }

  /** Every filtered listing is part of the unfiltered one, and every
      title of the unfiltered listing appears in the listing filtered by
      the category of a row that contributes it. */
  lemma ListingsCoverOf(rows: seq<Row>, corr: seq<string>, p: string)
    requires |corr| == |rows|
    ensures forall c :: p in ListingOf(rows, corr, Some(c)) ==> p in ListingOf(rows, corr, None)
    ensures p in ListingOf(rows, corr, None) ==> exists i :: 0 <= i < |rows| && p in ListingOf(rows, corr, Some(corr[i]))
  {
    if p in ListingOf(rows, corr, None) {
      var i :| 0 <= i < |rows| && Listed(rows[i], p) && InCategory(corr[i], None);
      assert InCategory(corr[i], Some(corr[i]));
    }
  }

  /** Every category listing is part of the full listing, and every title
      of the full listing appears in the listing of a row's category. */
  lemma CategoryListingsCover(ds: Dataset, p: string)
    ensures forall c :: p in ListarPratosDaCategoria(ds, c) ==> p in ListarTodosPratos(ds)
    ensures p in ListarTodosPratos(ds) ==> exists i :: 0 <= i < |ds.rows| && p in ListarPratosDaCategoria(ds, Corr(ds)[i])
  {
    ListingsCoverOf(ds.rows, Corr(ds), p);
  }
}
