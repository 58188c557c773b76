/**
  Category handling: `normalizar_categoria` (a raw label mapped to one of the
  four official categories by stem, first match wins), `extrair_categoria_do_chunk`
  (the value after a `CATEGORIA:` marker in a chunk's text) and the derived
  `categoria_corr` of each row.
 */
module Category {
  import opened Wrappers
  import opened Text
  import opened Data

  /** `CATEGORIAS_OFICIAIS`, in their fixed order. */
  const CategoriasOficiais: seq<string> := ["Tradicional", "Especialidade", "Salada", "Sobremesa"]

  /** The stem that selects each official category, tried in this order. */
  const Stems: seq<string> := ["tradicion", "especial", "salad", "sobremes"]

  /** `normalizar_categoria`: a non-string label gives ""; otherwise the
      category of the first stem found in the normalised label, or "". */
  function NormalizarCategoria(raw: Cell): (r: string)
    ensures r == "" || r in CategoriasOficiais
    ensures raw.Missing? ==> r == ""
  {
    match raw
    case Missing => ""
    case Str(s) =>
      var t := NormText(s);
      if Contains(t, "tradicion") then "Tradicional"
      else if Contains(t, "especial") then "Especialidade"
      else if Contains(t, "salad") then "Salada"
      else if Contains(t, "sobremes") then "Sobremesa"
      else ""
  }

  /** The index of the first stem of the table occurring in `t`, scanning
      from position `i`: the table-driven reading of the if-chain above. */
  function FirstStemFrom(t: string, i: nat): (o: Option<nat>)
    requires i <= |Stems|
    ensures o.Some? ==> i <= o.value < |Stems| && Contains(t, Stems[o.value])
    ensures o.Some? ==> forall j :: i <= j < o.value ==> !Contains(t, Stems[j])
    ensures o.None? ==> forall j :: i <= j < |Stems| ==> !Contains(t, Stems[j])
    decreases |Stems| - i
  {
    if i == |Stems| then None
    else if Contains(t, Stems[i]) then Some(i)
    else FirstStemFrom(t, i + 1)
  }

  /** First match wins: the label gets the official category whose stem is
      the first of the table to occur in its normal form, and "" when none
      occurs. */
  lemma NormalizarCategoriaFirstMatch(s: string)
    ensures NormalizarCategoria(Str(s)) ==
      match FirstStemFrom(NormText(s), 0)
      case Some(i) => CategoriasOficiais[i]
      case None => ""
  {
    var t := NormText(s);
    assert Stems[0] == "tradicion" && Stems[1] == "especial" && Stems[2] == "salad" && Stems[3] == "sobremes";
    if !Contains(t, "tradicion") {
      assert FirstStemFrom(t, 0) == FirstStemFrom(t, 1);
      if !Contains(t, "especial") {
        assert FirstStemFrom(t, 1) == FirstStemFrom(t, 2);
        if !Contains(t, "salad") {
          assert FirstStemFrom(t, 2) == FirstStemFrom(t, 3);
        }
      }
    }
  }

  /** When `Fold(s)` is already canonical, it is the normal form of `s`. */
  lemma FoldIsNormal(s: string)
    requires Canonical(Fold(s))
    ensures NormText(s) == Fold(s)
  {
    var f := Fold(s);
    forall i | 0 <= i < |s| ensures !IsMark(s[i]) && !IsMark(f[i]) {
      assert IsAlnum(f[i]) || f[i] == ' ';
      FoldedNotMark(s[i]);
    }
    FoldFixed(f);
    NormTextOfFold(s, f);
    CanonicalFixed(f);
  }

  /** A character that folds to a letter, a digit or a space is not a
      combining mark, since folding leaves marks alone. */
  lemma FoldedNotMark(c: char)
    requires IsAlnum(FoldChar(c)) || FoldChar(c) == ' '
    ensures !IsMark(c) && !IsMark(FoldChar(c))
  {
  }

  /** The normal form of an official category is its lower-case spelling. */
  lemma NormOfOfficial(c: string, low: string)
    requires Fold(c) == low
    requires forall i :: 0 <= i < |low| ==> 'a' <= low[i] <= 'z'
    ensures NormText(c) == low
  {
    FoldIsNormal(c);
  }

  lemma TradicionalFold(c: string)
    requires c == "Tradicional"
    ensures Fold(c) == "tradicional"
  {
  }

  lemma TradicionalStems(t: string)
    requires t == "tradicional"
    ensures Contains(t, "tradicion")
  {
    assert t[..9] == "tradicion";
  }

  lemma TradicionalCategory(c: string)
    requires NormText(c) == "tradicional"
    ensures NormalizarCategoria(Str(c)) == "Tradicional"
  {
    TradicionalStems(NormText(c));
  }

  lemma TradicionalIsFixed(c: string)
    requires c == "Tradicional"
    ensures NormalizarCategoria(Str(c)) == c
  {
    TradicionalFold(c);
    NormOfOfficial(c, "tradicional");
    TradicionalCategory(c);
  }

  lemma EspecialidadeFold(c: string)
    requires c == "Especialidade"
    ensures Fold(c) == "especialidade"
  {
  }

  lemma EspecialidadeStems(t: string)
    requires t == "especialidade"
    ensures !Contains(t, "tradicion") && Contains(t, "especial")
  {
    ContainsNeedsChar(t, "tradicion", 0);
    assert t[..8] == "especial";
  }

  lemma EspecialidadeCategory(c: string)
    requires NormText(c) == "especialidade"
    ensures NormalizarCategoria(Str(c)) == "Especialidade"
  {
    EspecialidadeStems(NormText(c));
  }

  lemma EspecialidadeIsFixed(c: string)
    requires c == "Especialidade"
    ensures NormalizarCategoria(Str(c)) == c
  {
    EspecialidadeFold(c);
    NormOfOfficial(c, "especialidade");
    EspecialidadeCategory(c);
  }

  lemma SaladaFold(c: string)
    requires c == "Salada"
    ensures Fold(c) == "salada"
  {
  }

  lemma SaladaStems(t: string)
    requires t == "salada"
    ensures !Contains(t, "tradicion") && !Contains(t, "especial") && Contains(t, "salad")
  {
    ContainsNeedsChar(t, "tradicion", 0);
    ContainsNeedsChar(t, "especial", 0);
    assert t[..5] == "salad";
  }

  lemma SaladaCategory(c: string)
    requires NormText(c) == "salada"
    ensures NormalizarCategoria(Str(c)) == "Salada"
  {
    SaladaStems(NormText(c));
  }

  lemma SaladaIsFixed(c: string)
    requires c == "Salada"
    ensures NormalizarCategoria(Str(c)) == c
  {
    SaladaFold(c);
    NormOfOfficial(c, "salada");
    SaladaCategory(c);
  }

  lemma SobremesaFold(c: string)
    requires c == "Sobremesa"
    ensures Fold(c) == "sobremesa"
  {
  }

  lemma SobremesaStems(t: string)
    requires t == "sobremesa"
    ensures !Contains(t, "tradicion") && !Contains(t, "especial") && !Contains(t, "salad") && Contains(t, "sobremes")
  {
    assert |t| == 9 && t[0] == 's' && t[1] == 'o' && t[2] == 'b' && t[3] == 'r' && t[4] == 'e'
      && t[5] == 'm' && t[6] == 'e' && t[7] == 's' && t[8] == 'a';
    ContainsNeedsChar(t, "tradicion", 0);
    ContainsNeedsChar(t, "especial", 2);
    ContainsNeedsChar(t, "salad", 2);
    assert t[..8] == "sobremes";
  }

  lemma SobremesaCategory(c: string)
    requires NormText(c) == "sobremesa"
    ensures NormalizarCategoria(Str(c)) == "Sobremesa"
  {
    SobremesaStems(NormText(c));
  }

  lemma SobremesaIsFixed(c: string)
    requires c == "Sobremesa"
    ensures NormalizarCategoria(Str(c)) == c
  {
    SobremesaFold(c);
    NormOfOfficial(c, "sobremesa");
    SobremesaCategory(c);
  }

  /** Each official category normalises to itself. */
  lemma OfficialIsFixed(c: string)
    requires c in CategoriasOficiais
    ensures NormalizarCategoria(Str(c)) == c
  {
    if c == "Tradicional" {
      TradicionalIsFixed(c);
    } else if c == "Especialidade" {
      EspecialidadeIsFixed(c);
    } else if c == "Salada" {
      SaladaIsFixed(c);
    } else {
      SobremesaIsFixed(c);
    }
  }

  /** Normalising twice changes nothing, so re-normalising an existing
      `categoria_corr` column leaves already-normalised values alone. */
  lemma NormalizarCategoriaIdempotent(raw: Cell)
    ensures NormalizarCategoria(Str(NormalizarCategoria(raw))) == NormalizarCategoria(raw)
  {
    var c := NormalizarCategoria(raw);
    if c != "" {
      OfficialIsFixed(c);
    }
  }

  // ---------------------------------------------------------------------
  // The `CATEGORIA:` marker: re.search(r'(?i)\bCATEGORIA\b\s*[:\n]\s*([^\n\r]+)', t)
  // ---------------------------------------------------------------------

  /** The word `categoria`, in any ASCII case, at `i`, with a word boundary
      on both sides. */
  predicate MarkerAt(t: string, i: nat) {
    && i + 9 <= |t|
    && (forall k :: 0 <= k < 9 ==> LowerChar(t[i + k]) == "categoria"[k])
    && (i == 0 || !IsWordChar(t[i - 1]))
    && (i + 9 == |t| || !IsWordChar(t[i + 9]))
  }

  /** End of the whitespace run starting at `p` (greedy `\s*`). */
  function SkipSpaces(t: string, p: nat): (e: nat)
    requires p <= |t|
    ensures p <= e <= |t|
    ensures forall k :: p <= k < e ==> IsSpace(t[k])
    ensures e < |t| ==> !IsSpace(t[e])
    decreases |t| - p
  {
    if p < |t| && IsSpace(t[p]) then SkipSpaces(t, p + 1) else p
  }

  /** End of the line starting at `l` (greedy `[^\n\r]+`). */
  function LineEnd(t: string, l: nat): (m: nat)
    requires l <= |t|
    ensures l <= m <= |t|
    ensures forall k :: l <= k < m ==> !IsLineBreak(t[k])
    ensures m < |t| ==> IsLineBreak(t[m])
    decreases |t| - l
  {
    if l < |t| && !IsLineBreak(t[l]) then LineEnd(t, l + 1) else l
  }

  /** The rightmost position in `[lo, hi)` that is not a line break: the
      order in which backtracking offers starts to `[^\n\r]+`. */
  function LastNonBreak(t: string, lo: nat, hi: nat): (o: Option<nat>)
    requires lo <= hi <= |t|
    ensures o.Some? ==> lo <= o.value < hi && !IsLineBreak(t[o.value])
    ensures o.Some? ==> forall k :: o.value < k < hi ==> IsLineBreak(t[k])
    ensures o.None? ==> forall k :: lo <= k < hi ==> IsLineBreak(t[k])
    decreases hi - lo
  {
    if hi == lo then None
    else if !IsLineBreak(t[hi - 1]) then Some(hi - 1)
    else LastNonBreak(t, lo, hi - 1)
  }

  /** `\s*([^\n\r]+)` from `p`: the captured group, if any. */
  function GroupFrom(t: string, p: nat): (g: Option<string>)
    requires p <= |t|
    ensures g.Some? ==> |g.value| > 0 && forall k :: 0 <= k < |g.value| ==> !IsLineBreak(g.value[k])
  {
    var e := SkipSpaces(t, p);
    match LastNonBreak(t, p, if e < |t| then e + 1 else |t|)
    case None => None
    case Some(l) =>
      var m := LineEnd(t, l);
      assert forall k :: 0 <= k < m - l ==> t[l..m][k] == t[l + k];
      Some(t[l..m])
  }

  /** `[:\n]\s*([^\n\r]+)` with the separator tried at `hi - 1`, then further
      left, down to `j` (the backtracking of the preceding `\s*`). */
  function SeparatorFrom(t: string, j: nat, hi: nat): (g: Option<string>)
    requires j <= hi <= |t|
    ensures g.Some? ==> |g.value| > 0 && forall k :: 0 <= k < |g.value| ==> !IsLineBreak(g.value[k])
    decreases hi - j
  {
    if hi == j then None
    else if (t[hi - 1] == ':' || t[hi - 1] == '\n') && GroupFrom(t, hi).Some? then GroupFrom(t, hi)
    else SeparatorFrom(t, j, hi - 1)
  }

  /** The whole pattern anchored at `i`: the captured group, if it matches. */
  function MatchAt(t: string, i: nat): (g: Option<string>)
    ensures g.Some? ==> MarkerAt(t, i)
    ensures g.Some? ==> |g.value| > 0 && forall k :: 0 <= k < |g.value| ==> !IsLineBreak(g.value[k])
  {
    if MarkerAt(t, i) then
      var e := SkipSpaces(t, i + 9);
      SeparatorFrom(t, i + 9, if e < |t| then e + 1 else |t|)
    else None
  }

  /** The first result of `m` at a position from `i` up to `n`: the scan
      `re.search` makes, for any matcher. */
  function FirstMatch(m: nat -> Option<string>, i: nat, n: nat): (g: Option<string>)
    ensures g.Some? ==> exists p :: i <= p < n && m(p) == g
    decreases n - i
  {
    if i >= n then None
    else match m(i)
      case Some(g) => Some(g)
      case None => FirstMatch(m, i + 1, n)
  }

  /** The scan passes over positions where `m` finds nothing. */
  lemma {:induction false} FirstMatchSkips(m: nat -> Option<string>, i: nat, q: nat, n: nat)
    requires i <= q <= n
    requires forall p :: i <= p < q ==> m(p).None?
    ensures FirstMatch(m, i, n) == FirstMatch(m, q, n)
    decreases q - i
  {
    if i < q {
      FirstMatchSkips(m, i + 1, q, n);
    }
  }

  /** `re.search`: the leftmost match at or after `i`. */
  function SearchFrom(t: string, i: nat): (g: Option<string>)
    ensures g.Some? ==> exists p :: i <= p && MarkerAt(t, p)
    ensures g.Some? ==> |g.value| > 0 && forall k :: 0 <= k < |g.value| ==> !IsLineBreak(g.value[k])
  {
    var g := FirstMatch((p: nat) => MatchAt(t, p), i, |t|);
    if g.Some? then
      var p :| i <= p < |t| && MatchAt(t, p) == g;
      g
    else g
  }

  /** `extrair_categoria_do_chunk`: the stripped value after the first
      `CATEGORIA:` marker, or "" when the text is missing or has none. A
      non-empty result comes from a marker in the text, lies on one line
      and has no surrounding whitespace. */
  function ExtrairCategoriaDoChunk(texto: Cell): (r: string)
    ensures texto.Missing? ==> r == ""
    ensures r != "" ==> exists p :: MarkerAt(texto.s, p)
    ensures forall k :: 0 <= k < |r| ==> !IsLineBreak(r[k])
    ensures |r| > 0 ==> !IsSpace(r[0]) && !IsSpace(r[|r| - 1])
  {
    match texto
    case Missing => ""
    case Str(t) =>
      match SearchFrom(t, 0)
      case None => ""
      case Some(g) =>
        StripOnOneLine(g);
        Strip(g)
  }

  /** Stripping a one-line text leaves it on one line. */
  lemma StripOnOneLine(g: string)
    requires forall k :: 0 <= k < |g| ==> !IsLineBreak(g[k])
    ensures forall k :: 0 <= k < |Strip(g)| ==> !IsLineBreak(Strip(g)[k])
  {
    var i := StripOffset(g);
    assert forall k :: 0 <= k < |Strip(g)| ==> Strip(g)[k] == g[i + k];
  }

  /** A marker written as `CATEGORIA: v` at `q`, with a word boundary
      before it and `v` running to the end of its line, matches there and
      captures `v`. */
  lemma MatchAtMarkerLine(t: string, q: nat, v: string)
    requires q + 11 + |v| <= |t| && t[q..q + 11] == "CATEGORIA: "
    requires q == 0 || !IsWordChar(t[q - 1])
    requires t[q + 11..q + 11 + |v|] == v
    requires |v| > 0 && !IsSpace(v[0])
    requires forall k :: 0 <= k < |v| ==> !IsLineBreak(v[k])
    requires q + 11 + |v| == |t| || IsLineBreak(t[q + 11 + |v|])
    ensures MatchAt(t, q) == Some(v)
  {
    assert t[q..q + 9] == t[q..q + 11][..9] == "CATEGORIA";
    assert Lower("CATEGORIA") == "categoria";
    assert t[q + 9] == ':' && t[q + 10] == ' ';
    assert MarkerAt(t, q);
    assert SkipSpaces(t, q + 9) == q + 9;
    GroupAfterColon(t, q, v);
    assert SeparatorFrom(t, q + 9, q + 10) == Some(v);
  }

  /** After `CATEGORIA: `, the group is the rest of the line. */
  lemma GroupAfterColon(t: string, q: nat, v: string)
    requires q + 11 + |v| <= |t| && t[q + 10] == ' '
    requires t[q + 11..q + 11 + |v|] == v
    requires |v| > 0 && !IsSpace(v[0])
    requires forall k :: 0 <= k < |v| ==> !IsLineBreak(v[k])
    requires q + 11 + |v| == |t| || IsLineBreak(t[q + 11 + |v|])
    ensures GroupFrom(t, q + 10) == Some(v)
  {
    var m := q + 11 + |v|;
    assert t[q + 11] == v[0];
    assert SkipSpaces(t, q + 11) == q + 11;
    assert SkipSpaces(t, q + 10) == q + 11;
    assert LastNonBreak(t, q + 10, q + 12) == Some(q + 11);
    assert forall k :: q + 11 <= k < m ==> t[k] == v[k - q - 11];
    LineEndAt(t, q + 11, m);
  }

  /** A line running from `l` to `m` ends at `m`. */
  lemma {:induction false} LineEndAt(t: string, l: nat, m: nat)
    requires l <= m <= |t|
    requires forall k :: l <= k < m ==> !IsLineBreak(t[k])
    requires m == |t| || IsLineBreak(t[m])
    ensures LineEnd(t, l) == m
    decreases m - l
  {
    if l < m {
      LineEndAt(t, l + 1, m);
    }
  }

  lemma SearchHere(t: string, q: nat)
    requires q < |t| && MatchAt(t, q).Some?
    ensures SearchFrom(t, q) == MatchAt(t, q)
  {
    var m := (p: nat) => MatchAt(t, p);
    assert m(q) == MatchAt(t, q);
    assert FirstMatch(m, q, |t|) == m(q);
  }

  /** The search passes over positions without a marker. */
  lemma SearchSkips(t: string, i: nat, q: nat)
    requires i <= q <= |t|
    requires forall p :: i <= p < q ==> !MarkerAt(t, p)
    ensures SearchFrom(t, i) == SearchFrom(t, q)
  {
    var m := (p: nat) => MatchAt(t, p);
    forall p | i <= p < q ensures m(p).None? {
      assert !MarkerAt(t, p);
    }
    FirstMatchSkips(m, i, q, |t|);
  }

  /** One character off the word rules out a marker. */
  lemma NotMarkerAt(t: string, p: nat, k: nat)
    requires p + 9 <= |t| && k < 9 && LowerChar(t[p + k]) != "categoria"[k]
    ensures !MarkerAt(t, p)
  {
  }

  /** No marker starts inside a prefix that never spells `categoria`, nor
      on the line break that ends it. */
  lemma NoMarkerBefore(t: string, pre: string)
    requires |pre| < |t| && t[..|pre|] == pre && t[|pre|] == '\n'
    requires !Contains(Lower(pre), "categoria")
    ensures forall p :: 0 <= p <= |pre| ==> !MarkerAt(t, p)
  {
    ContainsIff(Lower(pre), "categoria");
    forall p | 0 <= p <= |pre| && p + 9 <= |t| ensures !MarkerAt(t, p) {
      if p + 9 <= |pre| {
        var w := Lower(pre)[p..p + 9];
        assert !OccursAt(Lower(pre), "categoria", p);
        assert w != "categoria" && |w| == 9;
        var k :| 0 <= k < 9 && w[k] != "categoria"[k];
        assert w[k] == Lower(pre)[p + k] == LowerChar(pre[p + k]);
        assert t[p + k] == pre[p + k];
        NotMarkerAt(t, p, k);
      } else {
        var k := |pre| - p;
        assert t[p + k] == '\n';
        NotMarkerAt(t, p, k);
      }
    }
  }

  /** The category written on its own line after text that never spells
      `categoria` is what the chunk yields, stripped. */
  lemma ExtractFromChunk(pre: string, v: string, post: string)
    requires !Contains(Lower(pre), "categoria")
    requires |v| > 0 && !IsSpace(v[0])
    requires forall k :: 0 <= k < |v| ==> !IsLineBreak(v[k])
    ensures ExtrairCategoriaDoChunk(Str(pre + "\nCATEGORIA: " + v + "\n" + post)) == Strip(v)
  {
    var t := pre + "\nCATEGORIA: " + v + "\n" + post;
    var q := |pre| + 1;
    assert t[..|pre|] == pre && t[|pre|] == '\n';
    assert t[q..q + 11] == "CATEGORIA: ";
    assert t[q + 11..q + 11 + |v|] == v;
    assert t[q + 11 + |v|] == '\n';
    NoMarkerBefore(t, pre);
    MatchAtMarkerLine(t, q, v);
    SearchSkips(t, 0, q);
    SearchHere(t, q);
  }

  /** A chunk that is exactly `CATEGORIA: v` yields `v` stripped. */
  lemma ExtractFromMarkerLine(v: string)
    requires |v| > 0 && !IsSpace(v[0])
    requires forall k :: 0 <= k < |v| ==> !IsLineBreak(v[k])
    ensures ExtrairCategoriaDoChunk(Str("CATEGORIA: " + v)) == Strip(v)
  {
    var t := "CATEGORIA: " + v;
    assert t[0..11] == "CATEGORIA: " && t[11..11 + |v|] == v;
    MatchAtMarkerLine(t, 0, v);
  }

  // ---------------------------------------------------------------------
  // categoria_corr
  // ---------------------------------------------------------------------

  /** The `categoria_corr` of a row: with a precomputed column, that column
      re-normalised; otherwise the normalised chunk marker when non-empty,
      else the normalised declared category. */
  function CategoriaCorr(ds: Dataset, r: Row): (c: string)
    ensures c == "" || c in CategoriasOficiais
  {
    if ds.hasCorrColumn then NormalizarCategoria(r.corrColumn)
    else
      var fromChunk := NormalizarCategoria(Str(ExtrairCategoriaDoChunk(r.chunks)));
      if fromChunk != "" then fromChunk else NormalizarCategoria(r.categoria)
  }

  /** A category stated on a marker line of the chunk overrides the
      declared one, and the declared one is used only when the chunk states
      none; whichever wins, the stored value is already in normal form. */
  lemma CategoriaCorrPrecedence(ds: Dataset, r: Row, pre: string, v: string, post: string)
    requires !ds.hasCorrColumn
    requires !Contains(Lower(pre), "categoria")
    requires |v| > 0 && !IsSpace(v[0])
    requires forall k :: 0 <= k < |v| ==> !IsLineBreak(v[k])
    ensures r.chunks == Str(pre + "\nCATEGORIA: " + v + "\n" + post) && NormalizarCategoria(Str(Strip(v))) != "" ==>
      CategoriaCorr(ds, r) == NormalizarCategoria(Str(Strip(v)))
    ensures r.chunks == Str(pre + "\nCATEGORIA: " + v + "\n" + post) && NormalizarCategoria(Str(Strip(v))) == "" ==>
      CategoriaCorr(ds, r) == NormalizarCategoria(r.categoria)
    ensures r.chunks.Missing? ==> CategoriaCorr(ds, r) == NormalizarCategoria(r.categoria)
    ensures NormalizarCategoria(Str(CategoriaCorr(ds, r))) == CategoriaCorr(ds, r)
  {
    ExtractFromChunk(pre, v, post);
    var c := CategoriaCorr(ds, r);
    if c != "" {
      OfficialIsFixed(c);
    }
  }
}
