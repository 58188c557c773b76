/**
  `answer_question`: one turn of the chatbot. The question is recorded in
  the conversation state, meta requests (date, time, last question) are
  answered first, the dish the question is about is resolved (or taken
  from the state, rewriting a follow-up question to name it), and the
  question is then routed, in order, to the category listing, the
  category of a dish, the list of categories, the full menu, or the
  generative answer over retrieved evidence.

  The clock, the semantic search, the language model and the image lookup
  are parameters (`Env`).
 */
module Orchestrator {
  import opened Wrappers
  import opened Text
  import opened Data
  import opened Category
  import opened Menu
  import opened Resolver
  import opened Intents
  import opened Retrieval
  import opened Context

  // ---------------------------------------------------------------------
  // State, response and environment
  // ---------------------------------------------------------------------

  /** The conversation memory: `last_user_question` and `current_dish`
      (`None` when the key is absent). */
  datatype State = State(lastUserQuestion: Option<string>, currentDish: Option<string>)

  /** The dictionary `answer_question` returns. */
  datatype Response = Response(
    text: string,
    sources: seq<string>,
    dishTitle: Option<string>,
    dishImage: Option<string>,
    showImage: bool,
    state: State)

  /** What a turn consults beyond the dataset: the clock, the semantic
      search, the chat model (system prompt and user prompt to reply),
      `get_image_path_for_dish`, and the `top_k` and `min_score`
      arguments. */
  datatype Env = Env(
    clock: Clock,
    search: Search,
    generate: (string, string) -> string,
    image: string -> Option<string>,
    topK: nat,
    minScore: real)

  /** The default `top_k` and `min_score` of `answer_question`. */
  const DefaultTopK: nat := 10
  const DefaultMinScore: real := 0.28

  // ---------------------------------------------------------------------
  // Fixed texts
  // ---------------------------------------------------------------------

  const MetaSource: string := "sistema (data/hora/contexto)"
  const CsvName: string := "rag_dataset_chunks.csv"

  function ListSource(cat: string): string {
    CsvName + " (lista de pratos: " + cat + ")"
  }

  function NoDishesText(cat: string): string {
    "N\U{E3}o encontrei pratos para a categoria **" + cat + "** na base atual."
  }

  function DishesText(cat: string, pratos: seq<string>): string {
    "Pratos da categoria **" + cat + "**:\n- " + Join(pratos, "\n- ")
    + "\n\nTotal: " + NatToString(|pratos|) + " pratos."
  }

  function DishCategoryText(prato: string, cat: string): string {
    "O prato **" + prato + "** fica na categoria **" + cat + "**."
  }

  function DishCategorySource(prato: string): string {
    CsvName + " (categoria do prato: " + prato + ")"
  }

  const UnknownDishText: string :=
    "N\U{E3}o consegui identificar o nome do prato. Digite o nome exato (como no card\U{E1}pio)."
  const UnknownDishSource: string := CsvName + " (categoria do prato)"

  const CategoriesText: string :=
    "As categorias no card\U{E1}pio s\U{E3}o:\n- " + Join(CategoriasOficiais, "\n- ")
    + "\n\nTotal: " + NatToString(|CategoriasOficiais|) + " categorias."
  const CategoriesSource: string := CsvName + " (categorias oficiais)"

  const NoItemsText: string := "N\U{E3}o encontrei itens do card\U{E1}pio na base atual."
  const ItemsSource: string := CsvName + " (t\U{ED}tulos do card\U{E1}pio)"

  function ItemsText(pratos: seq<string>): string {
    "Itens do card\U{E1}pio:\n- " + Join(pratos, "\n- ") + "\n\nTotal: " + NatToString(|pratos|) + " itens."
  }

  const NoInfoText: string :=
    "N\U{E3}o encontrei informa\U{E7}\U{F5}es suficientes na base para responder a essa pergunta."

  const SystemPrompt: string :=
    "Voc\U{EA} \U{E9} um assistente virtual de um restaurante. "
    + "Responda de forma clara, educada e objetiva. "
    + "Use apenas as informa\U{E7}\U{F5}es do CONTEXTO fornecido. "
    + "Se a resposta n\U{E3}o estiver na base, diga isso explicitamente. "
    + "Ao final, liste as fontes utilizadas."

  function UserPrompt(query: string, context: string): string {
    "PERGUNTA:\n" + query + "\n\nCONTEXTO:\n" + context
  }

  function FollowupQuery(prato: string, query: string): (q: string)
    ensures |q| > |query|
  {
    "Sobre o prato " + prato + ": " + query
  }

  // ---------------------------------------------------------------------
  // Dish resolution
  // ---------------------------------------------------------------------

  /** The dish a turn is about. `query` is the question as routed (after
      the follow-up rewrite), `prato` is `prato_atual`, `mentioned` is
      `dish_mentioned`, and `state` the memory after the resolution. */
  datatype Turn = Turn(query: string, prato: Option<string>, mentioned: bool, state: State)

  /** The menu keys the resolver searches. */
  function MenuKeysOf(ds: Dataset): seq<string> {
    Keys(TituloNormToOrig(ds))
  }

  /** A menu title, or no dish. */
  ghost predicate MenuDish(ds: Dataset, d: Option<string>) {
    d.None? || exists k :: Get(TituloNormToOrig(ds), k) == d
  }

  /** Resolve the dish of `query` against the menu, falling back to the
      remembered dish and rewriting a dish-less follow-up to name it. */
  function Resolve(ds: Dataset, query: string, st: State): (t: Turn)
    ensures t.state == st.(currentDish := t.prato)
    ensures t.mentioned ==> t.prato.Some? && MenuDish(ds, t.prato)
    ensures !t.mentioned ==> t.prato == st.currentDish
    ensures t.query != query <==> !t.mentioned && Truthy(st.currentDish) && FollowupSemPrato(MenuKeysOf(ds), query)
    ensures t.query != query ==> t.query == FollowupQuery(st.currentDish.value, query)
  {
    var orig := TituloNormToOrig(ds);
    var tnorm := EncontrarPrato(Keys(orig), query);
    if tnorm.Some? && tnorm.value != "" && Get(orig, tnorm.value).Some? then
      var prato := Get(orig, tnorm.value);
      Turn(query, prato, true, st.(currentDish := prato))
    else
      var prato := st.currentDish;
      var q := if Truthy(prato) && FollowupSemPrato(Keys(orig), query) then FollowupQuery(prato.value, query) else query;
      Turn(q, prato, false, st)
  }

  /** The membership test `tnorm in TITULO_NORM_TO_ORIG` never fails: a
      dish is mentioned exactly when the resolver finds one, and the
      mentioned dish is the menu title of the resolved key. */
  lemma ResolveMentioned(ds: Dataset, query: string, st: State)
    ensures var t := Resolve(ds, query, st);
      var tnorm := EncontrarPrato(MenuKeysOf(ds), query);
      (t.mentioned <==> tnorm.Some?) && (t.mentioned ==> t.prato == Get(TituloNormToOrig(ds), tnorm.value))
  {
    var orig := TituloNormToOrig(ds);
    EncontrarPratoSpec(Keys(orig), query);
  }

  // ---------------------------------------------------------------------
  // The routed branches
  // ---------------------------------------------------------------------

  /** 1) the dishes of the category named in the question: the reply
      names every dish listed under that category, and says there are none
      exactly when no row of that `categoria_corr` has a listed title. */
  function ListCategoryReply(ds: Dataset, q: string, st: State): (r: Response)
    requires ListarItensCategoria(q)
    ensures var cat := ExtrairCategoriaDaPergunta(q).value;
      && r.sources == [ListSource(cat)]
      && (forall p :: p in ListarPratosDaCategoria(ds, cat) ==> Contains(r.text, p))
      && (r.text == NoDishesText(cat) <==>
            forall i :: 0 <= i < |ds.rows| && Corr(ds)[i] == cat ==> ListedTitle(ds.rows[i]).None?)
    ensures r.dishTitle.None? && r.dishImage.None? && !r.showImage && r.state == st
  {
    var cat := ExtrairCategoriaDaPergunta(q).value;
    var pratos := ListarPratosDaCategoria(ds, cat);
    EmptyListing(ds, cat);
    DishesTextLists(cat, pratos);
    if |pratos| == 0 then Response(NoDishesText(cat), [ListSource(cat)], None, None, false, st)
    else Response(DishesText(cat, pratos), [ListSource(cat)], None, None, false, st)
  }

  /** A category listing is empty exactly when no row of that category
      contributes a title. */
  lemma EmptyListing(ds: Dataset, cat: string)
    ensures |ListarPratosDaCategoria(ds, cat)| == 0 <==>
      forall i :: 0 <= i < |ds.rows| && Corr(ds)[i] == cat ==> ListedTitle(ds.rows[i]).None?
  {
    var ps := ListarPratosDaCategoria(ds, cat);
    forall i | 0 <= i < |ds.rows| && Corr(ds)[i] == cat && ListedTitle(ds.rows[i]).Some?
      ensures ListedTitle(ds.rows[i]).value in ps
    {
      assert Listed(ds.rows[i], ListedTitle(ds.rows[i]).value);
    }
    if |ps| > 0 {
      assert ps[0] in ps;
      var i :| 0 <= i < |ds.rows| && Listed(ds.rows[i], ps[0]) && Corr(ds)[i] == cat;
      assert ListedTitle(ds.rows[i]) == Some(ps[0]);
    }
  }

  /** The listing text names every dish it lists and never reads as the
      "no dishes" reply. */
  lemma DishesTextLists(cat: string, ps: seq<string>)
    ensures forall p :: p in ps ==> Contains(DishesText(cat, ps), p)
    ensures DishesText(cat, ps) != NoDishesText(cat)
  {
    var a := "Pratos da categoria **" + cat + "**:\n- ";
    var j := Join(ps, "\n- ");
    var c := "\n\nTotal: " + NatToString(|ps|) + " pratos.";
    assert DishesText(cat, ps) == a + j + c;
    ContainsMiddle(a, j, c);
    forall p | p in ps ensures Contains(DishesText(cat, ps), p) {
      var i :| 0 <= i < |ps| && ps[i] == p;
      JoinContains(ps, "\n- ", i);
      ContainsTrans(DishesText(cat, ps), j, p);
    }
    assert DishesText(cat, ps)[0] == 'P' && NoDishesText(cat)[0] == 'N';
  }

  /** 2) the category of the dish named in the (routed) question. */
  function DishCategoryReply(ds: Dataset, t: Turn, dishImage: Option<string>, image: string -> Option<string>): (r: Response)
    ensures r.state.lastUserQuestion == t.state.lastUserQuestion
    ensures !r.showImage ==>
      && r.text == UnknownDishText && r.sources == [UnknownDishSource]
      && r.dishTitle == t.prato && r.dishImage == dishImage && r.state == t.state
    ensures r.showImage ==>
      && r.dishTitle.Some? && r.state == t.state.(currentDish := r.dishTitle)
      && r.dishImage == image(r.dishTitle.value)
      && r.sources == [DishCategorySource(r.dishTitle.value)]
      && exists k :: (Get(TituloNormToOrig(ds), k) == r.dishTitle && Get(TituloNormToCat(ds), k).Some?
           && r.text == DishCategoryText(r.dishTitle.value, Get(TituloNormToCat(ds), k).value))
    ensures var key := EncontrarPrato(MenuKeysOf(ds), t.query);
      && (r.showImage <==> key.Some?)
      && (r.showImage ==> r.dishTitle == Get(TituloNormToOrig(ds), key.value))
  {
    var orig := TituloNormToOrig(ds);
    var t2 := EncontrarPrato(Keys(orig), t.query);
    MenuMapsSameKeys(ds);
    if t2.Some? && t2.value != "" && Get(TituloNormToCat(ds), t2.value).Some? then
      var prato := Get(orig, t2.value).value;
      var cat := Get(TituloNormToCat(ds), t2.value).value;
      Response(DishCategoryText(prato, cat), [DishCategorySource(prato)], Some(prato), image(prato), true,
        t.state.(currentDish := Some(prato)))
    else
      Response(UnknownDishText, [UnknownDishSource], t.prato, dishImage, false, t.state)
  }

  /** A dish-category answer names a menu title together with the derived
      category (`categoria_corr`) of a pdf row carrying exactly that
      title, an official category or empty. */
  lemma DishCategoryReplyNamesRowCategory(ds: Dataset, t: Turn, dishImage: Option<string>, image: string -> Option<string>)
    ensures var r := DishCategoryReply(ds, t, dishImage, image);
      r.showImage ==>
        exists i :: (0 <= i < |ds.rows| && IsPdf(ds.rows[i]) && ds.rows[i].titulo == Str(r.dishTitle.value)
          && r.text == DishCategoryText(r.dishTitle.value, Corr(ds)[i])
          && (Corr(ds)[i] in CategoriasOficiais || Corr(ds)[i] == ""))
  {
    var r := DishCategoryReply(ds, t, dishImage, image);
    if r.showImage {
      var k :| (Get(TituloNormToOrig(ds), k) == r.dishTitle && Get(TituloNormToCat(ds), k).Some?
        && r.text == DishCategoryText(r.dishTitle.value, Get(TituloNormToCat(ds), k).value));
      MenuMapsSameRow(ds, k);
      var i :| (0 <= i < |ds.rows| && IsPdf(ds.rows[i]) && ds.rows[i].titulo.Str?
        && NormText(ds.rows[i].titulo.s) == k
        && Get(TituloNormToOrig(ds), k) == Some(ds.rows[i].titulo.s)
        && Get(TituloNormToCat(ds), k) == Some(Corr(ds)[i]));
    }
  }

  /** The source cited for one evidence hit. */
  function SourceOf(h: Hit): string {
    h.row.documentId + " (chunk " + h.row.chunkId + ")"
  }

  /** No document id holds "(", so an id ends where its source's
      " (chunk " begins. */
  ghost predicate PlainIds(hs: seq<Hit>) {
    forall k :: 0 <= k < |hs| ==> '(' !in hs[k].row.documentId
  }

  /** Hits of different documents with plain ids cite different sources. */
  lemma SourcesDiffer(h1: Hit, h2: Hit)
    requires '(' !in h1.row.documentId && '(' !in h2.row.documentId
    requires h1.row.documentId != h2.row.documentId
    ensures SourceOf(h1) != SourceOf(h2)
  {
    var d1, d2 := h1.row.documentId, h2.row.documentId;
    if |d1| == |d2| {
      var j :| 0 <= j < |d1| && d1[j] != d2[j];
      assert SourceOf(h1)[j] == d1[j] && SourceOf(h2)[j] == d2[j];
    } else if |d1| < |d2| {
      ShorterIdDiffers(h1, h2);
    } else {
      ShorterIdDiffers(h2, h1);
    }
  }

  lemma ShorterIdDiffers(h1: Hit, h2: Hit)
    requires '(' !in h2.row.documentId
    requires |h1.row.documentId| < |h2.row.documentId|
    ensures SourceOf(h1) != SourceOf(h2)
  {
    var d1, d2 := h1.row.documentId, h2.row.documentId;
    var n := |d1| + 1;
    assert SourceOf(h1)[n] == '(';
    if n < |d2| {
      assert SourceOf(h2)[n] == d2[n];
      assert d2[n] in d2;
    } else {
      assert SourceOf(h2)[n] == ' ';
    }
  }

  /** The `sources` of the generative answer: one per evidence hit, and
      pairwise different when the hits come from different documents with
      plain ids. */
  function SourcesOf(hs: seq<Hit>): (ss: seq<string>)
    ensures |ss| == |hs|
    ensures DistinctDocs(hs) && PlainIds(hs) ==> forall i, j :: 0 <= i < j < |ss| ==> ss[i] != ss[j]
  {
    SourcesDistinct(hs);
    seq(|hs|, k requires 0 <= k < |hs| => SourceOf(hs[k]))
  }

  lemma SourcesDistinct(hs: seq<Hit>)
    ensures DistinctDocs(hs) && PlainIds(hs) ==>
      forall i, j :: 0 <= i < j < |hs| ==> SourceOf(hs[i]) != SourceOf(hs[j])
  {
    if DistinctDocs(hs) && PlainIds(hs) {
      forall i, j | 0 <= i < j < |hs| ensures SourceOf(hs[i]) != SourceOf(hs[j]) {
        SourcesDiffer(hs[i], hs[j]);
      }
    }
  }

  /** 4) the generative answer over retrieved evidence: at most five
      sources, one per evidence hit in order, pairwise different when the
      document ids are plain; the model's reply over the formatted
      evidence, or the "no information" text when there is none. */
  function RagReply(ds: Dataset, t: Turn, dishImage: Option<string>, env: Env): (r: Response)
    ensures r.dishTitle == t.prato && r.dishImage == dishImage && r.showImage == t.mentioned && r.state == t.state
    ensures var hits := Evidence(ds, t.prato, t.query, env.search, env.topK, env.minScore);
      && |r.sources| == |hits| <= EvidenceLimit
      && (forall k :: 0 <= k < |hits| ==> r.sources[k] == SourceOf(hits[k]))
      && (PlainIds(hits) ==> forall i, j :: 0 <= i < j < |r.sources| ==> r.sources[i] != r.sources[j])
      && (|hits| == 0 ==> r.text == NoInfoText)
      && (|hits| > 0 ==> r.text == env.generate(SystemPrompt, UserPrompt(t.query, FormatContext(hits, MaxChars))))
  {
    var hits := Evidence(ds, t.prato, t.query, env.search, env.topK, env.minScore);
    if |hits| == 0 then Response(NoInfoText, [], t.prato, dishImage, t.mentioned, t.state)
    else
      var context := FormatContext(hits, MaxChars);
      Response(env.generate(SystemPrompt, UserPrompt(t.query, context)), SourcesOf(hits),
        t.prato, dishImage, t.mentioned, t.state)
  }

  /** Route a resolved turn: the intents are tried in order and the first
      that holds answers. */
  function Route(ds: Dataset, t: Turn, env: Env): (r: Response)
    ensures r.state.lastUserQuestion == t.state.lastUserQuestion
    ensures MenuDish(ds, t.state.currentDish) ==> MenuDish(ds, r.state.currentDish)
    ensures r.state.currentDish != t.state.currentDish ==> CategoriaDePrato(t.query) && r.showImage
  {
    var dishImage := if Truthy(t.prato) then env.image(t.prato.value) else None;
    if ListarItensCategoria(t.query) then ListCategoryReply(ds, t.query, t.state)
    else if CategoriaDePrato(t.query) then
      DishCategoryReply(ds, t, dishImage, env.image)
    else if DeCategorias(t.query) then
      Response(CategoriesText, [CategoriesSource], None, None, false, t.state)
    else if ListarTodosItens(t.query) then
      var pratos := ListarTodosPratos(ds);
      if |pratos| == 0 then Response(NoItemsText, [ItemsSource], None, None, false, t.state)
      else Response(ItemsText(pratos), [ItemsSource], None, None, false, t.state)
    else RagReply(ds, t, dishImage, env)
  }

  // ---------------------------------------------------------------------
  // answer_question
  // ---------------------------------------------------------------------

  /** A turn whose meta answer reads `remembered` as the last question. */
  function AnswerWith(ds: Dataset, query: string, state: State, env: Env, remembered: Option<string>): (r: Response)
    requires ValidClock(env.clock)
    ensures r.state.lastUserQuestion == Some(query)
    ensures MenuDish(ds, state.currentDish) ==> MenuDish(ds, r.state.currentDish)
    ensures MetaAnswer(query, remembered, env.clock).Some? ==>
      && r.text == MetaAnswer(query, remembered, env.clock).value
      && r.sources == [MetaSource] && r.dishTitle.None? && !r.showImage
      && r.state.currentDish == state.currentDish
  {
    var st := state.(lastUserQuestion := Some(query));
    match MetaAnswer(query, remembered, env.clock)
    case Some(m) => Response(m, [MetaSource], None, None, false, st)
    case None => Route(ds, Resolve(ds, query, st), env)
  }

  /** `answer_question(query, state)` as written: the question is stored
      as `last_user_question` before `meta_answer` reads it. */
  function AnswerQuestion(ds: Dataset, query: string, state: State, env: Env): (r: Response)
    requires ValidClock(env.clock)
    ensures r.state.lastUserQuestion == Some(query)
    ensures MenuDish(ds, state.currentDish) ==> MenuDish(ds, r.state.currentDish)
  {
    AnswerWith(ds, query, state, env, Some(query))
  }

  /** `answer_question` with the meta answer reading the question
      remembered from the previous turn. */
  function AnswerQuestionIntended(ds: Dataset, query: string, state: State, env: Env): (r: Response)
    requires ValidClock(env.clock)
    ensures r.state.lastUserQuestion == Some(query)
    ensures MenuDish(ds, state.currentDish) ==> MenuDish(ds, r.state.currentDish)
  {
    AnswerWith(ds, query, state, env, state.lastUserQuestion)
  }

  // ---------------------------------------------------------------------
  // Properties of a turn
  // ---------------------------------------------------------------------

  /** Routing order: the first intent that holds of the routed question
      answers, and each branch is recognisable by its sources. */
  lemma RouteOrder(ds: Dataset, t: Turn, env: Env)
    ensures var r := Route(ds, t, env);
      && (ListarItensCategoria(t.query) ==>
            r.sources == [ListSource(ExtrairCategoriaDaPergunta(t.query).value)] && r.dishTitle.None?)
      && (!ListarItensCategoria(t.query) && CategoriaDePrato(t.query) ==>
            r.sources == [UnknownDishSource] || (r.dishTitle.Some? && r.sources == [DishCategorySource(r.dishTitle.value)]))
  {
  }

  /** Routing order, continued: the category list, then the full menu,
      and the generative answer when no intent holds. */
  lemma RouteOrderRest(ds: Dataset, t: Turn, env: Env)
    requires !ListarItensCategoria(t.query) && !CategoriaDePrato(t.query)
    ensures var r := Route(ds, t, env);
      && (DeCategorias(t.query) ==> r.text == CategoriesText && r.sources == [CategoriesSource])
      && (!DeCategorias(t.query) && ListarTodosItens(t.query) ==> r.sources == [ItemsSource] && r.dishTitle.None?)
      && (!DeCategorias(t.query) && !ListarTodosItens(t.query) ==>
            var hits := Evidence(ds, t.prato, t.query, env.search, env.topK, env.minScore);
            && r.dishTitle == t.prato && r.showImage == t.mentioned
            && |r.sources| == |hits|
            && forall k :: 0 <= k < |hits| ==> r.sources[k] == SourceOf(hits[k]))
  {
  }

  /** A meta answer, when there is one, is the whole reply. */
  lemma MetaReply(ds: Dataset, query: string, state: State, env: Env, remembered: Option<string>)
    requires ValidClock(env.clock)
    requires MetaAnswer(query, remembered, env.clock).Some?
    ensures AnswerWith(ds, query, state, env, remembered) ==
      Response(MetaAnswer(query, remembered, env.clock).value, [MetaSource], None, None, false, State(Some(query), state.currentDish))
  {
  }

  /** Meta requests come first: they carry the system source, no dish and
      no image, and leave the remembered dish alone. */
  lemma MetaFirst(ds: Dataset, query: string, state: State, env: Env)
    requires ValidClock(env.clock)
    requires MetaAnswer(query, Some(query), env.clock).Some?
    ensures var r := AnswerQuestion(ds, query, state, env);
      && r.text == MetaAnswer(query, Some(query), env.clock).value
      && r.sources == [MetaSource] && r.dishTitle.None? && r.dishImage.None? && !r.showImage
      && r.state == State(Some(query), state.currentDish)
  {
    MetaReply(ds, query, state, env, Some(query));
  }

  /** The remembered dish changes only when the question names a dish of
      the menu, or when a dish-category question is answered. */
  lemma DishMemory(ds: Dataset, query: string, state: State, env: Env)
    requires ValidClock(env.clock)
    ensures var r := AnswerQuestion(ds, query, state, env);
      var t := Resolve(ds, query, state.(lastUserQuestion := Some(query)));
      r.state.currentDish != state.currentDish ==>
        MetaAnswer(query, Some(query), env.clock).None? && (t.mentioned || (CategoriaDePrato(t.query) && r.showImage))
  {
    var st := state.(lastUserQuestion := Some(query));
    if MetaAnswer(query, Some(query), env.clock).Some? {
      MetaReply(ds, query, state, env, Some(query));
    }
  }

  /** A dish-less follow-up about the remembered dish is rewritten to name
      it, and the rewritten question is the one routed, searched and put
      to the language model. */
  lemma FollowupRewritten(ds: Dataset, query: string, state: State, env: Env)
    requires ValidClock(env.clock)
    requires MetaAnswer(query, Some(query), env.clock).None?
    requires Truthy(state.currentDish) && FollowupSemPrato(MenuKeysOf(ds), query)
    ensures var t := Resolve(ds, query, state.(lastUserQuestion := Some(query)));
      && !t.mentioned && t.prato == state.currentDish
      && t.query == FollowupQuery(state.currentDish.value, query)
      && AnswerQuestion(ds, query, state, env) == Route(ds, t, env)
  {
    var st := state.(lastUserQuestion := Some(query));
    ResolveMentioned(ds, query, st);
  }

  /** Different questions give different last-question answers, none of
      them the "no previous question" reply. */
  lemma LastQuestionTextInjective(p: string, q: string)
    ensures LastQuestionText(p) == LastQuestionText(q) ==> p == q
    ensures LastQuestionText(p) != MetaSemPerguntaAnterior
  {
    var pre := "Sua \U{FA}ltima pergunta foi: ";
    assert LastQuestionText(p)[|pre|..] == p;
    assert LastQuestionText(q)[|pre|..] == q;
    assert MetaSemPerguntaAnterior[0] == 'A';
    assert LastQuestionText(p)[0] == 'S';
  }

  /** When a last-question request reaches `meta_answer`, the question
      just recorded is the one reported: the answer repeats the current
      question, never an earlier one, and the "no previous question" reply
      cannot occur. */
  lemma LastQuestionEchoesCurrent(ds: Dataset, query: string, state: State, env: Env)
    requires ValidClock(env.clock)
    requires AsksLastQuestion(query)
    ensures AnswerQuestion(ds, query, state, env).text == LastQuestionText(query)
    ensures AnswerQuestion(ds, query, state, env).text != MetaSemPerguntaAnterior
    ensures forall p :: state.lastUserQuestion == Some(p) && p != query ==>
      AnswerQuestion(ds, query, state, env).text != LastQuestionText(p)
  {
    AsksLastQuestionNotEmpty(query);
    MetaAnswerLast(query, Some(query), env.clock);
    MetaReply(ds, query, state, env, Some(query));
    forall p | state.lastUserQuestion == Some(p) && p != query
      ensures LastQuestionText(query) != LastQuestionText(p)
    {
      LastQuestionTextInjective(p, query);
    }
    LastQuestionTextInjective(query, query);
  }

  /** The corrected turn reports the question remembered from the previous
      turn, or says there is none. */
  lemma LastQuestionIntended(ds: Dataset, query: string, state: State, env: Env)
    requires ValidClock(env.clock)
    requires AsksLastQuestion(query)
    ensures var r := AnswerQuestionIntended(ds, query, state, env);
      && r.text == (if Truthy(state.lastUserQuestion) then LastQuestionText(state.lastUserQuestion.value)
                    else MetaSemPerguntaAnterior)
      && r.sources == [MetaSource]
      && r.state == State(Some(query), state.currentDish)
  {
    MetaAnswerLast(query, state.lastUserQuestion, env.clock);
    MetaReply(ds, query, state, env, state.lastUserQuestion);
  }

  /** The two versions differ only on last-question requests. */
  lemma AnswerVersionsAgree(ds: Dataset, query: string, state: State, env: Env)
    requires ValidClock(env.clock)
    requires !AsksLastQuestion(query)
    ensures AnswerQuestion(ds, query, state, env) == AnswerQuestionIntended(ds, query, state, env)
  {
    MetaAnswerIgnoresLast(query, Some(query), state.lastUserQuestion, env.clock);
  }
}
