/**
  The intent detectors of the chatbot: fixed trigger phrases searched in the
  lower-cased (or normalised) question, the category named in a question,
  and `meta_answer` for date, time and "last question" requests.
 */
module Intents {
  import opened Wrappers
  import opened Text
  import opened Category
  import opened Resolver

  // ---------------------------------------------------------------------
  // Category named in a question
  // ---------------------------------------------------------------------

  /** `extrair_categoria_da_pergunta`: the category of the first stem found
      in the lower-cased question (accents are kept, unlike in
      `normalizar_categoria`). */
  function ExtrairCategoriaDaPergunta(pergunta: string): (r: Option<string>)
    ensures r.Some? ==> r.value in CategoriasOficiais
  {
    var p := Lower(pergunta);
    if Contains(p, "tradicion") then Some("Tradicional")
    else if Contains(p, "especial") then Some("Especialidade")
    else if Contains(p, "salad") then Some("Salada")
    else if Contains(p, "sobremes") then Some("Sobremesa")
    else None
  }

  /** First match wins, in the order of the stem table: the question names
      the official category whose stem is the first of the table to occur in
      its lower-cased text, and none when no stem occurs. */
  lemma ExtrairCategoriaDaPerguntaFirstMatch(pergunta: string)
    ensures ExtrairCategoriaDaPergunta(pergunta) ==
      match FirstStemFrom(Lower(pergunta), 0)
      case Some(i) => Some(CategoriasOficiais[i])
      case None => None
  {
    var p := Lower(pergunta);
    assert Stems[0] == "tradicion" && Stems[1] == "especial" && Stems[2] == "salad" && Stems[3] == "sobremes";
    if !Contains(p, "tradicion") {
      assert FirstStemFrom(p, 0) == FirstStemFrom(p, 1);
      if !Contains(p, "especial") {
        assert FirstStemFrom(p, 1) == FirstStemFrom(p, 2);
        if !Contains(p, "salad") {
          assert FirstStemFrom(p, 2) == FirstStemFrom(p, 3);
        }
      }
    }
  }

  // ---------------------------------------------------------------------
  // Trigger phrases
  // ---------------------------------------------------------------------

  const ListarItensGatilhos: seq<string> := [
    "liste", "listar", "quais pratos", "quais itens",
    "itens da categoria", "pratos da categoria", "menu da categoria"]

  const CategoriaDePratoGatilhos: seq<string> := [
    "qual a categoria", "qual \U{E9} a categoria", "qual categoria",
    "em qual categoria", "categoria do prato", "categoria da receita",
    "esse prato \U{E9} de qual categoria", "essa receita \U{E9} de qual categoria"]

  const DeCategoriasGatilhos: seq<string> := [
    "quantas categorias", "liste as categorias", "listar categorias",
    "quais sao as categorias", "quais s\U{E3}o as categorias",
    "categorias do cardapio", "categorias do card\U{E1}pio", "todas as categorias"]

  const TodosItensGatilhos: seq<string> := [
    "itens do cardapio", "itens do card\U{E1}pio",
    "quais os itens do cardapio", "quais os itens do card\U{E1}pio",
    "listar cardapio", "listar card\U{E1}pio",
    "me mostre o cardapio", "me mostre o card\U{E1}pio",
    "cardapio completo", "card\U{E1}pio completo",
    "todas as opcoes", "todas as op\U{E7}\U{F5}es",
    "todas as comidas", "todas as receitas",
    "menu completo", "menu inteiro"]

  /** The triggers of `TodosItensGatilhos` that are plain ASCII. */
  const TodosItensGatilhosAscii: seq<string> := [
    "itens do cardapio", "quais os itens do cardapio", "listar cardapio",
    "me mostre o cardapio", "cardapio completo", "todas as opcoes",
    "todas as comidas", "todas as receitas", "menu completo", "menu inteiro"]

  const FollowupGatilhos: seq<string> := [
    "ingredientes", "modo de preparo", "como prepara", "preparo",
    "pre\U{E7}o", "preco", "quanto custa",
    "tempo de preparo", "quanto tempo",
    "tem lactose", "tem gl\U{FA}ten", "tem gluten", "restri\U{E7}\U{F5}es", "restricoes"]

  // ---------------------------------------------------------------------
  // Intent predicates
  // ---------------------------------------------------------------------

  /** `eh_pergunta_listar_itens_categoria`: a listing phrase and a
      category, which is then an official one. */
  function ListarItensCategoria(pergunta: string): (r: bool)
    ensures r ==> (ExtrairCategoriaDaPergunta(pergunta).Some?
      && ExtrairCategoriaDaPergunta(pergunta).value in CategoriasOficiais)
    ensures r ==> AnyIn(Lower(pergunta), ListarItensGatilhos)
  {
    AnyIn(Lower(pergunta), ListarItensGatilhos) && ExtrairCategoriaDaPergunta(pergunta).Some?
  }

  /** `eh_pergunta_categoria_de_prato`. Every trigger names "categoria",
      so the separate test for that word never changes the answer. */
  function CategoriaDePrato(pergunta: string): (r: bool)
    ensures r <==> AnyIn(Lower(pergunta), CategoriaDePratoGatilhos)
  {
    var p := Lower(pergunta);
    TriggerNamesCategoria(p);
    Contains(p, "categoria") && AnyIn(p, CategoriaDePratoGatilhos)
  }

  /** A text holding a dish-category trigger holds "categoria". */
  lemma TriggerNamesCategoria(p: string)
    ensures AnyIn(p, CategoriaDePratoGatilhos) ==> Contains(p, "categoria")
  {
    if AnyIn(p, CategoriaDePratoGatilhos) {
      var i :| 0 <= i < |CategoriaDePratoGatilhos| && Contains(p, CategoriaDePratoGatilhos[i]);
      TriggersNameCategoria(i);
      ContainsTrans(p, CategoriaDePratoGatilhos[i], "categoria");
    }
  }

  /** Each dish-category trigger contains the word "categoria". */
  lemma TriggersNameCategoria(i: int)
    requires 0 <= i < |CategoriaDePratoGatilhos|
    ensures Contains(CategoriaDePratoGatilhos[i], "categoria")
  {
    if i < 4 {
      QuestionTriggersNameCategoria(i);
    } else {
      PhraseTriggersNameCategoria(i);
    }
  }

  lemma QuestionTriggersNameCategoria(i: int)
    requires 0 <= i < 4
    ensures Contains(CategoriaDePratoGatilhos[i], "categoria")
  {
    var pre := if i == 0 then "qual a " else if i == 1 then "qual \U{E9} a " else if i == 2 then "qual " else "em qual ";
    NamesCategoria(pre, "", CategoriaDePratoGatilhos[i]);
  }

  lemma PhraseTriggersNameCategoria(i: int)
    requires 4 <= i < 8
    ensures Contains(CategoriaDePratoGatilhos[i], "categoria")
  {
    var pre := if i == 6 then "esse prato \U{E9} de qual " else if i == 7 then "essa receita \U{E9} de qual " else "";
    var post := if i == 4 then " do prato" else if i == 5 then " da receita" else "";
    NamesCategoria(pre, post, CategoriaDePratoGatilhos[i]);
  }

  lemma NamesCategoria(pre: string, post: string, g: string)
    requires g == pre + "categoria" + post
    ensures Contains(g, "categoria")
  {
    ContainsMiddle(pre, "categoria", post);
  }

  /** `eh_pergunta_de_categorias`: a request for the category list, never
      when the question asks for the category of a dish. */
  function DeCategorias(pergunta: string): (r: bool)
    ensures r ==> !CategoriaDePrato(pergunta)
    ensures r ==> AnyIn(Strip(Lower(pergunta)), DeCategoriasGatilhos)
  {
    var p := Strip(Lower(pergunta));
    if CategoriaDePrato(pergunta) then false
    else AnyIn(p, DeCategoriasGatilhos)
  }

  /** `eh_pergunta_listar_todos_itens_cardapio`: searched in the normal
      form. The accented triggers can never fire there, because the
      normalised question has no accents: the detector behaves exactly as
      with its ASCII triggers. */
  function ListarTodosItens(pergunta: string): (r: bool)
    ensures r <==> AnyIn(NormText(pergunta), TodosItensGatilhosAscii)
  {
    var t := NormText(pergunta);
    AccentedTodosTriggers(t);
    forall k | k in TodosItensGatilhos && Contains(t, k) ensures k in TodosItensGatilhosAscii {
    }
    AnyIn(t, TodosItensGatilhos)
  }

  /** `eh_followup_sem_prato`: a follow-up phrase, and no menu key occurs
      in the normalised question or shares two of its words. */
  function FollowupSemPrato(keys: seq<string>, pergunta: string): (r: bool)
    ensures r ==> AnyIn(Lower(pergunta), FollowupGatilhos)
    ensures r ==> forall k :: k in keys ==>
      (!Hit(NormText(pergunta), k) && Overlap(WordSet(NormText(pergunta)), k) < 2)
  {
    AnyIn(Lower(pergunta), FollowupGatilhos) && EncontrarPrato(keys, pergunta).None?
  }

  /** A canonical text never contains a phrase with a character outside
      `[a-z0-9 ]`. */
  lemma CanonicalLacks(t: string, g: string, j: nat)
    requires Canonical(t)
    requires j < |g| && !IsAlnum(g[j]) && g[j] != ' '
    ensures !Contains(t, g)
  {
    ContainsNeedsChar(t, g, j);
  }

  lemma AccentedTodosTriggers(t: string)
    requires Canonical(t)
    ensures !Contains(t, "itens do card\U{E1}pio")
    ensures !Contains(t, "quais os itens do card\U{E1}pio")
    ensures !Contains(t, "listar card\U{E1}pio")
    ensures !Contains(t, "me mostre o card\U{E1}pio")
    ensures !Contains(t, "card\U{E1}pio completo")
    ensures !Contains(t, "todas as op\U{E7}\U{F5}es")
  {
    CanonicalLacks(t, "itens do card\U{E1}pio", 13);
    CanonicalLacks(t, "quais os itens do card\U{E1}pio", 22);
    CanonicalLacks(t, "listar card\U{E1}pio", 11);
    CanonicalLacks(t, "me mostre o card\U{E1}pio", 16);
    CanonicalLacks(t, "card\U{E1}pio completo", 4);
    CanonicalLacks(t, "todas as op\U{E7}\U{F5}es", 11);
  }

  // ---------------------------------------------------------------------
  // meta_answer
  // ---------------------------------------------------------------------

  /** The wall-clock reading `datetime.now()` supplies. */
  datatype Clock = Clock(day: nat, month: nat, year: nat, hour: nat, minute: nat)

  predicate ValidClock(c: Clock) {
    1 <= c.day <= 31 && 1 <= c.month <= 12 && 1 <= c.year <= 9999 && c.hour < 24 && c.minute < 60
  }

  /** A two-digit, zero-padded decimal field. */
  function Pad2(n: nat): (r: string)
    requires n < 100
    ensures |r| == 2 && '0' <= r[0] <= '9' && '0' <= r[1] <= '9'
    ensures (r[0] as int - '0' as int) * 10 + (r[1] as int - '0' as int) == n
  {
    [(48 + n / 10) as char, (48 + n % 10) as char]
  }

  /** `strftime('%d/%m/%Y')`. */
  function FormatDate(c: Clock): (r: string)
    requires ValidClock(c)
    ensures |r| >= 7 && r[2] == '/' && r[5] == '/'
    ensures forall i :: 0 <= i < |r| && i != 2 && i != 5 ==> '0' <= r[i] <= '9'
  {
    Pad2(c.day) + "/" + Pad2(c.month) + "/" + NatToString(c.year)
  }

  /** `strftime('%H:%M')`. */
  function FormatTime(c: Clock): (r: string)
    requires ValidClock(c)
    ensures |r| == 5 && r[2] == ':'
    ensures forall i :: 0 <= i < 5 && i != 2 ==> '0' <= r[i] <= '9'
  {
    Pad2(c.hour) + ":" + Pad2(c.minute)
  }

  const MetaSemPerguntaAnterior: string := "Ainda n\U{E3}o tenho uma " + "pergunta anterior registrada."

  /** The answer to a last-question request that found a question. */
  function LastQuestionText(q: string): string {
    "Sua \U{FA}ltima pergunta foi: " + q
  }

  /** `meta_answer(query, state)` with `last` the stored
      `last_user_question` and `clock` the current time: date, then time,
      then last-question requests, searched in the lower-cased, stripped
      query. */
  function MetaAnswer(query: string, last: Option<string>, clock: Clock): (r: Option<string>)
    requires ValidClock(clock)
    ensures var q := Strip(Lower(query));
      r.None? <==> (!Contains(q, "que dia \U{E9} hoje") && !Contains(q, "data de hoje")
        && !Contains(q, "que horas s\U{E3}o") && !Contains(q, "que horas sao")
        && !Contains(q, "ultima pergunta") && !Contains(q, "\U{FA}ltima pergunta"))
    ensures r.Some? ==> |r.value| > 0
  {
    var q := Strip(Lower(query));
    if Contains(q, "que dia \U{E9} hoje") || Contains(q, "data de hoje") then
      Some("Hoje \U{E9} " + FormatDate(clock) + ".")
    else if Contains(q, "que horas s\U{E3}o") || Contains(q, "que horas sao") then
      Some("Agora s\U{E3}o " + FormatTime(clock) + ".")
    else if Contains(q, "ultima pergunta") || Contains(q, "\U{FA}ltima pergunta") then
      if last.Some? && last.value != "" then Some(LastQuestionText(last.value))
      else Some(MetaSemPerguntaAnterior)
    else None
  }

  /** Whether `MetaAnswer` takes the last-question branch. */
  predicate AsksLastQuestion(query: string) {
    var q := Strip(Lower(query));
    !(Contains(q, "que dia \U{E9} hoje") || Contains(q, "data de hoje"))
    && !(Contains(q, "que horas s\U{E3}o") || Contains(q, "que horas sao"))
    && (Contains(q, "ultima pergunta") || Contains(q, "\U{FA}ltima pergunta"))
  }

  /** A last-question request is answered from the remembered question
      alone: with it when there is a non-empty one, and with the fixed
      "no previous question" reply otherwise. */
  lemma MetaAnswerLast(query: string, last: Option<string>, clock: Clock)
    requires ValidClock(clock)
    requires AsksLastQuestion(query)
    ensures MetaAnswer(query, last, clock) ==
      Some(if last.Some? && last.value != "" then LastQuestionText(last.value) else MetaSemPerguntaAnterior)
  {
  }

  /** A question that asks for the last question is not empty. */
  lemma AsksLastQuestionNotEmpty(query: string)
    requires AsksLastQuestion(query)
    ensures query != ""
  {
  }

  /** The remembered question matters only to a last-question request:
      for any other query the meta answer is the same whatever was
      remembered. */
  lemma MetaAnswerIgnoresLast(query: string, a: Option<string>, b: Option<string>, clock: Clock)
    requires ValidClock(clock)
    requires !AsksLastQuestion(query)
    ensures MetaAnswer(query, a, clock) == MetaAnswer(query, b, clock)
  {
  }
}
