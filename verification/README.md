# Restaurant RAG chatbot: the decision logic, modelled in Dafny

This project models the pure decision logic of `rag_pipeline.py`, the core of
a retrieval-augmented chatbot for a restaurant menu. The model covers:

- **Text normalisation.** `_norm_text` and `slugify_title`.
- **Categories.** `normalizar_categoria`, the `CATEGORIA:` marker that
  `extrair_categoria_do_chunk` reads from a chunk, and the derived
  `categoria_corr` column.
- **The two menu dictionaries.** `_build_menu_maps` builds a map from
  normalised title to original title and one from normalised title to
  category.
- **Dish resolution.** `encontrar_prato_na_pergunta` tries the longest title
  contained in the question first, then the best word overlap.
- **Intents.** The intent detectors and `meta_answer`.
- **Menu listings.** The per-category and full menu listings.
- **Evidence selection.** Title lookup, semantic fallback, threshold,
  narrowing to the current dish, one hit per document, and at most five
  hits.
- **Context building.** `format_context` packs the evidence blocks into a
  character budget.
- **The turn.** `answer_question`: conversation state, follow-up rewriting
  and routing.

Python strings are `seq<char>`. A missing CSV value (`NaN`) is the explicit
cell `Missing`. A Python `dict` is an insertion-ordered association list: a
key keeps the position of its first insertion and takes the value of its
last. `sorted(..., key=len, reverse=True)` is a stable insertion sort.

The following are parameters of a turn (`Orchestrator.Env`):
- the wall clock;
- the FAISS semantic search;
- the chat model;
- the image-file lookup;
- `top_k` and `min_score`.

Modules, one per file:

| file | module | models |
|---|---|---|
| wrappers.dfy | Wrappers | `Option`, the stand-in for `None` |
| text.dfy | Text | character classes, `lower`, accent stripping, `_norm_text`, `strip`, `split`, `join`, `slugify_title` |
| order.dfy | StrOrder | Python string order, `sorted(set(...))` |
| data.dfy | Data | cells, rows, the dataset, scored hits |
| category.dfy | Category | `normalizar_categoria`, `extrair_categoria_do_chunk`, `categoria_corr` |
| menu.dfy | Menu | dictionaries, `_build_menu_maps`, the listing functions |
| resolver.dfy | Resolver | `encontrar_prato_na_pergunta` |
| intents.dfy | Intents | intent predicates, `extrair_categoria_da_pergunta`, `meta_answer` |
| retrieval.dfy | Retrieval | `retrieve_by_dish_title`, threshold, narrowing, deduplication, evidence |
| context.dfy | Context | `format_context` |
| orchestrator.dfy | Orchestrator | `answer_question` |

## Model

| member | source | states |
|---|---|---|
| Text.Lower | rag_pipeline.py:67 | no ASCII or Latin-1 upper-case letter is left: each becomes its lower-case partner in place, and every other character is kept |
| Text.LowerIdempotent | rag_pipeline.py:67 | lower-casing twice is the same as lower-casing once |
| Text.DropMarks | rag_pipeline.py:61-63 | every standalone combining mark (U+0300 to U+036F) is removed, and a text without such marks is unchanged |
| Text.Fold | rag_pipeline.py:61-67 | after accent stripping and lower-casing, no upper-case letter and no accented letter of the table is left, and every other character stays in place |
| Text.FoldIgnoresCase | rag_pipeline.py:61-67 | lower-casing first does not change the fold |
| Text.SubOtherRuns | rag_pipeline.py:68 | after replacing runs of characters outside `[a-z0-9\s]`, none are left |
| Text.CollapseSpaceRuns | rag_pipeline.py:69 | after collapsing whitespace runs, only `[a-z0-9]` and single spaces are left |
| Text.StripLeft | rag_pipeline.py:69 | `lstrip` returns a suffix, everything it dropped is whitespace, and what is left does not start with whitespace |
| Text.Strip | rag_pipeline.py:69 | `strip` never lengthens a text, and what is left neither starts nor ends with whitespace |
| Text.StripOffset | rag_pipeline.py:69 | the stripped text is a slice of the input, and only whitespace lies before and after it |
| Text.StripRight | rag_pipeline.py:69 | `rstrip` returns a prefix, everything it dropped is whitespace, and what is left does not end with whitespace |
| Text.NormText | rag_pipeline.py:65-70 | the result of `_norm_text` is canonical: only `[a-z0-9]` and single spaces, with no space at either end |
| Text.CanonicalFixed | rag_pipeline.py:65-70 | a canonical text is its own normal form |
| Text.NormTextIdempotent | rag_pipeline.py:65-70 | normalising twice gives the same result as normalising once |
| Text.NormTextIgnoresCase | rag_pipeline.py:65-70 | lower-casing a text first does not change its normal form |
| Text.NormTextIgnoresAccent | rag_pipeline.py:61-70 | replacing any one character by its unaccented form does not change the normal form |
| Text.ContainsIff | rag_pipeline.py:228 | the `in` test on strings holds exactly when the needle occurs at some position |
| Text.ContainsNeedsChar | rag_pipeline.py:228 | a needle containing a character the text lacks never occurs in it |
| Text.Words | rag_pipeline.py:232-235 | every element of `split()` is a non-empty run of non-whitespace characters |
| Text.WordsJoin | rag_pipeline.py:232-235 | a normalised text is its words joined by single spaces, so `split()` covers every character of it, in order |
| Text.JoinWords | rag_pipeline.py:232-235 | splitting words joined by single spaces gives back exactly those words, in order, so each word is a maximal run |
| Text.Join | rag_pipeline.py:177 | the length of `sep.join(xs)` is the total length of the parts plus one separator between each pair |
| Text.SlugifyTitle | rag_pipeline.py:183-184 | a slug holds only `[a-z0-9]` and `_` |
| Text.SlugRoundTrip | rag_pipeline.py:183-184 | turning underscores back into spaces recovers the normal form, and two titles have the same slug exactly when they have the same normal form |
| StrOrder.LessTotal | rag_pipeline.py:258 | Python string order is total |
| StrOrder.LessTransitive | rag_pipeline.py:258 | Python string order is transitive |
| StrOrder.SortedSet | rag_pipeline.py:258 | `sorted(set(xs))` is strictly increasing and holds exactly the elements of `xs` |
| StrOrder.StrictlySortedUnique | rag_pipeline.py:258 | two strictly sorted sequences with the same elements are equal, so a listing is determined by its set of titles |
| Category.NormalizarCategoria | rag_pipeline.py:72-80 | the result is "" or an official category, and "" for a missing label |
| Category.NormalizarCategoriaFirstMatch | rag_pipeline.py:72-80 | the category is the one whose stem is the first in the table to occur in the normalised label, and "" when no stem occurs |
| Category.OfficialIsFixed | rag_pipeline.py:59-80 | each of the four official categories normalises to itself |
| Category.NormalizarCategoriaIdempotent | rag_pipeline.py:96-98 | normalising an already-normalised `categoria_corr` value changes nothing |
| Category.ExtrairCategoriaDoChunk | rag_pipeline.py:82-86 | the result is "" for a missing text; a non-empty result needs a `CATEGORIA` marker in the text, lies on one line and has no surrounding whitespace |
| Category.ExtractFromMarkerLine | rag_pipeline.py:82-86 | a chunk that is exactly `CATEGORIA: v` yields `v` stripped |
| Category.ExtractFromChunk | rag_pipeline.py:82-86 | a multi-line chunk whose first marker is a line `CATEGORIA: v`, with no marker before it and `v` a line starting with a non-space character, yields `v` stripped |
| Category.CategoriaCorr | rag_pipeline.py:88-98 | the derived category is "" or an official category |
| Category.CategoriaCorrPrecedence | rag_pipeline.py:88-98 | for a chunk with a `CATEGORIA: v` line and no earlier marker, the category read from `v` overrides the declared one; the declared one is used only when the chunk names no category or the text is missing; the stored value is already normalised |
| Menu.Get | rag_pipeline.py:388 | a lookup finds nothing exactly when the key is absent |
| Menu.Put | rag_pipeline.py:217-218 | assigning to a dictionary key keeps an existing key in place and appends a new one; the key then holds the new value and no other key changes |
| Menu.FromPairsKeys | rag_pipeline.py:217-218 | the keys of a dictionary comprehension are its generated keys in first-occurrence order |
| Menu.FromPairsLastWins | rag_pipeline.py:217-218 | in a dictionary comprehension, the value for a key is the one from its last occurrence |
| Menu.Corr | rag_pipeline.py:88-98 | every value of the derived `categoria_corr` column is an official category or "" |
| Menu.TituloNormToOrig | rag_pipeline.py:213-217 | every key of the first dictionary is the normal form of the original title it maps to |
| Menu.TituloNormToCat | rag_pipeline.py:213-218 | every value of the second dictionary is an official category or "" |
| Menu.MenuMapsSameKeys | rag_pipeline.py:213-219 | the two menu dictionaries have the same keys in the same order |
| Menu.MenuKeys | rag_pipeline.py:213-217 | a normalised title is a menu key exactly when some pdf row has a title with that normal form |
| Menu.MenuMapsSameRow | rag_pipeline.py:213-219 | for each menu key, there is one pdf row whose title is the stored original title and whose derived category is the stored category |
| Menu.ListarPratosDaCategoria | rag_pipeline.py:260-266 | the listing is strictly sorted, and a title is in it exactly when a pdf row has that stripped title, not empty and not "nan", with the given derived category |
| Menu.ListarTodosPratos | rag_pipeline.py:270-281 | the same as the category listing, with no category filter |
| Menu.CategoryListingsCover | rag_pipeline.py:260-281 | every title of a category listing is in the full menu, and every title of the full menu is in the listing of some row's category |
| Resolver.SortByLenDesc | rag_pipeline.py:227 | sorting by length, longest first, gives a non-increasing length order |
| Resolver.SortByLenDescPerm | rag_pipeline.py:227 | sorting only reorders the keys |
| Resolver.SortedFirstHitIsLongest | rag_pipeline.py:226-229 | the first key of the sorted list that occurs in the question is the longest such key, and on ties the earliest in dictionary order |
| Resolver.BestOverlap | rag_pipeline.py:231-239 | the overlap loop returns nothing exactly when no key shares two words with the question, and otherwise the first key with the highest overlap |
| Resolver.EncontrarPrato | rag_pipeline.py:223-239 | a resolved dish is a non-empty menu key, and no dish is resolved exactly when no key occurs in the normalised question and none shares two of its words |
| Resolver.EncontrarPratoSpec | rag_pipeline.py:223-239 | the resolved dish is the longest contained key if there is one, otherwise the best overlap of at least two words; it is always a non-empty menu key |
| Intents.ExtrairCategoriaDaPergunta | rag_pipeline.py:244-250 | a category found in a question is an official one |
| Intents.ExtrairCategoriaDaPerguntaFirstMatch | rag_pipeline.py:244-250 | the category is the one whose stem is the first in the table to occur in the lower-cased question |
| Intents.ListarItensCategoria | rag_pipeline.py:283-289 | a category-listing request needs both one of the listing phrases in the lowered question and an official category named in it |
| Intents.CategoriaDePrato | rag_pipeline.py:291-298 | every trigger contains "categoria", so a question is a dish-category request exactly when it holds one of the triggers |
| Intents.DeCategorias | rag_pipeline.py:300-314 | a request for the category list is never also a question about a dish's category, and it contains one of the triggers |
| Intents.ListarTodosItens | rag_pipeline.py:316-328 | because the triggers are searched in the normalised question, the accented ones never fire, and the detector behaves as if it had only the ASCII triggers |
| Intents.FollowupSemPrato | rag_pipeline.py:330-338 | a dish-less follow-up holds a follow-up phrase, and no menu key occurs in its normalised text or shares two of its words |
| Intents.FormatDate | rag_pipeline.py:343-344 | the date is digits with `/` at positions 2 and 5 |
| Intents.FormatTime | rag_pipeline.py:346-347 | the time is five characters, digits with `:` in the middle |
| Intents.MetaAnswer | rag_pipeline.py:340-351 | there is a meta answer exactly when the lower-cased, stripped question holds one of the six date, time or last-question phrases, and it is never empty |
| Intents.MetaAnswerLast | rag_pipeline.py:348-350 | a last-question request reports the remembered question when it is non-empty, and the fixed "no previous question" reply otherwise |
| Intents.MetaAnswerIgnoresLast | rag_pipeline.py:340-351 | the remembered question affects only last-question requests |
| Retrieval.Filter | rag_pipeline.py:150-159 | a filter keeps, in order, exactly the elements that pass |
| Retrieval.TitleMatches | rag_pipeline.py:148-159 | the matches are pdf rows, in dataset order, whose normalised title contains the normalised dish; when some title equals it, every equal pdf row is returned and no other; otherwise every containing pdf row is returned; there are none only when no pdf title contains it |
| Retrieval.RetrieveByDishTitle | rag_pipeline.py:135-165 | none for an empty title; otherwise the hits are the first `top_k` matches in dataset order, each scored 1.0 |
| Retrieval.RetrieveByDishTitleFinds | rag_pipeline.py:135-165 | the lookup finds something exactly when the title is non-empty (and `top_k` positive) and some pdf title contains the dish; with an exact match, every hit is exact |
| Retrieval.Threshold | rag_pipeline.py:502 | keeps, in order, exactly the hits scoring at least `min_score` |
| Retrieval.NarrowToDish | rag_pipeline.py:504-508 | keeps only the hits whose title mentions the current dish when any does, and otherwise keeps every hit |
| Retrieval.DedupByDocKeepsFirsts | rag_pipeline.py:511 | deduplication keeps exactly the first hit of each document, in order |
| Retrieval.Candidates | rag_pipeline.py:492-508 | title hits, when there are any, are taken as they are; otherwise the semantic hits that reach `min_score`, in order, narrowed to those mentioning the current dish when any does, and all of them when none does |
| Retrieval.EvidenceOf | rag_pipeline.py:492-511 | the evidence has at most five hits from pairwise different documents, taken in order from the candidates |
| Retrieval.EvidenceOfDrawn | rag_pipeline.py:492-511 | with title hits, every evidence hit is a title hit; without them, every evidence hit is a semantic hit that reached the threshold, and it mentions the current dish whenever some thresholded hit does |
| Retrieval.Evidence | rag_pipeline.py:492-511 | at most five hits from pairwise different documents, each a title hit of the current dish or a semantic hit that reached `min_score` |
| Retrieval.EvidenceTitleFirst | rag_pipeline.py:492-511 | when the current dish has title hits, the evidence is the first hit of each of the first five documents among them, with no threshold and no narrowing, and every hit is a pdf row of that dish scored 1.0 |
| Context.FitCount | rag_pipeline.py:169-176 | the loop takes blocks that fit the budget, and the next block, if any, does not |
| Context.FitIsLongest | rag_pipeline.py:169-176 | any longer prefix of blocks exceeds the budget |
| Context.FormatContext | rag_pipeline.py:168-177 | the context exceeds `max_chars` by at most one character per separator, and it is empty exactly when there is no hit or the first block alone is too long |
| Context.JoinWithinBudget | rag_pipeline.py:169-177 | the loop with its running total computes the join of the longest prefix of blocks within the budget |
| Context.FormatContextLoop | rag_pipeline.py:168-177 | `format_context`, written as a loop, agrees with its functional definition |
| Orchestrator.Resolve | rag_pipeline.py:384-396 | the state changes only in `current_dish`; a mentioned dish is a menu title; otherwise the remembered dish is used; the question is rewritten exactly for a dish-less follow-up about a remembered dish |
| Orchestrator.ResolveMentioned | rag_pipeline.py:386-391 | a dish is mentioned exactly when the resolver finds one, and it is the menu title of that key |
| Orchestrator.ListCategoryReply | rag_pipeline.py:400-422 | the reply names every dish of the category's listing, cites the listing source, and is the "no dishes" text exactly when no row of that derived category has a listed title |
| Orchestrator.DishCategoryReply | rag_pipeline.py:424-447 | a dish is answered exactly when the resolver finds one, and it is the menu title of the resolved key, with its category from the second dictionary, its image, and the dish remembered; otherwise the fixed reply is given and the state is unchanged |
| Orchestrator.DishCategoryReplyNamesRowCategory | rag_pipeline.py:424-439 | the category named is the derived category of a pdf row with exactly that title, and it is official or "" |
| Orchestrator.SourcesOf | rag_pipeline.py:544 | one source per hit, and pairwise different sources for hits of different documents whose ids hold no "(" |
| Orchestrator.RagReply | rag_pipeline.py:511-553 | at most five sources, one per evidence hit in order, pairwise different for plain document ids; with no evidence, the fixed reply; otherwise the model's answer to the system prompt and to the question with its formatted context |
| Orchestrator.Route | rag_pipeline.py:398-553 | routing keeps `last_user_question`, keeps the remembered dish a menu title, and changes it only by answering a dish-category question |
| Orchestrator.RouteOrder | rag_pipeline.py:400-447 | the category listing is tried first, then the category of a dish |
| Orchestrator.RouteOrderRest | rag_pipeline.py:449-553 | then the category list, then the full menu, and otherwise the generative answer, which keeps the current dish and cites exactly the sources of the evidence |
| Orchestrator.AnswerWith | rag_pipeline.py:357-382 | a turn records the question as `last_user_question`, keeps the remembered dish a menu title, and a meta answer is the whole reply, with the system source and no dish |
| Orchestrator.AnswerQuestion | rag_pipeline.py:357-553 | a turn records the question as `last_user_question` and keeps the remembered dish a menu title |
| Orchestrator.MetaFirst | rag_pipeline.py:369-382 | a meta request is answered before anything else, with the system source, no dish and no image, and the remembered dish unchanged |
| Orchestrator.DishMemory | rag_pipeline.py:384-439 | the remembered dish changes only when the question names a menu dish or a dish-category question is answered |
| Orchestrator.FollowupRewritten | rag_pipeline.py:392-396 | a dish-less follow-up about the remembered dish is rewritten to name it, and the rewritten question is the one routed |
| Orchestrator.LastQuestionEchoesCurrent | rag_pipeline.py:348-373 | as written, a last-question request reports the current question, never an earlier one, and the "no previous question" reply cannot occur |
| Orchestrator.AnswerQuestionIntended | rag_pipeline.py:357-553 | the corrected turn, with `meta_answer` reading the previous turn's question, also records the question and keeps the remembered dish a menu title |
| Orchestrator.LastQuestionIntended | rag_pipeline.py:348-350 | the corrected turn reports the previous turn's question, or says there is none |
| Orchestrator.AnswerVersionsAgree | rag_pipeline.py:369-373 | the two versions give the same reply to every question other than a last-question request |

## Left out

- The FAISS index, the sentence embeddings, the Azure OpenAI chat call and the image-file lookup (`get_image_path_for_dish`, rag_pipeline.py:186-207) are parameters of a turn.
- `retrieve_faiss` (rag_pipeline.py:121-132) is left out for the same reason. Its result, already sorted by score, is taken as given.
- `datetime.now()` is a `Clock` parameter.
- Loading the dataset and the Key Vault credentials (rag_pipeline.py:17-58) are left out: they are I/O.
- The Streamlit front end (app.py) is left out. It calls `answer_question(prompt)` with no state, so in the app every turn starts from an empty memory. The model keeps the state parameter that `answer_question` accepts.
- Errors raised by the chat call are not modelled. They propagate out of `answer_question`.
- Retrieval.NarrowToDish: pandas `str.contains` reads the dish name as a regular expression; the model treats it as a literal substring, which differs only for dish names containing regex metacharacters.
- Retrieval.RetrieveByDishTitle: the branches for a dataset with no `titulo` or `tipo` column are left out. The chunk CSV always has both columns.
- Text.Fold: NFKD decomposition is modelled by an explicit table for Latin-1 letters, and `DropMarks` removes the standalone combining marks U+0300 to U+036F. Other Unicode compatibility decompositions and combining marks outside that block are not modelled.
- Category.ExtrairCategoriaDoChunk: the regex `\b` uses Unicode `\w`, while the model's word characters are ASCII and Latin-1 letters, digits and `_`. A marker next to a letter outside Latin-1 is found by the model but not by the regex.
- Text.Words: that `split()` covers every non-whitespace character in maximal runs, in order, is proved for normalised text (`WordsJoin`, `JoinWords`). The resolver splits only normalised text. For arbitrary text the contract states only that each word is a non-empty run of non-whitespace characters.
- Text.Lower: case mapping covers ASCII and Latin-1. Other Unicode case mappings are not modelled.
- Context.FormatContext: the budget limits the blocks, not the `"\n"` separators, so the context can exceed `max_chars` by one character per separator. The model follows the code here, which promises no tighter bound.
- Orchestrator.RagReply: the rendered sources are proved pairwise different only when no document id contains "(". With such ids, two different documents could render the same source string.
- Floating-point scores are modelled as exact reals.
- The duplicated definition of `listar_pratos_da_categoria` (rag_pipeline.py:252-266) is modelled once. The second definition replaces the first and both are identical.

## Findings

| source | as written | input that shows it | evidently intended | confidence | as-written member | corrected member |
|---|---|---|---|---|---|---|
| rag_pipeline.py:369-373 with 348-350 | `last_user_question` is overwritten with the current question before `meta_answer` reads it, so "what was my last question" reports the question just asked, and the "no previous question" reply is unreachable | state with `last_user_question` = "quais os ingredientes?", question "qual foi a minha última pergunta?": the reply is "Sua última pergunta foi: qual foi a minha última pergunta?" | report the question of the previous turn, or "no previous question" when there is none | not executed | Orchestrator.LastQuestionEchoesCurrent | Orchestrator.LastQuestionIntended |
