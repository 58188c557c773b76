/**
  The chunk dataset as the pipeline reads it: one immutable row per line of
  the chunk CSV, with pandas' missing values (`NaN`) made explicit, and the
  scored hits that retrieval produces from those rows.
 */
module Data {
  import opened Wrappers
  import opened Text

  /** A CSV cell: a string, or missing (`NaN`). */
  datatype Cell = Str(s: string) | Missing

  /** `astype(str)` of a cell: a missing cell renders as "nan". */
  function Render(c: Cell): string {
    match c
    case Str(s) => s
    case Missing => "nan"
  }

  /** `fillna("").astype(str)` of a cell. */
  function OrEmpty(c: Cell): string {
    match c
    case Str(s) => s
    case Missing => ""
  }

  /** One chunk row. `documentId` and `chunkId` are kept as their rendered
      text; `corrColumn` is the value of a precomputed `categoria_corr`
      column, when the CSV has one. */
  datatype Row = Row(
    documentId: string,
    chunkId: string,
    chunks: Cell,
    categoria: Cell,
    titulo: Cell,
    tipo: Cell,
    corrColumn: Cell)

  /** The loaded dataset; `hasCorrColumn` says whether the CSV already
      carried a `categoria_corr` column. */
  datatype Dataset = Dataset(rows: seq<Row>, hasCorrColumn: bool)

  /** `tipo.astype(str).str.lower() == "pdf"`: the canonical textual rows. */
  predicate IsPdf(r: Row) {
    Lower(Render(r.tipo)) == "pdf"
  }

  /** A retrieved row with its relevance score. */
  datatype Hit = Hit(row: Row, score: real)

  /** The truth value of an optional string in Python: present and not
      empty. */
  predicate Truthy(o: Option<string>) {
    o.Some? && o.value != ""
  }
}
