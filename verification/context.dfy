/**
  `format_context`: the evidence rendered as source-tagged blocks, taken
  in order while the running total of block lengths stays within the
  character budget, and joined by blank-line separators.
 */
module Context {
  import opened Text
  import opened Data

  /** The default `max_chars`. */
  const MaxChars: int := 4500

  /** The tag naming a hit's document and chunk. */
  function Tag(h: Hit): (t: string)
    ensures |t| > 0 && t[0] == '[' && t[|t| - 1] == ']'
  {
    "[Fonte: " + h.row.documentId + " | chunk " + h.row.chunkId + "]"
  }

  /** The block of one hit: its tag, a line break, its stripped text and a
      final line break. */
  function Block(h: Hit): (b: string)
    ensures |b| == |Tag(h)| + |Strip(Render(h.row.chunks))| + 2
    ensures b[..|Tag(h)|] == Tag(h) && b[|Tag(h)|] == '\n' && b[|b| - 1] == '\n'
  {
    Tag(h) + "\n" + Strip(Render(h.row.chunks)) + "\n"
  }

  /** The block of every hit, in order. */
  function Blocks(hs: seq<Hit>): seq<string> {
    seq(|hs|, i requires 0 <= i < |hs| => Block(hs[i]))
  }

  /** `n` blocks are taken: they fit the budget (vacuously when there are
      none), and the next one, if any, does not. */
  ghost predicate LongestFit(bs: seq<string>, maxChars: int, n: int) {
    && 0 <= n <= |bs|
    && (n == 0 || SumLen(bs[..n]) <= maxChars)
    && (n < |bs| ==> SumLen(bs[..n + 1]) > maxChars)
  }

  lemma SumLenSnoc(bs: seq<string>, i: nat)
    requires i < |bs|
    ensures SumLen(bs[..i + 1]) == SumLen(bs[..i]) + |bs[i]|
  {
    assert bs[..i + 1][..i] == bs[..i];
  }

  /** The loop from block `i` on, with `total` the length taken so far. */
  function FitFrom(bs: seq<string>, maxChars: int, i: nat, total: int): (n: nat)
    requires i <= |bs| && total == SumLen(bs[..i])
    ensures i <= n <= |bs|
    ensures n > i ==> SumLen(bs[..n]) <= maxChars
    ensures n < |bs| ==> SumLen(bs[..n + 1]) > maxChars
    decreases |bs| - i
  {
    if i == |bs| then i
    else
      SumLenSnoc(bs, i);
      if total + |bs[i]| > maxChars then i
      else FitFrom(bs, maxChars, i + 1, total + |bs[i]|)
  }

  /** How many blocks the loop takes. */
  function FitCount(bs: seq<string>, maxChars: int): (n: nat)
    ensures LongestFit(bs, maxChars, n)
  {
    assert bs[..0] == [];
    FitFrom(bs, maxChars, 0, 0)
  }

  /** Prefix sums never decrease. */
  lemma {:induction false} SumLenMonotone(bs: seq<string>, m: nat, n: nat)
    requires m <= n <= |bs|
    ensures SumLen(bs[..m]) <= SumLen(bs[..n])
    decreases n - m
  {
    if m < n {
      SumLenSnoc(bs, n - 1);
      SumLenMonotone(bs, m, n - 1);
    }
  }

  /** The blocks taken form the longest prefix within the budget: any
      longer prefix exceeds it. */
  lemma FitIsLongest(bs: seq<string>, maxChars: int, m: nat)
    requires FitCount(bs, maxChars) < m <= |bs|
    ensures SumLen(bs[..m]) > maxChars
  {
    SumLenMonotone(bs, FitCount(bs, maxChars) + 1, m);
  }

  /** `format_context(rows, max_chars)`. The budget bounds the blocks,
      not the separators: the context can exceed `max_chars` by one
      character per separator, and is empty exactly when there is no hit
      or not even the first block fits. */
  function FormatContext(hs: seq<Hit>, maxChars: int): (c: string)
    ensures var n := FitCount(Blocks(hs), maxChars);
      n > 0 ==> |c| <= maxChars + n - 1
    ensures c == "" <==> |hs| == 0 || |Block(hs[0])| > maxChars
  {
    var bs := Blocks(hs);
    FitJoinBound(bs, maxChars);
    Join(bs[..FitCount(bs, maxChars)], "\n")
  }

  /** The blocks taken, joined: within the budget plus one character per
      separator, and empty exactly when there is no block or the first
      one is too long. */
  lemma FitJoinBound(bs: seq<string>, maxChars: int)
    requires forall i :: 0 <= i < |bs| ==> |bs[i]| > 0
    ensures var n := FitCount(bs, maxChars);
      n > 0 ==> |Join(bs[..n], "\n")| <= maxChars + n - 1
    ensures var n := FitCount(bs, maxChars);
      Join(bs[..n], "\n") == "" <==> |bs| == 0 || |bs[0]| > maxChars
  {
    var n := FitCount(bs, maxChars);
    if |bs| > 0 {
      SumLenSnoc(bs, 0);
      assert bs[..0] == [];
      if n > 0 {
        SumLenMonotone(bs, 1, n);
        assert |bs[0]| <= maxChars;
        assert |Join(bs[..n], "\n")| >= |bs[0]|;
      }
    }
  }

  /** The loop of `format_context` over the rendered blocks: a block is
      appended while the running total plus its length stays within the
      budget, and the first block that does not fit ends the loop. */
  method JoinWithinBudget(bs: seq<string>, maxChars: int) returns (ctx: string)
    ensures ctx == Join(bs[..FitCount(bs, maxChars)], "\n")
  {
    var parts: seq<string> := [];
    var total := 0;
    var i := 0;
    assert bs[..0] == [];
    while i < |bs|
      invariant 0 <= i <= |bs|
      invariant parts == bs[..i]
      invariant total == SumLen(parts)
      invariant FitFrom(bs, maxChars, i, total) == FitCount(bs, maxChars)
      decreases |bs| - i
    {
      var block := bs[i];
      if total + |block| > maxChars {
        break;
      }
      SumLenSnoc(bs, i);
      assert bs[..i + 1] == parts + [block];
      parts := parts + [block];
      total := total + |block|;
      i := i + 1;
    }
    ctx := Join(parts, "\n");
  }

  /** `format_context(rows, max_chars)` as the loop computes it. */
  method FormatContextLoop(hs: seq<Hit>, maxChars: int) returns (ctx: string)
    ensures ctx == FormatContext(hs, maxChars)
  {
    ctx := JoinWithinBudget(Blocks(hs), maxChars);
  }
}
