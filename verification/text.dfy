/**
  Text primitives of the pipeline: the character classes Python's `str` methods
  and `re` patterns use, `_norm_text` (accent stripping, lower-casing, collapsing
  punctuation and whitespace), `slugify_title`, substring search (`in`),
  `str.strip`, `str.split` and `str.join`.
 */
module Text {

  /** `str.isspace()` and the `\s` class of a `str` pattern (CPython's whitespace set). */
  predicate IsSpace(c: char) {
    ('\t' <= c <= '\r') || ('\U{1C}' <= c <= ' ') || c == '\U{85}' || c == '\U{A0}'
    || c == '\U{1680}' || ('\U{2000}' <= c <= '\U{200A}') || c == '\U{2028}' || c == '\U{2029}'
    || c == '\U{202F}' || c == '\U{205F}' || c == '\U{3000}'
  }

  /** The class `[a-z0-9]` (ASCII only). */
  predicate IsAlnum(c: char) {
    ('a' <= c <= 'z') || ('0' <= c <= '9')
  }

  /** Characters matched by `[^a-z0-9\s]`. */
  predicate IsOther(c: char) {
    !IsAlnum(c) && !IsSpace(c)
  }

  predicate IsLineBreak(c: char) {
    c == '\n' || c == '\r'
  }

  /** `\w` restricted to Latin-1: letters, digits (including the numeric
      superscripts and fractions) and the underscore. */
  predicate IsWordChar(c: char) {
    ('a' <= c <= 'z') || ('A' <= c <= 'Z') || ('0' <= c <= '9') || c == '_'
    || c == '\U{AA}' || c == '\U{B2}' || c == '\U{B3}' || c == '\U{B5}' || c == '\U{B9}' || c == '\U{BA}'
    || ('\U{BC}' <= c <= '\U{BE}') || ('\U{C0}' <= c <= '\U{FF}' && c != '\U{D7}' && c != '\U{F7}')
  }

  /** The upper-case letters `str.lower()` changes within Latin-1: `A`-`Z`
      and `\U{C0}`-`\U{DE}` except the multiplication sign. */
  predicate IsUpper(c: char) {
    ('A' <= c <= 'Z') || ('\U{C0}' <= c <= '\U{DE}' && c != '\U{D7}')
  }

  /** `str.lower()` on one character: an upper-case letter becomes its
      lower-case partner, 32 code points further on; anything else is
      kept. */
  function LowerChar(c: char): (d: char)
    ensures !IsUpper(d)
    ensures !IsUpper(c) ==> d == c
    ensures IsUpper(c) ==> d as int == c as int + 32
    ensures IsSpace(c) <==> IsSpace(d)
  {
    if IsUpper(c) then (c as int + 32) as char else c
  }

  /** NFKD decomposition followed by dropping combining marks, for the
      Latin-1 characters whose decomposition is a single base character. */
  function StripAccent(c: char): (d: char)
    ensures IsAlnum(c) || c == ' ' ==> d == c
    ensures IsSpace(c) <==> IsSpace(d)
  {
    if '\U{C0}' <= c <= '\U{C5}' then 'A'
    else if c == '\U{C7}' then 'C'
    else if '\U{C8}' <= c <= '\U{CB}' then 'E'
    else if '\U{CC}' <= c <= '\U{CF}' then 'I'
    else if c == '\U{D1}' then 'N'
    else if '\U{D2}' <= c <= '\U{D6}' then 'O'
    else if '\U{D9}' <= c <= '\U{DC}' then 'U'
    else if c == '\U{DD}' then 'Y'
    else if '\U{E0}' <= c <= '\U{E5}' || c == '\U{AA}' then 'a'
    else if c == '\U{E7}' then 'c'
    else if '\U{E8}' <= c <= '\U{EB}' then 'e'
    else if '\U{EC}' <= c <= '\U{EF}' then 'i'
    else if c == '\U{F1}' then 'n'
    else if '\U{F2}' <= c <= '\U{F6}' || c == '\U{BA}' then 'o'
    else if '\U{F9}' <= c <= '\U{FC}' then 'u'
    else if c == '\U{FD}' || c == '\U{FF}' then 'y'
    else if c == '\U{B9}' then '1'
    else if c == '\U{B2}' then '2'
    else if c == '\U{B3}' then '3'
    else c
  }

  /** `s.lower()`: no upper-case letter is left, each one is replaced by
      its lower-case partner in place, and every other character is kept. */
  function Lower(s: string): (r: string)
    ensures |r| == |s|
    ensures forall i :: 0 <= i < |r| ==> !IsUpper(r[i])
    ensures forall i :: 0 <= i < |s| && !IsUpper(s[i]) ==> r[i] == s[i]
    ensures forall i :: 0 <= i < |s| && IsUpper(s[i]) ==> r[i] as int == s[i] as int + 32
  {
    seq(|s|, i requires 0 <= i < |s| => LowerChar(s[i]))
  }

  /** Lower-casing twice is lower-casing once. */
  lemma LowerIdempotent(s: string)
    ensures Lower(Lower(s)) == Lower(s)
  {
    assert forall i :: 0 <= i < |s| ==> Lower(Lower(s))[i] == Lower(s)[i];
  }

  /** One character through the accent table and then `lower()`. */
  function FoldChar(c: char): (d: char)
    ensures !IsUpper(d) && StripAccent(d) == d
    ensures !IsUpper(c) && StripAccent(c) == c ==> d == c
  {
    LowerChar(StripAccent(c))
  }

  /** `_strip_accents(s).lower()` on a text without standalone combining
      marks (those are removed first, by `DropMarks`): no upper-case or
      accented letter of the table is left, and a character that is
      neither is kept in place. */
  function Fold(s: string): (r: string)
    ensures |r| == |s|
    ensures forall i :: 0 <= i < |r| ==> !IsUpper(r[i]) && StripAccent(r[i]) == r[i]
    ensures forall i :: 0 <= i < |s| && !IsUpper(s[i]) && StripAccent(s[i]) == s[i] ==> r[i] == s[i]
  {
    seq(|s|, i requires 0 <= i < |s| => FoldChar(s[i]))
  }

  /** Case does not matter to the fold. */
  lemma FoldIgnoresCase(s: string)
    ensures Fold(Lower(s)) == Fold(s)
  {
    forall i | 0 <= i < |s| ensures Fold(Lower(s))[i] == Fold(s)[i] {
      FoldCharLower(s[i]);
    }
  }

  lemma FoldCharLower(c: char)
    ensures FoldChar(LowerChar(c)) == FoldChar(c)
  {
  }

  /** A character already through the accent table folds as before. */
  lemma FoldCharStripped(c: char)
    ensures FoldChar(StripAccent(c)) == FoldChar(c)
  {
  }

  /** The combining diacritical marks U+0300 to U+036F, except the
      grapheme joiner U+034F (combining class 0): the characters
      `unicodedata.combining` reports as combining within that block. */
  predicate IsMark(c: char) {
    '\U{300}' <= c <= '\U{36F}' && c != '\U{34F}'
  }

  /** The removal of combining characters in `_strip_accents`, applied to
      standalone marks: every mark goes, and a text without marks is left
      as it is. */
  function DropMarks(s: string): (r: string)
    ensures |r| <= |s|
    ensures forall i :: 0 <= i < |r| ==> !IsMark(r[i])
    ensures (forall i :: 0 <= i < |s| ==> !IsMark(s[i])) ==> r == s
    decreases |s|
  {
    if |s| == 0 then []
    else
      var rest := DropMarks(s[1..]);
      assert s == [s[0]] + s[1..];
      var r := (if IsMark(s[0]) then [] else [s[0]]) + rest;
      assert forall i :: 0 < i < |r| ==> r[i] == rest[i - 1] || IsMark(s[0]);
      r
  }

  /** Marks are dropped character by character. */
  lemma {:induction false} DropMarksConcat(a: string, b: string)
    ensures DropMarks(a + b) == DropMarks(a) + DropMarks(b)
    decreases |a|
  {
    if |a| > 0 {
      var h := if IsMark(a[0]) then [] else [a[0]];
      assert (a + b)[0] == a[0] && (a + b)[1..] == a[1..] + b;
      assert DropMarks(a + b) == h + DropMarks(a[1..] + b);
      assert DropMarks(a) == h + DropMarks(a[1..]);
      DropMarksConcat(a[1..], b);
      assert h + (DropMarks(a[1..]) + DropMarks(b)) == (h + DropMarks(a[1..])) + DropMarks(b);
    } else {
      assert a + b == b;
    }
  }

  lemma LowerCons(c: char, t: string)
    ensures Lower([c] + t) == [LowerChar(c)] + Lower(t)
  {
    assert forall i :: 0 < i < |t| + 1 ==> ([c] + t)[i] == t[i - 1];
  }

  /** Lower-casing neither makes nor removes marks. */
  lemma {:induction false} DropMarksLower(s: string)
    ensures DropMarks(Lower(s)) == Lower(DropMarks(s))
    decreases |s|
  {
    if |s| > 0 {
      var l := Lower(s);
      assert l[1..] == Lower(s[1..]);
      DropMarksLower(s[1..]);
      var rest := DropMarks(s[1..]);
      assert DropMarks(l) == (if IsMark(l[0]) then [] else [l[0]]) + DropMarks(l[1..]);
      assert DropMarks(s) == (if IsMark(s[0]) then [] else [s[0]]) + rest;
      if IsMark(s[0]) {
        assert l[0] == s[0];
      } else {
        assert !IsMark(l[0]);
        LowerCons(s[0], rest);
      }
    }
  }

  /** `re.sub(r"[^a-z0-9\s]+", " ", s)`: every maximal run of other characters
      becomes one space; `inRun` says the previous character already began a run. */
  function SubOtherRuns(s: string, inRun: bool): (r: string)
    ensures forall i :: 0 <= i < |r| ==> !IsOther(r[i])
    decreases |s|
  {
    if |s| == 0 then ""
    else if IsOther(s[0]) then (if inRun then "" else " ") + SubOtherRuns(s[1..], true)
    else [s[0]] + SubOtherRuns(s[1..], false)
  }

  /** `re.sub(r"\s+", " ", s)` on a string with no other characters left: the
      result holds only `[a-z0-9]` and single spaces, and a run already begun
      (`inRun`) is not continued by a leading space. */
  function CollapseSpaceRuns(s: string, inRun: bool): (r: string)
    requires forall i :: 0 <= i < |s| ==> !IsOther(s[i])
    ensures SingleSpaced(r)
    ensures inRun && |r| > 0 ==> r[0] != ' '
    decreases |s|
  {
    if |s| == 0 then ""
    else if IsSpace(s[0]) && inRun then CollapseSpaceRuns(s[1..], true)
    else
      var c := if IsSpace(s[0]) then ' ' else s[0];
      var rest := CollapseSpaceRuns(s[1..], IsSpace(s[0]));
      assert !IsOther(s[0]) && (IsAlnum(c) || c == ' ');
      assert ([c] + rest)[0] == c;
      assert forall i :: 0 < i <= |rest| ==> ([c] + rest)[i] == rest[i - 1];
      [c] + rest
  }

  /** `s.lstrip()`: the longest suffix of `s` that does not begin with whitespace. */
  function StripLeft(s: string): (r: string)
    ensures |r| <= |s| && r == s[|s| - |r|..]
    ensures forall k :: 0 <= k < |s| - |r| ==> IsSpace(s[k])
    ensures |r| > 0 ==> !IsSpace(r[0])
    decreases |s|
  {
    if |s| > 0 && IsSpace(s[0]) then StripLeft(s[1..]) else s
  }

  /** `s.rstrip()`: the longest prefix of `s` that does not end with whitespace. */
  function StripRight(s: string): (r: string)
    ensures |r| <= |s| && r == s[..|r|]
    ensures forall k :: |r| <= k < |s| ==> IsSpace(s[k])
    ensures |r| > 0 ==> !IsSpace(r[|r| - 1])
    decreases |s|
  {
    if |s| > 0 && IsSpace(s[|s| - 1]) then StripRight(s[..|s| - 1]) else s
  }

  /** `s.strip()`: whitespace removed at both ends; `StripOffset` says
      where the result sits in `s`. */
  function Strip(s: string): (r: string)
    ensures |r| <= |s|
    ensures |r| > 0 ==> !IsSpace(r[0]) && !IsSpace(r[|r| - 1])
  {
    StripRight(StripLeft(s))
  }

  /** Only `[a-z0-9]` and single spaces. */
  ghost predicate SingleSpaced(s: string) {
    && (forall i :: 0 <= i < |s| ==> IsAlnum(s[i]) || s[i] == ' ')
    && (forall i, j {:trigger s[i], s[j]} :: 0 <= i && j == i + 1 && j < |s| ==> !(s[i] == ' ' && s[j] == ' '))
  }

  /** `Strip(s)` is the slice of `s` left after dropping the leading and
      trailing whitespace. */
  lemma StripSlice(s: string)
    ensures var k := |s| - |StripLeft(s)|; Strip(s) == s[k..k + |Strip(s)|]
  {
  }

  /** Where `Strip(s)` starts in `s`: it is a slice of `s`, and only
      whitespace lies around it. */
  lemma StripOffset(s: string) returns (k: nat)
    ensures k + |Strip(s)| <= |s| && Strip(s) == s[k..k + |Strip(s)|]
    ensures forall j :: 0 <= j < k ==> IsSpace(s[j])
    ensures forall j :: k + |Strip(s)| <= j < |s| ==> IsSpace(s[j])
  {
    var l := StripLeft(s);
    var r := StripRight(l);
    k := |s| - |l|;
    assert Strip(s) == r && l == s[k..] && r == l[..|r|];
    assert forall j :: k + |r| <= j < |s| ==> s[j] == l[j - k];
  }

  /** The shape of every `_norm_text` result: single-spaced, with no space at
      either end. */
  ghost predicate Canonical(s: string) {
    SingleSpaced(s) && (|s| > 0 ==> s[0] != ' ' && s[|s| - 1] != ' ')
  }

  lemma SliceSingleSpaced(t: string, a: nat, b: nat)
    requires a <= b <= |t|
    requires SingleSpaced(t)
    ensures SingleSpaced(t[a..b])
  {
    var r := t[a..b];
    assert forall i :: 0 <= i < |r| ==> r[i] == t[a + i];
    assert forall i, j :: 0 <= i && j == i + 1 && j < |r| ==> r[i] == t[a + i] && r[j] == t[a + j];
  }

  /** `_norm_text`: marks dropped, accents stripped, lower-cased, runs of
      other characters and of whitespace each turned into one space, and
      the ends stripped. */
  function NormText(s: string): (r: string)
    ensures Canonical(r)
  {
    var t := CollapseSpaceRuns(SubOtherRuns(Fold(DropMarks(s)), false), false);
    StripCanonical(t);
    Strip(t)
  }

  /** Stripping a single-spaced string leaves it canonical. */
  lemma StripCanonical(t: string)
    requires SingleSpaced(t)
    ensures Canonical(Strip(t))
  {
    var k := StripOffset(t);
    TrimmedSliceCanonical(t, Strip(t), k);
  }

  /** A slice of a single-spaced string with no whitespace at either end is
      canonical. */
  lemma TrimmedSliceCanonical(t: string, r: string, k: nat)
    requires SingleSpaced(t)
    requires k + |r| <= |t| && r == t[k..k + |r|]
    requires |r| > 0 ==> !IsSpace(r[0]) && !IsSpace(r[|r| - 1])
    ensures Canonical(r)
  {
    SliceSingleSpaced(t, k, k + |r|);
    assert IsSpace(' ');
  }

  lemma {:induction false} SubOtherRunsFixed(s: string, inRun: bool)
    requires forall i :: 0 <= i < |s| ==> !IsOther(s[i])
    ensures SubOtherRuns(s, inRun) == s
    decreases |s|
  {
    if |s| > 0 {
      SubOtherRunsFixed(s[1..], false);
      assert s == [s[0]] + s[1..];
    }
  }

  lemma {:induction false} CollapseFixed(s: string, inRun: bool)
    requires SingleSpaced(s)
    requires inRun && |s| > 0 ==> s[0] != ' '
    ensures CollapseSpaceRuns(s, inRun) == s
    decreases |s|
  {
    if |s| > 0 {
      SliceSingleSpaced(s, 1, |s|);
      assert s[1..|s|] == s[1..];
      CollapseFixed(s[1..], s[0] == ' ');
      assert s == [s[0]] + s[1..];
    }
  }

  lemma FoldFixed(t: string)
    requires forall i :: 0 <= i < |t| ==> IsAlnum(t[i]) || t[i] == ' '
    ensures Fold(t) == t
  {
    assert forall i :: 0 <= i < |t| ==> Fold(t)[i] == t[i];
  }

  /** A canonical string is its own normal form. */
  lemma CanonicalFixed(t: string)
    requires Canonical(t)
    ensures NormText(t) == t
  {
    assert |t| > 0 ==> IsAlnum(t[0]) && IsAlnum(t[|t| - 1]);
    assert DropMarks(t) == t by {
      forall i | 0 <= i < |t| ensures !IsMark(t[i]) {
        PlainNotMark(t[i]);
      }
    }
    FoldFixed(t);
    assert SubOtherRuns(t, false) == t by {
      forall i | 0 <= i < |t| ensures !IsOther(t[i]) {
        PlainNotMark(t[i]);
      }
      SubOtherRunsFixed(t, false);
    }
    CollapseFixed(t, false);
    StripFixed(t);
  }

  lemma PlainNotMark(c: char)
    requires IsAlnum(c) || c == ' '
    ensures !IsMark(c) && !IsOther(c)
  {
  }

  lemma StripFixed(t: string)
    requires |t| > 0 ==> IsAlnum(t[0]) && IsAlnum(t[|t| - 1])
    ensures Strip(t) == t
  {
    StripLeftFixed(t);
    StripRightFixed(t);
  }

  lemma AlnumNotSpace(c: char)
    requires IsAlnum(c)
    ensures !IsSpace(c)
  {
  }

  lemma StripLeftFixed(t: string)
    requires |t| > 0 ==> IsAlnum(t[0])
    ensures StripLeft(t) == t
  {
    if |t| > 0 {
      AlnumNotSpace(t[0]);
    }
  }

  lemma StripRightFixed(t: string)
    requires |t| > 0 ==> IsAlnum(t[|t| - 1])
    ensures StripRight(t) == t
  {
    if |t| > 0 {
      AlnumNotSpace(t[|t| - 1]);
    }
  }

  /** `_norm_text` is idempotent. */
  lemma NormTextIdempotent(s: string)
    ensures NormText(NormText(s)) == NormText(s)
  {
    CanonicalFixed(NormText(s));
  }

  /** Case does not matter to `_norm_text`. */
  lemma NormTextIgnoresCase(s: string)
    ensures NormText(Lower(s)) == NormText(s)
  {
    DropMarksLower(s);
    FoldIgnoresCase(DropMarks(s));
    assert Fold(DropMarks(Lower(s))) == Fold(DropMarks(s));
  }

  /** Neither does a Latin-1 accent: replacing any one character by its
      unaccented form leaves the normal form unchanged. */
  lemma NormTextIgnoresAccent(s: string, i: nat)
    requires i < |s|
    ensures NormText(s[i := StripAccent(s[i])]) == NormText(s)
  {
    var c := s[i];
    var a, b := s[..i], s[i + 1..];
    SplitAround(s, i);
    if IsMark(c) {
      assert StripAccent(c) == c;
      assert s[i := c] == s;
    } else {
      var x := StripAccent(c);
      DropMarksAround(a, c, b);
      DropMarksAround(a, x, b);
      FoldReplaceAccent(DropMarks(a), c, DropMarks(b));
      NormTextOfFold(s[i := x], s);
    }
  }

  lemma SplitAround(s: string, i: nat)
    requires i < |s|
    ensures s == s[..i] + [s[i]] + s[i + 1..]
    ensures s[i := StripAccent(s[i])] == s[..i] + [StripAccent(s[i])] + s[i + 1..]
  {
  }

  /** `_norm_text` sees its input only through the folded text. */
  lemma NormTextOfFold(u: string, v: string)
    requires Fold(DropMarks(u)) == Fold(DropMarks(v))
    ensures NormText(u) == NormText(v)
  {
  }

  /** Dropping marks around a character that is not one. */
  lemma DropMarksAround(a: string, c: char, b: string)
    requires !IsMark(c)
    ensures DropMarks(a + [c] + b) == DropMarks(a) + [c] + DropMarks(b)
  {
    DropMarksConcat(a + [c], b);
    DropMarksConcat(a, [c]);
    assert DropMarks([c]) == [c];
  }

  /** The fold does not see whether one character was unaccented first. */
  lemma FoldReplaceAccent(p: string, c: char, q: string)
    ensures Fold(p + [StripAccent(c)] + q) == Fold(p + [c] + q)
  {
    var u, v := p + [c] + q, p + [StripAccent(c)] + q;
    FoldCharStripped(c);
    assert forall k :: 0 <= k < |u| ==> Fold(v)[k] == Fold(u)[k];
  }

  /** `needle in hay` for strings. */
  predicate Contains(hay: string, needle: string)
    decreases |hay|
  {
    if |needle| > |hay| then false
    else if hay[..|needle|] == needle then true
    else |hay| > 0 && Contains(hay[1..], needle)
  }

  predicate OccursAt(hay: string, needle: string, i: int) {
    0 <= i && i + |needle| <= |hay| && hay[i..i + |needle|] == needle
  }

  /** `Contains` holds exactly when the needle occurs at some position. */
  lemma {:induction false} ContainsIff(hay: string, needle: string)
    ensures Contains(hay, needle) <==> exists i :: OccursAt(hay, needle, i)
    decreases |hay|
  {
    if |needle| > |hay| {
    } else if hay[..|needle|] == needle {
      assert OccursAt(hay, needle, 0);
    } else if |hay| == 0 {
    } else {
      ContainsIff(hay[1..], needle);
      if exists i :: OccursAt(hay[1..], needle, i) {
        var i :| OccursAt(hay[1..], needle, i);
        assert hay[1..][i..i + |needle|] == hay[i + 1..i + 1 + |needle|];
        assert OccursAt(hay, needle, i + 1);
      }
      if exists i :: OccursAt(hay, needle, i) {
        var i :| OccursAt(hay, needle, i);
        assert i != 0;
        assert hay[1..][i - 1..i - 1 + |needle|] == hay[i..i + |needle|];
        assert OccursAt(hay[1..], needle, i - 1);
      }
    }
  }

  /** A needle holding a character the haystack lacks never occurs in it. */
  lemma ContainsNeedsChar(hay: string, needle: string, j: nat)
    requires j < |needle|
    requires forall i :: 0 <= i < |hay| ==> hay[i] != needle[j]
    ensures !Contains(hay, needle)
  {
    ContainsIff(hay, needle);
    forall i | 0 <= i && i + |needle| <= |hay|
      ensures !OccursAt(hay, needle, i)
    {
      assert hay[i..i + |needle|][j] == hay[i + j];
    }
  }

  /** `any(k in p for k in ks)`. */
  /** A phrase found in a part of the text is found in the text. */
  lemma ContainsTrans(hay: string, mid: string, needle: string)
    requires Contains(hay, mid) && Contains(mid, needle)
    ensures Contains(hay, needle)
  {
    ContainsIff(hay, mid);
    ContainsIff(mid, needle);
    var i :| OccursAt(hay, mid, i);
    var j :| OccursAt(mid, needle, j);
    assert mid == hay[i..i + |mid|];
    forall k | 0 <= k < |needle| ensures hay[i + j + k] == needle[k] {
      assert needle[k] == mid[j + k];
    }
    assert hay[i + j..i + j + |needle|] == needle;
    assert OccursAt(hay, needle, i + j);
    ContainsIff(hay, needle);
  }

  /** The middle part of a concatenation is found in it. */
  lemma ContainsMiddle(a: string, b: string, c: string)
    ensures Contains(a + b + c, b)
  {
    var h := a + b + c;
    assert h[|a|..|a| + |b|] == b;
    assert OccursAt(h, b, |a|);
    ContainsIff(h, b);
  }

  predicate AnyIn(p: string, ks: seq<string>) {
    exists k :: k in ks && Contains(p, k)
  }

  /** Length of the leading run of non-whitespace characters. */
  function WordLen(s: string): (n: nat)
    ensures n <= |s|
    ensures forall k :: 0 <= k < n ==> !IsSpace(s[k])
    ensures n < |s| ==> IsSpace(s[n])
    decreases |s|
  {
    if |s| == 0 || IsSpace(s[0]) then 0 else 1 + WordLen(s[1..])
  }

  /** A non-empty run of non-whitespace characters. */
  ghost predicate IsWord(w: string) {
    |w| > 0 && forall k :: 0 <= k < |w| ==> !IsSpace(w[k])
  }

  /** `s.split()`: the maximal runs of non-whitespace characters, in order. */
  function Words(s: string): (ws: seq<string>)
    ensures forall w :: w in ws ==> IsWord(w)
    ensures |ws| > 0 ==> |s| > 0
    decreases |s|
  {
    var t := StripLeft(s);
    if |t| == 0 then []
    else
      var n := WordLen(t);
      assert n >= 1;
      var w := t[..n];
      assert IsWord(w) by {
        assert forall k :: 0 <= k < |w| ==> w[k] == t[k];
      }
      var rest := Words(t[n..]);
      assert forall x :: x in [w] + rest ==> x == w || x in rest;
      [w] + rest
  }

  /** `set(s.split())`. */
  function WordSet(s: string): set<string> {
    set w | w in Words(s)
  }

  /** A word followed by whitespace or nothing is one run. */
  lemma {:induction false} WordLenOf(w: string, rest: string)
    requires IsWord(w)
    requires |rest| == 0 || IsSpace(rest[0])
    ensures WordLen(w + rest) == |w|
    decreases |w|
  {
    assert (w + rest)[0] == w[0] && (w + rest)[1..] == w[1..] + rest;
    if |w| == 1 {
      assert w[1..] + rest == rest;
    } else {
      WordLenOf(w[1..], rest);
    }
  }

  lemma StripLeftAtWord(s: string)
    requires |s| > 0 && !IsSpace(s[0])
    ensures StripLeft(s) == s
  {
  }

  /** Splitting ignores leading whitespace. */
  lemma WordsStripLeft(s: string)
    ensures Words(StripLeft(s)) == Words(s)
  {
    var t := StripLeft(s);
    if |t| > 0 {
      StripLeftAtWord(t);
    }
  }

  /** Whitespace before a word is skipped. */
  lemma WordsAfterSpace(c: char, t: string)
    requires IsSpace(c) && |t| > 0 && !IsSpace(t[0])
    ensures Words([c] + t) == Words(t)
  {
    assert ([c] + t)[1..] == t;
    StripLeftAtWord(t);
    assert StripLeft([c] + t) == t;
    WordsStripLeft([c] + t);
  }

  /** A text beginning with a word splits into that word and the rest. */
  lemma WordsFirst(s: string)
    requires |s| > 0 && !IsSpace(s[0])
    ensures Words(s) == [s[..WordLen(s)]] + Words(s[WordLen(s)..])
  {
    StripLeftAtWord(s);
  }

  lemma JoinCons(w: string, ws: seq<string>, sep: string)
    requires |ws| > 0
    ensures Join([w] + ws, sep) == w + sep + Join(ws, sep)
  {
    assert ([w] + ws)[1..] == ws;
  }

  /** The text after the first word of a canonical text of several words:
      one space, then a canonical rest. */
  lemma CanonicalTail(s: string, n: nat)
    requires Canonical(s) && 0 < n < |s| && s[n] == ' '
    ensures Canonical(s[n + 1..]) && |s[n + 1..]| > 0 && !IsSpace(s[n + 1])
  {
    var t := s[n + 1..];
    assert s[|s| - 1] != ' ';
    assert n + 1 < |s|;
    assert s[n + 1] != ' ';
    SliceSingleSpaced(s, n + 1, |s|);
    assert s[n + 1..|s|] == t;
    AlnumNotSpace(s[n + 1]);
  }

  /** A text beginning with a word followed by whitespace and a second
      word splits into the first word and the words from the second on. */
  lemma WordsTail(s: string, n: nat)
    requires 0 < n < |s| - 1 && !IsSpace(s[0]) && n == WordLen(s)
    requires IsSpace(s[n]) && !IsSpace(s[n + 1])
    ensures Words(s) == [s[..n]] + Words(s[n + 1..])
  {
    WordsFirst(s);
    var t := s[n + 1..];
    assert s[n..] == [s[n]] + t;
    WordsAfterSpace(s[n], t);
    assert Words(s[n..]) == Words(t);
  }

  lemma JoinSplit(s: string, n: nat, ws: seq<string>)
    requires n < |s| && s[n] == ' ' && |ws| > 0 && Join(ws, " ") == s[n + 1..]
    ensures Join([s[..n]] + ws, " ") == s
  {
    JoinCons(s[..n], ws, " ");
    assert s == s[..n] + " " + s[n + 1..];
  }

  /** A canonical text is its words joined by single spaces. */
  lemma {:induction false} WordsJoin(s: string)
    requires Canonical(s)
    ensures Join(Words(s), " ") == s
    decreases |s|
  {
    if |s| > 0 {
      AlnumNotSpace(s[0]);
      WordsFirst(s);
      var n := WordLen(s);
      if n == |s| {
        assert s[..n] == s && s[n..] == [];
      } else {
        assert IsSpace(s[n]) && (IsAlnum(s[n]) || s[n] == ' ');
        CanonicalTail(s, n);
        WordsTail(s, n);
        WordsJoin(s[n + 1..]);
        JoinSplit(s, n, Words(s[n + 1..]));
      }
    }
  }

  /** A single word splits into itself. */
  lemma WordsOfWord(w: string)
    requires IsWord(w)
    ensures Words(w) == [w]
  {
    WordsFirst(w);
    WordLenOf(w, "");
    assert w + "" == w && w[..|w|] == w && w[|w|..] == "";
  }

  /** A word, one whitespace character and a text starting with a word. */
  lemma WordsOfWordThen(w: string, c: char, j: string)
    requires IsWord(w) && IsSpace(c) && |j| > 0 && !IsSpace(j[0])
    ensures Words(w + [c] + j) == [w] + Words(j)
  {
    var s := w + [c] + j;
    WordThenSplit(w, c, j);
    WordsFirst(s);
    WordsAfterSpace(c, j);
  }

  lemma WordThenSplit(w: string, c: char, j: string)
    requires IsWord(w) && IsSpace(c)
    ensures var s := w + [c] + j;
      && |s| > 0 && !IsSpace(s[0]) && WordLen(s) == |w|
      && s[..|w|] == w && s[|w|..] == [c] + j
  {
    var s := w + [c] + j;
    assert s[0] == w[0];
    WordLenOf(w, [c] + j);
    assert w + ([c] + j) == s;
  }

  /** Splitting a single-spaced join of words gives the words back. */
  lemma {:induction false} JoinWords(ws: seq<string>)
    requires forall w :: w in ws ==> IsWord(w)
    ensures Words(Join(ws, " ")) == ws
    decreases |ws|
  {
    if |ws| == 1 {
      assert ws[0] in ws;
      WordsOfWord(ws[0]);
    } else if |ws| > 1 {
      assert forall v :: v in ws[1..] ==> v in ws;
      JoinWords(ws[1..]);
      assert ws[0] in ws && ws[1] in ws;
      JoinWordsStep(ws);
    }
  }

  lemma JoinWordsStep(ws: seq<string>)
    requires |ws| > 1 && IsWord(ws[0]) && IsWord(ws[1])
    requires Words(Join(ws[1..], " ")) == ws[1..]
    ensures Words(Join(ws, " ")) == ws
  {
    JoinUncons(ws);
    JoinHead(ws[1..], " ");
    WordsCons(ws[0], ws[1..], Join(ws[1..], " "));
    assert ws == [ws[0]] + ws[1..];
  }

  lemma WordsCons(w: string, rest: seq<string>, j: string)
    requires IsWord(w) && |j| > 0 && !IsSpace(j[0]) && Words(j) == rest
    ensures Words(w + [' '] + j) == [w] + rest
  {
    WordsOfWordThen(w, ' ', j);
  }

  lemma JoinUncons(ws: seq<string>)
    requires |ws| > 1
    ensures Join(ws, " ") == ws[0] + [' '] + Join(ws[1..], " ")
  {
  }

  /** A join begins with its first element. */
  lemma JoinHead(xs: seq<string>, sep: string)
    requires |xs| > 0 && |xs[0]| > 0
    ensures |Join(xs, sep)| > 0 && Join(xs, sep)[0] == xs[0][0]
  {
  }

  /** `sep.join(xs)`. */
  function Join(xs: seq<string>, sep: string): (r: string)
    ensures |xs| == 0 ==> r == ""
    ensures |xs| > 0 ==> |r| == SumLen(xs) + (|xs| - 1) * |sep|
  {
    if |xs| == 0 then ""
    else if |xs| == 1 then xs[0]
    else
      SumLenCons(xs[0], xs[1..]);
      assert xs == [xs[0]] + xs[1..];
      xs[0] + sep + Join(xs[1..], sep)
  }

  /** Every element of a join is found in it. */
  lemma {:induction false} JoinContains(xs: seq<string>, sep: string, i: int)
    requires 0 <= i < |xs|
    ensures Contains(Join(xs, sep), xs[i])
    decreases |xs|
  {
    if |xs| == 1 {
      ContainsMiddle("", xs[0], "");
      assert "" + xs[0] + "" == xs[0];
    } else if i == 0 {
      ContainsMiddle("", xs[0], sep + Join(xs[1..], sep));
      assert "" + xs[0] + (sep + Join(xs[1..], sep)) == Join(xs, sep);
    } else {
      JoinContains(xs[1..], sep, i - 1);
      ContainsMiddle(xs[0] + sep, Join(xs[1..], sep), "");
      assert xs[0] + sep + Join(xs[1..], sep) + "" == Join(xs, sep);
      ContainsTrans(Join(xs, sep), Join(xs[1..], sep), xs[i]);
    }
  }

  /** Total length of a sequence of strings. */
  function SumLen(xs: seq<string>): nat {
    if |xs| == 0 then 0 else SumLen(xs[..|xs| - 1]) + |xs[|xs| - 1]|
  }

  lemma {:induction false} SumLenCons(x: string, xs: seq<string>)
    ensures SumLen([x] + xs) == |x| + SumLen(xs)
    decreases |xs|
  {
    if |xs| > 0 {
      assert ([x] + xs)[..|xs|] == [x] + xs[..|xs| - 1];
      SumLenCons(x, xs[..|xs| - 1]);
    }
  }

  /** `str(n)` for a natural number. */
  function NatToString(n: nat): (r: string)
    ensures |r| > 0
    ensures forall i :: 0 <= i < |r| ==> '0' <= r[i] <= '9'
  {
    var d := [(48 + n % 10) as char];
    if n < 10 then d else NatToString(n / 10) + d
  }

  /** Replace every occurrence of character `a` by `b`. */
  function ReplaceChar(s: string, a: char, b: char): string {
    seq(|s|, i requires 0 <= i < |s| => if s[i] == a then b else s[i])
  }

  /** `slugify_title`: the normal form with spaces turned into underscores.
      The slug holds only `[a-z0-9_]`. */
  function SlugifyTitle(title: string): (slug: string)
    ensures forall i :: 0 <= i < |slug| ==> IsAlnum(slug[i]) || slug[i] == '_'
  {
    ReplaceChar(NormText(title), ' ', '_')
  }

  lemma UnderscoreRoundTrip(n: string)
    requires Canonical(n)
    ensures ReplaceChar(ReplaceChar(n, ' ', '_'), '_', ' ') == n
  {
    var r := ReplaceChar(ReplaceChar(n, ' ', '_'), '_', ' ');
    assert forall i :: 0 <= i < |n| ==> r[i] == n[i];
  }

  /** The slug loses nothing: turning underscores back into spaces recovers
      the normal form, so two titles share a slug exactly when they share a
      normal form. */
  lemma SlugRoundTrip(a: string, b: string)
    ensures ReplaceChar(SlugifyTitle(a), '_', ' ') == NormText(a)
    ensures SlugifyTitle(a) == SlugifyTitle(b) <==> NormText(a) == NormText(b)
  {
    UnderscoreRoundTrip(NormText(a));
    UnderscoreRoundTrip(NormText(b));
  }
}
