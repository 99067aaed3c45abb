/** Text cleaning of `scrape_directors.py`: `_clean_text` (lines 66-74, which
    `_clean_fragment` forwards to unchanged) and `_finalize_list` (lines 81-87).

    `_clean_text` is a pipeline of regular-expression substitutions; each stage is
    modelled by its own recursive function that scans the string left to right the
    way `re.sub` does. `IsClean` describes what a cleaned string looks like, and the
    two facts "the output is clean" and "clean text is left alone" give idempotence. */
module Clean {
  import opened Strings
  import opened Results

  // ---------------------------------------------------------------------------
  // Shapes of text
  // ---------------------------------------------------------------------------

  /** The characters lines 69-70 rewrite: no-break space, zero-width space,
      newline and the middle dot. */
  predicate IsSpecial(c: char) {
    c == '\U{00A0}' || c == '\U{200B}' || c == '\n' || c == '\U{00B7}'
  }

  predicate NoSpecials(s: seq<char>) {
    forall i :: 0 <= i < |s| ==> !IsSpecial(s[i])
  }

  /** Every character of `r` already occurs in `s`. */
  predicate Within(r: seq<char>, s: seq<char>) {
    forall c :: c in r ==> c in s
  }

  /** The only whitespace left is the plain space. */
  predicate OnlyPlainSpaces(s: seq<char>) {
    forall i :: 0 <= i < |s| && IsSpace(s[i]) ==> s[i] == ' '
  }

  predicate NoDoubleSpace(s: seq<char>) {
    forall i :: 0 <= i < |s| - 1 ==> !(IsSpace(s[i]) && IsSpace(s[i + 1]))
  }

  /** A separator character: what `;\s*` consumes. */
  predicate IsSep(c: char) {
    c == ';' || IsSpace(c)
  }

  /** Every `;` is followed by exactly one space and then by something that is
      neither a separator nor more whitespace (or by the end of the text). */
  predicate WellSeparated(s: seq<char>) {
    forall i :: 0 <= i < |s| && s[i] == ';' ==>
      i + 1 < |s| && s[i + 1] == ' ' && (i + 2 < |s| ==> !IsSep(s[i + 2]))
  }

  /** Like `WellSeparated`, and the character after the space always exists. */
  predicate SeparatorsInside(s: seq<char>) {
    forall i :: 0 <= i < |s| && s[i] == ';' ==>
      i + 2 < |s| && s[i + 1] == ' ' && !IsSep(s[i + 2])
  }

  /** No `[` can start a citation: it is closed at once or never closed. */
  predicate BracketsInert(s: seq<char>) {
    forall i :: 0 <= i < |s| && s[i] == '[' ==>
      (i + 1 < |s| && s[i + 1] == ']') || ']' !in s[i + 1..]
  }

  /** Neither end of `s` is one of the characters in `cs`. */
  predicate TrimmedBy(s: seq<char>, cs: set<char>) {
    |s| > 0 ==> s[0] !in cs && s[|s| - 1] !in cs
  }

  /** The characters `_clean_text` strips from both ends (line 74). */
  const CleanEnds: set<char> := {' ', ';', ',', '\n'}

  /** The characters `_finalize_list` strips from both ends (line 87). */
  const ListEnds: set<char> := {' ', ';', ','}

  /** What every output of `CleanText` looks like. */
  predicate IsClean(t: seq<char>) {
    && NoSpecials(t)
    && OnlyPlainSpaces(t)
    && NoDoubleSpace(t)
    && WellSeparated(t)
    && BracketsInert(t)
    && TrimmedBy(t, CleanEnds)
  }

  // ---------------------------------------------------------------------------
  // Stage 1: character replacements (lines 69-70)
  // ---------------------------------------------------------------------------

  function SpecialReplacement(c: char): seq<char> {
    if c == '\U{00A0}' || c == '\n' then " "
    else if c == '\U{200B}' then ""
    else if c == '\U{00B7}' then ";"
    else [c]
  }

  /** The four `str.replace` calls; each maps single characters, so together they
      rewrite character by character. */
  function ReplaceSpecials(s: seq<char>): (r: seq<char>)
    ensures NoSpecials(r)
    ensures Within(r, s + " ;")
    ensures NoSpecials(s) ==> r == s
  {
    if |s| == 0 then []
    else SpecialReplacement(s[0]) + ReplaceSpecials(s[1..])
  }

  // ---------------------------------------------------------------------------
  // Stage 2: `CITATION_RE.sub("", text)` with `CITATION_RE = \s*\[[^\]]+\]`
  // ---------------------------------------------------------------------------

  /** Length of the longest all-whitespace prefix (a greedy `\s*`). */
  function SpaceRun(s: seq<char>): (n: nat)
    ensures n <= |s|
    ensures forall i :: 0 <= i < n ==> IsSpace(s[i])
    ensures n < |s| ==> !IsSpace(s[n])
  {
    if |s| > 0 && IsSpace(s[0]) then 1 + SpaceRun(s[1..]) else 0
  }

  /** Position of the first occurrence of `c` in `s`. */
  function FindChar(s: seq<char>, c: char): (r: Option<nat>)
    ensures r.Some? ==> r.value < |s| && s[r.value] == c && c !in s[..r.value]
    ensures r.None? ==> c !in s
  {
    if |s| == 0 then None
    else if s[0] == c then Some(0)
    else match FindChar(s[1..], c)
      case None => None
      case Some(k) => Some(k + 1)
  }

  /** Length of the `CITATION_RE` match that starts at the front of `s`, if any:
      whitespace, `[`, one or more characters other than `]`, then `]`. Since
      `[^\]]+` cannot pass a `]`, the match closes at the first `]`. */
  function CitationAt(s: seq<char>): (m: Option<nat>)
    ensures m.Some? ==> 0 < m.value <= |s|
    ensures m.Some? ==>
      var w := SpaceRun(s);
      w + 3 <= m.value && s[w] == '[' && s[m.value - 1] == ']'
      && ']' !in s[w + 1..m.value - 1]
  {
    var w := SpaceRun(s);
    if w < |s| && s[w] == '[' then
      match FindChar(s[w + 1..], ']')
      case Some(k) => if k >= 1 then Some(w + k + 2) else None
      case None => None
    else None
  }

  /** `re.sub` tries the pattern at each position from the left and resumes
      after each match. */
  function StripCitations(s: seq<char>): (r: seq<char>)
    ensures Within(r, s)
    ensures |s| > 0 && !IsSpace(s[0]) && s[0] != '[' ==> |r| > 0 && r[0] == s[0]
    decreases |s|
  {
    if |s| == 0 then []
    else match CitationAt(s)
      case Some(n) => StripCitations(s[n..])
      case None => [s[0]] + StripCitations(s[1..])
  }

  // ---------------------------------------------------------------------------
  // Stage 3: `re.sub(r"\s+", " ", text)`
  // ---------------------------------------------------------------------------

  function CollapseSpaces(s: seq<char>): (r: seq<char>)
    ensures Within(r, s + " ")
    ensures OnlyPlainSpaces(r)
    ensures |s| > 0 ==> |r| > 0 && r[0] == (if IsSpace(s[0]) then ' ' else s[0])
    decreases |s|
  {
    if |s| == 0 then []
    else if IsSpace(s[0]) then " " + CollapseSpaces(s[SpaceRun(s)..])
    else [s[0]] + CollapseSpaces(s[1..])
  }

  // ---------------------------------------------------------------------------
  // Stage 4: `(?:;\s*)+` -> "; " (line 73), and `(;\s*){2,}` -> "; " (line 86)
  // ---------------------------------------------------------------------------

  /** Length of the longest prefix made of `;` and whitespace. Starting at a `;`,
      this is exactly what a greedy `(;\s*)+` consumes. */
  function SepRun(s: seq<char>): (n: nat)
    ensures n <= |s|
    ensures forall i :: 0 <= i < n ==> IsSep(s[i])
    ensures n < |s| ==> !IsSep(s[n])
  {
    if |s| > 0 && IsSep(s[0]) then 1 + SepRun(s[1..]) else 0
  }

  function Semicolons(s: seq<char>): nat {
    if |s| == 0 then 0 else (if s[0] == ';' then 1 else 0) + Semicolons(s[1..])
  }

  /** Replaces every maximal run of `;` and whitespace that starts with `;` and
      holds at least `minSemis` semicolons by `"; "`. With `minSemis == 1` this is
      `(?:;\s*)+`, with `minSemis == 2` it is `(;\s*){2,}`. */
  function CollapseSeparators(s: seq<char>, minSemis: nat): (r: seq<char>)
    ensures Within(r, s + "; ")
    ensures |s| > 0 ==> |r| > 0 && r[0] == s[0]
    decreases |s|
  {
    if |s| == 0 then []
    else if s[0] == ';' && Semicolons(s[..SepRun(s)]) >= minSemis then
      "; " + CollapseSeparators(s[SepRun(s)..], minSemis)
    else [s[0]] + CollapseSeparators(s[1..], minSemis)
  }

  // ---------------------------------------------------------------------------
  // Stage 5: `str.strip(chars)`
  // ---------------------------------------------------------------------------

  /** Number of leading characters in `cs`. */
  function Lead(s: seq<char>, cs: set<char>): (n: nat)
    ensures n <= |s|
    ensures forall i :: 0 <= i < n ==> s[i] in cs
    ensures n < |s| ==> s[n] !in cs
  {
    if |s| > 0 && s[0] in cs then 1 + Lead(s[1..], cs) else 0
  }

  /** Number of trailing characters in `cs`. */
  function Trail(s: seq<char>, cs: set<char>): (n: nat)
    ensures n <= |s|
    ensures forall i :: |s| - n <= i < |s| ==> s[i] in cs
    ensures n < |s| ==> s[|s| - 1 - n] !in cs
  {
    if |s| > 0 && s[|s| - 1] in cs then 1 + Trail(s[..|s| - 1], cs) else 0
  }

  /** `s.strip(cs)`: what is left between the leading and trailing runs of `cs`. */
  function Trim(s: seq<char>, cs: set<char>): (r: seq<char>)
    ensures TrimmedBy(r, cs)
    ensures Within(r, s)
    ensures TrimmedBy(s, cs) ==> r == s
    ensures (forall i :: 0 <= i < |s| ==> s[i] in cs) ==> r == []
  {
    var a := Lead(s, cs);
    var b := |s| - Trail(s, cs);
    if a <= b then s[a..b] else []
  }

  // ---------------------------------------------------------------------------
  // The two operations
  // ---------------------------------------------------------------------------

  /** `_clean_text` (and `_clean_fragment`, which only forwards to it). */
  function CleanText(value: seq<char>): seq<char> {
    if |value| == 0 then []
    else Trim(CollapseSeparators(CollapseSpaces(StripCitations(ReplaceSpecials(value))), 1), CleanEnds)
  }

  /** The non-empty cleaned parts, in order: the comprehension on line 82. */
  function CleanedItems(parts: seq<seq<char>>): (items: seq<seq<char>>)
    ensures |items| <= |parts|
    ensures forall i :: 0 <= i < |items| ==> |items[i]| > 0
  {
    if |parts| == 0 then []
    else if |CleanText(parts[0])| == 0 then CleanedItems(parts[1..])
    else [CleanText(parts[0])] + CleanedItems(parts[1..])
  }

  /** `_finalize_list`. */
  function FinalizeList(parts: seq<seq<char>>): seq<char> {
    var items := CleanedItems(parts);
    if |items| == 0 then []
    else Trim(CollapseSeparators(Join("; ", items), 2), ListEnds)
  }

  // ---------------------------------------------------------------------------
  // Building blocks: extending a string by one character, taking a suffix
  // ---------------------------------------------------------------------------

  lemma {:induction false} ConsNoDouble(c: char, rest: seq<char>)
    requires NoDoubleSpace(rest)
    requires IsSpace(c) && |rest| > 0 ==> !IsSpace(rest[0])
    ensures NoDoubleSpace([c] + rest)
  {
    var s := [c] + rest;
    forall i | 0 <= i < |s| - 1
      ensures !(IsSpace(s[i]) && IsSpace(s[i + 1]))
    {
      if i > 0 {
        assert s[i] == rest[i - 1] && s[i + 1] == rest[i];
      }
    }
  }

  lemma {:induction false} ConsInert(c: char, rest: seq<char>)
    requires BracketsInert(rest)
    requires c == '[' ==> (|rest| > 0 && rest[0] == ']') || ']' !in rest
    ensures BracketsInert([c] + rest)
  {
    var s := [c] + rest;
    forall i | 0 <= i < |s| && s[i] == '['
      ensures (i + 1 < |s| && s[i + 1] == ']') || ']' !in s[i + 1..]
    {
      if i > 0 {
        assert s[i] == rest[i - 1];
        assert s[i + 1..] == rest[i..];
      } else {
        assert s[1..] == rest;
      }
    }
  }

  lemma {:induction false} ConsWellSeparated(c: char, rest: seq<char>)
    requires WellSeparated(rest)
    requires c == ';' ==> |rest| > 0 && rest[0] == ' ' && (|rest| > 1 ==> !IsSep(rest[1]))
    ensures WellSeparated([c] + rest)
  {
    var s := [c] + rest;
    forall i | 0 <= i < |s| && s[i] == ';'
      ensures i + 1 < |s| && s[i + 1] == ' ' && (i + 2 < |s| ==> !IsSep(s[i + 2]))
    {
      if i > 0 {
        assert s[i] == rest[i - 1];
      }
    }
  }

  /** Each shape predicate survives dropping a prefix. */
  lemma {:induction false} SuffixKeeps(s: seq<char>, k: nat)
    requires k <= |s|
    ensures NoSpecials(s) ==> NoSpecials(s[k..])
    ensures OnlyPlainSpaces(s) ==> OnlyPlainSpaces(s[k..])
    ensures NoDoubleSpace(s) ==> NoDoubleSpace(s[k..])
    ensures WellSeparated(s) ==> WellSeparated(s[k..])
    ensures BracketsInert(s) ==> BracketsInert(s[k..])
  {
    var t := s[k..];
    if BracketsInert(s) {
      forall i | 0 <= i < |t| && t[i] == '['
        ensures (i + 1 < |t| && t[i + 1] == ']') || ']' !in t[i + 1..]
      {
        assert t[i] == s[k + i];
        assert t[i + 1..] == s[k + i + 1..];
      }
    }
    if WellSeparated(s) {
      forall i | 0 <= i < |t| && t[i] == ';'
        ensures i + 1 < |t| && t[i + 1] == ' ' && (i + 2 < |t| ==> !IsSep(t[i + 2]))
      {
        assert t[i] == s[k + i];
      }
    }
    if NoDoubleSpace(s) {
      forall i | 0 <= i < |t| - 1
        ensures !(IsSpace(t[i]) && IsSpace(t[i + 1]))
      {
        assert t[i] == s[k + i] && t[i + 1] == s[k + i + 1];
      }
    }
  }

  lemma {:induction false} WellSeparatedSuffix(s: seq<char>, k: nat)
    requires k <= |s| && WellSeparated(s)
    ensures WellSeparated(s[k..])
  {
    var t := s[k..];
    forall i | 0 <= i < |t| && t[i] == ';'
      ensures i + 1 < |t| && t[i + 1] == ' ' && (i + 2 < |t| ==> !IsSep(t[i + 2]))
    {
      assert t[i] == s[k + i];
    }
  }

  lemma {:induction false} WithinKeeps(r: seq<char>, s: seq<char>, extra: seq<char>)
    requires Within(r, s + extra)
    ensures NoSpecials(s) && NoSpecials(extra) ==> NoSpecials(r)
    ensures OnlyPlainSpaces(s) && OnlyPlainSpaces(extra) ==> OnlyPlainSpaces(r)
  {
    var u := s + extra;
    forall i | 0 <= i < |r|
      ensures exists j :: 0 <= j < |u| && u[j] == r[i]
    {
      assert r[i] in r;
    }
    if NoSpecials(s) && NoSpecials(extra) {
      assert NoSpecials(u) by {
        forall j | 0 <= j < |u| ensures !IsSpecial(u[j]) {
          if j >= |s| { assert u[j] == extra[j - |s|]; }
        }
      }
    }
    if OnlyPlainSpaces(s) && OnlyPlainSpaces(extra) {
      assert OnlyPlainSpaces(u) by {
        forall j | 0 <= j < |u| && IsSpace(u[j]) ensures u[j] == ' ' {
          if j >= |s| { assert u[j] == extra[j - |s|]; }
        }
      }
    }
  }

  // ---------------------------------------------------------------------------
  // Stage by stage
  // ---------------------------------------------------------------------------

  /** Text whose brackets are inert has no citation at its front. */
  lemma {:induction false} InertNoCitationHere(s: seq<char>)
    requires BracketsInert(s)
    ensures CitationAt(s).None?
  {
    var w := SpaceRun(s);
    if w < |s| && s[w] == '[' && w + 1 < |s| && s[w + 1] == ']' {
      assert FindChar(s[w + 1..], ']') == Some(0);
    }
  }

  /** After citation stripping, no `[` can open a citation any more. */
  lemma {:induction false} StripCitationsInert(s: seq<char>)
    ensures BracketsInert(StripCitations(s))
    decreases |s|
  {
    if |s| > 0 {
      match CitationAt(s)
      case Some(n) =>
        StripCitationsInert(s[n..]);
      case None =>
        var rest := StripCitations(s[1..]);
        StripCitationsInert(s[1..]);
        if s[0] == '[' {
          assert SpaceRun(s) == 0;
          match FindChar(s[1..], ']')
          case None =>
            assert ']' !in rest;
          case Some(k) =>
            assert k == 0;
        }
        ConsInert(s[0], rest);
    }
  }

  /** Stripping leaves citation-free text unchanged. */
  lemma {:induction false} StripCitationsIdentity(s: seq<char>)
    requires BracketsInert(s)
    ensures StripCitations(s) == s
    decreases |s|
  {
    if |s| > 0 {
      InertNoCitationHere(s);
      SuffixKeeps(s, 1);
      StripCitationsIdentity(s[1..]);
    }
  }

  lemma {:induction false} CollapseSpacesNoDouble(s: seq<char>)
    ensures NoDoubleSpace(CollapseSpaces(s))
    decreases |s|
  {
    if |s| > 0 {
      if IsSpace(s[0]) {
        var n := SpaceRun(s);
        CollapseSpacesNoDouble(s[n..]);
        ConsNoDouble(' ', CollapseSpaces(s[n..]));
      } else {
        CollapseSpacesNoDouble(s[1..]);
        ConsNoDouble(s[0], CollapseSpaces(s[1..]));
      }
    }
  }

  lemma {:induction false} CollapseSpacesInert(s: seq<char>)
    requires BracketsInert(s)
    ensures BracketsInert(CollapseSpaces(s))
    decreases |s|
  {
    if |s| > 0 {
      if IsSpace(s[0]) {
        var n := SpaceRun(s);
        SuffixKeeps(s, n);
        CollapseSpacesInert(s[n..]);
        ConsInert(' ', CollapseSpaces(s[n..]));
      } else {
        SuffixKeeps(s, 1);
        CollapseSpacesInert(s[1..]);
        var rest := CollapseSpaces(s[1..]);
        if s[0] == '[' && !(|s| > 1 && s[1] == ']') {
          assert ']' !in s[1..];
          assert ']' !in rest;
        }
        ConsInert(s[0], rest);
      }
    }
  }

  lemma {:induction false} CollapseSpacesIdentity(s: seq<char>)
    requires OnlyPlainSpaces(s) && NoDoubleSpace(s)
    ensures CollapseSpaces(s) == s
    decreases |s|
  {
    if |s| > 0 {
      if IsSpace(s[0]) {
        assert SpaceRun(s) == 1 by {
          if |s| > 1 { assert !IsSpace(s[1]); }
        }
      }
      SuffixKeeps(s, 1);
      CollapseSpacesIdentity(s[1..]);
    }
  }

  /** Where a long enough run of separators starts, the collapse writes `"; "`. */
  lemma {:induction false} CollapseRun(s: seq<char>, minSemis: nat)
    requires |s| > 0 && s[0] == ';' && Semicolons(s[..SepRun(s)]) >= minSemis
    ensures CollapseSeparators(s, minSemis) == [';'] + ([' '] + CollapseSeparators(s[SepRun(s)..], minSemis))
  {
    assert "; " + CollapseSeparators(s[SepRun(s)..], minSemis)
      == [';'] + ([' '] + CollapseSeparators(s[SepRun(s)..], minSemis));
  }

  /** Everywhere else, the collapse copies one character. */
  lemma {:induction false} CollapseCopy(s: seq<char>, minSemis: nat)
    requires |s| > 0 && !(s[0] == ';' && Semicolons(s[..SepRun(s)]) >= minSemis)
    ensures CollapseSeparators(s, minSemis) == [s[0]] + CollapseSeparators(s[1..], minSemis)
  {
  }

  lemma {:induction false} CollapseSeparatorsNoDouble(s: seq<char>, minSemis: nat)
    requires NoDoubleSpace(s)
    ensures NoDoubleSpace(CollapseSeparators(s, minSemis))
    decreases |s|
  {
    if |s| > 0 {
      var n := SepRun(s);
      if s[0] == ';' && Semicolons(s[..n]) >= minSemis {
        var rest := CollapseSeparators(s[n..], minSemis);
        SuffixKeeps(s, n);
        CollapseSeparatorsNoDouble(s[n..], minSemis);
        ConsNoDouble(' ', rest);
        ConsNoDouble(';', [' '] + rest);
        CollapseRun(s, minSemis);
      } else {
        SuffixKeeps(s, 1);
        CollapseSeparatorsNoDouble(s[1..], minSemis);
        CollapseCopy(s, minSemis);
        if IsSpace(s[0]) && |s| > 1 {
          assert !IsSpace(s[1]);
        }
        ConsNoDouble(s[0], CollapseSeparators(s[1..], minSemis));
      }
    }
  }

  lemma {:induction false} CollapseSeparatorsInert(s: seq<char>, minSemis: nat)
    requires BracketsInert(s)
    ensures BracketsInert(CollapseSeparators(s, minSemis))
    decreases |s|
  {
    if |s| > 0 {
      var n := SepRun(s);
      if s[0] == ';' && Semicolons(s[..n]) >= minSemis {
        var rest := CollapseSeparators(s[n..], minSemis);
        SuffixKeeps(s, n);
        CollapseSeparatorsInert(s[n..], minSemis);
        ConsInert(' ', rest);
        ConsInert(';', [' '] + rest);
        CollapseRun(s, minSemis);
      } else {
        var rest := CollapseSeparators(s[1..], minSemis);
        SuffixKeeps(s, 1);
        CollapseSeparatorsInert(s[1..], minSemis);
        CollapseCopy(s, minSemis);
        if s[0] == '[' && !(|s| > 1 && s[1] == ']') {
          assert ']' !in s[1..];
          assert ']' !in rest;
        }
        ConsInert(s[0], rest);
      }
    }
  }

  /** After `(?:;\s*)+` has been collapsed, every `;` is followed by one space. */
  lemma {:induction false} CollapseSeparatorsSpaced(s: seq<char>)
    ensures WellSeparated(CollapseSeparators(s, 1))
    decreases |s|
  {
    if |s| > 0 {
      var n := SepRun(s);
      if s[0] == ';' {
        assert Semicolons(s[..n]) >= 1;
        var rest := CollapseSeparators(s[n..], 1);
        CollapseSeparatorsSpaced(s[n..]);
        ConsWellSeparated(' ', rest);
        ConsWellSeparated(';', [' '] + rest);
        assert "; " + rest == [';'] + ([' '] + rest);
      } else {
        CollapseSeparatorsSpaced(s[1..]);
        ConsWellSeparated(s[0], CollapseSeparators(s[1..], 1));
      }
    }
  }

  /** In well-separated text the run at a `;` is just `"; "`. */
  lemma {:induction false} SeparatorRunAtFront(s: seq<char>)
    requires WellSeparated(s) && |s| > 0 && s[0] == ';'
    ensures SepRun(s) == 2 && s[..2] == "; " && Semicolons(s[..2]) == 1
  {
    assert IsSep(s[1]);
    assert SepRun(s[2..]) == 0 by {
      if |s| > 2 { assert !IsSep(s[2]); }
    }
    assert SepRun(s[1..]) == 1 + SepRun(s[1..][1..]);
    assert s[1..][1..] == s[2..];
    assert s[..2] == [';', ' '];
    assert Semicolons([' ']) == 0 by {
      assert [' '][1..] == [];
    }
    assert Semicolons([';', ' ']) == 1 + Semicolons([' ']) by {
      assert [';', ' '][1..] == [' '];
    }
  }

  /** At a `"; "` of well-separated text, the single-semicolon collapse writes
      that same `"; "` and moves on behind it. */
  lemma {:induction false} CollapseAtSeparator(s: seq<char>)
    requires WellSeparated(s) && |s| > 0 && s[0] == ';'
    ensures CollapseSeparators(s, 1) == s[..2] + CollapseSeparators(s[2..], 1)
  {
    SeparatorRunAtFront(s);
  }

  /** Anywhere else in well-separated text, the collapse copies one character. */
  lemma {:induction false} CollapseCopies(s: seq<char>, minSemis: nat)
    requires minSemis >= 1
    requires WellSeparated(s) && |s| > 0 && (s[0] == ';' ==> minSemis > 1)
    ensures CollapseSeparators(s, minSemis) == [s[0]] + CollapseSeparators(s[1..], minSemis)
  {
    if s[0] == ';' {
      SeparatorRunAtFront(s);
    }
  }

  /** Well-separated text has no run the collapse would change, for either threshold. */
  lemma {:induction false} CollapseSeparatorsIdentity(s: seq<char>, minSemis: nat)
    requires minSemis >= 1
    requires WellSeparated(s)
    ensures CollapseSeparators(s, minSemis) == s
    decreases |s|
  {
    if |s| > 0 {
      if s[0] == ';' && minSemis == 1 {
        WellSeparatedSuffix(s, 2);
        CollapseAtSeparator(s);
        CollapseSeparatorsIdentity(s[2..], minSemis);
        assert s[..2] + s[2..] == s;
      } else {
        WellSeparatedSuffix(s, 1);
        CollapseCopies(s, minSemis);
        CollapseSeparatorsIdentity(s[1..], minSemis);
        assert [s[0]] + s[1..] == s;
      }
    }
  }

  /** A slice keeps the character-wise shapes of its text. */
  lemma {:induction false} SliceChars(s: seq<char>, a: nat, b: nat)
    requires a <= b <= |s|
    ensures NoSpecials(s) ==> NoSpecials(s[a..b])
    ensures OnlyPlainSpaces(s) ==> OnlyPlainSpaces(s[a..b])
  {
    var t := s[a..b];
    assert forall i :: 0 <= i < |t| ==> t[i] == s[a + i];
  }

  /** A slice of text whose brackets are inert has inert brackets. */
  lemma {:induction false} SliceInert(s: seq<char>, a: nat, b: nat)
    requires a <= b <= |s| && BracketsInert(s)
    ensures BracketsInert(s[a..b])
  {
    var t := s[a..b];
    forall i | 0 <= i < |t| && t[i] == '['
      ensures (i + 1 < |t| && t[i + 1] == ']') || ']' !in t[i + 1..]
    {
      assert t[i] == s[a + i];
      if !(a + i + 1 < |s| && s[a + i + 1] == ']') {
        assert ']' !in s[a + i + 1..];
        assert t[i + 1..] == s[a + i + 1..b];
      }
    }
  }

  /** A slice of text without doubled whitespace has none either. */
  lemma {:induction false} SliceNoDouble(s: seq<char>, a: nat, b: nat)
    requires a <= b <= |s| && NoDoubleSpace(s)
    ensures NoDoubleSpace(s[a..b])
  {
    var t := s[a..b];
    forall i | 0 <= i < |t| - 1
      ensures !(IsSpace(t[i]) && IsSpace(t[i + 1]))
    {
      assert t[i] == s[a + i] && t[i + 1] == s[a + i + 1];
    }
  }

  /** A well-separated slice that does not end in a separator keeps the space
      and the next character after each of its semicolons. */
  lemma {:induction false} SliceSeparated(s: seq<char>, a: nat, b: nat)
    requires a <= b <= |s| && WellSeparated(s)
    requires a < b ==> s[b - 1] != ';' && s[b - 1] != ' '
    ensures SeparatorsInside(s[a..b])
  {
    var t := s[a..b];
    forall i | 0 <= i < |t| && t[i] == ';'
      ensures i + 2 < |t| && t[i + 1] == ' ' && !IsSep(t[i + 2])
    {
      assert t[i] == s[a + i];
      assert i + 1 < |t|;
      assert t[i + 1] == s[a + i + 1];
      assert i + 2 < |t|;
      assert t[i + 2] == s[a + i + 2];
    }
  }

  /** Stripping the ends keeps every shape of the inside. */
  lemma {:induction false} TrimKeeps(s: seq<char>, cs: set<char>)
    ensures NoSpecials(s) ==> NoSpecials(Trim(s, cs))
    ensures OnlyPlainSpaces(s) ==> OnlyPlainSpaces(Trim(s, cs))
    ensures NoDoubleSpace(s) ==> NoDoubleSpace(Trim(s, cs))
    ensures BracketsInert(s) ==> BracketsInert(Trim(s, cs))
    ensures WellSeparated(s) && ';' in cs && ' ' in cs ==> SeparatorsInside(Trim(s, cs))
  {
    var a := Lead(s, cs);
    var b := |s| - Trail(s, cs);
    if a <= b {
      assert Trim(s, cs) == s[a..b];
      SliceKeeps(s, a, b, WellSeparated(s) && ';' in cs && ' ' in cs);
    }
  }

  /** The five shapes a slice keeps, the last one when the slice does not end
      in a separator. */
  lemma {:induction false} SliceKeeps(s: seq<char>, a: nat, b: nat, separated: bool)
    requires a <= b <= |s|
    requires separated ==> WellSeparated(s) && (a < b ==> s[b - 1] != ';' && s[b - 1] != ' ')
    ensures NoSpecials(s) ==> NoSpecials(s[a..b])
    ensures OnlyPlainSpaces(s) ==> OnlyPlainSpaces(s[a..b])
    ensures NoDoubleSpace(s) ==> NoDoubleSpace(s[a..b])
    ensures BracketsInert(s) ==> BracketsInert(s[a..b])
    ensures separated ==> SeparatorsInside(s[a..b])
  {
    SliceChars(s, a, b);
    if BracketsInert(s) {
      SliceInert(s, a, b);
    }
    if separated {
      SliceSeparated(s, a, b);
    }
    if NoDoubleSpace(s) {
      SliceNoDouble(s, a, b);
    }
  }

  // ---------------------------------------------------------------------------
  // Properties of `_clean_text`
  // ---------------------------------------------------------------------------

  /** Stripping the ends of well-separated text with single plain spaces
      gives clean text. */
  lemma {:induction false} TrimClean(r: seq<char>)
    requires NoSpecials(r) && OnlyPlainSpaces(r) && NoDoubleSpace(r)
    requires BracketsInert(r) && WellSeparated(r)
    ensures IsClean(Trim(r, CleanEnds))
  {
    TrimKeeps(r, CleanEnds);
    InsideIsSeparated(Trim(r, CleanEnds));
  }

  lemma {:induction false} InsideIsSeparated(s: seq<char>)
    requires SeparatorsInside(s)
    ensures WellSeparated(s)
  {
  }

  /** The last two stages turn text with single plain spaces into clean text. */
  lemma {:induction false} LastStagesClean(r3: seq<char>)
    requires NoSpecials(r3) && OnlyPlainSpaces(r3) && NoDoubleSpace(r3) && BracketsInert(r3)
    ensures IsClean(Trim(CollapseSeparators(r3, 1), CleanEnds))
  {
    var r4 := CollapseSeparators(r3, 1);
    CollapseSeparatorsNoDouble(r3, 1);
    CollapseSeparatorsInert(r3, 1);
    CollapseSeparatorsSpaced(r3);
    WithinKeeps(r4, r3, "; ");
    TrimClean(r4);
  }

  /** The last three stages turn text with inert brackets into clean text. */
  lemma {:induction false} SpacedStagesClean(r2: seq<char>)
    requires NoSpecials(r2) && BracketsInert(r2)
    ensures IsClean(Trim(CollapseSeparators(CollapseSpaces(r2), 1), CleanEnds))
  {
    var r3 := CollapseSpaces(r2);
    CollapseSpacesNoDouble(r2);
    CollapseSpacesInert(r2);
    WithinKeeps(r3, r2, " ");
    LastStagesClean(r3);
  }

  /** Every output of `_clean_text` has the clean shape: no special characters,
      single plain spaces, `"; "` separators, no citation, trimmed ends. */
  lemma {:induction false} CleanTextIsClean(value: seq<char>)
    ensures IsClean(CleanText(value))
  {
    if |value| > 0 {
      var r1 := ReplaceSpecials(value);
      var r2 := StripCitations(r1);
      StripCitationsInert(r1);
      WithinKeeps(r2, r1, []);
      assert r1 + [] == r1;
      SpacedStagesClean(r2);
    }
  }

  /** `_clean_text` leaves clean text alone. */
  lemma {:induction false} CleanTextFixesClean(t: seq<char>)
    requires IsClean(t)
    ensures CleanText(t) == t
  {
    if |t| > 0 {
      StripCitationsIdentity(t);
      CollapseSpacesIdentity(t);
      CollapseSeparatorsIdentity(t, 1);
    }
  }

  /** Cleaning twice is cleaning once. */
  lemma {:induction false} CleanTextIdempotent(value: seq<char>)
    ensures CleanText(CleanText(value)) == CleanText(value)
  {
    CleanTextIsClean(value);
    CleanTextFixesClean(CleanText(value));
  }

  /** No match of `CITATION_RE` is left anywhere in a cleaned string. */
  lemma {:induction false} CleanTextHasNoCitation(value: seq<char>)
    ensures forall i :: 0 <= i <= |CleanText(value)| ==> CitationAt(CleanText(value)[i..]).None?
  {
    var r := CleanText(value);
    CleanTextIsClean(value);
    forall i | 0 <= i <= |r|
      ensures CitationAt(r[i..]).None?
    {
      SuffixKeeps(r, i);
      InertNoCitationHere(r[i..]);
    }
  }

  lemma {:induction false} ReplaceSpecialsOfBlank(s: seq<char>)
    requires forall i :: 0 <= i < |s| ==> IsSpace(s[i])
    ensures forall i :: 0 <= i < |ReplaceSpecials(s)| ==> IsSpace(ReplaceSpecials(s)[i])
  {
    if |s| > 0 {
      ReplaceSpecialsOfBlank(s[1..]);
      var r := ReplaceSpecials(s);
      var h := SpecialReplacement(s[0]);
      assert r == h + ReplaceSpecials(s[1..]);
      assert forall i :: 0 <= i < |h| ==> IsSpace(h[i]);
    }
  }

  /** Empty and whitespace-only input cleans to the empty string. */
  lemma {:induction false} CleanTextOfBlank(value: seq<char>)
    requires forall i :: 0 <= i < |value| ==> IsSpace(value[i])
    ensures CleanText(value) == []
  {
    if |value| > 0 {
      var r1 := ReplaceSpecials(value);
      ReplaceSpecialsOfBlank(value);
      StripCitationsIdentity(r1);
      var r3 := CollapseSpaces(r1);
      assert forall i :: 0 <= i < |r3| ==> r3[i] == ' ' by {
        forall i | 0 <= i < |r3| ensures r3[i] == ' ' {
          assert r3[i] in r1 + " ";
        }
      }
      CollapseSeparatorsIdentity(r3, 1);
    }
  }

  // ---------------------------------------------------------------------------
  // Properties of `_finalize_list`
  // ---------------------------------------------------------------------------

  lemma {:induction false} CleanedItemsAreClean(parts: seq<seq<char>>)
    ensures forall i :: 0 <= i < |CleanedItems(parts)| ==> IsClean(CleanedItems(parts)[i])
  {
    if |parts| > 0 {
      CleanTextIsClean(parts[0]);
      CleanedItemsAreClean(parts[1..]);
    }
  }

  /** Line 83: the list is empty exactly when every part cleans to nothing. */
  lemma {:induction false} CleanedItemsEmpty(parts: seq<seq<char>>)
    ensures |CleanedItems(parts)| == 0 <==> forall i :: 0 <= i < |parts| ==> |CleanText(parts[i])| == 0
  {
    if |parts| > 0 {
      CleanedItemsEmpty(parts[1..]);
      assert forall i :: 1 <= i < |parts| ==> parts[i] == parts[1..][i - 1];
    }
  }

  lemma {:induction false} IsCleanInside(t: seq<char>)
    requires IsClean(t)
    ensures SeparatorsInside(t)
  {
    forall i | 0 <= i < |t| && t[i] == ';'
      ensures i + 2 < |t| && t[i + 1] == ' ' && !IsSep(t[i + 2])
    {
      assert i + 1 < |t|;
      assert i + 2 < |t|;
    }
  }

  lemma {:induction false} AppendWellSeparated(a: seq<char>, b: seq<char>)
    requires SeparatorsInside(a) && WellSeparated(b)
    ensures WellSeparated(a + b)
  {
    var s := a + b;
    forall i | 0 <= i < |s| && s[i] == ';'
      ensures i + 1 < |s| && s[i + 1] == ' ' && (i + 2 < |s| ==> !IsSep(s[i + 2]))
    {
      if i >= |a| {
        assert s[i] == b[i - |a|];
      }
    }
  }

  /** The `"; "`-join of non-empty items starts with the first item's first
      character and ends with the last item's last. */
  lemma {:induction false} JoinEnds(items: seq<seq<char>>)
    requires |items| > 0
    requires forall i :: 0 <= i < |items| ==> |items[i]| > 0
    ensures var j := Join("; ", items);
      && |j| > 0
      && j[0] == items[0][0]
      && j[|j| - 1] == items[|items| - 1][|items[|items| - 1]| - 1]
  {
    if |items| > 1 {
      var rest := items[1..];
      JoinEnds(rest);
      var jr := Join("; ", rest);
      var j := Join("; ", items);
      assert j == items[0] + "; " + jr;
      assert j[|j| - 1] == jr[|jr| - 1];
      assert rest[|rest| - 1] == items[|items| - 1];
    }
  }

  /** Joining with `"; "` adds no special character. */
  lemma {:induction false} JoinNoSpecials(items: seq<seq<char>>)
    requires forall i :: 0 <= i < |items| ==> NoSpecials(items[i])
    ensures NoSpecials(Join("; ", items))
  {
    if |items| > 1 {
      var rest := items[1..];
      JoinNoSpecials(rest);
      var jr := Join("; ", rest);
      var j := Join("; ", items);
      assert j == items[0] + "; " + jr;
      forall i | 0 <= i < |j| ensures !IsSpecial(j[i]) {
        if i >= |items[0]| + 2 {
          assert j[i] == jr[i - |items[0]| - 2];
        } else if i < |items[0]| {
          assert j[i] == items[0][i];
        }
      }
    }
  }

  /** Joining clean, non-empty items with `"; "` keeps every separator followed by
      one space and then a word. */
  lemma {:induction false} JoinWellSeparated(items: seq<seq<char>>)
    requires |items| > 0
    requires forall i :: 0 <= i < |items| ==> IsClean(items[i]) && |items[i]| > 0
    ensures WellSeparated(Join("; ", items))
  {
    assert IsClean(items[0]);
    if |items| > 1 {
      var rest := items[1..];
      JoinWellSeparated(rest);
      JoinEnds(rest);
      var jr := Join("; ", rest);
      assert !IsSep(jr[0]) by {
        assert jr[0] == items[1][0];
        assert IsClean(items[1]);
      }
      ConsWellSeparated(' ', jr);
      ConsWellSeparated(';', [' '] + jr);
      assert "; " + jr == [';'] + ([' '] + jr);
      IsCleanInside(items[0]);
      AppendWellSeparated(items[0], "; " + jr);
      assert Join("; ", items) == items[0] + ("; " + jr);
    }
  }

  /** The `"; "`-join of clean, non-empty items: its ends are the items' ends,
      it is well separated and holds no special character. */
  lemma {:induction false} JoinOfClean(items: seq<seq<char>>)
    requires |items| > 0
    requires forall i :: 0 <= i < |items| ==> IsClean(items[i]) && |items[i]| > 0
    ensures var j := Join("; ", items);
      && |j| > 0
      && j[0] == items[0][0]
      && j[|j| - 1] == items[|items| - 1][|items[|items| - 1]| - 1]
      && WellSeparated(j)
      && NoSpecials(j)
      && TrimmedBy(j, CleanEnds)
  {
    assert IsClean(items[0]) && IsClean(items[|items| - 1]);
    JoinEnds(items);
    JoinNoSpecials(items);
    JoinWellSeparated(items);
  }

  /** `_finalize_list` is the plain `"; "`-join of the non-empty cleaned parts:
      the `(;\s*){2,}` collapse and the final strip on lines 86-87 never fire. */
  lemma {:induction false} FinalizeListIsJoin(parts: seq<seq<char>>)
    ensures FinalizeList(parts) == Join("; ", CleanedItems(parts))
    ensures |FinalizeList(parts)| == 0 <==> forall i :: 0 <= i < |parts| ==> |CleanText(parts[i])| == 0
    ensures NoSpecials(FinalizeList(parts))
  {
    var items := CleanedItems(parts);
    CleanedItemsEmpty(parts);
    if |items| > 0 {
      CleanedItemsAreClean(parts);
      JoinOfClean(items);
      var j := Join("; ", items);
      CollapseSeparatorsIdentity(j, 2);
      assert TrimmedBy(j, ListEnds);
      assert FinalizeList(parts) == Trim(j, ListEnds) == j;
    }
  }

  /** Clean text plus one space keeps the character shapes of clean text. */
  lemma {:induction false} TrailingSpaceShapes(t: seq<char>)
    requires IsClean(t) && |t| > 0
    ensures NoSpecials(t + " ") && OnlyPlainSpaces(t + " ") && NoDoubleSpace(t + " ")
  {
    var p := t + " ";
    assert forall i :: 0 <= i < |t| ==> p[i] == t[i];
    assert !IsSpace(t[|t| - 1]);
  }

  /** Clean text plus one space still has inert brackets. */
  lemma {:induction false} TrailingSpaceInert(t: seq<char>)
    requires IsClean(t) && |t| > 0
    ensures BracketsInert(t + " ")
  {
    var p := t + " ";
    forall i | 0 <= i < |p| && p[i] == '['
      ensures (i + 1 < |p| && p[i + 1] == ']') || ']' !in p[i + 1..]
    {
      assert p[i] == t[i];
      if !(i + 1 < |t| && t[i + 1] == ']') {
        assert ']' !in t[i + 1..];
        assert p[i + 1..] == t[i + 1..] + " ";
      }
    }
  }

  /** A trailing space is all that cleaning removes from clean text plus a space. */
  lemma {:induction false} CleanTextDropsTrailingSpace(t: seq<char>)
    requires IsClean(t) && |t| > 0
    ensures CleanText(t + " ") == t
  {
    var p := t + " ";
    TrailingSpaceShapes(t);
    TrailingSpaceInert(t);
    assert ReplaceSpecials(p) == p;
    StripCitationsIdentity(p);
    assert StripCitations(p) == p;
    CollapseSpacesIdentity(p);
    assert CollapseSpaces(p) == p;
    assert CollapseSeparators(p, 1) == p by {
      IsCleanInside(t);
      AppendWellSeparated(t, " ");
      CollapseSeparatorsIdentity(p, 1);
    }
    assert Trim(p, CleanEnds) == t by {
      assert Lead(p, CleanEnds) == 0;
      assert Trail(p, CleanEnds) == 1 by {
        assert p[..|p| - 1] == t;
      }
      assert p[0..|t|] == t;
    }
  }

  /** ASCII letters only, at least one. */
  predicate IsWord(w: seq<char>) {
    |w| > 0 && forall i :: 0 <= i < |w| ==> 'A' <= w[i] <= 'Z' || 'a' <= w[i] <= 'z'
  }

  /** A word cleans to itself, with or without a trailing space. */
  lemma {:induction false} WordCleans(w: seq<char>)
    requires IsWord(w)
    ensures CleanText(w) == w && CleanText(w + " ") == w
  {
    assert IsClean(w);
    CleanTextFixesClean(w);
    CleanTextDropsTrailingSpace(w);
  }

  lemma {:induction false} CleanedItemsCons(p: seq<char>, rest: seq<seq<char>>)
    ensures CleanedItems([p] + rest)
         == (if |CleanText(p)| == 0 then [] else [CleanText(p)]) + CleanedItems(rest)
  {
    assert ([p] + rest)[1..] == rest;
  }

  lemma {:induction false} ExampleLast(producer: seq<char>)
    requires IsWord(producer)
    ensures CleanedItems([producer + " "]) == [producer]
  {
    WordCleans(producer);
    CleanedItemsCons(producer + " ", []);
    assert [producer + " "] == [producer + " "] + [];
  }

  lemma {:induction false} ExampleTail(producer: seq<char>)
    requires IsWord(producer)
    ensures CleanedItems(["", producer + " "]) == [producer]
  {
    ExampleLast(producer);
    CleanedItemsCons("", [producer + " "]);
    assert ["", producer + " "] == [""] + [producer + " "];
  }

  lemma {:induction false} ExampleItems(director: seq<char>, producer: seq<char>)
    requires IsWord(director) && IsWord(producer)
    ensures CleanedItems([director, "", producer + " "]) == [director, producer]
  {
    var tail := ["", producer + " "];
    assert [director, "", producer + " "] == [director] + tail;
    ExampleTail(producer);
    WordCleans(director);
    CleanedItemsCons(director, tail);
  }

  /** The pattern of the documented example `["Director", "", "Producer "]` ->
      `"Director; Producer"`, for any two words: the empty part is dropped, the
      trailing space is stripped, and the rest is joined with `"; "`. */
  lemma {:induction false} FinalizeListExample(director: seq<char>, producer: seq<char>)
    requires IsWord(director) && IsWord(producer)
    ensures FinalizeList([director, "", producer + " "]) == director + "; " + producer
  {
    ExampleItems(director, producer);
    FinalizeListIsJoin([director, "", producer + " "]);
    assert [director, producer][1..] == [producer];
  }
  lemma {:induction false} SingleItem(w: seq<char>)
    requires IsWord(w)
    ensures CleanedItems([w]) == [w]
  {
    WordCleans(w);
    CleanedItemsCons(w, []);
    assert [w] == [w] + [];
  }

  lemma {:induction false} PairItems(first: seq<char>, second: seq<char>)
    requires IsWord(first) && IsWord(second)
    ensures CleanedItems([first + " ", second]) == [first, second]
  {
    var tail := [second];
    assert [first + " ", second] == [first + " "] + tail;
    SingleItem(second);
    WordCleans(first);
    CleanedItemsCons(first + " ", tail);
  }

  /** Two text fragments such as those of `John <b>Ford</b>` become two list
      items: `"John; Ford"`. */
  lemma {:induction false} FinalizeListPair(first: seq<char>, second: seq<char>)
    requires IsWord(first) && IsWord(second)
    ensures FinalizeList([first + " ", second]) == first + "; " + second
  {
    PairItems(first, second);
    FinalizeListIsJoin([first + " ", second]);
    assert [first, second][1..] == [second];
  }

  // ---------------------------------------------------------------------------
  // Win-count cells
  // ---------------------------------------------------------------------------

  /** A string of digits is already clean. */
  lemma {:induction false} DigitsAreClean(d: seq<char>)
    requires AllDigits(d)
    ensures IsClean(d)
  {
  }

  /** Two runs of digits with one space between them are already clean. */
  lemma {:induction false} SpacedDigitsAreClean(a: seq<char>, b: seq<char>)
    requires AllDigits(a) && AllDigits(b) && |a| > 0 && |b| > 0
    ensures IsClean(a + " " + b)
  {
    var s := a + " " + b;
    assert forall i :: 0 <= i < |s| ==> (if i < |a| then s[i] == a[i] else if i == |a| then s[i] == ' ' else s[i] == b[i - |a| - 1]);
  }

  /** In `x + "]"` with no `]` in `x`, the first `]` is the last character. */
  lemma {:induction false} FindClosing(x: seq<char>)
    requires ']' !in x
    ensures FindChar(x + "]", ']') == Some(|x|)
  {
    var s := x + "]";
    assert s[|x|] == ']';
    assert forall i :: 0 <= i < |x| ==> s[i] == x[i];
  }

  /** A citation on its own is removed entirely. */
  lemma {:induction false} StripLoneCitation(x: seq<char>)
    requires |x| > 0 && ']' !in x
    ensures StripCitations("[" + x + "]") == []
  {
    var c := "[" + x + "]";
    assert c[0] == '[' && c[1..] == x + "]";
    FindClosing(x);
    assert SpaceRun(c) == 0;
    assert CitationAt(c) == Some(|c|);
    assert c[|c|..] == [];
  }

  /** No citation starts inside text without `[` that does not end in whitespace. */
  lemma {:induction false} NoCitationBefore(t: seq<char>, c: seq<char>)
    requires |t| > 0 && '[' !in t && !IsSpace(t[|t| - 1])
    ensures CitationAt(t + c).None?
  {
    var s := t + c;
    var w := SpaceRun(s);
    assert s[|t| - 1] == t[|t| - 1];
    assert s[w] == t[w];
  }

  /** A citation `[x]` after text without `[` that does not end in whitespace is
      removed, and only it. */
  lemma {:induction false} StripTrailingCitation(t: seq<char>, x: seq<char>)
    requires '[' !in t && (|t| > 0 ==> !IsSpace(t[|t| - 1]))
    requires |x| > 0 && ']' !in x
    ensures StripCitations(t + "[" + x + "]") == t
    decreases |t|
  {
    var c := "[" + x + "]";
    var s := t + c;
    assert s == t + "[" + x + "]";
    if |t| == 0 {
      assert s == c;
      StripLoneCitation(x);
    } else {
      NoCitationBefore(t, c);
      assert s[0] == t[0] && s[1..] == t[1..] + c;
      assert t[1..] + c == t[1..] + "[" + x + "]";
      StripTrailingCitation(t[1..], x);
      assert t == [t[0]] + t[1..];
    }
  }

  /** A citation such as `[a]` or `[1]` after clean text is dropped by
      `_clean_text`, and the text before it is all that is left. */
  lemma {:induction false} CleanTextDropsCitation(t: seq<char>, x: seq<char>)
    requires IsClean(t) && '[' !in t
    requires |x| > 0 && ']' !in x && NoSpecials(x)
    ensures CleanText(t + "[" + x + "]") == t
  {
    var s := t + "[" + x + "]";
    assert NoSpecials(s) by {
      assert forall i :: 0 <= i < |s| ==> s[i] == (if i < |t| then t[i] else if i == |t| then '[' else if i < |s| - 1 then x[i - |t| - 1] else ']');
    }
    if |t| > 0 {
      assert t[|t| - 1] !in CleanEnds;
    }
    StripTrailingCitation(t, x);
    if |t| > 0 {
      CleanTextFixesClean(t);
      StripCitationsIdentity(t);
    }
  }
}
