/** Infobox header normalisation of `scrape_directors.py`: the `FIELD_ALIASES`
    table (lines 16-33) and `_normalize_label` (lines 90-97). */
module Labels {
  import opened Strings
  import Clean

  /** `FIELD_ALIASES`: lower-cased header text to canonical field key. */
  const FieldAliases: map<seq<char>, seq<char>> := map[
    "born" := "born",
    "birth name" := "birth_name",
    "died" := "died",
    "resting place" := "resting_place",
    "occupation" := "occupations",
    "occupations" := "occupations",
    "years active" := "years_active",
    "spouse" := "spouse",
    "spouses" := "spouse",
    "partner" := "partner",
    "domestic partner" := "partner",
    "children" := "children",
    "awards" := "awards",
    "notable works" := "notable_works",
    "notable work" := "notable_works",
    "alma mater" := "alma_mater"
  ]

  /** A machine-stable key: lower-case letters, digits and single inner underscores. */
  predicate IsSlug(s: seq<char>) {
    SlugChars(s) && (|s| > 0 ==> s[0] != '_' && s[|s| - 1] != '_')
  }

  /** Only `[0-9a-z_]`, and never two underscores in a row. */
  predicate SlugChars(s: seq<char>) {
    && (forall i :: 0 <= i < |s| ==> IsLowerAlnum(s[i]) || s[i] == '_')
    && (forall i :: 0 <= i < |s| - 1 ==> !(s[i] == '_' && s[i + 1] == '_'))
  }

  /** The letters and digits of `s`, in order. */
  function Alnums(s: seq<char>): (r: seq<char>)
    ensures |r| <= |s|
  {
    if |s| == 0 then []
    else (if IsLowerAlnum(s[0]) then [s[0]] else []) + Alnums(s[1..])
  }

  /** Length of the longest prefix of characters outside `[0-9a-z]`. */
  function NonWordRun(s: seq<char>): (n: nat)
    ensures n <= |s|
    ensures forall i :: 0 <= i < n ==> !IsLowerAlnum(s[i])
    ensures n < |s| ==> IsLowerAlnum(s[n])
  {
    if |s| > 0 && !IsLowerAlnum(s[0]) then 1 + NonWordRun(s[1..]) else 0
  }

  /** `NON_WORD_RE.sub("_", s)` with `NON_WORD_RE = [^0-9a-z]+`: each maximal run
      of other characters becomes a single underscore. */
  function ReplaceNonWord(s: seq<char>): (r: seq<char>)
    ensures SlugChars(r)
    ensures |s| > 0 ==> |r| > 0 && r[0] == (if IsLowerAlnum(s[0]) then s[0] else '_')
    ensures Alnums(r) == Alnums(s)
    decreases |s|
  {
    if |s| == 0 then []
    else if IsLowerAlnum(s[0]) then [s[0]] + ReplaceNonWord(s[1..])
    else
      var n := NonWordRun(s);
      AlnumsOfNonWord(s[..n]);
      AlnumsAppend(s[..n], s[n..]);
      assert s == s[..n] + s[n..];
      "_" + ReplaceNonWord(s[n..])
  }

  /** `.strip("_")` of the substituted text. */
  function Slug(lowered: seq<char>): seq<char> {
    Clean.Trim(ReplaceNonWord(lowered), {'_'})
  }

  /** `_normalize_label`. */
  function NormalizeLabel(header: seq<char>): seq<char> {
    if |header| == 0 then []
    else
      var lowered := LowerAscii(header);
      if lowered in FieldAliases then FieldAliases[lowered] else Slug(lowered)
  }

  // ---------------------------------------------------------------------------

  lemma {:induction false} AlnumsAppend(a: seq<char>, b: seq<char>)
    ensures Alnums(a + b) == Alnums(a) + Alnums(b)
  {
    if |a| > 0 {
      assert (a + b)[1..] == a[1..] + b;
      AlnumsAppend(a[1..], b);
    } else {
      assert a + b == b;
    }
  }

  lemma {:induction false} AlnumsOfNonWord(s: seq<char>)
    requires forall i :: 0 <= i < |s| ==> !IsLowerAlnum(s[i])
    ensures Alnums(s) == []
  {
    if |s| > 0 {
      AlnumsOfNonWord(s[1..]);
    }
  }

  lemma {:induction false} SlugCharsInfix(r: seq<char>, a: nat, b: nat)
    requires a <= b <= |r| && SlugChars(r)
    ensures SlugChars(r[a..b])
  {
    assert forall i :: 0 <= i < b - a ==> r[a..b][i] == r[a + i];
  }

  /** Stripping underscores keeps an infix of the substituted text. */
  lemma {:induction false} SlugIsSlug(lowered: seq<char>)
    ensures IsSlug(Slug(lowered))
  {
    var r := ReplaceNonWord(lowered);
    var cs: set<char> := {'_'};
    var a := Clean.Lead(r, cs);
    var b := |r| - Clean.Trail(r, cs);
    if a <= b {
      SlugCharsInfix(r, a, b);
    }
  }

  lemma {:induction false} AlnumsSplit(r: seq<char>, k: nat)
    requires k <= |r|
    ensures Alnums(r) == Alnums(r[..k]) + Alnums(r[k..])
  {
    assert r == r[..k] + r[k..];
    AlnumsAppend(r[..k], r[k..]);
  }

  lemma {:induction false} AlnumsOfInfix(r: seq<char>, a: nat, b: nat)
    requires a <= b <= |r|
    requires forall i :: 0 <= i < a ==> !IsLowerAlnum(r[i])
    requires forall i :: b <= i < |r| ==> !IsLowerAlnum(r[i])
    ensures Alnums(r[a..b]) == Alnums(r)
  {
    var p := r[..b];
    assert Alnums(r) == Alnums(p) + Alnums(r[b..]) by {
      AlnumsSplit(r, b);
    }
    assert Alnums(r[b..]) == [] by {
      assert forall i :: 0 <= i < |r[b..]| ==> r[b..][i] == r[b + i];
      AlnumsOfNonWord(r[b..]);
    }
    assert Alnums(p) == Alnums(r[..a]) + Alnums(r[a..b]) by {
      AlnumsSplit(p, a);
      assert p[..a] == r[..a] && p[a..] == r[a..b];
    }
    assert Alnums(r[..a]) == [] by {
      AlnumsOfNonWord(r[..a]);
    }
  }

  /** The slug keeps every letter and digit, in order, and nothing else of them. */
  lemma {:induction false} SlugKeepsAlnums(lowered: seq<char>)
    ensures Alnums(Slug(lowered)) == Alnums(lowered)
  {
    var r := ReplaceNonWord(lowered);
    var cs: set<char> := {'_'};
    var a := Clean.Lead(r, cs);
    var b := |r| - Clean.Trail(r, cs);
    if a <= b {
      AlnumsOfInfix(r, a, b);
    } else {
      AlnumsOfNonWord(r);
    }
  }

  /** A slug is its own slug: substituting and stripping change nothing. */
  lemma {:induction false} ReplaceNonWordOfSlugChars(s: seq<char>)
    requires SlugChars(s)
    ensures ReplaceNonWord(s) == s
    decreases |s|
  {
    if |s| > 0 {
      if !IsLowerAlnum(s[0]) {
        assert NonWordRun(s) == 1 by {
          if |s| > 1 { assert IsLowerAlnum(s[1]); }
        }
      }
      SlugCharsInfix(s, 1, |s|);
      ReplaceNonWordOfSlugChars(s[1..]);
    }
  }

  lemma {:induction false} SlugFixesSlugs(s: seq<char>)
    requires IsSlug(s)
    ensures Slug(s) == s
  {
    ReplaceNonWordOfSlugChars(s);
  }

  /** The twelve canonical field keys the alias table maps to. */
  const CanonicalKeys: seq<seq<char>> := [
    "born", "birth_name", "died", "resting_place", "occupations", "years_active",
    "spouse", "partner", "children", "awards", "notable_works", "alma_mater"
  ]

  lemma AliasValuesAreCanonical()
    ensures forall k :: k in FieldAliases ==> FieldAliases[k] in CanonicalKeys
  {
  }

  lemma FirstKeysAreSlugs()
    ensures IsSlug("born") && IsSlug("birth_name") && IsSlug("died") && IsSlug("resting_place")
  {
  }

  lemma MiddleKeysAreSlugs()
    ensures IsSlug("occupations") && IsSlug("years_active") && IsSlug("spouse") && IsSlug("partner")
  {
  }

  lemma LastKeysAreSlugs()
    ensures IsSlug("children") && IsSlug("awards") && IsSlug("notable_works") && IsSlug("alma_mater")
  {
  }

  lemma CanonicalKeysAreSlugs()
    ensures forall i :: 0 <= i < |CanonicalKeys| ==> IsSlug(CanonicalKeys[i])
  {
    FirstKeysAreSlugs();
    MiddleKeysAreSlugs();
    LastKeysAreSlugs();
  }

  lemma AliasValuesAreSlugs()
    ensures forall k :: k in FieldAliases ==> IsSlug(FieldAliases[k])
  {
    AliasValuesAreCanonical();
    CanonicalKeysAreSlugs();
  }

  /** Every key `_normalize_label` produces is a slug, whether it comes from the
      alias table or from substitution. */
  lemma {:induction false} NormalizeLabelIsSlug(header: seq<char>)
    ensures IsSlug(NormalizeLabel(header))
  {
    AliasValuesAreSlugs();
    SlugIsSlug(LowerAscii(header));
  }

  /** A header that is no alias keeps every letter and digit of its lower case, in
      order, and gains no other. */
  lemma {:induction false} NormalizeLabelKeepsAlnums(header: seq<char>)
    ensures LowerAscii(header) !in FieldAliases ==>
      Alnums(NormalizeLabel(header)) == Alnums(LowerAscii(header))
  {
    SlugKeepsAlnums(LowerAscii(header));
  }

  /** A header that is an alias, in any case, gives one of the twelve canonical keys. */
  lemma {:induction false} NormalizeLabelAliasHit(header: seq<char>)
    ensures |header| > 0 && LowerAscii(header) in FieldAliases ==>
      NormalizeLabel(header) == FieldAliases[LowerAscii(header)] &&
      NormalizeLabel(header) in CanonicalKeys
  {
    AliasValuesAreCanonical();
  }

  /** `str.lower` keeps an ASCII-lowered string as it is. */
  lemma {:induction false} LowerAsciiIdempotent(s: seq<char>)
    ensures LowerAscii(LowerAscii(s)) == LowerAscii(s)
  {
    var r := LowerAscii(s);
    forall i | 0 <= i < |r| ensures LowerAscii(r)[i] == r[i] {
      assert !('A' <= r[i] <= 'Z');
    }
  }

  /** Only the lower case of a header matters: two headers that lower to the same
      string get the same key, and so does the lower case itself. */
  lemma {:induction false} NormalizeLabelCaseInsensitive(h1: seq<char>, h2: seq<char>)
    ensures LowerAscii(h1) == LowerAscii(h2) ==> NormalizeLabel(h1) == NormalizeLabel(h2)
    ensures NormalizeLabel(LowerAscii(h1)) == NormalizeLabel(h1)
  {
    LowerAsciiIdempotent(h1);
  }

  /** A header that is already a key and no alias comes back unchanged. */
  lemma {:induction false} NormalizeLabelKeepsSlugs(header: seq<char>)
    requires IsSlug(header) && header !in FieldAliases
    ensures NormalizeLabel(header) == header
  {
    assert LowerAscii(header) == header;
    SlugFixesSlugs(header);
  }

  /** Lower-casing a header spelt `Spouses` in any mix of cases gives `spouses`. */
  lemma {:induction false} LowerSpouses(header: seq<char>)
    requires |header| == 7 && header[1..] == "pouses" && header[0] in {'s', 'S'}
    ensures LowerAscii(header) == "spouses"
  {
    LowerAsciiKeepsLower("pouses");
    assert LowerAscii(header) == ['s'] + LowerAscii(header[1..]);
    SpousesSpelt();
  }

  lemma {:induction false} SpousesSpelt()
    ensures ['s'] + "pouses" == "spouses"
  {
    var a := ['s'] + "pouses";
    assert |a| == 7 && forall i :: 1 <= i < 7 ==> a[i] == "pouses"[i - 1];
  }

  /** Text without ASCII upper case is its own lower case. */
  lemma {:induction false} LowerAsciiKeepsLower(s: seq<char>)
    requires forall i :: 0 <= i < |s| ==> !('A' <= s[i] <= 'Z')
    ensures LowerAscii(s) == s
  {
    var r := LowerAscii(s);
    assert forall i :: 0 <= i < |s| ==> r[i] == s[i];
  }

  /** Case does not matter: `Spouses` and `spouses` both give `spouse`. */
  lemma {:induction false} NormalizeLabelSpouses(header: seq<char>)
    requires |header| == 7 && header[1..] == "pouses" && header[0] in {'s', 'S'}
    ensures NormalizeLabel(header) == "spouse"
  {
    LowerSpouses(header);
  }
}
