/** `_rows_for_csv` (lines 240-257): one flat row per director, its columns in
    `CSV_FIELD_ORDER`, and the record `_scrape_top_directors` assembles for it
    (lines 225-235). */
module CsvRows {
  import opened Strings
  import opened Results
  import opened Dicts
  import Tiers
  import Infobox
  import Json

  /** `CSV_FIELD_ORDER` (lines 34-52). */
  const CsvFieldOrder: seq<seq<char>> := [
    "name", "wins", "url", "summary",
    "birth_name", "born", "died", "resting_place", "occupations", "years_active",
    "spouse", "partner", "children", "awards", "notable_works", "alma_mater",
    "infobox_json"
  ]

  const WikipediaBase: seq<char> := "https://en.wikipedia.org"

  /** The per-director record of lines 226-235. */
  datatype Record = Record(name: seq<char>, wins: nat, url: seq<char>, summary: seq<char>, infobox: Dict)

  /** A winner's entry and the biography read from its page. */
  function Assemble(entry: Tiers.Entry, bio: Infobox.Bio): (r: Record)
    ensures |r.url| == |WikipediaBase| + |entry.relativeUrl|
    ensures r.url[..|WikipediaBase|] == WikipediaBase && r.url[|WikipediaBase|..] == entry.relativeUrl
    ensures r.wins == entry.wins && r.name == bio.name && r.summary == bio.summary && r.infobox == bio.infobox
  {
    Record(bio.name, entry.wins, WikipediaBase + entry.relativeUrl, bio.summary, bio.infobox)
  }

  /** One pass of the loop on lines 250-254: a column already set is left
      alone, any other takes the infobox field or the empty string. */
  function FillOne(row: Dict, infobox: Dict, field: seq<char>): Dict {
    if HasKey(row, field) then row else Put(row, field, GetOr(infobox, field, ""))
  }

  function Fill(row: Dict, infobox: Dict, fields: seq<seq<char>>): Dict
    decreases |fields|
  {
    if |fields| == 0 then row else Fill(FillOne(row, infobox, fields[0]), infobox, fields[1..])
  }

  /** The columns set before the loop (lines 244-249). */
  function BaseRow(r: Record): Dict {
    [Item("name", r.name), Item("wins", Decimal(r.wins)), Item("url", r.url), Item("summary", r.summary)]
  }

  /** One CSV row: the base columns, the infobox columns, then `infobox_json`
      overwritten with the sorted JSON of the whole infobox (line 255). */
  function CsvRow(r: Record): Dict {
    Put(Fill(BaseRow(r), r.infobox, CsvFieldOrder), "infobox_json", Json.Dumps(r.infobox))
  }

  /** `_rows_for_csv`: one row per record, in order. */
  function RowsForCsv(records: seq<Record>): seq<Dict> {
    seq(|records|, i requires 0 <= i < |records| => CsvRow(records[i]))
  }

  // ---------------------------------------------------------------------------

  /** One column per field, holding the infobox's value or the empty string. */
  function Columns(infobox: Dict, fields: seq<seq<char>>): (cols: Dict)
    ensures |cols| == |fields|
  {
    seq(|fields|, i requires 0 <= i < |fields| => Item(fields[i], GetOr(infobox, fields[i], "")))
  }

  lemma {:induction false} FillSplit(row: Dict, infobox: Dict, a: seq<seq<char>>, b: seq<seq<char>>)
    ensures Fill(row, infobox, a + b) == Fill(Fill(row, infobox, a), infobox, b)
    decreases |a|
  {
    if |a| > 0 {
      assert (a + b)[1..] == a[1..] + b;
      FillSplit(FillOne(row, infobox, a[0]), infobox, a[1..], b);
    } else {
      assert a + b == b;
    }
  }

  /** Columns that are already set are skipped. */
  lemma {:induction false} FillSkips(row: Dict, infobox: Dict, fields: seq<seq<char>>)
    requires forall i :: 0 <= i < |fields| ==> HasKey(row, fields[i])
    ensures Fill(row, infobox, fields) == row
    decreases |fields|
  {
    if |fields| > 0 {
      FillSkips(row, infobox, fields[1..]);
    }
  }

  /** A missing column is appended with the infobox's value or the empty string. */
  lemma {:induction false} FillOneAppends(row: Dict, infobox: Dict, field: seq<char>)
    requires !HasKey(row, field)
    ensures FillOne(row, infobox, field) == row + [Item(field, GetOr(infobox, field, ""))]
  {
  }

  lemma {:induction false} ColumnsCons(infobox: Dict, fields: seq<seq<char>>)
    requires |fields| > 0
    ensures Columns(infobox, fields)
      == [Item(fields[0], GetOr(infobox, fields[0], ""))] + Columns(infobox, fields[1..])
  {
  }

  /** Appending one column keeps the other distinct fields missing. */
  lemma {:induction false} StillMissing(row: Dict, c: Item, fields: seq<seq<char>>)
    requires |fields| > 0 && Distinct(fields) && c.key == fields[0]
    requires forall i :: 0 <= i < |fields| ==> !HasKey(row, fields[i])
    ensures Distinct(fields[1..])
    ensures forall i :: 0 <= i < |fields[1..]| ==> !HasKey(row + [c], fields[1..][i])
  {
    var next := row + [c];
    forall i | 0 <= i < |fields[1..]| ensures !HasKey(next, fields[1..][i]) {
      assert fields[1..][i] == fields[i + 1] != fields[0];
      assert !HasKey(row, fields[i + 1]);
    }
  }

  /** New, distinct columns are appended in order. */
  lemma {:induction false} FillAppends(row: Dict, infobox: Dict, fields: seq<seq<char>>)
    requires Distinct(fields)
    requires forall i :: 0 <= i < |fields| ==> !HasKey(row, fields[i])
    ensures Fill(row, infobox, fields) == row + Columns(infobox, fields)
    decreases |fields|
  {
    if |fields| > 0 {
      var c := Item(fields[0], GetOr(infobox, fields[0], ""));
      FillOneAppends(row, infobox, fields[0]);
      StillMissing(row, c, fields);
      FillAppends(row + [c], infobox, fields[1..]);
      ColumnsCons(infobox, fields);
      assert (row + [c]) + Columns(infobox, fields[1..]) == row + ([c] + Columns(infobox, fields[1..]));
    }
  }

  lemma FieldOrderDistinct()
    ensures Distinct(CsvFieldOrder)
  {
  }

  /** The base columns are exactly the first four fields. */
  lemma {:induction false} BaseColumns(r: Record)
    ensures forall i :: 0 <= i < 4 ==> HasKey(BaseRow(r), CsvFieldOrder[i])
    ensures forall i :: 4 <= i < |CsvFieldOrder| ==> !HasKey(BaseRow(r), CsvFieldOrder[i])
  {
    var base := BaseRow(r);
    assert forall i :: 0 <= i < 4 ==> base[i].key == CsvFieldOrder[i];
    FieldOrderDistinct();
  }

  lemma {:induction false} DistinctSuffix(fields: seq<seq<char>>, m: nat)
    requires m <= |fields| && Distinct(fields)
    ensures Distinct(fields[m..])
  {
    var rest := fields[m..];
    forall a, b | 0 <= a < b < |rest| ensures rest[a] != rest[b] {
      assert rest[a] == fields[m + a] && rest[b] == fields[m + b];
    }
  }

  /** Filling from a row that already holds the first `m` fields and none of
      the others appends one column per remaining field. */
  lemma {:induction false} FillFromBase(base: Dict, infobox: Dict, fields: seq<seq<char>>, m: nat)
    requires m <= |fields| && Distinct(fields)
    requires forall i :: 0 <= i < m ==> HasKey(base, fields[i])
    requires forall i :: m <= i < |fields| ==> !HasKey(base, fields[i])
    ensures Fill(base, infobox, fields) == base + Columns(infobox, fields[m..])
  {
    var head, rest := fields[..m], fields[m..];
    assert fields == head + rest;
    FillSplit(base, infobox, head, rest);
    FillSkips(base, infobox, head);
    DistinctSuffix(fields, m);
    FillAppends(base, infobox, rest);
  }

  lemma {:induction false} FilledShape(r: Record)
    ensures Fill(BaseRow(r), r.infobox, CsvFieldOrder) == BaseRow(r) + Columns(r.infobox, CsvFieldOrder[4..])
  {
    BaseColumns(r);
    FieldOrderDistinct();
    FillFromBase(BaseRow(r), r.infobox, CsvFieldOrder, 4);
  }

  /** Setting the field of the last column, when no other column has it,
      replaces that column's value in place. */
  lemma {:induction false} ReplaceLastColumn(base: Dict, infobox: Dict, fields: seq<seq<char>>, v: seq<char>)
    requires |fields| > 0 && Distinct(fields)
    requires forall j :: 0 <= j < |base| ==> base[j].key != fields[|fields| - 1]
    ensures Put(base + Columns(infobox, fields), fields[|fields| - 1], v) ==
      base + Columns(infobox, fields[..|fields| - 1]) + [Item(fields[|fields| - 1], v)]
  {
    var k := fields[|fields| - 1];
    var cols := Columns(infobox, fields);
    var d := base + cols;
    assert d[|d| - 1].key == k;
    forall j | 0 <= j < |d| - 1 ensures d[j].key != k {
      if j >= |base| {
        assert d[j] == cols[j - |base|];
      }
    }
    assert IndexOf(d, k) == Some(|d| - 1);
    assert cols[..|fields| - 1] == Columns(infobox, fields[..|fields| - 1]);
    assert d[..|d| - 1] == base + cols[..|fields| - 1];
  }

  lemma {:induction false} SuffixPrefix(s: seq<seq<char>>, a: nat, b: nat)
    requires a + b <= |s|
    ensures s[a..][..b] == s[a..a + b]
  {
  }

  /** Lines 243-255 in one picture: the four base columns, one column per
      remaining field in `CSV_FIELD_ORDER`, and `infobox_json` last with the
      JSON text in place of any infobox field of that name. */
  lemma {:induction false} CsvRowShape(r: Record)
    ensures CsvRow(r) ==
      BaseRow(r) + Columns(r.infobox, CsvFieldOrder[4..16]) + [Item("infobox_json", Json.Dumps(r.infobox))]
  {
    var rest := CsvFieldOrder[4..];
    FilledShape(r);
    BaseColumns(r);
    FieldOrderDistinct();
    DistinctSuffix(CsvFieldOrder, 4);
    SuffixPrefix(CsvFieldOrder, 4, 12);
    assert rest[|rest| - 1] == CsvFieldOrder[16] == "infobox_json";
    ReplaceLastColumn(BaseRow(r), r.infobox, rest, Json.Dumps(r.infobox));
  }

  /** What the shape of `CsvRowShape` says column by column. */
  lemma {:induction false} ColumnsOfShape(r: Record, json: seq<char>, row: Dict)
    requires row == BaseRow(r) + Columns(r.infobox, CsvFieldOrder[4..16]) + [Item("infobox_json", json)]
    ensures |row| == |CsvFieldOrder|
    ensures forall i :: 0 <= i < |row| ==> row[i].key == CsvFieldOrder[i]
    ensures row[0].value == r.name && row[1].value == Decimal(r.wins)
    ensures row[2].value == r.url && row[3].value == r.summary
    ensures forall i :: 4 <= i < 16 ==> row[i].value == GetOr(r.infobox, CsvFieldOrder[i], "")
    ensures row[16].value == json
  {
    var cols := Columns(r.infobox, CsvFieldOrder[4..16]);
    forall i | 4 <= i < 16
      ensures row[i] == Item(CsvFieldOrder[i], GetOr(r.infobox, CsvFieldOrder[i], ""))
    {
      assert row[i] == cols[i - 4];
    }
  }

  /** A CSV row has exactly the columns of `CSV_FIELD_ORDER`, in that order; the
      first four come from the record, with the win count written in decimal
      digits that read back as the count; the next twelve are the infobox's
      fields or empty; the last is the infobox as sorted JSON. */
  lemma {:induction false} CsvRowSpec(r: Record)
    ensures |CsvRow(r)| == |CsvFieldOrder|
    ensures forall i :: 0 <= i < |CsvFieldOrder| ==> CsvRow(r)[i].key == CsvFieldOrder[i]
    ensures CsvRow(r)[0].value == r.name
    ensures AllDigits(CsvRow(r)[1].value) && DecimalValue(CsvRow(r)[1].value) == r.wins
    ensures CsvRow(r)[2].value == r.url && CsvRow(r)[3].value == r.summary
    ensures forall i :: 4 <= i < 16 ==> CsvRow(r)[i].value == GetOr(r.infobox, CsvFieldOrder[i], "")
    ensures CsvRow(r)[16].value == Json.Dumps(r.infobox)
  {
    CsvRowShape(r);
    ColumnsOfShape(r, Json.Dumps(r.infobox), CsvRow(r));
    DecimalRoundTrip(r.wins);
  }

  /** The `infobox_json` column of a parsed infobox reads back as all its
      fields, in increasing key order. */
  lemma {:induction false} InfoboxJsonReadsBack(r: Record)
    requires DistinctKeys(r.infobox)
    ensures |CsvRow(r)| == |CsvFieldOrder|
    ensures Json.ReadObject(CsvRow(r)[16].value) == Some(Json.SortByKey(r.infobox))
    ensures Json.KeysIncreasing(Json.SortByKey(r.infobox))
    ensures multiset(Json.SortByKey(r.infobox)) == multiset(r.infobox)
  {
    CsvRowSpec(r);
    Json.DumpsSpec(r.infobox);
  }

  /** The row of a winner: the name from its page, and the page address, which
      is the site followed by the relative link. */
  lemma {:induction false} WinnerRow(entry: Tiers.Entry, bio: Infobox.Bio)
    ensures |CsvRow(Assemble(entry, bio))| == |CsvFieldOrder|
    ensures var row := CsvRow(Assemble(entry, bio));
      && row[0] == Item("name", bio.name)
      && row[2] == Item("url", WikipediaBase + entry.relativeUrl)
  {
    var rec := Assemble(entry, bio);
    CsvRowSpec(rec);
    FieldNames();
  }

  lemma FieldNames()
    ensures CsvFieldOrder[0] == "name" && CsvFieldOrder[2] == "url"
  {
  }
}
