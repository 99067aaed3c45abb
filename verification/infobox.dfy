/** `_parse_infobox` and `extract_director_bio`: the biography panel of a
    director's page read into a dictionary of normalised fields, plus the name
    and the lead summary. */
module Infobox {
  import opened Strings
  import opened Results
  import opened Dicts
  import opened Tree
  import Clean
  import Labels

  /** What one table row contributes to the dictionary. */
  datatype RowParse =
    | Skipped
    | Field(key: seq<char>, value: seq<char>, birthNames: seq<seq<char>>)

  predicate Writes(r: RowParse, k: seq<char>) {
    r.Field? && r.key == k
  }

  /** Lines 123-125: every `sup` inside an element whose class mentions
      `marriage-display-inline` is dropped. */
  function DropMarriageSups(n: Node): (r: Node)
    decreases n
  {
    n.(children := MarriageSupsIn(n.children))
  }

  function MarriageSupsIn(kids: seq<Node>): (r: seq<Node>)
    ensures |r| == |kids|
    decreases kids
  {
    if |kids| == 0 then []
    else
      var last := kids[|kids| - 1];
      MarriageSupsIn(kids[..|kids| - 1])
      + [if Matches(Marriage, last) then Prune(last, TagIs("sup")) else DropMarriageSups(last)]
  }

  /** The data cell as the value is read from it: hidden and noise elements
      dropped (line 112), then nicknames on a `born` row (line 120), then the
      spouse step. */
  function ValueCell(key: seq<char>, td: Node): Node {
    var quiet := Prune(td, Noise);
    var named := if key == "born" then Prune(quiet, Nickname) else quiet;
    if key == "spouse" then DropMarriageSups(named) else named
  }

  /** `_finalize_list(nick.itertext())` of each nickname element, empty results
      left out. */
  function NicknameTexts(nicks: seq<Node>): seq<seq<char>> {
    if |nicks| == 0 then []
    else
      var t := Clean.FinalizeList(IterText(nicks[|nicks| - 1]));
      NicknameTexts(nicks[..|nicks| - 1]) + (if |t| == 0 then [] else [t])
  }

  /** `" ".join(li.itertext())` for each list item. */
  function ItemTexts(items: seq<Node>): (r: seq<seq<char>>)
    ensures |r| == |items|
  {
    if |items| == 0 then []
    else ItemTexts(items[..|items| - 1]) + [Join(" ", IterText(items[|items| - 1]))]
  }

  /** Lines 126-130: a list cell gives its items, any other cell its text
      fragments, each cleaned and joined with `"; "`. */
  function CellValue(cell: Node): seq<char> {
    var items := FindAll(cell, TagIs("li"));
    if |items| > 0 then Clean.FinalizeList(ItemTexts(items)) else Clean.FinalizeList(IterText(cell))
  }

  /** One pass of the loop body of `_parse_infobox` before it writes. */
  function ParseRow(row: Node): RowParse {
    var headers := ChildrenTagged(row, "th");
    var cells := ChildrenTagged(row, "td");
    if |headers| == 0 || |cells| == 0 then Skipped
    else
      var heading := Clean.CleanText(Join(" ", IterText(headers[0])));
      if |heading| == 0 then Skipped
      else
        var key := Labels.NormalizeLabel(heading);
        var names := if key == "born" then NicknameTexts(FindAll(Prune(cells[0], Noise), Nickname)) else [];
        Field(key, CellValue(ValueCell(key, cells[0])), names)
  }

  /** The writes of one row: nickname birth names only when `birth_name` is not
      yet set (line 121), then the row's own key. */
  function Apply(info: Dict, r: RowParse): Dict {
    match r
    case Skipped => info
    case Field(key, value, names) =>
      var named :=
        if |names| > 0 && !HasKey(info, "birth_name") then Put(info, "birth_name", Join("; ", Dedup(names)))
        else info;
      Put(named, key, value)
  }

  /** Each row parsed on its own. */
  function ParseAll(rows: seq<Node>): (rs: seq<RowParse>)
    ensures |rs| == |rows|
  {
    seq(|rows|, i requires 0 <= i < |rows| => ParseRow(rows[i]))
  }

  /** The loop of lines 102-131: the rows' writes, in order, into an empty
      dictionary. */
  function Build(rs: seq<RowParse>): Dict {
    if |rs| == 0 then [] else Apply(Build(rs[..|rs| - 1]), rs[|rs| - 1])
  }

  /** `_parse_infobox`: every `tr` below the table, in document order. */
  function ParseInfobox(table: Node): Dict {
    Build(ParseAll(FindAll(table, TagIs("tr"))))
  }

  datatype Bio = Bio(name: seq<char>, summary: seq<char>, infobox: Dict)

  /** The text nodes below the given elements, in order. */
  function TextsOf(nodes: seq<Node>): seq<seq<char>> {
    if |nodes| == 0 then [] else TextsOf(nodes[..|nodes| - 1]) + IterText(nodes[|nodes| - 1])
  }

  /** The text children of the given elements, in order. */
  function DirectTextsOf(nodes: seq<Node>): seq<seq<char>> {
    if |nodes| == 0 then [] else DirectTextsOf(nodes[..|nodes| - 1]) + DirectText(nodes[|nodes| - 1])
  }

  /** The paragraphs below the given elements, in order. */
  function ParagraphsIn(divs: seq<Node>): seq<Node> {
    if |divs| == 0 then [] else ParagraphsIn(divs[..|divs| - 1]) + FindAll(divs[|divs| - 1], TagIs("p"))
  }

  /** The text the name is read from: the title rows of the infobox, or else the
      page heading. */
  function NameTexts(doc: Node, table: Node): seq<seq<char>> {
    var title := TextsOf(TitleRows(table));
    if |title| > 0 then title else DirectTextsOf(FindInDocument(doc, FirstHeading))
  }

  /** The first paragraph with visible text inside the content area, if any. */
  function LeadParagraphs(doc: Node): seq<Node> {
    NonBlanks(ParagraphsIn(FindInDocument(doc, ContentText)))
  }

  /** `extract_director_bio` on the parsed page. */
  function ExtractDirectorBio(doc: Node): Result<Bio> {
    var tables := FindInDocument(doc, InfoboxTable);
    if |tables| == 0 then Err(InfoboxMissing)
    else
      var table := tables[0];
      var name := Clean.CleanText(Join(" ", NameTexts(doc, table)));
      var paras := LeadParagraphs(doc);
      var summary := if |paras| > 0 then Clean.CleanText(TextContent(paras[0])) else [];
      Ok(Bio(name, summary, ParseInfobox(table)))
  }

  // ---------------------------------------------------------------------------
  // The cell a value is read from
  // ---------------------------------------------------------------------------

  /** With no `sup` anywhere below, the spouse step changes nothing. */
  lemma {:induction false} DropMarriageSupsFixes(n: Node)
    requires FindAll(n, TagIs("sup")) == []
    ensures DropMarriageSups(n) == n
    decreases n
  {
    MarriageSupsInFixes(n.children);
  }

  lemma {:induction false} MarriageSupsInFixes(kids: seq<Node>)
    requires FindIn(kids, TagIs("sup")) == []
    ensures MarriageSupsIn(kids) == kids
    decreases kids
  {
    if |kids| > 0 {
      var init, c := kids[..|kids| - 1], kids[|kids| - 1];
      var done := if Matches(Marriage, c) then Prune(c, TagIs("sup")) else DropMarriageSups(c);
      FreeParts(kids, TagIs("sup"));
      assert done == c by {
        if Matches(Marriage, c) {
          PruneFixesFree(c, TagIs("sup"));
        } else {
          DropMarriageSupsFixes(c);
        }
      }
      MarriageSupsInFixes(init);
      assert MarriageSupsIn(kids) == MarriageSupsIn(init) + [done];
      assert init + [c] == kids;
    }
  }

  /** `sup` is already noise, so once noise is gone the spouse step of lines
      123-125 has nothing left to drop. */
  lemma {:induction false} SpouseStepNoOp(n: Node)
    requires FindAll(n, Noise) == []
    ensures DropMarriageSups(n) == n
  {
    QuietHasNoSup(n);
    DropMarriageSupsFixes(n);
  }

  /** The value cell holds no noise, a `born` cell holds no nickname either, and
      any other cell is the data cell with its noise dropped. */
  lemma {:induction false} ValueCellQuiet(key: seq<char>, td: Node)
    ensures FindAll(ValueCell(key, td), Noise) == []
    ensures key == "born" ==> FindAll(ValueCell(key, td), Nickname) == []
    ensures key != "born" ==> ValueCell(key, td) == Prune(td, Noise)
  {
    var quiet := Prune(td, Noise);
    PruneLeavesNone(td, Noise);
    if key == "born" {
      PruneKeepsFree(quiet, Nickname, Noise);
      PruneLeavesNone(quiet, Nickname);
    } else if key == "spouse" {
      SpouseStepNoOp(quiet);
    }
  }

  /** The text the value is cut from is the data cell's text outside hidden and
      noise elements (and, on a `born` row, outside nicknames too). */
  lemma {:induction false} ValueCellText(key: seq<char>, td: Node)
    ensures TextContent(ValueCell(key, td)) ==
      if key == "born" then KeptText(Prune(td, Noise), Nickname) else KeptText(td, Noise)
  {
    ValueCellQuiet(key, td);
    if key == "born" {
      PruneKeepsText(Prune(td, Noise), Nickname);
    } else {
      PruneKeepsText(td, Noise);
    }
  }

  /** Nickname texts are never empty and carry none of the characters cleaning
      replaces. */
  lemma {:induction false} NicknameTextsPlain(nicks: seq<Node>)
    ensures forall i :: 0 <= i < |NicknameTexts(nicks)| ==>
      |NicknameTexts(nicks)[i]| > 0 && Clean.NoSpecials(NicknameTexts(nicks)[i])
    decreases |nicks|
  {
    if |nicks| > 0 {
      NicknameTextsPlain(nicks[..|nicks| - 1]);
      Clean.FinalizeListIsJoin(IterText(nicks[|nicks| - 1]));
    }
  }

  /** A cell value carries none of the characters cleaning replaces. */
  lemma {:induction false} CellValuePlain(cell: Node)
    ensures Clean.NoSpecials(CellValue(cell))
  {
    Clean.FinalizeListIsJoin(ItemTexts(FindAll(cell, TagIs("li"))));
    Clean.FinalizeListIsJoin(IterText(cell));
  }

  // ---------------------------------------------------------------------------
  // Rows and the dictionary they build
  // ---------------------------------------------------------------------------

  /** What every dictionary `_parse_infobox` returns looks like: each key once,
      each key a slug, no value with a character cleaning replaces. */
  predicate WellFormed(d: Dict) {
    && DistinctKeys(d)
    && forall i :: 0 <= i < |d| ==> Labels.IsSlug(d[i].key) && Clean.NoSpecials(d[i].value)
  }

  /** A row yields a slug key, a plain value and plain, non-empty birth names,
      and only a `born` row yields birth names. */
  predicate PlainRow(r: RowParse) {
    r.Field? ==>
      && Labels.IsSlug(r.key)
      && Clean.NoSpecials(r.value)
      && (|r.birthNames| > 0 ==> r.key == "born")
      && forall i :: 0 <= i < |r.birthNames| ==> |r.birthNames[i]| > 0 && Clean.NoSpecials(r.birthNames[i])
  }

  lemma {:induction false} ParseRowPlain(row: Node)
    ensures PlainRow(ParseRow(row))
  {
    var headers := ChildrenTagged(row, "th");
    var cells := ChildrenTagged(row, "td");
    if |headers| > 0 && |cells| > 0 {
      var heading := Clean.CleanText(Join(" ", IterText(headers[0])));
      var key := Labels.NormalizeLabel(heading);
      Labels.NormalizeLabelIsSlug(heading);
      CellValuePlain(ValueCell(key, cells[0]));
      NicknameTextsPlain(FindAll(Prune(cells[0], Noise), Nickname));
    }
  }

  /** Rows without a header cell or a data cell, or whose header has no text
      at all, leave the dictionary as it was. */
  lemma {:induction false} HeaderlessRowSkipped(info: Dict, row: Node)
    requires
      || |ChildrenTagged(row, "th")| == 0
      || |ChildrenTagged(row, "td")| == 0
      || |IterText(ChildrenTagged(row, "th")[0])| == 0
    ensures ParseRow(row) == Skipped
    ensures Apply(info, ParseRow(row)) == info
  {
    if |ChildrenTagged(row, "th")| > 0 && |ChildrenTagged(row, "td")| > 0 {
      Clean.CleanTextOfBlank([]);
    }
  }

  lemma {:induction false} PutWellFormed(d: Dict, k: seq<char>, v: seq<char>)
    requires WellFormed(d) && Labels.IsSlug(k) && Clean.NoSpecials(v)
    ensures WellFormed(Put(d, k, v))
  {
    PutGet(d, k, v, k);
    var r := Put(d, k, v);
    assert forall i :: 0 <= i < |r| ==> r[i] == Item(k, v) || r[i] == d[i];
  }

  lemma {:induction false} BirthNameSlug()
    ensures Labels.IsSlug("birth_name")
  {
    Labels.FirstKeysAreSlugs();
  }

  /** One row's writes keep the dictionary well formed. */
  lemma {:induction false} ApplyWellFormed(info: Dict, r: RowParse)
    requires WellFormed(info) && PlainRow(r)
    ensures WellFormed(Apply(info, r))
  {
    if r.Field? {
      var named := info;
      if |r.birthNames| > 0 && !HasKey(info, "birth_name") {
        var names := Dedup(r.birthNames);
        DedupSpec(r.birthNames);
        assert forall i :: 0 <= i < |names| ==> Clean.NoSpecials(names[i]) by {
          forall i | 0 <= i < |names| ensures Clean.NoSpecials(names[i]) {
            assert names[i] in r.birthNames;
          }
        }
        Clean.JoinNoSpecials(names);
        BirthNameSlug();
        PutWellFormed(info, "birth_name", Join("; ", names));
        named := Put(info, "birth_name", Join("; ", names));
      }
      PutWellFormed(named, r.key, r.value);
    }
  }

  /** Every write is a `Put`, so no key is ever repeated. */
  lemma {:induction false} BuildDistinct(rs: seq<RowParse>)
    ensures DistinctKeys(Build(rs))
    decreases |rs|
  {
    if |rs| > 0 {
      var info, r := Build(rs[..|rs| - 1]), rs[|rs| - 1];
      BuildDistinct(rs[..|rs| - 1]);
      if r.Field? {
        var b := Join("; ", Dedup(r.birthNames));
        PutGet(info, "birth_name", b, r.key);
        var named := if |r.birthNames| > 0 && !HasKey(info, "birth_name") then Put(info, "birth_name", b) else info;
        PutGet(named, r.key, r.value, r.key);
      }
    }
  }

  lemma {:induction false} BuildWellFormed(rs: seq<RowParse>)
    requires forall i :: 0 <= i < |rs| ==> PlainRow(rs[i])
    ensures WellFormed(Build(rs))
    decreases |rs|
  {
    if |rs| > 0 {
      BuildWellFormed(rs[..|rs| - 1]);
      ApplyWellFormed(Build(rs[..|rs| - 1]), rs[|rs| - 1]);
    }
  }

  /** Every key of the parsed infobox is distinct and a slug, and no value holds
      a character cleaning replaces. */
  lemma {:induction false} ParseInfoboxWellFormed(table: Node)
    ensures WellFormed(ParseInfobox(table))
  {
    var rs := ParseAll(FindAll(table, TagIs("tr")));
    forall i | 0 <= i < |rs| ensures PlainRow(rs[i]) {
      ParseRowPlain(FindAll(table, TagIs("tr"))[i]);
    }
    BuildWellFormed(rs);
  }

  /** A field other than `birth_name` is what the row wrote, when it wrote it,
      and what it was before otherwise. */
  lemma {:induction false} ApplyGet(info: Dict, r: RowParse, k: seq<char>)
    requires DistinctKeys(info) && k != "birth_name"
    ensures Get(Apply(info, r), k) == if Writes(r, k) then Some(r.value) else Get(info, k)
  {
    if r.Field? {
      var named := if |r.birthNames| > 0 && !HasKey(info, "birth_name")
        then Put(info, "birth_name", Join("; ", Dedup(r.birthNames))) else info;
      PutGet(info, "birth_name", Join("; ", Dedup(r.birthNames)), k);
      PutGet(named, r.key, r.value, k);
    }
  }

  /** `birth_name` is what the row wrote, when it wrote it; else the row's
      nicknames, when it has some and the key is still unset; else as before. */
  lemma {:induction false} ApplyBirthName(info: Dict, r: RowParse)
    requires DistinctKeys(info)
    ensures Get(Apply(info, r), "birth_name") ==
      if Writes(r, "birth_name") then Some(r.value)
      else if r.Field? && |r.birthNames| > 0 && Get(info, "birth_name").None?
      then Some(Join("; ", Dedup(r.birthNames)))
      else Get(info, "birth_name")
  {
    if r.Field? {
      var b := Join("; ", Dedup(r.birthNames));
      GetSpec(info, "birth_name");
      var named := if |r.birthNames| > 0 && !HasKey(info, "birth_name")
        then Put(info, "birth_name", b) else info;
      PutGet(info, "birth_name", b, r.key);
      PutGet(named, r.key, r.value, "birth_name");
    }
  }

  /** Later rows overwrite earlier ones (line 131): a field holds the value of
      the last row that wrote it. This holds for `birth_name` too, because
      nicknames never overwrite a set `birth_name`. */
  lemma {:induction false} LastRowWins(rs: seq<RowParse>, i: nat, k: seq<char>)
    requires i < |rs| && Writes(rs[i], k)
    requires forall j :: i < j < |rs| ==> !Writes(rs[j], k)
    ensures Get(Build(rs), k) == Some(rs[i].value)
    decreases |rs|
  {
    var init, r := rs[..|rs| - 1], rs[|rs| - 1];
    var info := Build(init);
    BuildDistinct(init);
    if i < |rs| - 1 {
      LastRowWins(init, i, k);
    }
    if k == "birth_name" {
      ApplyBirthName(info, r);
    } else {
      ApplyGet(info, r, k);
    }
  }

  /** Some row of `rs` writes field `k`. */
  predicate WrittenIn(rs: seq<RowParse>, k: seq<char>) {
    exists j :: 0 <= j < |rs| && Writes(rs[j], k)
  }

  lemma {:induction false} WrittenInSnoc(rs: seq<RowParse>, k: seq<char>)
    requires |rs| > 0
    ensures WrittenIn(rs, k) <==> WrittenIn(rs[..|rs| - 1], k) || Writes(rs[|rs| - 1], k)
  {
    var init := rs[..|rs| - 1];
    if WrittenIn(rs, k) {
      var j :| 0 <= j < |rs| && Writes(rs[j], k);
      if j < |init| {
        assert init[j] == rs[j];
      }
    }
    if WrittenIn(init, k) {
      var j :| 0 <= j < |init| && Writes(init[j], k);
      assert rs[j] == init[j];
    }
  }

  /** A field other than `birth_name` is present exactly when some row wrote it. */
  lemma {:induction false} KeyPresent(rs: seq<RowParse>, k: seq<char>)
    requires k != "birth_name"
    ensures Get(Build(rs), k).Some? <==> WrittenIn(rs, k)
    decreases |rs|
  {
    if |rs| > 0 {
      var init, r := rs[..|rs| - 1], rs[|rs| - 1];
      KeyPresent(init, k);
      WrittenInSnoc(rs, k);
      BuildDistinct(init);
      ApplyGet(Build(init), r, k);
      assert Build(rs) == Apply(Build(init), r);
    }
  }

  /** Row `r` carries nickname birth names. */
  predicate HasNicknames(r: RowParse) {
    r.Field? && |r.birthNames| > 0
  }

  /** No `birth_name` row and no nickname: no `birth_name` field. */
  lemma {:induction false} NoBirthName(rs: seq<RowParse>)
    requires forall j :: 0 <= j < |rs| ==> !Writes(rs[j], "birth_name") && !HasNicknames(rs[j])
    ensures Get(Build(rs), "birth_name") == None
    decreases |rs|
  {
    if |rs| > 0 {
      var init := rs[..|rs| - 1];
      NoBirthName(init);
      BuildDistinct(init);
      ApplyBirthName(Build(init), rs[|rs| - 1]);
    }
  }

  /** Lines 117-121: with no `birth_name` row, the birth name is the
      de-duplicated nicknames of the first row that has any. */
  lemma {:induction false} NicknamesGiveBirthName(rs: seq<RowParse>, i: nat)
    requires i < |rs| && HasNicknames(rs[i])
    requires forall j :: 0 <= j < |rs| ==> !Writes(rs[j], "birth_name")
    requires forall j :: 0 <= j < i ==> !HasNicknames(rs[j])
    ensures Get(Build(rs), "birth_name") == Some(Join("; ", Dedup(rs[i].birthNames)))
    decreases |rs|
  {
    var init := rs[..|rs| - 1];
    BuildDistinct(init);
    ApplyBirthName(Build(init), rs[|rs| - 1]);
    if i < |rs| - 1 {
      NicknamesGiveBirthName(init, i);
    } else {
      NoBirthName(init);
    }
  }

  // ---------------------------------------------------------------------------
  // A worked row
  // ---------------------------------------------------------------------------

  /** `<td>first <b>second</b></td>`: a value split over two text nodes. */
  function FragmentCell(first: seq<char>, second: seq<char>): Node {
    Element("td", "", "", "", first + " ", [Element("b", "", "", "", second, [], "")], "")
  }

  lemma {:induction false} LoneChildFree(b: Node, s: Selector)
    requires b.children == [] && !Matches(s, b)
    ensures FindIn([b], s) == []
  {
    assert [b][..0] == [];
  }

  lemma {:induction false} FragmentCellShape(first: seq<char>, second: seq<char>)
    requires Clean.IsWord(first) && Clean.IsWord(second)
    ensures var cell := FragmentCell(first, second);
      && FindAll(cell, Noise) == []
      && FindAll(cell, Nickname) == []
      && FindAll(cell, TagIs("li")) == []
      && IterText(cell) == [first + " ", second]
  {
    var b := Element("b", "", "", "", second, [], "");
    LoneChildFree(b, Noise);
    LoneChildFree(b, Nickname);
    LoneChildFree(b, TagIs("li"));
    assert [b][..0] == [];
    assert IterTextIn([b]) == [second];
  }

  /** Lines 129-130 on that cell: each text node is one item, so the two
      fragments come out joined by `"; "`, whatever the row's key. */
  lemma {:induction false} FragmentsBecomeItems(key: seq<char>, first: seq<char>, second: seq<char>)
    requires Clean.IsWord(first) && Clean.IsWord(second)
    ensures CellValue(ValueCell(key, FragmentCell(first, second))) == first + "; " + second
  {
    var cell := FragmentCell(first, second);
    FragmentCellShape(first, second);
    PruneFixesFree(cell, Noise);
    PruneFixesFree(cell, Nickname);
    SpouseStepNoOp(cell);
    assert ValueCell(key, cell) == cell;
    Clean.FinalizeListPair(first, second);
  }

  /** A whole row `<tr><th>header</th><td>first <b>second</b></td></tr>`. */
  lemma {:induction false} FragmentRow(header: seq<char>, first: seq<char>, second: seq<char>)
    requires Clean.IsWord(header) && Clean.IsWord(first) && Clean.IsWord(second)
    ensures
      var th := Element("th", "", "", "", header, [], "");
      var row := Element("tr", "", "", "", "", [th, FragmentCell(first, second)], "");
      ParseRow(row) == Field(Labels.NormalizeLabel(header), first + "; " + second, [])
  {
    var th := Element("th", "", "", "", header, [], "");
    var cell := FragmentCell(first, second);
    var row := Element("tr", "", "", "", "", [th, cell], "");
    assert [th, cell][..1] == [th];
    assert [th][..0] == [];
    assert Tagged([th], "th") == [th];
    assert Tagged([th], "td") == [];
    assert ChildrenTagged(row, "th") == [th];
    assert ChildrenTagged(row, "td") == [cell];
    assert IterText(th) == [header];
    Clean.WordCleans(header);
    var key := Labels.NormalizeLabel(header);
    FragmentsBecomeItems(key, first, second);
    FragmentCellShape(first, second);
    PruneFixesFree(cell, Noise);
  }

  // ---------------------------------------------------------------------------
  // The biography
  // ---------------------------------------------------------------------------

  /** A page without an infobox is an error (line 196); otherwise the name and
      summary are clean text and the infobox is the first infobox table parsed. */
  lemma {:induction false} ExtractDirectorBioSpec(doc: Node)
    ensures ExtractDirectorBio(doc) == Err(InfoboxMissing) <==> FindInDocument(doc, InfoboxTable) == []
    ensures ExtractDirectorBio(doc).Ok? ==>
      var bio := ExtractDirectorBio(doc).value;
      && Clean.IsClean(bio.name)
      && Clean.IsClean(bio.summary)
      && bio.infobox == ParseInfobox(FindInDocument(doc, InfoboxTable)[0])
      && WellFormed(bio.infobox)
  {
    var tables := FindInDocument(doc, InfoboxTable);
    if |tables| > 0 {
      Clean.CleanTextIsClean(Join(" ", NameTexts(doc, tables[0])));
      var paras := LeadParagraphs(doc);
      if |paras| > 0 {
        Clean.CleanTextIsClean(TextContent(paras[0]));
      }
      ParseInfoboxWellFormed(tables[0]);
    }
  }

  /** The summary is the cleaned text of the first paragraph of the content area
      with visible text, and empty when every paragraph there is blank. */
  lemma {:induction false} SummaryIsFirstParagraph(doc: Node)
    requires ExtractDirectorBio(doc).Ok?
    ensures var ps := ParagraphsIn(FindInDocument(doc, ContentText));
      var summary := ExtractDirectorBio(doc).value.summary;
      && ((forall i :: 0 <= i < |ps| ==> !NonBlank(ps[i])) ==> summary == [])
      && (forall j :: FirstNonBlankAt(ps, j) ==> summary == Clean.CleanText(TextContent(ps[j])))
  {
    var ps := ParagraphsIn(FindInDocument(doc, ContentText));
    NonBlanksEmpty(ps);
    if |NonBlanks(ps)| > 0 {
      NonBlanksFirst(ps);
      var j :| FirstNonBlankAt(ps, j) && NonBlanks(ps)[0] == ps[j];
      forall j' | FirstNonBlankAt(ps, j') ensures ps[j'] == ps[j] {
        assert j' == j;
      }
    }
  }
}
