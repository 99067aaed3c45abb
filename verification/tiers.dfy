/** `parse_top_directors` of `scrape_directors.py` (lines 135-188): the rows of the
    "Multiple wins" table become `DirectorEntry` records, which are grouped by number
    of wins and chosen tier by tier, highest first, until `top_n` are chosen. */
module Tiers {
  import opened Strings
  import opened Results
  import Clean

  /** One `<td>`: its `text_content()` and the `href`s of the links under it, in
      document order. */
  datatype Cell = Cell(text: seq<char>, hrefs: seq<seq<char>>)

  /** One `<tr>` of the table: its direct `<td>` children. */
  datatype Row = Row(cells: seq<Cell>)

  /** `DirectorEntry` (lines 57-63). */
  datatype Entry = Entry(name: seq<char>, wins: nat, relativeUrl: seq<char>)

  // ---------------------------------------------------------------------------
  // Reading the rows (lines 145-165)
  // ---------------------------------------------------------------------------

  /** The win count a row announces: only a two-cell row whose first cell, cleaned
      and stripped of everything but digits, leaves at least one digit. */
  function WinsOf(row: Row): (w: Option<nat>)
    ensures w.Some? ==> |row.cells| == 2
  {
    if |row.cells| == 2 then
      var digits := KeepDigits(Clean.CleanText(row.cells[0].text));
      if |digits| > 0 then Some(DecimalValue(digits)) else None
    else None
  }

  /** `current_wins` after reading `row`. */
  function Update(row: Row, current: Option<nat>): Option<nat> {
    if WinsOf(row).Some? then WinsOf(row) else current
  }

  /** `name_cell.xpath(".//a/@href")[0]`, or `""` when the cell has no link. */
  function FirstHref(cell: Cell): seq<char> {
    if |cell.hrefs| > 0 then cell.hrefs[0] else ""
  }

  /** The entry a row contributes under the win count in force: none for a row
      without cells, before any count is known, or with a blank name cell. */
  function EntryAt(row: Row, current: Option<nat>): (r: seq<Entry>)
    ensures |r| <= 1
    ensures |r| == 1 ==> current.Some? && |row.cells| > 0 && r[0].wins == current.value
    ensures |r| == 1 ==> |r[0].name| > 0 && r[0].name == Clean.CleanText(row.cells[|row.cells| - 1].text)
    ensures |r| == 1 <==>
      |row.cells| > 0 && current.Some? && |Clean.CleanText(row.cells[|row.cells| - 1].text)| > 0
    ensures |r| == 1 ==>
      && |row.cells| > 0
      && r[0].relativeUrl == FirstHref(row.cells[|row.cells| - 1])
  {
    if |row.cells| == 0 || current.None? then []
    else
      var nameCell := row.cells[|row.cells| - 1];
      var name := Clean.CleanText(nameCell.text);
      if |name| == 0 then []
      else [Entry(name, current.value, FirstHref(nameCell))]
  }

  /** The loop of lines 148-165, carrying `current_wins` forward. */
  function ParseRows(rows: seq<Row>, current: Option<nat>): (r: seq<Entry>)
    ensures |r| <= |rows|
    ensures forall i :: 0 <= i < |r| ==> |r[i].name| > 0
  {
    if |rows| == 0 then []
    else
      var next := Update(rows[0], current);
      EntryAt(rows[0], next) + ParseRows(rows[1..], next)
  }

  /** The win count in force at the last of `rows`: that of the latest row that
      announces one, else `current`. */
  function LatestWins(rows: seq<Row>, current: Option<nat>): Option<nat> {
    if |rows| == 0 then current
    else if WinsOf(rows[|rows| - 1]).Some? then WinsOf(rows[|rows| - 1])
    else LatestWins(rows[..|rows| - 1], current)
  }

  /** Reference definition read backwards: each row contributes its entry under the
      latest count announced at or above it. */
  function EntriesRef(rows: seq<Row>, current: Option<nat>): seq<Entry> {
    if |rows| == 0 then []
    else EntriesRef(rows[..|rows| - 1], current) + EntryAt(rows[|rows| - 1], LatestWins(rows, current))
  }

  // ---------------------------------------------------------------------------
  // Tiers (lines 168-171)
  // ---------------------------------------------------------------------------

  /** `grouped[w]`: the entries with `w` wins, in table order. */
  function Bucket(entries: seq<Entry>, w: nat): (r: seq<Entry>)
    ensures forall i :: 0 <= i < |r| ==> r[i].wins == w
  {
    if |entries| == 0 then []
    else (if entries[0].wins == w then [entries[0]] else []) + Bucket(entries[1..], w)
  }

  /** The entries with at least `w` wins, in table order. */
  function AtLeast(entries: seq<Entry>, w: nat): seq<Entry> {
    if |entries| == 0 then []
    else (if entries[0].wins >= w then [entries[0]] else []) + AtLeast(entries[1..], w)
  }

  predicate HasWins(entries: seq<Entry>, w: nat) {
    exists i :: 0 <= i < |entries| && entries[i].wins == w
  }

  function MaxWins(entries: seq<Entry>): (m: nat)
    ensures forall i :: 0 <= i < |entries| ==> entries[i].wins <= m
  {
    if |entries| == 0 then 0
    else if entries[0].wins >= MaxWins(entries[1..]) then entries[0].wins
    else MaxWins(entries[1..])
  }

  /** The win counts below `w` that occur, highest first. */
  function KeysBelow(entries: seq<Entry>, w: nat): seq<nat>
    decreases w
  {
    if w == 0 then []
    else (if HasWins(entries, w - 1) then [w - 1] else []) + KeysBelow(entries, w - 1)
  }

  /** `sorted(grouped.keys(), reverse=True)`. */
  function SortedKeys(entries: seq<Entry>): seq<nat> {
    KeysBelow(entries, MaxWins(entries) + 1)
  }

  // ---------------------------------------------------------------------------
  // Choosing (lines 172-183)
  // ---------------------------------------------------------------------------

  /** `rng.sample(pool, k)` on the pool path of CPython's `Random.sample`: the i-th
      pick is `pool[j]` with `j` the i-th draw reduced below the live pool size, and
      the last live element then takes its place. */
  function Sample(pool: seq<Entry>, k: nat, draw: nat -> nat, i: nat): (r: seq<Entry>)
    requires k <= |pool|
    ensures |r| == k
    decreases k
  {
    if k == 0 then []
    else
      var n := |pool|;
      var j := Pick(draw(i), n);
      [pool[j]] + Sample(Swap(pool, j), k - 1, draw, i + 1)
  }

  /** A raw draw reduced below the live pool size `n`. */
  function Pick(x: nat, n: nat): (j: nat)
    requires n > 0
    ensures j < n
  {
    x % n
  }

  /** The pool after a draw at `j`: the last slot moves into `j` and the pool
      shrinks by one, as `pool[j] = pool[n - i - 1]` does. */
  function Swap(pool: seq<Entry>, j: nat): (r: seq<Entry>)
    requires j < |pool|
    ensures |r| == |pool| - 1
  {
    pool[j := pool[|pool| - 1]][..|pool| - 1]
  }

  /** The loop of lines 173-183 over the tiers `keys`. */
  function Select(entries: seq<Entry>, keys: seq<nat>, topN: nat, selected: seq<Entry>, draw: nat -> nat): seq<Entry>
    decreases |keys|
  {
    if |keys| == 0 || |selected| >= topN then selected
    else
      var bucket := Bucket(entries, keys[0]);
      var remaining := topN - |selected|;
      if |bucket| <= remaining then Select(entries, keys[1..], topN, selected + bucket, draw)
      else Select(entries, keys[1..], topN, selected + Sample(bucket, remaining, draw, 0), draw)
  }

  /** `parse_top_directors(page_html, top_n, seed)`. `table` is the located
      "Multiple wins" table as its rows in document order, or `None` when the page
      has none; `draw` stands for the random number generator. */
  function ParseTopDirectors(table: Option<seq<Row>>, topN: int, draw: nat -> nat): Result<seq<Entry>> {
    if topN <= 0 then Ok([])
    else if table.None? then Err(WinsTableMissing)
    else
      var rows := if |table.value| == 0 then [] else table.value[1..];
      var entries := ParseRows(rows, None);
      if |entries| == 0 then Ok([])
      else
        var selected := Select(entries, SortedKeys(entries), topN, [], draw);
        Ok(if |selected| <= topN then selected else selected[..topN])
  }

  /** The entries `parse_top_directors` reads off the table. */
  function TableEntries(rows: seq<Row>): seq<Entry> {
    ParseRows(if |rows| == 0 then [] else rows[1..], None)
  }

  // ---------------------------------------------------------------------------
  // Properties of the choice
  // ---------------------------------------------------------------------------

  predicate NonIncreasing(s: seq<Entry>) {
    forall i, j :: 0 <= i < j < |s| ==> s[i].wins >= s[j].wins
  }

  predicate AllAtLeast(s: seq<Entry>, w: nat) {
    forall i :: 0 <= i < |s| ==> s[i].wins >= w
  }

  /** What the choice promises about `chosen` drawn from `entries`: as many as asked
      for or as there are, each a distinct entry, highest wins first, and no entry
      left out that has more wins than one that was taken. */
  predicate Chosen(entries: seq<Entry>, topN: nat, chosen: seq<Entry>) {
    && |chosen| == (if topN <= |entries| then topN else |entries|)
    && multiset(chosen) <= multiset(entries)
    && NonIncreasing(chosen)
    && forall e | e in multiset(entries) - multiset(chosen) :: AllAtLeast(chosen, e.wins)
  }

  // ---------------------------------------------------------------------------
  // Lemmas
  // ---------------------------------------------------------------------------

  lemma {:induction false} PoolShrink(pool: seq<Entry>, j: nat)
    requires j < |pool|
    ensures multiset(Swap(pool, j)) + multiset{pool[j]} == multiset(pool)
  {
    var n := |pool|;
    var q := Swap(pool, j);
    if j == n - 1 {
      assert q == pool[..n - 1];
      assert pool == pool[..n - 1] + [pool[n - 1]];
    } else {
      assert q == pool[..j] + [pool[n - 1]] + pool[j + 1..n - 1];
      assert pool == pool[..j] + [pool[j]] + pool[j + 1..n - 1] + [pool[n - 1]];
    }
  }

  /** One pick of the sample, then the sample of the shrunken pool. */
  lemma {:induction false} SampleCons(pool: seq<Entry>, k: nat, draw: nat -> nat, i: nat)
    requires 0 < k <= |pool|
    ensures var j := Pick(draw(i), |pool|);
      multiset(Sample(pool, k, draw, i))
        == multiset{pool[j]} + multiset(Sample(Swap(pool, j), k - 1, draw, i + 1))
  {
  }

  /** One pick keeps the sample inside the pool when the rest of the sample
      stays inside the shrunken pool. */
  lemma {:induction false} SampleStep(pool: seq<Entry>, k: nat, draw: nat -> nat, i: nat)
    requires 0 < k <= |pool|
    requires var rest := Swap(pool, Pick(draw(i), |pool|));
      multiset(Sample(rest, k - 1, draw, i + 1)) <= multiset(rest)
    ensures multiset(Sample(pool, k, draw, i)) <= multiset(pool)
  {
    var j := Pick(draw(i), |pool|);
    var rest := Swap(pool, j);
    PoolShrink(pool, j);
    SampleCons(pool, k, draw, i);
    AddOne(pool[j], multiset(Sample(rest, k - 1, draw, i + 1)), multiset(rest), multiset(pool));
  }

  /** The sample takes `k` distinct positions of the pool, whatever the draws. */
  lemma {:induction false} SampleSpec(pool: seq<Entry>, k: nat, draw: nat -> nat, i: nat)
    requires k <= |pool|
    ensures multiset(Sample(pool, k, draw, i)) <= multiset(pool)
    decreases k
  {
    if k > 0 {
      SampleSpec(Swap(pool, Pick(draw(i), |pool|)), k - 1, draw, i + 1);
      SampleStep(pool, k, draw, i);
    }
  }

  lemma {:induction false} AddOne(x: Entry, a: multiset<Entry>, b: multiset<Entry>, c: multiset<Entry>)
    requires a <= b && b + multiset{x} == c
    ensures multiset{x} + a <= c
  {
  }

  lemma {:induction false} LatestWinsCons(row: Row, rest: seq<Row>, current: Option<nat>)
    ensures LatestWins([row] + rest, current) == LatestWins(rest, Update(row, current))
    decreases |rest|
  {
    var rows := [row] + rest;
    if |rest| > 0 {
      assert rows[..|rows| - 1] == [row] + rest[..|rest| - 1];
      assert rows[|rows| - 1] == rest[|rest| - 1];
      LatestWinsCons(row, rest[..|rest| - 1], current);
    } else {
      assert rows[..|rows| - 1] == [];
    }
  }

  /** The last row of `[row] + rest`, once the shorter list is known to split. */
  lemma {:induction false} EntriesRefConsStep(row: Row, rest: seq<Row>, current: Option<nat>)
    requires |rest| > 0
    requires var next := Update(row, current);
      EntriesRef([row] + rest[..|rest| - 1], current) ==
        EntryAt(row, next) + EntriesRef(rest[..|rest| - 1], next)
    ensures EntriesRef([row] + rest, current) ==
      EntryAt(row, Update(row, current)) + EntriesRef(rest, Update(row, current))
  {
    var rows := [row] + rest;
    var next := Update(row, current);
    var init := rest[..|rest| - 1];
    var last := rest[|rest| - 1];
    var e := EntryAt(last, LatestWins(rest, next));
    assert EntriesRef(rows, current) == EntriesRef([row] + init, current) + e by {
      assert rows[..|rows| - 1] == [row] + init;
      assert rows[|rows| - 1] == last;
      LatestWinsCons(row, rest, current);
    }
    assert EntriesRef(rest, next) == EntriesRef(init, next) + e;
    Associate(EntryAt(row, next), EntriesRef(init, next), e);
  }

  lemma {:induction false} Associate(a: seq<Entry>, b: seq<Entry>, c: seq<Entry>)
    ensures (a + b) + c == a + (b + c)
  {
  }

  lemma {:induction false} EntriesRefCons(row: Row, rest: seq<Row>, current: Option<nat>)
    ensures EntriesRef([row] + rest, current) ==
      EntryAt(row, Update(row, current)) + EntriesRef(rest, Update(row, current))
    decreases |rest|
  {
    if |rest| > 0 {
      EntriesRefCons(row, rest[..|rest| - 1], current);
      EntriesRefConsStep(row, rest, current);
    } else {
      var rows := [row] + rest;
      assert rows[..|rows| - 1] == [];
      assert LatestWins(rows, current) == Update(row, current);
    }
  }

  /** Reading forwards with a running count gives the backward reference reading:
      each entry carries the count of the latest row above it that announced one. */
  lemma {:induction false} ParseRowsIsRef(rows: seq<Row>, current: Option<nat>)
    ensures ParseRows(rows, current) == EntriesRef(rows, current)
    decreases |rows|
  {
    if |rows| > 0 {
      ParseRowsIsRef(rows[1..], Update(rows[0], current));
      EntriesRefHead(rows, current);
    }
  }

  lemma {:induction false} EntriesRefHead(rows: seq<Row>, current: Option<nat>)
    requires |rows| > 0
    ensures EntriesRef(rows, current) ==
      EntryAt(rows[0], Update(rows[0], current)) + EntriesRef(rows[1..], Update(rows[0], current))
  {
    assert rows == [rows[0]] + rows[1..];
    EntriesRefCons(rows[0], rows[1..], current);
  }

  lemma {:induction false} KeysBelowMembers(entries: seq<Entry>, w: nat)
    ensures forall k: nat :: k in KeysBelow(entries, w) <==> k < w && HasWins(entries, k)
    decreases w
  {
    if w > 0 {
      KeysBelowMembers(entries, w - 1);
    }
  }

  lemma {:induction false} KeysBelowSpec(entries: seq<Entry>, w: nat)
    ensures forall i, j :: 0 <= i < j < |KeysBelow(entries, w)| ==>
      KeysBelow(entries, w)[i] > KeysBelow(entries, w)[j]
    ensures forall k: nat :: k in KeysBelow(entries, w) <==> k < w && HasWins(entries, k)
    decreases w
  {
    KeysBelowMembers(entries, w);
    if w > 0 {
      var rest := KeysBelow(entries, w - 1);
      KeysBelowSpec(entries, w - 1);
      if HasWins(entries, w - 1) {
        assert KeysBelow(entries, w) == [w - 1] + rest;
        assert forall j :: 0 <= j < |rest| ==> rest[j] in rest;
      }
    }
  }

  /** The tiers are walked from the most wins down, each win count that occurs
      exactly once. */
  lemma SortedKeysSpec(entries: seq<Entry>)
    ensures forall i, j :: 0 <= i < j < |SortedKeys(entries)| ==>
      SortedKeys(entries)[i] > SortedKeys(entries)[j]
    ensures forall k: nat :: k in SortedKeys(entries) <==> HasWins(entries, k)
  {
    KeysBelowSpec(entries, MaxWins(entries) + 1);
  }

  lemma {:induction false} AtLeastCount(entries: seq<Entry>, w: nat, e: Entry)
    ensures multiset(AtLeast(entries, w))[e] == if e.wins >= w then multiset(entries)[e] else 0
    decreases |entries|
  {
    if |entries| > 0 {
      AtLeastCount(entries[1..], w, e);
      assert entries == [entries[0]] + entries[1..];
    }
  }

  lemma {:induction false} BucketCount(entries: seq<Entry>, w: nat, e: Entry)
    ensures multiset(Bucket(entries, w))[e] == if e.wins == w then multiset(entries)[e] else 0
    decreases |entries|
  {
    if |entries| > 0 {
      BucketCount(entries[1..], w, e);
      assert entries == [entries[0]] + entries[1..];
    }
  }

  /** Lowering the bound by one adds exactly the bucket of the new bound. */
  lemma {:induction false} AtLeastStep(entries: seq<Entry>, w: nat)
    requires w > 0
    ensures multiset(AtLeast(entries, w - 1)) == multiset(AtLeast(entries, w)) + multiset(Bucket(entries, w - 1))
  {
    var v := w - 1;
    var lower, upper, bucket := multiset(AtLeast(entries, v)), multiset(AtLeast(entries, w)), multiset(Bucket(entries, v));
    forall e ensures lower[e] == (upper + bucket)[e] {
      AtLeastCount(entries, v, e);
      AtLeastCount(entries, w, e);
      BucketCount(entries, v, e);
    }
  }

  lemma {:induction false} AtLeastSkip(entries: seq<Entry>, w: nat)
    requires w > 0 && !HasWins(entries, w - 1)
    ensures multiset(AtLeast(entries, w - 1)) == multiset(AtLeast(entries, w))
  {
    var v := w - 1;
    var lower, upper := multiset(AtLeast(entries, v)), multiset(AtLeast(entries, w));
    forall e ensures lower[e] == upper[e] {
      AtLeastCount(entries, v, e);
      AtLeastCount(entries, w, e);
    }
  }

  lemma {:induction false} AtLeastZero(entries: seq<Entry>)
    ensures multiset(AtLeast(entries, 0)) == multiset(entries)
  {
    forall e ensures multiset(AtLeast(entries, 0))[e] == multiset(entries)[e] {
      AtLeastCount(entries, 0, e);
    }
  }

  lemma {:induction false} AtLeastWithin(entries: seq<Entry>, w: nat)
    ensures multiset(AtLeast(entries, w)) <= multiset(entries)
  {
    forall e ensures multiset(AtLeast(entries, w))[e] <= multiset(entries)[e] {
      AtLeastCount(entries, w, e);
    }
  }

  lemma {:induction false} BucketEmpty(entries: seq<Entry>, w: nat)
    requires !HasWins(entries, w)
    ensures Bucket(entries, w) == []
    decreases |entries|
  {
    if |entries| > 0 {
      assert entries[0].wins != w;
      assert !HasWins(entries[1..], w) by {
        forall i | 0 <= i < |entries[1..]| ensures entries[1..][i].wins != w {
          assert entries[1..][i] == entries[i + 1];
        }
      }
      BucketEmpty(entries[1..], w);
    }
  }

  lemma {:induction false} SelectDone(entries: seq<Entry>, keys: seq<nat>, topN: nat, selected: seq<Entry>, draw: nat -> nat)
    requires |selected| >= topN
    ensures Select(entries, keys, topN, selected, draw) == selected
  {
  }

  /** The state of the walk, not yet full, once every tier of `w` wins or more has
      been taken whole. */
  predicate WalkState(entries: seq<Entry>, w: nat, topN: nat, selected: seq<Entry>) {
    && |selected| < topN
    && multiset(selected) == multiset(AtLeast(entries, w))
    && NonIncreasing(selected)
    && AllAtLeast(selected, w)
  }

  lemma {:induction false} SubMultisetSize(a: seq<Entry>, b: seq<Entry>)
    requires multiset(a) <= multiset(b)
    ensures |a| <= |b|
  {
    var d := multiset(b) - multiset(a);
    assert multiset(b) == multiset(a) + d;
    assert |multiset(b)| == |multiset(a)| + |d|;
  }

  lemma {:induction false} AllAtLeastLower(s: seq<Entry>, w: nat, v: nat)
    requires AllAtLeast(s, w) && v <= w
    ensures AllAtLeast(s, v)
  {
  }

  lemma {:induction false} AppendNonIncreasing(a: seq<Entry>, b: seq<Entry>, w: nat)
    requires w > 0 && NonIncreasing(a) && AllAtLeast(a, w)
    requires forall i :: 0 <= i < |b| ==> b[i].wins == w - 1
    ensures NonIncreasing(a + b) && AllAtLeast(a + b, w - 1)
  {
  }

  lemma {:induction false} SampleFromBucket(s: seq<Entry>, bucket: seq<Entry>, w: nat)
    requires multiset(s) <= multiset(bucket)
    requires forall i :: 0 <= i < |bucket| ==> bucket[i].wins == w
    ensures forall i :: 0 <= i < |s| ==> s[i].wins == w
  {
    forall i | 0 <= i < |s| ensures s[i].wins == w {
      assert s[i] in multiset(s);
      assert s[i] in multiset(bucket);
    }
  }

  /** Taking the whole next bucket gives exactly the entries of one win fewer or
      more. */
  lemma {:induction false} WholeBucket(entries: seq<Entry>, w: nat, selected: seq<Entry>)
    requires w > 0 && multiset(selected) == multiset(AtLeast(entries, w))
    ensures multiset(selected + Bucket(entries, w - 1)) == multiset(AtLeast(entries, w - 1))
  {
    AtLeastStep(entries, w);
  }

  /** Taking part of the next bucket stays within the entries. */
  lemma {:induction false} PartBucket(entries: seq<Entry>, w: nat, selected: seq<Entry>, part: seq<Entry>)
    requires w > 0 && multiset(selected) == multiset(AtLeast(entries, w))
    requires multiset(part) <= multiset(Bucket(entries, w - 1))
    ensures multiset(selected + part) <= multiset(entries)
  {
    AtLeastStep(entries, w);
    AtLeastWithin(entries, w - 1);
  }

  /** Once every tier above `w - 1` is in, a full selection drawn from the entries
      with at least `w - 1` wins is a valid choice. */
  lemma {:induction false} ChosenWhenFull(entries: seq<Entry>, w: nat, topN: nat, selected: seq<Entry>, next: seq<Entry>)
    requires w > 0
    requires multiset(selected) == multiset(AtLeast(entries, w))
    requires multiset(selected) <= multiset(next) <= multiset(entries)
    requires |next| == topN
    requires NonIncreasing(next) && AllAtLeast(next, w - 1)
    ensures Chosen(entries, topN, next)
  {
    SubMultisetSize(next, entries);
    forall e | e in multiset(entries) - multiset(next)
      ensures AllAtLeast(next, e.wins)
    {
      AtLeastCount(entries, w, e);
      AllAtLeastLower(next, w - 1, e.wins);
    }
  }

  /** At the bottom of the walk, a selection that is not full holds every entry. */
  lemma {:induction false} ChosenAtBottom(entries: seq<Entry>, topN: nat, selected: seq<Entry>)
    requires WalkState(entries, 0, topN, selected)
    ensures Chosen(entries, topN, selected)
  {
    AtLeastZero(entries);
    SubMultisetSize(selected, entries);
    SubMultisetSize(entries, selected);
  }

  /** One tier with an empty bucket changes nothing. */
  lemma {:induction false} StepAbsent(entries: seq<Entry>, w: nat, topN: nat, selected: seq<Entry>)
    requires w > 0 && !HasWins(entries, w - 1)
    requires WalkState(entries, w, topN, selected)
    ensures WalkState(entries, w - 1, topN, selected)
  {
    AtLeastSkip(entries, w);
    AllAtLeastLower(selected, w, w - 1);
  }

  lemma {:induction false} SubMultisetOfAppend(a: seq<Entry>, b: seq<Entry>)
    ensures multiset(a) <= multiset(a + b)
  {
    assert multiset(a + b) == multiset(a) + multiset(b);
  }

  /** A bucket that fits without filling the selection is taken whole and the walk
      goes on. */
  lemma {:induction false} StepWhole(entries: seq<Entry>, w: nat, topN: nat, selected: seq<Entry>)
    requires w > 0 && WalkState(entries, w, topN, selected)
    requires |selected + Bucket(entries, w - 1)| < topN
    ensures WalkState(entries, w - 1, topN, selected + Bucket(entries, w - 1))
  {
    var next := selected + Bucket(entries, w - 1);
    WholeBucket(entries, w, selected);
    AppendNonIncreasing(selected, Bucket(entries, w - 1), w);
  }

  /** A bucket that exactly fills the selection is taken whole and ends the walk. */
  lemma {:induction false} StepWholeFull(entries: seq<Entry>, w: nat, topN: nat, selected: seq<Entry>)
    requires w > 0 && WalkState(entries, w, topN, selected)
    requires |selected + Bucket(entries, w - 1)| == topN
    ensures Chosen(entries, topN, selected + Bucket(entries, w - 1))
  {
    StepSampled(entries, w, topN, selected, Bucket(entries, w - 1));
  }

  /** A bucket that does not fit is sampled, which fills the selection. */
  lemma {:induction false} StepSampled(entries: seq<Entry>, w: nat, topN: nat, selected: seq<Entry>, chosen: seq<Entry>)
    requires w > 0 && WalkState(entries, w, topN, selected)
    requires |selected + chosen| == topN
    requires multiset(chosen) <= multiset(Bucket(entries, w - 1))
    ensures Chosen(entries, topN, selected + chosen)
  {
    PartBucket(entries, w, selected, chosen);
    SampleFromBucket(chosen, Bucket(entries, w - 1), w - 1);
    AppendNonIncreasing(selected, chosen, w);
    SubMultisetOfAppend(selected, chosen);
    ChosenWhenFull(entries, w, topN, selected, selected + chosen);
  }

  /** One tier of the walk, when its bucket fits. */
  lemma {:induction false} SelectStepWhole(entries: seq<Entry>, w: nat, rest: seq<nat>, topN: nat, selected: seq<Entry>, draw: nat -> nat)
    requires |selected| < topN && |Bucket(entries, w)| <= topN - |selected|
    ensures Select(entries, [w] + rest, topN, selected, draw) ==
      Select(entries, rest, topN, selected + Bucket(entries, w), draw)
  {
    assert ([w] + rest)[0] == w && ([w] + rest)[1..] == rest;
  }

  /** One tier of the walk, when its bucket does not fit. */
  lemma {:induction false} SelectStepSampled(entries: seq<Entry>, w: nat, rest: seq<nat>, topN: nat, selected: seq<Entry>, draw: nat -> nat)
    requires |selected| < topN && |Bucket(entries, w)| > topN - |selected|
    ensures Select(entries, [w] + rest, topN, selected, draw) ==
      Select(entries, rest, topN, selected + Sample(Bucket(entries, w), topN - |selected|, draw, 0), draw)
  {
    assert ([w] + rest)[0] == w && ([w] + rest)[1..] == rest;
  }

  /** The walk over the remaining tiers ends in a valid choice. */
  lemma {:induction false} SelectChosen(entries: seq<Entry>, w: nat, topN: nat, selected: seq<Entry>, draw: nat -> nat)
    requires WalkState(entries, w, topN, selected)
    ensures Chosen(entries, topN, Select(entries, KeysBelow(entries, w), topN, selected, draw))
    decreases w, 1
  {
    if w == 0 {
      ChosenAtBottom(entries, topN, selected);
    } else if !HasWins(entries, w - 1) {
      assert KeysBelow(entries, w) == KeysBelow(entries, w - 1);
      StepAbsent(entries, w, topN, selected);
      SelectChosen(entries, w - 1, topN, selected, draw);
    } else if |Bucket(entries, w - 1)| <= topN - |selected| {
      SelectChosenWhole(entries, w, topN, selected, draw);
    } else {
      SelectChosenSampled(entries, w, topN, selected, draw);
    }
  }

  lemma {:induction false} SelectChosenWhole(entries: seq<Entry>, w: nat, topN: nat, selected: seq<Entry>, draw: nat -> nat)
    requires w > 0 && HasWins(entries, w - 1)
    requires |Bucket(entries, w - 1)| <= topN - |selected|
    requires WalkState(entries, w, topN, selected)
    ensures Chosen(entries, topN, Select(entries, KeysBelow(entries, w), topN, selected, draw))
    decreases w, 0
  {
    var rest := KeysBelow(entries, w - 1);
    assert KeysBelow(entries, w) == [w - 1] + rest;
    var next := selected + Bucket(entries, w - 1);
    SelectStepWhole(entries, w - 1, rest, topN, selected, draw);
    if |next| < topN {
      StepWhole(entries, w, topN, selected);
      SelectChosen(entries, w - 1, topN, next, draw);
    } else {
      StepWholeFull(entries, w, topN, selected);
      SelectDone(entries, rest, topN, next, draw);
    }
  }

  lemma {:induction false} SelectChosenSampled(entries: seq<Entry>, w: nat, topN: nat, selected: seq<Entry>, draw: nat -> nat)
    requires w > 0 && HasWins(entries, w - 1)
    requires |Bucket(entries, w - 1)| > topN - |selected|
    requires WalkState(entries, w, topN, selected)
    ensures Chosen(entries, topN, Select(entries, KeysBelow(entries, w), topN, selected, draw))
  {
    var rest := KeysBelow(entries, w - 1);
    assert KeysBelow(entries, w) == [w - 1] + rest;
    var bucket := Bucket(entries, w - 1);
    var chosen := Sample(bucket, topN - |selected|, draw, 0);
    var next := selected + chosen;
    SampleSpec(bucket, topN - |selected|, draw, 0);
    SelectStepSampled(entries, w - 1, rest, topN, selected, draw);
    StepSampled(entries, w, topN, selected, chosen);
    SelectDone(entries, rest, topN, next, draw);
  }

  /** No entry has more wins than the most. */
  lemma {:induction false} NothingAboveMax(entries: seq<Entry>)
    ensures multiset(AtLeast(entries, MaxWins(entries) + 1)) == multiset{}
  {
    var w := MaxWins(entries) + 1;
    forall e ensures multiset(AtLeast(entries, w))[e] == 0 {
      AtLeastCount(entries, w, e);
      if e in multiset(entries) {
        var i :| 0 <= i < |entries| && entries[i] == e;
      }
    }
  }

  /** Walking every tier from the top makes a valid choice. */
  lemma {:induction false} SelectFromTop(entries: seq<Entry>, topN: nat, draw: nat -> nat)
    requires topN > 0
    ensures Chosen(entries, topN, Select(entries, SortedKeys(entries), topN, [], draw))
  {
    NothingAboveMax(entries);
    SelectChosen(entries, MaxWins(entries) + 1, topN, [], draw);
  }

  // ---------------------------------------------------------------------------
  // Table order inside the tiers
  // ---------------------------------------------------------------------------

  /** Every tier strictly above the tier of some chosen entry is in `chosen` whole,
      and every tier chosen in full keeps table order: such a tier was appended by
      `selected.extend(bucket)`. Only a sampled tier may come in another order. */
  ghost predicate WholeAbove(entries: seq<Entry>, chosen: seq<Entry>) {
    && (forall i, k: nat {:trigger Bucket(chosen, k), chosen[i]} ::
          0 <= i < |chosen| && k > chosen[i].wins ==> Bucket(chosen, k) == Bucket(entries, k))
    && (forall k: nat {:trigger Bucket(chosen, k)} ::
          |Bucket(chosen, k)| == |Bucket(entries, k)| ==> Bucket(chosen, k) == Bucket(entries, k))
  }

  /** `WholeAbove` for the one tier `k`. */
  predicate TierKept(entries: seq<Entry>, chosen: seq<Entry>, k: nat) {
    && (forall i :: 0 <= i < |chosen| && k > chosen[i].wins ==> Bucket(chosen, k) == Bucket(entries, k))
    && (|Bucket(chosen, k)| == |Bucket(entries, k)| ==> Bucket(chosen, k) == Bucket(entries, k))
  }

  /** The walk so far, seen from tier `k`: nothing below `w` has been taken, and
      if `k` is at least `w` its tier has been taken whole, in table order. */
  predicate TierTaken(entries: seq<Entry>, selected: seq<Entry>, w: nat, k: nat) {
    && (k >= w ==> Bucket(selected, k) == Bucket(entries, k))
    && AllAtLeast(selected, w)
  }

  lemma {:induction false} BucketAppend(a: seq<Entry>, b: seq<Entry>, k: nat)
    ensures Bucket(a + b, k) == Bucket(a, k) + Bucket(b, k)
    decreases |a|
  {
    if |a| == 0 {
      assert a + b == b;
    } else {
      assert (a + b)[0] == a[0] && (a + b)[1..] == a[1..] + b;
      BucketAppend(a[1..], b, k);
      Associate(if a[0].wins == k then [a[0]] else [], Bucket(a[1..], k), Bucket(b, k));
    }
  }

  /** A sequence drawn from one tier is its own bucket. */
  lemma {:induction false} BucketOfTier(s: seq<Entry>, k: nat)
    requires forall i :: 0 <= i < |s| ==> s[i].wins == k
    ensures Bucket(s, k) == s
    decreases |s|
  {
    if |s| > 0 {
      BucketOfTier(s[1..], k);
      assert s == [s[0]] + s[1..];
    }
  }

  /** Nothing below `w` is in the bucket of a sequence with at least `w` wins each. */
  lemma {:induction false} BucketBelow(s: seq<Entry>, w: nat, k: nat)
    requires AllAtLeast(s, w) && k < w
    ensures Bucket(s, k) == []
  {
    BucketEmpty(s, k);
  }

  lemma {:induction false} TierTakenAbsent(entries: seq<Entry>, selected: seq<Entry>, w: nat, k: nat)
    requires w > 0 && TierTaken(entries, selected, w, k) && !HasWins(entries, w - 1)
    ensures TierTaken(entries, selected, w - 1, k)
  {
    if k == w - 1 {
      BucketEmpty(entries, k);
      BucketBelow(selected, w, k);
    }
  }

  lemma {:induction false} TierTakenWhole(entries: seq<Entry>, selected: seq<Entry>, w: nat, k: nat)
    requires w > 0 && TierTaken(entries, selected, w, k)
    ensures TierTaken(entries, selected + Bucket(entries, w - 1), w - 1, k)
  {
    var b := Bucket(entries, w - 1);
    if k >= w - 1 {
      BucketAppend(selected, b, k);
      if k == w - 1 {
        BucketBelow(selected, w, k);
        BucketOfTier(b, k);
        assert [] + b == b;
      } else {
        BucketEmpty(b, k);
        assert Bucket(selected, k) + [] == Bucket(selected, k);
      }
    }
  }

  /** Below the lowest tier taken nothing was chosen, so a tier there counts as
      chosen in full only when it is empty. */
  lemma {:induction false} TierBelowKept(entries: seq<Entry>, r: seq<Entry>, w: nat, k: nat)
    requires AllAtLeast(r, w) && k < w
    ensures TierKept(entries, r, k)
  {
    BucketBelow(r, w, k);
  }

  /** A sample of part of the next tier ends the walk with every higher tier whole. */
  lemma {:induction false} TierTakenSampled(entries: seq<Entry>, selected: seq<Entry>, w: nat, chosen: seq<Entry>, k: nat)
    requires w > 0 && TierTaken(entries, selected, w, k)
    requires forall i :: 0 <= i < |chosen| ==> chosen[i].wins == w - 1
    requires |chosen| < |Bucket(entries, w - 1)|
    ensures TierKept(entries, selected + chosen, k)
  {
    var r := selected + chosen;
    assert AllAtLeast(r, w - 1);
    BucketAppend(selected, chosen, k);
    if k >= w {
      BucketEmpty(chosen, k);
      assert Bucket(selected, k) + [] == Bucket(selected, k);
    } else if k == w - 1 {
      BucketBelow(selected, w, k);
      BucketOfTier(chosen, k);
      assert [] + chosen == chosen;
    } else {
      TierBelowKept(entries, r, w - 1, k);
    }
  }

  lemma {:induction false} TierTakenDone(entries: seq<Entry>, selected: seq<Entry>, w: nat, k: nat)
    requires TierTaken(entries, selected, w, k)
    ensures TierKept(entries, selected, k)
  {
    if k < w {
      TierBelowKept(entries, selected, w, k);
    }
  }

  /** The walk over the remaining tiers keeps tier `k` whole and in table order when
      it lies above the lowest tier taken or is taken in full. */
  lemma {:induction false} SelectTiers(entries: seq<Entry>, w: nat, topN: nat, selected: seq<Entry>, draw: nat -> nat, k: nat)
    requires TierTaken(entries, selected, w, k)
    ensures TierKept(entries, Select(entries, KeysBelow(entries, w), topN, selected, draw), k)
    decreases w, 1
  {
    if w == 0 || |selected| >= topN {
      SelectTiersEnd(entries, w, topN, selected, draw, k);
    } else if !HasWins(entries, w - 1) {
      SelectTiersAbsent(entries, w, topN, selected, draw, k);
    } else if |Bucket(entries, w - 1)| <= topN - |selected| {
      SelectTiersWhole(entries, w, topN, selected, draw, k);
    } else {
      SelectTiersSampled(entries, w, topN, selected, draw, k);
    }
  }

  lemma {:induction false} SelectTiersAbsent(entries: seq<Entry>, w: nat, topN: nat, selected: seq<Entry>, draw: nat -> nat, k: nat)
    requires w > 0 && !HasWins(entries, w - 1)
    requires TierTaken(entries, selected, w, k)
    ensures TierKept(entries, Select(entries, KeysBelow(entries, w), topN, selected, draw), k)
    decreases w, 0
  {
    assert KeysBelow(entries, w) == KeysBelow(entries, w - 1);
    TierTakenAbsent(entries, selected, w, k);
    SelectTiers(entries, w - 1, topN, selected, draw, k);
  }

  /** With no tier left or the selection full, the walk stops where it is. */
  lemma {:induction false} SelectTiersEnd(entries: seq<Entry>, w: nat, topN: nat, selected: seq<Entry>, draw: nat -> nat, k: nat)
    requires w == 0 || |selected| >= topN
    requires TierTaken(entries, selected, w, k)
    ensures TierKept(entries, Select(entries, KeysBelow(entries, w), topN, selected, draw), k)
  {
    if |selected| >= topN {
      SelectDone(entries, KeysBelow(entries, w), topN, selected, draw);
    } else {
      assert KeysBelow(entries, w) == [];
    }
    TierTakenDone(entries, selected, w, k);
  }

  lemma {:induction false} SelectTiersWhole(entries: seq<Entry>, w: nat, topN: nat, selected: seq<Entry>, draw: nat -> nat, k: nat)
    requires w > 0 && HasWins(entries, w - 1) && |selected| < topN
    requires |Bucket(entries, w - 1)| <= topN - |selected|
    requires TierTaken(entries, selected, w, k)
    ensures TierKept(entries, Select(entries, KeysBelow(entries, w), topN, selected, draw), k)
    decreases w, 0
  {
    var rest := KeysBelow(entries, w - 1);
    assert KeysBelow(entries, w) == [w - 1] + rest;
    SelectStepWhole(entries, w - 1, rest, topN, selected, draw);
    TierTakenWhole(entries, selected, w, k);
    SelectTiers(entries, w - 1, topN, selected + Bucket(entries, w - 1), draw, k);
  }

  lemma {:induction false} SelectTiersSampled(entries: seq<Entry>, w: nat, topN: nat, selected: seq<Entry>, draw: nat -> nat, k: nat)
    requires w > 0 && HasWins(entries, w - 1) && |selected| < topN
    requires |Bucket(entries, w - 1)| > topN - |selected|
    requires TierTaken(entries, selected, w, k)
    ensures TierKept(entries, Select(entries, KeysBelow(entries, w), topN, selected, draw), k)
  {
    var rest := KeysBelow(entries, w - 1);
    assert KeysBelow(entries, w) == [w - 1] + rest;
    var chosen := Sample(Bucket(entries, w - 1), topN - |selected|, draw, 0);
    SampleOfTier(Bucket(entries, w - 1), topN - |selected|, draw, w - 1);
    SelectStepSampled(entries, w - 1, rest, topN, selected, draw);
    SelectDone(entries, rest, topN, selected + chosen, draw);
    TierTakenSampled(entries, selected, w, chosen, k);
  }

  /** A sample of fewer than all entries of one tier is a part of that tier. */
  lemma {:induction false} SampleOfTier(bucket: seq<Entry>, k: nat, draw: nat -> nat, w: nat)
    requires k < |bucket|
    requires forall i :: 0 <= i < |bucket| ==> bucket[i].wins == w
    ensures |Sample(bucket, k, draw, 0)| < |bucket|
    ensures forall i :: 0 <= i < |Sample(bucket, k, draw, 0)| ==> Sample(bucket, k, draw, 0)[i].wins == w
  {
    SampleSpec(bucket, k, draw, 0);
    SampleFromBucket(Sample(bucket, k, draw, 0), bucket, w);
  }

  /** Walking every tier from the top keeps each tier above the lowest one taken
      whole and in table order, and so is every tier taken in full. */
  lemma {:induction false} SelectFromTopTiers(entries: seq<Entry>, topN: nat, draw: nat -> nat)
    ensures WholeAbove(entries, Select(entries, SortedKeys(entries), topN, [], draw))
  {
    var top := MaxWins(entries) + 1;
    var r := Select(entries, KeysBelow(entries, top), topN, [], draw);
    assert SortedKeys(entries) == KeysBelow(entries, top);
    forall k: nat ensures TierKept(entries, r, k) {
      FromTop(entries, topN, draw, k);
    }
    TiersKept(entries, r);
  }

  lemma {:induction false} FromTop(entries: seq<Entry>, topN: nat, draw: nat -> nat, k: nat)
    ensures TierKept(entries, Select(entries, KeysBelow(entries, MaxWins(entries) + 1), topN, [], draw), k)
  {
    if k >= MaxWins(entries) + 1 {
      BucketEmpty(entries, k);
    }
    SelectTiers(entries, MaxWins(entries) + 1, topN, [], draw, k);
  }

  /** Every tier kept one by one is `WholeAbove`. */
  lemma {:induction false} TiersKept(entries: seq<Entry>, r: seq<Entry>)
    requires forall k: nat :: TierKept(entries, r, k)
    ensures WholeAbove(entries, r)
  {
    forall i, k: nat | 0 <= i < |r| && k > r[i].wins
      ensures Bucket(r, k) == Bucket(entries, k)
    {
      assert TierKept(entries, r, k);
    }
    forall k: nat | |Bucket(r, k)| == |Bucket(entries, k)|
      ensures Bucket(r, k) == Bucket(entries, k)
    {
      assert TierKept(entries, r, k);
    }
  }

  /** What `parse_top_directors` promises: nothing for a non-positive `top_n`
      (whatever the page), an error when the table is missing, and otherwise a
      valid choice among the entries the table lists, whatever the random draws,
      with every tier taken in full in table order. */
  lemma {:induction false} ParseTopDirectorsSpec(table: Option<seq<Row>>, topN: int, draw: nat -> nat)
    ensures topN <= 0 ==> ParseTopDirectors(table, topN, draw) == Ok([])
    ensures topN > 0 && table.None? ==> ParseTopDirectors(table, topN, draw) == Err(WinsTableMissing)
    ensures topN > 0 && table.Some? ==>
      ParseTopDirectors(table, topN, draw).Ok? &&
      Chosen(TableEntries(table.value), topN, ParseTopDirectors(table, topN, draw).value)
    ensures topN > 0 && table.Some? ==>
      ParseTopDirectors(table, topN, draw).Ok? &&
      WholeAbove(TableEntries(table.value), ParseTopDirectors(table, topN, draw).value)
  {
    if topN > 0 && table.Some? {
      var entries := TableEntries(table.value);
      if |entries| > 0 {
        SelectFromTop(entries, topN, draw);
        SelectFromTopTiers(entries, topN, draw);
      }
    }
  }

  /** The header row is skipped whatever it holds; the rows below it are read as
      the reference reading describes. */
  lemma {:induction false} TableEntriesSkipsHeader(header: Row, rows: seq<Row>)
    ensures TableEntries([header] + rows) == EntriesRef(rows, None)
  {
    assert ([header] + rows)[1..] == rows;
    ParseRowsIsRef(rows, None);
  }

  // ---------------------------------------------------------------------------
  // Win-count cells
  // ---------------------------------------------------------------------------

  /** A row announces a count exactly when it has two cells and the cleaned first
      cell holds a digit; the count is the number written by all those digits, in
      order. */
  lemma {:induction false} WinsOfSpec(row: Row)
    ensures WinsOf(row).Some? <==>
      |row.cells| == 2 && HasDigit(Clean.CleanText(row.cells[0].text))
    ensures WinsOf(row).Some? ==>
      WinsOf(row).value == DecimalValue(KeepDigits(Clean.CleanText(row.cells[0].text)))
  {
    if |row.cells| == 2 {
      KeepDigitsNonEmpty(Clean.CleanText(row.cells[0].text));
    }
  }

  /** A count with a citation, such as `4[a]` or `4[1]`, reads as the count alone:
      the citation goes before the digits are taken. */
  lemma {:induction false} WinsOfCitedCount(d: seq<char>, x: seq<char>, hrefs: seq<seq<char>>, name: Cell)
    requires |d| > 0 && AllDigits(d)
    requires |x| > 0 && ']' !in x && Clean.NoSpecials(x)
    ensures WinsOf(Row([Cell(d + "[" + x + "]", hrefs), name])) == Some(DecimalValue(d))
  {
    Clean.DigitsAreClean(d);
    Clean.CleanTextDropsCitation(d, x);
    KeepDigitsOfDigits(d);
  }

  /** Digits split by a space, such as `1 1`, are read together: `11`. */
  lemma {:induction false} WinsOfSpacedDigits(a: seq<char>, b: seq<char>, hrefs: seq<seq<char>>, name: Cell)
    requires |a| > 0 && AllDigits(a) && |b| > 0 && AllDigits(b)
    ensures AllDigits(a + b)
    ensures WinsOf(Row([Cell(a + " " + b, hrefs), name])) == Some(DecimalValue(a + b))
  {
    Clean.SpacedDigitsAreClean(a, b);
    Clean.CleanTextFixesClean(a + " " + b);
    KeepDigitsSkipsSpace(a, b);
  }
}
