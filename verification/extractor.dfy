/**
 * The row-folding extractor of scrape_abfuhrtermine: the rows of the
 * schedule table are read in document order; a header row selects (and
 * empties) a category, and a data row adds its second cell's text, as a date
 * string, to the category selected last.
 */
module Extractor {
  import opened Wrappers
  import opened Text
  import opened OrderedDict

  /**
   * One row of the schedule table: a row with a header cell, carrying that
   * cell's text, or a row without one, carrying the texts of its data cells.
   */
  datatype Row = Header(text: string) | Data(cells: seq<string>)

  /** The keys the four known German labels select. */
  const KnownKeys: set<string> := {"restmuell", "biomuell", "altpapier", "gelbersack"}

  /** The known labels, in the order they are tried, each with the key it selects. */
  const Labels: seq<(string, string)> :=
    [("restabfall", "restmuell"), ("bioabfall", "biomuell"),
     ("altpapier", "altpapier"), ("gelber sack", "gelbersack")]

  /** Header text as the labels are matched against it: stripped, then lower-cased. */
  function Normalised(text: string): string {
    Lower(Strip(text))
  }

  /**
   * The category key of a header row: the key of the first known label that
   * occurs in the normalised text, else the normalised text itself.
   */
  function CategoryKey(text: string): (key: string)
    ensures key in KnownKeys || key == Normalised(text)
  {
    var t := Normalised(text);
    if Contains(t, "restabfall") then "restmuell"
    else if Contains(t, "bioabfall") then "biomuell"
    else if Contains(t, "altpapier") then "altpapier"
    else if Contains(t, "gelber sack") then "gelbersack"
    else t
  }

  /** Table-driven reading of the label rules: the first entry whose label occurs in t wins. */
  function FirstMatch(table: seq<(string, string)>, t: string): string {
    if table == [] then t
    else if Contains(t, table[0].0) then table[0].1
    else FirstMatch(table[1..], t)
  }

  /** The if-chain over the labels is exactly first-match-wins over the label table. */
  lemma CategoryKeyIsFirstMatch(text: string)
    ensures CategoryKey(text) == FirstMatch(Labels, Normalised(text))
  {
    var t := Normalised(text);
    assert Labels[1..] == [("bioabfall", "biomuell"), ("altpapier", "altpapier"), ("gelber sack", "gelbersack")];
    assert Labels[1..][1..] == [("altpapier", "altpapier"), ("gelber sack", "gelbersack")];
    assert Labels[1..][1..][1..] == [("gelber sack", "gelbersack")];
    assert Labels[1..][1..][1..][1..] == [];
    assert FirstMatch(Labels, t) == if Contains(t, "restabfall") then "restmuell" else FirstMatch(Labels[1..], t);
    assert FirstMatch(Labels[1..], t) == if Contains(t, "bioabfall") then "biomuell" else FirstMatch(Labels[1..][1..], t);
    assert FirstMatch(Labels[1..][1..], t) == if Contains(t, "altpapier") then "altpapier" else FirstMatch(Labels[1..][1..][1..], t);
    assert FirstMatch(Labels[1..][1..][1..], t) == if Contains(t, "gelber sack") then "gelbersack" else t;
  }

  /** A header containing none of the labels is its own key, stripped and lower-cased. */
  lemma CategoryKeyFallback(text: string)
    requires forall e :: e in Labels ==> !Contains(Normalised(text), e.0)
    ensures CategoryKey(text) == Normalised(text)
  {
    assert Labels[0] in Labels && Labels[1] in Labels && Labels[2] in Labels && Labels[3] in Labels;
  }

  /** Python truthiness of current_type: neither None nor the empty string. */
  predicate Truthy(current: Option<string>) {
    current.Some? && current.value != ""
  }

  /** The loop state: current_type and the results dict. */
  datatype Scan = Scan(current: Option<string>, results: Dict) {
    /** The active key, when there is one, has an entry. */
    ghost predicate Valid() {
      results.Valid() && (current.Some? ==> current.value in results.entries)
    }
  }

  /**
   * One iteration of the loop over the rows. keyOf turns a header's text into
   * its category key: the scraper uses CategoryKey (see Extract), and the
   * lemmas about the loop hold for every key function.
   */
  function Step(s: Scan, row: Row, keyOf: string -> string): (r: Scan)
    requires s.Valid()
    ensures r.Valid()
  {
    match row
    case Header(text) =>
      var key := keyOf(text);
      Scan(Some(key), Put(s.results, key, []))
    case Data(cells) =>
      if |cells| >= 2 && Truthy(s.current) then
        Scan(s.current, AppendTo(s.results, s.current.value, Strip(cells[1])))
      else s
  }

  /** The loop state after the given rows, starting from no category and `{}`. */
  function ScanRows(rows: seq<Row>, keyOf: string -> string): (r: Scan)
    ensures r.Valid()
  {
    if rows == [] then Scan(None, Empty)
    else Step(ScanRows(rows[..|rows| - 1], keyOf), rows[|rows| - 1], keyOf)
  }

  /** The results dict after the given rows. */
  function Results(rows: seq<Row>, keyOf: string -> string): (d: Dict)
    ensures d.Valid()
  {
    ScanRows(rows, keyOf).results
  }

  /** What scrape_abfuhrtermine returns for the given table rows. */
  function Extract(rows: seq<Row>): (d: Dict)
    ensures d.Valid()
  {
    Results(rows, CategoryKey)
  }

  /** The loop of scrape_abfuhrtermine over the table rows. */
  method ScrapeRows(rows: seq<Row>) returns (results: Dict)
    ensures results == Extract(rows)
  {
    results := Empty;
    var currentType: Option<string> := None;
    var i := 0;
    while i < |rows|
      invariant 0 <= i <= |rows|
      invariant Scan(currentType, results) == ScanRows(rows[..i], CategoryKey)
    {
      assert rows[..i + 1][..i] == rows[..i];
      match rows[i] {
        case Header(text) =>
          currentType := Some(CategoryKey(text));
          results := Put(results, currentType.value, []);
        case Data(cells) =>
          if |cells| >= 2 && Truthy(currentType) {
            var date := Strip(cells[1]);
            results := AppendTo(results, currentType.value, date);
          }
      }
      i := i + 1;
    }
    assert rows[..i] == rows;
  }

  // ---------------------------------------------------------------------------
  // The result described directly in terms of the rows

  /** The row is a header row whose category key is k. */
  predicate HasKey(row: Row, k: string, keyOf: string -> string) {
    row.Header? && keyOf(row.text) == k
  }

  /** No row of s is a header row. */
  predicate NoHeader(s: seq<Row>) {
    forall i :: 0 <= i < |s| ==> s[i].Data?
  }

  /** Index of the last header row, or -1 when there is none. */
  function LastHeader(rows: seq<Row>): (r: int)
    ensures -1 <= r < |rows|
    ensures r >= 0 ==> rows[r].Header?
    ensures forall i :: r < i < |rows| ==> rows[i].Data?
  {
    if rows == [] then -1
    else if rows[|rows| - 1].Header? then |rows| - 1
    else LastHeader(rows[..|rows| - 1])
  }

  /** The category selected by the last header row, if any. */
  function ActiveKey(rows: seq<Row>, keyOf: string -> string): Option<string> {
    var h := LastHeader(rows);
    if h < 0 then None else Some(keyOf(rows[h].text))
  }

  /** The keys of the header rows, in row order, repeats included. */
  function HeaderKeys(rows: seq<Row>, keyOf: string -> string): (ks: seq<string>)
    ensures forall k :: k in ks <==> exists i :: 0 <= i < |rows| && HasKey(rows[i], k, keyOf)
  {
    if rows == [] then []
    else
      var init := rows[..|rows| - 1];
      var last := rows[|rows| - 1];
      var ks := HeaderKeys(init, keyOf);
      assert forall i :: 0 <= i < |init| ==> init[i] == rows[i];
      if last.Header? then ks + [keyOf(last.text)] else ks
  }

  /** The dates a section contributes: qualifying data rows up to the next header. */
  function SectionDates(rows: seq<Row>): seq<string> {
    if rows == [] then []
    else match rows[0]
      case Header(_) => []
      case Data(cells) => (if |cells| >= 2 then [Strip(cells[1])] else []) + SectionDates(rows[1..])
  }

  /** The active category after the rows is the one the last header selected. */
  lemma {:induction false} ScanCurrent(rows: seq<Row>, keyOf: string -> string)
    ensures ScanRows(rows, keyOf).current == ActiveKey(rows, keyOf)
  {
    if rows != [] {
      var init := rows[..|rows| - 1];
      ScanCurrent(init, keyOf);
      if rows[|rows| - 1].Data? {
        assert LastHeader(rows) == LastHeader(init);
      }
    }
  }

  /**
   * The result's keys are the header rows' keys in order of first occurrence:
   * a repeated header does not move its key.
   */
  lemma {:induction false} ResultKeyOrder(rows: seq<Row>, keyOf: string -> string)
    ensures Results(rows, keyOf).keys == Dedup(HeaderKeys(rows, keyOf))
  {
    if rows != [] {
      var init := rows[..|rows| - 1];
      ResultKeyOrder(init, keyOf);
      var last := rows[|rows| - 1];
      if last.Header? {
        var ks := HeaderKeys(rows, keyOf);
        assert ks[..|ks| - 1] == HeaderKeys(init, keyOf);
      }
    }
  }

  /** The result has exactly one key per distinct header key, and no other. */
  lemma ResultKeys(rows: seq<Row>, keyOf: string -> string)
    ensures forall k :: k in Results(rows, keyOf).entries <==>
      exists i :: 0 <= i < |rows| && HasKey(rows[i], k, keyOf)
  {
    ResultKeyOrder(rows, keyOf);
  }

  lemma {:induction false} HeaderKeysOfNoHeader(rows: seq<Row>, keyOf: string -> string)
    requires NoHeader(rows)
    ensures HeaderKeys(rows, keyOf) == []
  {
    if rows != [] {
      HeaderKeysOfNoHeader(rows[..|rows| - 1], keyOf);
    }
  }

  /** Without any header row the result is `{}`: data rows before a header are dropped. */
  lemma NoHeaderNoResults(rows: seq<Row>, keyOf: string -> string)
    requires NoHeader(rows)
    ensures Results(rows, keyOf) == Empty
  {
    ResultKeyOrder(rows, keyOf);
    HeaderKeysOfNoHeader(rows, keyOf);
    assert Results(rows, keyOf).entries == map[];
  }

  lemma {:induction false} SectionDatesAppendHeader(s: seq<Row>, text: string)
    ensures SectionDates(s + [Header(text)]) == SectionDates(s)
  {
    if s != [] {
      assert (s + [Header(text)])[1..] == s[1..] + [Header(text)];
      SectionDatesAppendHeader(s[1..], text);
    }
  }

  lemma {:induction false} SectionDatesAppendData(s: seq<Row>, cells: seq<string>)
    ensures SectionDates(s + [Data(cells)]) ==
      if NoHeader(s) && |cells| >= 2 then SectionDates(s) + [Strip(cells[1])] else SectionDates(s)
  {
    if s != [] {
      assert (s + [Data(cells)])[1..] == s[1..] + [Data(cells)];
      SectionDatesAppendData(s[1..], cells);
      assert NoHeader(s) <==> s[0].Data? && NoHeader(s[1..]) by {
        assert forall i :: 1 <= i < |s| ==> s[i] == s[1..][i - 1];
      }
    }
  }

  /** Where the last header is, relative to a header at j with no later header for its key. */
  lemma {:induction false} LastHeaderAfter(rows: seq<Row>, j: int, keyOf: string -> string)
    requires 0 <= j < |rows| && rows[j].Header?
    requires forall i :: j < i < |rows| ==> !HasKey(rows[i], keyOf(rows[j].text), keyOf)
    ensures NoHeader(rows[j + 1..]) ==> ActiveKey(rows, keyOf) == Some(keyOf(rows[j].text))
    ensures !NoHeader(rows[j + 1..]) ==>
      ActiveKey(rows, keyOf).Some? && ActiveKey(rows, keyOf).value != keyOf(rows[j].text)
  {
    var h := LastHeader(rows);
    assert h >= j;
    if NoHeader(rows[j + 1..]) {
      assert forall i :: j < i < |rows| ==> rows[i] == rows[j + 1..][i - j - 1];
      assert h == j;
    } else {
      var i :| 0 <= i < |rows[j + 1..]| && rows[j + 1..][i].Header?;
      assert rows[j + 1 + i].Header?;
      assert h > j;
      assert !HasKey(rows[h], keyOf(rows[j].text), keyOf);
    }
  }

  /** A header row for another key leaves k's section as it is. */
  lemma SectionStepHeader(rows: seq<Row>, j: int, text: string, keyOf: string -> string)
    requires 0 <= j < |rows| && rows[j].Header?
    requires keyOf(text) != keyOf(rows[j].text)
    requires var k := keyOf(rows[j].text);
      k in Results(rows, keyOf).entries &&
      Results(rows, keyOf).entries[k] == if k == "" then [] else SectionDates(rows[j + 1..])
    ensures var k, rows' := keyOf(rows[j].text), rows + [Header(text)];
      k in Results(rows', keyOf).entries &&
      Results(rows', keyOf).entries[k] == if k == "" then [] else SectionDates(rows'[j + 1..])
  {
    ResultHeaderRow(rows, text, keyOf);
    SectionDatesAppendHeader(rows[j + 1..], text);
    assert (rows + [Header(text)])[j + 1..] == rows[j + 1..] + [Header(text)];
  }

  /** A data row extends k's section exactly when k is still the active key. */
  lemma SectionStepData(rows: seq<Row>, j: int, cells: seq<string>, keyOf: string -> string)
    requires 0 <= j < |rows| && rows[j].Header?
    requires forall i :: j < i < |rows| ==> !HasKey(rows[i], keyOf(rows[j].text), keyOf)
    requires var k := keyOf(rows[j].text);
      k in Results(rows, keyOf).entries &&
      Results(rows, keyOf).entries[k] == if k == "" then [] else SectionDates(rows[j + 1..])
    ensures var k, rows' := keyOf(rows[j].text), rows + [Data(cells)];
      k in Results(rows', keyOf).entries &&
      Results(rows', keyOf).entries[k] == if k == "" then [] else SectionDates(rows'[j + 1..])
  {
    ResultDataRow(rows, cells, keyOf);
    SectionDatesAppendData(rows[j + 1..], cells);
    LastHeaderAfter(rows, j, keyOf);
    assert (rows + [Data(cells)])[j + 1..] == rows[j + 1..] + [Data(cells)];
  }

  /** Extending the rows by one row that is not a header for k keeps k's section in step. */
  lemma SectionStep(rows: seq<Row>, j: int, last: Row, keyOf: string -> string)
    requires 0 <= j < |rows| && rows[j].Header?
    requires forall i :: j < i < |rows| ==> !HasKey(rows[i], keyOf(rows[j].text), keyOf)
    requires !HasKey(last, keyOf(rows[j].text), keyOf)
    requires var k := keyOf(rows[j].text);
      k in Results(rows, keyOf).entries &&
      Results(rows, keyOf).entries[k] == if k == "" then [] else SectionDates(rows[j + 1..])
    ensures var k, rows' := keyOf(rows[j].text), rows + [last];
      k in Results(rows', keyOf).entries &&
      Results(rows', keyOf).entries[k] == if k == "" then [] else SectionDates(rows'[j + 1..])
  {
    match last {
      case Header(text) => SectionStepHeader(rows, j, text, keyOf);
      case Data(cells) => SectionStepData(rows, j, cells, keyOf);
    }
  }

  /**
   * The list under a key holds the dates of the section opened by that key's
   * LAST header, up to the next header; earlier sections under the same key
   * were discarded when the header repeated. The empty key stays empty.
   */
  lemma {:induction false} ResultSection(rows: seq<Row>, j: int, keyOf: string -> string)
    requires 0 <= j < |rows| && rows[j].Header?
    requires forall i :: j < i < |rows| ==> !HasKey(rows[i], keyOf(rows[j].text), keyOf)
    ensures keyOf(rows[j].text) in Results(rows, keyOf).entries
    ensures Results(rows, keyOf).entries[keyOf(rows[j].text)] ==
      if keyOf(rows[j].text) == "" then [] else SectionDates(rows[j + 1..])
  {
    var n := |rows|;
    var init := rows[..n - 1];
    if j == n - 1 {
      ResultHeaderRow(init, rows[j].text, keyOf);
      assert init + [rows[j]] == rows;
      assert rows[j + 1..] == [];
    } else {
      assert init[j] == rows[j];
      assert forall i :: j < i < |init| ==> init[i] == rows[i];
      ResultSection(init, j, keyOf);
      SectionStep(init, j, rows[n - 1], keyOf);
      assert init + [rows[n - 1]] == rows;
    }
  }

  /**
   * A header row binds its key to an empty list, even when the key was
   * present, keeps every other entry, and appends the key to the order only
   * when it is new.
   */
  lemma ResultHeaderRow(rows: seq<Row>, text: string, keyOf: string -> string)
    ensures var d, d', k := Results(rows, keyOf), Results(rows + [Header(text)], keyOf), keyOf(text);
      && k in d'.entries && d'.entries[k] == []
      && (forall k' :: k' != k ==> (k' in d'.entries <==> k' in d.entries))
      && (forall k' :: k' != k && k' in d.entries ==> d'.entries[k'] == d.entries[k'])
      && d'.keys == (if k in d.entries then d.keys else d.keys + [k])
  {
    assert (rows + [Header(text)])[..|rows|] == rows;
  }

  /**
   * A data row changes the result only when it has at least two cells and a
   * non-empty category is active; then exactly the stripped second cell is
   * appended to that category's list and every other entry stays.
   */
  lemma ResultDataRow(rows: seq<Row>, cells: seq<string>, keyOf: string -> string)
    ensures var a := ActiveKey(rows, keyOf); a.Some? ==> a.value in Results(rows, keyOf).entries
    ensures var d, d', a := Results(rows, keyOf), Results(rows + [Data(cells)], keyOf), ActiveKey(rows, keyOf);
      && d'.keys == d.keys && d'.entries.Keys == d.entries.Keys
      && (if |cells| >= 2 && Truthy(a)
          then d'.entries == d.entries[a.value := d.entries[a.value] + [Strip(cells[1])]]
          else d' == d)
  {
    assert (rows + [Data(cells)])[..|rows|] == rows;
    ScanCurrent(rows, keyOf);
  }

  // ---------------------------------------------------------------------------
  // Worked example

  /** The header "Restabfall" selects "restmuell". */
  lemma RestabfallKey(text: string)
    requires text == "Restabfall"
    ensures CategoryKey(text) == "restmuell"
  {
    StripStripped(text);
    LowerAt(text);
    assert Normalised(text) == "restabfall";
    assert OccursAt("restabfall", "restabfall", 0);
    ContainsOccurs("restabfall", "restabfall");
  }

  /** A lone header row opens its category with an empty list. */
  lemma ScanOneHeader(text: string, keyOf: string -> string)
    ensures var k := keyOf(text); ScanRows([Header(text)], keyOf) == Scan(Some(k), Dict([k], map[k := []]))
  {
    assert [Header(text)][..0] == [];
  }

  /** While the only category is open, a data row with two cells appends its stripped date. */
  lemma ScanOneData(rows: seq<Row>, cells: seq<string>, keyOf: string -> string, k: string, ds: seq<string>)
    requires ScanRows(rows, keyOf) == Scan(Some(k), Dict([k], map[k := ds]))
    requires k != "" && |cells| >= 2
    ensures ScanRows(rows + [Data(cells)], keyOf) == Scan(Some(k), Dict([k], map[k := ds + [Strip(cells[1])]]))
  {
    var rows' := rows + [Data(cells)];
    assert rows'[..|rows|] == rows;
    var x := Strip(cells[1]);
    var m := map[k := ds];
    assert m[k := m[k] + [x]] == map[k := ds + [x]];
    assert ScanRows(rows', keyOf) == Step(Scan(Some(k), Dict([k], m)), Data(cells), keyOf);
  }

  /**
   * A header with a non-empty key followed by two data rows gives exactly one
   * entry, holding both dates in row order.
   */
  lemma OneSection(h: string, x: string, y: string, d1: string, d2: string, keyOf: string -> string)
    requires keyOf(h) != "" && Stripped(d1) && Stripped(d2)
    ensures var k := keyOf(h);
      Results([Header(h), Data([x, d1]), Data([y, d2])], keyOf) == Dict([k], map[k := [d1, d2]])
  {
    var k := keyOf(h);
    var r1 := [Header(h)];
    var r2 := r1 + [Data([x, d1])];
    var r3 := r2 + [Data([y, d2])];
    ScanOneHeader(h, keyOf);
    StripStripped(d1);
    ScanOneData(r1, [x, d1], keyOf, k, []);
    assert [] + [d1] == [d1];
    StripStripped(d2);
    ScanOneData(r2, [y, d2], keyOf, k, [d1]);
    assert [d1] + [d2] == [d1, d2];
    assert r3 == [Header(h), Data([x, d1]), Data([y, d2])];
  }

  /**
   * A "Restabfall" header followed by two data rows gives exactly
   * `{"restmuell": [date1, date2]}`.
   */
  lemma ExampleRestabfall(x: string, y: string, d1: string, d2: string)
    requires Stripped(d1) && Stripped(d2)
    ensures Extract([Header("Restabfall"), Data([x, d1]), Data([y, d2])])
         == Dict(["restmuell"], map["restmuell" := [d1, d2]])
  {
    var h := "Restabfall";
    RestabfallKey(h);
    OneSection(h, x, y, d1, d2, CategoryKey);
  }
}
