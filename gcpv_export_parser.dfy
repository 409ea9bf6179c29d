/**
 * `GcpvExportParser`: each export row yields one `GcpvRacerRowData`, its fields found by label and
 * offset; rows are then grouped into races by race number, each race's racers sorted by lane.
 * Splitting a row into cells (a CSV library's job) is the parameter `tokenize`.
 */
module GcpvExportParser {
  import opened Wrappers
  import opened Text
  import opened Numbers
  import opened Sorting
  import opened LineFilters
  import opened GcpvModels

  type Tokenizer = string -> seq<string>

  // ---------------------------------------------------------------------------------------------
  // Finding a field by its label

  /** The cell is the label `key`: equal after trimming, ignoring case. */
  predicate IsLabel(cell: string, key: string) {
    EqualsIgnoreCase(Trim(cell), key)
  }

  /** The first index from `from` on whose element satisfies `p`. */
  function FirstFrom<T>(s: seq<T>, p: T -> bool, from: nat): (r: Option<nat>)
    requires from <= |s|
    ensures r.None? <==> forall j :: from <= j < |s| ==> !p(s[j])
    ensures r.Some? ==> from <= r.value < |s| && p(s[r.value])
                        && forall j :: from <= j < r.value ==> !p(s[j])
    decreases |s| - from
  {
    if from == |s| then None
    else if p(s[from]) then Some(from)
    else FirstFrom(s, p, from + 1)
  }

  /** An index whose element satisfies `p` with none before it is the first one. */
  lemma FirstFromAt<T>(s: seq<T>, p: T -> bool, k: nat)
    requires k < |s| && p(s[k]) && forall j :: 0 <= j < k ==> !p(s[j])
    ensures FirstFrom(s, p, 0) == Some(k)
  {
  }

  /**
   * A search loop: the index of the first element satisfying `p`, or -1. `GetValueByKey` runs it
   * over the cells of a row to find the label.
   */
  method FirstIndex<T>(s: seq<T>, p: T -> bool) returns (k: int)
    ensures k == -1 <==> FirstFrom(s, p, 0).None?
    ensures k != -1 ==> FirstFrom(s, p, 0) == Some(k)
  {
    for i := 0 to |s|
      invariant forall j :: 0 <= j < i ==> !p(s[j])
    {
      if p(s[i]) {
        FirstFromAt(s, p, i);
        return i;
      }
    }
    return -1;
  }

  /** The label test for `key`, as a value. */
  function LabelOf(key: string): (p: string -> bool)
    ensures forall c :: p(c) == IsLabel(c, key)
  {
    (c: string) => IsLabel(c, key)
  }

  /** The index of the first cell that is the label `key`. */
  function FindLabel(cells: seq<string>, key: string): (r: Option<nat>)
    ensures r.None? <==> forall j :: 0 <= j < |cells| ==> !IsLabel(cells[j], key)
    ensures r.Some? ==> r.value < |cells| && IsLabel(cells[r.value], key)
                        && forall j :: 0 <= j < r.value ==> !IsLabel(cells[j], key)
  {
    FirstFrom(cells, LabelOf(key), 0)
  }

  /** The non-blank stop words, longest first, equal lengths in configuration order. */
  function SortedStopWords(words: seq<string>): seq<string> {
    SortBy(Where(words, (w: string) => !IsBlank(w)), (w: string) => -|w|)
  }

  /** The first of `ws` that `value` ends with. */
  function FirstSuffix(value: string, ws: seq<string>): (r: Option<nat>)
    ensures r.None? <==> forall j :: 0 <= j < |ws| ==> !EndsWith(value, ws[j])
    ensures r.Some? ==> r.value < |ws| && EndsWith(value, ws[r.value])
                        && forall j :: 0 <= j < r.value ==> !EndsWith(value, ws[j])
  {
    FirstFrom(ws, (w: string) => EndsWith(value, w), 0)
  }

  /** `RemoveSuffixStopWords`, the value it computes. */
  function StripStopWords(value: string, words: seq<string>): string {
    if IsBlank(value) then value
    else
      var sorted := SortedStopWords(words);
      match FirstSuffix(value, sorted)
      case None => value
      case Some(i) => Trim(value[..|value| - |sorted[i]|])
  }

  /**
   * `RemoveSuffixStopWords`: the stop words are tried longest first and the first one the value
   * ends with is removed, the rest then trimmed.
   */
  method RemoveSuffixStopWords(value: string, suffixStopWords: seq<string>) returns (r: string)
    ensures r == StripStopWords(value, suffixStopWords)
  {
    if IsBlank(value) {
      return value;
    }
    var sorted := SortedStopWords(suffixStopWords);
    r := value;
    var i := 0;
    while i < |sorted|
      invariant 0 <= i <= |sorted|
      invariant forall j :: 0 <= j < i ==> !EndsWith(value, sorted[j])
    {
      if EndsWith(value, sorted[i]) {
        r := Trim(value[..|value| - |sorted[i]|]);
        assert FirstSuffix(value, sorted) == Some(i);
        return;
      }
      i := i + 1;
    }
  }

  /** The sorted stop words are exactly the non-blank ones, from longest to shortest. */
  lemma SortedStopWordsFacts(words: seq<string>)
    ensures forall w :: w in SortedStopWords(words) <==> w in words && !IsBlank(w)
    ensures var s := SortedStopWords(words);
      forall i, j :: 0 <= i < j < |s| ==> |s[j]| <= |s[i]|
  {
    var kept := Where(words, (w: string) => !IsBlank(w));
    var key := (w: string) => -|w|;
    var s := SortedStopWords(words);
    SortByPermutes(kept, key);
    SortBySorted(kept, key);
    forall w ensures w in s <==> w in kept {
      assert w in s <==> w in multiset(s);
      assert w in kept <==> w in multiset(kept);
    }
    forall i, j | 0 <= i < j < |s| ensures |s[j]| <= |s[i]| {
      assert key(s[i]) <= key(s[j]);
    }
  }

  /** Without a non-blank stop word the value ends with, the value is returned unchanged. */
  lemma StripStopWordsNoMatch(value: string, words: seq<string>)
    requires forall w :: w in words && !IsBlank(w) ==> !EndsWith(value, w)
    ensures StripStopWords(value, words) == value
  {
    SortedStopWordsFacts(words);
  }

  /**
   * Otherwise the value loses a longest non-blank stop word it ends with, and the rest is trimmed.
   */
  lemma StripStopWordsLongest(value: string, words: seq<string>)
    requires !IsBlank(value)
    requires exists w :: w in words && !IsBlank(w) && EndsWith(value, w)
    ensures exists w :: w in words && !IsBlank(w) && EndsWith(value, w)
                        && StripStopWords(value, words) == Trim(value[..|value| - |w|])
                        && forall w' :: w' in words && !IsBlank(w') && EndsWith(value, w') ==> |w'| <= |w|
  {
    SortedStopWordsFacts(words);
    var sorted := SortedStopWords(words);
    var w0 :| w0 in words && !IsBlank(w0) && EndsWith(value, w0);
    assert w0 in sorted;
    var i := FirstSuffix(value, sorted).value;
    var w := sorted[i];
    assert w in sorted;
    assert StripStopWords(value, words) == Trim(value[..|value| - |w|]);
    forall w' | w' in words && !IsBlank(w') && EndsWith(value, w') ensures |w'| <= |w| {
      assert w' in sorted;
      var j :| 0 <= j < |sorted| && sorted[j] == w';
      LongestFirst(sorted, value, i, j);
    }
  }

  lemma LongestFirst(sorted: seq<string>, value: string, i: nat, j: nat)
    requires FirstSuffix(value, sorted) == Some(i)
    requires j < |sorted| && EndsWith(value, sorted[j])
    requires forall a, b :: 0 <= a < b < |sorted| ==> |sorted[b]| <= |sorted[a]|
    ensures |sorted[j]| <= |sorted[i]|
  {
  }

  /** Stripping only shortens the value, and leaves it trimmed when it removes something. */
  lemma StripStopWordsShortens(value: string, words: seq<string>)
    ensures |StripStopWords(value, words)| <= |value|
    ensures StripStopWords(value, words) != value ==> IsTrimmed(StripStopWords(value, words))
  {
    TrimIsTrimmed(value[..0]);
    if !IsBlank(value) {
      var sorted := SortedStopWords(words);
      match FirstSuffix(value, sorted)
      case None =>
      case Some(i) =>
        TrimIsTrimmed(value[..|value| - |sorted[i]|]);
    }
  }

  /**
   * `GetValueByKey`, the value it computes: a field missing from the configuration, a label absent
   * from the row, or a target cell outside the row is an error; otherwise the trimmed target cell
   * with its stop words removed.
   */
  function ValueByKey(cells: seq<string>, config: map<string, KeyFieldConfig>, fieldName: string): Result<string, string>
  {
    if fieldName !in config then Err("Key field '" + fieldName + "' not found in configuration.")
    else
      var kf := config[fieldName];
      match FindLabel(cells, kf.key)
      case None => Err("Key '" + kf.key + "' not found in row for field '" + fieldName + "'.")
      case Some(k) => ValueAt(cells, kf, fieldName, k + kf.offset)
  }

  /** The value in cell `target`, once the label is found: out of the row is an error. */
  function ValueAt(cells: seq<string>, kf: KeyFieldConfig, fieldName: string, target: int): Result<string, string> {
    if target >= |cells| then Err("Target column index is out of bounds for field '" + fieldName + "'.")
    else if target < 0 then Err("Index was out of range.")
    else Ok(CellValue(cells[target], kf.suffixStopWords))
  }

  /** A cell's value: trimmed, then stripped of its stop words when there are any. */
  function CellValue(cell: string, words: seq<string>): string {
    var value := Trim(cell);
    if |words| > 0 then StripStopWords(value, words) else value
  }

  /**
   * A value is found exactly when the field is configured, its label is in the row and the cell
   * the offset points to is in the row.
   */
  lemma ValueByKeyOkIff(cells: seq<string>, config: map<string, KeyFieldConfig>, fieldName: string)
    ensures ValueByKey(cells, config, fieldName).Ok? <==>
      fieldName in config && FindLabel(cells, config[fieldName].key).Some?
      && 0 <= FindLabel(cells, config[fieldName].key).value + config[fieldName].offset < |cells|
  {
  }

  /** A found value is trimmed and no longer than the cell it comes from. */
  lemma ValueByKeyTrimmed(cells: seq<string>, config: map<string, KeyFieldConfig>, fieldName: string)
    requires ValueByKey(cells, config, fieldName).Ok?
    ensures var kf := config[fieldName];
      var v := ValueByKey(cells, config, fieldName).value;
      IsTrimmed(v) && |v| <= |cells[FindLabel(cells, kf.key).value + kf.offset]|
  {
    var kf := config[fieldName];
    var cell := cells[FindLabel(cells, kf.key).value + kf.offset];
    TrimIsTrimmed(cell);
    StripStopWordsShortens(Trim(cell), kf.suffixStopWords);
  }

  /** `GetValueByKey`: the label search stops at the first matching cell. */
  method GetValueByKey(columns: seq<string>, config: map<string, KeyFieldConfig>, fieldName: string)
    returns (r: Result<string, string>)
    ensures r == ValueByKey(columns, config, fieldName)
  {
    if fieldName !in config {
      return Err("Key field '" + fieldName + "' not found in configuration.");
    }
    var keyField := config[fieldName];
    var keyIndex := FirstIndex(columns, LabelOf(keyField.key));
    assert FindLabel(columns, keyField.key) == FirstFrom(columns, LabelOf(keyField.key), 0);
    if keyIndex == -1 {
      return Err("Key '" + keyField.key + "' not found in row for field '" + fieldName + "'.");
    }
    assert FindLabel(columns, keyField.key) == Some(keyIndex);
    var targetIndex := keyIndex + keyField.offset;
    if targetIndex >= |columns| {
      return Err("Target column index is out of bounds for field '" + fieldName + "'.");
    }
    if targetIndex < 0 {
      return Err("Index was out of range.");
    }
    var value := Trim(columns[targetIndex]);
    if |keyField.suffixStopWords| > 0 {
      value := RemoveSuffixStopWords(value, keyField.suffixStopWords);
    }
    r := Ok(value);
  }

  // ---------------------------------------------------------------------------------------------
  // One row

  /**
   * `ParseRow`, the value it computes: a blank row is an error; otherwise the seven fields, read in
   * the order track_params, race_group, stage, race_number, lane, racer, affiliation, the first
   * failure being the error.
   */
  function RowData(row: string, config: map<string, KeyFieldConfig>, tokenize: Tokenizer): Result<GcpvRacerRowData, string> {
    if IsBlank(row) then Err("Row cannot be null or empty.")
    else
      var cells := tokenize(row);
      var trackParams :- ValueByKey(cells, config, "track_params");
      var raceGroup :- ValueByKey(cells, config, "race_group");
      var stage :- ValueByKey(cells, config, "stage");
      var raceNumber :- ValueByKey(cells, config, "race_number");
      var lane :- ValueByKey(cells, config, "lane");
      var racer :- ValueByKey(cells, config, "racer");
      var affiliation :- ValueByKey(cells, config, "affiliation");
      Ok(GcpvRacerRowData(raceNumber, trackParams, raceGroup, stage, lane, racer, affiliation))
  }

  /** `ParseRow`: the fields are looked up one after the other with `GetValueByKey`. */
  method ParseRow(row: string, config: map<string, KeyFieldConfig>, tokenize: Tokenizer)
    returns (r: Result<GcpvRacerRowData, string>)
    ensures r == RowData(row, config, tokenize)
  {
    if IsBlank(row) {
      return Err("Row cannot be null or empty.");
    }
    var columns := tokenize(row);
    var trackParams :- GetValueByKey(columns, config, "track_params");
    var raceGroup :- GetValueByKey(columns, config, "race_group");
    var stage :- GetValueByKey(columns, config, "stage");
    var raceNumber :- GetValueByKey(columns, config, "race_number");
    var lane :- GetValueByKey(columns, config, "lane");
    var racer :- GetValueByKey(columns, config, "racer");
    var affiliation :- GetValueByKey(columns, config, "affiliation");
    r := Ok(GcpvRacerRowData(raceNumber, trackParams, raceGroup, stage, lane, racer, affiliation));
  }

  /** The seven field names, in the order a row is read. */
  const FieldNames: seq<string> := ["track_params", "race_group", "stage", "race_number", "lane", "racer", "affiliation"]

  /** The values of `d` in the order of `FieldNames`. */
  function FieldValues(d: GcpvRacerRowData): (vs: seq<string>)
    ensures |vs| == |FieldNames|
  {
    [d.trackParams, d.raceGroup, d.stage, d.raceNumber, d.lane, d.racer, d.affiliation]
  }

  /** A configuration in which every field is the cell right after its label, without stop words. */
  predicate LabelThenValue(config: map<string, KeyFieldConfig>) {
    (forall f :: f in FieldNames ==> f in config && config[f].offset == 1 && config[f].suffixStopWords == [])
    && (forall i :: 0 <= i < |FieldNames| ==> IsLabel(config[FieldNames[i]].key, config[FieldNames[i]].key))
    && (forall i, j :: 0 <= i < |FieldNames| && 0 <= j < |FieldNames| && i != j ==>
          !IsLabel(config[FieldNames[i]].key, config[FieldNames[j]].key))
  }

  /** `ks[0], vs[0], ks[1], vs[1], ...` */
  function Interleave(ks: seq<string>, vs: seq<string>): (r: seq<string>)
    requires |ks| == |vs|
    ensures |r| == 2 * |ks|
    ensures forall x :: x in r ==> x in ks || x in vs
  {
    if ks == [] then [] else [ks[0], vs[0]] + Interleave(ks[1..], vs[1..])
  }

  lemma {:induction false} InterleaveAt(ks: seq<string>, vs: seq<string>, i: nat)
    requires |ks| == |vs| && i < |ks|
    ensures Interleave(ks, vs)[2 * i] == ks[i] && Interleave(ks, vs)[2 * i + 1] == vs[i]
    ensures Interleave(ks, vs)[..2 * i] == Interleave(ks[..i], vs[..i])
  {
    if i > 0 {
      InterleaveAt(ks[1..], vs[1..], i - 1);
      assert ks[1..][..i - 1] == ks[..i][1..];
      assert vs[1..][..i - 1] == vs[..i][1..];
    }
  }

  /** The labels of the seven fields, in field order. */
  function Labels(config: map<string, KeyFieldConfig>): (ks: seq<string>)
    requires forall f :: f in FieldNames ==> f in config
    ensures |ks| == |FieldNames| && forall i :: 0 <= i < |ks| ==> ks[i] == config[FieldNames[i]].key
  {
    seq(|FieldNames|, i requires 0 <= i < |FieldNames| => config[FieldNames[i]].key)
  }

  /** The cells of a row laid out label, value, label, value, ... in field order. */
  function LaidOut(config: map<string, KeyFieldConfig>, d: GcpvRacerRowData): (cells: seq<string>)
    requires LabelThenValue(config)
  {
    Interleave(Labels(config), FieldValues(d))
  }

  /** A value right after its label, with no stop words, is read as it is when trimmed. */
  lemma ValueByKeyNextCell(cells: seq<string>, config: map<string, KeyFieldConfig>, f: string, k: nat)
    requires f in config && config[f].offset == 1 && config[f].suffixStopWords == []
    requires FindLabel(cells, config[f].key) == Some(k) && k + 1 < |cells| && IsTrimmed(cells[k + 1])
    ensures ValueByKey(cells, config, f) == Ok(cells[k + 1])
  {
    TrimOfTrimmed(cells[k + 1]);
  }

  /** In a laid-out row no cell before the label of field `i` reads as that label. */
  lemma NoLabelBefore(config: map<string, KeyFieldConfig>, d: GcpvRacerRowData, i: nat)
    requires LabelThenValue(config) && i < |FieldNames|
    requires forall v, f :: v in FieldValues(d) && f in FieldNames ==> !IsLabel(v, config[f].key)
    ensures var cells := LaidOut(config, d);
      forall j :: 0 <= j < 2 * i ==> !IsLabel(cells[j], config[FieldNames[i]].key)
  {
    var ks, vs := Labels(config), FieldValues(d);
    var cells := LaidOut(config, d);
    var key := config[FieldNames[i]].key;
    InterleaveAt(ks, vs, i);
    forall j | 0 <= j < 2 * i ensures !IsLabel(cells[j], key) {
      assert cells[j] in Interleave(ks[..i], vs[..i]);
      if cells[j] in ks[..i] {
        var m :| 0 <= m < i && ks[m] == cells[j];
      } else {
        assert cells[j] in vs;
      }
    }
  }

  /** In a laid-out row the label of field `i` is found at cell `2 * i`, its value right after. */
  lemma ValueByKeyLaidOut(config: map<string, KeyFieldConfig>, d: GcpvRacerRowData, i: nat)
    requires LabelThenValue(config) && i < |FieldNames|
    requires forall v :: v in FieldValues(d) ==> IsTrimmed(v)
    requires forall v, f :: v in FieldValues(d) && f in FieldNames ==> !IsLabel(v, config[f].key)
    ensures ValueByKey(LaidOut(config, d), config, FieldNames[i]) == Ok(FieldValues(d)[i])
  {
    var ks, vs := Labels(config), FieldValues(d);
    var cells := LaidOut(config, d);
    var key := config[FieldNames[i]].key;
    InterleaveAt(ks, vs, i);
    NoLabelBefore(config, d, i);
    FirstFromAt(cells, LabelOf(key), 2 * i);
    ValueByKeyNextCell(cells, config, FieldNames[i], 2 * i);
  }

  /** A row whose seven fields each read as the value of `d` is parsed as `d`. */
  lemma RowDataOfValues(row: string, config: map<string, KeyFieldConfig>, tokenize: Tokenizer, d: GcpvRacerRowData)
    requires !IsBlank(row)
    requires ValueByKey(tokenize(row), config, "track_params") == Ok(d.trackParams)
    requires ValueByKey(tokenize(row), config, "race_group") == Ok(d.raceGroup)
    requires ValueByKey(tokenize(row), config, "stage") == Ok(d.stage)
    requires ValueByKey(tokenize(row), config, "race_number") == Ok(d.raceNumber)
    requires ValueByKey(tokenize(row), config, "lane") == Ok(d.lane)
    requires ValueByKey(tokenize(row), config, "racer") == Ok(d.racer)
    requires ValueByKey(tokenize(row), config, "affiliation") == Ok(d.affiliation)
    ensures RowData(row, config, tokenize) == Ok(d)
  {
  }

  /**
   * The row parser reads back a record laid out as labels each followed by its value, when the
   * labels are distinct and no value reads as a label.
   */
  lemma RowDataLaidOut(row: string, config: map<string, KeyFieldConfig>, tokenize: Tokenizer, d: GcpvRacerRowData)
    requires !IsBlank(row) && LabelThenValue(config)
    requires tokenize(row) == LaidOut(config, d)
    requires forall v :: v in FieldValues(d) ==> IsTrimmed(v)
    requires forall v, f :: v in FieldValues(d) && f in FieldNames ==> !IsLabel(v, config[f].key)
    ensures RowData(row, config, tokenize) == Ok(d)
  {
    ValueByKeyLaidOut(config, d, 0);
    ValueByKeyLaidOut(config, d, 1);
    ValueByKeyLaidOut(config, d, 2);
    ValueByKeyLaidOut(config, d, 3);
    ValueByKeyLaidOut(config, d, 4);
    ValueByKeyLaidOut(config, d, 5);
    ValueByKeyLaidOut(config, d, 6);
    RowDataOfValues(row, config, tokenize, d);
  }

  // ---------------------------------------------------------------------------------------------
  // Grouping rows into races

  /** Some row has race number `k`. */
  predicate HasRaceNumber(data: seq<GcpvRacerRowData>, k: string) {
    exists r :: r in data && r.raceNumber == k
  }

  /** The race numbers of the rows, each once, in the order of their first row. */
  function RaceNumbersOf(data: seq<GcpvRacerRowData>): (ks: seq<string>)
    ensures forall k :: k in ks <==> HasRaceNumber(data, k)
    ensures forall i, j :: 0 <= i < j < |ks| ==> ks[i] != ks[j]
  {
    if data == [] then []
    else
      var p := RaceNumbersOf(data[..|data| - 1]);
      var k := data[|data| - 1].raceNumber;
      assert data == data[..|data| - 1] + [data[|data| - 1]];
      if k in p then p else p + [k]
  }

  /** The rows of race `k`, in their order. */
  function RowsOf(data: seq<GcpvRacerRowData>, k: string): (rows: seq<GcpvRacerRowData>)
    ensures forall r :: r in rows <==> r in data && r.raceNumber == k
  {
    if data == [] then []
    else
      var last := data[|data| - 1];
      assert data == data[..|data| - 1] + [last];
      RowsOf(data[..|data| - 1], k) + (if last.raceNumber == k then [last] else [])
  }

  /** Every race number of the rows has at least one row. */
  lemma RowsOfNonEmpty(data: seq<GcpvRacerRowData>, k: string)
    requires k in RaceNumbersOf(data)
    ensures RowsOf(data, k) != []
  {
    var r :| r in data && r.raceNumber == k;
    assert r in RowsOf(data, k);
  }

  /** The sort key of a row: its lane as `int.Parse` reads it. */
  function LaneKey(r: GcpvRacerRowData): int {
    match ParseInt32(r.lane)
    case Some(v) => v
    case None => 0
  }

  function RacerOf(r: GcpvRacerRowData): GcpvRacerData {
    GcpvRacerData(r.lane, r.racer, r.affiliation)
  }

  function RacersOf(rows: seq<GcpvRacerRowData>): (racers: seq<GcpvRacerData>)
    ensures |racers| == |rows| && forall i :: 0 <= i < |rows| ==> racers[i] == RacerOf(rows[i])
  {
    seq(|rows|, i requires 0 <= i < |rows| => RacerOf(rows[i]))
  }

  /** One group: the fields of its first row and its racers ordered by lane. */
  function RaceOf(rows: seq<GcpvRacerRowData>): GcpvRaceData
    requires rows != []
  {
    GcpvRaceData(rows[0].raceNumber, rows[0].trackParams, rows[0].raceGroup, rows[0].stage,
                 RacersOf(SortBy(rows, LaneKey)))
  }

  predicate AllLanesParse(data: seq<GcpvRacerRowData>) {
    forall i :: 0 <= i < |data| ==> ParseInt32(data[i].lane).Some?
  }

  /** The race made of the rows numbered `k`. */
  function GroupOf(data: seq<GcpvRacerRowData>, k: string): GcpvRaceData
    requires k in RaceNumbersOf(data)
  {
    RowsOfNonEmpty(data, k);
    RaceOf(RowsOf(data, k))
  }

  /**
   * The `GroupBy` / `Select` / `OrderBy` step of `ParseAsync`. The lane key is computed for every
   * row, so a lane `int.Parse` rejects makes the whole step fail.
   */
  function GroupByRaceNumber(data: seq<GcpvRacerRowData>): (r: Result<seq<GcpvRaceData>, string>)
    ensures r.Err? <==> exists i :: 0 <= i < |data| && ParseInt32(data[i].lane).None?
    ensures r.Ok? ==> |r.value| == |RaceNumbersOf(data)|
  {
    if !AllLanesParse(data) then Err("The input string was not in a correct format.")
    else
      var ks := RaceNumbersOf(data);
      Ok(seq(|ks|, i requires 0 <= i < |ks| => GroupOf(data, ks[i])))
  }

  lemma GroupByRaceNumberEmpty()
    ensures GroupByRaceNumber([]) == Ok([])
  {
  }

  /** Every row of a later race is preceded by a row of each earlier race. */
  lemma {:induction false} RaceNumbersOfFirstSeen(data: seq<GcpvRacerRowData>, i: nat, j: nat, b: nat)
    requires i < j < |RaceNumbersOf(data)| && b < |data| && data[b].raceNumber == RaceNumbersOf(data)[j]
    ensures exists a :: 0 <= a < b && data[a].raceNumber == RaceNumbersOf(data)[i]
    decreases |data|
  {
    var n := |data|;
    var p := data[..n - 1];
    var ks, kp := RaceNumbersOf(data), RaceNumbersOf(p);
    var k := data[n - 1].raceNumber;
    RaceNumbersOfSnoc(data);
    var b' := b;
    if b == n - 1 {
      if k in kp {
        b' := RowOfNumber(p, k);
      } else {
        assert j == |kp|;
        var a := RowOfNumber(p, kp[i]);
        assert data[a] == p[a];
        return;
      }
    }
    assert b' < n - 1 && p[b'].raceNumber == ks[j] && b' <= b;
    assert j < |kp| by {
      NumberOfRow(p, b');
    }
    RaceNumbersOfFirstSeen(p, i, j, b');
    var a :| 0 <= a < b' && p[a].raceNumber == kp[i];
    assert data[a] == p[a];
  }

  lemma RaceNumbersOfSnoc(data: seq<GcpvRacerRowData>)
    requires data != []
    ensures var kp, k := RaceNumbersOf(data[..|data| - 1]), data[|data| - 1].raceNumber;
      RaceNumbersOf(data) == if k in kp then kp else kp + [k]
  {
  }

  /** The race number of a row is one of the race numbers of the rows. */
  lemma NumberOfRow(data: seq<GcpvRacerRowData>, b: nat)
    requires b < |data|
    ensures data[b].raceNumber in RaceNumbersOf(data)
  {
    assert data[b] in data;
  }

  /** Each race number of the rows is the number of some row. */
  lemma RowOfNumber(data: seq<GcpvRacerRowData>, k: string) returns (a: nat)
    requires k in RaceNumbersOf(data)
    ensures a < |data| && data[a].raceNumber == k
  {
    var r :| r in data && r.raceNumber == k;
    a :| a < |data| && data[a] == r;
  }

  /** The first row of a race number is the first row of the data with that race number. */
  lemma {:induction false} RowsOfFirst(data: seq<GcpvRacerRowData>, k: string) returns (a: nat)
    requires RowsOf(data, k) != []
    ensures a < |data| && data[a] == RowsOf(data, k)[0] && data[a].raceNumber == k
    ensures forall b :: 0 <= b < a ==> data[b].raceNumber != k
    decreases |data|
  {
    var n := |data|;
    var p := data[..n - 1];
    var last := data[n - 1];
    assert RowsOf(data, k) == RowsOf(p, k) + (if last.raceNumber == k then [last] else []);
    if RowsOf(p, k) == [] {
      a := n - 1;
      forall b | 0 <= b < n - 1 ensures data[b].raceNumber != k {
        assert data[b] == p[b];
        assert p[b] !in RowsOf(p, k);
      }
    } else {
      a := RowsOfFirst(p, k);
      assert data[a] == p[a];
      forall b | 0 <= b < a ensures data[b].raceNumber != k {
        assert data[b] == p[b];
      }
    }
  }


  lemma GroupedAt(data: seq<GcpvRacerRowData>, i: nat)
    requires GroupByRaceNumber(data).Ok? && i < |GroupByRaceNumber(data).value|
    ensures |GroupByRaceNumber(data).value| == |RaceNumbersOf(data)|
    ensures GroupByRaceNumber(data).value[i] == GroupOf(data, RaceNumbersOf(data)[i])
    ensures GroupByRaceNumber(data).value[i].raceNumber == RaceNumbersOf(data)[i]
  {
    GroupOfNumber(data, RaceNumbersOf(data)[i]);
  }

  lemma GroupOfNumber(data: seq<GcpvRacerRowData>, k: string)
    requires k in RaceNumbersOf(data)
    ensures GroupOf(data, k).raceNumber == k
  {
    RowsOfNonEmpty(data, k);
    assert RowsOf(data, k)[0] in RowsOf(data, k);
  }

  lemma GroupedNumbers(data: seq<GcpvRacerRowData>)
    requires GroupByRaceNumber(data).Ok?
    ensures var races := GroupByRaceNumber(data).value;
      |races| == |RaceNumbersOf(data)| && forall i :: 0 <= i < |races| ==> races[i].raceNumber == RaceNumbersOf(data)[i]
  {
    var races := GroupByRaceNumber(data).value;
    forall i | 0 <= i < |races| ensures races[i].raceNumber == RaceNumbersOf(data)[i] {
      GroupedAt(data, i);
    }
  }

  /** The races have distinct race numbers, exactly those of the rows. */
  lemma GroupedRaceNumbers(data: seq<GcpvRacerRowData>)
    requires GroupByRaceNumber(data).Ok?
    ensures var races := GroupByRaceNumber(data).value;
      && (forall i, j :: 0 <= i < j < |races| ==> races[i].raceNumber != races[j].raceNumber)
      && (forall i :: 0 <= i < |races| ==> HasRaceNumber(data, races[i].raceNumber))
      && (forall r :: r in data ==> exists i :: 0 <= i < |races| && races[i].raceNumber == r.raceNumber)
  {
    GroupedNumbers(data);
    var races := GroupByRaceNumber(data).value;
    var ks := RaceNumbersOf(data);
    forall i | 0 <= i < |races| ensures HasRaceNumber(data, races[i].raceNumber) {
      assert ks[i] in ks;
    }
    forall r | r in data ensures exists i :: 0 <= i < |races| && races[i].raceNumber == r.raceNumber {
      assert HasRaceNumber(data, r.raceNumber);
      var i :| 0 <= i < |ks| && ks[i] == r.raceNumber;
      assert races[i].raceNumber == r.raceNumber;
    }
  }

  /** Every row of a later race is preceded by a row of each earlier race. */
  predicate InFirstRowOrder(data: seq<GcpvRacerRowData>, races: seq<GcpvRaceData>) {
    forall i, j, b :: 0 <= i < j < |races| && 0 <= b < |data| && data[b].raceNumber == races[j].raceNumber
      ==> exists a :: 0 <= a < b && data[a].raceNumber == races[i].raceNumber
  }

  /** The races come in the order in which their first rows appear. */
  lemma GroupedRaceOrder(data: seq<GcpvRacerRowData>)
    requires GroupByRaceNumber(data).Ok?
    ensures InFirstRowOrder(data, GroupByRaceNumber(data).value)
  {
    var races := GroupByRaceNumber(data).value;
    assert |races| == |RaceNumbersOf(data)| && forall i :: 0 <= i < |races| ==> races[i].raceNumber == RaceNumbersOf(data)[i] by {
      GroupedNumbers(data);
    }
    FirstSeenOrder(data, races);
  }

  lemma FirstSeenOrder(data: seq<GcpvRacerRowData>, races: seq<GcpvRaceData>)
    requires |races| == |RaceNumbersOf(data)| && forall i :: 0 <= i < |races| ==> races[i].raceNumber == RaceNumbersOf(data)[i]
    ensures InFirstRowOrder(data, races)
  {
    forall i, j, b | 0 <= i < j < |races| && 0 <= b < |data| && data[b].raceNumber == races[j].raceNumber
      ensures exists a :: 0 <= a < b && data[a].raceNumber == races[i].raceNumber
    {
      RaceNumbersOfFirstSeen(data, i, j, b);
    }
  }

  /** A race takes its track parameters, group and stage from the first row with its race number. */
  lemma GroupedRaceFirstRow(data: seq<GcpvRacerRowData>, i: nat)
    requires GroupByRaceNumber(data).Ok? && i < |GroupByRaceNumber(data).value|
    ensures var race := GroupByRaceNumber(data).value[i];
      exists a :: 0 <= a < |data| && data[a].raceNumber == race.raceNumber
                  && (forall b :: 0 <= b < a ==> data[b].raceNumber != race.raceNumber)
                  && race.trackParams == data[a].trackParams && race.raceGroup == data[a].raceGroup
                  && race.stage == data[a].stage
  {
    var ks := RaceNumbersOf(data);
    GroupedAt(data, i);
    RowsOfNonEmpty(data, ks[i]);
    var a := RowsOfFirst(data, ks[i]);
  }

  /**
   * A race's racers are its rows reordered by lane value, rows with equal lanes keeping their
   * order in the data.
   */
  lemma GroupedRacers(data: seq<GcpvRacerRowData>, i: nat)
    requires GroupByRaceNumber(data).Ok? && i < |GroupByRaceNumber(data).value|
    ensures var race := GroupByRaceNumber(data).value[i];
      var rows := RowsOf(data, race.raceNumber);
      && (forall a, b :: 0 <= a < b < |race.racers| ==>
            ParseInt32(race.racers[a].lane).Some? && ParseInt32(race.racers[b].lane).Some?
            && ParseInt32(race.racers[a].lane).value <= ParseInt32(race.racers[b].lane).value)
      && exists sorted :: multiset(sorted) == multiset(rows) && race.racers == RacersOf(sorted)
                          && (forall l :: WithKey(sorted, LaneKey, l) == WithKey(rows, LaneKey, l))
  {
    var ks := RaceNumbersOf(data);
    var race := GroupByRaceNumber(data).value[i];
    GroupedAt(data, i);
    RowsOfNonEmpty(data, ks[i]);
    var rows := RowsOf(data, ks[i]);
    var sorted := SortBy(rows, LaneKey);
    SortByPermutes(rows, LaneKey);
    SortBySorted(rows, LaneKey);
    forall l ensures WithKey(sorted, LaneKey, l) == WithKey(rows, LaneKey, l) {
      SortByStable(rows, LaneKey, l);
    }
    forall a | 0 <= a < |sorted| ensures ParseInt32(sorted[a].lane).Some? {
      assert sorted[a] in multiset(rows);
      assert sorted[a] in data;
    }
    forall a, b | 0 <= a < b < |race.racers|
      ensures ParseInt32(race.racers[a].lane).value <= ParseInt32(race.racers[b].lane).value
    {
      assert LaneKey(sorted[a]) <= LaneKey(sorted[b]);
    }
  }

  // ---------------------------------------------------------------------------------------------
  // Every row lands in exactly one race

  function TotalRacers(races: seq<GcpvRaceData>): nat {
    if races == [] then 0 else |races[0].racers| + TotalRacers(races[1..])
  }

  /** The number of rows of the races `ks`. */
  function SumRows(data: seq<GcpvRacerRowData>, ks: seq<string>): nat {
    if ks == [] then 0 else |RowsOf(data, ks[0])| + SumRows(data, ks[1..])
  }

  lemma {:induction false} TotalRacersOfGroups(data: seq<GcpvRacerRowData>, ks: seq<string>)
    requires forall k :: k in ks ==> k in RaceNumbersOf(data)
    ensures TotalRacers(seq(|ks|, i requires 0 <= i < |ks| => GroupOf(data, ks[i]))) == SumRows(data, ks)
  {
    var g := seq(|ks|, i requires 0 <= i < |ks| => GroupOf(data, ks[i]));
    if ks != [] {
      var g' := seq(|ks| - 1, i requires 0 <= i < |ks| - 1 => GroupOf(data, ks[1..][i]));
      assert g[1..] == g';
      TotalRacersOfGroups(data, ks[1..]);
    }
  }

  lemma {:induction false} SumRowsSnoc(data: seq<GcpvRacerRowData>, x: GcpvRacerRowData, ks: seq<string>)
    requires forall i, j :: 0 <= i < j < |ks| ==> ks[i] != ks[j]
    ensures SumRows(data + [x], ks) == SumRows(data, ks) + (if x.raceNumber in ks then 1 else 0)
  {
    if ks != [] {
      assert (data + [x])[..|data|] == data;
      assert x.raceNumber == ks[0] ==> x.raceNumber !in ks[1..];
      SumRowsSnoc(data, x, ks[1..]);
    }
  }

  lemma {:induction false} SumRowsAppendKey(data: seq<GcpvRacerRowData>, ks: seq<string>, k: string)
    ensures SumRows(data, ks + [k]) == SumRows(data, ks) + |RowsOf(data, k)|
  {
    if ks != [] {
      assert (ks + [k])[1..] == ks[1..] + [k];
      SumRowsAppendKey(data, ks[1..], k);
    }
  }

  /** A race number no row has has no rows. */
  lemma {:induction false} RowsOfAbsent(data: seq<GcpvRacerRowData>, k: string)
    requires !HasRaceNumber(data, k)
    ensures RowsOf(data, k) == []
    decreases |data|
  {
    if data != [] {
      assert data[|data| - 1] in data;
      RowsOfAbsent(data[..|data| - 1], k);
    }
  }

  lemma {:induction false} SumRowsAll(data: seq<GcpvRacerRowData>)
    ensures SumRows(data, RaceNumbersOf(data)) == |data|
  {
    if data != [] {
      var p, x := data[..|data| - 1], data[|data| - 1];
      assert data == p + [x];
      var kp := RaceNumbersOf(p);
      SumRowsAll(p);
      SumRowsSnoc(p, x, kp);
      if x.raceNumber !in kp {
        SumRowsAppendKey(data, kp, x.raceNumber);
        RowsOfAbsent(p, x.raceNumber);
        assert RowsOf(data, x.raceNumber) == [x];
      }
    }
  }

  /** The races hold exactly as many racers as there are rows. */
  lemma GroupedRacersCount(data: seq<GcpvRacerRowData>)
    requires GroupByRaceNumber(data).Ok?
    ensures TotalRacers(GroupByRaceNumber(data).value) == |data|
  {
    TotalRacersOfGroups(data, RaceNumbersOf(data));
    SumRowsAll(data);
  }

  // ---------------------------------------------------------------------------------------------
  // The whole export

  /** The rows parsed in order; the first row that fails gives the error. */
  function RowsData(rows: seq<string>, config: map<string, KeyFieldConfig>, tokenize: Tokenizer)
    : (r: Result<seq<GcpvRacerRowData>, string>)
    ensures r.Ok? ==> |r.value| == |rows|
  {
    if rows == [] then Ok([])
    else
      var p := rows[..|rows| - 1];
      var pd :- RowsData(p, config, tokenize);
      var d :- RowData(rows[|rows| - 1], config, tokenize);
      Ok(pd + [d])
  }

  /** Parsed rows are the rows each parsed. */
  lemma {:induction false} RowsDataOk(rows: seq<string>, config: map<string, KeyFieldConfig>, tokenize: Tokenizer)
    requires RowsData(rows, config, tokenize).Ok?
    ensures var data := RowsData(rows, config, tokenize).value;
      forall i :: 0 <= i < |rows| ==> RowData(rows[i], config, tokenize) == Ok(data[i])
  {
    if rows != [] {
      var p := rows[..|rows| - 1];
      RowsDataOk(p, config, tokenize);
      var data := RowsData(rows, config, tokenize).value;
      assert data == RowsData(p, config, tokenize).value + [RowData(rows[|rows| - 1], config, tokenize).value];
      forall i | 0 <= i < |rows| ensures RowData(rows[i], config, tokenize) == Ok(data[i]) {
        if i < |rows| - 1 {
          assert rows[i] == p[i];
        }
      }
    }
  }

  /** A failure is the failure of the first row that fails. */
  lemma {:induction false} RowsDataErr(rows: seq<string>, config: map<string, KeyFieldConfig>, tokenize: Tokenizer)
    requires RowsData(rows, config, tokenize).Err?
    ensures exists i :: 0 <= i < |rows| && RowData(rows[i], config, tokenize) == Err(RowsData(rows, config, tokenize).error)
                        && forall j :: 0 <= j < i ==> RowData(rows[j], config, tokenize).Ok?
  {
    var p := rows[..|rows| - 1];
    var e := RowsData(rows, config, tokenize).error;
    if RowsData(p, config, tokenize).Err? {
      RowsDataErr(p, config, tokenize);
      var i :| 0 <= i < |p| && RowData(p[i], config, tokenize) == Err(e)
               && forall j :: 0 <= j < i ==> RowData(p[j], config, tokenize).Ok?;
      assert rows[i] == p[i];
      forall j | 0 <= j < i ensures RowData(rows[j], config, tokenize).Ok? {
        assert rows[j] == p[j];
      }
    } else {
      RowsDataOk(p, config, tokenize);
      forall j | 0 <= j < |rows| - 1 ensures RowData(rows[j], config, tokenize).Ok? {
        assert rows[j] == p[j];
      }
    }
  }

  lemma RowsDataStep(rows: seq<string>, i: nat, config: map<string, KeyFieldConfig>, tokenize: Tokenizer)
    requires i < |rows| && RowsData(rows[..i], config, tokenize).Ok?
    ensures RowsData(rows[..i + 1], config, tokenize)
         == match RowData(rows[i], config, tokenize)
            case Err(e) => Err(e)
            case Ok(d) => Ok(RowsData(rows[..i], config, tokenize).value + [d])
  {
    assert rows[..i + 1][..i] == rows[..i];
  }

  /** A failure in a prefix of the rows is the failure of all of them. */
  lemma {:induction false} RowsDataPrefixErr(rows: seq<string>, k: nat, config: map<string, KeyFieldConfig>, tokenize: Tokenizer)
    requires k <= |rows| && RowsData(rows[..k], config, tokenize).Err?
    ensures RowsData(rows, config, tokenize) == RowsData(rows[..k], config, tokenize)
    decreases |rows|
  {
    if k < |rows| {
      var p := rows[..|rows| - 1];
      assert p[..k] == rows[..k];
      RowsDataPrefixErr(p, k, config, tokenize);
    } else {
      assert rows[..k] == rows;
    }
  }

  /** `ParseAsync`, the value it computes: every row parsed, then grouped into races. */
  function ParseExport(rows: seq<string>, config: map<string, KeyFieldConfig>, tokenize: Tokenizer)
    : Result<seq<GcpvRaceData>, string>
  {
    var data :- RowsData(rows, config, tokenize);
    GroupByRaceNumber(data)
  }

  /** `ParseAsync` on the rows the data provider returns. */
  method ParseAsync(dataRows: seq<string>, config: map<string, KeyFieldConfig>, tokenize: Tokenizer)
    returns (r: Result<seq<GcpvRaceData>, string>)
    ensures r == ParseExport(dataRows, config, tokenize)
  {
    var racerData := [];
    for i := 0 to |dataRows|
      invariant RowsData(dataRows[..i], config, tokenize) == Ok(racerData)
    {
      RowsDataStep(dataRows, i, config, tokenize);
      var parsed := ParseRow(dataRows[i], config, tokenize);
      if parsed.Err? {
        RowsDataPrefixErr(dataRows, i + 1, config, tokenize);
        return Err(parsed.error);
      }
      racerData := racerData + [parsed.value];
    }
    assert dataRows[..|dataRows|] == dataRows;
    r := GroupByRaceNumber(racerData);
  }

  lemma ParseExportEmpty(config: map<string, KeyFieldConfig>, tokenize: Tokenizer)
    ensures ParseExport([], config, tokenize) == Ok([])
  {
  }

  /** A blank row makes the whole export fail. */
  lemma ParseExportBlankRow(rows: seq<string>, config: map<string, KeyFieldConfig>, tokenize: Tokenizer, i: nat)
    requires i < |rows| && IsBlank(rows[i])
    ensures ParseExport(rows, config, tokenize).Err?
  {
    if RowsData(rows, config, tokenize).Ok? {
      RowsDataOk(rows, config, tokenize);
    }
  }

  /** A parsed export holds one racer entry per row. */
  lemma ParseExportRacersCount(rows: seq<string>, config: map<string, KeyFieldConfig>, tokenize: Tokenizer)
    requires ParseExport(rows, config, tokenize).Ok?
    ensures TotalRacers(ParseExport(rows, config, tokenize).value) == |rows|
  {
    GroupedRacersCount(RowsData(rows, config, tokenize).value);
  }
}
