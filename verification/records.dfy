/** `GetRecords`: one page (column descriptors and positional rows) to one JSON object per
    row, keyed by column name, with the `timestamp` column canonicalised. */
module Records {
  import opened Wrappers
  import opened Digits
  import opened Calendar
  import opened Json
  import opened Timestamp
  import opened Faults

  /** `c?["name"]?.ToString()`: None for a null column, a missing name or a null name. The
      first index into a parsed `JsonObject` builds its dictionary, which throws when the
      object repeats a property name. */
  function ColumnName(c: JsonValue, i: nat): Result<Option<string>, Fault>
  {
    match c
    case JNull => Ok(None)
    case JObject(members) =>
      if !DistinctKeys(members) then Err(DuplicateProperty(i))
      else
        (match Lookup(members, "name")
         case None => Ok(None)
         case Some(v) => if v.JNull? then Ok(None) else Ok(Some(NodeText(v))))
    case _ => Err(ColumnNotObject(i))
  }

  /** `columns.Select(...).ToList()`, evaluated column by column from `from`. */
  function ColumnNamesFrom(columns: seq<JsonValue>, from: nat): (r: Result<seq<Option<string>>, Fault>)
    requires from <= |columns|
    ensures r.Ok? ==> |r.value| == |columns| - from
    decreases |columns| - from
  {
    if from == |columns| then Ok([])
    else
      match ColumnName(columns[from], from)
      case Err(e) => Err(e)
      case Ok(name) =>
        match ColumnNamesFrom(columns, from + 1)
        case Err(e) => Err(e)
        case Ok(rest) => Ok([name] + rest)
  }

  function ColumnNames(columns: seq<JsonValue>): (r: Result<seq<Option<string>>, Fault>)
    ensures r.Ok? ==> |r.value| == |columns|
  {
    ColumnNamesFrom(columns, 0)
  }

  /** `columnNames[i] ?? $"col{i}"`: the key each column's cells are stored under. The
      source evaluates it for every cell; it depends on the column alone, so it is computed
      here once per page. */
  function ColumnKeysOf(names: seq<Option<string>>): (keys: seq<string>)
    ensures |keys| == |names|
  {
    seq(|names|, i requires 0 <= i < |names| => if names[i].Some? then names[i].value else "col" + NatToString(i))
  }

  /** `row?[i]` for row number r: a null row gives null cells; any other non-array row, or an
      index past the end of the row, throws. */
  function Cell(row: JsonValue, r: nat, i: nat): Result<JsonValue, Fault>
  {
    match row
    case JNull => Ok(JNull)
    case JArray(items) => if i < |items| then Ok(items[i]) else Err(RowTooShort(r, i))
    case _ => Err(RowNotArray(r))
  }

  /** The timestamp text stored in a record: the six-digit canonical form when the text
      parses, the text itself when it does not. */
  function CanonicalTimestamp(s: string): string
  {
    match ParseApplicationInsightsDateTime(s)
    case Some(t) => ToAirbyteIsoString(t)
    case None => s
  }

  /** How a timestamp text is rewritten; `CanonicalTimestamp` in the proxy. The row and page
      functions take it as a parameter so that their structural lemmas hold for any rewrite. */
  type Rewrite = string -> string

  /** The value stored under `key` for a cell. */
  function Stored(canonical: Rewrite, key: string, v: JsonValue, r: nat, i: nat): (stored: Result<JsonValue, Fault>)
  {
    if key == "timestamp" && v.JString? then Ok(JString(canonical(v.s)))
    else if IsScalar(v) then Ok(v)
    else Err(CellNotValue(r, i))
  }

  /** What column i of row number r contributes to its record, or the fault it raises. */
  function StoredAt(canonical: Rewrite, keys: seq<string>, row: JsonValue, r: nat, i: nat): (stored: Result<JsonValue, Fault>)
    requires i < |keys|
  {
    match Cell(row, r, i)
    case Err(e) => Err(e)
    case Ok(v) => Stored(canonical, keys[i], v, r, i)
  }

  /** The properties the first n columns of row number r store, in column order, or the
      fault of the first column that fails. */
  function RowEntries(canonical: Rewrite, keys: seq<string>, row: JsonValue, r: nat, n: nat)
    : (entries: Result<seq<(string, JsonValue)>, Fault>)
    requires n <= |keys|
  {
    if n == 0 then Ok([])
    else
      match RowEntries(canonical, keys, row, r, n - 1)
      case Err(e) => Err(e)
      case Ok(es) =>
        match StoredAt(canonical, keys, row, r, n - 1)
        case Err(e) => Err(e)
        case Ok(v) => Ok(es + [(keys[n - 1], v)])
  }

  /** The record of row number r: its properties stored one by one into a fresh object. */
  function RowRecord(canonical: Rewrite, keys: seq<string>, row: JsonValue, r: nat): (record: Result<Record, Fault>)
  {
    match RowEntries(canonical, keys, row, r, |keys|)
    case Err(e) => Err(e)
    case Ok(es) => Ok(Fill(es))
  }

  /** The records of a sequence of rows, the first failing row deciding the fault. */
  function PageRecords(canonical: Rewrite, keys: seq<string>, rows: seq<JsonValue>): (records: Result<seq<Record>, Fault>)
  {
    if rows == [] then Ok([])
    else
      match PageRecords(canonical, keys, rows[..|rows| - 1])
      case Err(e) => Err(e)
      case Ok(recs) =>
        match RowRecord(canonical, keys, rows[|rows| - 1], |rows| - 1)
        case Err(e) => Err(e)
        case Ok(rec) => Ok(recs + [rec])
  }

  /** What `GetRecords` yields, or the exception enumerating it throws. */
  function Normalize(columns: seq<JsonValue>, rows: seq<JsonValue>): Result<seq<Record>, Fault>
  {
    match ColumnNames(columns)
    case Err(e) => Err(e)
    case Ok(names) => PageRecords(CanonicalTimestamp, ColumnKeysOf(names), rows)
  }

  lemma {:induction false} RowEntriesFailureSticks(canonical: Rewrite, keys: seq<string>, row: JsonValue, r: nat, i: nat, n: nat)
    requires i <= n <= |keys| && RowEntries(canonical, keys, row, r, i).Err?
    ensures RowEntries(canonical, keys, row, r, n) == RowEntries(canonical, keys, row, r, i)
    decreases n - i
  {
    if i < n { RowEntriesFailureSticks(canonical, keys, row, r, i, n - 1); }
  }

  lemma {:induction false} PageRecordsFailureSticks(canonical: Rewrite, keys: seq<string>, rows: seq<JsonValue>, k: nat)
    requires k <= |rows| && PageRecords(canonical, keys, rows[..k]).Err?
    ensures PageRecords(canonical, keys, rows) == PageRecords(canonical, keys, rows[..k])
    decreases |rows| - k
  {
    if k < |rows| {
      assert rows[..|rows| - 1][..k] == rows[..k];
      PageRecordsFailureSticks(canonical, keys, rows[..|rows| - 1], k);
    } else {
      assert rows[..k] == rows;
    }
  }

  /** `GetRecords`: for each row in order, build its record, then yield it. */
  method GetRecords(columns: seq<JsonValue>, rows: seq<JsonValue>) returns (result: Result<seq<Record>, Fault>)
    ensures result == Normalize(columns, rows)
  {
    var named := ColumnNames(columns);
    if named.Err? {
      return Err(named.error);
    }
    var keys := ColumnKeysOf(named.value);
    var records: seq<Record> := [];
    var r := 0;
    while r < |rows|
      invariant 0 <= r <= |rows|
      invariant PageRecords(CanonicalTimestamp, keys, rows[..r]) == Ok(records)
    {
      var record := BuildRecord(CanonicalTimestamp, keys, rows[r], r);
      assert rows[..r + 1][..r] == rows[..r];
      if record.Err? {
        PageRecordsFailureSticks(CanonicalTimestamp, keys, rows, r + 1);
        return Err(record.error);
      }
      records := records + [record.value];
      r := r + 1;
    }
    assert rows[..r] == rows;
    return Ok(records);
  }

  /** The body of the row loop of `GetRecords`: a fresh record filled column by column. */
  method BuildRecord(canonical: Rewrite, keys: seq<string>, row: JsonValue, r: nat)
    returns (result: Result<Record, Fault>)
    ensures result == RowRecord(canonical, keys, row, r)
  {
    var record: Record := [];
    ghost var entries: seq<(string, JsonValue)> := [];
    var i := 0;
    while i < |keys|
      invariant 0 <= i <= |keys|
      invariant RowEntries(canonical, keys, row, r, i) == Ok(entries)
      invariant record == Fill(entries)
    {
      var stored := StoredAt(canonical, keys, row, r, i);
      if stored.Err? {
        RowEntriesFailure(canonical, keys, row, r, i, entries);
        return Err(stored.error);
      }
      RowEntriesExtend(canonical, keys, row, r, i, entries, record);
      record := Set(record, keys[i], stored.value);
      entries := entries + [(keys[i], stored.value)];
      i := i + 1;
    }
    return Ok(record);
  }

  /** A failing column decides the fault of the whole row. */
  lemma RowEntriesFailure(canonical: Rewrite, keys: seq<string>, row: JsonValue, r: nat, i: nat,
                          es: seq<(string, JsonValue)>)
    requires i < |keys| && RowEntries(canonical, keys, row, r, i) == Ok(es)
    requires StoredAt(canonical, keys, row, r, i).Err?
    ensures RowRecord(canonical, keys, row, r) == Err(StoredAt(canonical, keys, row, r, i).error)
  {
    RowEntriesFailureSticks(canonical, keys, row, r, i + 1, |keys|);
  }

  /** A stored column extends the properties and the object filled from them by one. */
  lemma RowEntriesExtend(canonical: Rewrite, keys: seq<string>, row: JsonValue, r: nat, i: nat,
                         es: seq<(string, JsonValue)>, record: Record)
    requires i < |keys| && RowEntries(canonical, keys, row, r, i) == Ok(es) && record == Fill(es)
    requires StoredAt(canonical, keys, row, r, i).Ok?
    ensures RowEntries(canonical, keys, row, r, i + 1) == Ok(es + [(keys[i], StoredAt(canonical, keys, row, r, i).value)])
    ensures Set(record, keys[i], StoredAt(canonical, keys, row, r, i).value)
            == Fill(es + [(keys[i], StoredAt(canonical, keys, row, r, i).value)])
  {
    FillAppend(es, keys[i], StoredAt(canonical, keys, row, r, i).value);
  }

  /** Column names: the listing succeeds exactly when every column is null or an object that
      does not repeat a property name, and then holds each column's own name in column order. */
  lemma {:induction false} ColumnNamesFromSpec(columns: seq<JsonValue>, from: nat)
    requires from <= |columns|
    ensures ColumnNamesFrom(columns, from).Ok?
            <==> forall i :: from <= i < |columns| ==>
                   columns[i].JNull? || (columns[i].JObject? && DistinctKeys(columns[i].members))
    ensures ColumnNamesFrom(columns, from).Ok? ==>
              forall i :: from <= i < |columns| ==>
                ColumnNamesFrom(columns, from).value[i - from] == ColumnName(columns[i], i).value
    decreases |columns| - from
  {
    if from < |columns| {
      ColumnNamesFromSpec(columns, from + 1);
    }
  }

  lemma ColumnNamesSpec(columns: seq<JsonValue>)
    ensures ColumnNames(columns).Ok? <==>
              forall i :: 0 <= i < |columns| ==> columns[i].JNull? || (columns[i].JObject? && DistinctKeys(columns[i].members))
    ensures ColumnNames(columns).Ok? ==>
              forall i :: 0 <= i < |columns| ==> ColumnNames(columns).value[i] == ColumnName(columns[i], i).value
  {
    ColumnNamesFromSpec(columns, 0);
  }

  /** A cell can be stored exactly when the row is null, or the row is an array long enough
      whose cell is null, a boolean, a number or a string. */
  lemma StoredAtSucceeds(canonical: Rewrite, keys: seq<string>, row: JsonValue, r: nat, i: nat)
    requires i < |keys|
    ensures StoredAt(canonical, keys, row, r, i).Ok?
            <==> row.JNull? || (row.JArray? && i < |row.items| && IsScalar(row.items[i]))
  {
  }

  /** A row's properties are its columns' keys and stored values, in column order; the row
      fails exactly when one of its columns does. */
  lemma {:induction false} RowEntriesSpec(canonical: Rewrite, keys: seq<string>, row: JsonValue, r: nat, n: nat)
    requires n <= |keys|
    ensures RowEntries(canonical, keys, row, r, n).Ok?
            <==> forall i :: 0 <= i < n ==> StoredAt(canonical, keys, row, r, i).Ok?
    ensures RowEntries(canonical, keys, row, r, n).Ok? ==>
              |RowEntries(canonical, keys, row, r, n).value| == n
              && forall i :: 0 <= i < n ==>
                   RowEntries(canonical, keys, row, r, n).value[i]
                   == (keys[i], StoredAt(canonical, keys, row, r, i).value)
  {
    if n > 0 {
      RowEntriesSpec(canonical, keys, row, r, n - 1);
    }
  }

  /** The fault a row raises is the one of its first failing column. */
  lemma {:induction false} RowEntriesFirstFault(canonical: Rewrite, keys: seq<string>, row: JsonValue, r: nat, n: nat)
    requires n <= |keys| && RowEntries(canonical, keys, row, r, n).Err?
    ensures exists i :: 0 <= i < n && StoredAt(canonical, keys, row, r, i) == Err(RowEntries(canonical, keys, row, r, n).error)
                        && forall j :: 0 <= j < i ==> StoredAt(canonical, keys, row, r, j).Ok?
  {
    if RowEntries(canonical, keys, row, r, n - 1).Err? {
      RowEntriesFirstFault(canonical, keys, row, r, n - 1);
    } else {
      RowEntriesSpec(canonical, keys, row, r, n - 1);
    }
  }

  /** A row's record can be built exactly when there are no columns, or the row is null, or
      the row is an array with a cell for every column and no object or array among them. */
  lemma RowRecordSucceeds(canonical: Rewrite, keys: seq<string>, row: JsonValue, r: nat)
    ensures RowRecord(canonical, keys, row, r).Ok?
            <==> |keys| == 0 || row.JNull?
                 || (row.JArray? && |keys| <= |row.items| && forall i :: 0 <= i < |keys| ==> IsScalar(row.items[i]))
  {
    RowEntriesSpec(canonical, keys, row, r, |keys|);
    forall i | 0 <= i < |keys| {
      StoredAtSucceeds(canonical, keys, row, r, i);
    }
    if row.JArray? && |keys| > |row.items| {
      assert !StoredAt(canonical, keys, row, r, |keys| - 1).Ok?;
    }
  }

  /** The fault of a failing row is that of its first failing column. */
  lemma RowRecordFirstFault(canonical: Rewrite, keys: seq<string>, row: JsonValue, r: nat)
    requires RowRecord(canonical, keys, row, r).Err?
    ensures exists i :: 0 <= i < |keys| && StoredAt(canonical, keys, row, r, i) == Err(RowRecord(canonical, keys, row, r).error)
                        && forall j :: 0 <= j < i ==> StoredAt(canonical, keys, row, r, j).Ok?
  {
    RowEntriesFirstFault(canonical, keys, row, r, |keys|);
  }

  /** A record's keys are exactly the keys of its columns, each once. */
  lemma RowRecordKeys(canonical: Rewrite, keys: seq<string>, row: JsonValue, r: nat)
    requires RowRecord(canonical, keys, row, r).Ok?
    ensures DistinctKeys(RowRecord(canonical, keys, row, r).value)
    ensures forall k :: k in Keys(RowRecord(canonical, keys, row, r).value) <==> k in keys
  {
    var es := RowEntries(canonical, keys, row, r, |keys|).value;
    RowEntriesSpec(canonical, keys, row, r, |keys|);
    FillKeys(es);
    assert forall k :: k in NameSet(es) <==> k in keys by {
      forall k ensures k in NameSet(es) ==> k in keys {
        if k in NameSet(es) {
          var i :| 0 <= i < |es| && es[i].0 == k;
          assert keys[i] == k;
        }
      }
    }
  }

  /** The value stored under a column's key is that column's value, unless a later column
      has the same key (the later column then overwrites it). */
  lemma RowRecordLookup(canonical: Rewrite, keys: seq<string>, row: JsonValue, r: nat, i: nat)
    requires i < |keys| && RowRecord(canonical, keys, row, r).Ok?
    requires forall j :: i < j < |keys| ==> keys[j] != keys[i]
    ensures StoredAt(canonical, keys, row, r, i).Ok?
    ensures Lookup(RowRecord(canonical, keys, row, r).value, keys[i]) == Some(StoredAt(canonical, keys, row, r, i).value)
  {
    var es := RowEntries(canonical, keys, row, r, |keys|).value;
    RowEntriesSpec(canonical, keys, row, r, |keys|);
    FillLookup(es, i);
  }

  /** Outside the `timestamp` column, and in it for a cell that is not a string, a cell is
      stored as it is: a null row gives null, an array row its own cell, whatever its kind
      (null, boolean, number or string). */
  lemma RowRecordPassThrough(canonical: Rewrite, keys: seq<string>, row: JsonValue, r: nat, i: nat)
    requires i < |keys| && RowRecord(canonical, keys, row, r).Ok?
    requires keys[i] != "timestamp" || !(row.JArray? && i < |row.items| && row.items[i].JString?)
    requires forall j :: i < j < |keys| ==> keys[j] != keys[i]
    ensures row.JNull? || (row.JArray? && i < |row.items|)
    ensures row.JNull? ==> Lookup(RowRecord(canonical, keys, row, r).value, keys[i]) == Some(JNull)
    ensures row.JArray? ==> Lookup(RowRecord(canonical, keys, row, r).value, keys[i]) == Some(row.items[i])
  {
    RowRecordLookup(canonical, keys, row, r, i);
  }

  /** With pairwise different column keys, the record lists the columns in order. */
  lemma RowRecordPositional(canonical: Rewrite, keys: seq<string>, row: JsonValue, r: nat)
    requires RowRecord(canonical, keys, row, r).Ok?
    requires forall i, j :: 0 <= i < j < |keys| ==> keys[i] != keys[j]
    ensures |RowRecord(canonical, keys, row, r).value| == |keys|
    ensures forall i :: 0 <= i < |keys| ==>
              StoredAt(canonical, keys, row, r, i).Ok?
              && RowRecord(canonical, keys, row, r).value[i] == (keys[i], StoredAt(canonical, keys, row, r, i).value)
  {
    var es := RowEntries(canonical, keys, row, r, |keys|).value;
    RowEntriesSpec(canonical, keys, row, r, |keys|);
    FillDistinct(es);
  }

  /** The names given to unnamed columns differ from one column to the next. */
  lemma SyntheticKeysDistinct(i: nat, j: nat)
    requires i != j
    ensures "col" + NatToString(i) != "col" + NatToString(j)
  {
    NatToStringDecimal(i);
    NatToStringDecimal(j);
    assert ("col" + NatToString(i))[3..] == NatToString(i);
    assert ("col" + NatToString(j))[3..] == NatToString(j);
  }

  /** A page whose columns carry no names yields records keyed col0, col1, ... in order. */
  lemma UnnamedColumnsPositional(canonical: Rewrite, names: seq<Option<string>>, row: JsonValue, r: nat)
    requires forall i :: 0 <= i < |names| ==> names[i].None?
    requires RowRecord(canonical, ColumnKeysOf(names), row, r).Ok?
    ensures |RowRecord(canonical, ColumnKeysOf(names), row, r).value| == |names|
    ensures forall i :: 0 <= i < |names| ==>
              RowRecord(canonical, ColumnKeysOf(names), row, r).value[i].0 == "col" + NatToString(i)
  {
    var keys := ColumnKeysOf(names);
    forall i, j | 0 <= i < j < |keys| ensures keys[i] != keys[j] {
      SyntheticKeysDistinct(i, j);
    }
    RowRecordPositional(canonical, keys, row, r);
  }

  /** One record per row, in row order; the page fails exactly when one of its rows does. */
  lemma {:induction false} PageRecordsRows(canonical: Rewrite, keys: seq<string>, rows: seq<JsonValue>)
    ensures PageRecords(canonical, keys, rows).Ok?
            <==> forall k :: 0 <= k < |rows| ==> RowRecord(canonical, keys, rows[k], k).Ok?
    ensures PageRecords(canonical, keys, rows).Ok? ==>
              |PageRecords(canonical, keys, rows).value| == |rows|
              && forall k :: 0 <= k < |rows| ==>
                   RowRecord(canonical, keys, rows[k], k) == Ok(PageRecords(canonical, keys, rows).value[k])
  {
    if rows != [] {
      var front := rows[..|rows| - 1];
      PageRecordsRows(canonical, keys, front);
      assert forall k :: 0 <= k < |front| ==> front[k] == rows[k];
    }
  }

  /** A parsable timestamp is stored in its six-digit canonical form. */
  lemma TimestampCanonicalised(head: string, fraction: string, zone: string, r: nat, i: nat)
    requires Accepted(head, fraction, zone)
    ensures Stored(CanonicalTimestamp, "timestamp", JString(head + fraction + zone), r, i)
            == Ok(JString(head + "." + SixDigits(fraction) + "Z"))
  {
    ParseThenRender(head, fraction, zone);
  }

  /** A timestamp that does not parse is kept as it was. */
  lemma UnparsableKept(s: string, r: nat, i: nat)
    requires ParseApplicationInsightsDateTime(s).None?
    ensures Stored(CanonicalTimestamp, "timestamp", JString(s), r, i) == Ok(JString(s))
  {
  }

  /** Canonicalising a canonical timestamp changes nothing. */
  lemma CanonicalIdempotent(s: string)
    ensures CanonicalTimestamp(CanonicalTimestamp(s)) == CanonicalTimestamp(s)
  {
    match ParseApplicationInsightsDateTime(s)
    case None =>
    case Some(t) => CanonicalOfRendered(t);
  }

  lemma CanonicalOfRendered(t: Ticks)
    ensures CanonicalTimestamp(ToAirbyteIsoString(t)) == ToAirbyteIsoString(t)
  {
    RenderParseRender(t);
    CanonicalFixed(ToAirbyteIsoString(t), ParseApplicationInsightsDateTime(ToAirbyteIsoString(t)).value);
  }

  lemma CanonicalFixed(s: string, u: Ticks)
    requires ParseApplicationInsightsDateTime(s) == Some(u) && ToAirbyteIsoString(u) == s
    ensures CanonicalTimestamp(s) == s
  {
  }
}
