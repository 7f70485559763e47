/** The catalog loader, `create_database` and `main` in
    create_mdrm_database.py: the cleaned frame's columns are renamed to the
    database's names, exactly the eleven mapped columns are selected (a
    missing one aborts the load), the rows are stored with fresh ids, and the
    summary table is built over them. */
module Loader {
  import opened Wrappers
  import opened Seqs
  import opened Catalog
  import opened Normalize
  import opened Summary

  /** `columns_mapping`: CSV column name to database column name, in order. */
  const ColumnsMapping: seq<(string, string)> := [
    ("MDRM_Identifier", "mdrm_identifier"),
    ("Mnemonic", "mnemonic"),
    ("Item Code", "item_code"),
    ("Start Date", "start_date"),
    ("End Date", "end_date"),
    ("Item Name", "item_name"),
    ("Confidentiality", "confidentiality"),
    ("ItemType", "item_type"),
    ("Reporting Form", "reporting_form"),
    ("Description", "description"),
    ("SeriesGlossary", "series_glossary")]

  /** The database names of a mapping, in order. */
  function Targets(mapping: seq<(string, string)>): (names: seq<string>)
    ensures |names| == |mapping|
    ensures forall i :: 0 <= i < |mapping| ==> names[i] == mapping[i].1
  {
    seq(|mapping|, i requires 0 <= i < |mapping| => mapping[i].1)
  }

  /** `insert_columns = list(columns_mapping.values())` */
  const InsertColumns: seq<string> := Targets(ColumnsMapping)

  // ---------------------------------------------------------------------
  // Renaming

  /** `df.rename(columns={from: to})`: every column labelled `from` is
      relabelled `to`; the cells stay where they are. */
  function RenameColumn(df: Frame, from: string, to: string): (r: Frame)
    ensures r.height == df.height && |r.columns| == |df.columns|
    ensures forall i :: 0 <= i < |df.columns| ==>
      r.columns[i] == Column(if df.columns[i].name == from then to else df.columns[i].name, df.columns[i].cells)
  {
    df.(columns := seq(|df.columns|, i requires 0 <= i < |df.columns| =>
      Column(if df.columns[i].name == from then to else df.columns[i].name, df.columns[i].cells)))
  }

  /** The rename loop over `mapping`, renaming a column only when one with
      the old name is present. */
  function RenameAll(df: Frame, mapping: seq<(string, string)>): (r: Frame)
    ensures r.height == df.height && |r.columns| == |df.columns|
    ensures WellFormed(df) ==> WellFormed(r)
  {
    if mapping == [] then df
    else
      var d := RenameAll(df, mapping[..|mapping| - 1]);
      var pair := mapping[|mapping| - 1];
      if HasColumn(d, pair.0) then RenameColumn(d, pair.0, pair.1) else d
  }

  /** The name a column called `name` ends up with after the rename loop. */
  function RenamedName(mapping: seq<(string, string)>, name: string): string
  {
    if mapping == [] then name
    else
      var m := RenamedName(mapping[..|mapping| - 1], name);
      if m == mapping[|mapping| - 1].0 then mapping[|mapping| - 1].1 else m
  }

  /** Renaming relabels each column by `RenamedName` and moves no cell. */
  lemma {:induction false} RenameAllColumns(df: Frame, mapping: seq<(string, string)>)
    ensures forall i :: 0 <= i < |df.columns| ==>
      RenameAll(df, mapping).columns[i] == Column(RenamedName(mapping, df.columns[i].name), df.columns[i].cells)
  {
    if mapping != [] {
      var p := mapping[..|mapping| - 1];
      RenameAllColumns(df, p);
      var d := RenameAll(df, p);
      assert forall i :: 0 <= i < |d.columns| ==> Names(d)[i] == d.columns[i].name;
    }
  }

  /** The rename loop of `create_database`. */
  method RenameColumns(df: Frame, mapping: seq<(string, string)>) returns (r: Frame)
    ensures r == RenameAll(df, mapping)
  {
    r := df;
    for k := 0 to |mapping|
      invariant r == RenameAll(df, mapping[..k])
    {
      var (oldCol, newCol) := mapping[k];
      if HasColumn(r, oldCol) {
        r := RenameColumn(r, oldCol, newCol);
      }
      assert mapping[..k + 1][..k] == mapping[..k];
    }
    assert mapping[..|mapping|] == mapping;
  }

  /** The sources are pairwise different, so are the targets, and no target
      is a source: renaming then never chains. */
  predicate MappingApart(m: seq<(string, string)>)
  {
    && (forall i, j :: 0 <= i < j < |m| ==> m[i].0 != m[j].0 && m[i].1 != m[j].1)
    && (forall i, j :: 0 <= i < |m| && 0 <= j < |m| ==> m[i].1 != m[j].0)
  }

  lemma ColumnsMappingApart()
    ensures MappingApart(ColumnsMapping)
  {
    SourcesCapitalized();
    TargetsLowerCase();
    SourcesDistinct();
    TargetsDistinct();
  }

  lemma SourcesCapitalized()
    ensures forall i :: 0 <= i < |ColumnsMapping| ==> ColumnsMapping[i].0 != [] && 'A' <= ColumnsMapping[i].0[0] <= 'Z'
  {
  }

  lemma TargetsLowerCase()
    ensures forall i :: 0 <= i < |ColumnsMapping| ==> ColumnsMapping[i].1 != [] && 'a' <= ColumnsMapping[i].1[0] <= 'z'
  {
  }

  lemma SourcesDistinct()
    ensures forall i, j :: 0 <= i < j < |ColumnsMapping| ==> ColumnsMapping[i].0 != ColumnsMapping[j].0
  {
  }

  lemma TargetsDistinct()
    ensures forall i, j :: 0 <= i < j < |ColumnsMapping| ==> ColumnsMapping[i].1 != ColumnsMapping[j].1
  {
  }

  lemma {:induction false} RenamedNameOfOther(m: seq<(string, string)>, name: string)
    requires forall i :: 0 <= i < |m| ==> m[i].0 != name
    ensures RenamedName(m, name) == name
  {
    if m != [] {
      RenamedNameOfOther(m[..|m| - 1], name);
    }
  }

  lemma {:induction false} RenamedNameOfSource(m: seq<(string, string)>, i: nat)
    requires MappingApart(m) && i < |m|
    ensures RenamedName(m, m[i].0) == m[i].1
  {
    var p := m[..|m| - 1];
    if i == |m| - 1 {
      RenamedNameOfOther(p, m[i].0);
    } else {
      RenamedNameOfSource(p, i);
    }
  }

  /** After renaming, the database column `tgt` of a mapping pair exists
      exactly when the frame had the CSV column `src` or already had `tgt`. */
  lemma RenamedHasTarget(df: Frame, m: seq<(string, string)>, i: nat)
    requires MappingApart(m) && i < |m|
    ensures HasColumn(RenameAll(df, m), m[i].1) <==> HasColumn(df, m[i].0) || HasColumn(df, m[i].1)
  {
    var r := RenameAll(df, m);
    RenameAllColumns(df, m);
    RenamedNameOfSource(m, i);
    RenamedNameOfOther(m, m[i].1);
    if HasColumn(r, m[i].1) {
      var c := IndexOf(Names(r), m[i].1);
      var name := df.columns[c].name;
      if exists j :: 0 <= j < |m| && m[j].0 == name {
        var j :| 0 <= j < |m| && m[j].0 == name;
        RenamedNameOfSource(m, j);
        assert Names(df)[c] == m[i].0;
      } else {
        RenamedNameOfOther(m, name);
        assert Names(df)[c] == m[i].1;
      }
    }
    if HasColumn(df, m[i].0) {
      var c := IndexOf(Names(df), m[i].0);
      assert Names(r)[c] == m[i].1;
    } else if HasColumn(df, m[i].1) {
      var c := IndexOf(Names(df), m[i].1);
      assert Names(r)[c] == m[i].1;
    }
  }

  /** Only a mapping pair's own CSV name, or its database name, is renamed
      to that database name. */
  lemma RenamedNameAvoidsTarget(m: seq<(string, string)>, k: nat, name: string)
    requires MappingApart(m) && k < |m| && name != m[k].0 && name != m[k].1
    ensures RenamedName(m, name) != m[k].1
  {
    if j :| 0 <= j < |m| && m[j].0 == name {
      RenamedNameOfSource(m, j);
    } else {
      RenamedNameOfOther(m, name);
    }
  }

  /** When the frame has the CSV column of a mapping pair but not yet its
      database column, the renamed frame's database column holds the CSV
      column's cells. */
  lemma RenamedSourceCells(df: Frame, m: seq<(string, string)>, k: nat)
    requires WellFormed(df) && MappingApart(m) && k < |m|
    requires HasColumn(df, m[k].0) && !HasColumn(df, m[k].1)
    ensures HasColumn(RenameAll(df, m), m[k].1)
    ensures Get(RenameAll(df, m), m[k].1) == Get(df, m[k].0)
  {
    var r := RenameAll(df, m);
    RenameAllColumns(df, m);
    RenamedNameOfSource(m, k);
    var c := IndexOf(Names(df), m[k].0);
    assert Names(r)[c] == m[k].1;
    forall j | 0 <= j < c ensures Names(r)[j] != m[k].1 {
      assert Names(df)[j] in Names(df);
      RenamedNameAvoidsTarget(m, k, Names(df)[j]);
    }
    assert IndexOf(Names(r), m[k].1) == c;
  }

  // ---------------------------------------------------------------------
  // Selection and storage

  /** pandas raises a KeyError naming the labels it cannot find. */
  datatype LoadError = MissingColumns(names: seq<string>)

  /** The requested names the frame lacks, in request order. */
  function Missing(df: Frame, names: seq<string>): (r: seq<string>)
    ensures forall j :: 0 <= j < |r| ==> r[j] in names && !HasColumn(df, r[j])
    ensures r == [] <==> forall j :: 0 <= j < |names| ==> HasColumn(df, names[j])
  {
    if names == [] then []
    else
      var p := Missing(df, names[..|names| - 1]);
      var n := names[|names| - 1];
      assert names == names[..|names| - 1] + [n];
      if HasColumn(df, n) then p else p + [n]
  }

  /** `df_clean[insert_columns]`: the requested columns in request order, or
      the missing ones. */
  function SelectColumns(df: Frame, names: seq<string>): (r: Result<seq<seq<Value>>, LoadError>)
    requires WellFormed(df)
    ensures r.Failure? <==> exists j :: 0 <= j < |names| && !HasColumn(df, names[j])
    ensures r.Failure? ==> r.error.names != [] && forall j :: 0 <= j < |r.error.names| ==>
      r.error.names[j] in names && !HasColumn(df, r.error.names[j])
    ensures r.Success? ==> |r.value| == |names| && forall j :: 0 <= j < |names| ==>
      HasColumn(df, names[j]) && r.value[j] == Get(df, names[j])
  {
    var missing := Missing(df, names);
    if missing != [] then Failure(MissingColumns(missing))
    else Success(seq(|names|, j requires 0 <= j < |names| => Get(df, names[j])))
  }

  /** A cell written to a TEXT column: NaN becomes NULL. A parsed date never
      reaches one of the text columns. */
  function TextField(v: Value): Option<string>
  {
    match v
    case Str(s) => Some(s)
    case Null => None
    case Day(_) => None
  }

  /** A cell written to a DATE column: NaT becomes NULL. */
  function DateField(v: Value): Option<Date>
  {
    match v
    case Day(d) => Some(d)
    case _ => None
  }

  /** Row `i` of the selected columns as stored; a fresh table's
      AUTOINCREMENT numbers rows from 1. */
  function RowRecord(cols: seq<seq<Value>>, i: nat): (r: Record)
    requires |cols| == 11 && forall j :: 0 <= j < 11 ==> i < |cols[j]|
    ensures r.id == i + 1
  {
    Record(i + 1,
      TextField(cols[0][i]), TextField(cols[1][i]), TextField(cols[2][i]),
      DateField(cols[3][i]), DateField(cols[4][i]),
      TextField(cols[5][i]), TextField(cols[6][i]), TextField(cols[7][i]),
      TextField(cols[8][i]), TextField(cols[9][i]), TextField(cols[10][i]))
  }

  /** `df_insert.to_sql('mdrm_data', ...)` into the freshly created table. */
  function ToRecords(cols: seq<seq<Value>>, height: nat): (t: seq<Record>)
    requires |cols| == 11 && forall j :: 0 <= j < 11 ==> |cols[j]| == height
    ensures |t| == height
    ensures forall i :: 0 <= i < height ==> t[i] == RowRecord(cols, i)
  {
    seq(height, i requires 0 <= i < height => RowRecord(cols, i))
  }

  /** The database file: `mdrm_data` and `mdrm_summary`, replaced as a
      whole by every load. */
  datatype Database = Database(data: seq<Record>, summary: seq<StatRow>)

  /** What `create_database` leaves behind for a cleaned frame. */
  function Loaded(df: Frame, today: Date): (r: Result<Database, LoadError>)
    requires WellFormed(df)
    ensures r.Success? ==> |r.value.data| == df.height
  {
    var renamed := RenameAll(df, ColumnsMapping);
    match SelectColumns(renamed, InsertColumns)
    case Failure(e) => Failure(e)
    case Success(cols) =>
      var t := ToRecords(cols, df.height);
      Success(Database(t, SummaryRows(t, today)))
  }

  /** `create_database`: renames, selects the insert columns (a missing
      one raises), stores the rows, counts them and builds the summary. */
  method CreateDatabase(df: Frame, today: Date) returns (r: Result<Database, LoadError>, recordCount: nat)
    requires WellFormed(df)
    ensures r == Loaded(df, today)
    ensures r.Success? ==> recordCount == |r.value.data| == df.height
  {
    var dfClean := RenameColumns(df, ColumnsMapping);
    var dfInsert := SelectColumns(dfClean, InsertColumns);
    if dfInsert.Failure? {
      return Failure(dfInsert.error), 0;
    }
    var data := ToRecords(dfInsert.value, df.height);
    recordCount := |data|;
    var summary := CreateSummaryStats(data, today);
    r := Success(Database(data, summary));
  }

  /** The load fails exactly when, for some mapping pair, the frame has
      neither the CSV name nor the database name. */
  lemma LoadFailsExactly(df: Frame, today: Date)
    requires WellFormed(df)
    ensures Loaded(df, today).Failure? <==>
      exists i :: 0 <= i < |ColumnsMapping| && !HasColumn(df, ColumnsMapping[i].0) && !HasColumn(df, ColumnsMapping[i].1)
  {
    ColumnsMappingApart();
    forall i | 0 <= i < |ColumnsMapping|
      ensures HasColumn(RenameAll(df, ColumnsMapping), InsertColumns[i]) <==>
        HasColumn(df, ColumnsMapping[i].0) || HasColumn(df, ColumnsMapping[i].1)
    {
      RenamedHasTarget(df, ColumnsMapping, i);
    }
  }

  /** A successful load stores every row of the frame, in order, numbered
      from 1, and the summary over exactly those rows. */
  lemma LoadKeepsEveryRow(df: Frame, today: Date)
    requires WellFormed(df) && Loaded(df, today).Success?
    ensures var db := Loaded(df, today).value;
      && |db.data| == df.height
      && (forall i :: 0 <= i < |db.data| ==> db.data[i].id == i + 1)
      && db.summary == SummaryRows(db.data, today)
      && Lookup(db.summary, StatName(TotalRecords)) == Some(Text.NatToString(df.height))
  {
    var db := Loaded(df, today).value;
    FixedStatLookup(db.data, today, TotalRecords);
  }

  /** The frame names its columns the CSV way: it has none of the database
      names. */
  predicate CsvNamed(df: Frame)
  {
    forall k :: 0 <= k < |ColumnsMapping| ==> !HasColumn(df, ColumnsMapping[k].1)
  }

  /** The frame has every CSV column of the mapping. */
  predicate HasSources(df: Frame)
  {
    forall k :: 0 <= k < |ColumnsMapping| ==> HasColumn(df, ColumnsMapping[k].0)
  }

  /** A successful load of a CSV-named frame had every CSV column, and
      selects each one under its database name. */
  lemma SelectedSources(df: Frame, today: Date)
    requires WellFormed(df) && Loaded(df, today).Success? && CsvNamed(df)
    ensures HasSources(df)
    ensures SelectColumns(RenameAll(df, ColumnsMapping), InsertColumns).Success?
    ensures var cols := SelectColumns(RenameAll(df, ColumnsMapping), InsertColumns).value;
      forall k :: 0 <= k < |ColumnsMapping| ==> cols[k] == Get(df, ColumnsMapping[k].0)
  {
    LoadFailsExactly(df, today);
    ColumnsMappingApart();
    forall k | 0 <= k < |ColumnsMapping|
      ensures HasColumn(RenameAll(df, ColumnsMapping), ColumnsMapping[k].1)
      ensures Get(RenameAll(df, ColumnsMapping), ColumnsMapping[k].1) == Get(df, ColumnsMapping[k].0)
    {
      RenamedSourceCells(df, ColumnsMapping, k);
    }
  }

  /** What a stored record holds, for a CSV-named frame: record `i` carries
      row `i` of the eleven CSV columns, text cells as TEXT (NaN as NULL)
      and date cells as DATE (NaT as NULL). */
  lemma LoadStoresRow(df: Frame, today: Date, i: nat)
    requires WellFormed(df) && Loaded(df, today).Success? && CsvNamed(df) && i < df.height
    ensures HasSources(df)
    ensures var r := Loaded(df, today).value.data[i];
      && r.id == i + 1
      && r.mdrmIdentifier == TextField(CellAt(df, "MDRM_Identifier", i))
      && r.mnemonic == TextField(CellAt(df, "Mnemonic", i))
      && r.itemCode == TextField(CellAt(df, "Item Code", i))
      && r.startDate == DateField(CellAt(df, "Start Date", i))
      && r.endDate == DateField(CellAt(df, "End Date", i))
      && r.itemName == TextField(CellAt(df, "Item Name", i))
      && r.confidentiality == TextField(CellAt(df, "Confidentiality", i))
      && r.itemType == TextField(CellAt(df, "ItemType", i))
      && r.reportingForm == TextField(CellAt(df, "Reporting Form", i))
      && r.description == TextField(CellAt(df, "Description", i))
      && r.seriesGlossary == TextField(CellAt(df, "SeriesGlossary", i))
  {
    SelectedSources(df, today);
    var cols := SelectColumns(RenameAll(df, ColumnsMapping), InsertColumns).value;
    assert Loaded(df, today).value.data[i] == RowRecord(cols, i);
  }

  /** What a stored record holds, from the CSV as read: with the CSV's own
      column names, record `i` carries row `i`'s identifier synthesized from
      its mnemonic and item code, its dates as parsed, its three text fields
      decoded and stripped (a missing one as the text "nan"), and every other
      field as read. */
  lemma LoadStoresCsvRow(raw: Frame, parse: string -> Option<Date>, today: Date, i: nat)
    requires WellFormed(raw) && Loaded(Cleaned(raw, parse), today).Success? && i < raw.height
    requires CsvNamed(CleanHeaders(raw))
    ensures HasColumn(CleanHeaders(raw), MnemonicColumn) && HasColumn(CleanHeaders(raw), ItemCodeColumn)
    ensures var h, r := CleanHeaders(raw), Loaded(Cleaned(raw, parse), today).value.data[i];
      && r.id == i + 1
      && r.mdrmIdentifier == Some(MdrmIdentifier(AsText(CellAt(h, MnemonicColumn, i)), AsText(CellAt(h, ItemCodeColumn, i))))
      && r.mnemonic == TextField(CellAt(h, "Mnemonic", i))
      && r.itemCode == TextField(CellAt(h, "Item Code", i))
      && r.startDate == DateField(ParseCell(parse, CellAt(h, "Start Date", i)))
      && r.endDate == DateField(ParseCell(parse, CellAt(h, "End Date", i)))
      && r.itemName == Some(CleanText(AsText(CellAt(h, "Item Name", i))))
      && r.confidentiality == TextField(CellAt(h, "Confidentiality", i))
      && r.itemType == TextField(CellAt(h, "ItemType", i))
      && r.reportingForm == TextField(CellAt(h, "Reporting Form", i))
      && r.description == Some(CleanText(AsText(CellAt(h, "Description", i))))
      && r.seriesGlossary == Some(CleanText(AsText(CellAt(h, "SeriesGlossary", i))))
  {
    var df := Cleaned(raw, parse);
    CleanedCsvNamed(raw, parse);
    LoadStoresRow(df, today, i);
    CleanedPlainCells(raw, parse, i);
    CleanedDateCells(raw, parse, i);
    CleanedTextCells(raw, parse, i);
    CleanedIdentifier(raw, parse);
  }

  /** The CSV names of the mapping, sorted by what the cleanup does to them. */
  lemma SourceKinds()
    ensures forall k :: 0 <= k < |ColumnsMapping| ==> ColumnsMapping[k].1 != IdentifierColumn
    ensures forall k :: 1 <= k < |ColumnsMapping| ==> ColumnsMapping[k].0 != IdentifierColumn
    ensures DateColumns == [ColumnsMapping[3].0, ColumnsMapping[4].0]
    ensures TextColumns == [ColumnsMapping[9].0, ColumnsMapping[10].0, ColumnsMapping[5].0]
    ensures ColumnsMapping[1].0 !in DateColumns && ColumnsMapping[1].0 !in TextColumns
    ensures ColumnsMapping[2].0 !in DateColumns && ColumnsMapping[2].0 !in TextColumns
    ensures ColumnsMapping[6].0 !in DateColumns && ColumnsMapping[6].0 !in TextColumns
    ensures ColumnsMapping[7].0 !in DateColumns && ColumnsMapping[7].0 !in TextColumns
    ensures ColumnsMapping[8].0 !in DateColumns && ColumnsMapping[8].0 !in TextColumns
  {
  }

  /** Cleaning adds none of the database names to a CSV-named frame. */
  lemma CleanedCsvNamed(raw: Frame, parse: string -> Option<Date>)
    requires WellFormed(raw) && CsvNamed(CleanHeaders(raw))
    ensures CsvNamed(Cleaned(raw, parse))
  {
    SourceKinds();
    forall k | 0 <= k < |ColumnsMapping| ensures !HasColumn(Cleaned(raw, parse), ColumnsMapping[k].1) {
      CleanedHasColumn(raw, parse, ColumnsMapping[k].1);
    }
  }

  /** A plain column present after cleaning holds the cells as read. */
  lemma PlainCell(raw: Frame, parse: string -> Option<Date>, n: string, i: nat)
    requires WellFormed(raw) && n != IdentifierColumn && n !in DateColumns && n !in TextColumns
    requires HasColumn(Cleaned(raw, parse), n)
    ensures HasColumn(CleanHeaders(raw), n)
    ensures CellAt(Cleaned(raw, parse), n, i) == CellAt(CleanHeaders(raw), n, i)
  {
    CleanedHasColumn(raw, parse, n);
    CleanedOtherColumn(raw, parse, n);
  }

  /** A date column present after cleaning holds the parsed cells. */
  lemma DateCell(raw: Frame, parse: string -> Option<Date>, n: string, i: nat)
    requires WellFormed(raw) && n in DateColumns && i < raw.height
    requires HasColumn(Cleaned(raw, parse), n)
    ensures CellAt(Cleaned(raw, parse), n, i) == ParseCell(parse, CellAt(CleanHeaders(raw), n, i))
  {
    ColumnListsApart(n);
    CleanedHasColumn(raw, parse, n);
    CleanedDateColumn(raw, parse, n);
  }

  /** A text column present after cleaning holds the cleaned cells. */
  lemma TextCell(raw: Frame, parse: string -> Option<Date>, n: string, i: nat)
    requires WellFormed(raw) && n in TextColumns && i < raw.height
    requires HasColumn(Cleaned(raw, parse), n)
    ensures CellAt(Cleaned(raw, parse), n, i) == CleanCell(CellAt(CleanHeaders(raw), n, i))
  {
    ColumnListsApart(n);
    CleanedHasColumn(raw, parse, n);
    CleanedTextColumn(raw, parse, n);
  }

  lemma CleanedPlainCells(raw: Frame, parse: string -> Option<Date>, i: nat)
    requires WellFormed(raw) && HasSources(Cleaned(raw, parse))
    ensures HasColumn(CleanHeaders(raw), "Mnemonic") && HasColumn(CleanHeaders(raw), "Item Code")
    ensures var df, h := Cleaned(raw, parse), CleanHeaders(raw);
      && CellAt(df, "Mnemonic", i) == CellAt(h, "Mnemonic", i)
      && CellAt(df, "Item Code", i) == CellAt(h, "Item Code", i)
      && CellAt(df, "Confidentiality", i) == CellAt(h, "Confidentiality", i)
      && CellAt(df, "ItemType", i) == CellAt(h, "ItemType", i)
      && CellAt(df, "Reporting Form", i) == CellAt(h, "Reporting Form", i)
  {
    SourceKinds();
    PlainCell(raw, parse, ColumnsMapping[1].0, i);
    PlainCell(raw, parse, ColumnsMapping[2].0, i);
    PlainCell(raw, parse, ColumnsMapping[6].0, i);
    PlainCell(raw, parse, ColumnsMapping[7].0, i);
    PlainCell(raw, parse, ColumnsMapping[8].0, i);
  }

  lemma CleanedDateCells(raw: Frame, parse: string -> Option<Date>, i: nat)
    requires WellFormed(raw) && HasSources(Cleaned(raw, parse)) && i < raw.height
    ensures var df, h := Cleaned(raw, parse), CleanHeaders(raw);
      && CellAt(df, "Start Date", i) == ParseCell(parse, CellAt(h, "Start Date", i))
      && CellAt(df, "End Date", i) == ParseCell(parse, CellAt(h, "End Date", i))
  {
    SourceKinds();
    DateCell(raw, parse, ColumnsMapping[3].0, i);
    DateCell(raw, parse, ColumnsMapping[4].0, i);
  }

  lemma CleanedTextCells(raw: Frame, parse: string -> Option<Date>, i: nat)
    requires WellFormed(raw) && HasSources(Cleaned(raw, parse)) && i < raw.height
    ensures var df, h := Cleaned(raw, parse), CleanHeaders(raw);
      && CellAt(df, "Item Name", i) == CleanCell(CellAt(h, "Item Name", i))
      && CellAt(df, "Description", i) == CleanCell(CellAt(h, "Description", i))
      && CellAt(df, "SeriesGlossary", i) == CleanCell(CellAt(h, "SeriesGlossary", i))
  {
    SourceKinds();
    TextCell(raw, parse, ColumnsMapping[5].0, i);
    TextCell(raw, parse, ColumnsMapping[9].0, i);
    TextCell(raw, parse, ColumnsMapping[10].0, i);
  }

  /** A cleaned CSV can only load when it provides the identifier column:
      either directly, or through both code columns from which
      `clean_csv_data` synthesizes it. */
  lemma LoadNeedsIdentifier(raw: Frame, parse: string -> Option<Date>, today: Date)
    requires WellFormed(raw)
    requires Loaded(Cleaned(raw, parse), today).Success?
    ensures var h := CleanHeaders(raw);
      || HasColumn(h, IdentifierColumn)
      || HasColumn(h, ColumnsMapping[0].1)
      || (HasColumn(h, MnemonicColumn) && HasColumn(h, ItemCodeColumn))
  {
    var df := Cleaned(raw, parse);
    LoadFailsExactly(df, today);
    assert ColumnsMapping[0].0 == IdentifierColumn;
    CleanedFacts(raw, parse);
    assert ColumnsMapping[0].1 != IdentifierColumn;
  }

  // ---------------------------------------------------------------------
  // The script

  /** `main`: exit status 1 when the CSV file is absent or the load raises,
      0 after a complete load. Reading the file is `csvExists` and `raw`. */
  method RunLoader(csvExists: bool, raw: Frame, parse: string -> Option<Date>, today: Date)
    returns (status: int, db: Option<Database>)
    requires WellFormed(raw)
    ensures status == 0 || status == 1
    ensures status == 0 <==> db.Some?
    ensures status == 0 <==> csvExists && Loaded(Cleaned(raw, parse), today).Success?
    ensures db.Some? ==> Loaded(Cleaned(raw, parse), today) == Success(db.value) && |db.value.data| == raw.height
  {
    if !csvExists {
      return 1, None;
    }
    var df := CleanCsvData(raw, parse);
    var r, recordCount := CreateDatabase(df, today);
    if r.Failure? {
      return 1, None;
    }
    return 0, Some(r.value);
  }
}
