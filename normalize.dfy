/** The field normalizer, `clean_csv_data` in create_mdrm_database.py: the
    CSV as a frame of named columns goes through header cleanup, date
    parsing of two columns, entity decoding of three text columns and the
    synthesis of the `MDRM_Identifier` column. */
module Normalize {
  import opened Wrappers
  import opened Text
  import opened Seqs
  import opened Catalog

  /** A cell of the frame: missing (NaN/NaT), text, or a parsed date. */
  datatype Value = Null | Str(text: string) | Day(date: Date)

  datatype Column = Column(name: string, cells: seq<Value>)

  /** A pandas DataFrame: `height` rows, columns in order. */
  datatype Frame = Frame(height: nat, columns: seq<Column>)

  predicate WellFormed(df: Frame)
  {
    forall i :: 0 <= i < |df.columns| ==> |df.columns[i].cells| == df.height
  }

  /** `list(df.columns)` */
  function Names(df: Frame): (r: seq<string>)
    ensures |r| == |df.columns|
    ensures forall i :: 0 <= i < |r| ==> r[i] == df.columns[i].name
  {
    seq(|df.columns|, i requires 0 <= i < |df.columns| => df.columns[i].name)
  }

  /** `name in df.columns` */
  predicate HasColumn(df: Frame, name: string)
  {
    name in Names(df)
  }

  /** Position of the first column called `name`. */
  function IndexOf(names: seq<string>, name: string): (i: nat)
    requires name in names
    ensures i < |names| && names[i] == name
    ensures forall j :: 0 <= j < i ==> names[j] != name
  {
    if names[0] == name then 0 else IndexOf(names[1..], name) + 1
  }

  lemma {:induction false} IndexOfSnoc(names: seq<string>, x: string, name: string)
    requires name in names
    ensures IndexOf(names + [x], name) == IndexOf(names, name)
  {
    if names[0] != name {
      assert (names + [x])[1..] == names[1..] + [x];
      IndexOfSnoc(names[1..], x, name);
    }
  }

  /** `df[name]`, the first column of that name. */
  function Get(df: Frame, name: string): (cells: seq<Value>)
    requires WellFormed(df) && HasColumn(df, name)
    ensures |cells| == df.height
  {
    df.columns[IndexOf(Names(df), name)].cells
  }

  /** Cell `i` of the column `name`, or NULL when there is none. */
  function CellAt(df: Frame, name: string, i: nat): Value
    requires WellFormed(df)
  {
    if HasColumn(df, name) && i < df.height then Get(df, name)[i] else Null
  }

  /** `df[name] = cells`: overwrites the first column of that name, or adds
      the column at the end when there is none. */
  function Set(df: Frame, name: string, cells: seq<Value>): (r: Frame)
    requires WellFormed(df) && |cells| == df.height
    ensures WellFormed(r) && r.height == df.height
    ensures Names(r) == if HasColumn(df, name) then Names(df) else Names(df) + [name]
    ensures Get(r, name) == cells
  {
    if HasColumn(df, name) then
      var r := df.(columns := df.columns[IndexOf(Names(df), name) := Column(name, cells)]);
      assert Names(r) == Names(df);
      r
    else
      var r := df.(columns := df.columns + [Column(name, cells)]);
      assert Names(r) == Names(df) + [name];
      r
  }

  /** Writing one column leaves every other column as it was. */
  lemma SetOther(df: Frame, name: string, cells: seq<Value>, other: string)
    requires WellFormed(df) && |cells| == df.height && other != name
    ensures HasColumn(Set(df, name, cells), other) == HasColumn(df, other)
    ensures HasColumn(df, other) ==> Get(Set(df, name, cells), other) == Get(df, other)
  {
    if HasColumn(df, other) && !HasColumn(df, name) {
      IndexOfSnoc(Names(df), name, other);
    }
  }

  /** The two per-cell conversions the cleanup loops apply to a column. */
  datatype CellStep = ToDate(parse: string -> Option<Date>) | ToCleanText

  function ApplyStep(f: CellStep, v: Value): Value
  {
    match f
    case ToDate(parse) => ParseCell(parse, v)
    case ToCleanText => CleanCell(v)
  }

  function MapCells(cells: seq<Value>, f: CellStep): (r: seq<Value>)
    ensures |r| == |cells|
    ensures forall i :: 0 <= i < |cells| ==> r[i] == ApplyStep(f, cells[i])
  {
    seq(|cells|, i requires 0 <= i < |cells| => ApplyStep(f, cells[i]))
  }

  /** `if col in df.columns: df[col] = f(df[col])` */
  function MapColumn(df: Frame, col: string, f: CellStep): (r: Frame)
    requires WellFormed(df)
    ensures WellFormed(r) && r.height == df.height && Names(r) == Names(df)
  {
    if HasColumn(df, col) then Set(df, col, MapCells(Get(df, col), f)) else df
  }

  /** `for col in cols: if col in df.columns: df[col] = f(df[col])` */
  function MapColumns(df: Frame, cols: seq<string>, f: CellStep): (r: Frame)
    requires WellFormed(df)
    ensures WellFormed(r) && r.height == df.height && Names(r) == Names(df)
  {
    if cols == [] then df else MapColumn(MapColumns(df, cols[..|cols| - 1], f), cols[|cols| - 1], f)
  }

  /** A column the loop does not visit is left as it was. */
  lemma {:induction false} MapColumnsOther(df: Frame, cols: seq<string>, f: CellStep, other: string)
    requires WellFormed(df) && other !in cols && HasColumn(df, other)
    ensures Get(MapColumns(df, cols, f), other) == Get(df, other)
  {
    if cols != [] {
      var p := cols[..|cols| - 1];
      var c := cols[|cols| - 1];
      assert cols == p + [c];
      MapColumnsOther(df, p, f, other);
      var m := MapColumns(df, p, f);
      if HasColumn(m, c) {
        SetOther(m, c, MapCells(Get(m, c), f), other);
      }
    }
  }

  /** A column the loop visits once is mapped by `f` cell by cell. */
  lemma {:induction false} MapColumnsAt(df: Frame, cols: seq<string>, f: CellStep, col: string)
    requires WellFormed(df) && Distinct(cols) && col in cols && HasColumn(df, col)
    ensures Get(MapColumns(df, cols, f), col) == MapCells(Get(df, col), f)
  {
    var p := cols[..|cols| - 1];
    var c := cols[|cols| - 1];
    assert cols == p + [c];
    var m := MapColumns(df, p, f);
    if c == col {
      assert col !in p;
      MapColumnsOther(df, p, f, col);
    } else {
      assert col in p;
      MapColumnsAt(df, p, f, col);
      if HasColumn(m, c) {
        SetOther(m, c, MapCells(Get(m, c), f), col);
      }
    }
  }

  // ---------------------------------------------------------------------
  // Per-value transforms

  /** Header cleanup, `name.strip().rstrip(',')`: the result does not start
      with whitespace, does not end in a comma, is a prefix of the stripped
      name, and only commas were cut off after it. */
  function CleanHeader(name: string): (r: string)
    ensures r == [] || !IsSpace(r[0])
    ensures r == [] || r[|r| - 1] != ','
    ensures |r| <= |Strip(name)| && r == Strip(name)[..|r|]
    ensures forall i :: |r| <= i < |Strip(name)| ==> Strip(name)[i] == ','
  {
    var s := Strip(name);
    var r := RStripChar(s, ',');
    assert r != [] ==> r[0] == s[0];
    r
  }

  /** Whitespace before a trailing comma survives the cleanup, so cleaning
      a cleaned header can change it again. */
  lemma CleanHeaderNotIdempotent()
    ensures CleanHeader("Mnemonic ,") == "Mnemonic "
    ensures CleanHeader(CleanHeader("Mnemonic ,")) == "Mnemonic"
  {
    CleanHeaderKeepsSpaceBeforeComma();
    CleanHeaderOfSpaced();
  }

  lemma CleanHeaderKeepsSpaceBeforeComma()
    ensures CleanHeader("Mnemonic ,") == "Mnemonic "
  {
    var s := "Mnemonic ,";
    assert !IsSpace(s[0]) && !IsSpace(s[9]);
    assert LStrip(s) == s && RStrip(s) == s;
    assert s[..9] == "Mnemonic ";
    var u := "Mnemonic ";
    assert u[8] != ',';
    assert RStripChar(u, ',') == u;
  }

  lemma CleanHeaderOfSpaced()
    ensures CleanHeader("Mnemonic ") == "Mnemonic"
  {
    var u := "Mnemonic ";
    assert !IsSpace(u[0]) && IsSpace(u[8]) && !IsSpace(u[7]);
    assert LStrip(u) == u;
    assert u[..8] == "Mnemonic";
    assert RStrip("Mnemonic") == "Mnemonic";
    assert RStrip(u) == "Mnemonic";
    assert "Mnemonic"[7] != ',';
  }

  /** The carriage-return entity and the ampersand entity. */
  const CrEntity: string := "&#x0D;"
  const AmpEntity: string := "&amp;"

  /** The two decoding passes: the carriage-return entity to a newline,
      then the ampersand entity to `&`. */
  function Decoded(s: string): string
  {
    Replace(Replace(s, CrEntity, "\n"), AmpEntity, "&")
  }

  /** Text cleanup: decode, then strip. The result never starts or ends
      with whitespace, and a value without `&` is only stripped. */
  function CleanText(s: string): (r: string)
    ensures r == [] || (!IsSpace(r[0]) && !IsSpace(r[|r| - 1]))
    ensures '&' !in s ==> r == Strip(s)
  {
    DecodedAmpFree(s);
    Strip(Decoded(s))
  }

  /** Both entities start with `&`, so a value without `&` has nothing to
      decode. */
  lemma DecodedAmpFree(s: string)
    ensures '&' !in s ==> Decoded(s) == s
  {
    if '&' !in s {
      ReplaceAbsent(s, CrEntity, "\n");
      ReplaceAbsent(s, AmpEntity, "&");
    }
  }

  /** Every carriage-return entity becomes a newline: the text before it
      and the text after it are decoded on their own. */
  lemma DecodesCr(a: string, b: string)
    ensures Decoded(a + CrEntity + b) == Decoded(a) + "\n" + Decoded(b)
  {
    assert HeadUnique(CrEntity) by {
      assert CrEntity[1..] == "#x0D;";
    }
    ReplaceOccurrence(a, CrEntity, "\n", b);
    ReplaceAroundChar(Replace(a, CrEntity, "\n"), '\n', Replace(b, CrEntity, "\n"), AmpEntity, "&");
  }

  /** Every ampersand entity becomes `&`: the first pass leaves it alone and
      the second decodes it, with the text on either side decoded on its
      own. */
  lemma DecodesAmp(a: string, b: string)
    ensures Decoded(a + AmpEntity + b) == Decoded(a) + "&" + Decoded(b)
  {
    assert HeadUnique(CrEntity) by {
      assert CrEntity[1..] == "#x0D;";
    }
    assert HeadUnique(AmpEntity) by {
      assert AmpEntity[1..] == "amp;";
    }
    ReplaceAroundMismatch(a, AmpEntity, b, CrEntity, "\n");
    ReplaceOccurrence(Replace(a, CrEntity, "\n"), AmpEntity, "&", Replace(b, CrEntity, "\n"));
  }

  /** A trailing carriage-return entity becomes a newline, which the strip
      then removes: cleaning `s` with the entity appended gives what cleaning
      `s` gives. */
  lemma CleanTextTrailingCr(s: string)
    ensures CleanText(s + CrEntity) == CleanText(s)
  {
    var d := Decoded(s);
    assert Decoded(s + CrEntity) == d + "\n" by {
      DecodesCr(s, []);
      assert s + CrEntity + [] == s + CrEntity;
      NothingDecoded();
    }
    StripSnocSpace(d, '\n');
  }

  lemma NothingDecoded()
    ensures Decoded([]) == []
  {
  }

  /** Inside a value the carriage-return entity becomes a line break. */
  lemma CleanTextInteriorCr()
    ensures CleanText("a&#x0D;b") == "a\nb"
  {
    var u := "a\nb";
    assert Decoded("a&#x0D;b") == u by {
      DecodesCr("a", "b");
      assert "a" + CrEntity + "b" == "a&#x0D;b";
      DecodedAmpFree("a");
      DecodedAmpFree("b");
    }
    assert Strip(u) == u by {
      assert !IsSpace(u[0]) && !IsSpace(u[2]);
      assert LStrip(u) == u && RStrip(u) == u;
    }
  }

  lemma EscapedEntityHasNoCr()
    ensures Replace("&amp;#x0D;", CrEntity, "\n") == "&amp;#x0D;"
  {
    var s := "&amp;#x0D;";
    assert '&' !in s[1..] by {
      assert s[1..] == "amp;#x0D;";
    }
    ReplaceAbsent(s[1..], CrEntity, "\n");
    assert s[..6][1] == 'a' != CrEntity[1];
  }

  lemma EscapedEntityDecodesToEntity()
    ensures Replace("&amp;#x0D;", AmpEntity, "&") == "&#x0D;"
  {
    var s := "&amp;#x0D;";
    assert s[..5] == AmpEntity && s[5..] == "#x0D;";
    ReplaceAbsent(s[5..], AmpEntity, "&");
  }

  lemma EntityIsStripped()
    ensures Strip("&#x0D;") == "&#x0D;"
  {
    var e := "&#x0D;";
    assert !IsSpace(e[0]) && !IsSpace(e[5]);
    assert LStrip(e) == e && RStrip(e) == e;
  }

  lemma CleanTextOfCrEntity()
    ensures CleanText("&#x0D;") == ""
  {
    var e := "&#x0D;";
    assert e[..6] == CrEntity && e[6..] == [];
    assert Replace(e, CrEntity, "\n") == "\n";
    ReplaceAbsent("\n", AmpEntity, "&");
    assert IsSpace("\n"[0]);
    assert LStrip("\n") == LStrip([]);
  }

  /** Decoding is a single pass: an escaped entity decodes to an entity, not
      to the character it names, and cleaning that result again turns it
      into something else, so the cleanup is not idempotent. */
  lemma CleanTextSinglePass()
    ensures CleanText("&amp;#x0D;") == "&#x0D;"
    ensures CleanText(CleanText("&amp;#x0D;")) == ""
  {
    CleanTextOfEscapedEntity();
    CleanTextOfCrEntity();
  }

  lemma CleanTextOfEscapedEntity()
    ensures CleanText("&amp;#x0D;") == "&#x0D;"
  {
    EscapedEntityHasNoCr();
    EscapedEntityDecodesToEntity();
    assert Decoded("&amp;#x0D;") == "&#x0D;";
    EntityIsStripped();
  }

  /** The identifier `str(mnemonic) + str(item_code)`: the mnemonic is its
      prefix and the item code the rest. */
  function MdrmIdentifier(mnemonic: string, itemCode: string): (r: string)
    ensures |r| == |mnemonic| + |itemCode|
    ensures r[..|mnemonic|] == mnemonic && r[|mnemonic|..] == itemCode
  {
    mnemonic + itemCode
  }

  lemma MdrmIdentifierExample()
    ensures MdrmIdentifier("RCON", "2170") == "RCON2170"
  {
  }

  /** `astype(str)`: a missing cell becomes the text `nan`. A parsed date
      never reaches a text column (raw cells are text or missing, and only
      the two date columns are parsed), so its rendering is not modelled. */
  function AsText(v: Value): string
  {
    match v
    case Null => "nan"
    case Str(s) => s
    case Day(_) => ""
  }

  /** `pd.to_datetime(cell, errors='coerce')` with `parse` standing for
      pandas' date inference: text it cannot read becomes NaT. */
  function ParseCell(parse: string -> Option<Date>, v: Value): (r: Value)
    ensures r.Null? || r.Day?
  {
    match v
    case Null => Null
    case Str(s) => (match parse(s) case Some(d) => Day(d) case None => Null)
    case Day(d) => Day(d)
  }

  /** The text cleanup applied to one cell after `astype(str)`. */
  function CleanCell(v: Value): (r: Value)
    ensures r.Str?
  {
    Str(CleanText(AsText(v)))
  }

  // ---------------------------------------------------------------------
  // The frame-level steps of clean_csv_data

  const DateColumns: seq<string> := ["Start Date", "End Date"]
  const TextColumns: seq<string> := ["Description", "SeriesGlossary", "Item Name"]
  const MnemonicColumn: string := "Mnemonic"
  const ItemCodeColumn: string := "Item Code"
  const IdentifierColumn: string := "MDRM_Identifier"

  /** `df.columns = df.columns.str.strip().str.rstrip(',')` */
  function CleanHeaders(df: Frame): (r: Frame)
    requires WellFormed(df)
    ensures WellFormed(r) && r.height == df.height
    ensures |r.columns| == |df.columns|
    ensures forall i :: 0 <= i < |r.columns| ==>
              r.columns[i] == Column(CleanHeader(df.columns[i].name), df.columns[i].cells)
  {
    df.(columns := seq(|df.columns|, i requires 0 <= i < |df.columns| =>
                       Column(CleanHeader(df.columns[i].name), df.columns[i].cells)))
  }

  /** The identifier column computed from the two code columns. */
  function IdentifierCells(df: Frame): (cells: seq<Value>)
    requires WellFormed(df) && HasColumn(df, MnemonicColumn) && HasColumn(df, ItemCodeColumn)
    ensures |cells| == df.height
    ensures forall i :: 0 <= i < df.height ==>
              cells[i] == Str(MdrmIdentifier(AsText(Get(df, MnemonicColumn)[i]), AsText(Get(df, ItemCodeColumn)[i])))
  {
    var m := Get(df, MnemonicColumn);
    var c := Get(df, ItemCodeColumn);
    seq(df.height, i requires 0 <= i < df.height => Str(MdrmIdentifier(AsText(m[i]), AsText(c[i]))))
  }

  /** `if 'Mnemonic' in df.columns and 'Item Code' in df.columns:
      df['MDRM_Identifier'] = ...` */
  function AddIdentifier(df: Frame): (r: Frame)
    requires WellFormed(df)
    ensures WellFormed(r) && r.height == df.height
  {
    if HasColumn(df, MnemonicColumn) && HasColumn(df, ItemCodeColumn) then
      Set(df, IdentifierColumn, IdentifierCells(df))
    else df
  }

  /** `clean_csv_data` up to its date loop, its text loop, and in full. */
  function Dated(raw: Frame, parse: string -> Option<Date>): (r: Frame)
    requires WellFormed(raw)
    ensures WellFormed(r) && r.height == raw.height && Names(r) == Names(CleanHeaders(raw))
  {
    MapColumns(CleanHeaders(raw), DateColumns, ToDate(parse))
  }

  function Texted(raw: Frame, parse: string -> Option<Date>): (r: Frame)
    requires WellFormed(raw)
    ensures WellFormed(r) && r.height == raw.height && Names(r) == Names(CleanHeaders(raw))
  {
    MapColumns(Dated(raw, parse), TextColumns, ToCleanText)
  }

  function Cleaned(raw: Frame, parse: string -> Option<Date>): (r: Frame)
    requires WellFormed(raw)
    ensures WellFormed(r) && r.height == raw.height
  {
    AddIdentifier(Texted(raw, parse))
  }

  /** Which columns the cleaned frame has. */
  lemma CleanedHasColumn(raw: Frame, parse: string -> Option<Date>, n: string)
    requires WellFormed(raw)
    ensures var h := CleanHeaders(raw);
            n != IdentifierColumn ==> (HasColumn(Cleaned(raw, parse), n) <==> HasColumn(h, n))
    ensures var h := CleanHeaders(raw);
            n == IdentifierColumn ==>
              (HasColumn(Cleaned(raw, parse), n) <==>
                 HasColumn(h, n) || (HasColumn(h, MnemonicColumn) && HasColumn(h, ItemCodeColumn)))
  {
  }

  /** The column lists of `clean_csv_data` name different columns. */
  lemma ColumnListsApart(n: string)
    ensures Distinct(DateColumns) && Distinct(TextColumns)
    ensures n in DateColumns ==> n !in TextColumns && n != IdentifierColumn
    ensures n in TextColumns ==> n != IdentifierColumn
    ensures MnemonicColumn !in DateColumns && MnemonicColumn !in TextColumns && MnemonicColumn != IdentifierColumn
    ensures ItemCodeColumn !in DateColumns && ItemCodeColumn !in TextColumns && ItemCodeColumn != IdentifierColumn
  {
  }

  /** The identifier step leaves every other column as it was. */
  lemma AddIdentifierOther(t: Frame, n: string)
    requires WellFormed(t) && n != IdentifierColumn && HasColumn(t, n)
    ensures HasColumn(AddIdentifier(t), n) && Get(AddIdentifier(t), n) == Get(t, n)
  {
    if HasColumn(t, MnemonicColumn) && HasColumn(t, ItemCodeColumn) {
      SetOther(t, IdentifierColumn, IdentifierCells(t), n);
    }
  }

  /** A date column of the cleaned frame holds the parsed cells. */
  lemma CleanedDateColumn(raw: Frame, parse: string -> Option<Date>, n: string)
    requires WellFormed(raw) && n in DateColumns && HasColumn(CleanHeaders(raw), n)
    ensures HasColumn(Cleaned(raw, parse), n)
    ensures Get(Cleaned(raw, parse), n) == MapCells(Get(CleanHeaders(raw), n), ToDate(parse))
  {
    var h, d, t := CleanHeaders(raw), Dated(raw, parse), Texted(raw, parse);
    ColumnListsApart(n);
    assert HasColumn(d, n) && HasColumn(t, n);
    MapColumnsAt(h, DateColumns, ToDate(parse), n);
    MapColumnsOther(d, TextColumns, ToCleanText, n);
    AddIdentifierOther(t, n);
  }

  /** A text column of the cleaned frame holds the cleaned text. */
  lemma CleanedTextColumn(raw: Frame, parse: string -> Option<Date>, n: string)
    requires WellFormed(raw) && n in TextColumns && HasColumn(CleanHeaders(raw), n)
    ensures HasColumn(Cleaned(raw, parse), n)
    ensures Get(Cleaned(raw, parse), n) == MapCells(Get(CleanHeaders(raw), n), ToCleanText)
  {
    var h, d, t := CleanHeaders(raw), Dated(raw, parse), Texted(raw, parse);
    ColumnListsApart(n);
    assert n !in DateColumns;
    assert HasColumn(d, n) && HasColumn(t, n);
    MapColumnsOther(h, DateColumns, ToDate(parse), n);
    MapColumnsAt(d, TextColumns, ToCleanText, n);
    AddIdentifierOther(t, n);
  }

  /** Any other column of the cleaned frame is the header-cleaned input's. */
  lemma CleanedOtherColumn(raw: Frame, parse: string -> Option<Date>, n: string)
    requires WellFormed(raw) && HasColumn(CleanHeaders(raw), n)
    requires n !in DateColumns && n !in TextColumns && n != IdentifierColumn
    ensures HasColumn(Cleaned(raw, parse), n)
    ensures Get(Cleaned(raw, parse), n) == Get(CleanHeaders(raw), n)
  {
    var h, d, t := CleanHeaders(raw), Dated(raw, parse), Texted(raw, parse);
    assert HasColumn(d, n) && HasColumn(t, n);
    MapColumnsOther(h, DateColumns, ToDate(parse), n);
    MapColumnsOther(d, TextColumns, ToCleanText, n);
    AddIdentifierOther(t, n);
  }

  /** With both code columns present, the identifier column concatenates
      their texts row by row. */
  lemma CleanedIdentifier(raw: Frame, parse: string -> Option<Date>)
    requires WellFormed(raw)
    requires HasColumn(CleanHeaders(raw), MnemonicColumn) && HasColumn(CleanHeaders(raw), ItemCodeColumn)
    ensures HasColumn(Cleaned(raw, parse), IdentifierColumn)
    ensures forall i :: 0 <= i < raw.height ==>
              Get(Cleaned(raw, parse), IdentifierColumn)[i] ==
                Str(MdrmIdentifier(AsText(Get(CleanHeaders(raw), MnemonicColumn)[i]),
                                   AsText(Get(CleanHeaders(raw), ItemCodeColumn)[i])))
  {
    var h, d, t := CleanHeaders(raw), Dated(raw, parse), Texted(raw, parse);
    ColumnListsApart(MnemonicColumn);
    assert HasColumn(t, MnemonicColumn) && HasColumn(t, ItemCodeColumn);
    MapColumnsOther(h, DateColumns, ToDate(parse), MnemonicColumn);
    MapColumnsOther(d, TextColumns, ToCleanText, MnemonicColumn);
    MapColumnsOther(h, DateColumns, ToDate(parse), ItemCodeColumn);
    MapColumnsOther(d, TextColumns, ToCleanText, ItemCodeColumn);
    assert Cleaned(raw, parse) == Set(t, IdentifierColumn, IdentifierCells(t));
  }

  /** One of the two cleanup loops of `clean_csv_data`: every listed column
      that is present has `f` applied to each of its cells. */
  method ConvertColumns(df: Frame, cols: seq<string>, f: CellStep) returns (r: Frame)
    requires WellFormed(df)
    ensures r == MapColumns(df, cols, f)
    ensures WellFormed(r) && r.height == df.height && Names(r) == Names(df)
  {
    r := df;
    for k := 0 to |cols|
      invariant WellFormed(r) && r == MapColumns(df, cols[..k], f)
    {
      var col := cols[k];
      if HasColumn(r, col) {
        r := Set(r, col, MapCells(Get(r, col), f));
      }
      assert cols[..k + 1][..k] == cols[..k];
    }
    assert cols[..|cols|] == cols;
  }

  /** `clean_csv_data`: the frame it returns has the rows of the input and
      cleaned header names; each date column that is present holds the parsed
      dates, each text column that is present the cleaned text, every other
      column is unchanged, and `MDRM_Identifier` is there exactly when both
      code columns are (or the input already had it), holding their
      concatenation. */
  method CleanCsvData(raw: Frame, parse: string -> Option<Date>) returns (df: Frame)
    requires WellFormed(raw)
    ensures df == Cleaned(raw, parse)
    ensures WellFormed(df) && df.height == raw.height
    ensures forall n :: n != IdentifierColumn ==> (HasColumn(df, n) <==> HasColumn(CleanHeaders(raw), n))
    ensures HasColumn(df, IdentifierColumn) <==>
              || HasColumn(CleanHeaders(raw), IdentifierColumn)
              || (HasColumn(CleanHeaders(raw), MnemonicColumn) && HasColumn(CleanHeaders(raw), ItemCodeColumn))
    ensures forall n :: n in DateColumns && HasColumn(CleanHeaders(raw), n) ==>
              HasColumn(df, n) && Get(df, n) == MapCells(Get(CleanHeaders(raw), n), ToDate(parse))
    ensures forall n :: n in TextColumns && HasColumn(CleanHeaders(raw), n) ==>
              HasColumn(df, n) && Get(df, n) == MapCells(Get(CleanHeaders(raw), n), ToCleanText)
    ensures forall n :: n !in DateColumns && n !in TextColumns && n != IdentifierColumn && HasColumn(CleanHeaders(raw), n) ==>
              HasColumn(df, n) && Get(df, n) == Get(CleanHeaders(raw), n)
    ensures HasColumn(CleanHeaders(raw), MnemonicColumn) && HasColumn(CleanHeaders(raw), ItemCodeColumn) ==>
              HasColumn(df, IdentifierColumn) &&
              forall i :: 0 <= i < df.height ==>
                Get(df, IdentifierColumn)[i] ==
                  Str(MdrmIdentifier(AsText(Get(CleanHeaders(raw), MnemonicColumn)[i]),
                                     AsText(Get(CleanHeaders(raw), ItemCodeColumn)[i])))
  {
    df := CleanHeaders(raw);
    df := ConvertColumns(df, DateColumns, ToDate(parse));
    df := ConvertColumns(df, TextColumns, ToCleanText);
    if HasColumn(df, MnemonicColumn) && HasColumn(df, ItemCodeColumn) {
      df := Set(df, IdentifierColumn, IdentifierCells(df));
    }
    CleanedFacts(raw, parse);
  }

  /** The facts `CleanCsvData` promises, gathered over all column names. */
  lemma CleanedFacts(raw: Frame, parse: string -> Option<Date>)
    requires WellFormed(raw)
    ensures var df, h := Cleaned(raw, parse), CleanHeaders(raw);
            && (forall n :: n != IdentifierColumn ==> (HasColumn(df, n) <==> HasColumn(h, n)))
            && (HasColumn(df, IdentifierColumn) <==>
                  || HasColumn(h, IdentifierColumn)
                  || (HasColumn(h, MnemonicColumn) && HasColumn(h, ItemCodeColumn)))
    ensures var df, h := Cleaned(raw, parse), CleanHeaders(raw);
            forall n :: n in DateColumns && HasColumn(h, n) ==>
              HasColumn(df, n) && Get(df, n) == MapCells(Get(h, n), ToDate(parse))
    ensures var df, h := Cleaned(raw, parse), CleanHeaders(raw);
            forall n :: n in TextColumns && HasColumn(h, n) ==>
              HasColumn(df, n) && Get(df, n) == MapCells(Get(h, n), ToCleanText)
    ensures var df, h := Cleaned(raw, parse), CleanHeaders(raw);
            forall n :: n !in DateColumns && n !in TextColumns && n != IdentifierColumn && HasColumn(h, n) ==>
              HasColumn(df, n) && Get(df, n) == Get(h, n)
    ensures var df, h := Cleaned(raw, parse), CleanHeaders(raw);
            HasColumn(h, MnemonicColumn) && HasColumn(h, ItemCodeColumn) ==>
              HasColumn(df, IdentifierColumn) &&
              forall i :: 0 <= i < df.height ==>
                Get(df, IdentifierColumn)[i] ==
                  Str(MdrmIdentifier(AsText(Get(h, MnemonicColumn)[i]), AsText(Get(h, ItemCodeColumn)[i])))
  {
    var df, h := Cleaned(raw, parse), CleanHeaders(raw);
    forall n ensures n != IdentifierColumn ==> (HasColumn(df, n) <==> HasColumn(h, n)) {
      CleanedHasColumn(raw, parse, n);
    }
    CleanedHasColumn(raw, parse, IdentifierColumn);
    forall n | n in DateColumns && HasColumn(h, n)
      ensures HasColumn(df, n) && Get(df, n) == MapCells(Get(h, n), ToDate(parse))
    {
      CleanedDateColumn(raw, parse, n);
    }
    forall n | n in TextColumns && HasColumn(h, n)
      ensures HasColumn(df, n) && Get(df, n) == MapCells(Get(h, n), ToCleanText)
    {
      CleanedTextColumn(raw, parse, n);
    }
    forall n | n !in DateColumns && n !in TextColumns && n != IdentifierColumn && HasColumn(h, n)
      ensures HasColumn(df, n) && Get(df, n) == Get(h, n)
    {
      CleanedOtherColumn(raw, parse, n);
    }
    if HasColumn(h, MnemonicColumn) && HasColumn(h, ItemCodeColumn) {
      CleanedIdentifier(raw, parse);
    }
  }
}
