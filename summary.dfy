/** The `mdrm_summary` table: fixed statistics over `mdrm_data`, then one
    row per distinct non-empty item type, each stored as a name and the
    decimal text of a count under a PRIMARY KEY on the name. */
module Summary {
  import opened Wrappers
  import opened Text
  import opened Seqs
  import opened Catalog

  /** One row of `mdrm_summary`; `created_at` is not modelled. */
  datatype StatRow = StatRow(name: string, value: string)

  // ---------------------------------------------------------------------
  // Column projections and WHERE clauses

  function Mnemonics(t: seq<Record>): seq<Option<string>>
  {
    seq(|t|, i requires 0 <= i < |t| => t[i].mnemonic)
  }

  function ItemCodes(t: seq<Record>): seq<Option<string>>
  {
    seq(|t|, i requires 0 <= i < |t| => t[i].itemCode)
  }

  function ReportingForms(t: seq<Record>): seq<Option<string>>
  {
    seq(|t|, i requires 0 <= i < |t| => t[i].reportingForm)
  }

  function ItemTypeColumn(t: seq<Record>): seq<Option<string>>
  {
    seq(|t|, i requires 0 <= i < |t| => t[i].itemType)
  }

  /** The non-NULL values of a column, in row order (what an aggregate sees). */
  function Present(c: seq<Option<string>>): (r: seq<string>)
    ensures |r| <= |c|
  {
    if c == [] then []
    else
      var p := Present(c[..|c| - 1]);
      assert c == c[..|c| - 1] + [c[|c| - 1]];
      if c[|c| - 1].Some? then p + [c[|c| - 1].value] else p
  }

  /** The values of a column that are neither NULL nor the empty text
      (`x IS NOT NULL AND x != ''`), in row order. */
  function NonEmpty(c: seq<Option<string>>): (r: seq<string>)
    ensures |r| <= |c|
  {
    if c == [] then []
    else
      var p := NonEmpty(c[..|c| - 1]);
      assert c == c[..|c| - 1] + [c[|c| - 1]];
      if c[|c| - 1].Some? && c[|c| - 1].value != "" then p + [c[|c| - 1].value] else p
  }

  /** `Present` keeps exactly the non-NULL values. */
  lemma {:induction false} PresentValues(c: seq<Option<string>>, x: string)
    ensures x in Present(c) <==> Some(x) in c
  {
    if c != [] {
      var p := c[..|c| - 1];
      assert c == p + [c[|c| - 1]];
      PresentValues(p, x);
    }
  }

  /** `NonEmpty` keeps exactly the non-NULL, non-empty values. */
  lemma {:induction false} NonEmptyValues(c: seq<Option<string>>, x: string)
    ensures x in NonEmpty(c) <==> x != "" && Some(x) in c
  {
    if c != [] {
      var p := c[..|c| - 1];
      assert c == p + [c[|c| - 1]];
      NonEmptyValues(p, x);
    }
  }

  /** The WHERE clauses of the counting statistics. A comparison with NULL is
      never true, so a row with a NULL operand satisfies none of them. */
  datatype Where =
    | ConfidentialityIs(flag: string)    // confidentiality = 'flag'
    | ConfidentialityOther               // neither 'Y' nor 'N', or NULL
    | EndDateAfter(day: Date)            // end_date > day
    | EndDateAtMost(day: Date)           // end_date <= day
    | EndDateNull                        // end_date IS NULL
    | EndDateFrom(day: Date)             // end_date >= day
    | EndDateBefore(day: Date)           // end_date < day
    | EndDateOn(day: Date)               // end_date = day
    | ItemTypeIs(code: string)           // item_type = 'code'
    | HasItemType                        // item_type IS NOT NULL AND item_type != ''

  predicate Holds(w: Where, r: Record)
  {
    match w
    case ConfidentialityIs(flag) => r.confidentiality == Some(flag)
    case ConfidentialityOther => r.confidentiality != Some("Y") && r.confidentiality != Some("N")
    case EndDateAfter(day) => r.endDate.Some? && r.endDate.value > day
    case EndDateAtMost(day) => r.endDate.Some? && r.endDate.value <= day
    case EndDateNull => r.endDate.None?
    case EndDateFrom(day) => r.endDate.Some? && r.endDate.value >= day
    case EndDateBefore(day) => r.endDate.Some? && r.endDate.value < day
    case EndDateOn(day) => r.endDate == Some(day)
    case ItemTypeIs(code) => r.itemType == Some(code)
    case HasItemType => r.itemType.Some? && r.itemType.value != ""
  }

  /** `SELECT COUNT(*) FROM mdrm_data WHERE w` */
  function CountWhere(t: seq<Record>, w: Where): (n: nat)
    ensures n <= |t|
    ensures n > 0 <==> exists i :: 0 <= i < |t| && Holds(w, t[i])
  {
    if t == [] then 0
    else
      var p := t[..|t| - 1];
      assert t == p + [t[|t| - 1]];
      assert forall i :: 0 <= i < |p| ==> p[i] == t[i];
      CountWhere(p, w) + (if Holds(w, t[|t| - 1]) then 1 else 0)
  }

  /** When every row satisfies exactly one of three clauses, their counts
      add up to the number of rows. */
  lemma {:induction false} CountWherePartition(t: seq<Record>, a: Where, b: Where, c: Where)
    requires forall i :: 0 <= i < |t| ==>
      (if Holds(a, t[i]) then 1 else 0) + (if Holds(b, t[i]) then 1 else 0) + (if Holds(c, t[i]) then 1 else 0) == 1
    ensures CountWhere(t, a) + CountWhere(t, b) + CountWhere(t, c) == |t|
  {
    if t != [] {
      var p := t[..|t| - 1];
      assert forall i :: 0 <= i < |p| ==> p[i] == t[i];
      CountWherePartition(p, a, b, c);
    }
  }

  /** A clause that holds exactly when one of two exclusive clauses holds
      counts the rows of both. */
  lemma {:induction false} CountWhereSplit(t: seq<Record>, a: Where, b: Where, c: Where)
    requires forall i :: 0 <= i < |t| ==>
      (Holds(a, t[i]) <==> Holds(b, t[i]) || Holds(c, t[i])) && !(Holds(b, t[i]) && Holds(c, t[i]))
    ensures CountWhere(t, a) == CountWhere(t, b) + CountWhere(t, c)
  {
    if t != [] {
      var p := t[..|t| - 1];
      assert forall i :: 0 <= i < |p| ==> p[i] == t[i];
      CountWhereSplit(p, a, b, c);
    }
  }

  // ---------------------------------------------------------------------
  // The statistics

  /** The eight fixed statistics, in the order the loader computes them. */
  datatype Stat =
    | TotalRecords | UniqueMnemonics | UniqueItemCodes | UniqueReportingForms
    | ConfidentialItems | PublicItems | ActiveItems | ExpiredItems

  const FixedStats: seq<Stat> := [
    TotalRecords, UniqueMnemonics, UniqueItemCodes, UniqueReportingForms,
    ConfidentialItems, PublicItems, ActiveItems, ExpiredItems]

  /** The `statistic_name` of a fixed statistic. None starts with the
      item-type prefix's first letter. */
  function StatName(s: Stat): (name: string)
    ensures name != [] && name[0] != 'i'
  {
    match s
    case TotalRecords => "total_records"
    case UniqueMnemonics => "unique_mnemonics"
    case UniqueItemCodes => "unique_item_codes"
    case UniqueReportingForms => "unique_reporting_forms"
    case ConfidentialItems => "confidential_items"
    case PublicItems => "public_items"
    case ActiveItems => "active_items"
    case ExpiredItems => "expired_items"
  }

  /** The value of a fixed statistic's query. `date('now')` is the parameter
      `today`: the clock is not modelled. `COUNT(DISTINCT x)` counts the
      distinct non-NULL values of `x`. */
  function StatCount(s: Stat, t: seq<Record>, today: Date): nat
  {
    match s
    case TotalRecords => |t|
    case UniqueMnemonics => |Elements(Present(Mnemonics(t)))|
    case UniqueItemCodes => |Elements(Present(ItemCodes(t)))|
    case UniqueReportingForms => |Elements(NonEmpty(ReportingForms(t)))|
    case ConfidentialItems => CountWhere(t, ConfidentialityIs("Y"))
    case PublicItems => CountWhere(t, ConfidentialityIs("N"))
    case ActiveItems => CountWhere(t, EndDateAfter(today))
    case ExpiredItems => CountWhere(t, EndDateAtMost(today))
  }

  /** Each counting statistic is the `COUNT(*)` of its WHERE clause. */
  lemma CountingStat(s: Stat, t: seq<Record>, today: Date)
    ensures s == ConfidentialItems ==> StatCount(s, t, today) == CountWhere(t, ConfidentialityIs("Y"))
    ensures s == PublicItems ==> StatCount(s, t, today) == CountWhere(t, ConfidentialityIs("N"))
    ensures s == ActiveItems ==> StatCount(s, t, today) == CountWhere(t, EndDateAfter(today))
    ensures s == ExpiredItems ==> StatCount(s, t, today) == CountWhere(t, EndDateAtMost(today))
  {
  }

  /** The item types the GROUP BY sees, one per qualifying row, in row order. */
  function ItemTypes(t: seq<Record>): seq<string>
  {
    NonEmpty(ItemTypeColumn(t))
  }

  /** `SELECT item_type, COUNT(*) ... GROUP BY item_type`: one group per
      distinct non-empty type. The engine's group order is not specified; the
      model lists groups in order of first appearance. */
  function ItemTypeGroups(t: seq<Record>): (g: seq<(string, nat)>)
    ensures |g| == |Dedup(ItemTypes(t))|
    ensures forall i :: 0 <= i < |g| ==> g[i].0 == Dedup(ItemTypes(t))[i] && g[i].1 == Count(ItemTypes(t), g[i].0)
  {
    var keys := Dedup(ItemTypes(t));
    seq(|keys|, i requires 0 <= i < |keys| => (keys[i], Count(ItemTypes(t), keys[i])))
  }

  const ItemTypePrefix := "item_type_"

  /** The rows inserted for fixed statistics: each name with its count as
      decimal text (`str(result)`). */
  function FixedRows(stats: seq<Stat>, t: seq<Record>, today: Date): (rows: seq<StatRow>)
    ensures |rows| == |stats|
    ensures forall i :: 0 <= i < |stats| ==>
      rows[i] == StatRow(StatName(stats[i]), NatToString(StatCount(stats[i], t, today)))
  {
    seq(|stats|, i requires 0 <= i < |stats| => StatRow(StatName(stats[i]), NatToString(StatCount(stats[i], t, today))))
  }

  /** The rows inserted for item-type groups: `item_type_<code>` with the
      group's count as decimal text. */
  function ItemTypeRows(groups: seq<(string, nat)>): (rows: seq<StatRow>)
    ensures |rows| == |groups|
    ensures forall i :: 0 <= i < |groups| ==>
      rows[i] == StatRow(ItemTypePrefix + groups[i].0, NatToString(groups[i].1))
  {
    seq(|groups|, i requires 0 <= i < |groups| => StatRow(ItemTypePrefix + groups[i].0, NatToString(groups[i].1)))
  }

  /** The contents of `mdrm_summary` after a load. */
  function SummaryRows(t: seq<Record>, today: Date): (rows: seq<StatRow>)
    ensures |rows| == |FixedStats| + |Dedup(ItemTypes(t))|
  {
    FixedRows(FixedStats, t, today) + ItemTypeRows(ItemTypeGroups(t))
  }

  predicate HasStat(table: seq<StatRow>, name: string)
  {
    exists i :: 0 <= i < |table| && table[i].name == name
  }

  predicate NamesDistinct(table: seq<StatRow>)
  {
    forall i, j :: 0 <= i < j < |table| ==> table[i].name != table[j].name
  }

  /** `INSERT INTO mdrm_summary (statistic_name, statistic_value)`: fails on
      a name already present, as the PRIMARY KEY demands. */
  function InsertStat(table: seq<StatRow>, name: string, value: string): (r: Result<seq<StatRow>, string>)
    ensures r.Success? <==> !HasStat(table, name)
    ensures r.Success? ==> r.value == table + [StatRow(name, value)] && |r.value| == |table| + 1
  {
    if HasStat(table, name) then Failure("UNIQUE constraint failed: mdrm_summary.statistic_name")
    else Success(table + [StatRow(name, value)])
  }

  /** `SELECT statistic_value FROM mdrm_summary WHERE statistic_name = name` */
  function Lookup(table: seq<StatRow>, name: string): (r: Option<string>)
    ensures r.None? <==> !HasStat(table, name)
    ensures r.Some? ==> exists i :: 0 <= i < |table| && table[i] == StatRow(name, r.value)
  {
    if table == [] then None
    else if table[0].name == name then Some(table[0].value)
    else
      var r := Lookup(table[1..], name);
      assert forall i :: 0 <= i < |table[1..]| ==> table[1..][i] == table[i + 1];
      r
  }

  /** A successful insert reads back: the new name finds its value, and
      every other name finds what it found before. */
  lemma InsertThenLookup(table: seq<StatRow>, name: string, value: string, other: string)
    requires InsertStat(table, name, value).Success?
    ensures Lookup(InsertStat(table, name, value).value, name) == Some(value)
    ensures other != name ==> Lookup(InsertStat(table, name, value).value, other) == Lookup(table, other)
  {
    LookupSnoc(table, StatRow(name, value), name);
    LookupSnoc(table, StatRow(name, value), other);
  }

  /** Appending a row changes a lookup only when nothing matched before. */
  lemma {:induction false} LookupSnoc(table: seq<StatRow>, row: StatRow, n: string)
    ensures Lookup(table + [row], n) ==
      if HasStat(table, n) then Lookup(table, n) else if row.name == n then Some(row.value) else None
  {
    if table != [] {
      assert (table + [row])[1..] == table[1..] + [row];
      LookupSnoc(table[1..], row, n);
      assert HasStat(table[1..], n) ==> HasStat(table, n) by {
        if HasStat(table[1..], n) {
          var k :| 0 <= k < |table[1..]| && table[1..][k].name == n;
          assert table[k + 1].name == n;
        }
      }
      if HasStat(table, n) && table[0].name != n {
        var k :| 0 <= k < |table| && table[k].name == n;
        assert table[1..][k - 1].name == n;
      }
    }
  }

  // ---------------------------------------------------------------------
  // Building the table

  lemma StatNameInjective(a: Stat, b: Stat)
    requires StatName(a) == StatName(b)
    ensures a == b
  {
  }

  /** Different codes give different prefixed names. */
  lemma PrefixKeepsApart(p: string, a: string, b: string)
    requires a != b
    ensures p + a != p + b
  {
    assert a == (p + a)[|p|..];
    assert b == (p + b)[|p|..];
  }

  /** No fixed name has the item-type prefix. */
  lemma FixedNameNotItemType(s: Stat, code: string)
    ensures StatName(s) != ItemTypePrefix + code
  {
    assert (ItemTypePrefix + code)[0] == 'i';
  }

  /** `create_summary_stats`: runs each fixed statistic's query and inserts
      its result, then inserts one row per item-type group. Every insert
      succeeds: each name is new to the rows inserted before it. */
  method CreateSummaryStats(t: seq<Record>, today: Date) returns (table: seq<StatRow>)
    ensures table == SummaryRows(t, today)
    ensures NamesDistinct(table)
  {
    ghost var fixedRows := FixedRows(FixedStats, t, today);
    ghost var rows := fixedRows + ItemTypeRows(ItemTypeGroups(t));
    SummaryNamesDistinct(t, today);
    assert rows == SummaryRows(t, today);
    table := [];
    var statsQueries := FixedStats;
    for k := 0 to |statsQueries|
      invariant table == rows[..k]
    {
      var stat := statsQueries[k];
      var result := StatCount(stat, t, today);
      assert rows[k] == fixedRows[k] == StatRow(StatName(stat), NatToString(result));
      InsertNext(rows, k);
      var inserted := InsertStat(table, StatName(stat), NatToString(result));
      table := inserted.value;
    }
    var itemTypes := ItemTypeGroups(t);
    for k := 0 to |itemTypes|
      invariant table == rows[..8 + k]
    {
      var (itemType, count) := itemTypes[k];
      assert rows[8 + k] == StatRow(ItemTypePrefix + itemType, NatToString(count));
      InsertNext(rows, 8 + k);
      var inserted := InsertStat(table, ItemTypePrefix + itemType, NatToString(count));
      table := inserted.value;
    }
    assert rows[..|rows|] == rows;
  }

  /** In a table with distinct names, no row's name occurs before it. */
  lemma FreshName(rows: seq<StatRow>, n: nat)
    requires NamesDistinct(rows) && n < |rows|
    ensures !HasStat(rows[..n], rows[n].name)
  {
  }

  /** With distinct names, inserting a table's next row after the rows
      before it succeeds and gives the next prefix. */
  lemma InsertNext(rows: seq<StatRow>, k: nat)
    requires NamesDistinct(rows) && k < |rows|
    ensures InsertStat(rows[..k], rows[k].name, rows[k].value) == Success(rows[..k + 1])
  {
    FreshName(rows, k);
    assert rows[..k] + [rows[k]] == rows[..k + 1];
  }

  // ---------------------------------------------------------------------
  // What the table says

  lemma LookupDistinct(table: seq<StatRow>, i: nat)
    requires NamesDistinct(table) && i < |table|
    ensures Lookup(table, table[i].name) == Some(table[i].value)
  {
    var r := Lookup(table, table[i].name);
    var j :| 0 <= j < |table| && table[j] == StatRow(table[i].name, r.value);
  }

  /** The summary's names are distinct, so every statistic can be looked
      up by name; there are eight fixed rows and one per distinct item type. */
  lemma SummaryNamesDistinct(t: seq<Record>, today: Date)
    ensures NamesDistinct(SummaryRows(t, today))
    ensures |SummaryRows(t, today)| == 8 + |Dedup(ItemTypes(t))|
  {
    var rows := SummaryRows(t, today);
    var groups := ItemTypeGroups(t);
    var keys := Dedup(ItemTypes(t));
    forall i, j | 0 <= i < j < |rows| ensures rows[i].name != rows[j].name {
      if j < 8 {
        if rows[i].name == rows[j].name {
          StatNameInjective(FixedStats[i], FixedStats[j]);
        }
      } else if i < 8 {
        FixedNameNotItemType(FixedStats[i], groups[j - 8].0);
      } else {
        assert keys[i - 8] != keys[j - 8];
        PrefixKeepsApart(ItemTypePrefix, groups[i - 8].0, groups[j - 8].0);
      }
    }
  }

  /** Each fixed statistic reads back as the decimal text of its count. */
  lemma FixedStatLookup(t: seq<Record>, today: Date, s: Stat)
    ensures Lookup(SummaryRows(t, today), StatName(s)) == Some(NatToString(StatCount(s, t, today)))
  {
    SummaryNamesDistinct(t, today);
    var i := FixedIndex(s);
    LookupDistinct(SummaryRows(t, today), i);
  }

  /** Every fixed statistic has its place in the list. */
  lemma FixedIndex(s: Stat) returns (i: nat)
    ensures i < |FixedStats| && FixedStats[i] == s
  {
    i := match s
      case TotalRecords => 0
      case UniqueMnemonics => 1
      case UniqueItemCodes => 2
      case UniqueReportingForms => 3
      case ConfidentialItems => 4
      case PublicItems => 5
      case ActiveItems => 6
      case ExpiredItems => 7;
  }

  /** The item-type groups are exactly the non-empty types some row has,
      each once, with the number of rows of that type. */
  lemma ItemTypeGroupsExact(t: seq<Record>)
    ensures var g := ItemTypeGroups(t);
      forall i :: 0 <= i < |g| ==> g[i].0 != "" && g[i].1 == CountWhere(t, ItemTypeIs(g[i].0)) > 0
    ensures var g := ItemTypeGroups(t);
      forall code :: code != "" && CountWhere(t, ItemTypeIs(code)) > 0 ==>
        exists i :: 0 <= i < |g| && g[i] == (code, CountWhere(t, ItemTypeIs(code)))
    ensures var g := ItemTypeGroups(t);
      forall i, j :: 0 <= i < j < |g| ==> g[i].0 != g[j].0
  {
    var g := ItemTypeGroups(t);
    var keys := Dedup(ItemTypes(t));
    forall i | 0 <= i < |g| ensures g[i].0 != "" && g[i].1 == CountWhere(t, ItemTypeIs(g[i].0)) > 0 {
      NonEmptyValues(ItemTypeColumn(t), keys[i]);
      ItemTypeCount(t, keys[i]);
    }
    forall code | code != "" && CountWhere(t, ItemTypeIs(code)) > 0
      ensures exists i :: 0 <= i < |g| && g[i] == (code, CountWhere(t, ItemTypeIs(code)))
    {
      ItemTypeCount(t, code);
      var k :| 0 <= k < |ItemTypes(t)| && ItemTypes(t)[k] == code;
      var i :| 0 <= i < |keys| && keys[i] == code;
      assert g[i] == (code, CountWhere(t, ItemTypeIs(code)));
    }
  }

  /** Rows whose item type is exactly `code`, for a non-empty `code`, are
      the occurrences of `code` among the grouped item types. */
  lemma {:induction false} ItemTypeCount(t: seq<Record>, code: string)
    requires code != ""
    ensures Count(ItemTypes(t), code) == CountWhere(t, ItemTypeIs(code))
  {
    if t != [] {
      var p := t[..|t| - 1];
      var c := ItemTypeColumn(t);
      assert c[..|c| - 1] == ItemTypeColumn(p);
      ItemTypeCount(p, code);
      var r := t[|t| - 1];
      if r.itemType.Some? && r.itemType.value != "" {
        CountSnoc(ItemTypes(p), r.itemType.value, code);
      }
    }
  }

  /** The item-type rows: `item_type_<code>` is present exactly for the
      non-empty codes some row carries, and holds the number of rows with
      that code. */
  lemma ItemTypeLookup(t: seq<Record>, today: Date, code: string)
    ensures Lookup(SummaryRows(t, today), ItemTypePrefix + code) ==
      if code != "" && CountWhere(t, ItemTypeIs(code)) > 0
      then Some(NatToString(CountWhere(t, ItemTypeIs(code)))) else None
  {
    if code != "" && CountWhere(t, ItemTypeIs(code)) > 0 {
      ItemTypePresent(t, today, code);
    } else {
      ItemTypeAbsent(t, today, code);
    }
  }

  lemma ItemTypePresent(t: seq<Record>, today: Date, code: string)
    requires code != "" && CountWhere(t, ItemTypeIs(code)) > 0
    ensures Lookup(SummaryRows(t, today), ItemTypePrefix + code) == Some(NatToString(CountWhere(t, ItemTypeIs(code))))
  {
    var rows := SummaryRows(t, today);
    var keys := Dedup(ItemTypes(t));
    SummaryNamesDistinct(t, today);
    ItemTypeCount(t, code);
    assert code in ItemTypes(t);
    var g :| 0 <= g < |keys| && keys[g] == code;
    assert rows[8 + g] == StatRow(ItemTypePrefix + code, NatToString(Count(ItemTypes(t), code)));
    LookupDistinct(rows, 8 + g);
  }

  lemma ItemTypeAbsent(t: seq<Record>, today: Date, code: string)
    requires code == "" || CountWhere(t, ItemTypeIs(code)) == 0
    ensures !HasStat(SummaryRows(t, today), ItemTypePrefix + code)
  {
    var rows := SummaryRows(t, today);
    var groups := ItemTypeGroups(t);
    var keys := Dedup(ItemTypes(t));
    forall i | 0 <= i < |rows| ensures rows[i].name != ItemTypePrefix + code {
      if i < 8 {
        FixedNameNotItemType(FixedStats[i], code);
      } else {
        var g := i - 8;
        assert keys[g] in ItemTypes(t);
        NonEmptyValues(ItemTypeColumn(t), keys[g]);
        ItemTypeCount(t, keys[g]);
        assert keys[g] != code;
        PrefixKeepsApart(ItemTypePrefix, groups[g].0, code);
      }
    }
  }

  /** Summing a group list's counts. */
  function SumGroups(g: seq<(string, nat)>): nat
  {
    if g == [] then 0 else SumGroups(g[..|g| - 1]) + g[|g| - 1].1
  }

  lemma {:induction false} SumGroupsIsSumCounts(keys: seq<string>, s: seq<string>, g: seq<(string, nat)>)
    requires |g| == |keys|
    requires forall i :: 0 <= i < |g| ==> g[i] == (keys[i], Count(s, keys[i]))
    ensures SumGroups(g) == SumCounts(keys, s)
  {
    if g != [] {
      SumGroupsIsSumCounts(keys[..|keys| - 1], s, g[..|g| - 1]);
    }
  }

  lemma {:induction false} ItemTypesLength(t: seq<Record>)
    ensures |ItemTypes(t)| == CountWhere(t, HasItemType)
  {
    if t != [] {
      var p := t[..|t| - 1];
      var c := ItemTypeColumn(t);
      assert c[..|c| - 1] == ItemTypeColumn(p);
      ItemTypesLength(p);
    }
  }

  /** The item-type counts add up to the number of rows with a non-empty
      item type: every such row lands in exactly one group. */
  lemma ItemTypeGroupsSum(t: seq<Record>)
    ensures SumGroups(ItemTypeGroups(t)) == CountWhere(t, HasItemType)
  {
    var s := ItemTypes(t);
    SumGroupsIsSumCounts(Dedup(s), s, ItemTypeGroups(t));
    DedupCountsSum(s);
    ItemTypesLength(t);
  }

  /** A `COUNT(DISTINCT ...)` never exceeds the row count. */
  lemma UniqueCountsBounded(t: seq<Record>, today: Date)
    ensures StatCount(UniqueMnemonics, t, today) <= StatCount(TotalRecords, t, today)
    ensures StatCount(UniqueItemCodes, t, today) <= StatCount(TotalRecords, t, today)
    ensures StatCount(UniqueReportingForms, t, today) <= StatCount(TotalRecords, t, today)
  {
    ElementsBound(Present(Mnemonics(t)));
    ElementsBound(Present(ItemCodes(t)));
    ElementsBound(NonEmpty(ReportingForms(t)));
  }

  /** Confidential and public items, and those with any other flag or none,
      account for every row. */
  lemma ConfidentialityPartition(t: seq<Record>, today: Date)
    ensures StatCount(ConfidentialItems, t, today) + StatCount(PublicItems, t, today)
      + CountWhere(t, ConfidentialityOther) == |t|
  {
    ConfidentialityExactlyOne(t);
    CountWherePartition(t, ConfidentialityIs("Y"), ConfidentialityIs("N"), ConfidentialityOther);
    CountingStat(ConfidentialItems, t, today);
    CountingStat(PublicItems, t, today);
  }

  lemma ConfidentialityExactlyOne(t: seq<Record>)
    ensures forall i :: 0 <= i < |t| ==>
      (if Holds(ConfidentialityIs("Y"), t[i]) then 1 else 0) + (if Holds(ConfidentialityIs("N"), t[i]) then 1 else 0)
        + (if Holds(ConfidentialityOther, t[i]) then 1 else 0) == 1
  {
    assert "Y" != "N";
  }

  /** Active and expired items are the rows with an end date; a row without
      one counts in neither. */
  lemma ActiveExpiredPartition(t: seq<Record>, today: Date)
    ensures StatCount(ActiveItems, t, today) + StatCount(ExpiredItems, t, today)
      + CountWhere(t, EndDateNull) == |t|
  {
    EndDateExactlyOne(t, today);
    CountWherePartition(t, EndDateAfter(today), EndDateAtMost(today), EndDateNull);
    CountingStat(ActiveItems, t, today);
    CountingStat(ExpiredItems, t, today);
  }

  lemma EndDateExactlyOne(t: seq<Record>, today: Date)
    ensures forall i :: 0 <= i < |t| ==>
      (if Holds(EndDateAfter(today), t[i]) then 1 else 0) + (if Holds(EndDateAtMost(today), t[i]) then 1 else 0)
        + (if Holds(EndDateNull, t[i]) then 1 else 0) == 1
  {
  }

  lemma EndDateAsWrittenExactlyOne(t: seq<Record>, today: Date)
    ensures forall i :: 0 <= i < |t| ==>
      (if Holds(EndDateFrom(today), t[i]) then 1 else 0) + (if Holds(EndDateBefore(today), t[i]) then 1 else 0)
        + (if Holds(EndDateNull, t[i]) then 1 else 0) == 1
  {
  }

  /** An empty catalog yields the eight fixed statistics, each "0", and no
      item-type rows. */
  lemma EmptyCatalogSummary(today: Date)
    ensures |SummaryRows([], today)| == 8
    ensures forall i :: 0 <= i < 8 ==> SummaryRows([], today)[i].value == "0"
  {
    assert Mnemonics([]) == [] && ItemCodes([]) == [] && ReportingForms([]) == [];
    assert Elements<string>([]) == {};
    assert ItemTypeColumn([]) == [];
  }

  // ---------------------------------------------------------------------
  // The active/expired boundary as the SQL compares it

  /** The end date as stored is a timestamp text "YYYY-MM-DD 00:00:00" and
      `date('now')` a date text "YYYY-MM-DD"; on the same day the timestamp
      is the greater. */
  lemma StoredEndDateAfterSameDay(day: string)
    ensures !TextLeq(day + " 00:00:00", day)
  {
    LongerSortsAfter(day, " 00:00:00", day);
    TextLeqSelf(day);
  }

  /** The active and expired counts as the SQL computes them: a stored
      timestamp compared to a date text makes `end_date > date('now')` hold
      from the end date itself on, and `end_date <= date('now')` only before
      it. The other statistics are unaffected. */
  function StatCountAsWritten(s: Stat, t: seq<Record>, today: Date): nat
  {
    match s
    case ActiveItems => CountWhere(t, EndDateFrom(today))
    case ExpiredItems => CountWhere(t, EndDateBefore(today))
    case _ => StatCount(s, t, today)
  }

  /** `>=` is `>` or `=`, and `<=` is `<` or `=`, never both. */
  lemma EndDateOnSplits(t: seq<Record>, today: Date)
    ensures forall i :: 0 <= i < |t| ==>
      (Holds(EndDateFrom(today), t[i]) <==> Holds(EndDateAfter(today), t[i]) || Holds(EndDateOn(today), t[i]))
        && !(Holds(EndDateAfter(today), t[i]) && Holds(EndDateOn(today), t[i]))
    ensures forall i :: 0 <= i < |t| ==>
      (Holds(EndDateAtMost(today), t[i]) <==> Holds(EndDateBefore(today), t[i]) || Holds(EndDateOn(today), t[i]))
        && !(Holds(EndDateBefore(today), t[i]) && Holds(EndDateOn(today), t[i]))
  {
  }

  /** An item whose end date is today is active as written and expired as
      intended. */
  lemma ActiveOnEndDate(r: Record, today: Date)
    requires r.endDate == Some(today)
    ensures StatCountAsWritten(ActiveItems, [r], today) == 1 && StatCountAsWritten(ExpiredItems, [r], today) == 0
    ensures StatCount(ActiveItems, [r], today) == 0 && StatCount(ExpiredItems, [r], today) == 1
  {
    assert [r][..0] == [];
    CountingStat(ActiveItems, [r], today);
    CountingStat(ExpiredItems, [r], today);
  }

  /** The as-written counts still split the rows that have an end date. */
  lemma ActiveExpiredAsWrittenPartition(t: seq<Record>, today: Date)
    ensures StatCountAsWritten(ActiveItems, t, today) + StatCountAsWritten(ExpiredItems, t, today)
      + CountWhere(t, EndDateNull) == |t|
  {
    EndDateAsWrittenExactlyOne(t, today);
    CountWherePartition(t, EndDateFrom(today), EndDateBefore(today), EndDateNull);
  }

  /** The as-written counts move exactly the items ending today from
      expired to active. */
  lemma AsWrittenShift(t: seq<Record>, today: Date)
    ensures StatCountAsWritten(ActiveItems, t, today)
      == StatCount(ActiveItems, t, today) + CountWhere(t, EndDateOn(today))
    ensures StatCountAsWritten(ExpiredItems, t, today) + CountWhere(t, EndDateOn(today))
      == StatCount(ExpiredItems, t, today)
  {
    EndDateOnSplits(t, today);
    CountWhereSplit(t, EndDateFrom(today), EndDateAfter(today), EndDateOn(today));
    CountWhereSplit(t, EndDateAtMost(today), EndDateBefore(today), EndDateOn(today));
    CountingStat(ActiveItems, t, today);
    CountingStat(ExpiredItems, t, today);
  }
}
