/** The read side, the JSON endpoints of mdrm_web_explorer.py: `search`
    (filter by LIKE on one field, order, limit, project to eight fields),
    `get_details` (exact identifier lookup or 404) and `get_stats` (the
    summary table as a map plus the ten most frequent mnemonics). */
module Explorer {
  import opened Wrappers
  import opened Text
  import opened Seqs
  import opened Catalog
  import opened Summary

  // ---------------------------------------------------------------------
  // Orders

  /** Text ascending under BINARY collation with NULL first, as SQLite's
      `ORDER BY x` sorts. */
  predicate NullsFirstLeq(a: Option<string>, b: Option<string>)
  {
    match a
    case None => true
    case Some(x) => b.Some? && TextLeq(x, b.value)
  }

  lemma NullsFirstLeqFacts(a: Option<string>, b: Option<string>, c: Option<string>)
    ensures NullsFirstLeq(a, b) || NullsFirstLeq(b, a)
    ensures NullsFirstLeq(a, b) && NullsFirstLeq(b, c) ==> NullsFirstLeq(a, c)
    ensures NullsFirstLeq(a, b) && NullsFirstLeq(b, a) ==> a == b
  {
    if a.Some? && b.Some? {
      TextLeqTotal(a.value, b.value);
      if TextLeq(a.value, b.value) && TextLeq(b.value, a.value) {
        TextLeqAntisymmetric(a.value, b.value);
      }
      if c.Some? && TextLeq(a.value, b.value) && TextLeq(b.value, c.value) {
        TextLeqTransitive(a.value, b.value, c.value);
      }
    }
  }

  /** `ORDER BY start_date DESC`: later dates first, NULL last. */
  predicate ByStartDateDesc(a: Record, b: Record)
  {
    match a.startDate
    case None => b.startDate.None?
    case Some(x) => b.startDate.None? || x >= b.startDate.value
  }

  /** `ORDER BY item_name` */
  predicate ByItemName(a: Record, b: Record)
  {
    NullsFirstLeq(a.itemName, b.itemName)
  }

  /** `ORDER BY mnemonic, item_name` */
  predicate ByMnemonicItemName(a: Record, b: Record)
  {
    if a.mnemonic == b.mnemonic then NullsFirstLeq(a.itemName, b.itemName)
    else NullsFirstLeq(a.mnemonic, b.mnemonic)
  }

  lemma StartDateOrder()
    ensures TotalPreorder(ByStartDateDesc)
  {
  }

  lemma ItemNameOrder()
    ensures TotalPreorder(ByItemName)
  {
    forall a: Record, b: Record, c: Record
      ensures ByItemName(a, b) || ByItemName(b, a)
      ensures ByItemName(a, b) && ByItemName(b, c) ==> ByItemName(a, c)
    {
      NullsFirstLeqFacts(a.itemName, b.itemName, c.itemName);
    }
  }

  lemma MnemonicItemNameOrder()
    ensures TotalPreorder(ByMnemonicItemName)
  {
    forall a: Record, b: Record
      ensures ByMnemonicItemName(a, b) || ByMnemonicItemName(b, a)
    {
      NullsFirstLeqFacts(a.mnemonic, b.mnemonic, b.mnemonic);
      NullsFirstLeqFacts(a.itemName, b.itemName, b.itemName);
    }
    forall a: Record, b: Record, c: Record | ByMnemonicItemName(a, b) && ByMnemonicItemName(b, c)
      ensures ByMnemonicItemName(a, c)
    {
      NullsFirstLeqFacts(a.mnemonic, b.mnemonic, c.mnemonic);
      NullsFirstLeqFacts(a.itemName, b.itemName, c.itemName);
      NullsFirstLeqFacts(b.mnemonic, c.mnemonic, a.mnemonic);
      NullsFirstLeqFacts(c.mnemonic, a.mnemonic, b.mnemonic);
    }
  }

  // ---------------------------------------------------------------------
  // search

  /** The three searchable fields. */
  datatype Field = ItemNameField | MnemonicField | ItemCodeField

  function FieldValue(f: Field, r: Record): Option<string>
  {
    match f
    case ItemNameField => r.itemName
    case MnemonicField => r.mnemonic
    case ItemCodeField => r.itemCode
  }

  /** `field LIKE pattern`; a NULL field never matches. */
  predicate Matches(f: Field, pattern: string, r: Record)
  {
    FieldValue(f, r).Some? && Like(pattern, FieldValue(f, r).value)
  }

  /** `WHERE field LIKE pattern`, in table order. */
  function Where(t: seq<Record>, f: Field, pattern: string): (r: seq<Record>)
    ensures |r| <= |t|
    ensures forall i :: 0 <= i < |r| ==> r[i] in t && Matches(f, pattern, r[i])
    ensures forall i :: 0 <= i < |t| && Matches(f, pattern, t[i]) ==> t[i] in r
  {
    if t == [] then []
    else
      var p := Where(t[..|t| - 1], f, pattern);
      assert t == t[..|t| - 1] + [t[|t| - 1]];
      if Matches(f, pattern, t[|t| - 1]) then p + [t[|t| - 1]] else p
  }

  /** The request arguments; a missing one is `None`. `limit` is the value
      `int()` produced. */
  datatype SearchArgs = SearchArgs(q: Option<string>, searchType: Option<string>, limit: Option<int>)

  function QueryOf(args: SearchArgs): string
  {
    Strip(match args.q case Some(q) => q case None => "")
  }

  function TypeOf(args: SearchArgs): string
  {
    match args.searchType case Some(s) => s case None => "item_name"
  }

  function LimitOf(args: SearchArgs): int
  {
    match args.limit case Some(n) => n case None => 50
  }

  /** The argument defaults: `q` is stripped (and empty when absent), the
      type is `item_name` and the limit 50 when absent. */
  lemma SearchArgDefaults(q: string)
    ensures QueryOf(SearchArgs(None, None, None)) == ""
    ensures TypeOf(SearchArgs(None, None, None)) == "item_name"
    ensures LimitOf(SearchArgs(None, None, None)) == 50
    ensures QueryOf(SearchArgs(Some(q), None, None)) == Strip(q)
  {
    assert Strip("") == "";
  }

  /** The pattern the search binds: `f'%{query}%'`. */
  function Pattern(query: string): string
  {
    "%" + query + "%"
  }

  /** The rows `search` fetches, before projection. */
  function SearchRows(t: seq<Record>, query: string, searchType: string, limit: int): (r: seq<Record>)
    ensures |r| <= |t|
    ensures 0 <= limit ==> |r| <= limit
  {
    StartDateOrder();
    ItemNameOrder();
    MnemonicItemNameOrder();
    if query == "" then Limit(SortBy(t, ByStartDateDesc), limit)
    else if searchType == "item_name" then Limit(SortBy(Where(t, ItemNameField, Pattern(query)), ByItemName), limit)
    else if searchType == "mnemonic" then Limit(SortBy(Where(t, MnemonicField, Pattern(query)), ByItemName), limit)
    else if searchType == "item_code" then Limit(SortBy(Where(t, ItemCodeField, Pattern(query)), ByMnemonicItemName), limit)
    else []
  }

  /** The field a known search type filters on, and the order it sorts by. */
  predicate KnownType(searchType: string)
  {
    searchType == "item_name" || searchType == "mnemonic" || searchType == "item_code"
  }

  function FieldOf(searchType: string): Field
    requires KnownType(searchType)
  {
    if searchType == "item_name" then ItemNameField
    else if searchType == "mnemonic" then MnemonicField
    else ItemCodeField
  }

  function OrderOf(query: string, searchType: string): (Record, Record) -> bool
  {
    if query == "" then ByStartDateDesc
    else if searchType == "item_code" then ByMnemonicItemName
    else ByItemName
  }

  /** The rows a search draws from: all rows for an empty query, else those
      whose field matches the pattern. */
  function Candidates(t: seq<Record>, query: string, searchType: string): seq<Record>
    requires query == "" || KnownType(searchType)
  {
    if query == "" then t else Where(t, FieldOf(searchType), Pattern(query))
  }

  lemma OrdersTotal(query: string, searchType: string)
    ensures TotalPreorder(OrderOf(query, searchType))
  {
    StartDateOrder();
    ItemNameOrder();
    MnemonicItemNameOrder();
  }

  /** The candidates in the order the search asks for. */
  function Ordered(c: seq<Record>, query: string, searchType: string): (r: seq<Record>)
    ensures SortedBy(r, OrderOf(query, searchType))
    ensures multiset(r) == multiset(c)
  {
    OrdersTotal(query, searchType);
    SortBy(c, OrderOf(query, searchType))
  }

  /** A search with an empty query or a known type sorts its candidates and
      takes the first `limit` of them. */
  lemma SearchRowsShape(t: seq<Record>, query: string, searchType: string, limit: int)
    requires query == "" || KnownType(searchType)
    ensures SearchRows(t, query, searchType, limit) == Limit(Ordered(Candidates(t, query, searchType), query, searchType), limit)
  {
    OrdersTotal(query, searchType);
  }

  /** Bounds: never more than `limit` rows when `limit >= 0`, never more
      rows than match. An unknown type with a non-empty query finds nothing. */
  lemma SearchBounds(t: seq<Record>, query: string, searchType: string, limit: int)
    ensures |SearchRows(t, query, searchType, limit)| <= |t|
    ensures limit >= 0 ==> |SearchRows(t, query, searchType, limit)| <= limit
    ensures query != "" && !KnownType(searchType) ==> SearchRows(t, query, searchType, limit) == []
  {
    if query == "" || KnownType(searchType) {
      SearchRowsShape(t, query, searchType, limit);
      OrdersTotal(query, searchType);
      var c := Candidates(t, query, searchType);
      assert |Ordered(c, query, searchType)| == |c| by {
        assert |multiset(Ordered(c, query, searchType))| == |multiset(c)|;
      }
    }
  }

  /** Membership: every row found is a row of the table and, for a
      non-empty query, its chosen field matches `%query%`. */
  lemma SearchMembership(t: seq<Record>, query: string, searchType: string, limit: int)
    ensures forall x :: x in SearchRows(t, query, searchType, limit) ==> x in t
    ensures query != "" ==> forall x :: x in SearchRows(t, query, searchType, limit) ==>
      KnownType(searchType) && Matches(FieldOf(searchType), Pattern(query), x)
  {
    var r := SearchRows(t, query, searchType, limit);
    if query == "" || KnownType(searchType) {
      SearchRowsShape(t, query, searchType, limit);
      OrdersTotal(query, searchType);
      var c := Candidates(t, query, searchType);
      var s := Ordered(c, query, searchType);
      forall x | x in r ensures x in c {
        assert x in s;
        assert x in multiset(s);
      }
    }
  }

  /** Ordering: the rows come in the order the statement's ORDER BY asks
      for. */
  lemma SearchOrdered(t: seq<Record>, query: string, searchType: string, limit: int)
    requires query == "" || KnownType(searchType)
    ensures SortedBy(SearchRows(t, query, searchType, limit), OrderOf(query, searchType))
  {
    SearchRowsShape(t, query, searchType, limit);
  }

  /** The rows returned are the first in that order: each candidate left
      out sorts no earlier than any row returned, and with no limit or
      enough room every candidate is returned. */
  lemma SearchTopRows(t: seq<Record>, query: string, searchType: string, limit: int)
    requires query == "" || KnownType(searchType)
    ensures var r, c := SearchRows(t, query, searchType, limit), Candidates(t, query, searchType);
      forall x, y :: x in r && y in multiset(c) - multiset(r) ==> OrderOf(query, searchType)(x, y)
    ensures var r, c := SearchRows(t, query, searchType, limit), Candidates(t, query, searchType);
      limit < 0 || limit >= |c| ==> multiset(r) == multiset(c)
  {
    SearchRowsShape(t, query, searchType, limit);
    OrdersTotal(query, searchType);
    var leq := OrderOf(query, searchType);
    var c := Candidates(t, query, searchType);
    var s := Ordered(c, query, searchType);
    var r := SearchRows(t, query, searchType, limit);
    assert |s| == |c| by {
      assert |multiset(s)| == |multiset(c)|;
    }
    PrefixOfSortedIsLeast(s, |r|, leq);
    if limit < 0 || limit >= |c| {
      assert r == s;
    }
  }

  /** A row whose field contains the query up to ASCII case is a candidate
      of a search on that field, whatever `%` or `_` the query holds, since
      the query goes into the pattern unescaped and each wildcard can match
      the character it faces. */
  lemma SearchFindsContaining(t: seq<Record>, query: string, searchType: string, i: nat)
    requires KnownType(searchType) && query != "" && i < |t|
    requires FieldValue(FieldOf(searchType), t[i]).Some?
    requires ContainsFolded(FieldValue(FieldOf(searchType), t[i]).value, query)
    ensures t[i] in Candidates(t, query, searchType)
  {
    LikeFromContains(query, FieldValue(FieldOf(searchType), t[i]).value);
  }

  /** One element of the JSON list `search` returns: the eight listed
      columns of a row. */
  datatype Hit = Hit(
    mdrmIdentifier: Option<string>,
    mnemonic: Option<string>,
    itemCode: Option<string>,
    itemName: Option<string>,
    itemType: Option<string>,
    confidentiality: Option<string>,
    startDate: Option<Date>,
    endDate: Option<Date>)

  function Project(r: Record): Hit
  {
    Hit(r.mdrmIdentifier, r.mnemonic, r.itemCode, r.itemName, r.itemType,
        r.confidentiality, r.startDate, r.endDate)
  }

  /** `search`: fetches the rows for the arguments, then builds the
      response from them. */
  method Search(t: seq<Record>, args: SearchArgs) returns (data: seq<Hit>)
    ensures var results := SearchRows(t, QueryOf(args), TypeOf(args), LimitOf(args));
      && |data| == |results|
      && forall i :: 0 <= i < |data| ==> data[i] == Project(results[i])
  {
    var query := QueryOf(args);
    var searchType := TypeOf(args);
    var limit := LimitOf(args);
    var results := SearchRows(t, query, searchType, limit);
    data := ProjectRows(results);
  }

  /** The response loop of `search`: appends one projected element per
      row, in the order fetched. */
  method ProjectRows(results: seq<Record>) returns (data: seq<Hit>)
    ensures |data| == |results|
    ensures forall i :: 0 <= i < |data| ==> data[i] == Project(results[i])
  {
    data := [];
    for i := 0 to |results|
      invariant |data| == i
      invariant forall j :: 0 <= j < i ==> data[j] == Project(results[j])
    {
      data := data + [Project(results[i])];
    }
  }

  // ---------------------------------------------------------------------
  // get_details

  datatype Details = Found(row: Record) | NotFound(status: nat, error: string)

  /** `SELECT * FROM mdrm_data WHERE mdrm_identifier = ?` and `fetchone`. */
  function GetDetails(t: seq<Record>, mdrmId: string): (r: Details)
    ensures r.Found? <==> exists i :: 0 <= i < |t| && t[i].mdrmIdentifier == Some(mdrmId)
    ensures r.Found? ==> r.row in t && r.row.mdrmIdentifier == Some(mdrmId)
    ensures r.NotFound? ==> r == NotFound(404, "Item not found")
  {
    if t == [] then NotFound(404, "Item not found")
    else if t[0].mdrmIdentifier == Some(mdrmId) then Found(t[0])
    else
      var r := GetDetails(t[1..], mdrmId);
      assert forall i :: 0 <= i < |t| - 1 ==> t[1..][i] == t[i + 1];
      assert t == [t[0]] + t[1..];
      r
  }

  // ---------------------------------------------------------------------
  // get_stats

  /** `for row in summary_results: stats[name] = value`: a later row with
      the same name would overwrite an earlier one. */
  function SummaryMap(rows: seq<StatRow>): (m: map<string, string>)
    ensures forall n :: n in m <==> HasStat(rows, n)
  {
    if rows == [] then map[]
    else
      var p := rows[..|rows| - 1];
      assert forall i :: 0 <= i < |p| ==> p[i] == rows[i];
      SummaryMap(p)[rows[|rows| - 1].name := rows[|rows| - 1].value]
  }

  /** With distinct names, as the PRIMARY KEY keeps them, every row's value
      is what the map holds for its name. */
  lemma {:induction false} SummaryMapDistinct(rows: seq<StatRow>, i: nat)
    requires NamesDistinct(rows) && i < |rows|
    ensures SummaryMap(rows)[rows[i].name] == rows[i].value
  {
    if i < |rows| - 1 {
      var p := rows[..|rows| - 1];
      SummaryMapDistinct(p, i);
    }
  }

  /** The stats map after a load reports each fixed statistic as the
      decimal text of its count. */
  lemma StatsReportFixed(t: seq<Record>, today: Date, s: Stat)
    ensures var m := SummaryMap(SummaryRows(t, today));
      StatName(s) in m && m[StatName(s)] == NatToString(StatCount(s, t, today))
  {
    var rows := SummaryRows(t, today);
    SummaryNamesDistinct(t, today);
    var i := FixedIndex(s);
    SummaryMapDistinct(rows, i);
  }

  /** A `(mnemonic, count)` group; NULL mnemonics form one group. */
  type Group = (Option<string>, nat)

  /** `SELECT mnemonic, COUNT(*) ... GROUP BY mnemonic`, in order of first
      appearance (the engine's order is not specified). */
  function MnemonicGroups(t: seq<Record>): (g: seq<Group>)
    ensures |g| == |Dedup(Mnemonics(t))|
    ensures forall i :: 0 <= i < |g| ==> g[i] == (Dedup(Mnemonics(t))[i], Count(Mnemonics(t), Dedup(Mnemonics(t))[i]))
  {
    var keys := Dedup(Mnemonics(t));
    seq(|keys|, i requires 0 <= i < |keys| => (keys[i], Count(Mnemonics(t), keys[i])))
  }

  /** The mnemonic groups are exactly the mnemonics some row has, NULL
      included, each once, with the number of rows that carry it. */
  lemma MnemonicGroupsExact(t: seq<Record>)
    ensures var g := MnemonicGroups(t);
      forall i :: 0 <= i < |g| ==>
        (exists r :: 0 <= r < |t| && t[r].mnemonic == g[i].0) && g[i].1 == Count(Mnemonics(t), g[i].0) > 0
    ensures var g := MnemonicGroups(t);
      forall r :: 0 <= r < |t| ==> exists i :: 0 <= i < |g| && g[i] == (t[r].mnemonic, Count(Mnemonics(t), t[r].mnemonic))
    ensures var g := MnemonicGroups(t);
      forall i, j :: 0 <= i < j < |g| ==> g[i].0 != g[j].0
  {
    var g := MnemonicGroups(t);
    forall i | 0 <= i < |g|
      ensures (exists r :: 0 <= r < |t| && t[r].mnemonic == g[i].0) && g[i].1 == Count(Mnemonics(t), g[i].0) > 0
    {
      GroupOccurs(t, i);
    }
    forall r | 0 <= r < |t|
      ensures exists i :: 0 <= i < |g| && g[i] == (t[r].mnemonic, Count(Mnemonics(t), t[r].mnemonic))
    {
      OccurrenceGrouped(t, r);
    }
  }

  lemma GroupOccurs(t: seq<Record>, i: nat)
    requires i < |MnemonicGroups(t)|
    ensures var g := MnemonicGroups(t)[i];
      (exists r :: 0 <= r < |t| && t[r].mnemonic == g.0) && g.1 == Count(Mnemonics(t), g.0) > 0
  {
    var keys := Dedup(Mnemonics(t));
    var r :| 0 <= r < |Mnemonics(t)| && Mnemonics(t)[r] == keys[i];
    assert t[r].mnemonic == keys[i];
  }

  lemma OccurrenceGrouped(t: seq<Record>, r: nat)
    requires r < |t|
    ensures var g := MnemonicGroups(t);
      exists i :: 0 <= i < |g| && g[i] == (t[r].mnemonic, Count(Mnemonics(t), t[r].mnemonic))
  {
    var keys := Dedup(Mnemonics(t));
    assert Mnemonics(t)[r] == t[r].mnemonic;
    var i :| 0 <= i < |keys| && keys[i] == t[r].mnemonic;
    assert MnemonicGroups(t)[i] == (t[r].mnemonic, Count(Mnemonics(t), t[r].mnemonic));
  }

  /** `ORDER BY count DESC` */
  predicate ByCountDesc(a: Group, b: Group)
  {
    a.1 >= b.1
  }

  lemma CountOrder()
    ensures TotalPreorder(ByCountDesc)
  {
  }

  const TopLimit: nat := 10

  /** `... ORDER BY count DESC LIMIT 10` */
  function TopMnemonics(t: seq<Record>): (r: seq<Group>)
    ensures |r| <= TopLimit
    ensures forall i :: 0 <= i < |r| ==> r[i] in MnemonicGroups(t)
  {
    var s := ByCount(t);
    assert forall g :: g in s ==> g in MnemonicGroups(t) by {
      forall g | g in s ensures g in MnemonicGroups(t) {
        assert g in multiset(s);
      }
    }
    Limit(s, TopLimit)
  }

  /** The groups sorted by count, before the limit. */
  function ByCount(t: seq<Record>): (s: seq<Group>)
    ensures SortedBy(s, ByCountDesc)
    ensures multiset(s) == multiset(MnemonicGroups(t))
    ensures |s| == |MnemonicGroups(t)|
  {
    CountOrder();
    var s := SortBy(MnemonicGroups(t), ByCountDesc);
    assert |multiset(s)| == |multiset(MnemonicGroups(t))|;
    s
  }

  /** The top list has as many groups as there are distinct mnemonics
      (NULL counting as one), up to ten. */
  lemma TopMnemonicsSize(t: seq<Record>)
    ensures |TopMnemonics(t)| == if |Dedup(Mnemonics(t))| < TopLimit then |Dedup(Mnemonics(t))| else TopLimit
  {
    assert TopMnemonics(t) == Limit(ByCount(t), TopLimit);
  }

  /** Each listed group is a group of the table: a mnemonic that occurs,
      with the exact number of rows that carry it. */
  lemma TopMnemonicsCounts(t: seq<Record>)
    ensures var top := TopMnemonics(t);
      forall i :: 0 <= i < |top| ==> top[i].0 in Mnemonics(t) && top[i].1 == Count(Mnemonics(t), top[i].0)
  {
    var top := TopMnemonics(t);
    var s := ByCount(t);
    assert top == s[..|top|];
    forall i | 0 <= i < |top| ensures top[i] in MnemonicGroups(t) {
      assert top[i] in multiset(s);
    }
  }

  /** No two groups of the table share a mnemonic. */
  lemma GroupKeysDistinct(t: seq<Record>)
    ensures var g := MnemonicGroups(t);
      forall i, j :: 0 <= i < j < |g| ==> g[i].0 != g[j].0
  {
  }

  /** The listed counts never increase and no mnemonic is listed twice. */
  lemma TopMnemonicsOrdered(t: seq<Record>)
    ensures var top := TopMnemonics(t);
      forall i, j :: 0 <= i < j < |top| ==> top[i].1 >= top[j].1 && top[i].0 != top[j].0
  {
    var groups := MnemonicGroups(t);
    var s := ByCount(t);
    var top := TopMnemonics(t);
    assert top == s[..|top|];
    GroupKeysDistinct(t);
    assert Distinct(groups);
    DistinctPermutation(groups, s);
    forall i, j | 0 <= i < j < |top| ensures top[i].0 != top[j].0 {
      assert top[i] in multiset(groups) && top[j] in multiset(groups);
      var a :| 0 <= a < |groups| && groups[a] == top[i];
      var b :| 0 <= b < |groups| && groups[b] == top[j];
      assert top[i] == s[i] && top[j] == s[j];
    }
  }

  /** No group left out of the top list has a larger count than any group
      in it. */
  lemma TopMnemonicsLeast(t: seq<Record>)
    ensures var top := TopMnemonics(t);
      forall g, i :: g in MnemonicGroups(t) && g !in top && 0 <= i < |top| ==> g.1 <= top[i].1
  {
    var s := ByCount(t);
    var top := TopMnemonics(t);
    assert top == s[..|top|];
    PrefixOfSortedIsLeast(s, |top|, ByCountDesc);
    forall g, i | g in MnemonicGroups(t) && g !in top && 0 <= i < |top| ensures g.1 <= top[i].1 {
      assert g in multiset(s);
      assert g !in multiset(top);
      assert g in multiset(s) - multiset(top);
      assert top[i] in s[..|top|];
    }
  }

  /** A value in the stats response. */
  datatype StatsValue = Value(text: string) | TopList(groups: seq<Group>)

  const TopMnemonicsKey: string := "top_mnemonics"

  /** `get_stats`: copies the summary table into a map, then adds the top
      mnemonics. */
  method GetStats(summary: seq<StatRow>, t: seq<Record>) returns (stats: map<string, StatsValue>)
    ensures forall n :: n in stats <==> n == TopMnemonicsKey || HasStat(summary, n)
    ensures stats[TopMnemonicsKey] == TopList(TopMnemonics(t))
    ensures forall n :: n != TopMnemonicsKey && HasStat(summary, n) ==> stats[n] == Value(SummaryMap(summary)[n])
  {
    stats := map[];
    for k := 0 to |summary|
      invariant forall n :: n in stats <==> n in SummaryMap(summary[..k])
      invariant forall n :: n in stats ==> stats[n] == Value(SummaryMap(summary[..k])[n])
    {
      var row := summary[k];
      stats := stats[row.name := Value(row.value)];
      assert summary[..k + 1][..k] == summary[..k];
    }
    assert summary[..|summary|] == summary;
    stats := stats[TopMnemonicsKey := TopList(TopMnemonics(t))];
  }
}
