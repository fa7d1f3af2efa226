/** What `display_results` and `export_to_csv` compute from the table, without
    the printing and the file writing: the listing sorted by count, the samples
    shown per type, the summary totals, and the rows of the CSV file. */
module Summary {
  import opened Wrappers
  import opened IfcTypes

  /** At most this many instances are shown per type. */
  const SampleLimit: nat := 5
  /** The first row of the CSV file. */
  const CsvHeader: seq<string> := ["IFC_Type", "GlobalId", "Name", "ObjectType", "Tag"]

  /** One `(ifc_type, info)` pair of `ifc_types.items()`. */
  datatype Entry = Entry(ifcType: string, info: TypeInfo)

  /** `ifc_types.items()`, in the dictionary's key order. */
  function Entries(t: Table): seq<Entry> {
    seq(|t.keys|, i requires 0 <= i < |t.keys| => Entry(t.keys[i], EntryOr(t, t.keys[i])))
  }

  // ---------------------------------------------------------------------------
  // Total number of instances

  /** `sum(info['count'] for info in ifc_types.values())`. */
  function TotalInstances(es: seq<Entry>): int {
    if es == [] then 0 else es[0].info.count + TotalInstances(es[1..])
  }

  /** The number of instance records held by the entries. */
  function InstanceCount(es: seq<Entry>): nat {
    if es == [] then 0 else |es[0].info.instances| + InstanceCount(es[1..])
  }

  lemma {:induction false} TotalAppend(a: seq<Entry>, b: seq<Entry>)
    ensures TotalInstances(a + b) == TotalInstances(a) + TotalInstances(b)
    decreases a
  {
    if a == [] {
      assert a + b == b;
    } else {
      assert (a + b)[1..] == a[1..] + b;
      TotalAppend(a[1..], b);
    }
  }

  lemma {:induction false} TotalUpdate(s: seq<Entry>, i: nat, x: Entry)
    requires i < |s|
    ensures TotalInstances(s[i := x]) == TotalInstances(s) - s[i].info.count + x.info.count
    decreases s
  {
    if i > 0 {
      assert s[i := x][1..] == s[1..][i - 1 := x];
      TotalUpdate(s[1..], i - 1, x);
    } else {
      assert s[i := x][1..] == s[1..];
    }
  }

  /** Recording one instance raises the total by one. */
  lemma RecordTotal(t: Table, f: Found)
    requires WellFormed(t)
    ensures TotalInstances(Entries(Record(t, f))) == TotalInstances(Entries(t)) + 1
  {
    var ty := f.ifcType;
    var t' := Record(t, f);
    var x := Entry(ty, EntryOr(t', ty));
    if ty in t.info {
      assert ty in t.keys;
      var i :| 0 <= i < |t.keys| && t.keys[i] == ty;
      assert Entries(t') == Entries(t)[i := x];
      TotalUpdate(Entries(t), i, x);
    } else {
      assert ty !in t.keys;
      assert Entries(t') == Entries(t) + [x];
      TotalAppend(Entries(t), [x]);
    }
  }

  /** Recording `fs` raises the total by exactly the number of instances recorded. */
  lemma {:induction false} RecordAllTotal(t: Table, fs: seq<Found>)
    requires WellFormed(t)
    ensures TotalInstances(Entries(RecordAll(t, fs))) == TotalInstances(Entries(t)) + |fs|
    decreases fs
  {
    if fs != [] {
      RecordTotal(t, fs[0]);
      RecordAllKeys(t, [fs[0]]);
      assert RecordAll(t, [fs[0]]) == Record(t, fs[0]);
      RecordAllTotal(Record(t, fs[0]), fs[1..]);
    }
  }

  lemma {:induction false} TotalCountsInstances(es: seq<Entry>)
    requires forall i :: 0 <= i < |es| ==> es[i].info.count == |es[i].info.instances|
    ensures TotalInstances(es) == InstanceCount(es)
    decreases es
  {
    if es != [] {
      TotalCountsInstances(es[1..]);
    }
  }

  /** Where every `count` agrees with its `instances`, the total is the number
      of instance records in the table. */
  lemma TotalIsInstanceCount(t: Table)
    requires CountsAgree(t)
    ensures TotalInstances(Entries(t)) == InstanceCount(Entries(t))
  {
    TotalCountsInstances(Entries(t));
  }

  /** The table the walk builds from an empty one is well formed, keeps
      `count == len(instances)`, and its total is the number of objects the
      walk recorded. */
  lemma WalkTotal(data: Item, maxDepth: int, depth: int)
    ensures var t := RecordAll(EmptyTable, Visits(data, maxDepth, depth));
      && WellFormed(t) && CountsAgree(t)
      && TotalInstances(Entries(t)) == |Visits(data, maxDepth, depth)|
  {
    var fs := Visits(data, maxDepth, depth);
    RecordAllKeys(EmptyTable, fs);
    RecordAllCountsAgree(EmptyTable, fs);
    RecordAllTotal(EmptyTable, fs);
    assert Entries(EmptyTable) == [];
  }

  // ---------------------------------------------------------------------------
  // `sorted(ifc_types.items(), key=lambda x: x[1]['count'], reverse=True)`

  /** Inserts `e` before the first entry whose count is not above its own, so
      that among equal counts the earlier entry of the input stays first. */
  function Insert(e: Entry, s: seq<Entry>): seq<Entry> {
    if s == [] || s[0].info.count <= e.info.count then [e] + s
    else [s[0]] + Insert(e, s[1..])
  }

  /** Python's stable sort by count, most common first. */
  function SortByCount(s: seq<Entry>): seq<Entry> {
    if s == [] then [] else Insert(s[0], SortByCount(s[1..]))
  }

  predicate Descending(s: seq<Entry>) {
    forall i, j :: 0 <= i < j < |s| ==> s[i].info.count >= s[j].info.count
  }

  /** The entries with count `c`, in order. */
  function WithCount(s: seq<Entry>, c: int): seq<Entry> {
    if s == [] then []
    else (if s[0].info.count == c then [s[0]] else []) + WithCount(s[1..], c)
  }

  lemma {:induction false} InsertPermutes(e: Entry, s: seq<Entry>)
    ensures multiset(Insert(e, s)) == multiset{e} + multiset(s)
    decreases s
  {
    if s != [] && s[0].info.count > e.info.count {
      InsertPermutes(e, s[1..]);
      assert s == [s[0]] + s[1..];
    }
  }

  lemma {:induction false} InsertDescending(e: Entry, s: seq<Entry>)
    requires Descending(s)
    ensures Descending(Insert(e, s))
    decreases s
  {
    if s != [] && s[0].info.count > e.info.count {
      var rest := Insert(e, s[1..]);
      InsertDescending(e, s[1..]);
      InsertPermutes(e, s[1..]);
      forall j | 0 <= j < |rest|
        ensures rest[j].info.count <= s[0].info.count
      {
        assert rest[j] in multiset(rest);
        if rest[j] != e {
          assert rest[j] in multiset(s[1..]);
          var k :| 0 <= k < |s[1..]| && s[1..][k] == rest[j];
          assert s[k + 1] == rest[j];
        }
      }
    }
  }

  lemma WithCountCons(x: Entry, s: seq<Entry>, c: int)
    ensures WithCount([x] + s, c) == (if x.info.count == c then [x] else []) + WithCount(s, c)
  {
    assert ([x] + s)[1..] == s;
  }

  lemma {:induction false} InsertStable(e: Entry, s: seq<Entry>, c: int)
    ensures WithCount(Insert(e, s), c) == (if e.info.count == c then [e] else []) + WithCount(s, c)
    decreases s
  {
    if s == [] || s[0].info.count <= e.info.count {
      WithCountCons(e, s, c);
    } else {
      var x, rest := s[0], Insert(e, s[1..]);
      assert s == [x] + s[1..];
      InsertStable(e, s[1..], c);
      WithCountCons(x, rest, c);
      WithCountCons(x, s[1..], c);
      var ws := WithCount(s[1..], c);
      if x.info.count == c {
        assert e.info.count != c;
        calc {
          WithCount(Insert(e, s), c);
          [x] + WithCount(rest, c);
          [x] + ws;
          WithCount(s, c);
        }
      } else if e.info.count == c {
        calc {
          WithCount(Insert(e, s), c);
          WithCount(rest, c);
          [e] + ws;
          [e] + WithCount(s, c);
        }
      } else {
        calc {
          WithCount(Insert(e, s), c);
          WithCount(rest, c);
          ws;
          WithCount(s, c);
        }
      }
    }
  }

  lemma {:induction false} InsertTotal(e: Entry, s: seq<Entry>)
    ensures TotalInstances(Insert(e, s)) == e.info.count + TotalInstances(s)
    decreases s
  {
    if s == [] || s[0].info.count <= e.info.count {
      assert ([e] + s)[1..] == s;
    } else {
      InsertTotal(e, s[1..]);
      assert ([s[0]] + Insert(e, s[1..]))[1..] == Insert(e, s[1..]);
    }
  }

  /** The listing is in non-increasing order of count and holds exactly the
      entries of the table, each as often as there. */
  lemma {:induction false} SortByCountSorts(s: seq<Entry>)
    ensures Descending(SortByCount(s))
    ensures multiset(SortByCount(s)) == multiset(s)
    decreases s
  {
    if s != [] {
      SortByCountSorts(s[1..]);
      InsertDescending(s[0], SortByCount(s[1..]));
      InsertPermutes(s[0], SortByCount(s[1..]));
      assert s == [s[0]] + s[1..];
    }
  }

  /** Among entries of equal count, the listing keeps the dictionary's order. */
  lemma {:induction false} SortByCountStable(s: seq<Entry>, c: int)
    ensures WithCount(SortByCount(s), c) == WithCount(s, c)
    decreases s
  {
    if s != [] {
      SortByCountStable(s[1..], c);
      InsertStable(s[0], SortByCount(s[1..]), c);
    }
  }

  /** Sorting changes no total. */
  lemma {:induction false} SortByCountTotal(s: seq<Entry>)
    ensures TotalInstances(SortByCount(s)) == TotalInstances(s)
    decreases s
  {
    if s != [] {
      SortByCountTotal(s[1..]);
      InsertTotal(s[0], SortByCount(s[1..]));
    }
  }

  // ---------------------------------------------------------------------------
  // The listing printed by `display_results`

  /** One sample line: `{j+1}. {GlobalId} - {Name} ({ObjectType})`. */
  datatype Sample = Sample(number: nat, globalId: string, name: string, objectType: string)

  /** The block printed for one type: rank, type, count, the sample lines and,
      when instances are left unshown, how many ("... and N more instances"). */
  datatype TypeListing = TypeListing(rank: nat, ifcType: string, count: int, samples: seq<Sample>, more: Option<nat>)

  /** Everything `display_results` prints: the listing, then the two summary totals. */
  datatype Report = Report(listing: seq<TypeListing>, typeCount: nat, totalInstances: int)

  /** The sample lines for `info['instances'][:5]`, numbered from 1. */
  function Samples(instances: seq<Instance>): seq<Sample> {
    var shown := if |instances| <= SampleLimit then instances else instances[..SampleLimit];
    seq(|shown|, j requires 0 <= j < |shown| => Sample(j + 1, shown[j].globalId, shown[j].name, shown[j].objectType))
  }

  /** `len(info['instances']) - 5` when that line is printed at all. */
  function MoreCount(instances: seq<Instance>): Option<nat> {
    if |instances| > SampleLimit then Some(|instances| - SampleLimit) else None
  }

  function ListingOf(rank: nat, e: Entry): TypeListing {
    TypeListing(rank, e.ifcType, e.info.count, Samples(e.info.instances), MoreCount(e.info.instances))
  }

  function DisplayResults(t: Table): Report {
    var sorted := SortByCount(Entries(t));
    Report(seq(|sorted|, i requires 0 <= i < |sorted| => ListingOf(i + 1, sorted[i])),
           |t.keys|, TotalInstances(Entries(t)))
  }

  /** The sum of the counts shown in the listing. */
  function ListedTotal(listing: seq<TypeListing>): int {
    if listing == [] then 0 else listing[0].count + ListedTotal(listing[1..])
  }

  /** At most five samples are shown, the first instances in their order; the
      "more" line appears exactly when some are left, and counts them. */
  lemma SamplesShown(instances: seq<Instance>)
    ensures var r := Samples(instances);
      && |r| == (if |instances| <= SampleLimit then |instances| else SampleLimit)
      && (forall j :: 0 <= j < |r| ==>
            r[j] == Sample(j + 1, instances[j].globalId, instances[j].name, instances[j].objectType))
      && (MoreCount(instances).Some? <==> |r| < |instances|)
      && (MoreCount(instances).Some? ==> |r| + MoreCount(instances).value == |instances|)
      && MoreCount(instances) == (if |instances| > SampleLimit then Some(|instances| - SampleLimit) else None)
  {
  }

  lemma {:induction false} ListedTotalOf(sorted: seq<Entry>, listing: seq<TypeListing>)
    requires |listing| == |sorted|
    requires forall i :: 0 <= i < |listing| ==> listing[i].count == sorted[i].info.count
    ensures ListedTotal(listing) == TotalInstances(sorted)
    decreases sorted
  {
    if sorted != [] {
      ListedTotalOf(sorted[1..], listing[1..]);
    }
  }

  /** The listing is ranked from 1 in non-increasing order of count, one block
      per type, and the summary's total is the sum of the counts it shows. */
  lemma DisplayOrder(t: Table)
    ensures var r := DisplayResults(t);
      && |r.listing| == r.typeCount
      && (forall i :: 0 <= i < |r.listing| ==> r.listing[i].rank == i + 1)
      && (forall i, j :: 0 <= i < j < |r.listing| ==> r.listing[i].count >= r.listing[j].count)
      && r.totalInstances == ListedTotal(r.listing)
  {
    var sorted := SortByCount(Entries(t));
    SortByCountSorts(Entries(t));
    SortByCountTotal(Entries(t));
    assert |sorted| == |Entries(t)| by {
      assert |multiset(sorted)| == |multiset(Entries(t))|;
    }
    ListedTotalOf(sorted, DisplayResults(t).listing);
  }

  lemma DisplayLine(t: Table, i: nat)
    requires i < |SortByCount(Entries(t))|
    ensures |DisplayResults(t).listing| == |SortByCount(Entries(t))|
    ensures DisplayResults(t).listing[i] == ListingOf(i + 1, SortByCount(Entries(t))[i])
  {
  }

  lemma KeyEntrySorted(t: Table, ty: string)
    requires WellFormed(t) && ty in t.info
    ensures Entry(ty, t.info[ty]) in multiset(SortByCount(Entries(t)))
  {
    var es := Entries(t);
    SortByCountSorts(es);
    assert ty in t.keys;
    var k :| 0 <= k < |t.keys| && t.keys[k] == ty;
    assert es[k] == Entry(ty, t.info[ty]);
    assert es[k] in multiset(es);
  }

  lemma SortedEntryIsKey(t: Table, e: Entry)
    requires WellFormed(t) && e in multiset(SortByCount(Entries(t)))
    ensures e.ifcType in t.info && e.info == t.info[e.ifcType]
  {
    var es := Entries(t);
    SortByCountSorts(es);
    assert e in multiset(es);
    var k :| 0 <= k < |es| && es[k] == e;
    assert t.keys[k] in t.info;
  }

  /** Every type of the table has a block showing its own count and instances,
      and every block is the one of a type of the table. */
  lemma DisplayListsEveryType(t: Table)
    requires WellFormed(t)
    ensures var r := DisplayResults(t);
      && (forall ty :: ty in t.info ==>
            exists i :: 0 <= i < |r.listing| && r.listing[i] == ListingOf(i + 1, Entry(ty, t.info[ty])))
      && (forall i :: 0 <= i < |r.listing| ==>
            r.listing[i].ifcType in t.info
            && r.listing[i] == ListingOf(i + 1, Entry(r.listing[i].ifcType, t.info[r.listing[i].ifcType])))
  {
    var sorted := SortByCount(Entries(t));
    var listing := DisplayResults(t).listing;
    forall ty | ty in t.info
      ensures exists i :: 0 <= i < |listing| && listing[i] == ListingOf(i + 1, Entry(ty, t.info[ty]))
    {
      KeyEntrySorted(t, ty);
      var i :| 0 <= i < |sorted| && sorted[i] == Entry(ty, t.info[ty]);
      DisplayLine(t, i);
    }
    forall i | 0 <= i < |listing|
      ensures listing[i].ifcType in t.info
      ensures listing[i] == ListingOf(i + 1, Entry(listing[i].ifcType, t.info[listing[i].ifcType]))
    {
      DisplayLine(t, i);
      assert sorted[i] in multiset(sorted);
      SortedEntryIsKey(t, sorted[i]);
    }
  }

  /** What `run` hands back after the walk: None ("No IFC types found") when the
      dictionary is empty, otherwise the dictionary, after displaying it. `main`
      offers the CSV export only in the second case. */
  function RunOutcome(t: Table): (r: Option<Table>)
    ensures WellFormed(t) ==> (r.None? <==> t.keys == [])
    ensures r.Some? ==> r.value == t
  {
    NoKeysNoEntries(t);
    if t.info == map[] then None else Some(t)
  }

  lemma NoKeysNoEntries(t: Table)
    ensures WellFormed(t) ==> (t.info == map[] <==> t.keys == [])
  {
    if WellFormed(t) && t.keys != [] {
      assert t.keys[0] in t.info;
    }
  }

  /** A walk from an empty table finds no IFC types exactly when it records
      nothing, so `run` returns None exactly then. */
  lemma NothingFound(data: Item, maxDepth: int, depth: int)
    ensures var fs := Visits(data, maxDepth, depth);
      RunOutcome(RecordAll(EmptyTable, fs)).None? <==> fs == []
  {
    var fs := Visits(data, maxDepth, depth);
    var t := RecordAll(EmptyTable, fs);
    WalkTotal(data, maxDepth, depth);
    if t.keys == [] {
      assert Entries(t) == [];
    }
  }

  // ---------------------------------------------------------------------------
  // The rows `export_to_csv` writes

  function CsvRow(ifcType: string, instance: Instance): seq<string> {
    [ifcType, instance.globalId, instance.name, instance.objectType, instance.tag]
  }

  /** One row per instance of a type, in order. */
  function InstanceRows(ifcType: string, instances: seq<Instance>): seq<seq<string>> {
    seq(|instances|, k requires 0 <= k < |instances| => CsvRow(ifcType, instances[k]))
  }

  /** The rows of every entry, entry by entry. */
  function EntryRows(es: seq<Entry>): seq<seq<string>> {
    if es == [] then [] else InstanceRows(es[0].ifcType, es[0].info.instances) + EntryRows(es[1..])
  }

  /** Every row written to the CSV file: the header, then the instances of each
      type in the dictionary's key order. */
  function ExportToCsv(t: Table): seq<seq<string>> {
    [CsvHeader] + EntryRows(Entries(t))
  }

  /** The rows whose first column is `ty`, in order. */
  function RowsOfType(rows: seq<seq<string>>, ty: string): seq<seq<string>> {
    if rows == [] then []
    else (if |rows[0]| > 0 && rows[0][0] == ty then [rows[0]] else []) + RowsOfType(rows[1..], ty)
  }

  /** The instances held under `ty` by the entries, in order. */
  function InstancesUnder(es: seq<Entry>, ty: string): seq<Instance> {
    if es == [] then []
    else (if es[0].ifcType == ty then es[0].info.instances else []) + InstancesUnder(es[1..], ty)
  }

  lemma {:induction false} EntryRowsShape(es: seq<Entry>)
    ensures |EntryRows(es)| == InstanceCount(es)
    ensures forall k :: 0 <= k < |EntryRows(es)| ==> |EntryRows(es)[k]| == |CsvHeader|
    decreases es
  {
    if es != [] {
      EntryRowsShape(es[1..]);
    }
  }

  /** The file has the header, then one row of five columns per instance, so
      one row more than the total when every count agrees with its instances. */
  lemma CsvShape(t: Table)
    requires CountsAgree(t)
    ensures var rows := ExportToCsv(t);
      && |rows| == 1 + TotalInstances(Entries(t))
      && rows[0] == CsvHeader
      && (forall k :: 0 <= k < |rows| ==> |rows[k]| == |CsvHeader|)
  {
    EntryRowsShape(Entries(t));
    TotalIsInstanceCount(t);
  }

  lemma {:induction false} RowsOfTypeAppend(a: seq<seq<string>>, b: seq<seq<string>>, ty: string)
    ensures RowsOfType(a + b, ty) == RowsOfType(a, ty) + RowsOfType(b, ty)
    decreases a
  {
    if a == [] {
      assert a + b == b;
    } else {
      assert (a + b)[1..] == a[1..] + b;
      RowsOfTypeAppend(a[1..], b, ty);
    }
  }

  lemma {:induction false} RowsOfInstanceRows(ifcType: string, instances: seq<Instance>, ty: string)
    ensures RowsOfType(InstanceRows(ifcType, instances), ty) == if ifcType == ty then InstanceRows(ifcType, instances) else []
    decreases instances
  {
    if instances != [] {
      assert InstanceRows(ifcType, instances)[1..] == InstanceRows(ifcType, instances[1..]);
      RowsOfInstanceRows(ifcType, instances[1..], ty);
    }
  }

  lemma {:induction false} InstanceRowsAppend(ty: string, a: seq<Instance>, b: seq<Instance>)
    ensures InstanceRows(ty, a + b) == InstanceRows(ty, a) + InstanceRows(ty, b)
  {
  }

  lemma {:induction false} RowsOfEntryRows(es: seq<Entry>, ty: string)
    ensures RowsOfType(EntryRows(es), ty) == InstanceRows(ty, InstancesUnder(es, ty))
    decreases es
  {
    if es != [] {
      var e := es[0];
      RowsOfTypeAppend(InstanceRows(e.ifcType, e.info.instances), EntryRows(es[1..]), ty);
      RowsOfInstanceRows(e.ifcType, e.info.instances, ty);
      RowsOfEntryRows(es[1..], ty);
      InstanceRowsAppend(ty, if e.ifcType == ty then e.info.instances else [], InstancesUnder(es[1..], ty));
    }
  }

  lemma {:induction false} InstancesUnderAbsent(es: seq<Entry>, ty: string)
    requires forall i :: 0 <= i < |es| ==> es[i].ifcType != ty
    ensures InstancesUnder(es, ty) == []
    decreases es
  {
    if es != [] {
      InstancesUnderAbsent(es[1..], ty);
    }
  }

  lemma {:induction false} InstancesUnderOnce(es: seq<Entry>, i: nat, ty: string)
    requires i < |es| && es[i].ifcType == ty
    requires forall j :: 0 <= j < |es| && j != i ==> es[j].ifcType != ty
    ensures InstancesUnder(es, ty) == es[i].info.instances
    decreases es
  {
    if i == 0 {
      InstancesUnderAbsent(es[1..], ty);
    } else {
      InstancesUnderOnce(es[1..], i - 1, ty);
    }
  }

  /** The data rows of a type are one row per instance held under it, in order. */
  lemma CsvRowsOfType(t: Table, ty: string)
    requires WellFormed(t)
    ensures RowsOfType(ExportToCsv(t)[1..], ty) == InstanceRows(ty, EntryOr(t, ty).instances)
  {
    var es := Entries(t);
    assert ExportToCsv(t)[1..] == EntryRows(es);
    RowsOfEntryRows(es, ty);
    if ty in t.info {
      assert ty in t.keys;
      var i :| 0 <= i < |t.keys| && t.keys[i] == ty;
      InstancesUnderOnce(es, i, ty);
    } else {
      InstancesUnderAbsent(es, ty);
    }
  }

  /** Exporting what one walk found from an empty table: one row per object the
      walk recorded, and for each type the rows of its objects in the order
      the walk met them. */
  lemma ExportOfWalk(data: Item, maxDepth: int, depth: int, ty: string)
    ensures var fs := Visits(data, maxDepth, depth);
      var rows := ExportToCsv(RecordAll(EmptyTable, fs));
      && |rows| == 1 + |fs|
      && RowsOfType(rows[1..], ty) == InstanceRows(ty, InstancesOf(fs, ty))
  {
    var fs := Visits(data, maxDepth, depth);
    var t := RecordAll(EmptyTable, fs);
    WalkTotal(data, maxDepth, depth);
    CsvShape(t);
    CsvRowsOfType(t, ty);
    RecordAllEntry(EmptyTable, fs, ty);
  }
}
