/** The data `extract_ifc_types` walks and the table it fills, with the
    specification of the walk: the sequence of instances it records, in the
    order it records them, and the effect of recording them on the table.

    A Python object is modelled by `Node`: its `speckle_type`, the four attributes
    copied into an instance record, its `elements` list, and the entries of its
    `__dict__` in insertion order. Anything without a `__dict__` (a string, a
    number, None) is a `PlainItem`. */
module IfcTypes {
  import opened Wrappers

  /** Geometry meshes are not IFC types and are never recorded. */
  const MeshType: string := "Objects.Geometry.Mesh"
  /** What `getattr(data, name, 'Unknown')` gives for a missing attribute. */
  const Unknown: string := "Unknown"
  /** The default `max_depth` of `extract_ifc_types`. */
  const DefaultMaxDepth: int := 10

  /** One entry of `instances`: the dictionary built from four attributes. */
  datatype Instance = Instance(globalId: string, name: string, objectType: string, tag: string)

  /** The value `{'count': ..., 'instances': [...]}` stored under an IFC type. */
  datatype TypeInfo = TypeInfo(count: int, instances: seq<Instance>)

  /** A value the walk may visit: an object with a `__dict__`, or anything else. */
  datatype Item = ObjectItem(node: Node) | PlainItem

  /** The value of a `__dict__` entry: a Python list, or anything else. */
  datatype Value = ListValue(items: seq<Item>) | OtherValue

  /** One `__dict__` entry. */
  datatype Attribute = Attribute(name: string, value: Value)

  /** An object of the received data.
      - `speckleType`: None when the object has no `speckle_type` attribute;
      - `fields`: the attributes among `GlobalId`, `Name`, `ObjectType`, `Tag` that it has;
      - `elements`: the items of the `elements` value, list or other iterable
        ([] when absent, None or empty: all three are skipped);
      - `attributes`: the entries of `__dict__`, in order. When `elements` lives in
        `__dict__`, it is also one of these. */
  datatype Node = Node(
    speckleType: Option<string>,
    fields: map<string, string>,
    elements: seq<Item>,
    attributes: seq<Attribute>)

  /** One instance recorded under an IFC type. */
  datatype Found = Found(ifcType: string, instance: Instance)

  /** The `ifc_types` dictionary: its keys in insertion order (the order Python
      iterates a dict in) and the entry of each key. */
  datatype Table = Table(keys: seq<string>, info: map<string, TypeInfo>)

  const EmptyTable: Table := Table([], map[])

  /** The keys are listed once each, and they are exactly the keys of `info`. */
  predicate WellFormed(t: Table) {
    && (forall i, j :: 0 <= i < j < |t.keys| ==> t.keys[i] != t.keys[j])
    && (forall ty :: ty in t.info ==> ty in t.keys)
    && (forall ty :: ty in t.keys ==> ty in t.info)
  }

  /** Every entry's `count` is the number of its `instances`. */
  predicate CountsAgree(t: Table) {
    forall ty :: ty in t.info ==> t.info[ty].count == |t.info[ty].instances|
  }

  /** `getattr(data, name, 'Unknown')`. */
  function FieldOr(fields: map<string, string>, name: string): string {
    if name in fields then fields[name] else Unknown
  }

  /** The `instance_info` dictionary built for a recorded object. */
  function InstanceOf(n: Node): Instance {
    Instance(FieldOr(n.fields, "GlobalId"), FieldOr(n.fields, "Name"),
             FieldOr(n.fields, "ObjectType"), FieldOr(n.fields, "Tag"))
  }

  /** The object's own type is recorded: it has a nonempty `speckle_type` other than a mesh. */
  predicate IsRecorded(n: Node) {
    n.speckleType.Some? && n.speckleType.value != "" && n.speckleType.value != MeshType
  }

  /** `not attr_name.startswith('_')`. */
  predicate IsPublic(name: string) {
    !(|name| > 0 && name[0] == '_')
  }

  /** What the walk records, in order, when `extract_ifc_types` is called on
      `item` at depth `depth`. */
  function Visits(item: Item, maxDepth: int, depth: int): seq<Found> {
    if depth > maxDepth then []
    else
      match item
      case PlainItem => []
      case ObjectItem(n) =>
        (if IsRecorded(n) then [Found(n.speckleType.value, InstanceOf(n))] else [])
        + ItemsVisits(n.elements, maxDepth, depth + 1)
        + AttributesVisits(n.attributes, maxDepth, depth + 1)
  }

  /** What the walk records for each of `items` in turn, each at depth `depth`. */
  function ItemsVisits(items: seq<Item>, maxDepth: int, depth: int): seq<Found> {
    if items == [] then []
    else ItemsVisits(items[..|items| - 1], maxDepth, depth) + Visits(items[|items| - 1], maxDepth, depth)
  }

  /** What the scan of `__dict__` records: the items of each public list, in turn. */
  function AttributesVisits(attributes: seq<Attribute>, maxDepth: int, depth: int): seq<Found> {
    if attributes == [] then []
    else
      AttributesVisits(attributes[..|attributes| - 1], maxDepth, depth)
      + AttributeVisits(attributes[|attributes| - 1], maxDepth, depth)
  }

  function AttributeVisits(a: Attribute, maxDepth: int, depth: int): seq<Found> {
    if !IsPublic(a.name) then []
    else
      match a.value
      case OtherValue => []
      case ListValue(items) => ItemsVisits(items, maxDepth, depth)
  }

  /** The entry for `ty` before anything is recorded under it: `{'count': 0, 'instances': []}`. */
  function EntryOr(t: Table, ty: string): TypeInfo {
    if ty in t.info then t.info[ty] else TypeInfo(0, [])
  }

  /** Recording one instance: create the entry when the type is new, then
      `count += 1` and `instances.append(instance_info)`. */
  function Record(t: Table, f: Found): Table {
    var e := EntryOr(t, f.ifcType);
    Table(if f.ifcType in t.info then t.keys else t.keys + [f.ifcType],
          t.info[f.ifcType := TypeInfo(e.count + 1, e.instances + [f.instance])])
  }

  /** Recording a sequence of instances, first to last. */
  function RecordAll(t: Table, fs: seq<Found>): Table
    decreases fs
  {
    if fs == [] then t else RecordAll(Record(t, fs[0]), fs[1..])
  }

  /** The instances of `fs` recorded under `ty`, in order. */
  function InstancesOf(fs: seq<Found>, ty: string): seq<Instance> {
    if fs == [] then []
    else (if fs[0].ifcType == ty then [fs[0].instance] else []) + InstancesOf(fs[1..], ty)
  }

  lemma {:induction false} RecordAllAppend(t: Table, a: seq<Found>, b: seq<Found>)
    ensures RecordAll(t, a + b) == RecordAll(RecordAll(t, a), b)
    decreases a
  {
    if a != [] {
      assert (a + b)[0] == a[0] && (a + b)[1..] == a[1..] + b;
      RecordAllAppend(Record(t, a[0]), a[1..], b);
    } else {
      assert a + b == b;
    }
  }

  /** Recording never removes or resets an entry: a type ends up in the table
      when it was there or some instance of it is recorded, and its entry is the
      old one (or a fresh zero entry) with the count raised by, and the
      instances extended by, exactly the instances recorded under it. */
  lemma {:induction false} RecordAllEntry(t: Table, fs: seq<Found>, ty: string)
    ensures var r := RecordAll(t, fs);
      && (ty in r.info <==> ty in t.info || InstancesOf(fs, ty) != [])
      && (ty in r.info ==>
            r.info[ty] == TypeInfo(EntryOr(t, ty).count + |InstancesOf(fs, ty)|,
                                  EntryOr(t, ty).instances + InstancesOf(fs, ty)))
    decreases fs
  {
    if fs != [] {
      var t' := Record(t, fs[0]);
      RecordAllEntry(t', fs[1..], ty);
      if fs[0].ifcType == ty {
        assert EntryOr(t', ty) == TypeInfo(EntryOr(t, ty).count + 1, EntryOr(t, ty).instances + [fs[0].instance]);
        assert InstancesOf(fs, ty) == [fs[0].instance] + InstancesOf(fs[1..], ty);
        assert EntryOr(t, ty).instances + InstancesOf(fs, ty)
            == EntryOr(t, ty).instances + [fs[0].instance] + InstancesOf(fs[1..], ty);
      } else {
        assert EntryOr(t', ty) == EntryOr(t, ty);
        assert InstancesOf(fs, ty) == InstancesOf(fs[1..], ty);
      }
    }
  }

  /** Recording keeps the table well formed, and the old keys stay first, in their order. */
  lemma {:induction false} RecordAllKeys(t: Table, fs: seq<Found>)
    requires WellFormed(t)
    ensures WellFormed(RecordAll(t, fs))
    ensures t.keys <= RecordAll(t, fs).keys
    decreases fs
  {
    if fs != [] {
      var t' := Record(t, fs[0]);
      assert WellFormed(t');
      RecordAllKeys(t', fs[1..]);
    }
  }

  /** Recording keeps `count == len(instances)` for every type. */
  lemma RecordAllCountsAgree(t: Table, fs: seq<Found>)
    requires CountsAgree(t)
    ensures CountsAgree(RecordAll(t, fs))
  {
    var r := RecordAll(t, fs);
    forall ty | ty in r.info
      ensures r.info[ty].count == |r.info[ty].instances|
    {
      RecordAllEntry(t, fs, ty);
    }
  }

  lemma {:induction false} ItemsVisitsAppend(items: seq<Item>, x: Item, maxDepth: int, depth: int)
    ensures ItemsVisits(items + [x], maxDepth, depth) == ItemsVisits(items, maxDepth, depth) + Visits(x, maxDepth, depth)
  {
    assert (items + [x])[..|items|] == items;
  }

  lemma {:induction false} AttributesVisitsAppend(attributes: seq<Attribute>, a: Attribute, maxDepth: int, depth: int)
    ensures AttributesVisits(attributes + [a], maxDepth, depth)
         == AttributesVisits(attributes, maxDepth, depth) + AttributeVisits(a, maxDepth, depth)
  {
    assert (attributes + [a])[..|attributes|] == attributes;
  }

  /** Walking one more item of a list records what that item's walk records. */
  lemma ItemsStep(t: Table, items: seq<Item>, k: nat, maxDepth: int, depth: int)
    requires k < |items|
    ensures RecordAll(t, ItemsVisits(items[..k + 1], maxDepth, depth))
         == RecordAll(RecordAll(t, ItemsVisits(items[..k], maxDepth, depth)), Visits(items[k], maxDepth, depth))
  {
    assert items[..k + 1] == items[..k] + [items[k]];
    ItemsVisitsAppend(items[..k], items[k], maxDepth, depth);
    RecordAllAppend(t, ItemsVisits(items[..k], maxDepth, depth), Visits(items[k], maxDepth, depth));
  }

  /** Scanning one more `__dict__` entry records what that entry's lists record. */
  lemma AttributesStep(t: Table, attributes: seq<Attribute>, j: nat, maxDepth: int, depth: int)
    requires j < |attributes|
    ensures RecordAll(t, AttributesVisits(attributes[..j + 1], maxDepth, depth))
         == RecordAll(RecordAll(t, AttributesVisits(attributes[..j], maxDepth, depth)),
                      AttributeVisits(attributes[j], maxDepth, depth))
  {
    assert attributes[..j + 1] == attributes[..j] + [attributes[j]];
    AttributesVisitsAppend(attributes[..j], attributes[j], maxDepth, depth);
    RecordAllAppend(t, AttributesVisits(attributes[..j], maxDepth, depth), AttributeVisits(attributes[j], maxDepth, depth));
  }

  /** An object's walk is its own record, then its elements, then its `__dict__` lists. */
  lemma ObjectSteps(t: Table, n: Node, maxDepth: int, depth: int)
    requires depth <= maxDepth
    ensures RecordAll(t, Visits(ObjectItem(n), maxDepth, depth))
         == RecordAll(RecordAll(RecordAll(t, if IsRecorded(n) then [Found(n.speckleType.value, InstanceOf(n))] else []),
                                ItemsVisits(n.elements, maxDepth, depth + 1)),
                      AttributesVisits(n.attributes, maxDepth, depth + 1))
  {
    var own := if IsRecorded(n) then [Found(n.speckleType.value, InstanceOf(n))] else [];
    RecordAllAppend(t, own, ItemsVisits(n.elements, maxDepth, depth + 1));
    RecordAllAppend(t, own + ItemsVisits(n.elements, maxDepth, depth + 1), AttributesVisits(n.attributes, maxDepth, depth + 1));
  }

  /** No walk records a mesh, nor an object whose `speckle_type` is missing or empty. */
  lemma {:induction false} VisitsRecordedTypes(item: Item, maxDepth: int, depth: int)
    ensures forall f :: f in Visits(item, maxDepth, depth) ==> f.ifcType != "" && f.ifcType != MeshType
    decreases item, 0
  {
    if depth <= maxDepth && item.ObjectItem? {
      ItemsVisitsRecordedTypes(item.node.elements, maxDepth, depth + 1);
      AttributesVisitsRecordedTypes(item.node.attributes, maxDepth, depth + 1);
    }
  }

  lemma {:induction false} ItemsVisitsRecordedTypes(items: seq<Item>, maxDepth: int, depth: int)
    ensures forall f :: f in ItemsVisits(items, maxDepth, depth) ==> f.ifcType != "" && f.ifcType != MeshType
    decreases items
  {
    if items != [] {
      ItemsVisitsRecordedTypes(items[..|items| - 1], maxDepth, depth);
      VisitsRecordedTypes(items[|items| - 1], maxDepth, depth);
    }
  }

  lemma {:induction false} AttributesVisitsRecordedTypes(attributes: seq<Attribute>, maxDepth: int, depth: int)
    ensures forall f :: f in AttributesVisits(attributes, maxDepth, depth) ==> f.ifcType != "" && f.ifcType != MeshType
    decreases attributes
  {
    if attributes != [] {
      var a := attributes[|attributes| - 1];
      AttributesVisitsRecordedTypes(attributes[..|attributes| - 1], maxDepth, depth);
      if IsPublic(a.name) && a.value.ListValue? {
        ItemsVisitsRecordedTypes(a.value.items, maxDepth, depth);
      }
    }
  }

  lemma {:induction false} NoInstancesOfUnrecorded(fs: seq<Found>, ty: string)
    requires forall f :: f in fs ==> f.ifcType != ty
    ensures InstancesOf(fs, ty) == []
  {
    if fs != [] {
      assert fs[0] in fs;
      NoInstancesOfUnrecorded(fs[1..], ty);
    }
  }

  /** The walk never adds the mesh type or the empty type to the table. */
  lemma WalkAddsNoMeshOrEmptyType(t: Table, item: Item, maxDepth: int, depth: int, ty: string)
    requires ty == MeshType || ty == ""
    requires ty !in t.info
    ensures ty !in RecordAll(t, Visits(item, maxDepth, depth)).info
  {
    var fs := Visits(item, maxDepth, depth);
    VisitsRecordedTypes(item, maxDepth, depth);
    NoInstancesOfUnrecorded(fs, ty);
    RecordAllEntry(t, fs, ty);
  }

  /** Called beyond `max_depth`, the walk leaves the table as it was. */
  lemma WalkBeyondMaxDepth(t: Table, item: Item, maxDepth: int, depth: int)
    requires depth > maxDepth
    ensures RecordAll(t, Visits(item, maxDepth, depth)) == t
  {
  }

  /** An object without a usable `speckle_type` records nothing itself, but its
      `elements` and its public lists are still walked, one level deeper. */
  lemma UntypedObjectWalksChildren(n: Node, maxDepth: int, depth: int)
    requires depth <= maxDepth
    requires n.speckleType.None? || n.speckleType.value == ""
    ensures Visits(ObjectItem(n), maxDepth, depth)
         == ItemsVisits(n.elements, maxDepth, depth + 1) + AttributesVisits(n.attributes, maxDepth, depth + 1)
  {
  }

  /** A recorded object is recorded before its children, with every missing
      attribute of its instance record set to "Unknown". */
  lemma RecordedObjectFirst(n: Node, maxDepth: int, depth: int)
    requires depth <= maxDepth && IsRecorded(n)
    ensures var v := Visits(ObjectItem(n), maxDepth, depth);
      && |v| > 0 && v[0].ifcType == n.speckleType.value
      && (v[0].instance.globalId == if "GlobalId" in n.fields then n.fields["GlobalId"] else Unknown)
      && (v[0].instance.name == if "Name" in n.fields then n.fields["Name"] else Unknown)
      && (v[0].instance.objectType == if "ObjectType" in n.fields then n.fields["ObjectType"] else Unknown)
      && (v[0].instance.tag == if "Tag" in n.fields then n.fields["Tag"] else Unknown)
  {
  }

  /** Scanning two runs of `__dict__` entries records what scanning each records. */
  lemma {:induction false} AttributesVisitsConcat(x: seq<Attribute>, y: seq<Attribute>, maxDepth: int, depth: int)
    ensures AttributesVisits(x + y, maxDepth, depth) == AttributesVisits(x, maxDepth, depth) + AttributesVisits(y, maxDepth, depth)
    decreases |y|
  {
    if y == [] {
      assert x + y == x;
    } else {
      var y', a := y[..|y| - 1], y[|y| - 1];
      assert y == y' + [a];
      assert x + y == (x + y') + [a];
      var vx, vy', va := AttributesVisits(x, maxDepth, depth), AttributesVisits(y', maxDepth, depth), AttributeVisits(a, maxDepth, depth);
      AttributesVisitsAppend(x + y', a, maxDepth, depth);
      AttributesVisitsAppend(y', a, maxDepth, depth);
      AttributesVisitsConcat(x, y', maxDepth, depth);
      assert AttributesVisits(x + y, maxDepth, depth) == (vx + vy') + va;
      assert AttributesVisits(y, maxDepth, depth) == vy' + va;
    }
  }

  /** When `elements` is also a public list entry of `__dict__`, among any other
      entries, the scan of `__dict__` walks it a second time, so its objects are
      recorded twice. */
  lemma ElementsWalkedTwice(n: Node, maxDepth: int, depth: int, before: seq<Attribute>, after: seq<Attribute>)
    requires depth <= maxDepth
    requires n.attributes == before + [Attribute("elements", ListValue(n.elements))] + after
    ensures Visits(ObjectItem(n), maxDepth, depth)
         == Visits(ObjectItem(n.(elements := [], attributes := [])), maxDepth, depth)
            + ItemsVisits(n.elements, maxDepth, depth + 1)
            + AttributesVisits(before, maxDepth, depth + 1)
            + ItemsVisits(n.elements, maxDepth, depth + 1)
            + AttributesVisits(after, maxDepth, depth + 1)
  {
    var d := depth + 1;
    var own := if IsRecorded(n) then [Found(n.speckleType.value, InstanceOf(n))] else [];
    var elements := ItemsVisits(n.elements, maxDepth, d);
    ElementsEntryVisits(before, n.elements, after, maxDepth, d);
    assert Visits(ObjectItem(n), maxDepth, depth) == own + elements + AttributesVisits(n.attributes, maxDepth, d);
    assert Visits(ObjectItem(n.(elements := [], attributes := [])), maxDepth, depth) == own;
  }

  lemma ElementsEntryVisits(before: seq<Attribute>, elements: seq<Item>, after: seq<Attribute>, maxDepth: int, depth: int)
    ensures AttributesVisits(before + [Attribute("elements", ListValue(elements))] + after, maxDepth, depth)
         == AttributesVisits(before, maxDepth, depth) + ItemsVisits(elements, maxDepth, depth) + AttributesVisits(after, maxDepth, depth)
  {
    var a := Attribute("elements", ListValue(elements));
    assert IsPublic(a.name);
    assert AttributeVisits(a, maxDepth, depth) == ItemsVisits(elements, maxDepth, depth);
    AttributesVisitsConcat(before + [a], after, maxDepth, depth);
    AttributesVisitsAppend(before, a, maxDepth, depth);
  }
}
