/** `IFCExtractor.extract_ifc_types`: the depth-bounded recursive walk that
    fills the `ifc_types` dictionary in place. The dictionary is an object
    whose two fields, the key order and the entries, the walk updates. */
module Extraction {
  import opened IfcTypes

  /** The `ifc_types` dictionary shared by all recursive calls of one walk. */
  class TypeTable {
    /** The keys in insertion order. */
    var keys: seq<string>
    /** The entry of each key. */
    var info: map<string, TypeInfo>

    function Contents(): Table
      reads this
    {
      Table(keys, info)
    }

    /** `ifc_types = {}`. */
    constructor ()
      ensures Contents() == EmptyTable
    {
      keys, info := [], map[];
    }

    /** Records one instance under `ifcType`: creates the entry first when the
        type is new, then `count += 1` and `instances.append(instance)`. */
    method Add(ifcType: string, instance: Instance)
      modifies this
      ensures Contents() == Record(old(Contents()), Found(ifcType, instance))
    {
      if ifcType !in info {
        keys := keys + [ifcType];
        info := info[ifcType := TypeInfo(0, [])];
      }
      info := info[ifcType := info[ifcType].(count := info[ifcType].count + 1)];
      info := info[ifcType := info[ifcType].(instances := info[ifcType].instances + [instance])];
    }

    /** `extract_ifc_types(data, ifc_types, max_depth, current_depth)`: the table
        ends up as its old contents with everything the walk visits recorded,
        in visiting order. */
    method ExtractIfcTypes(data: Item, maxDepth: int, currentDepth: int)
      modifies this
      ensures Contents() == RecordAll(old(Contents()), Visits(data, maxDepth, currentDepth))
      decreases data, 0
    {
      if currentDepth > maxDepth {
        return;
      }
      if data.PlainItem? {
        return;
      }
      var n := data.node;
      ObjectSteps(old(Contents()), n, maxDepth, currentDepth);
      if n.speckleType.Some? && n.speckleType.value != "" {
        var ifcType := n.speckleType.value;
        if ifcType != MeshType {
          Add(ifcType, InstanceOf(n));
        }
      }
      // the loop over the elements, one level deeper
      ExtractEach(n.elements, maxDepth, currentDepth + 1);
      // the loop over the __dict__ entries, one level deeper
      ExtractLists(n.attributes, maxDepth, currentDepth + 1);
    }

    /** One `for` loop over a list, walking each item at the given depth. The
        `hasattr(item, '__dict__')` guard of the `__dict__` loop is the walk's
        own first test, so both loops of the walk are this one. */
    method ExtractEach(items: seq<Item>, maxDepth: int, depth: int)
      modifies this
      ensures Contents() == RecordAll(old(Contents()), ItemsVisits(items, maxDepth, depth))
      decreases items
    {
      var k := 0;
      while k < |items|
        invariant 0 <= k <= |items|
        invariant Contents() == RecordAll(old(Contents()), ItemsVisits(items[..k], maxDepth, depth))
      {
        ItemsStep(old(Contents()), items, k, maxDepth, depth);
        ExtractIfcTypes(items[k], maxDepth, depth);
        k := k + 1;
      }
      assert items[..k] == items;
    }

    /** The loop over `data.__dict__.items()`: every list held under a name
        that does not start with `_` is walked item by item. */
    method ExtractLists(attributes: seq<Attribute>, maxDepth: int, depth: int)
      modifies this
      ensures Contents() == RecordAll(old(Contents()), AttributesVisits(attributes, maxDepth, depth))
      decreases attributes
    {
      var j := 0;
      while j < |attributes|
        invariant 0 <= j <= |attributes|
        invariant Contents() == RecordAll(old(Contents()), AttributesVisits(attributes[..j], maxDepth, depth))
      {
        AttributesStep(old(Contents()), attributes, j, maxDepth, depth);
        var attribute := attributes[j];
        if IsPublic(attribute.name) && attribute.value.ListValue? {
          assert AttributeVisits(attribute, maxDepth, depth) == ItemsVisits(attribute.value.items, maxDepth, depth);
          ExtractEach(attribute.value.items, maxDepth, depth);
        } else {
          assert AttributeVisits(attribute, maxDepth, depth) == [];
        }
        j := j + 1;
      }
      assert attributes[..j] == attributes;
    }
  }

  /** `extract_ifc_types(data)` with its defaults: a fresh table, `max_depth`
      10, depth 0. */
  method ExtractAll(data: Item) returns (table: TypeTable)
    ensures fresh(table)
    ensures table.Contents() == RecordAll(EmptyTable, Visits(data, DefaultMaxDepth, 0))
  {
    table := new TypeTable();
    table.ExtractIfcTypes(data, DefaultMaxDepth, 0);
  }
}
