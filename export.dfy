/**
 * What `CHash::CopyHashToArray` produces from a sweep of the table. The value
 * type's own operations are outside the table: `GetNumRecordsToCopy` is a
 * function `count` of the value, and the pointer that `GetArrayCopy` returns
 * for a value `v` is written `ArrayCopy(v)`.
 */
module Export {
  import opened Buckets

  /** One cell of the exported pointer array. */
  datatype Entry<V> =
    | Unwritten           // a cell the sweep does not reach (zero-filled by the allocator)
    | ValuePointer(v: V)  // shallow export: the value pointer itself
    | ArrayCopy(v: V)     // deep export: what `GetArrayCopy` returned for the value

  /** Every node of `order` is stored and holds a value (the sweep dereferences it). */
  predicate Filled<V>(order: seq<NodeId>, values: seq<Option<V>>)
  {
    forall m :: 0 <= m < |order| ==> order[m] < |values| && values[order[m]].Some?
  }

  /** The sum of `GetNumRecordsToCopy` over the values met in `order` (the first sweep). */
  function RecordsToCopy<V>(order: seq<NodeId>, values: seq<Option<V>>, count: V -> nat): nat
    requires Filled(order, values)
  {
    if order == [] then 0
    else RecordsToCopy(order[..|order| - 1], values, count) + count(values[order[|order| - 1]].value)
  }

  /** The cell the second sweep writes for value `v`. */
  function EntryFor<V>(v: V, deep: bool): Entry<V>
  {
    if deep then ArrayCopy(v) else ValuePointer(v)
  }

  /** The cells the second sweep writes, in sweep order: one per value with a nonzero count. */
  function Exported<V>(order: seq<NodeId>, values: seq<Option<V>>, count: V -> nat, deep: bool): seq<Entry<V>>
    requires Filled(order, values)
  {
    if order == [] then []
    else
      var v := values[order[|order| - 1]].value;
      Exported(order[..|order| - 1], values, count, deep) + (if count(v) == 0 then [] else [EntryFor(v, deep)])
  }

  /** Sweeping one more node extends both sweeps' results by that node's contribution. */
  lemma ExportStep<V>(order: seq<NodeId>, x: NodeId, values: seq<Option<V>>, count: V -> nat, deep: bool)
    requires Filled(order, values) && x < |values| && values[x].Some?
    ensures Filled(order + [x], values)
    ensures RecordsToCopy(order + [x], values, count) == RecordsToCopy(order, values, count) + count(values[x].value)
    ensures Exported(order + [x], values, count, deep)
         == Exported(order, values, count, deep) + (if count(values[x].value) == 0 then [] else [EntryFor(values[x].value, deep)])
  {
    assert (order + [x])[..|order|] == order;
  }

  /** A longer sweep never has fewer records to copy. */
  lemma {:induction false} RecordsToCopyGrows<V>(s: seq<NodeId>, t: seq<NodeId>, values: seq<Option<V>>, count: V -> nat)
    requires Filled(t, values) && s <= t
    ensures Filled(s, values)
    ensures RecordsToCopy(s, values, count) <= RecordsToCopy(t, values, count)
  {
    if |s| < |t| {
      var init := t[..|t| - 1];
      assert Filled(init, values) by {
        forall m | 0 <= m < |init| ensures init[m] < |values| && values[init[m]].Some? {
          assert init[m] == t[m];
        }
      }
      assert s <= init by {
        assert forall m :: 0 <= m < |s| ==> s[m] == t[m] == init[m];
      }
      RecordsToCopyGrows(s, init, values, count);
    } else {
      assert s == t;
    }
  }

  /** The records to copy of two sweeps, one after the other, add up. */
  lemma {:induction false} RecordsToCopyConcat<V>(a: seq<NodeId>, b: seq<NodeId>, values: seq<Option<V>>, count: V -> nat)
    requires Filled(a + b, values)
    ensures Filled(a, values) && Filled(b, values)
    ensures RecordsToCopy(a + b, values, count) == RecordsToCopy(a, values, count) + RecordsToCopy(b, values, count)
    decreases |b|
  {
    assert forall m :: 0 <= m < |a| ==> (a + b)[m] == a[m];
    assert forall m :: 0 <= m < |b| ==> (a + b)[|a| + m] == b[m];
    if b != [] {
      var init := b[..|b| - 1];
      assert (a + b)[..|a + b| - 1] == a + init;
      assert forall m :: 0 <= m < |a + init| ==> (a + init)[m] == (a + b)[m];
      RecordsToCopyConcat(a, init, values, count);
    } else {
      assert a + b == a;
    }
  }

  /**
   * The cells written never outnumber the array allocated for them, and there
   * is nothing to write exactly when the total count is zero.
   */
  lemma {:induction false} ExportFits<V>(order: seq<NodeId>, values: seq<Option<V>>, count: V -> nat, deep: bool)
    requires Filled(order, values)
    ensures |Exported(order, values, count, deep)| <= RecordsToCopy(order, values, count)
    ensures Exported(order, values, count, deep) == [] <==> RecordsToCopy(order, values, count) == 0
  {
    if order != [] {
      ExportFits(order[..|order| - 1], values, count, deep);
    }
  }

  /**
   * Within a sweep `all`, meeting node `x` after `swept` adds that node's cell
   * (if any) to the cells written, and the cells written still fit in an
   * array sized by the total count of `all`.
   */
  lemma ExportRoom<V>(swept: seq<NodeId>, x: NodeId, all: seq<NodeId>, values: seq<Option<V>>, count: V -> nat, deep: bool)
    requires Filled(all, values) && swept + [x] <= all
    ensures Filled(swept, values) && x < |values| && values[x].Some?
    ensures Exported(swept + [x], values, count, deep)
         == Exported(swept, values, count, deep) + (if count(values[x].value) == 0 then [] else [EntryFor(values[x].value, deep)])
    ensures |Exported(swept + [x], values, count, deep)| <= RecordsToCopy(all, values, count)
  {
    RecordsToCopyGrows(swept + [x], all, values, count);
    assert (swept + [x])[|swept|] == x;
    assert Filled(swept, values) by {
      forall m | 0 <= m < |swept| ensures swept[m] < |values| && values[swept[m]].Some? {
        assert (swept + [x])[m] == swept[m];
      }
    }
    ExportStep(swept, x, values, count, deep);
    ExportFits(swept + [x], values, count, deep);
  }

  /**
   * The array `cells` holds, in its first `index` cells, the export of the
   * sweep `swept`, and nothing after them.
   */
  ghost predicate Written<V>(cells: seq<Entry<V>>, index: nat, swept: seq<NodeId>, values: seq<Option<V>>, count: V -> nat, deep: bool)
  {
    && Filled(swept, values)
    && index == |Exported(swept, values, count, deep)| <= |cells|
    && cells[..index] == Exported(swept, values, count, deep)
    && forall k :: index <= k < |cells| ==> cells[k] == Unwritten
  }

  /**
   * One step of the second sweep of `CopyHashToArray`: meeting node `x` writes
   * its cell at `index` when its value has a nonzero count, and the array,
   * sized by the total count of the whole sweep `all`, always has room for it.
   */
  lemma WriteStep<V>(cells: seq<Entry<V>>, index: nat, swept: seq<NodeId>, x: NodeId, all: seq<NodeId>,
                     values: seq<Option<V>>, count: V -> nat, deep: bool)
    requires Written(cells, index, swept, values, count, deep)
    requires Filled(all, values) && swept + [x] <= all && |cells| == RecordsToCopy(all, values, count)
    ensures x < |values| && values[x].Some?
    ensures count(values[x].value) == 0 ==> Written(cells, index, swept + [x], values, count, deep)
    ensures count(values[x].value) != 0 ==>
              index < |cells| && Written(cells[index := EntryFor(values[x].value, deep)], index + 1, swept + [x], values, count, deep)
  {
    ExportRoom(swept, x, all, values, count, deep);
    if count(values[x].value) != 0 {
      var cells' := cells[index := EntryFor(values[x].value, deep)];
      assert cells'[..index + 1] == cells[..index] + [EntryFor(values[x].value, deep)];
    }
  }

  /**
   * Each exported cell comes from a node of the sweep whose value has a
   * nonzero count, and each such node's value is exported, in both modes.
   */
  lemma {:induction false} ExportedExactly<V>(order: seq<NodeId>, values: seq<Option<V>>, count: V -> nat, deep: bool)
    requires Filled(order, values)
    ensures forall e :: e in Exported(order, values, count, deep) ==>
              exists m :: 0 <= m < |order| && count(values[order[m]].value) != 0 && e == EntryFor(values[order[m]].value, deep)
    ensures forall m :: 0 <= m < |order| && count(values[order[m]].value) != 0 ==>
              EntryFor(values[order[m]].value, deep) in Exported(order, values, count, deep)
  {
    if order != [] {
      var init := order[..|order| - 1];
      ExportedExactly(init, values, count, deep);
      forall e | e in Exported(order, values, count, deep)
        ensures exists m :: 0 <= m < |order| && count(values[order[m]].value) != 0 && e == EntryFor(values[order[m]].value, deep)
      {
        if e in Exported(init, values, count, deep) {
          var m :| 0 <= m < |init| && count(values[init[m]].value) != 0 && e == EntryFor(values[init[m]].value, deep);
          assert init[m] == order[m];
        } else {
          assert e == EntryFor(values[order[|order| - 1]].value, deep);
        }
      }
      forall m | 0 <= m < |order| && count(values[order[m]].value) != 0
        ensures EntryFor(values[order[m]].value, deep) in Exported(order, values, count, deep)
      {
        if m < |init| {
          assert init[m] == order[m];
        }
      }
    }
  }

  /** A deep export writes, cell for cell, the copies of the values a shallow export points to. */
  lemma {:induction false} DeepMirrorsShallow<V>(order: seq<NodeId>, values: seq<Option<V>>, count: V -> nat)
    requires Filled(order, values)
    ensures |Exported(order, values, count, true)| == |Exported(order, values, count, false)|
    ensures forall k :: 0 <= k < |Exported(order, values, count, false)| ==>
              Exported(order, values, count, false)[k].ValuePointer?
              && Exported(order, values, count, true)[k] == ArrayCopy(Exported(order, values, count, false)[k].v)
  {
    if order != [] {
      DeepMirrorsShallow(order[..|order| - 1], values, count);
    }
  }
}
