/** What the Java generator builds for dispatching on a servant
    (writeDispatch and the ice_ids table): the sorted operation table, the
    binary-search dispatch over it, the table of operation attributes, and
    the sorted list of type ids an object answers ice_ids with. */
module Dispatch {
  import opened Text
  import opened Wrappers
  import opened StringLists

  /** An operation of the interface or of one of its bases: its name, the
      scoped name of the interface that defines it, and its attributes
      (0 when it has none). */
  datatype Operation = Operation(name: string, owner: string, attributes: int)

  /** The operations every object has. */
  const PseudoOps: seq<string> := ["ice_id", "ice_ids", "ice_isA", "ice_ping"]

  /** The type id every object has. */
  const ObjectId: string := "::Ice::Object"

  function Names(ops: seq<Operation>): (r: seq<string>)
    ensures |r| == |ops|
    ensures forall i | 0 <= i < |ops| :: r[i] == ops[i].name
  {
    seq(|ops|, i requires 0 <= i < |ops| => ops[i].name)
  }

  // ---------------------------------------------------------------------
  // The __ops table
  // ---------------------------------------------------------------------

  /** allOpNames: the names of all operations and the four pseudo
      operations, sorted, duplicates removed. This is the __ops array the
      generated code searches. */
  method OpTable(allOps: seq<Operation>) returns (table: seq<string>)
    ensures StrictlySorted(table)
    ensures forall x :: x in table <==> x in PseudoOps || x in Names(allOps)
    ensures table == Unique(Sort(Names(allOps) + PseudoOps))
  {
    var allOpNames := Names(allOps);
    allOpNames := allOpNames + ["ice_id"];
    allOpNames := allOpNames + ["ice_ids"];
    allOpNames := allOpNames + ["ice_isA"];
    allOpNames := allOpNames + ["ice_ping"];
    assert allOpNames == Names(allOps) + PseudoOps;
    allOpNames := Sort(allOpNames);
    table := UniqueList(allOpNames);
    SortUnique(Names(allOps) + PseudoOps);
  }

  // ---------------------------------------------------------------------
  // The binary search the generated code calls
  // ---------------------------------------------------------------------

  /** Below position lo every entry is less than key, above hi every entry
      is greater; a comparison at mid moves one bound past mid. */
  lemma RaiseLow(a: seq<string>, key: string, lo: nat, mid: nat)
    requires lo <= mid < |a| && StrictlySorted(a)
    requires forall i | 0 <= i < lo :: Less(a[i], key)
    requires Less(a[mid], key)
    ensures forall i | 0 <= i < mid + 1 :: Less(a[i], key)
  {
    forall i | 0 <= i < mid + 1 ensures Less(a[i], key) {
      if i < mid && i >= lo {
        LessTransitive(a[i], a[mid], key);
      }
    }
  }

  lemma LowerHigh(a: seq<string>, key: string, hi: int, mid: nat)
    requires mid <= hi < |a| && StrictlySorted(a)
    requires forall i | hi < i < |a| :: Less(key, a[i])
    requires Less(key, a[mid])
    ensures forall i | mid - 1 < i < |a| :: Less(key, a[i])
  {
    forall i | mid - 1 < i < |a| ensures Less(key, a[i]) {
      if i > mid && i <= hi {
        LessTransitive(key, a[mid], a[i]);
      }
    }
  }

  /** A key strictly between the entries before p and those from p on is
      none of them. */
  lemma Absent(a: seq<string>, key: string, p: nat)
    requires p <= |a|
    requires forall i | 0 <= i < p :: Less(a[i], key)
    requires forall i | p <= i < |a| :: Less(key, a[i])
    ensures key !in a
  {
    if key in a {
      var i :| 0 <= i < |a| && a[i] == key;
      LessIrreflexive(key);
    }
  }

  /** In a strictly sorted table a name has at most one position. */
  lemma SortedPosition(a: seq<string>, i: nat, j: nat)
    requires StrictlySorted(a) && i < |a| && j < |a| && a[i] == a[j]
    ensures i == j
  {
    LessIrreflexive(a[i]);
  }

  /** java.util.Arrays.binarySearch over a sorted array: the position of key
      when it is there; otherwise -(p + 1) where p is the position key would
      be inserted at, every entry before p being less and every entry from p
      on greater. */
  method JavaBinarySearch(a: seq<string>, key: string) returns (r: int)
    requires StrictlySorted(a)
    ensures 0 <= r ==> r < |a| && a[r] == key
    ensures r < 0 ==> key !in a
    ensures r < 0 ==> -(r + 1) <= |a|
    ensures r < 0 ==> forall i | 0 <= i < -(r + 1) :: Less(a[i], key)
    ensures r < 0 ==> forall i | -(r + 1) <= i < |a| :: Less(key, a[i])
  {
    var low: int, high: int := 0, |a| - 1;
    while low <= high
      invariant 0 <= low <= high + 1 <= |a|
      invariant forall i | 0 <= i < low :: Less(a[i], key)
      invariant forall i | high < i < |a| :: Less(key, a[i])
    {
      var mid := (low + high) / 2;
      if Less(a[mid], key) {
        RaiseLow(a, key, low, mid);
        low := mid + 1;
      } else if Less(key, a[mid]) {
        LowerHigh(a, key, high, mid);
        high := mid - 1;
      } else {
        LessTotal(a[mid], key);
        return mid;
      }
    }
    Absent(a, key, low);
    r := -(low + 1);
  }

  // ---------------------------------------------------------------------
  // __dispatch
  // ---------------------------------------------------------------------

  /** Where a request ends up. */
  datatype Target =
    | ObjectOperation(name: string)         // com.zeroc.Ice.Object's handler
    | OwnOperation(name: string)            // this interface's ___name
    | BaseOperation(owner: string, name: string)  // the defining base's ___name
    | OperationNotExist                     // OperationNotExistException

  /** The first operation called name, at or after from. */
  function FindOperation(ops: seq<Operation>, name: string, from: nat): (r: Option<nat>)
    ensures r.Some? ==> from <= r.value < |ops| && ops[r.value].name == name
    ensures r.Some? ==> forall k | from <= k < r.value :: ops[k].name != name
    ensures r.None? ==> forall k | from <= k < |ops| :: ops[k].name != name
    decreases |ops| - from
  {
    if from >= |ops| then None
    else if ops[from].name == name then Some(from)
    else FindOperation(ops, name, from + 1)
  }

  /** The body of one case of the switch: the pseudo operations go to
      Object's handlers; any other name to the first operation of that name,
      called on this interface when it defines it and on the defining base
      otherwise. */
  function CaseTarget(allOps: seq<Operation>, self: string, name: string): (t: Target)
    requires name in PseudoOps || name in Names(allOps)
    ensures t != OperationNotExist
    ensures t.name == name
    ensures t.ObjectOperation? <==> name in PseudoOps
  {
    if name == "ice_id" then ObjectOperation(name)
    else if name == "ice_ids" then ObjectOperation(name)
    else if name == "ice_isA" then ObjectOperation(name)
    else if name == "ice_ping" then ObjectOperation(name)
    else
      match FindOperation(allOps, name, 0)
      case Some(k) =>
        if allOps[k].owner == self then OwnOperation(name) else BaseOperation(allOps[k].owner, name)
      case None =>
        assert false;
        OperationNotExist
  }

  /** __dispatch: binary search for the requested operation in the table;
      a miss raises OperationNotExistException, a hit at position pos runs
      case pos, which handles table[pos], the requested operation itself. */
  method DispatchRequest(table: seq<string>, allOps: seq<Operation>, self: string, operation: string)
    returns (t: Target)
    requires StrictlySorted(table)
    requires forall x | x in table :: x in PseudoOps || x in Names(allOps)
    ensures t == OperationNotExist <==> operation !in table
    ensures operation in table ==> t == CaseTarget(allOps, self, operation)
  {
    var pos := JavaBinarySearch(table, operation);
    if pos < 0 {
      return OperationNotExist;
    }
    t := CaseTarget(allOps, self, table[pos]);
  }

  /** Every operation of the interface and its bases, and every pseudo
      operation, is dispatched to a handler of its own name; any other
      name is refused. */
  lemma DispatchCovers(allOps: seq<Operation>, self: string, operation: string)
    ensures var table := Unique(Sort(Names(allOps) + PseudoOps));
      StrictlySorted(table)
      && (operation in table <==> operation in PseudoOps || operation in Names(allOps))
  {
    SortUnique(Names(allOps) + PseudoOps);
  }

  /** A request end to end: the generated __ops table, then __dispatch over
      it. Exactly the operations of the interface and its bases and the
      pseudo operations are served, each by the case for its own name. */
  method DispatchOperation(allOps: seq<Operation>, self: string, operation: string)
    returns (t: Target)
    ensures t == OperationNotExist <==> !(operation in PseudoOps || operation in Names(allOps))
    ensures operation in PseudoOps || operation in Names(allOps) ==>
      t == CaseTarget(allOps, self, operation)
  {
    var table := OpTable(allOps);
    t := DispatchRequest(table, allOps, self, operation);
  }

  // ---------------------------------------------------------------------
  // ice_operationAttributes
  // ---------------------------------------------------------------------

  /** attributesMap: the attributes of each operation that has any, by name.
      map::insert does not replace an entry, so of two operations with the
      same name the earlier one counts. */
  function AttributesOf(ops: seq<Operation>): map<string, int>
    decreases |ops|
  {
    if ops == [] then map[]
    else
      var m := AttributesOf(ops[..|ops| - 1]);
      var op := ops[|ops| - 1];
      if op.attributes != 0 && op.name !in m then m[op.name := op.attributes] else m
  }

  /** The loop that fills attributesMap. */
  method AttributesMap(allOps: seq<Operation>) returns (m: map<string, int>)
    ensures m == AttributesOf(allOps)
  {
    m := map[];
    var r := 0;
    while r < |allOps|
      invariant r <= |allOps|
      invariant m == AttributesOf(allOps[..r])
    {
      assert allOps[..r + 1][..r] == allOps[..r];
      var attributes := allOps[r].attributes;
      if attributes != 0 && allOps[r].name !in m {
        m := m[allOps[r].name := attributes];
      }
      r := r + 1;
    }
    assert allOps[..r] == allOps;
  }

  /** An operation with attributes is in the map; the map holds the
      attributes of the first such operation of that name. */
  lemma {:induction false} AttributesOfFirst(ops: seq<Operation>, name: string)
    ensures name in AttributesOf(ops) <==>
      exists i | 0 <= i < |ops| :: ops[i].name == name && ops[i].attributes != 0
    ensures name in AttributesOf(ops) ==>
      exists i | 0 <= i < |ops| :: ops[i].name == name && ops[i].attributes == AttributesOf(ops)[name]
        && ops[i].attributes != 0
        && forall k | 0 <= k < i :: !(ops[k].name == name && ops[k].attributes != 0)
    decreases |ops|
  {
    if ops != [] {
      var init := ops[..|ops| - 1];
      var last := ops[|ops| - 1];
      AttributesOfFirst(init, name);
      assert forall i | 0 <= i < |init| :: init[i] == ops[i];
      if name in AttributesOf(init) {
        var i :| 0 <= i < |init| && init[i].name == name && init[i].attributes == AttributesOf(init)[name]
          && init[i].attributes != 0
          && forall k | 0 <= k < i :: !(init[k].name == name && init[k].attributes != 0);
        assert ops[i] == init[i];
      } else if last.name == name && last.attributes != 0 {
        var i := |ops| - 1;
        assert ops[i].name == name && ops[i].attributes == AttributesOf(ops)[name];
        assert forall k | 0 <= k < i :: !(ops[k].name == name && ops[k].attributes != 0);
      }
    }
  }

  /** __operationAttributes: one entry per name of the table, the
      operation's attributes, or 0 for one without. */
  method AttributesTable(table: seq<string>, m: map<string, int>) returns (attrs: seq<int>)
    ensures |attrs| == |table|
    ensures forall i | 0 <= i < |table| :: attrs[i] == if table[i] in m then m[table[i]] else 0
  {
    attrs := [];
    var q := 0;
    while q < |table|
      invariant q <= |table| && |attrs| == q
      invariant forall i | 0 <= i < q :: attrs[i] == if table[i] in m then m[table[i]] else 0
    {
      var attributes := 0;
      if table[q] in m {
        attributes := m[table[q]];
      }
      attrs := attrs + [attributes];
      q := q + 1;
    }
  }

  /** ice_operationAttributes: -1 for a name not in the table, otherwise
      the entry at its position. */
  method OperationAttributes(table: seq<string>, attrs: seq<int>, operation: string) returns (r: int)
    requires StrictlySorted(table) && |attrs| == |table|
    ensures operation !in table ==> r == -1
    ensures forall i | 0 <= i < |table| && table[i] == operation :: r == attrs[i]
  {
    var pos := JavaBinarySearch(table, operation);
    if pos < 0 {
      return -1;
    }
    r := attrs[pos];
    forall i | 0 <= i < |table| && table[i] == operation ensures i == pos {
      SortedPosition(table, i, pos);
    }
  }

  /** The tables built by the generator, searched by the generated code: a
      name that is no operation gets -1, an operation the attributes of
      the first operation of that name that has any, or 0. */
  method IceOperationAttributes(allOps: seq<Operation>, operation: string) returns (r: int)
    ensures !(operation in PseudoOps || operation in Names(allOps)) ==> r == -1
    ensures operation in PseudoOps || operation in Names(allOps) ==>
      r == if operation in AttributesOf(allOps) then AttributesOf(allOps)[operation] else 0
  {
    var table := OpTable(allOps);
    var m := AttributesMap(allOps);
    var attrs := AttributesTable(table, m);
    r := OperationAttributes(table, attrs, operation);
    if operation in table {
      var i :| 0 <= i < |table| && table[i] == operation;
    }
  }

  // ---------------------------------------------------------------------
  // ice_ids
  // ---------------------------------------------------------------------

  /** The ids list: the scoped ids of all bases (sorted, as merge requires),
      merged with the sorted pair of the type's own id and ::Ice::Object,
      duplicates removed. The result is sorted without duplicates, holds
      both ids (the source asserts it holds its own) and every base id. */
  method IceIds(scoped: string, baseIds: seq<string>) returns (ids: seq<string>)
    requires Sorted(baseIds)
    ensures StrictlySorted(ids)
    ensures scoped in ids && ObjectId in ids
    ensures forall x :: x in ids <==> x in baseIds || x == scoped || x == ObjectId
  {
    var other := [scoped, ObjectId];
    other := Sort(other);
    SortedIsAdjacentOrdered(baseIds);
    ids := MergeLists(baseIds, other);
    MergeUnique(baseIds, other);
    ids := UniqueList(ids);
    assert forall x :: x in other <==> x in multiset(other);
    assert forall x :: x in multiset([scoped, ObjectId]) <==> x == scoped || x == ObjectId;
  }
}
