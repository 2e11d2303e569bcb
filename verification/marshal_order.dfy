/** The order in which the generated Java code marshals and unmarshals an
    operation's parameters: in-parameters from the proxy and in the
    dispatcher (writeMarshalProxyParams and the dispatch method), and the
    out-parameters and return value of a result (writeResultType's write and
    read, writeMarshaledResultType). The generator emits separate write and
    read loops, one writeMarshalUnmarshalCode call per value, that visit the
    values in the same order; each group of such loops is modelled once. */
module MarshalOrder {
  import opened Wrappers

  /** A parameter: its name and, for an optional one, its tag. The parser
      hands the generator the required parameters in declaration order and
      the optional ones ordered by tag. */
  datatype Param = Param(name: string, tag: int)

  /** What an operation returns. */
  datatype Return = NoReturn | RequiredReturn | OptionalReturn(tag: int)

  /** One value marshalled or unmarshalled, with the optional format mode
      the generator passes for it. */
  datatype Item =
    | RequiredParam(name: string)            // OptionalNone
    | RequiredRet                            // the return, OptionalNone
    | OptionalParam(name: string, tag: int)  // OptionalInParam / OptionalOutParam
    | OptionalRet(tag: int)                  // OptionalReturnParam

  predicate IsReturn(i: Item)
  {
    i.RequiredRet? || i.OptionalRet?
  }

  function RequiredItems(ps: seq<Param>): seq<Item>
  {
    seq(|ps|, i requires 0 <= i < |ps| => RequiredParam(ps[i].name))
  }

  function OptionalItems(ps: seq<Param>): seq<Item>
  {
    seq(|ps|, i requires 0 <= i < |ps| => OptionalParam(ps[i].name, ps[i].tag))
  }

  // ---------------------------------------------------------------------
  // The reference order
  // ---------------------------------------------------------------------

  /** The optional parameters with the optional return placed in front of
      the first parameter whose tag is greater than the return's, or last. */
  function WithOptionalReturn(optional: seq<Param>, tag: int): seq<Item>
    decreases |optional|
  {
    if optional == [] then [OptionalRet(tag)]
    else if tag < optional[0].tag then [OptionalRet(tag)] + OptionalItems(optional)
    else [OptionalParam(optional[0].name, optional[0].tag)] + WithOptionalReturn(optional[1..], tag)
  }

  /** The order of a result's values: the required out-parameters, the
      return when it is not optional, then the optional out-parameters with
      an optional return in its tag position. */
  function ResultOrder(required: seq<Param>, optional: seq<Param>, ret: Return): seq<Item>
  {
    RequiredItems(required)
      + ((if ret == RequiredReturn then [RequiredRet] else [])
      + (if ret.OptionalReturn? then WithOptionalReturn(optional, ret.tag) else OptionalItems(optional)))
  }

  /** The first position whose tag is greater than tag, or |optional|. */
  function FirstGreater(optional: seq<Param>, tag: int): (k: nat)
    ensures k <= |optional|
    ensures forall j | 0 <= j < k :: optional[j].tag <= tag
    ensures k < |optional| ==> tag < optional[k].tag
    decreases |optional|
  {
    if optional == [] || tag < optional[0].tag then 0
    else 1 + FirstGreater(optional[1..], tag)
  }

  lemma OptionalItemsCons(ps: seq<Param>)
    requires ps != []
    ensures OptionalItems(ps) == [OptionalParam(ps[0].name, ps[0].tag)] + OptionalItems(ps[1..])
  {
  }

  lemma RequiredItemsCons(ps: seq<Param>)
    requires ps != []
    ensures RequiredItems(ps) == [RequiredParam(ps[0].name)] + RequiredItems(ps[1..])
  {
  }

  /** The optional return sits right before the first optional parameter
      with a greater tag, or after all of them. */
  lemma {:induction false} WithOptionalReturnSplit(optional: seq<Param>, tag: int)
    ensures var k := FirstGreater(optional, tag);
      WithOptionalReturn(optional, tag)
        == OptionalItems(optional[..k]) + [OptionalRet(tag)] + OptionalItems(optional[k..])
    decreases |optional|
  {
    if optional == [] {
      assert optional[..0] == [] && optional[0..] == [];
    } else if tag < optional[0].tag {
      assert optional[..0] == [] && optional[0..] == optional;
    } else {
      var rest := optional[1..];
      var k' := FirstGreater(rest, tag);
      var p := OptionalParam(optional[0].name, optional[0].tag);
      var r := OptionalRet(tag);
      WithOptionalReturnSplit(rest, tag);
      var prefix := optional[..k' + 1];
      assert prefix[0] == optional[0] && prefix[1..] == rest[..k'];
      OptionalItemsCons(prefix);
      assert optional[k' + 1..] == rest[k'..];
      calc {
        WithOptionalReturn(optional, tag);
        [p] + WithOptionalReturn(rest, tag);
        [p] + (OptionalItems(rest[..k']) + [r] + OptionalItems(rest[k'..]));
        ([p] + OptionalItems(rest[..k'])) + [r] + OptionalItems(rest[k'..]);
        OptionalItems(prefix) + [r] + OptionalItems(optional[k' + 1..]);
      }
    }
  }

  /** The values of a result other than the return, in order. */
  function WithoutReturn(items: seq<Item>): (r: seq<Item>)
    ensures |r| <= |items|
  {
    if items == [] then []
    else (if IsReturn(items[0]) then [] else [items[0]]) + WithoutReturn(items[1..])
  }

  /** How often a return value occurs. */
  function ReturnCount(items: seq<Item>): nat
  {
    if items == [] then 0
    else (if IsReturn(items[0]) then 1 else 0) + ReturnCount(items[1..])
  }

  lemma {:induction false} AppendCounts(a: seq<Item>, b: seq<Item>)
    ensures WithoutReturn(a + b) == WithoutReturn(a) + WithoutReturn(b)
    ensures ReturnCount(a + b) == ReturnCount(a) + ReturnCount(b)
    decreases |a|
  {
    if a != [] {
      assert (a + b)[1..] == a[1..] + b;
      AppendCounts(a[1..], b);
    } else {
      assert a + b == b;
    }
  }

  lemma {:induction false} RequiredItemsCounts(ps: seq<Param>)
    ensures WithoutReturn(RequiredItems(ps)) == RequiredItems(ps)
    ensures ReturnCount(RequiredItems(ps)) == 0
    decreases |ps|
  {
    if ps != [] {
      RequiredItemsCons(ps);
      RequiredItemsCounts(ps[1..]);
    }
  }

  lemma {:induction false} OptionalItemsCounts(ps: seq<Param>)
    ensures WithoutReturn(OptionalItems(ps)) == OptionalItems(ps)
    ensures ReturnCount(OptionalItems(ps)) == 0
    decreases |ps|
  {
    if ps != [] {
      OptionalItemsCons(ps);
      OptionalItemsCounts(ps[1..]);
    }
  }

  /** Placing the optional return keeps the optional parameters and their
      order, and adds the return once. */
  lemma {:induction false} WithOptionalReturnCounts(optional: seq<Param>, tag: int)
    ensures WithoutReturn(WithOptionalReturn(optional, tag)) == OptionalItems(optional)
    ensures ReturnCount(WithOptionalReturn(optional, tag)) == 1
    decreases |optional|
  {
    var w := WithOptionalReturn(optional, tag);
    if optional == [] {
      assert w[1..] == [];
    } else if tag < optional[0].tag {
      OptionalItemsCounts(optional);
      assert w[1..] == OptionalItems(optional);
    } else {
      WithOptionalReturnCounts(optional[1..], tag);
      OptionalItemsCons(optional);
      assert w[1..] == WithOptionalReturn(optional[1..], tag);
    }
  }

  /** The values of a result: each parameter once, required before optional,
      each group in the order the parser gives, and the return value exactly
      once when the operation has one. */
  lemma ResultOrderCounts(required: seq<Param>, optional: seq<Param>, ret: Return)
    ensures WithoutReturn(ResultOrder(required, optional, ret)) == RequiredItems(required) + OptionalItems(optional)
    ensures ReturnCount(ResultOrder(required, optional, ret)) == (if ret == NoReturn then 0 else 1)
  {
    var req := RequiredItems(required);
    var mid: seq<Item> := if ret == RequiredReturn then [RequiredRet] else [];
    var opt := if ret.OptionalReturn? then WithOptionalReturn(optional, ret.tag) else OptionalItems(optional);
    assert ResultOrder(required, optional, ret) == req + (mid + opt);
    RequiredItemsCounts(required);
    if ret.OptionalReturn? {
      WithOptionalReturnCounts(optional, ret.tag);
    } else {
      OptionalItemsCounts(optional);
    }
    assert WithoutReturn(mid) == [] && ReturnCount(mid) == (if ret == RequiredReturn then 1 else 0) by {
      if ret == RequiredReturn {
        assert mid[1..] == [];
      }
    }
    AppendCounts(mid, opt);
    AppendCounts(req, mid + opt);
    calc {
      WithoutReturn(req + (mid + opt));
      WithoutReturn(req) + (WithoutReturn(mid) + WithoutReturn(opt));
      req + ([] + OptionalItems(optional));
      { assert [] + OptionalItems(optional) == OptionalItems(optional); }
      req + OptionalItems(optional);
    }
  }

  /** The required out-parameters come first, in declaration order. */
  lemma ResultOrderRequiredFirst(required: seq<Param>, optional: seq<Param>, ret: Return)
    ensures |required| <= |ResultOrder(required, optional, ret)|
    ensures ResultOrder(required, optional, ret)[..|required|] == RequiredItems(required)
  {
  }

  // ---------------------------------------------------------------------
  // The generator's loops
  // ---------------------------------------------------------------------

  /** The loop over the required parameters. */
  method RequiredLoop(required: seq<Param>) returns (order: seq<Item>)
    ensures order == RequiredItems(required)
  {
    order := [];
    for i := 0 to |required|
      invariant order == RequiredItems(required[..i])
    {
      assert RequiredItems(required[..i + 1]) == RequiredItems(required[..i]) + [RequiredParam(required[i].name)];
      order := order + [RequiredParam(required[i].name)];
    }
    assert required[..|required|] == required;
  }

  /** The loop over the optional parameters without a return among them. */
  method OptionalLoop(optional: seq<Param>) returns (order: seq<Item>)
    ensures order == OptionalItems(optional)
  {
    order := [];
    for i := 0 to |optional|
      invariant order == OptionalItems(optional[..i])
    {
      assert OptionalItems(optional[..i + 1]) == OptionalItems(optional[..i]) + [OptionalParam(optional[i].name, optional[i].tag)];
      order := order + [OptionalParam(optional[i].name, optional[i].tag)];
    }
    assert optional[..|optional|] == optional;
  }

  /** What the optional loop has emitted after i parameters, with k the
      position the return went in front of (while it is still pending, k is
      meaningless). */
  ghost predicate OptionalSoFar(optional: seq<Param>, tag: int, i: nat, pending: bool, k: nat, order: seq<Item>)
  {
    i <= |optional|
    && (pending ==> order == OptionalItems(optional[..i]) && forall j | 0 <= j < i :: optional[j].tag <= tag)
    && (!pending ==> k < i && k == FirstGreater(optional, tag)
                     && order == OptionalItems(optional[..k]) + [OptionalRet(tag)] + OptionalItems(optional[k..i]))
  }

  lemma OptionalStepPending(optional: seq<Param>, tag: int, i: nat, k: nat, order: seq<Item>)
    requires i < |optional| && OptionalSoFar(optional, tag, i, true, k, order)
    requires optional[i].tag <= tag
    ensures OptionalSoFar(optional, tag, i + 1, true, k, order + [OptionalParam(optional[i].name, optional[i].tag)])
  {
    assert OptionalItems(optional[..i + 1]) == OptionalItems(optional[..i]) + [OptionalParam(optional[i].name, optional[i].tag)];
  }

  /** When the first parameter with a greater tag is at i. */
  lemma FirstGreaterAt(optional: seq<Param>, tag: int, i: nat)
    requires i < |optional| && tag < optional[i].tag
    requires forall j | 0 <= j < i :: optional[j].tag <= tag
    ensures FirstGreater(optional, tag) == i
  {
  }

  lemma OptionalStepInsert(optional: seq<Param>, tag: int, i: nat, k: nat, order: seq<Item>)
    requires i < |optional| && OptionalSoFar(optional, tag, i, true, k, order)
    requires tag < optional[i].tag
    ensures OptionalSoFar(optional, tag, i + 1, false, i,
      order + [OptionalRet(tag)] + [OptionalParam(optional[i].name, optional[i].tag)])
  {
    FirstGreaterAt(optional, tag, i);
    assert optional[i..i + 1] == [optional[i]];
  }

  lemma OptionalStepDone(optional: seq<Param>, tag: int, i: nat, k: nat, order: seq<Item>)
    requires i < |optional| && OptionalSoFar(optional, tag, i, false, k, order)
    ensures OptionalSoFar(optional, tag, i + 1, false, k, order + [OptionalParam(optional[i].name, optional[i].tag)])
  {
    var p := OptionalParam(optional[i].name, optional[i].tag);
    assert OptionalItems(optional[k..i + 1]) == OptionalItems(optional[k..i]) + [p];
  }

  lemma OptionalFinish(optional: seq<Param>, tag: int, pending: bool, k: nat, order: seq<Item>)
    requires OptionalSoFar(optional, tag, |optional|, pending, k, order)
    ensures (if pending then order + [OptionalRet(tag)] else order) == WithOptionalReturn(optional, tag)
  {
    WithOptionalReturnSplit(optional, tag);
    var n := |optional|;
    assert optional[..n] == optional;
    if pending {
      assert optional[n..] == [];
    } else {
      assert optional[k..n] == optional[k..];
    }
  }

  /** The loop over the optional parameters that, with checkReturnType set,
      handles the optional return in front of the first parameter with a
      greater tag, and after the loop when no parameter had one. */
  method OptionalLoopWithReturn(optional: seq<Param>, tag: int) returns (order: seq<Item>)
    ensures order == WithOptionalReturn(optional, tag)
  {
    ghost var k: nat := 0;
    order := [];
    var checkReturnType := true;
    for i := 0 to |optional|
      invariant OptionalSoFar(optional, tag, i, checkReturnType, k, order)
    {
      if checkReturnType && tag < optional[i].tag {
        OptionalStepInsert(optional, tag, i, k, order);
        order := order + [OptionalRet(tag)];
        k := i;
        checkReturnType := false;
      } else if checkReturnType {
        OptionalStepPending(optional, tag, i, k, order);
      } else {
        OptionalStepDone(optional, tag, i, k, order);
      }
      order := order + [OptionalParam(optional[i].name, optional[i].tag)];
    }
    OptionalFinish(optional, tag, checkReturnType, k, order);
    if checkReturnType {
      order := order + [OptionalRet(tag)];
    }
  }

  /** The values a result's write method writes, its read method reads and
      the MarshaledResult constructor writes, in order. */
  method ResultLoop(required: seq<Param>, optional: seq<Param>, ret: Return) returns (order: seq<Item>)
    ensures order == ResultOrder(required, optional, ret)
  {
    order := RequiredLoop(required);
    var mid: seq<Item> := [];
    if ret == RequiredReturn {
      mid := [RequiredRet];
    }
    var rest;
    if ret.OptionalReturn? {
      rest := OptionalLoopWithReturn(optional, ret.tag);
    } else {
      rest := OptionalLoop(optional);
    }
    order := order + (mid + rest);
  }

  /** The in-parameters the proxy writes and the dispatcher reads: the
      required ones in declaration order, then the optional ones in tag
      order. */
  method InParamLoop(required: seq<Param>, optional: seq<Param>) returns (order: seq<Item>)
    ensures order == RequiredItems(required) + OptionalItems(optional)
  {
    order := RequiredLoop(required);
    var rest := OptionalLoop(optional);
    order := order + rest;
  }
}
