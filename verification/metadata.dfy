/** The generator's reading of Slice metadata: finding a directive by
    prefix (findMetaData), splitting "java:type:instance[:formal]"
    (getTypeMetaData), and the metadata visitor that keeps the Java
    directives it understands and warns about each invalid one only once. */
module Metadata {
  import opened Wrappers
  import opened Text

  // ---------------------------------------------------------------------
  // findMetaData
  // ---------------------------------------------------------------------

  /** The position of the first entry of list at or after from that starts
      with prefix. */
  function PrefixIndex(prefix: string, list: seq<string>, from: nat): (r: Option<nat>)
    ensures r.Some? ==> from <= r.value < |list| && StartsWith(list[r.value], prefix)
    ensures r.Some? ==> forall j | from <= j < r.value :: !StartsWith(list[j], prefix)
    ensures r.None? ==> forall j | from <= j < |list| :: !StartsWith(list[j], prefix)
    decreases |list| - from
  {
    if from >= |list| then None
    else if StartsWith(list[from], prefix) then Some(from)
    else PrefixIndex(prefix, list, from + 1)
  }

  /** The first entry that starts with prefix, if any. */
  function FirstWithPrefix(prefix: string, list: seq<string>): Option<string>
  {
    match PrefixIndex(prefix, list, 0)
    case None => None
    case Some(i) => Some(list[i])
  }

  /** findMetaData: scans the list front to back and stops at the first
      entry that starts with prefix. */
  method FindMetaData(prefix: string, metaData: seq<string>) returns (value: Option<string>)
    ensures value.Some? ==> exists i | 0 <= i < |metaData| ::
      metaData[i] == value.value && StartsWith(metaData[i], prefix) &&
      forall j | 0 <= j < i :: !StartsWith(metaData[j], prefix)
    ensures value.None? <==> forall j | 0 <= j < |metaData| :: !StartsWith(metaData[j], prefix)
    ensures value == FirstWithPrefix(prefix, metaData)
  {
    var q := 0;
    while q < |metaData|
      invariant q <= |metaData|
      invariant PrefixIndex(prefix, metaData, q) == PrefixIndex(prefix, metaData, 0)
    {
      if StartsWith(metaData[q], prefix) {
        value := Some(metaData[q]);
        return;
      }
      q := q + 1;
    }
    value := None;
  }

  // ---------------------------------------------------------------------
  // getTypeMetaData
  // ---------------------------------------------------------------------

  const TypePrefix: string := "java:type:"

  /** getTypeMetaData: the instance type and the formal type named by the
      first "java:type:" directive. Without a second ':' the formal type is
      empty; the instance type never holds a ':'. */
  function TypeMetaData(metaData: seq<string>): (r: Option<(string, string)>)
    ensures r.Some? <==> exists i | 0 <= i < |metaData| :: StartsWith(metaData[i], TypePrefix)
    ensures r.Some? ==> Lacks(r.value.0, ':')
    ensures r.Some? ==> var d := FirstWithPrefix(TypePrefix, metaData).value;
      d == TypePrefix + r.value.0 + ":" + r.value.1 || (r.value.1 == "" && d == TypePrefix + r.value.0)
  {
    match FirstWithPrefix(TypePrefix, metaData)
    case None => None
    case Some(d) =>
      var n := |TypePrefix|;
      match FindFirstOf(d, {':'}, n)
      case Some(pos) =>
        assert d == d[..n] + d[n..pos] + ":" + d[pos + 1..];
        Some((d[n..pos], d[pos + 1..]))
      case None =>
        assert d == d[..n] + d[n..];
        Some((d[n..], ""))
  }

  /** A directive with a formal type is split back into the two types. */
  lemma TypeMetaDataWithFormal(instance: string, formal: string, rest: seq<string>)
    requires Lacks(instance, ':')
    ensures TypeMetaData([TypePrefix + instance + ":" + formal] + rest) == Some((instance, formal))
  {
    var d := TypePrefix + instance + ":" + formal;
    var n := |TypePrefix|;
    assert StartsWith(d, TypePrefix) by {
      assert d[..n] == TypePrefix;
    }
    assert PrefixIndex(TypePrefix, [d] + rest, 0) == Some(0);
    forall k | n <= k < n + |instance| ensures d[k] !in {':'} {
      assert d[k] == instance[k - n];
    }
    assert d[n + |instance|] == ':';
    FindFirstOfAt(d, {':'}, n, n + |instance|);
    assert d[n..n + |instance|] == instance;
    assert d[n + |instance| + 1..] == formal;
  }

  /** A directive without a formal type gives the instance type and an empty
      formal type. */
  lemma TypeMetaDataWithoutFormal(instance: string, rest: seq<string>)
    requires Lacks(instance, ':')
    ensures TypeMetaData([TypePrefix + instance] + rest) == Some((instance, ""))
  {
    var d := TypePrefix + instance;
    var n := |TypePrefix|;
    assert StartsWith(d, TypePrefix) by {
      assert d[..n] == TypePrefix;
    }
    assert PrefixIndex(TypePrefix, [d] + rest, 0) == Some(0);
    forall k | n <= k < |d| ensures d[k] !in {':'} {
      assert d[k] == instance[k - n];
    }
    FindFirstOfNone(d, {':'}, n);
    assert d[n..] == instance;
  }

  // ---------------------------------------------------------------------
  // MetaDataVisitor::getMetaData
  // ---------------------------------------------------------------------

  const JavaPrefix: string := "java:"

  /** What getMetaData does with one entry it has not met before. */
  datatype Verdict =
    | Keep    // a Java directive it understands, or "delegate": returned
    | Warn    // an invalid Java directive: warned about and remembered
    | Quiet   // metadata for another language: remembered, no warning
    | Drop    // "java:" and a word other than getset or buffer: ignored, not remembered

  /** The directives with a second ':' that getMetaData understands. */
  predicate KnownDirective(word: string)
  {
    word == "type" || word == "serializable" || word == "protobuf" || word == "serialVersionUID"
  }

  function Classify(s: string): Verdict
  {
    if StartsWith(s, JavaPrefix) then
      match FindFirstOf(s, {':'}, |JavaPrefix|)
      case None =>
        if |s| > |JavaPrefix| then
          (if s[|JavaPrefix|..] == "getset" || s[|JavaPrefix|..] == "buffer" then Keep else Drop)
        else Warn
      case Some(pos) =>
        if KnownDirective(s[|JavaPrefix|..pos]) then Keep else Warn
    else if s == "delegate" then Keep
    else Quiet
  }

  /** What getMetaData returns, the warnings it emits and the history it
      leaves behind. */
  datatype Outcome = Outcome(result: seq<string>, warnings: seq<string>, history: set<string>)

  /** getMetaData on a list, from a history: entries already in the history
      are passed over, the others are classified one by one. */
  function Filter(history: set<string>, list: seq<string>): (o: Outcome)
    ensures history <= o.history
    decreases |list|
  {
    if list == [] then Outcome([], [], history)
    else
      var o := Filter(history, list[..|list| - 1]);
      var s := list[|list| - 1];
      if s in o.history then o
      else
        match Classify(s)
        case Keep => Outcome(o.result + [s], o.warnings, o.history)
        case Warn => Outcome(o.result, o.warnings + [s], o.history + {s})
        case Quiet => Outcome(o.result, o.warnings, o.history + {s})
        case Drop => o
  }

  /** No string occurs twice in the list. */
  ghost predicate Distinct(list: seq<string>)
  {
    forall i, j | 0 <= i < j < |list| :: list[i] != list[j]
  }

  /** Each warning is about an invalid entry of the list that was not in the
      history; warnings are never repeated, and each one is remembered. */
  lemma {:induction false} FilterWarnsOnce(history: set<string>, list: seq<string>)
    ensures var o := Filter(history, list);
      Distinct(o.warnings) &&
      (forall i | 0 <= i < |o.warnings| :: o.warnings[i] in list && Classify(o.warnings[i]) == Warn) &&
      (forall i | 0 <= i < |o.warnings| :: o.warnings[i] !in history && o.warnings[i] in o.history)
    decreases |list|
  {
    if list != [] {
      var init := list[..|list| - 1];
      FilterWarnsOnce(history, init);
      var o := Filter(history, init);
      var s := list[|list| - 1];
      forall i | 0 <= i < |o.warnings| ensures o.warnings[i] in list {
        assert o.warnings[i] in init;
      }
      if s !in o.history && Classify(s) == Warn {
        assert Filter(history, list).warnings == o.warnings + [s];
      }
    }
  }

  /** Everything returned is an entry of the list that getMetaData keeps. */
  lemma {:induction false} FilterKeeps(history: set<string>, list: seq<string>)
    ensures var o := Filter(history, list);
      forall i | 0 <= i < |o.result| :: o.result[i] in list && o.result[i] !in history && Classify(o.result[i]) == Keep
    decreases |list|
  {
    if list != [] {
      var init := list[..|list| - 1];
      FilterKeeps(history, init);
      var o := Filter(history, init);
      assert var o2 := Filter(history, init);
        forall i | 0 <= i < |o2.result| :: o2.result[i] in init && o2.result[i] !in history && Classify(o2.result[i]) == Keep;
      var s := list[|list| - 1];
      var r := Filter(history, list).result;
      assert list == init + [s];
      if s !in o.history && Classify(s) == Keep {
        assert r == o.result + [s];
      } else {
        assert r == o.result;
      }
      forall i | 0 <= i < |r| ensures r[i] in list && r[i] !in history && Classify(r[i]) == Keep {
        if i < |o.result| {
          assert r[i] == o.result[i];
        } else {
          assert r[i] == s && s !in o.history;
        }
      }
    }
  }

  /** An understood directive outside the history is always returned: the
      history never hides a valid directive, because only warned and
      foreign entries are remembered. */
  lemma {:induction false} FilterReturnsKept(history: set<string>, list: seq<string>, k: nat)
    requires k < |list| && Classify(list[k]) == Keep && list[k] !in history
    ensures list[k] in Filter(history, list).result
    decreases |list|
  {
    var init := list[..|list| - 1];
    FilterHistory(history, init);
    if k < |list| - 1 {
      assert init[k] == list[k];
      FilterReturnsKept(history, init, k);
    }
  }

  /** The history only ever gains warned and foreign entries. */
  lemma {:induction false} FilterHistory(history: set<string>, list: seq<string>)
    ensures forall s | s in Filter(history, list).history :: s in history || Classify(s) in {Warn, Quiet}
    decreases |list|
  {
    if list != [] {
      FilterHistory(history, list[..|list| - 1]);
    }
  }

  /** "java:" followed by a word other than getset or buffer, with no
      further ':', is passed over without a warning and is not remembered,
      while the same word followed by ':' is warned about. */
  lemma UnknownWordIsDropped()
    ensures Classify("java:xyz") == Drop
    ensures Classify("java:xyz:1") == Warn
    ensures Filter({}, ["java:xyz"]) == Outcome([], [], {})
  {
    var s := "java:xyz";
    assert StartsWith(s, JavaPrefix) by {
      assert s[..5] == JavaPrefix;
    }
    FindFirstOfNone(s, {':'}, 5);
    assert s[5..] == "xyz";
    var t := "java:xyz:1";
    assert StartsWith(t, JavaPrefix) by {
      assert t[..5] == JavaPrefix;
    }
    FindFirstOfAt(t, {':'}, 5, 8);
    assert t[5..8] == "xyz";
    assert ["java:xyz"][..0] == [];
  }

  /** The visitor's state: the entries it has already warned about or
      passed over as foreign. */
  class MetaDataVisitor {
    var history: set<string>
    /** Every warning emitted so far, in order. */
    ghost var warned: seq<string>

    /** Each warning was emitted once and is remembered. */
    ghost predicate Valid()
      reads this
    {
      Distinct(warned) && forall i | 0 <= i < |warned| :: warned[i] in history
    }

    constructor()
      ensures Valid() && history == {} && warned == []
    {
      history := {};
      warned := [];
    }

    /** getMetaData: the understood directives among metaData, and the
        warnings emitted for the invalid ones, each of which is remembered
        so that it is never warned about again. */
    method GetMetaData(metaData: seq<string>) returns (result: seq<string>, warnings: seq<string>)
      requires Valid()
      modifies this
      ensures Valid()
      ensures Filter(old(history), metaData) == Outcome(result, warnings, history)
      ensures warned == old(warned) + warnings
    {
      result := [];
      warnings := [];
      ghost var h0 := history;
      var p := 0;
      while p < |metaData|
        invariant p <= |metaData|
        invariant Filter(h0, metaData[..p]) == Outcome(result, warnings, history)
      invariant warned == old(warned) && h0 == old(history)
      {
        var s := metaData[p];
        assert metaData[..p + 1][..p] == metaData[..p];
        if s !in history {
          if StartsWith(s, JavaPrefix) {
            var pos := FindFirstOf(s, {':'}, |JavaPrefix|);
            if pos.None? {
              if |s| > |JavaPrefix| {
                var rest := s[|JavaPrefix|..];
                if rest == "getset" {
                  result := result + [s];
                } else if rest == "buffer" {
                  result := result + [s];
                }
                p := p + 1;
                continue;
              }
            } else if KnownDirective(s[|JavaPrefix|..pos.value]) {
              result := result + [s];
              p := p + 1;
              continue;
            }
            warnings := warnings + [s];
          } else if s == "delegate" {
            result := result + [s];
            p := p + 1;
            continue;
          }
          history := history + {s};
        }
        p := p + 1;
      }
      assert metaData[..p] == metaData;
      FilterWarnsOnce(h0, metaData);
      VisitorStaysValid(old(warned), warnings, h0, history);
      warned := warned + warnings;
    }
  }

  /** Warnings that are new, distinct and remembered keep the visitor valid. */
  lemma VisitorStaysValid(warned: seq<string>, warnings: seq<string>, h0: set<string>, h1: set<string>)
    requires Distinct(warned) && forall i | 0 <= i < |warned| :: warned[i] in h0
    requires h0 <= h1
    requires Distinct(warnings)
    requires forall i | 0 <= i < |warnings| :: warnings[i] !in h0 && warnings[i] in h1
    ensures Distinct(warned + warnings)
    ensures forall i | 0 <= i < |warned + warnings| :: (warned + warnings)[i] in h1
  {
    var all := warned + warnings;
    forall i, j | 0 <= i < j < |all| ensures all[i] != all[j] {
      if j >= |warned| && i < |warned| {
        assert all[i] in h0 && all[j] !in h0;
      }
    }
  }
}
