/** The JavaScript run-time support for Slice enumerations (EnumBase.js):
    the enumerator objects (Ice.EnumBase), and Slice.defineEnum, which makes
    a class for one enumeration, creates its enumerators from (name, value)
    pairs, and gives the class its lookup table, first enumerator, maximum
    value and marshalling functions. */
module EnumBases {
  import opened Wrappers

  // ---------------------------------------------------------------------
  // Ice.EnumBase
  // ---------------------------------------------------------------------

  /** An enumerator: its name, its value, and the class that defineEnum
      made for its enumeration (what instanceof tests). */
  class EnumBase {
    const name: string
    const value: int
    const enumType: EnumType

    constructor(name: string, value: int, enumType: EnumType)
      ensures this.name == name && this.value == value && this.enumType == enumType
    {
      this.name := name;
      this.value := value;
      this.enumType := enumType;
    }

    /** equals: the same object, or an enumerator of the same class with
        the same value; null and enumerators of other classes are never
        equal. */
    predicate Equals(rhs: EnumBase?)
    {
      if this == rhs then true
      else if rhs == null || rhs.enumType != enumType then false
      else value == rhs.value
    }

    /** hashCode: the value. */
    function HashCode(): (h: int)
      ensures h == value
    {
      value
    }
  }

  /** Two enumerators are equal exactly when they belong to the same
      enumeration and have the same value. */
  lemma EqualsIff(a: EnumBase, b: EnumBase?)
    ensures a.Equals(b) <==> b != null && b.enumType == a.enumType && b.value == a.value
  {
  }

  lemma EqualsReflexive(a: EnumBase)
    ensures a.Equals(a)
  {
  }

  lemma EqualsSymmetric(a: EnumBase, b: EnumBase)
    requires a.Equals(b)
    ensures b.Equals(a)
  {
  }

  lemma EqualsTransitive(a: EnumBase, b: EnumBase, c: EnumBase)
    requires a.Equals(b) && b.Equals(c)
    ensures a.Equals(c)
  {
  }

  /** Equal enumerators have equal hash codes. */
  lemma EqualsHashCode(a: EnumBase, b: EnumBase)
    requires a.Equals(b)
    ensures a.HashCode() == b.HashCode()
  {
  }

  // ---------------------------------------------------------------------
  // Output
  // ---------------------------------------------------------------------

  /** The optional format of an enumeration: a size. */
  datatype OptionalFormat = Size

  /** What reaches the output stream: an optional member's tag and format,
      or an enumerator's value. */
  datatype Written = OptionalHeader(tag: int, format: OptionalFormat) | EnumValue(value: int)

  /** The output stream as the enumeration's write functions see it. Whether
      it takes optional members (writeOptional answers true) depends on its
      encoding, which is fixed when the stream is made. */
  class OutputStream {
    var written: seq<Written>
    const acceptsOptionals: bool

    constructor(acceptsOptionals: bool)
      ensures written == [] && this.acceptsOptionals == acceptsOptionals
    {
      written := [];
      this.acceptsOptionals := acceptsOptionals;
    }

    /** writeEnum: the enumerator's value. Given null, the stream's first
        step, reading the value, throws a TypeError and nothing is written;
        thrown says so. */
    method WriteEnum(e: EnumBase?) returns (thrown: bool)
      modifies this
      ensures thrown <==> e == null
      ensures written == old(written) + (if e == null then [] else [EnumValue(e.value)])
    {
      thrown := e == null;
      if e != null {
        written := written + [EnumValue(e.value)];
      }
    }

    /** writeOptional: writes the tag and format and answers true when the
        encoding has optional members, otherwise writes nothing and answers
        false. */
    method WriteOptional(tag: int, format: OptionalFormat) returns (ok: bool)
      modifies this
      ensures ok == acceptsOptionals
      ensures written == old(written) + (if ok then [OptionalHeader(tag, format)] else [])
    {
      ok := acceptsOptionals;
      if ok {
        written := written + [OptionalHeader(tag, format)];
      }
    }
  }

  /** An argument of __writeOpt: undefined, null, or an enumerator. */
  datatype Arg = Undefined | Null | Enumerator(e: EnumBase)

  /** What valueOf answers: the enumeration class itself, an enumerator,
      or undefined. */
  datatype Lookup = TheType | Found(e: EnumBase) | NotFound

  // ---------------------------------------------------------------------
  // The class defineEnum makes
  // ---------------------------------------------------------------------

  /** One enumeration: its enumerators by value, the first enumerator given
      to defineEnum, and the largest value (at least 0). */
  class EnumType {
    var enums: map<int, EnumBase>
    var firstEnum: EnumBase?
    var maxValue: int

    /** minWireSize: an enumerator takes at least one byte. */
    const minWireSize: int := 1

    constructor()
      ensures enums == map[] && firstEnum == null && maxValue == 0
    {
      enums := map[];
      firstEnum := null;
      maxValue := 0;
    }

    /** valueOf: the class itself for undefined, otherwise the enumerator
        with that value, or undefined when there is none. */
    function ValueOf(v: Option<int>): (r: Lookup)
      reads this
      ensures v.None? <==> r == TheType
      ensures v.Some? && v.value in enums ==> r == Found(enums[v.value])
      ensures v.Some? && v.value !in enums ==> r == NotFound
    {
      match v
      case None => TheType
      case Some(k) => if k in enums then Found(enums[k]) else NotFound
    }

    /** __write: the enumerator, or the first enumerator when given null.
        Null for an enumeration without enumerators hands null on to the
        stream, which throws. */
    method Write(os: OutputStream, v: EnumBase?) returns (thrown: bool)
      modifies os
      ensures thrown <==> v == null && firstEnum == null
      ensures v != null ==> os.written == old(os.written) + [EnumValue(v.value)]
      ensures v == null && firstEnum != null ==> os.written == old(os.written) + [EnumValue(firstEnum.value)]
      ensures thrown ==> os.written == old(os.written)
    {
      if v != null {
        thrown := os.WriteEnum(v);
      } else {
        thrown := os.WriteEnum(firstEnum);
      }
    }

    /** __writeOpt: nothing for undefined; otherwise the tag with the Size
        format and the value, when the stream takes optional members. A null
        value is written as the first enumerator; when there is none the
        stream throws after the header. */
    method WriteOpt(os: OutputStream, tag: int, v: Arg) returns (thrown: bool)
      modifies os
      ensures thrown <==> v.Null? && os.acceptsOptionals && firstEnum == null
      ensures v.Undefined? || !os.acceptsOptionals ==> os.written == old(os.written)
      ensures thrown ==> os.written == old(os.written) + [OptionalHeader(tag, Size)]
      ensures v.Enumerator? && os.acceptsOptionals ==>
        os.written == old(os.written) + [OptionalHeader(tag, Size), EnumValue(v.e.value)]
      ensures v.Null? && os.acceptsOptionals && firstEnum != null ==>
        os.written == old(os.written) + [OptionalHeader(tag, Size), EnumValue(firstEnum.value)]
    {
      thrown := false;
      if !v.Undefined? {
        var ok := os.WriteOptional(tag, Size);
        if ok {
          thrown := Write(os, if v.Enumerator? then v.e else null);
        }
      }
    }
  }

  // ---------------------------------------------------------------------
  // Slice.defineEnum
  // ---------------------------------------------------------------------

  /** The largest of 0 and the values. */
  function MaxValue(values: seq<int>): (m: int)
    ensures m >= 0
    ensures forall k | 0 <= k < |values| :: values[k] <= m
    ensures m == 0 || exists k | 0 <= k < |values| :: values[k] == m
    decreases |values|
  {
    if values == [] then 0
    else
      var m := MaxValue(values[..|values| - 1]);
      var last := values[|values| - 1];
      if last > m then last else m
  }

  function Values(enumerators: seq<(string, int)>): (vs: seq<int>)
    ensures |vs| == |enumerators|
    ensures forall k | 0 <= k < |vs| :: vs[k] == enumerators[k].1
  {
    seq(|enumerators|, k requires 0 <= k < |enumerators| => enumerators[k].1)
  }

  /** The last position that gives the value v. */
  function LastWithValue(enumerators: seq<(string, int)>, v: int): (r: Option<nat>)
    ensures r.Some? ==> r.value < |enumerators| && enumerators[r.value].1 == v
    ensures r.Some? ==> forall k | r.value < k < |enumerators| :: enumerators[k].1 != v
    ensures r.None? <==> forall k | 0 <= k < |enumerators| :: enumerators[k].1 != v
    decreases |enumerators|
  {
    if enumerators == [] then None
    else if enumerators[|enumerators| - 1].1 == v then Some(|enumerators| - 1)
    else LastWithValue(enumerators[..|enumerators| - 1], v)
  }

  /** The table defineEnum builds after some enumerators: every value given
      so far maps to an enumerator of t with that value and the name given
      last for it. */
  ghost predicate TableSoFar(t: EnumType, enumerators: seq<(string, int)>, enums: map<int, EnumBase>)
  {
    forall v :: (v in enums <==> LastWithValue(enumerators, v).Some?)
      && (v in enums ==> enums[v].value == v && enums[v].enumType == t
                         && enums[v].name == enumerators[LastWithValue(enumerators, v).value].0)
  }

  lemma TableStep(t: EnumType, enumerators: seq<(string, int)>, i: nat, enums: map<int, EnumBase>, e: EnumBase)
    requires i < |enumerators| && TableSoFar(t, enumerators[..i], enums)
    requires e.name == enumerators[i].0 && e.value == enumerators[i].1 && e.enumType == t
    ensures TableSoFar(t, enumerators[..i + 1], enums[e.value := e])
  {
    var prefix := enumerators[..i + 1];
    assert prefix[..i] == enumerators[..i];
    forall v
      ensures (v in enums[e.value := e] <==> LastWithValue(prefix, v).Some?)
      ensures v in enums[e.value := e] ==>
        (enums[e.value := e][v].value == v
         && enums[e.value := e][v].enumType == t
         && enums[e.value := e][v].name == prefix[LastWithValue(prefix, v).value].0)
    {
      if v != e.value {
        assert LastWithValue(prefix, v) == LastWithValue(enumerators[..i], v);
      }
    }
  }

  /** Slice.defineEnum: a new class, one new enumerator per (name, value)
      pair in order; the table keeps the last enumerator given for a value,
      firstEnum is the first one given, maxValue the largest value and at
      least 0. */
  method DefineEnum(enumerators: seq<(string, int)>) returns (t: EnumType)
    ensures fresh(t)
    ensures t.maxValue == MaxValue(Values(enumerators))
    ensures TableSoFar(t, enumerators, t.enums)
    ensures t.firstEnum == null <==> enumerators == []
    ensures t.firstEnum != null ==>
      (t.firstEnum.name == enumerators[0].0 && t.firstEnum.value == enumerators[0].1 && t.firstEnum.enumType == t)
  {
    t := new EnumType();
    for idx := 0 to |enumerators|
      invariant t.maxValue == MaxValue(Values(enumerators[..idx]))
      invariant TableSoFar(t, enumerators[..idx], t.enums)
      invariant t.firstEnum == null <==> idx == 0
      invariant t.firstEnum != null ==>
        (t.firstEnum.name == enumerators[0].0 && t.firstEnum.value == enumerators[0].1 && t.firstEnum.enumType == t)
    {
      var (e, value) := enumerators[idx];
      var enumerator := new EnumBase(e, value, t);
      TableStep(t, enumerators, idx, t.enums, enumerator);
      t.enums := t.enums[value := enumerator];
      if t.firstEnum == null {
        t.firstEnum := enumerator;
      }
      assert Values(enumerators[..idx + 1]) == Values(enumerators[..idx]) + [value];
      if value > t.maxValue {
        t.maxValue := value;
      }
    }
    assert enumerators[..|enumerators|] == enumerators;
  }

  /** After defineEnum, valueOf finds, for every value given, the
      enumerator given last with that value, and nothing for other values. */
  lemma ValueOfAfterDefine(t: EnumType, enumerators: seq<(string, int)>, v: int)
    requires TableSoFar(t, enumerators, t.enums)
    ensures LastWithValue(enumerators, v).None? ==> t.ValueOf(Some(v)) == NotFound
    ensures LastWithValue(enumerators, v).Some? ==>
      var r := t.ValueOf(Some(v));
      r.Found? && r.e.value == v && r.e.enumType == t
      && r.e.name == enumerators[LastWithValue(enumerators, v).value].0
  {
  }
}
