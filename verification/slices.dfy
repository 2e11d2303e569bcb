/** The slices a generated class or exception writes and reads
    (__writeImpl and __readImpl): each type of a hierarchy writes one slice
    (its header, its required data members in declaration order, its
    optional data members ordered by tag, the end of the slice) and then
    calls its base type's __writeImpl; reading mirrors writing. */
module Slices {
  import opened Wrappers

  datatype DataMember = DataMember(name: string, optional: bool, tag: int)

  /** One type of a hierarchy: its type id (ice_staticId for a class, the
      scoped name for an exception), its compact id (-1 when it has none;
      always -1 for an exception), its own data members in declaration
      order, and its optional data members ordered by tag. */
  datatype SliceDecl = SliceDecl(typeId: string, compactId: int, members: seq<DataMember>, optionalMembers: seq<DataMember>)

  /** What startSlice writes: the type id, the compact id and whether this
      is the last slice of the value. */
  datatype Header = Header(typeId: string, compactId: int, last: bool)

  /** One statement of __writeImpl or __readImpl: startSlice (with its
      header when writing, without arguments when reading), a data member
      written (marshal true) or read (marshal false), or endSlice. */
  datatype Event = StartSlice(header: Option<Header>) | MemberCall(name: string, marshal: bool) | EndSlice

  /** An exception's slice: compact id -1. */
  function ExceptionSlice(scoped: string, members: seq<DataMember>, optionalMembers: seq<DataMember>): (d: SliceDecl)
    ensures d.compactId == -1 && d.typeId == scoped
  {
    SliceDecl(scoped, -1, members, optionalMembers)
  }

  /** The data members that are not optional, in declaration order. */
  function Required(members: seq<DataMember>): (r: seq<DataMember>)
    ensures |r| <= |members|
    decreases |members|
  {
    if members == [] then []
    else
      var last := members[|members| - 1];
      Required(members[..|members| - 1]) + (if last.optional then [] else [last])
  }

  function MemberCalls(members: seq<DataMember>, marshal: bool): seq<Event>
  {
    seq(|members|, i requires 0 <= i < |members| => MemberCall(members[i].name, marshal))
  }

  function StartEvent(decl: SliceDecl, last: bool, marshal: bool): Event
  {
    StartSlice(if marshal then Some(Header(decl.typeId, decl.compactId, last)) else None)
  }

  /** The slice one type writes or reads. */
  function SliceBody(decl: SliceDecl, last: bool, marshal: bool): seq<Event>
  {
    [StartEvent(decl, last, marshal)]
      + MemberCalls(Required(decl.members) + decl.optionalMembers, marshal)
      + [EndSlice]
  }

  /** The whole value: a hierarchy given from the most derived type to the
      root, each type's slice followed by what its base's __writeImpl (or
      __readImpl) produces; only the root has no base. */
  function Stream(chain: seq<SliceDecl>, marshal: bool): seq<Event>
    decreases |chain|
  {
    if chain == [] then []
    else SliceBody(chain[0], |chain| == 1, marshal) + Stream(chain[1..], marshal)
  }

  // ---------------------------------------------------------------------
  // __writeImpl and __readImpl of one type
  // ---------------------------------------------------------------------

  lemma MemberCallsAppend(a: seq<DataMember>, b: seq<DataMember>, marshal: bool)
    ensures MemberCalls(a + b, marshal) == MemberCalls(a, marshal) + MemberCalls(b, marshal)
  {
  }

  /** One more member: a required member adds its call, an optional one
      nothing. */
  lemma RequiredCallsStep(members: seq<DataMember>, i: nat, marshal: bool)
    requires i < |members|
    ensures MemberCalls(Required(members[..i + 1]), marshal)
      == MemberCalls(Required(members[..i]), marshal)
         + (if members[i].optional then [] else [MemberCall(members[i].name, marshal)])
  {
    assert members[..i + 1][..i] == members[..i];
    MemberCallsAppend(Required(members[..i]), if members[i].optional then [] else [members[i]], marshal);
  }

  /** The first loop of the body: the members that are not optional, in
      declaration order. */
  method WriteRequiredMembers(members: seq<DataMember>, marshal: bool) returns (calls: seq<Event>)
    ensures calls == MemberCalls(Required(members), marshal)
  {
    calls := [];
    for i := 0 to |members|
      invariant calls == MemberCalls(Required(members[..i]), marshal)
    {
      RequiredCallsStep(members, i, marshal);
      if !members[i].optional {
        calls := calls + [MemberCall(members[i].name, marshal)];
      }
    }
    assert members[..|members|] == members;
  }

  /** The second loop of the body: the optional members, in the order
      given. */
  method WriteOptionalMembers(optional: seq<DataMember>, marshal: bool) returns (calls: seq<Event>)
    ensures calls == MemberCalls(optional, marshal)
  {
    calls := [];
    for i := 0 to |optional|
      invariant calls == MemberCalls(optional[..i], marshal)
    {
      MemberCallsAppend(optional[..i], [optional[i]], marshal);
      assert optional[..i + 1] == optional[..i] + [optional[i]];
      calls := calls + [MemberCall(optional[i].name, marshal)];
    }
    assert optional[..|optional|] == optional;
  }

  /** __writeImpl, the body the generator emits for one type: startSlice
      with the type id, the compact id and the last-slice flag set exactly
      when the type has no base, the required members, the ordered optional
      members, endSlice; callsBase tells whether it goes on with
      super.__writeImpl. */
  method WriteImpl(decl: SliceDecl, hasBase: bool) returns (events: seq<Event>, callsBase: bool)
    ensures events == SliceBody(decl, !hasBase, true)
    ensures callsBase == hasBase
  {
    var required := WriteRequiredMembers(decl.members, true);
    var optional := WriteOptionalMembers(decl.optionalMembers, true);
    MemberCallsAppend(Required(decl.members), decl.optionalMembers, true);
    events := [StartEvent(decl, !hasBase, true)] + (required + optional) + [EndSlice];
    callsBase := hasBase;
  }

  /** __readImpl: startSlice without arguments, the same two member loops
      unmarshalling, endSlice; callsBase tells whether it goes on with
      super.__readImpl. */
  method ReadImpl(decl: SliceDecl, hasBase: bool) returns (events: seq<Event>, callsBase: bool)
    ensures events == SliceBody(decl, !hasBase, false)
    ensures events[0] == StartSlice(None)
    ensures callsBase == hasBase
  {
    var required := WriteRequiredMembers(decl.members, false);
    var optional := WriteOptionalMembers(decl.optionalMembers, false);
    MemberCallsAppend(Required(decl.members), decl.optionalMembers, false);
    events := [StartSlice(None)] + (required + optional) + [EndSlice];
    callsBase := hasBase;
  }

  // ---------------------------------------------------------------------
  // Properties
  // ---------------------------------------------------------------------

  /** The required members keep their order and are exactly the members
      that are not optional. */
  lemma {:induction false} RequiredMembers(members: seq<DataMember>)
    ensures forall m | m in Required(members) :: m in members && !m.optional
    ensures forall m | m in members && !m.optional :: m in Required(members)
    decreases |members|
  {
    if members != [] {
      var init := members[..|members| - 1];
      RequiredMembers(init);
      assert members == init + [members[|members| - 1]];
    }
  }

  /** Every data member is written exactly once when the ordered optional
      members are the type's optional members. */
  lemma {:induction false} MembersOnce(members: seq<DataMember>, optionalMembers: seq<DataMember>)
    requires multiset(optionalMembers) == multiset(OptionalOnly(members))
    ensures multiset(Required(members) + optionalMembers) == multiset(members)
  {
    RequiredPartition(members);
  }

  /** The optional data members, in declaration order. */
  function OptionalOnly(members: seq<DataMember>): (r: seq<DataMember>)
    ensures forall m | m in r :: m.optional
    decreases |members|
  {
    if members == [] then []
    else
      var last := members[|members| - 1];
      OptionalOnly(members[..|members| - 1]) + (if last.optional then [last] else [])
  }

  lemma {:induction false} RequiredPartition(members: seq<DataMember>)
    ensures multiset(Required(members)) + multiset(OptionalOnly(members)) == multiset(members)
    decreases |members|
  {
    if members != [] {
      var init := members[..|members| - 1];
      RequiredPartition(init);
      assert members == init + [members[|members| - 1]];
    }
  }

  /** The events with the write-only parts removed: a reader's view. */
  function Mirror(events: seq<Event>): (r: seq<Event>)
    ensures |r| == |events|
  {
    seq(|events|, i requires 0 <= i < |events| =>
      match events[i]
      case StartSlice(_) => StartSlice(None)
      case MemberCall(n, _) => MemberCall(n, false)
      case EndSlice => EndSlice)
  }

  lemma MirrorAppend(a: seq<Event>, b: seq<Event>)
    ensures Mirror(a + b) == Mirror(a) + Mirror(b)
  {
  }

  /** Reading a value takes the same slices, with the same members in the
      same order, as writing it. */
  lemma {:induction false} ReadMirrorsWrite(chain: seq<SliceDecl>)
    ensures Mirror(Stream(chain, true)) == Stream(chain, false)
    decreases |chain|
  {
    if chain != [] {
      var body := SliceBody(chain[0], |chain| == 1, true);
      ReadMirrorsWrite(chain[1..]);
      MirrorAppend(body, Stream(chain[1..], true));
      assert Mirror(body) == SliceBody(chain[0], |chain| == 1, false);
    }
  }

  /** The headers startSlice writes, in order. */
  function Headers(events: seq<Event>): seq<Header>
  {
    if events == [] then []
    else
      var first := if events[0].StartSlice? && events[0].header.Some? then [events[0].header.value] else [];
      first + Headers(events[1..])
  }

  lemma {:induction false} HeadersAppend(a: seq<Event>, b: seq<Event>)
    ensures Headers(a + b) == Headers(a) + Headers(b)
    decreases |a|
  {
    if a != [] {
      assert (a + b)[1..] == a[1..] + b;
      HeadersAppend(a[1..], b);
    } else {
      assert a + b == b;
    }
  }

  lemma {:induction false} MemberCallsHeaders(members: seq<DataMember>, marshal: bool)
    ensures Headers(MemberCalls(members, marshal)) == []
    decreases |members|
  {
    if members != [] {
      assert MemberCalls(members, marshal)[1..] == MemberCalls(members[1..], marshal);
      MemberCallsHeaders(members[1..], marshal);
    }
  }

  lemma SliceBodyHeaders(decl: SliceDecl, last: bool)
    ensures Headers(SliceBody(decl, last, true)) == [Header(decl.typeId, decl.compactId, last)]
  {
    var calls := MemberCalls(Required(decl.members) + decl.optionalMembers, true);
    MemberCallsHeaders(Required(decl.members) + decl.optionalMembers, true);
    HeadersAppend([StartEvent(decl, last, true)], calls);
    HeadersAppend([StartEvent(decl, last, true)] + calls, [EndSlice]);
    assert Headers([EndSlice]) == [] by {
      assert [EndSlice][1..] == [];
    }
    assert Headers([StartEvent(decl, last, true)]) == [Header(decl.typeId, decl.compactId, last)] by {
      assert [StartEvent(decl, last, true)][1..] == [];
    }
  }

  /** A written value holds one slice header per type, most derived first,
      and only the root's header carries the last-slice flag. */
  lemma {:induction false} StreamHeaders(chain: seq<SliceDecl>)
    ensures var hs := Headers(Stream(chain, true));
      && |hs| == |chain|
      && (forall k | 0 <= k < |chain| ::
            hs[k] == Header(chain[k].typeId, chain[k].compactId, k == |chain| - 1))
    decreases |chain|
  {
    if chain != [] {
      StreamHeaders(chain[1..]);
      SliceBodyHeaders(chain[0], |chain| == 1);
      HeadersAppend(SliceBody(chain[0], |chain| == 1, true), Stream(chain[1..], true));
    }
  }
}
