/** The default serialVersionUID the Java generator gives a class, struct or
    exception: a text describing the type's name, bases and data members,
    hashed with the "times 33, exclusive or" string hash from seed 5381
    (computeSerialVersionUUID and hashAdd). The hash works in a 64-bit long
    and takes each character as a signed char. */
module SerialUid {
  import opened Text
  import opened Wrappers

  // ---------------------------------------------------------------------
  // hashAdd
  // ---------------------------------------------------------------------

  /** A C++ char holds a byte; this model takes the bytes of a narrow
      string as the characters' codes. */
  predicate IsByteString(s: string)
  {
    forall i | 0 <= i < |s| :: s[i] as int < 256
  }

  /** The bytes of a narrow string. */
  function Bytes(s: string): (b: seq<bv8>)
    requires IsByteString(s)
    ensures |b| == |s|
  {
    seq(|s|, i requires 0 <= i < |s| => s[i] as bv8)
  }

  /** A char widened to long, with char signed: the bytes 0x80..0xff stand
      for -128..-1, so the widened value has all its upper bits set. */
  function SignExtend(b: bv8): (v: bv64)
    ensures v & 0xff == b as bv64
    ensures b < 0x80 ==> v < 0x80
    ensures b >= 0x80 ==> v >= 0xffff_ffff_ffff_ff80
  {
    if b < 0x80 then b as bv64 else (b as bv64) | 0xffff_ffff_ffff_ff00
  }

  /** One turn of hashAdd's loop: ((h << 5) + h) ^ c, wrapping at 64 bits. */
  function Step(h: bv64, b: bv8): (r: bv64)
    ensures r == (h * 33) ^ SignExtend(b)
  {
    ((h << 5) + h) ^ SignExtend(b)
  }

  /** hashAdd's result: the bytes folded into h from first to last. */
  function Hash(h: bv64, s: seq<bv8>): bv64
    decreases |s|
  {
    if s == [] then h else Step(Hash(h, s[..|s| - 1]), s[|s| - 1])
  }

  /** hashAdd: runs over the bytes of value and updates hashCode in place. */
  method HashAdd(hashCode: bv64, value: seq<bv8>) returns (h: bv64)
    ensures h == Hash(hashCode, value)
  {
    h := hashCode;
    var p := 0;
    while p < |value|
      invariant p <= |value|
      invariant h == Hash(hashCode, value[..p])
    {
      assert value[..p + 1][..p] == value[..p];
      h := Step(h, value[p]);
      p := p + 1;
    }
    assert value[..p] == value;
  }

  /** Hashing a text in two pieces is hashing it in one: the hash of a
      prefix is the running state from which the rest continues. */
  lemma {:induction false} HashAppend(h: bv64, a: seq<bv8>, b: seq<bv8>)
    ensures Hash(h, a + b) == Hash(Hash(h, a), b)
    decreases |b|
  {
    var ab := a + b;
    if b != [] {
      var init := b[..|b| - 1];
      assert ab[..|ab| - 1] == a + init;
      assert ab[|ab| - 1] == b[|b| - 1];
      HashAppend(h, a, init);
    } else {
      assert ab == a;
    }
  }

  /** Sign extension keeps different bytes different. */
  lemma SignExtendInjective(b1: bv8, b2: bv8)
    requires b1 != b2
    ensures SignExtend(b1) != SignExtend(b2)
  {
  }

  /** From the same state, two different bytes lead to different states. */
  lemma StepDistinct(h: bv64, b1: bv8, b2: bv8)
    requires b1 != b2
    ensures Step(h, b1) != Step(h, b2)
  {
    SignExtendInjective(b1, b2);
  }

  /** Texts that differ only in their last byte hash differently. */
  lemma LastByteMatters(h: bv64, s: seq<bv8>, b1: bv8, b2: bv8)
    requires b1 != b2
    ensures Hash(h, s + [b1]) != Hash(h, s + [b2])
  {
    assert (s + [b1])[..|s|] == s;
    assert (s + [b2])[..|s|] == s;
    StepDistinct(Hash(h, s), b1, b2);
  }

  // ---------------------------------------------------------------------
  // computeSerialVersionUUID
  // ---------------------------------------------------------------------

  /** A data member: its name and the text its type prints as. */
  datatype DataMember = DataMember(name: string, typeText: string)

  function MemberText(m: DataMember): string
  {
    m.name + ":" + m.typeText
  }

  function MemberTexts(members: seq<DataMember>): (r: seq<string>)
    ensures |r| == |members|
    ensures forall i | 0 <= i < |members| :: r[i] == MemberText(members[i])
  {
    if members == [] then [] else [MemberText(members[0])] + MemberTexts(members[1..])
  }

  /** The text that is hashed: the scoped name, the scoped names of the bases
      for a class (structs and exceptions have no "Bases" part), and the
      members as name:type, each list between brackets and separated by ", ". */
  function Description(scoped: string, bases: Option<seq<string>>, members: seq<DataMember>): string
  {
    "Name: " + scoped
      + (if bases.Some? then " Bases: [" + Join(bases.value, ", ") + "]" else "")
      + " Members: [" + Join(MemberTexts(members), ", ") + "]"
  }

  /** The loop that writes a list: each item, and ", " before every item but
      the first. */
  method WriteList(items: seq<string>) returns (os: string)
    ensures os == Join(items, ", ")
  {
    os := "";
    var i := 0;
    while i != |items|
      invariant i <= |items|
      invariant os == Join(items[..i], ", ") + (if 0 < i < |items| then ", " else "")
    {
      os := os + items[i];
      ListStep(items, i);
      i := i + 1;
      if i != |items| {
        os := os + ", ";
      }
    }
    assert items[..i] == items;
  }

  /** Writing the next item continues the join. */
  lemma ListStep(items: seq<string>, i: nat)
    requires i < |items|
    ensures Join(items[..i + 1], ", ") ==
      (Join(items[..i], ", ") + (if 0 < i then ", " else "")) + items[i]
  {
    if i == 0 {
      assert items[..1] == [items[0]];
    } else {
      assert items[..i + 1] == items[..i] + [items[i]];
      JoinSnoc(items[..i], items[i], ", ");
    }
  }

  /** The loop that writes the data members: name:type for each, and ", "
      before every member but the first. */
  method WriteMembers(members: seq<DataMember>) returns (os: string)
    ensures os == Join(MemberTexts(members), ", ")
  {
    ghost var texts := MemberTexts(members);
    os := "";
    var i := 0;
    while i != |members|
      invariant i <= |members|
      invariant os == Join(texts[..i], ", ") + (if 0 < i < |members| then ", " else "")
    {
      assert texts[i] == members[i].name + ":" + members[i].typeText;
      os := os + (members[i].name + ":" + members[i].typeText);
      ListStep(texts, i);
      i := i + 1;
      if i != |members| {
        os := os + ", ";
      }
    }
    assert texts[..i] == texts;
  }

  /** computeSerialVersionUUID for a class (bases given) or for a struct or
      exception (no bases): the hash, from 5381, of the description. */
  method ComputeSerialVersionUid(scoped: string, bases: Option<seq<string>>, members: seq<DataMember>)
    returns (hashCode: bv64)
    requires IsByteString(Description(scoped, bases, members))
    ensures hashCode == Hash(5381, Bytes(Description(scoped, bases, members)))
  {
    var os := "Name: " + scoped;
    if bases.Some? {
      var list := WriteList(bases.value);
      os := os + " Bases: [" + list + "]";
    }
    var list := WriteMembers(members);
    os := os + " Members: [" + list + "]";
    assert os == Description(scoped, bases, members);
    hashCode := HashAdd(5381, Bytes(os));
  }
}
