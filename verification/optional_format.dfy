/** How the Java generator writes optional values: the optional format it
    picks for a Slice type (getOptionalFormat), and the byte count it writes
    in front of an optional sequence or dictionary of fixed-size elements,
    which must agree with the compact size encoding the stream uses. */
module OptionalFormats {
  import opened Wrappers

  // ---------------------------------------------------------------------
  // Slice types, as far as getOptionalFormat looks at them
  // ---------------------------------------------------------------------

  datatype BuiltinKind =
    | Byte | Bool | Short | Int | Long | Float | Double
    | String | Object | ObjectProxy | LocalObject | Value

  /** A Slice type. Whether a type is variable-length is decided by the
      parser (isVariableLength) and is an input here. */
  datatype SliceType =
    | Builtin(kind: BuiltinKind)
    | Enum
    | Sequence(element: SliceType)
    | Dictionary(key: SliceType, value: SliceType)
    | Struct
    | Proxy
    | ClassDecl

  /** The tag format of an optional value (Ice.OptionalFormat). */
  datatype Format = F1 | F2 | F4 | F8 | Size | VSize | FSize | Class

  /** getOptionalFormat. Local objects are never marshalled: the source
      asserts they do not reach here.
      A built-in type gets a fixed-width format exactly when it has a fixed
      encoded size, and then the width is that size, so that a reader can
      skip it from the format alone; only enumerations use Size, only class
      instances use Class; a sequence, dictionary or struct is written with
      an explicit byte length (FSize) exactly when its contents are
      variable-length. */
  function OptionalFormat(t: SliceType, isVariable: SliceType -> bool): (f: Format)
    requires t != Builtin(LocalObject)
    ensures FixedWidth(f) == if t.Builtin? then BuiltinWireSize(t.kind) else None
    ensures f == Size <==> t == Enum
    ensures f == Class <==> t in {Builtin(Object), Builtin(Value), ClassDecl}
    ensures IsContainer(t) ==> f in {VSize, FSize}
    ensures IsContainer(t) ==> (f == FSize <==> ContentsVariable(t, isVariable))
    ensures t == Builtin(String) ==> f == VSize
    ensures t in {Builtin(ObjectProxy), Proxy} ==> f == FSize
  {
    match t
    case Builtin(k) =>
      (match k
       case Byte => F1
       case Bool => F1
       case Short => F2
       case Int => F4
       case Float => F4
       case Long => F8
       case Double => F8
       case String => VSize
       case Object => Class
       case ObjectProxy => FSize
       case Value => Class)
    case Enum => Size
    case Sequence(e) => if isVariable(e) then FSize else VSize
    case Dictionary(k, v) => if isVariable(k) || isVariable(v) then FSize else VSize
    case Struct => if isVariable(t) then FSize else VSize
    case Proxy => FSize
    case ClassDecl => Class
  }

  // ---------------------------------------------------------------------
  // What a format promises a reader that skips the value
  // ---------------------------------------------------------------------

  /** The number of bytes a fixed-width format stands for. */
  function FixedWidth(f: Format): Option<nat>
  {
    match f
    case F1 => Some(1)
    case F2 => Some(2)
    case F4 => Some(4)
    case F8 => Some(8)
    case _ => None
  }

  /** The encoded size of a built-in type in the Ice encoding: fixed for the
      numeric types, variable for strings, objects and proxies. */
  function BuiltinWireSize(k: BuiltinKind): Option<nat>
  {
    match k
    case Byte => Some(1)
    case Bool => Some(1)
    case Short => Some(2)
    case Int => Some(4)
    case Float => Some(4)
    case Long => Some(8)
    case Double => Some(8)
    case _ => None
  }

  /** A sequence, a dictionary or a struct. */
  predicate IsContainer(t: SliceType)
  {
    t.Sequence? || t.Dictionary? || t.Struct?
  }

  /** The contents of a sequence, dictionary or struct are variable-length. */
  predicate ContentsVariable(t: SliceType, isVariable: SliceType -> bool)
  {
    match t
    case Sequence(e) => isVariable(e)
    case Dictionary(k, v) => isVariable(k) || isVariable(v)
    case Struct => isVariable(t)
    case _ => false
  }

  // ---------------------------------------------------------------------
  // The compact size encoding and the optional byte count
  // ---------------------------------------------------------------------

  newtype byte = x: int | 0 <= x < 256

  /** The largest size the encoding carries: a non-negative 32-bit int. */
  const MaxSize: nat := 0x7fff_ffff

  /** A 32-bit value, least significant byte first. */
  function Int32Bytes(n: nat): (b: seq<byte>)
    requires n <= MaxSize
    ensures |b| == 4
    ensures b[0] as nat + 0x100 * b[1] as nat + 0x1_0000 * b[2] as nat + 0x100_0000 * b[3] as nat == n
  {
    var q1 := n / 256;
    var q2 := q1 / 256;
    [(n % 256) as byte, (q1 % 256) as byte, (q2 % 256) as byte, (q2 / 256) as byte]
  }

  /** writeSize: one byte for a size up to 254, otherwise the escape byte
      255 and the size as a 32-bit int. */
  function EncodeSize(n: nat): (b: seq<byte>)
    requires n <= MaxSize
    ensures |b| == if n <= 254 then 1 else 5
  {
    if n <= 254 then [n as byte] else [255 as byte] + Int32Bytes(n)
  }

  /** readSize: the size at the front of b and the number of bytes it took,
      or nothing when b is too short. */
  function DecodeSize(b: seq<byte>): Option<(nat, nat)>
  {
    if |b| == 0 then None
    else if b[0] != 255 then Some((b[0] as nat, 1))
    else if |b| < 5 then None
    else Some((b[1] as nat + 256 * b[2] as nat + 0x1_0000 * b[3] as nat + 0x100_0000 * b[4] as nat, 5))
  }

  /** Reading a size back gives what was written, whatever follows it. */
  lemma DecodeEncodeSize(n: nat, rest: seq<byte>)
    requires n <= MaxSize
    ensures DecodeSize(EncodeSize(n) + rest) == Some((n, |EncodeSize(n)|))
  {
    var b := EncodeSize(n) + rest;
    if n > 254 {
      var w := Int32Bytes(n);
      assert b[0] == 255 && b[1] == w[0] && b[2] == w[1] && b[3] == w[2] && b[4] == w[3];
    }
  }

  /** The byte count the generated code writes in front of an optional
      sequence or dictionary of n fixed-size elements of w bytes each. */
  function OptionalByteCount(n: nat, w: nat): nat
  {
    if n > 254 then n * w + 5 else n * w + 1
  }

  /** The count is the length of the element count's encoding plus the
      elements themselves: exactly the bytes that follow it. */
  lemma OptionalByteCountIsLength(n: nat, w: nat)
    requires n <= MaxSize
    ensures OptionalByteCount(n, w) == |EncodeSize(n)| + n * w
  {
  }

  /** A byte count within range keeps the element count within range. */
  lemma CountWithinMax(n: nat, w: nat)
    requires w >= 1 && OptionalByteCount(n, w) <= MaxSize
    ensures n <= MaxSize
  {
    assert n * w == n * (w - 1) + n;
  }

  /** Whether the generator writes the byte count for an optional sequence
      of fixed-size elements: not for bytes and booleans, whose element
      count already is the byte count. Dictionaries always get one. */
  function WritesByteCount(isDictionary: bool, w: nat): bool
  {
    isDictionary || w > 1
  }

  /** A Java int: the value reduced to 32 bits in two's complement, as
      Java's int arithmetic wraps around. */
  function JavaInt(x: int): (r: int)
    ensures -0x8000_0000 <= r <= MaxSize
    ensures (x - r) % 0x1_0000_0000 == 0
    ensures -0x8000_0000 <= x <= MaxSize ==> r == x
  {
    var m := x % 0x1_0000_0000;
    if m > MaxSize then m - 0x1_0000_0000 else m
  }

  /** The byte count as the generated code computes it, in a Java int:
      __optSize * w + 5 (or + 1) wraps around for large sizes. */
  function GeneratedByteCount(n: nat, w: nat): (c: int)
    ensures OptionalByteCount(n, w) <= MaxSize ==> c == OptionalByteCount(n, w)
    ensures OptionalByteCount(n, w) > MaxSize ==> c != OptionalByteCount(n, w)
  {
    JavaInt(OptionalByteCount(n, w))
  }

  /** The bytes of an optional sequence (or dictionary) of n fixed-size
      elements, w bytes each, after the tag: the byte count when the
      generator writes one, the element count, the elements. The element
      count is a Java collection size, so at most MaxSize. A byte count that
      wrapped around to a negative int is handed to writeSize, whose
      behaviour on negative sizes belongs to the stream: None stands for
      it. */
  function OptionalFixedBytes(isDictionary: bool, n: nat, w: nat, elements: seq<byte>): (b: Option<seq<byte>>)
    requires w >= 1 && n <= MaxSize && |elements| == n * w
    ensures b.None? ==> WritesByteCount(isDictionary, w) && OptionalByteCount(n, w) > MaxSize
  {
    if !WritesByteCount(isDictionary, w) then Some(EncodeSize(n) + elements)
    else
      var c := GeneratedByteCount(n, w);
      if c < 0 then None else Some(EncodeSize(c) + EncodeSize(n) + elements)
  }

  /** A reader that skips a value as VSize reads a size and skips that many
      bytes; it lands exactly at the end of b. */
  predicate SkipsExactly(b: seq<byte>)
  {
    var d := DecodeSize(b);
    d.Some? && d.value.1 + d.value.0 == |b|
  }

  /** What the generator writes lets a reader that does not know the value
      skip it exactly, for dictionaries and for sequences, whatever the
      fixed element size, exactly when the byte count fits in a Java int;
      past that the count wraps and the reader is thrown off (or the count
      is negative). */
  lemma OptionalFixedSkip(isDictionary: bool, n: nat, w: nat, elements: seq<byte>)
    requires w >= 1 && n <= MaxSize && |elements| == n * w
    ensures var b := OptionalFixedBytes(isDictionary, n, w, elements);
      b.Some? && SkipsExactly(b.value) <==>
        !WritesByteCount(isDictionary, w) || OptionalByteCount(n, w) <= MaxSize
  {
    var b := OptionalFixedBytes(isDictionary, n, w, elements);
    var inner := EncodeSize(n) + elements;
    OptionalByteCountIsLength(n, w);
    if !WritesByteCount(isDictionary, w) {
      assert w == 1;
      DecodeEncodeSize(n, elements);
      assert DecodeSize(b.value) == Some((n, |EncodeSize(n)|));
    } else {
      var c := GeneratedByteCount(n, w);
      if c >= 0 {
        assert b.value == EncodeSize(c) + inner;
        DecodeEncodeSize(c, inner);
        assert DecodeSize(b.value) == Some((c, |EncodeSize(c)|));
      }
    }
  }
}
