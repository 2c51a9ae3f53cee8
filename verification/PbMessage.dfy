/** nanopb's view of a message: the field descriptor table of pb.h (pb_field_t) and the C struct
    it describes. Pointer, callback and extension fields are not part of this model. */
module PbMessage {
  import opened PbWire

  /** pb_size_t is one, two or four bytes wide, chosen when the library is built; every result
      below holds for all three widths. */
  type SizeMax = n: nat | n == 0xFF || n == 0xFFFF || n == 0xFFFF_FFFF witness 0xFF
  const PB_SIZE_MAX: SizeMax

  /** offsetof(pb_bytes_array_t, bytes): the size header in front of a bytes field. */
  const BYTES_HEADER: nat := if PB_SIZE_MAX == 0xFF then 1 else if PB_SIZE_MAX == 0xFFFF then 2 else 4

  const PB_MAX_REQUIRED_FIELDS: nat := 64

  /** Field data types, PB_LTYPE_*. A submessage type carries the descriptor of the submessage. */
  datatype LType =
    | Int | UInt | SInt | Fixed32 | Fixed64
    | Bytes | String | Message(fields: seq<Field>) | FixedBytes
  {
    /** PB_LTYPE <= PB_LTYPE_LAST_PACKABLE */
    predicate Packable() { Int? || UInt? || SInt? || Fixed32? || Fixed64? }
  }

  /** Field repetition rules, PB_HTYPE_*. */
  datatype HType = Required | Optional | Repeated | OneOf

  /** One pb_field_t. `init` is the default value the descriptor's ptr names, or zero; it is not
      used for submessages, whose ptr is their own descriptor. */
  datatype Field = Field(tag: nat, ltype: LType, htype: HType, dataOffset: nat, sizeOffset: int,
                         dataSize: nat, arraySize: nat, init: Value)
  {
    /** Proto3 style: optional, but without a has_ flag next to the data. */
    predicate Singular() { htype.Optional? && sizeOffset == 0 }
  }

  /** The data of one field entry. A string is what has been stored in its buffer; it ends at the
      first NUL, or at the end of the stored part. */
  datatype Value = Num(n: int) | Blob(b: seq<byte>) | Sub(cells: seq<Cell>)

  /** The part of the struct that belongs to one field: the data with its has_ flag, the counted
      array, or the member of a union. A union member is Arm when which_ holds its tag. */
  datatype Cell =
    | One(v: Value)
    | Flagged(has: bool, v: Value)
    | Many(items: seq<Value>)
    | Arm(v: Value)
    | Idle

  // ---------------------------------------------------------------- descriptors

  /** Two adjacent oneof entries belong to the same union when the later one has the reserved
      data_offset. */
  predicate InUnion(fs: seq<Field>, i: nat)
    requires 0 < i < |fs|
  {
    fs[i - 1].htype.OneOf? && fs[i].htype.OneOf? && fs[i].dataOffset == PB_SIZE_MAX
  }

  /** The index of the first member of the union that field i is in. */
  function UnionStart(fs: seq<Field>, i: nat): (k: nat)
    requires i < |fs|
    ensures k <= i
  {
    if i > 0 && InUnion(fs, i) then UnionStart(fs, i - 1) else i
  }

  predicate SameUnion(fs: seq<Field>, i: nat, j: nat)
    requires i < |fs| && j < |fs|
  {
    fs[i].htype.OneOf? && fs[j].htype.OneOf? && UnionStart(fs, i) == UnionStart(fs, j)
  }

  /** The number of required fields among the first i: the iterator's required_field_index. */
  function RequiredBefore(fs: seq<Field>, i: nat): (n: nat)
    requires i <= |fs|
    ensures n <= i
  {
    if i == 0 then 0
    else RequiredBefore(fs, i - 1) + (if fs[i - 1].htype.Required? then 1 else 0)
  }

  lemma {:induction false} RequiredBeforeGrows(fs: seq<Field>, i: nat, j: nat)
    requires i <= j <= |fs|
    ensures RequiredBefore(fs, i) <= RequiredBefore(fs, j)
    decreases j - i
  {
    if i < j { RequiredBeforeGrows(fs, i, j - 1); }
  }

  /** What a generated descriptor satisfies, and what this library needs of one: distinct nonzero
      tags below 2^29, counts and which_ tags stored beside the data, one which_ tag to a union,
      has_ flags for optional submessages, zero defaults for singular fields, and a number of
      required fields for which pb_decode_noinit's final check does not shift by the word size or
      index past its bitmap. */
  ghost predicate WellFormed(fs: seq<Field>)
    decreases fs
  {
    && (forall i :: 0 <= i < |fs| ==> WellFormedField(fs[i]))
    && (forall i, j :: 0 <= i < j < |fs| ==> fs[i].tag != fs[j].tag)
    && (forall i :: 1 <= i < |fs| && InUnion(fs, i) ==> fs[i].sizeOffset == fs[i - 1].sizeOffset)
    && RequiredBefore(fs, |fs|) < PB_MAX_REQUIRED_FIELDS
    && RequiredBefore(fs, |fs|) != 32
  }

  ghost predicate WellFormedField(f: Field)
    decreases f
  {
    && 0 < f.tag <= PB_SIZE_MAX && f.tag < 0x2000_0000
    && f.dataSize <= PB_SIZE_MAX
    && (f.htype.Repeated? || f.htype.OneOf? ==> f.sizeOffset != 0)
    && (f.ltype.Fixed32? ==> f.dataSize == 4)
    && (f.ltype.Fixed64? ==> f.dataSize == 8)
    && (f.Singular() && !f.ltype.FixedBytes? ==> f.init == Num(0) || f.init == Blob([]))
    && (if f.ltype.Message? then WellFormed(f.ltype.fields) && !f.Singular() else FitsScalar(f, f.init))
  }

  // ---------------------------------------------------------------- structs

  predicate IntSize(n: nat) { n == 1 || n == 2 || n == 4 || n == 8 }

  function HalfRange(size: nat): int {
    if size == 1 then 0x80 else if size == 2 then 0x8000 else if size == 4 then 0x8000_0000
    else 0x8000_0000_0000_0000
  }

  /** The C type of the data holds this value. */
  predicate FitsScalar(f: Field, v: Value) {
    match f.ltype
    case Int | SInt => v.Num? && -HalfRange(f.dataSize) <= v.n < HalfRange(f.dataSize)
    case UInt => v.Num? && 0 <= v.n < 2 * HalfRange(f.dataSize)
    case Fixed32 => v.Num? && 0 <= v.n < U32
    case Fixed64 => v.Num? && 0 <= v.n < U64
    case Bytes => v.Blob? && |v.b| <= PB_SIZE_MAX
    case String => v.Blob? && |v.b| <= f.dataSize
    case FixedBytes => v.Blob? && |v.b| == f.dataSize
    case Message(_) => false
  }

  ghost predicate Fits(f: Field, v: Value)
    decreases f, 0
  {
    if f.ltype.Message? then v.Sub? && FitsAll(f.ltype.fields, v.cells) else FitsScalar(f, v)
  }

  ghost predicate FitsCell(f: Field, c: Cell)
    decreases f, 1
  {
    match f.htype
    case Required => c.One? && Fits(f, c.v)
    case Optional => (if f.Singular() then c.One? else c.Flagged?) && Fits(f, c.v)
    case Repeated => c.Many? && forall i :: 0 <= i < |c.items| ==> Fits(f, c.items[i])
    case OneOf => c.Idle? || (c.Arm? && Fits(f, c.v))
  }

  /** The struct has the layout the descriptor says, and each union holds at most one member. */
  ghost predicate FitsAll(fs: seq<Field>, cells: seq<Cell>)
    decreases fs
  {
    && |cells| == |fs|
    && (forall i :: 0 <= i < |fs| ==> FitsCell(fs[i], cells[i]))
    && (forall i, j :: 0 <= i < j < |fs| && SameUnion(fs, i, j) ==> !(cells[i].Arm? && cells[j].Arm?))
  }

  /** The initial data of a field, and of a whole struct: pb_field_set_to_default and
      pb_message_set_to_defaults. */
  function InitValue(f: Field): Value
    decreases f, 0
  {
    if f.ltype.Message? then Sub(Defaults(f.ltype.fields, 0)) else f.init
  }

  function InitCell(f: Field): Cell
    decreases f, 1
  {
    match f.htype
    case Required => One(InitValue(f))
    case Optional => if f.Singular() then One(InitValue(f)) else Flagged(false, InitValue(f))
    case Repeated => Many([])
    case OneOf => Idle
  }

  /** The default cells of fields k and up. */
  function Defaults(fs: seq<Field>, k: nat): (cells: seq<Cell>)
    requires k <= |fs|
    ensures |cells| == |fs| - k
    ensures forall i :: 0 <= i < |cells| ==> cells[i] == InitCell(fs[k + i])
    decreases fs, |fs| - k
  {
    if k == |fs| then [] else [InitCell(fs[k])] + Defaults(fs, k + 1)
  }

  lemma {:induction false} InitFits(f: Field)
    requires WellFormedField(f)
    ensures Fits(f, InitValue(f)) && FitsCell(f, InitCell(f))
    decreases f, 0
  {
    if f.ltype.Message? { DefaultsFit(f.ltype.fields); }
  }

  lemma {:induction false} DefaultsFit(fs: seq<Field>)
    requires WellFormed(fs)
    ensures FitsAll(fs, Defaults(fs, 0))
    decreases fs, 1
  {
    hide Fits, FitsCell, InitValue, RequiredBefore, FitsScalar, Defaults, SameUnion;
    var cells := Defaults(fs, 0);
    forall i | 0 <= i < |fs| ensures FitsCell(fs[i], cells[i]) {
      assert cells[i] == InitCell(fs[i]);
      InitFits(fs[i]);
    }
    forall i, j | 0 <= i < j < |fs| && SameUnion(fs, i, j) ensures !(cells[i].Arm? && cells[j].Arm?) {
      assert cells[i] == InitCell(fs[i]);
    }
  }

  /** Makes field i the current member of its union: which_ becomes its tag, so the other members
      stop being current. */
  function Select(fs: seq<Field>, cells: seq<Cell>, i: nat, v: Value): (r: seq<Cell>)
    requires |cells| == |fs| && i < |fs|
    ensures |r| == |fs|
  {
    seq(|fs|, j requires 0 <= j < |fs| => if j == i then Arm(v) else if SameUnion(fs, i, j) then Idle else cells[j])
  }

  /** The characters of a string buffer before its terminator. */
  function CString(b: seq<byte>): (r: seq<byte>)
    ensures |r| <= |b|
  {
    if b == [] || b[0] == 0 then [] else [b[0]] + CString(b[1..])
  }

  lemma {:induction false} CStringIsPrefix(b: seq<byte>)
    ensures CString(b) == b[..|CString(b)|]
    ensures forall i :: 0 <= i < |CString(b)| ==> b[i] != 0
    ensures |CString(b)| < |b| ==> b[|CString(b)|] == 0
    ensures CString(CString(b)) == CString(b)
  {
    if b != [] && b[0] != 0 {
      CStringIsPrefix(b[1..]);
      assert CString(b)[1..] == CString(b[1..]);
    }
  }
}
