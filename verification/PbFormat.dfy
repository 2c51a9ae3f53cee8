/** What pb_encode writes and what pb_decode understands, as functions on byte strings. The
    imperative encoder and decoder (PbEncoder, PbDecoder) are proved to compute exactly these, and
    the laws between the two directions are proved here and in PbLaws. */
module PbFormat {
  import opened PbWire
  import opened PbMessage

  // ---------------------------------------------------------------- encoding

  /** Bytes written, or Error where the encoder reports an error. */
  datatype Output = Error | Written(b: seq<byte>)

  function Cat(x: Output, y: Output): Output {
    if x.Written? && y.Written? then Written(x.b + y.b) else Error
  }

  /** pb_wire_type_t of a field's own encoding. */
  function WireType(t: LType): (wt: nat)
    ensures wt < 8
  {
    match t
    case Int | UInt | SInt => 0
    case Fixed64 => 1
    case Bytes | String | Message(_) | FixedBytes => 2
    case Fixed32 => 5
  }

  /** pb_encode_tag */
  function EncTag(tag: nat, wt: nat): (s: seq<byte>)
    ensures |s| > 0
  {
    EncVarint(tag * 8 + wt)
  }

  /** The encoders in PB_ENCODERS: one item, without its tag. */
  function EncValue(f: Field, v: Value): Output
    requires WellFormedField(f) && Fits(f, v)
    decreases f, 0, 0
  {
    match f.ltype
    case Int => if IntSize(f.dataSize) then Written(EncVarint(ToU64(v.n))) else Error
    case UInt => if IntSize(f.dataSize) then Written(EncVarint(v.n)) else Error
    case SInt => if IntSize(f.dataSize) then Written(EncVarint(ZigZag(v.n))) else Error
    case Fixed32 => Written(LittleEndian(v.n, 4))
    case Fixed64 => Written(LittleEndian(v.n, 8))
    case Bytes => if BYTES_HEADER + |v.b| > f.dataSize then Error else Written(EncDelimited(v.b))
    case String => Written(EncDelimited(CString(v.b)))
    case FixedBytes => Written(EncDelimited(v.b))
    case Message(fs) =>
      match EncFields(fs, v.cells, 0)
      case Error => Error
      case Written(body) => Written(EncDelimited(body))
  }

  /** Items k and up, one after another; each behind its own tag when the array is not packed. */
  function EncItems(f: Field, items: seq<Value>, k: nat): Output
    requires WellFormedField(f) && k <= |items| && forall i :: 0 <= i < |items| ==> Fits(f, items[i])
    decreases f, 3, |items| - k
  {
    if k == |items| then Written([])
    else Cat(EncItem(f, items[k]), EncItems(f, items, k + 1))
  }

  function EncItem(f: Field, v: Value): Output
    requires WellFormedField(f) && Fits(f, v)
    decreases f, 2, 0
  {
    if f.ltype.Packable() then EncValue(f, v) else EncTagged(f, v)
  }

  /** A tag followed by one item. */
  function EncTagged(f: Field, v: Value): Output
    requires WellFormedField(f) && Fits(f, v)
    decreases f, 1, 0
  {
    Cat(Written(EncTag(f.tag, WireType(f.ltype))), EncValue(f, v))
  }

  /** encode_array: arrays are packed whenever the type allows it, and an empty one is left out. */
  function EncArray(f: Field, items: seq<Value>): Output
    requires WellFormedField(f) && forall i :: 0 <= i < |items| ==> Fits(f, items[i])
    decreases f, 4
  {
    if |items| == 0 then Written([])
    else if |items| > f.arraySize then Error
    else if f.ltype.Packable() then
      match EncItems(f, items, 0)
      case Error => Error
      case Written(body) => Written(EncTag(f.tag, 2) + EncDelimited(body))
    else EncItems(f, items, 0)
  }

  /** pb_check_proto3_default_value, for every type a singular field of this model can have. */
  predicate IsZero(f: Field, v: Value)
    requires !f.ltype.Message? && FitsScalar(f, v)
  {
    if f.ltype.Bytes? then |v.b| == 0
    else if f.ltype.String? then |v.b| == 0 || v.b[0] == 0
    else if f.ltype.FixedBytes? then f.dataSize == 0
    else v.n == 0 || f.dataSize == 0
  }

  /** encode_basic_field */
  function EncCell(f: Field, c: Cell): Output
    requires WellFormedField(f) && FitsCell(f, c)
    decreases f, 5
  {
    match c
    case One(v) => assert Fits(f, v); if f.Singular() && IsZero(f, v) then Written([]) else EncTagged(f, v)
    case Flagged(has, v) => if has then EncTagged(f, v) else Written([])
    case Many(items) => EncArray(f, items)
    case Arm(v) => EncTagged(f, v)
    case Idle => Written([])
  }

  /** pb_encode, from field k on. */
  function EncFields(fs: seq<Field>, cells: seq<Cell>, k: nat): Output
    requires WellFormed(fs) && FitsAll(fs, cells) && k <= |fs|
    decreases fs, |fs| - k
  {
    if k == |fs| then Written([]) else Cat(EncCell(fs[k], cells[k]), EncFields(fs, cells, k + 1))
  }

  function Encode(fs: seq<Field>, cells: seq<Cell>): Output
    requires WellFormed(fs) && FitsAll(fs, cells)
  {
    EncFields(fs, cells, 0)
  }

  // ---------------------------------------------------------------- decoding

  datatype TagRead =
    | Eof(rest: seq<byte>)                          // end of message
    | BadTag                                        // malformed
    | Tag(tag: nat, wireType: nat, rest: seq<byte>)

  /** pb_decode_tag on nonempty input. A tag that fails to read because the input is used up
      counts as the end of the message, and so does a zero tag. */
  function ReadTag(s: seq<byte>): (r: TagRead)
    ensures r.Tag? ==> |r.rest| < |s|
    ensures r.Eof? ==> |r.rest| <= |s|
  {
    match Varint32(s)
    case Fail => if |s| <= 5 then Eof([]) else BadTag
    case Done(n, rest) => if n == 0 then Eof(rest) else Tag(n / 8, n % 8, rest)
  }

  /** pb_skip_field */
  function Skip(wt: nat, s: seq<byte>): (r: Read<()>)
    ensures r.Done? ==> |r.rest| <= |s|
  {
    match wt
    case 0 => (match Varint(s) case Fail => Fail case Done(_, rest) => Done((), rest))
    case 1 => (match Take(s, 8) case Fail => Fail case Done(_, rest) => Done((), rest))
    case 2 => (match Delimited(s) case Fail => Fail case Done(_, rest) => Done((), rest))
    case 5 => (match Take(s, 4) case Fail => Fail case Done(_, rest) => Done((), rest))
    case _ => Fail
  }

  /** The entry with this tag, or None. */
  function Find(fs: seq<Field>, tag: nat, k: nat): (i: nat)
    requires k <= |fs|
    ensures k <= i <= |fs|
    ensures i < |fs| ==> fs[i].tag == tag
    ensures forall j :: k <= j < i ==> fs[j].tag != tag
    decreases |fs| - k
  {
    if k == |fs| || fs[k].tag == tag then k else Find(fs, tag, k + 1)
  }

  /** (int32_t)value */
  function ToS32(v: nat): int {
    var w := v % U32;
    if w < 0x8000_0000 then w else w - U32
  }

  /** The number stored in the destination, or None when a cast to its size changes it. */
  function Clamp(f: Field, n: int): Read<Value> {
    if IntSize(f.dataSize) && FitsScalar(f, Num(n)) then Done(Num(n), []) else Fail
  }

  /** The numbers: pb_dec_varint, pb_dec_uvarint, pb_dec_svarint and the fixed-width decoders. */
  function DecNumber(f: Field, s: seq<byte>): (r: Read<Value>)
    requires f.ltype.Packable()
    ensures r.Done? ==> |r.rest| < |s| && FitsScalar(f, r.value)
  {
    if f.ltype.Fixed32? || f.ltype.Fixed64? then
      match Take(s, if f.ltype.Fixed32? then 4 else 8)
      case Fail => Fail
      case Done(b, rest) =>
        FromLittleEndianBound(b); Pow256Values();
        Done(Num(FromLittleEndian(b)), rest)
    else
      match Varint64(s)
      case Fail => Fail
      case Done(v, rest) =>
        var n := if f.ltype.UInt? then v
                 else if f.ltype.SInt? then UnZigZag(v)
                 else if f.dataSize == 8 then ToS64(v) else ToS32(v);
        if Clamp(f, n).Done? then Done(Num(n), rest) else Fail
  }

  /** pb_dec_bytes, pb_dec_string and pb_dec_fixed_length_bytes. */
  function DecBlob(f: Field, s: seq<byte>): (r: Read<Value>)
    requires WellFormedField(f) && (f.ltype.Bytes? || f.ltype.String? || f.ltype.FixedBytes?)
    ensures r.Done? ==> |r.rest| < |s| && FitsScalar(f, r.value)
  {
    match Delimited(s)
    case Fail => Fail
    case Done(b, rest) =>
      if f.ltype.Bytes? then
        if |b| > PB_SIZE_MAX || BYTES_HEADER + |b| > f.dataSize then Fail else Done(Blob(b), rest)
      else if f.ltype.String? then
        if |b| + 1 > f.dataSize then Fail else Done(Blob(b), rest)
      else if |b| == 0 then Done(Blob(seq(f.dataSize, _ => 0)), rest)
      else if |b| != f.dataSize then Fail
      else Done(Blob(b), rest)
  }

  /** The decoders in PB_DECODERS, reading one item over the old data. An array element starts
      from defaults; any other submessage is merged into what is there. */
  function DecValue(f: Field, was: Value, s: seq<byte>): (r: Read<Value>)
    requires WellFormedField(f) && Fits(f, was)
    ensures r.Done? ==> |r.rest| < |s| && Fits(f, r.value)
    decreases |s|, 0
  {
    if f.ltype.Message? then
      match Delimited(s)
      case Fail => Fail
      case Done(body, rest) =>
        var fs := f.ltype.fields;
        DefaultsFit(fs);
        match DecodeNoInit(fs, if f.htype.Repeated? then Defaults(fs, 0) else was.cells, body)
        case Fail => Fail
        case Done(cells, _) => Done(Sub(cells), rest)
    else if f.ltype.Packable() then DecNumber(f, s)
    else DecBlob(f, s)
  }

  /** The items of a packed array, appended to those already there. */
  function DecPacked(f: Field, items: seq<Value>, s: seq<byte>): (r: Read<seq<Value>>)
    requires WellFormedField(f) && f.ltype.Packable()
    requires forall i :: 0 <= i < |items| ==> Fits(f, items[i])
    ensures r.Done? ==> r.rest == [] && forall i :: 0 <= i < |r.value| ==> Fits(f, r.value[i])
    decreases |s|
  {
    if s == [] then Done(items, [])
    else if |items| >= f.arraySize then Fail
    else
      match DecNumber(f, s)
      case Fail => Fail
      case Done(v, rest) => DecPacked(f, items + [v], rest)
  }

  /** The repeated case of decode_static_field: a packed array of any number of items, or one more
      item. */
  function DecElements(f: Field, wt: nat, items: seq<Value>, s: seq<byte>): (r: Read<seq<Value>>)
    requires WellFormedField(f) && forall i :: 0 <= i < |items| ==> Fits(f, items[i])
    ensures r.Done? ==> |r.rest| < |s| && forall i :: 0 <= i < |r.value| ==> Fits(f, r.value[i])
    decreases |s|, 1, 0
  {
    if wt == 2 && f.ltype.Packable() then
      match Delimited(s)
      case Fail => Fail
      case Done(body, rest) =>
        match DecPacked(f, items, body)
        case Fail => Fail
        case Done(items', _) => Done(items', rest)
    else if |items| >= f.arraySize then Fail
    else
      InitFits(f);
      match DecValue(f, InitValue(f), s)
      case Fail => Fail
      case Done(v, rest) => Done(items + [v], rest)
  }

  lemma {:induction false} StoreFits(fs: seq<Field>, i: nat, cells: seq<Cell>, c: Cell)
    requires FitsAll(fs, cells) && i < |fs| && FitsCell(fs[i], c) && !c.Arm?
    ensures FitsAll(fs, cells[i := c])
  {
    hide FitsCell, SameUnion;
  }

  lemma {:induction false} SelectFits(fs: seq<Field>, i: nat, cells: seq<Cell>, v: Value)
    requires FitsAll(fs, cells) && i < |fs| && fs[i].htype.OneOf? && Fits(fs[i], v)
    ensures FitsAll(fs, Select(fs, cells, i, v))
  {
    hide Fits;
    var r := Select(fs, cells, i, v);
    forall j | 0 <= j < |fs| ensures FitsCell(fs[j], r[j]) {
      assert FitsCell(fs[j], cells[j]);
    }
  }

  /** decode_static_field for entry i of the descriptor. */
  function DecField(fs: seq<Field>, i: nat, wt: nat, cells: seq<Cell>, s: seq<byte>): (r: Read<seq<Cell>>)
    requires WellFormed(fs) && FitsAll(fs, cells) && i < |fs|
    ensures r.Done? ==> |r.rest| < |s| && FitsAll(fs, r.value)
    decreases |s|, 1, 1
  {
    var f := fs[i];
    InitFits(f);
    assert FitsCell(f, cells[i]);
    match f.htype
    case Required =>
      (match DecValue(f, cells[i].v, s)
       case Fail => Fail
       case Done(v, rest) => StoreFits(fs, i, cells, One(v)); Done(cells[i := One(v)], rest))
    case Optional =>
      (match DecValue(f, cells[i].v, s)
       case Fail => Fail
       case Done(v, rest) =>
         var c := if f.Singular() then One(v) else Flagged(true, v);
         StoreFits(fs, i, cells, c);
         Done(cells[i := c], rest))
    case Repeated =>
      (match DecElements(f, wt, cells[i].items, s)
       case Fail => Fail
       case Done(items, rest) => StoreFits(fs, i, cells, Many(items)); Done(cells[i := Many(items)], rest))
    case OneOf =>
      (match DecValue(f, InitValue(f), s)
       case Fail => Fail
       case Done(v, rest) => SelectFits(fs, i, cells, v); Done(Select(fs, cells, i, v), rest))
  }

  /** One turn of pb_decode_noinit's loop. */
  datatype Turn =
    | Stop(rest: seq<byte>)
    | Bad
    | Next(cells: seq<Cell>, seen: set<nat>, rest: seq<byte>)

  function DecTurn(fs: seq<Field>, cells: seq<Cell>, seen: set<nat>, s: seq<byte>): (r: Turn)
    requires WellFormed(fs) && FitsAll(fs, cells)
    ensures r.Next? ==> |r.rest| < |s| && FitsAll(fs, r.cells)
    decreases |s|, 2
  {
    match ReadTag(s)
    case Eof(rest) => Stop(rest)
    case BadTag => Bad
    case Tag(tag, wt, rest) =>
      var i := Find(fs, tag, 0);
      if i < |fs| then
        match DecField(fs, i, wt, cells, rest)
        case Fail => Bad
        case Done(cells', rest') => Next(cells', seen + NewlySeen(fs, i), rest')
      else if fs == [] && tag == 0 then Bad
      else
        match Skip(wt, rest)
        case Fail => Bad
        case Done(_, rest') => Next(cells, seen, rest')
  }

  /** The bit of fields_seen that meeting field i sets. */
  function NewlySeen(fs: seq<Field>, i: nat): set<nat>
    requires i < |fs|
  {
    if fs[i].htype.Required? then {RequiredBefore(fs, i)} else {}
  }

  /** pb_decode_noinit's loop. */
  function DecLoop(fs: seq<Field>, cells: seq<Cell>, seen: set<nat>, s: seq<byte>): (r: Read<(seq<Cell>, set<nat>)>)
    requires WellFormed(fs) && FitsAll(fs, cells)
    ensures r.Done? ==> FitsAll(fs, r.value.0)
    decreases |s|, 3
  {
    if s == [] then Done((cells, seen), [])
    else
      match DecTurn(fs, cells, seen, s)
      case Stop(rest) => Done((cells, seen), rest)
      case Bad => Fail
      case Next(cells', seen', rest) => DecLoop(fs, cells', seen', rest)
  }

  /** The required fields among fields k and up, by required_field_index. */
  function RequiredFrom(fs: seq<Field>, k: nat): set<nat>
    requires k <= |fs|
    decreases |fs| - k
  {
    if k == |fs| then {} else NewlySeen(fs, k) + RequiredFrom(fs, k + 1)
  }

  function AllRequired(fs: seq<Field>): set<nat> {
    RequiredFrom(fs, 0)
  }

  /** pb_decode_noinit: decode over the struct as it is. */
  function DecodeNoInit(fs: seq<Field>, cells: seq<Cell>, s: seq<byte>): (r: Read<seq<Cell>>)
    requires WellFormed(fs) && FitsAll(fs, cells)
    ensures r.Done? ==> FitsAll(fs, r.value)
    decreases |s|, 4
  {
    match DecLoop(fs, cells, {}, s)
    case Fail => Fail
    case Done(p, rest) => if p.1 == AllRequired(fs) then Done(p.0, rest) else Fail
  }

  /** pb_decode: decode over defaults. */
  function Decode(fs: seq<Field>, s: seq<byte>): (r: Read<seq<Cell>>)
    requires WellFormed(fs)
    ensures r.Done? ==> FitsAll(fs, r.value)
  {
    DefaultsFit(fs);
    DecodeNoInit(fs, Defaults(fs, 0), s)
  }
}
