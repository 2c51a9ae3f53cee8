/** pb_encode.c: the encoder. Every method writes exactly the bytes PbFormat gives for its field,
    succeeds exactly when those are defined and fit, and touches nothing outside its stream's room.
    The same holds on a sizing stream, which only counts; so the size that the first pass over a
    submessage finds is the size the second pass writes. */
module PbEncoder {
  import opened PbWire
  import opened PbMessage
  import opened PbFormat
  import opened PbStream
  import opened PbIterator

  /** The stream takes these bytes: they are defined, and there is room for them. */
  ghost predicate Takes(stream: OStream, output: Output)
    reads stream
  {
    output.Written? && stream.Fits(|output.b|)
  }

  /** What every encoding method leaves behind: a valid stream, nothing disturbed outside its room,
      and if ok, exactly this output added. */
  twostate predicate Wrote(stream: OStream, output: Output, ok: bool)
    reads stream, stream.buf
  {
    && stream.Valid() && stream.Kept()
    && (ok ==> output.Written? && stream.out == old(stream.out) + output.b)
  }

  // ---------------------------------------------------------------- sizes

  /** Sizes are counted in size_t: every length prefix in the encoding of this struct is below
      2^64. */
  ghost predicate Countable(f: Field, v: Value)
    requires WellFormedField(f) && Fits(f, v)
    decreases f, 0, 0
  {
    f.ltype.Message? ==> CountableAll(f.ltype.fields, v.cells) && Short(Encode(f.ltype.fields, v.cells))
  }

  ghost predicate CountableCell(f: Field, c: Cell)
    requires WellFormedField(f) && FitsCell(f, c)
    decreases f, 1
  {
    match c
    case One(v) => assert Fits(f, v); Countable(f, v)
    case Flagged(_, v) => Countable(f, v)
    case Many(items) => CountableItems(f, items) && Short(EncItems(f, items, 0))
    case Arm(v) => Countable(f, v)
    case Idle => true
  }

  ghost predicate CountableItems(f: Field, items: seq<Value>)
    requires WellFormedField(f) && forall i :: 0 <= i < |items| ==> Fits(f, items[i])
    decreases f, 0, 1
  {
    forall i :: 0 <= i < |items| ==> Countable(f, items[i])
  }

  ghost predicate CountableAll(fs: seq<Field>, cells: seq<Cell>)
    requires WellFormed(fs) && FitsAll(fs, cells)
    decreases fs
  {
    forall i :: 0 <= i < |fs| ==> CountableCell(fs[i], cells[i])
  }

  predicate Short(output: Output) {
    output.Written? ==> |output.b| < U64
  }

  lemma {:induction false} CatAssociates(done: seq<byte>, x: Output, y: Output)
    ensures x.Written? ==> Cat(Written(done), Cat(x, y)) == Cat(Written(done + x.b), y)
    ensures x.Error? ==> Cat(Written(done), Cat(x, y)) == Error
    ensures Cat(Written([]), y) == y && Cat(Written(done), Written([])) == Written(done)
  {
    if x.Written? && y.Written? {
      assert done + (x.b + y.b) == (done + x.b) + y.b;
    }
    if y.Written? { assert [] + y.b == y.b; }
    assert done + [] == done;
  }

  lemma {:induction false} FieldsStep(fs: seq<Field>, cells: seq<Cell>, k: nat)
    requires WellFormed(fs) && FitsAll(fs, cells) && CountableAll(fs, cells) && k < |fs|
    ensures WellFormedField(fs[k]) && FitsCell(fs[k], cells[k]) && CountableCell(fs[k], cells[k])
    ensures EncFields(fs, cells, k) == Cat(EncCell(fs[k], cells[k]), EncFields(fs, cells, k + 1))
    ensures EncFields(fs, cells, |fs|) == Written([])
  {
  }

  // ---------------------------------------------------------------- the encoder

  /** pb_encode_tag_for_field */
  method EncodeTagForField(stream: OStream, f: Field) returns (ok: bool)
    requires stream.Valid() && WellFormedField(f)
    modifies stream, stream.buf
    ensures ok == old(Takes(stream, Written(EncTag(f.tag, WireType(f.ltype)))))
    ensures Wrote(stream, Written(EncTag(f.tag, WireType(f.ltype))), ok)
  {
    ok := EncodeTag(stream, WireType(f.ltype), f.tag);
  }

  /** pb_encode_tag */
  method EncodeTag(stream: OStream, wireType: nat, fieldNumber: nat) returns (ok: bool)
    requires stream.Valid() && wireType < 8 && fieldNumber < U32
    modifies stream, stream.buf
    ensures ok == old(Takes(stream, Written(EncTag(fieldNumber, wireType))))
    ensures Wrote(stream, Written(EncTag(fieldNumber, wireType)), ok)
  {
    ok := EncodeVarint(stream, fieldNumber * 8 + wireType);
  }

  /** pb_encode_string */
  method EncodeString(stream: OStream, body: seq<byte>) returns (ok: bool)
    requires stream.Valid() && |body| < U64
    modifies stream, stream.buf
    ensures ok == old(Takes(stream, Written(EncDelimited(body))))
    ensures Wrote(stream, Written(EncDelimited(body)), ok)
  {
    ok := EncodeVarint(stream, |body|);
    if !ok {
      return;
    }
    ok := stream.Write(body);
    assert ok ==> stream.out == old(stream.out) + EncDelimited(body);
  }

  /** pb_encode_fixed32 */
  method EncodeFixed32(stream: OStream, val: nat) returns (ok: bool)
    requires stream.Valid() && val < U32
    modifies stream, stream.buf
    ensures ok == old(Takes(stream, Written(LittleEndian(val, 4))))
    ensures Wrote(stream, Written(LittleEndian(val, 4)), ok)
  {
    var bytes := [val % 256, val / 0x100 % 256, val / 0x1_0000 % 256, val / 0x100_0000 % 256];
    assert bytes == LittleEndian(val, 4) by { FourBytes(val); }
    ok := stream.Write(bytes);
  }

  lemma {:induction false} FourBytes(val: nat)
    ensures LittleEndian(val, 4)
            == [val % 256, val / 0x100 % 256, val / 0x1_0000 % 256, val / 0x100_0000 % 256]
  {
    ByteShifts(val);
    var b := val / 0x100;
    var c := b / 0x100;
    assert LittleEndian(val, 4) == [val % 256, b % 256] + LittleEndian(c, 2);
    assert LittleEndian(c, 2) == [c % 256, c / 0x100 % 256];
  }

  lemma {:induction false} ByteShifts(val: nat)
    ensures val / 0x100 / 0x100 == val / 0x1_0000
    ensures val / 0x100 / 0x100 / 0x100 == val / 0x100_0000
    ensures val / 0x100 / 0x100 / 0x100 / 0x100 == val / U32
  {
  }

  /** pb_encode_fixed64 */
  method EncodeFixed64(stream: OStream, val: nat) returns (ok: bool)
    requires stream.Valid() && val < U64
    modifies stream, stream.buf
    ensures ok == old(Takes(stream, Written(LittleEndian(val, 8))))
    ensures Wrote(stream, Written(LittleEndian(val, 8)), ok)
  {
    var high := val / U32;
    var bytes := [val % 256, val / 0x100 % 256, val / 0x1_0000 % 256, val / 0x100_0000 % 256,
                  high % 256, high / 0x100 % 256, high / 0x1_0000 % 256, high / 0x100_0000 % 256];
    assert bytes == LittleEndian(val, 8) by { EightBytes(val); }
    ok := stream.Write(bytes);
  }

  lemma {:induction false} EightBytes(val: nat)
    ensures var high := val / U32;
            LittleEndian(val, 8) == [val % 256, val / 0x100 % 256, val / 0x1_0000 % 256, val / 0x100_0000 % 256,
              high % 256, high / 0x100 % 256, high / 0x1_0000 % 256, high / 0x100_0000 % 256]
  {
    var b := val / 0x100;
    var c := b / 0x100;
    var d := c / 0x100;
    ByteShifts(val);
    assert LittleEndian(val, 8) == [val % 256, b % 256] + LittleEndian(c, 6);
    assert LittleEndian(c, 6) == [c % 256, d % 256] + LittleEndian(d / 0x100, 4);
    assert c == val / 0x1_0000 && d == val / 0x100_0000 && d / 0x100 == val / U32;
    FourBytes(val / U32);
  }

  /** The number encoders: pb_enc_varint, pb_enc_uvarint, pb_enc_svarint, pb_enc_fixed32 and
      pb_enc_fixed64. */
  method EncodeNumber(stream: OStream, f: Field, v: Value) returns (ok: bool)
    requires stream.Valid() && WellFormedField(f) && f.ltype.Packable() && FitsScalar(f, v)
    modifies stream, stream.buf
    ensures ok == old(Takes(stream, EncValue(f, v)))
    ensures Wrote(stream, EncValue(f, v), ok)
  {
    if f.ltype.Fixed32? {
      ok := EncodeFixed32(stream, v.n);
    } else if f.ltype.Fixed64? {
      ok := EncodeFixed64(stream, v.n);
    } else if f.dataSize != 1 && f.dataSize != 2 && f.dataSize != 4 && f.dataSize != 8 {
      ok := false;
    } else if f.ltype.Int? {
      ok := EncodeVarint(stream, ToU64(v.n));
    } else if f.ltype.UInt? {
      ok := EncodeVarint(stream, v.n);
    } else {
      ok := EncodeSVarint(stream, v.n);
    }
  }

  /** The length loop of pb_enc_string: the characters before the terminator, at most maxSize. */
  method StringLength(b: seq<byte>, maxSize: nat) returns (size: nat)
    requires |b| <= maxSize
    ensures size == |CString(b)|
  {
    size := 0;
    while size < |b| && b[size] != 0
      invariant size <= |b|
      invariant |CString(b)| == size + |CString(b[size..])|
    {
      assert b[size..][1..] == b[size + 1..];
      size := size + 1;
    }
  }

  /** PB_ENCODERS: one item of any type. */
  method EncodeItem(stream: OStream, f: Field, v: Value) returns (ok: bool)
    requires stream.Valid() && WellFormedField(f) && Fits(f, v) && Countable(f, v)
    modifies stream, stream.buf
    ensures ok == old(Takes(stream, EncValue(f, v)))
    ensures Wrote(stream, EncValue(f, v), ok)
    decreases f, 0
  {
    if f.ltype.Packable() {
      ok := EncodeNumber(stream, f, v);
    } else if f.ltype.Message? {
      ok := EncodeSubmessage(stream, f.ltype.fields, v.cells);
    } else if f.ltype.Bytes? {
      if BYTES_HEADER + |v.b| > f.dataSize {
        return false;
      }
      ok := EncodeString(stream, v.b);
    } else if f.ltype.String? {
      var size := StringLength(v.b, f.dataSize);
      CStringIsPrefix(v.b);
      ok := EncodeString(stream, v.b[..size]);
    } else {
      ok := EncodeString(stream, v.b);
    }
  }

  /** pb_encode_submessage: a sizing pass, then the length, then the real pass on a substream of
      exactly that size. Since ok is equivalent to the first pass succeeding and the result fitting,
      the "submsg size changed" error is never raised and the inner stream is never full. */
  method EncodeSubmessage(stream: OStream, fs: seq<Field>, cells: seq<Cell>) returns (ok: bool)
    requires stream.Valid() && WellFormed(fs) && FitsAll(fs, cells)
    requires CountableAll(fs, cells) && Short(Encode(fs, cells))
    modifies stream, stream.buf
    ensures var whole := match Encode(fs, cells) case Error => Error case Written(b) => Written(EncDelimited(b));
            ok == old(Takes(stream, whole)) && Wrote(stream, whole, ok)
    decreases fs, 1, 2
  {
    var sizing := new OStream.Sizing();
    ok := EncodeMessage(sizing, fs, cells);
    if !ok {
      return;
    }
    ok := EncodeSized(stream, fs, cells, sizing.bytesWritten);
  }

  /** The length, and then the real pass. */
  method EncodeSized(stream: OStream, fs: seq<Field>, cells: seq<Cell>, size: nat) returns (ok: bool)
    requires stream.Valid() && WellFormed(fs) && FitsAll(fs, cells) && CountableAll(fs, cells)
    requires Short(Encode(fs, cells)) && Encode(fs, cells).Written? && |Encode(fs, cells).b| == size
    modifies stream, stream.buf
    ensures var whole := Written(EncDelimited(Encode(fs, cells).b));
            ok == old(Takes(stream, whole)) && Wrote(stream, whole, ok)
    decreases fs, 1, 1
  {
    ghost var body := Encode(fs, cells).b;
    hide EncVarint, EncFields, WellFormed, FitsAll, CountableAll;
    ok := EncodeVarint(stream, size);
    if !ok {
      return;
    }
    if stream.sizing {
      stream.Count(size, body);
    } else {
      ok := EncodeBody(stream, fs, cells, size);
    }
    assert ok ==> stream.out == old(stream.out) + EncDelimited(body);
  }

  /** The real pass of pb_encode_submessage. */
  method EncodeBody(stream: OStream, fs: seq<Field>, cells: seq<Cell>, size: nat) returns (ok: bool)
    requires stream.Valid() && !stream.sizing && WellFormed(fs) && FitsAll(fs, cells) && CountableAll(fs, cells)
    requires Encode(fs, cells).Written? && |Encode(fs, cells).b| == size
    modifies stream, stream.buf
    ensures ok == old(stream.Fits(size))
    ensures Wrote(stream, Encode(fs, cells), ok)
    decreases fs, 1, 0
  {
    hide EncFields, WellFormed, FitsAll, CountableAll;
    if stream.bytesWritten + size > stream.maxSize {
      return false;
    }
    var substream := new OStream(stream.buf, stream.state, size);
    var status := EncodeMessage(substream, fs, cells);
    ghost var start, mid := stream.start, stream.state;
    assert stream.buf[start..mid] == old(stream.buf[start..mid]);
    stream.bytesWritten := stream.bytesWritten + substream.bytesWritten;
    stream.state := substream.state;
    stream.out := stream.out + substream.out;
    assert stream.buf[start..stream.state] == stream.buf[start..mid] + stream.buf[mid..stream.state];
    if substream.bytesWritten != size {
      return false;
    }
    ok := status;
  }

  /** pb_encode */
  method EncodeMessage(stream: OStream, fs: seq<Field>, cells: seq<Cell>) returns (ok: bool)
    requires stream.Valid() && WellFormed(fs) && FitsAll(fs, cells) && CountableAll(fs, cells)
    modifies stream, stream.buf
    ensures ok == old(Takes(stream, Encode(fs, cells)))
    ensures Wrote(stream, Encode(fs, cells), ok)
    decreases fs, 0, 2
  {
    LayoutDescribes(fs);
    var iter := new FieldIter(fs, 0, Layout(fs));
    if fs == [] {
      return true;
    }
    ok := EncodeLoop(stream, fs, cells, iter, Encode(fs, cells));
  }

  /** Of the whole output, these bytes come from the fields before k, and `rest` from those from k on. */
  ghost predicate Left(fs: seq<Field>, cells: seq<Cell>, k: nat, whole: Output, done: seq<byte>, rest: Output) {
    && WellFormed(fs) && FitsAll(fs, cells) && CountableAll(fs, cells) && k <= |fs|
    && rest == EncFields(fs, cells, k) && whole == Cat(Written(done), rest)
  }

  /** pb_encode's loop. */
  method EncodeLoop(stream: OStream, fs: seq<Field>, cells: seq<Cell>, iter: FieldIter, ghost whole: Output)
    returns (ok: bool)
    requires stream.Valid() && WellFormed(fs) && FitsAll(fs, cells) && CountableAll(fs, cells)
    requires iter.Valid() && iter.start == fs && fs != [] && iter.pos == 0 && whole == Encode(fs, cells)
    modifies stream, stream.buf, iter
    ensures ok == old(Takes(stream, whole))
    ensures Wrote(stream, whole, ok)
    decreases fs, 0, 1
  {
    AllLeft(fs, cells);
    hide Encode, EncFields, WellFormed, FitsAll, CountableAll, FieldIter.Valid, EncCell, Cat, OStream.Valid, Left;
    ghost var done, rest := [], whole;
    var more := true;
    while more
      invariant iter.Valid() && stream.Valid() && stream.Kept() && stream.out == old(stream.out) + done
      invariant stream.bytesWritten == old(stream.bytesWritten) + |done|
      invariant Left(fs, cells, if more then iter.pos else |fs|, whole, done, rest)
      decreases more, |fs| - iter.pos
    {
      ghost var one;
      ok, more, one, rest := EncodeNext(stream, fs, cells, iter, whole, done, rest);
      if !ok {
        return;
      }
      done := done + one;
    }
    NothingLeft(fs, cells, whole, done, rest);
    return true;
  }

  lemma {:induction false} AllLeft(fs: seq<Field>, cells: seq<Cell>)
    requires WellFormed(fs) && FitsAll(fs, cells) && CountableAll(fs, cells)
    ensures Left(fs, cells, 0, Encode(fs, cells), [], Encode(fs, cells))
  {
    CatAssociates([], Error, Encode(fs, cells));
    hide EncFields, Cat;
  }

  lemma {:induction false} NothingLeft(fs: seq<Field>, cells: seq<Cell>, whole: Output, done: seq<byte>, rest: Output)
    requires Left(fs, cells, |fs|, whole, done, rest)
    ensures whole == Written(done)
  {
    CatAssociates(done, Error, Written([]));
  }

  /** One turn of pb_encode's loop. */
  method EncodeNext(stream: OStream, fs: seq<Field>, cells: seq<Cell>, iter: FieldIter,
                    ghost whole: Output, ghost done: seq<byte>, ghost rest: Output)
    returns (ok: bool, more: bool, ghost one: seq<byte>, ghost next: Output)
    requires stream.Valid() && iter.Valid() && iter.start == fs && fs != []
    requires Left(fs, cells, iter.pos, whole, done, rest)
    modifies stream, stream.buf, iter
    ensures stream.Valid() && stream.Kept() && iter.Valid()
    ensures more <==> ok && old(iter.pos) + 1 < |fs|
    ensures more ==> iter.pos == old(iter.pos) + 1
    ensures ok ==> stream.out == old(stream.out) + one && old(stream.Fits(|one|))
    ensures ok ==> stream.bytesWritten == old(stream.bytesWritten) + |one|
    ensures ok ==> Left(fs, cells, old(iter.pos) + 1, whole, done + one, next)
    ensures !ok ==> whole.Error? || !old(stream.Fits(|whole.b| - |done|))
    decreases fs, 0, 0
  {
    ghost var k := iter.pos;
    ghost var output := EncCell(fs[k], cells[k]);
    next := EncFields(fs, cells, k + 1);
    FieldsStep(fs, cells, k);
    hide EncCell, EncFields, WellFormed, FitsAll, CountableAll, Describes, CountableCell, FitsCell, WellFormedField;
    CatAssociates(done, output, next);
    ok := EncodeField(stream, fs[iter.pos], cells[iter.pos]);
    more, one := false, [];
    if !ok {
      return;
    }
    one := output.b;
    more := iter.Next();
  }

  /** encode_basic_field */
  method EncodeField(stream: OStream, f: Field, c: Cell) returns (ok: bool)
    requires stream.Valid() && WellFormedField(f) && FitsCell(f, c) && CountableCell(f, c)
    modifies stream, stream.buf
    ensures ok == old(Takes(stream, EncCell(f, c)))
    ensures Wrote(stream, EncCell(f, c), ok)
    decreases f, 3
  {
    match f.htype {
      case Required => ok := EncodeTagged(stream, f, c.v);
      case Optional =>
        assert Fits(f, c.v);
        var has := if f.sizeOffset != 0 then c.has else !IsZero(f, c.v);
        if !has {
          return true;
        }
        ok := EncodeTagged(stream, f, c.v);
      case Repeated => ok := EncodeArray(stream, f, c.items);
      case OneOf =>
        if c.Idle? {
          return true;
        }
        ok := EncodeTagged(stream, f, c.v);
    }
  }

  method EncodeTagged(stream: OStream, f: Field, v: Value) returns (ok: bool)
    requires stream.Valid() && WellFormedField(f) && Fits(f, v) && Countable(f, v)
    modifies stream, stream.buf
    ensures ok == old(Takes(stream, EncTagged(f, v)))
    ensures Wrote(stream, EncTagged(f, v), ok)
    decreases f, 1
  {
    ok := EncodeTagForField(stream, f);
    if !ok {
      return;
    }
    ok := EncodeItem(stream, f, v);
    assert ok ==> stream.out == old(stream.out) + EncTagged(f, v).b;
  }

  /** encode_array */
  method EncodeArray(stream: OStream, f: Field, items: seq<Value>) returns (ok: bool)
    requires stream.Valid() && WellFormedField(f) && (forall i :: 0 <= i < |items| ==> Fits(f, items[i]))
    requires CountableItems(f, items) && Short(EncItems(f, items, 0))
    modifies stream, stream.buf
    ensures ok == old(Takes(stream, EncArray(f, items)))
    ensures Wrote(stream, EncArray(f, items), ok)
    decreases f, 2, 2
  {
    if |items| == 0 {
      return true;
    }
    if |items| > f.arraySize {
      return false;
    }
    if f.ltype.Packable() {
      ok := EncodePacked(stream, f, items);
    } else {
      ok := EncodeEach(stream, f, items);
    }
  }

  /** The loop over an array's items. */
  method EncodeEach(stream: OStream, f: Field, items: seq<Value>) returns (ok: bool)
    requires stream.Valid() && WellFormedField(f) && (forall i :: 0 <= i < |items| ==> Fits(f, items[i]))
    requires CountableItems(f, items) && Short(EncItems(f, items, 0))
    modifies stream, stream.buf
    ensures ok == old(Takes(stream, EncItems(f, items, 0)))
    ensures Wrote(stream, EncItems(f, items, 0), ok)
    decreases f, 2, 0
  {
    ghost var done: seq<byte> := [];
    var i := 0;
    CatAssociates([], Error, EncItems(f, items, 0));
    hide EncValue, EncTagged, Countable, Fits, WellFormedField;
    while i < |items|
      invariant i <= |items| && stream.Valid() && stream.Kept()
      invariant stream.out == old(stream.out) + done
      invariant EncItems(f, items, 0) == Cat(Written(done), EncItems(f, items, i))
    {
      ghost var one := PbFormat.EncItem(f, items[i]);
      CatAssociates(done, one, EncItems(f, items, i + 1));
      if f.ltype.Packable() {
        ok := EncodeItem(stream, f, items[i]);
      } else {
        ok := EncodeTagged(stream, f, items[i]);
      }
      if !ok {
        return;
      }
      done := done + one.b;
      i := i + 1;
    }
    CatAssociates(done, Error, Written([]));
    return true;
  }

  method EncodePacked(stream: OStream, f: Field, items: seq<Value>) returns (ok: bool)
    requires stream.Valid() && WellFormedField(f) && (forall i :: 0 <= i < |items| ==> Fits(f, items[i]))
    requires CountableItems(f, items) && Short(EncItems(f, items, 0))
    requires f.ltype.Packable() && 0 < |items| <= f.arraySize
    modifies stream, stream.buf
    ensures ok == old(Takes(stream, EncArray(f, items)))
    ensures Wrote(stream, EncArray(f, items), ok)
    decreases f, 2, 1, 2
  {
    assert f.tag < U32;
    hide EncItems, EncTag, EncVarint, CountableItems, WellFormedField;
    ghost var body := EncItems(f, items, 0);
    ok := EncodeTag(stream, 2, f.tag);
    if ok {
      ok := EncodePackedBody(stream, f, items);
    }
    assert ok ==> stream.out == old(stream.out) + (EncTag(f.tag, 2) + EncDelimited(body.b));
  }

  /** The size of the items of a packed array, by a sizing pass unless it is fixed. */
  method PackedSize(f: Field, items: seq<Value>) returns (ok: bool, size: nat)
    requires WellFormedField(f) && (forall i :: 0 <= i < |items| ==> Fits(f, items[i]))
    requires CountableItems(f, items) && Short(EncItems(f, items, 0)) && f.ltype.Packable()
    ensures ok == EncItems(f, items, 0).Written?
    ensures ok ==> size == |EncItems(f, items, 0).b|
    decreases f, 2, 1, 0
  {
    if f.ltype.Fixed32? {
      size := 4 * |items|;
      FixedSize(f, items, 0);
      ok := true;
    } else if f.ltype.Fixed64? {
      size := 8 * |items|;
      FixedSize(f, items, 0);
      ok := true;
    } else {
      var sizestream := new OStream.Sizing();
      ok := EncodeEach(sizestream, f, items);
      size := sizestream.bytesWritten;
    }
  }

  /** The length and the items of a packed array. */
  method EncodePackedBody(stream: OStream, f: Field, items: seq<Value>) returns (ok: bool)
    requires stream.Valid() && WellFormedField(f) && (forall i :: 0 <= i < |items| ==> Fits(f, items[i]))
    requires CountableItems(f, items) && Short(EncItems(f, items, 0)) && f.ltype.Packable()
    modifies stream, stream.buf
    ensures var whole := match EncItems(f, items, 0) case Error => Error case Written(b) => Written(EncDelimited(b));
            ok == old(Takes(stream, whole)) && Wrote(stream, whole, ok)
    decreases f, 2, 1, 1
  {
    hide EncItems, EncVarint, CountableItems, WellFormedField;
    ghost var body := EncItems(f, items, 0);
    var size;
    ok, size := PackedSize(f, items);
    if !ok {
      return;
    }
    ok := EncodeVarint(stream, size);
    if !ok {
      return;
    }
    if stream.sizing {
      stream.Count(size, body.b);
    } else {
      ok := EncodeEach(stream, f, items);
    }
    assert ok ==> stream.out == old(stream.out) + EncDelimited(body.b);
  }

  lemma {:induction false} FixedSize(f: Field, items: seq<Value>, k: nat)
    requires WellFormedField(f) && k <= |items| && forall i :: 0 <= i < |items| ==> Fits(f, items[i])
    requires f.ltype.Fixed32? || f.ltype.Fixed64?
    ensures EncItems(f, items, k).Written?
    ensures |EncItems(f, items, k).b| == if f.ltype.Fixed32? then 4 * (|items| - k) else 8 * (|items| - k)
    decreases |items| - k
  {
    if k < |items| {
      assert PbFormat.EncItem(f, items[k]) == EncValue(f, items[k]);
      FixedSize(f, items, k + 1);
    } else {
      assert EncItems(f, items, k) == Written([]);
    }
  }

  /** pb_get_encoded_size: the size of what pb_encode would write. */
  method GetEncodedSize(fs: seq<Field>, cells: seq<Cell>) returns (ok: bool, size: nat)
    requires WellFormed(fs) && FitsAll(fs, cells) && CountableAll(fs, cells)
    ensures ok <==> Encode(fs, cells).Written?
    ensures ok ==> size == |Encode(fs, cells).b|
  {
    var stream := new OStream.Sizing();
    ok := EncodeMessage(stream, fs, cells);
    size := stream.bytesWritten;
  }
}
