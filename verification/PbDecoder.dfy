/** pb_decode.c: the decoder. Every method succeeds exactly when PbFormat's reading of its input is
    defined, stores exactly what that reading gives, and leaves the stream exactly behind it. */
module PbDecoder {
  import opened PbWire
  import opened PbMessage
  import opened PbFormat
  import opened PbStream
  import opened PbIterator
  import opened PbRequired

  /** A destination struct. A submessage is decoded into a struct of its own and put back; in the C
      code it lies inside its parent. */
  class Struct {
    var cells: seq<Cell>

    constructor (cells: seq<Cell>)
      ensures this.cells == cells
    {
      this.cells := cells;
    }
  }

  // ---------------------------------------------------------------- defaults

  /** pb_field_set_to_default */
  method FieldSetToDefault(f: Field) returns (c: Cell)
    requires WellFormedField(f)
    ensures c == InitCell(f)
    decreases f, 1
  {
    match f.htype {
      case Repeated => c := Many([]);
      case OneOf => c := Idle;
      case _ =>
        var v := f.init;
        if f.ltype.Message? {
          var sub := new Struct([]);
          MessageSetToDefaults(f.ltype.fields, sub);
          v := Sub(sub.cells);
        }
        c := if f.htype.Optional? && f.sizeOffset != 0 then Flagged(false, v) else One(v);
    }
  }

  /** pb_message_set_to_defaults */
  method MessageSetToDefaults(fs: seq<Field>, dest: Struct)
    requires WellFormed(fs)
    modifies dest
    ensures dest.cells == Defaults(fs, 0)
    decreases fs, 0
  {
    dest.cells := seq(|fs|, _ => Idle);
    LayoutDescribes(fs);
    var iter := new FieldIter(fs, 0, Layout(fs));
    var more := fs != [];
    ghost var done := 0;
    while more
      invariant iter.Valid() && iter.start == fs && fresh(iter)
      invariant |dest.cells| == |fs| && done <= |fs|
      invariant if more then done == iter.pos < |fs| else done == |fs|
      invariant forall i :: 0 <= i < done ==> dest.cells[i] == InitCell(fs[i])
      decreases |fs| - done
    {
      var c := FieldSetToDefault(fs[iter.pos]);
      dest.cells := dest.cells[iter.pos := c];
      more := iter.Next();
      done := done + 1;
    }
    assert dest.cells == Defaults(fs, 0);
  }

  // ---------------------------------------------------------------- single items

  /** pb_decode_fixed32 and pb_decode_fixed64 */
  method DecodeFixed(stream: IStream, wide: bool) returns (ok: bool, n: nat)
    requires stream.Valid()
    modifies stream
    ensures stream.Valid() && stream.End() == old(stream.End())
    ensures var r := Take(old(stream.Window()), if wide then 8 else 4);
            ok == r.Done? && (ok ==> n == FromLittleEndian(r.value) && stream.Window() == r.rest)
  {
    var b;
    n := 0;
    ok, b := stream.Read(if wide then 8 else 4);
    if ok {
      FourByteValue(b);
      var b0: int, b1: int, b2: int, b3: int := b[0], b[1], b[2], b[3];
      n := b0 + b1 * 0x100 + b2 * 0x1_0000 + b3 * 0x100_0000;
      if wide {
        FourByteValue(b[4..]);
        var b4: int, b5: int, b6: int, b7: int := b[4], b[5], b[6], b[7];
        n := n + b4 * 0x1_0000_0000 + b5 * 0x100_0000_0000 + b6 * 0x1_0000_0000_0000 + b7 * 0x100_0000_0000_0000;
        assert b[4..][4..] == [];
      } else {
        assert b[4..] == [];
      }
    }
  }

  lemma {:induction false} FourByteValue(b: seq<byte>)
    requires |b| >= 4
    ensures FromLittleEndian(b) ==
            b[0] + b[1] * 0x100 + b[2] * 0x1_0000 + b[3] * 0x100_0000 + U32 * FromLittleEndian(b[4..])
  {
    var c := b[1..];
    var d := c[1..];
    var e := d[1..];
    assert e[1..] == b[4..];
    assert FromLittleEndian(e) == b[3] + 256 * FromLittleEndian(b[4..]);
    assert FromLittleEndian(d) == b[2] + 256 * FromLittleEndian(e);
    assert FromLittleEndian(c) == b[1] + 256 * FromLittleEndian(d);
  }

  /** The number decoders: pb_dec_varint, pb_dec_uvarint, pb_dec_svarint, pb_dec_fixed32 and
      pb_dec_fixed64. */
  method DecodeNumber(stream: IStream, f: Field) returns (ok: bool, v: Value)
    requires stream.Valid() && f.ltype.Packable()
    modifies stream
    ensures stream.Valid() && stream.End() == old(stream.End())
    ensures ok == DecNumber(f, old(stream.Window())).Done?
    ensures ok ==> DecNumber(f, old(stream.Window())) == Done(v, stream.Window())
  {
    v := f.init;
    if f.ltype.Fixed32? || f.ltype.Fixed64? {
      var n;
      ok, n := DecodeFixed(stream, f.ltype.Fixed64?);
      v := Num(n);
      return;
    }
    var value;
    ok, value := DecodeVarint(stream);
    if !ok {
      return;
    }
    var n;
    if f.ltype.UInt? {
      n := value;
    } else if f.ltype.SInt? {
      n := if value % 2 == 1 then ToS64(U64 - 1 - value / 2) else ToS64(value / 2);
    } else {
      n := if f.dataSize == 8 then ToS64(value) else ToS32(value);
    }
    v := Num(n);
    ok := IntSize(f.dataSize) && FitsScalar(f, v);
  }

  /** pb_dec_bytes, pb_dec_string and pb_dec_fixed_length_bytes */
  method DecodeBlob(stream: IStream, f: Field) returns (ok: bool, v: Value)
    requires stream.Valid() && WellFormedField(f) && (f.ltype.Bytes? || f.ltype.String? || f.ltype.FixedBytes?)
    modifies stream
    ensures stream.Valid() && stream.End() == old(stream.End())
    ensures ok == DecBlob(f, old(stream.Window())).Done?
    ensures ok ==> DecBlob(f, old(stream.Window())) == Done(v, stream.Window())
  {
    hide Varint;
    var size;
    v := f.init;
    ok, size := DecodeVarint32(stream);
    if !ok {
      return;
    }
    if f.ltype.Bytes? {
      if size > PB_SIZE_MAX || BYTES_HEADER + size > f.dataSize {
        return false, v;
      }
    } else if f.ltype.String? {
      if size + 1 > f.dataSize {
        return false, v;
      }
    } else {
      if size > PB_SIZE_MAX {
        return false, v;
      }
      if size == 0 {
        v := Blob(seq(f.dataSize, _ => 0));
        return true, v;
      }
      if size != f.dataSize {
        return false, v;
      }
    }
    var b;
    ok, b := stream.Read(size);
    v := Blob(b);
  }

  // ---------------------------------------------------------------- messages

  /** PB_DECODERS: one item of any type over the old data. */
  method DecodeItem(stream: IStream, f: Field, was: Value) returns (ok: bool, v: Value)
    requires stream.Valid() && WellFormedField(f) && Fits(f, was)
    modifies stream
    ensures stream.Valid() && stream.End() <= old(stream.End()) && (ok ==> stream.End() == old(stream.End()))
    ensures ok == DecValue(f, was, old(stream.Window())).Done?
    ensures ok ==> DecValue(f, was, old(stream.Window())) == Done(v, stream.Window())
    decreases stream.bytesLeft, 1
  {
    if f.ltype.Packable() {
      ok, v := DecodeNumber(stream, f);
    } else if f.ltype.Message? {
      var sub := new Struct(was.cells);
      ok := DecodeSubmessage(stream, f, sub);
      v := Sub(sub.cells);
    } else {
      ok, v := DecodeBlob(stream, f);
    }
  }

  /** pb_dec_submessage */
  method DecodeSubmessage(stream: IStream, f: Field, dest: Struct) returns (ok: bool)
    requires stream.Valid() && WellFormedField(f) && f.ltype.Message? && FitsAll(f.ltype.fields, dest.cells)
    modifies stream, dest
    ensures stream.Valid() && stream.End() <= old(stream.End()) && (ok ==> stream.End() == old(stream.End()))
    ensures ok == DecValue(f, Sub(old(dest.cells)), old(stream.Window())).Done?
    ensures ok ==> DecValue(f, Sub(old(dest.cells)), old(stream.Window())) == Done(Sub(dest.cells), stream.Window())
    decreases stream.bytesLeft, 0
  {
    hide Delimited, DecodeNoInit, WellFormed, FitsAll;
    var fs := f.ltype.fields;
    var substream;
    ok, substream := MakeSubstream(stream);
    if !ok {
      return;
    }
    if f.htype.Repeated? {
      ok := Decode(substream, fs, dest);
    } else {
      ok := DecodeMessage(substream, fs, dest);
    }
    CloseSubstream(stream, substream);
  }

  /** pb_decode */
  method Decode(stream: IStream, fs: seq<Field>, dest: Struct) returns (ok: bool)
    requires stream.Valid() && WellFormed(fs)
    modifies stream, dest
    ensures stream.Valid() && stream.End() <= old(stream.End()) && (ok ==> stream.End() == old(stream.End()))
    ensures ok == PbFormat.Decode(fs, old(stream.Window())).Done?
    ensures ok ==> PbFormat.Decode(fs, old(stream.Window())) == Done(dest.cells, stream.Window())
    decreases stream.bytesLeft, 6
  {
    MessageSetToDefaults(fs, dest);
    DefaultsFit(fs);
    ok := DecodeMessage(stream, fs, dest);
  }

  /** pb_decode_noinit */
  method DecodeMessage(stream: IStream, fs: seq<Field>, dest: Struct) returns (ok: bool)
    requires stream.Valid() && WellFormed(fs) && FitsAll(fs, dest.cells)
    modifies stream, dest
    ensures stream.Valid() && stream.End() <= old(stream.End()) && (ok ==> stream.End() == old(stream.End()))
    ensures ok == DecodeNoInit(fs, old(dest.cells), old(stream.Window())).Done?
    ensures ok ==> DecodeNoInit(fs, old(dest.cells), old(stream.Window())) == Done(dest.cells, stream.Window())
    decreases stream.bytesLeft, 5
  {
    LayoutDescribes(fs);
    hide DecLoop, FitsAll, WellFormed, Describes, AllRequired;
    var iter := new FieldIter(fs, 0, Layout(fs));
    var fieldsSeen := new bool[64](_ => false);
    ghost var seen: set<nat>;
    ok, seen := DecodeLoop(stream, fs, dest, iter, fieldsSeen);
    if !ok {
      return;
    }
    ok := CheckFieldsSeen(iter, fieldsSeen, seen);
  }

  /** The check at the end: all required fields have been seen. */
  method CheckFieldsSeen(iter: FieldIter, fieldsSeen: array<bool>, ghost seen: set<nat>) returns (ok: bool)
    requires iter.Valid() && WellFormed(iter.start) && Holds(fieldsSeen[..], seen)
    requires forall n :: n in seen ==> n < RequiredBefore(iter.start, |iter.start|)
    modifies iter
    ensures ok <==> seen == AllRequired(iter.start)
  {
    RequiredFromIs(iter.start, 0);
    var count := CountRequired(iter);
    ok := CheckRequired(fieldsSeen, count, seen);
  }

  /** pb_decode_noinit's loop over the input. */
  method DecodeLoop(stream: IStream, fs: seq<Field>, dest: Struct, iter: FieldIter, fieldsSeen: array<bool>)
    returns (ok: bool, ghost seen: set<nat>)
    requires stream.Valid() && WellFormed(fs) && FitsAll(fs, dest.cells)
    requires iter.Valid() && iter.start == fs && Holds(fieldsSeen[..], {})
    modifies stream, dest, iter, fieldsSeen
    ensures stream.Valid() && stream.End() <= old(stream.End()) && (ok ==> stream.End() == old(stream.End())) && iter.Valid()
    ensures ok == DecLoop(fs, old(dest.cells), {}, old(stream.Window())).Done?
    ensures ok ==> DecLoop(fs, old(dest.cells), {}, old(stream.Window())) == Done((dest.cells, seen), stream.Window())
    ensures ok ==> Holds(fieldsSeen[..], seen) && forall n :: n in seen ==> n < RequiredBefore(fs, |fs|)
    decreases stream.bytesLeft, 4
  {
    seen := {};
    var eof := false;
    while stream.bytesLeft > 0 && !eof
      invariant stream.Valid() && stream.End() == old(stream.End()) && stream.bytesLeft <= old(stream.bytesLeft)
      invariant iter.Valid() && FitsAll(fs, dest.cells) && Holds(fieldsSeen[..], seen)
      invariant forall n :: n in seen ==> n < RequiredBefore(fs, |fs|)
      invariant DecLoop(fs, old(dest.cells), {}, old(stream.Window()))
                == if eof then Done((dest.cells, seen), stream.Window())
                   else DecLoop(fs, dest.cells, seen, stream.Window())
      decreases !eof, stream.bytesLeft
    {
      ok, eof, seen := DecodeTurn(stream, fs, dest, iter, fieldsSeen, seen);
      if !ok {
        return;
      }
    }
    return true, seen;
  }

  /** One turn of that loop: a tag, then the field it names or the field to skip. */
  method DecodeTurn(stream: IStream, fs: seq<Field>, dest: Struct, iter: FieldIter, fieldsSeen: array<bool>,
                    ghost seen: set<nat>)
    returns (ok: bool, eof: bool, ghost seen': set<nat>)
    requires stream.Valid() && stream.bytesLeft > 0 && WellFormed(fs) && FitsAll(fs, dest.cells)
    requires iter.Valid() && iter.start == fs && Holds(fieldsSeen[..], seen)
    modifies stream, dest, iter, fieldsSeen
    ensures stream.Valid() && stream.End() <= old(stream.End()) && (ok ==> stream.End() == old(stream.End())) && iter.Valid()
    ensures match DecTurn(fs, old(dest.cells), seen, old(stream.Window()))
            case Stop(rest) => ok && eof && stream.Window() == rest && dest.cells == old(dest.cells) && seen' == seen
            case Bad => !ok
            case Next(cells, seen'', rest) =>
              ok && !eof && dest.cells == cells && stream.Window() == rest && seen' == seen''
    ensures ok ==> Holds(fieldsSeen[..], seen') && seen <= seen'
    ensures ok ==> forall n :: n in seen' ==> n in seen || n < RequiredBefore(fs, |fs|)
    decreases stream.bytesLeft, 3
  {
    hide FitsAll, DecField, Skip, ReadTag, RequiredBefore;
    var wireType, tag;
    ok, wireType, tag, eof := DecodeTag(stream);
    seen' := seen;
    if !ok {
      return eof, eof, seen;
    }
    var found := iter.Find(tag);
    FindAgrees(fs, tag, iter);
    if !found {
      ok := SkipField(stream, wireType);
      return;
    }
    if fs == [] {
      // The terminator's type is a required varint of size 0: "invalid data_size".
      return false, false, seen;
    }
    ok, seen' := DecodeKnown(stream, wireType, fs, dest, iter, fieldsSeen, seen);
  }

  /** A field the descriptor has: note it if it is required, and decode it. */
  method DecodeKnown(stream: IStream, wireType: nat, fs: seq<Field>, dest: Struct, iter: FieldIter,
                     fieldsSeen: array<bool>, ghost seen: set<nat>)
    returns (ok: bool, ghost seen': set<nat>)
    requires stream.Valid() && WellFormed(fs) && FitsAll(fs, dest.cells)
    requires iter.Valid() && iter.start == fs && fs != [] && Holds(fieldsSeen[..], seen)
    modifies stream, dest, fieldsSeen
    ensures stream.Valid() && stream.End() <= old(stream.End()) && (ok ==> stream.End() == old(stream.End()))
    ensures ok == DecField(fs, iter.pos, wireType, old(dest.cells), old(stream.Window())).Done?
    ensures ok ==> DecField(fs, iter.pos, wireType, old(dest.cells), old(stream.Window()))
                   == Done(dest.cells, stream.Window())
    ensures seen' == seen + NewlySeen(fs, iter.pos) && Holds(fieldsSeen[..], seen')
    ensures forall n :: n in seen' ==> n in seen || n < RequiredBefore(fs, |fs|)
    decreases stream.bytesLeft, 2, 2
  {
    hide FitsAll, DecField;
    RequiredIndexBound(fs, iter.pos);
    seen' := seen + NewlySeen(fs, iter.pos);
    if fs[iter.pos].htype.Required? && iter.requiredFieldIndex < PB_MAX_REQUIRED_FIELDS {
      MarkSeen(fieldsSeen, iter.requiredFieldIndex, seen);
    } else {
      assert seen' == seen;
    }
    ok := DecodeField(stream, wireType, iter, fs, dest);
  }

  lemma {:induction false} RequiredIndexBound(fs: seq<Field>, i: nat)
    requires i < |fs|
    ensures fs[i].htype.Required? ==> RequiredBefore(fs, i) < RequiredBefore(fs, |fs|)
  {
    RequiredBeforeGrows(fs, i + 1, |fs|);
  }

  /** Where the iterator stops is where the descriptor has this tag. */
  lemma {:induction false} FindAgrees(fs: seq<Field>, tag: nat, iter: FieldIter)
    requires WellFormed(fs) && iter.Valid() && iter.start == fs
    ensures fs != [] && iter.Tag() == tag ==> PbFormat.Find(fs, tag, 0) == iter.pos
    ensures (forall i :: 0 <= i < |fs| ==> fs[i].tag != tag) ==> PbFormat.Find(fs, tag, 0) == |fs|
  {
    hide WellFormedField, RequiredBefore;
    var i := PbFormat.Find(fs, tag, 0);
    if fs != [] && iter.Tag() == tag {
      assert i <= iter.pos;
      assert fs[i].tag == fs[iter.pos].tag;
    }
  }

  /** decode_static_field */
  method DecodeField(stream: IStream, wireType: nat, iter: FieldIter, fs: seq<Field>, dest: Struct) returns (ok: bool)
    requires stream.Valid() && iter.Valid() && iter.start == fs && fs != []
    requires WellFormed(fs) && FitsAll(fs, dest.cells)
    modifies stream, dest
    ensures stream.Valid() && stream.End() <= old(stream.End()) && (ok ==> stream.End() == old(stream.End()))
    ensures ok == DecField(fs, iter.pos, wireType, old(dest.cells), old(stream.Window())).Done?
    ensures ok ==> DecField(fs, iter.pos, wireType, old(dest.cells), old(stream.Window()))
                   == Done(dest.cells, stream.Window())
    decreases stream.bytesLeft, 2, 1
  {
    var i := iter.pos;
    var f, cell := fs[i], dest.cells[i];
    var v;
    FieldIs(fs, i, wireType, dest.cells, stream.Window());
    hide DecField, DecValue, DecElements, Select, FitsCell, FitsAll, Fits, WellFormed, WellFormedField, InitValue;
    match f.htype {
      case Required =>
        ok := DecodeInPlace(stream, wireType, fs, i, dest);
      case Optional =>
        ok := DecodeInPlace(stream, wireType, fs, i, dest);
      case Repeated =>
        var items;
        ok, items := DecodeRepeated(stream, wireType, f, cell.items);
        dest.cells := dest.cells[i := Many(items)];
      case OneOf =>
        var start := InitialValue(f);
        ok, v := DecodeItem(stream, f, start);
        dest.cells := Select(fs, dest.cells, i, v);
    }
  }

  /** Its required and optional cases: the value goes over the one that is there, and the flag is set. */
  method DecodeInPlace(stream: IStream, ghost wireType: nat, fs: seq<Field>, i: nat, dest: Struct) returns (ok: bool)
    requires stream.Valid() && WellFormed(fs) && FitsAll(fs, dest.cells) && i < |fs|
    requires fs[i].htype.Required? || fs[i].htype.Optional?
    modifies stream, dest
    ensures stream.Valid() && stream.End() <= old(stream.End()) && (ok ==> stream.End() == old(stream.End()))
    ensures ok == DecField(fs, i, wireType, old(dest.cells), old(stream.Window())).Done?
    ensures ok ==> DecField(fs, i, wireType, old(dest.cells), old(stream.Window())) == Done(dest.cells, stream.Window())
    decreases stream.bytesLeft, 2, 0
  {
    FieldIs(fs, i, wireType, dest.cells, stream.Window());
    hide DecField, DecValue, FitsCell, FitsAll, Fits, WellFormed, WellFormedField, InitValue;
    var f, v := fs[i], dest.cells[i].v;
    ok, v := DecodeItem(stream, f, v);
    dest.cells := dest.cells[i := if f.htype.Optional? && f.sizeOffset != 0 then Flagged(true, v) else One(v)];
  }

  /** What the model decodes, rule by rule. */
  lemma {:induction false} FieldIs(fs: seq<Field>, i: nat, wt: nat, cells: seq<Cell>, s: seq<byte>)
    requires WellFormed(fs) && FitsAll(fs, cells) && i < |fs|
    ensures |cells| == |fs| && WellFormedField(fs[i]) && FitsCell(fs[i], cells[i]) && Fits(fs[i], InitValue(fs[i]))
    ensures fs[i].htype.Required? ==>
              cells[i].One? && Fits(fs[i], cells[i].v)
              && DecField(fs, i, wt, cells, s) == match DecValue(fs[i], cells[i].v, s)
                                                  case Fail => Fail
                                                  case Done(v, rest) => Done(cells[i := One(v)], rest)
    ensures fs[i].htype.Optional? ==>
              (cells[i].One? || cells[i].Flagged?) && Fits(fs[i], cells[i].v)
              && DecField(fs, i, wt, cells, s) ==
                 match DecValue(fs[i], cells[i].v, s)
                 case Fail => Fail
                 case Done(v, rest) =>
                   Done(cells[i := if fs[i].sizeOffset != 0 then Flagged(true, v) else One(v)], rest)
    ensures fs[i].htype.Repeated? ==>
              cells[i].Many? && (forall k :: 0 <= k < |cells[i].items| ==> Fits(fs[i], cells[i].items[k]))
              && DecField(fs, i, wt, cells, s) == match DecElements(fs[i], wt, cells[i].items, s)
                                                  case Fail => Fail
                                                  case Done(items, rest) => Done(cells[i := Many(items)], rest)
    ensures fs[i].htype.OneOf? ==>
              DecField(fs, i, wt, cells, s) == match DecValue(fs[i], InitValue(fs[i]), s)
                                               case Fail => Fail
                                               case Done(v, rest) => Done(Select(fs, cells, i, v), rest)
  {
    hide DecValue, DecElements, Select, InitValue;
    InitFits(fs[i]);
    assert FitsCell(fs[i], cells[i]);
  }

  /** What a union member or a new array element starts from. */
  method InitialValue(f: Field) returns (v: Value)
    requires WellFormedField(f)
    ensures v == InitValue(f)
  {
    v := f.init;
    if f.ltype.Message? {
      var sub := new Struct([]);
      MessageSetToDefaults(f.ltype.fields, sub);
      v := Sub(sub.cells);
    }
  }

  /** The repeated case of decode_static_field. */
  method DecodeRepeated(stream: IStream, wireType: nat, f: Field, was: seq<Value>)
    returns (ok: bool, items: seq<Value>)
    requires stream.Valid() && WellFormedField(f) && forall i :: 0 <= i < |was| ==> Fits(f, was[i])
    modifies stream
    ensures stream.Valid() && stream.End() <= old(stream.End()) && (ok ==> stream.End() == old(stream.End()))
    ensures ok == DecElements(f, wireType, was, old(stream.Window())).Done?
    ensures ok ==> DecElements(f, wireType, was, old(stream.Window())) == Done(items, stream.Window())
    decreases stream.bytesLeft, 2, 0
  {
    hide Delimited, DecValue, DecPacked;
    items := was;
    if wireType == 2 && f.ltype.Packable() {
      var substream;
      ok, substream := MakeSubstream(stream);
      if !ok {
        return;
      }
      ok, items := DecodePacked(substream, f, was);
      if substream.bytesLeft != 0 {
        return false, items;
      }
      CloseSubstream(stream, substream);
    } else {
      if |was| >= f.arraySize {
        return false, was;
      }
      var v := InitialValue(f);
      InitFits(f);
      ok, v := DecodeItem(stream, f, v);
      items := was + [v];
    }
  }

  /** The loop over a packed array: it stops at the end of the array's bytes, when the destination
      is full, or when an item does not decode. */
  method DecodePacked(substream: IStream, f: Field, was: seq<Value>) returns (status: bool, items: seq<Value>)
    requires substream.Valid() && WellFormedField(f) && f.ltype.Packable()
    requires forall i :: 0 <= i < |was| ==> Fits(f, was[i])
    modifies substream
    ensures substream.Valid() && substream.End() == old(substream.End())
    ensures DecPacked(f, was, old(substream.Window()))
            == if status && substream.bytesLeft == 0 then Done(items, []) else Fail
  {
    hide DecNumber;
    status, items := true, was;
    while substream.bytesLeft > 0 && |items| < f.arraySize && status
      invariant substream.Valid() && substream.End() == old(substream.End())
      invariant forall i :: 0 <= i < |items| ==> Fits(f, items[i])
      invariant DecPacked(f, was, old(substream.Window()))
                == if status then DecPacked(f, items, substream.Window()) else Fail
      decreases status, substream.bytesLeft
    {
      var v;
      status, v := DecodeNumber(substream, f);
      if status {
        items := items + [v];
      }
    }
  }
}
