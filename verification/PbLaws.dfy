/** Laws of the decoder on its own: reading is local, a message is decoded field by field,
    concatenating encodings merges messages, and unknown fields leave no trace. */
module PbLaws {
  import opened PbWire
  import opened PbMessage
  import opened PbFormat

  // ---------------------------------------------------------------- locality

  lemma {:induction false} NumberLocal(f: Field, s: seq<byte>, t: seq<byte>)
    requires f.ltype.Packable() && DecNumber(f, s).Done?
    ensures DecNumber(f, s + t) == Done(DecNumber(f, s).value, DecNumber(f, s).rest + t)
  {
    if f.ltype.Fixed32? || f.ltype.Fixed64? {
      TakeLocal(s, if f.ltype.Fixed32? then 4 else 8, t);
    } else {
      VarintLocal(s, t);
    }
  }

  lemma {:induction false} TakeLocal(s: seq<byte>, n: nat, t: seq<byte>)
    requires n <= |s|
    ensures Take(s + t, n) == Done(s[..n], s[n..] + t)
  {
    assert (s + t)[..n] == s[..n];
    assert (s + t)[n..] == s[n..] + t;
  }

  lemma {:induction false} ValueLocal(f: Field, was: Value, s: seq<byte>, t: seq<byte>)
    requires WellFormedField(f) && Fits(f, was) && DecValue(f, was, s).Done?
    ensures DecValue(f, was, s + t) == Done(DecValue(f, was, s).value, DecValue(f, was, s).rest + t)
  {
    if f.ltype.Packable() {
      NumberLocal(f, s, t);
    } else {
      DelimitedLocal(s, t);
    }
  }

  lemma {:induction false} ElementsLocal(f: Field, wt: nat, items: seq<Value>, s: seq<byte>, t: seq<byte>)
    requires WellFormedField(f) && forall i :: 0 <= i < |items| ==> Fits(f, items[i])
    requires DecElements(f, wt, items, s).Done?
    ensures DecElements(f, wt, items, s + t)
            == Done(DecElements(f, wt, items, s).value, DecElements(f, wt, items, s).rest + t)
  {
    if wt == 2 && f.ltype.Packable() {
      DelimitedLocal(s, t);
    } else {
      InitFits(f);
      ValueLocal(f, InitValue(f), s, t);
    }
  }

  lemma {:induction false} FieldLocal(fs: seq<Field>, i: nat, wt: nat, cells: seq<Cell>, s: seq<byte>, t: seq<byte>)
    requires WellFormed(fs) && FitsAll(fs, cells) && i < |fs| && DecField(fs, i, wt, cells, s).Done?
    ensures DecField(fs, i, wt, cells, s + t)
            == Done(DecField(fs, i, wt, cells, s).value, DecField(fs, i, wt, cells, s).rest + t)
  {
    hide DecValue, DecElements, InitValue;
    var f := fs[i];
    InitFits(f);
    assert FitsCell(f, cells[i]);
    match f.htype {
      case Required => ValueLocal(f, cells[i].v, s, t);
      case Optional => ValueLocal(f, cells[i].v, s, t);
      case Repeated => ElementsLocal(f, wt, cells[i].items, s, t);
      case OneOf => ValueLocal(f, InitValue(f), s, t);
    }
  }

  lemma {:induction false} SkipLocal(wt: nat, s: seq<byte>, t: seq<byte>)
    requires Skip(wt, s).Done?
    ensures Skip(wt, s + t) == Done((), Skip(wt, s).rest + t)
  {
    if wt == 0 { VarintLocal(s, t); }
    else if wt == 1 { TakeLocal(s, 8, t); }
    else if wt == 2 { DelimitedLocal(s, t); }
    else { TakeLocal(s, 4, t); }
  }

  /** A turn that completes reads the same whatever follows, and whatever was seen before. */
  lemma {:induction false} TurnLocal(fs: seq<Field>, cells: seq<Cell>, seen: set<nat>, s: seq<byte>, t: seq<byte>)
    requires WellFormed(fs) && FitsAll(fs, cells) && DecTurn(fs, cells, {}, s).Next?
    ensures var r := DecTurn(fs, cells, {}, s);
            DecTurn(fs, cells, seen, s + t) == Next(r.cells, seen + r.seen, r.rest + t)
  {
    VarintLocal(s, t);
    var tag := ReadTag(s);
    assert ReadTag(s + t) == Tag(tag.tag, tag.wireType, tag.rest + t);
    var i := Find(fs, tag.tag, 0);
    if i < |fs| {
      FieldLocal(fs, i, tag.wireType, cells, tag.rest, t);
      assert seen + ({} + NewlySeen(fs, i)) == seen + NewlySeen(fs, i);
    } else {
      SkipLocal(tag.wireType, tag.rest, t);
      assert seen + {} == seen;
    }
  }

  // ---------------------------------------------------------------- ranges

  /** An unsigned number is stored exactly if it is in the range of the field's size. */
  lemma {:induction false} UnsignedInRange(f: Field, n: nat, t: seq<byte>)
    requires f.ltype.UInt? && n < U64
    ensures DecNumber(f, EncVarint(n) + t) ==
            if f.dataSize in {1, 2, 4, 8} && n < Pow256(f.dataSize) then Done(Num(n), t) else Fail
  {
    hide Varint, EncVarint;
    Varint64RoundTrip(n, t);
    Pow256Sizes();
  }

  /** So is a zig-zag number. */
  lemma {:induction false} ZigZagInRange(f: Field, n: int, t: seq<byte>)
    requires f.ltype.SInt? && IsInt64(n)
    ensures DecNumber(f, EncVarint(ZigZag(n)) + t) ==
            if f.dataSize in {1, 2, 4, 8} && -(Pow256(f.dataSize) as int) <= 2 * n < Pow256(f.dataSize)
            then Done(Num(n), t) else Fail
  {
    hide Varint, EncVarint;
    Varint64RoundTrip(ZigZag(n), t);
    ZigZagRoundTrip(n);
    Pow256Sizes();
  }

  /** A signed number is reduced to 32 bits first unless its field has 64; then it has to be in range. */
  lemma {:induction false} SignedInRange(f: Field, n: int, m: int, t: seq<byte>)
    requires f.ltype.Int? && IsInt64(n)
    requires if f.dataSize == 8 then m == n else (m - n) % U32 == 0 && -0x8000_0000 <= m < 0x8000_0000
    ensures DecNumber(f, EncVarint(ToU64(n)) + t) ==
            if f.dataSize in {1, 2, 4, 8} && -(Pow256(f.dataSize) as int) <= 2 * m < Pow256(f.dataSize)
            then Done(Num(m), t) else Fail
  {
    hide Varint, EncVarint;
    Varint64RoundTrip(ToU64(n), t);
    Pow256Sizes();
    if f.dataSize != 8 { SameResidue(n, m); }
  }

  lemma {:induction false} SameResidue(n: int, m: int)
    requires IsInt64(n) && (m - n) % U32 == 0 && -0x8000_0000 <= m < 0x8000_0000
    ensures ToS32(ToU64(n)) == m
  {
    var q := (m - n) / U32;
    var w := if m < 0 then m + U32 else m;
    var c := if m < 0 then 1 else 0;
    var e := if n < 0 then U32 else 0;
    assert w == ToU64(n) + (q + c - e) * U32;
    assert w - ToU64(n) % U32 == (q + c - e + ToU64(n) / U32) * U32;
  }

  lemma {:induction false} Pow256Sizes()
    ensures Pow256(1) == 0x100 && Pow256(2) == 0x1_0000 && Pow256(4) == U32 && Pow256(8) == U64
  {
    Pow256Values();
  }

  /** Bytes and strings are stored exactly if they and their size or terminator fit; bytes of fixed length have
      to have that length, or none at all, which stands for zeros. */
  lemma {:induction false} BlobInRange(f: Field, b: seq<byte>, t: seq<byte>)
    requires WellFormedField(f) && (f.ltype.Bytes? || f.ltype.String? || f.ltype.FixedBytes?) && |b| < U32
    ensures f.ltype.Bytes? && |b| <= f.dataSize - BYTES_HEADER ==> DecBlob(f, EncDelimited(b) + t) == Done(Blob(b), t)
    ensures f.ltype.Bytes? && |b| > f.dataSize - BYTES_HEADER ==> DecBlob(f, EncDelimited(b) + t) == Fail
    ensures f.ltype.String? && |b| < f.dataSize ==> DecBlob(f, EncDelimited(b) + t) == Done(Blob(b), t)
    ensures f.ltype.String? && |b| >= f.dataSize ==> DecBlob(f, EncDelimited(b) + t) == Fail
    ensures f.ltype.FixedBytes? && |b| !in {0, f.dataSize} ==> DecBlob(f, EncDelimited(b) + t) == Fail
    ensures f.ltype.FixedBytes? && |b| == f.dataSize ==> DecBlob(f, EncDelimited(b) + t) == Done(Blob(b), t)
    ensures f.ltype.FixedBytes? && |b| == 0 ==>
            DecBlob(f, EncDelimited(b) + t).Done? && DecBlob(f, EncDelimited(b) + t).rest == t
            && forall i :: 0 <= i < f.dataSize ==> DecBlob(f, EncDelimited(b) + t).value.b[i] == 0
  {
    hide EncDelimited, Delimited;
    DelimitedRoundTrip(b, t);
    if f.ltype.FixedBytes? && |b| == 0 && f.dataSize == 0 {
      assert seq(f.dataSize, _ => 0) == b;
    }
  }

  // ---------------------------------------------------------------- merging

  /** s is a sequence of whole fields, each of which this decoder reads, with no terminator. */
  ghost predicate WholeFields(fs: seq<Field>, cells: seq<Cell>, s: seq<byte>)
    requires WellFormed(fs) && FitsAll(fs, cells)
    decreases |s|
  {
    s == [] ||
    var r := DecTurn(fs, cells, {}, s);
    r.Next? && WholeFields(fs, r.cells, r.rest)
  }

  /** After whole fields the loop carries on with what follows from where they left it. */
  lemma {:induction false} LoopSplit(fs: seq<Field>, cells: seq<Cell>, seen: set<nat>, a: seq<byte>, b: seq<byte>)
    requires WellFormed(fs) && FitsAll(fs, cells) && WholeFields(fs, cells, a)
    ensures DecLoop(fs, cells, {}, a).Done? && DecLoop(fs, cells, {}, a).rest == []
    ensures var r := DecLoop(fs, cells, {}, a).value;
            DecLoop(fs, cells, seen, a + b) == DecLoop(fs, r.0, seen + r.1, b)
    decreases |a|
  {
    if a == [] {
      assert a + b == b;
      assert seen + {} == seen;
    } else {
      var r := DecTurn(fs, cells, {}, a);
      TurnLocal(fs, cells, seen, a, b);
      LoopSplit(fs, r.cells, seen + r.seen, r.rest, b);
      LoopSplit(fs, r.cells, r.seen, r.rest, []);
      assert r.rest + [] == r.rest;
      var q := DecLoop(fs, r.cells, {}, r.rest).value;
      assert (seen + r.seen) + q.1 == seen + (r.seen + q.1);
    }
  }

  /** The loop's result depends on the fields seen before only by adding them. */
  lemma {:induction false} LoopSeen(fs: seq<Field>, cells: seq<Cell>, seen: set<nat>, s: seq<byte>)
    requires WellFormed(fs) && FitsAll(fs, cells)
    ensures DecLoop(fs, cells, seen, s) ==
            match DecLoop(fs, cells, {}, s)
            case Fail => Fail
            case Done(p, rest) => Done((p.0, seen + p.1), rest)
    decreases |s|
  {
    if s == [] {
      assert seen + {} == seen;
    } else {
      match DecTurn(fs, cells, {}, s) {
        case Stop(_) => assert seen + {} == seen;
        case Bad =>
        case Next(cells', more, rest) =>
          TurnLocal(fs, cells, seen, s, []);
          assert s + [] == s && rest + [] == rest;
          LoopSeen(fs, cells', seen + more, rest);
          LoopSeen(fs, cells', more, rest);
          if DecLoop(fs, cells', {}, rest).Done? {
            var q := DecLoop(fs, cells', {}, rest).value;
            assert (seen + more) + q.1 == seen + (more + q.1);
          }
      }
    }
  }

  lemma {:induction false} RequiredFromHas(fs: seq<Field>, k: nat, i: nat)
    requires k <= i < |fs|
    ensures NewlySeen(fs, i) <= RequiredFrom(fs, k)
    decreases i - k
  {
    if k < i { RequiredFromHas(fs, k + 1, i); }
  }

  lemma {:induction false} LoopSeesRequired(fs: seq<Field>, cells: seq<Cell>, seen: set<nat>, s: seq<byte>)
    requires WellFormed(fs) && FitsAll(fs, cells) && seen <= AllRequired(fs)
    ensures DecLoop(fs, cells, seen, s).Done? ==> DecLoop(fs, cells, seen, s).value.1 <= AllRequired(fs)
    decreases |s|
  {
    if s != [] {
      var r := DecTurn(fs, cells, seen, s);
      var i := if ReadTag(s).Tag? then Find(fs, ReadTag(s).tag, 0) else |fs|;
      if i < |fs| { RequiredFromHas(fs, 0, i); }
      if r.Next? { LoopSeesRequired(fs, r.cells, r.seen, r.rest); }
    }
  }

  /** Concatenation is merge: decoding a and then b into the same struct is decoding a followed
      by b into it, and if either half is malformed so is the whole. */
  lemma {:induction false} ConcatenationIsMerge(fs: seq<Field>, cells: seq<Cell>, a: seq<byte>, b: seq<byte>)
    requires WellFormed(fs) && FitsAll(fs, cells) && WholeFields(fs, cells, a)
    ensures DecLoop(fs, cells, {}, a).Done?
    ensures DecodeNoInit(fs, cells, a).Done? && DecodeNoInit(fs, DecodeNoInit(fs, cells, a).value, b).Done?
            ==> DecodeNoInit(fs, cells, a + b) == DecodeNoInit(fs, DecodeNoInit(fs, cells, a).value, b)
    ensures var r := DecLoop(fs, cells, {}, a).value;
            DecLoop(fs, r.0, {}, b).Fail? <==> DecLoop(fs, cells, {}, a + b).Fail?
  {
    LoopSplit(fs, cells, {}, a, b);
    var p := DecLoop(fs, cells, {}, a).value;
    assert {} + p.1 == p.1;
    LoopSeen(fs, p.0, p.1, b);
    if p.1 == AllRequired(fs) && DecodeNoInit(fs, p.0, b).Done? {
      var q := DecLoop(fs, p.0, {}, b).value;
      assert p.1 + q.1 == AllRequired(fs);
    }
  }

  /** A whole field the descriptor does not have: its tag reads, no entry matches it, and skipping
      its payload uses up the rest. */
  predicate IsUnknownField(fs: seq<Field>, u: seq<byte>) {
    match ReadTag(u)
    case Tag(tag, wt, payload) =>
      Find(fs, tag, 0) == |fs| && (tag != 0 || fs != []) && Skip(wt, payload) == Done((), [])
    case _ => false
  }

  lemma {:induction false} LoopSkipsUnknown(fs: seq<Field>, cells: seq<Cell>, seen: set<nat>, u: seq<byte>, b: seq<byte>)
    requires WellFormed(fs) && FitsAll(fs, cells) && IsUnknownField(fs, u)
    ensures DecLoop(fs, cells, seen, u + b) == DecLoop(fs, cells, seen, b)
  {
    assert DecTurn(fs, cells, {}, u) == Next(cells, {}, []);
    TurnLocal(fs, cells, seen, u, b);
    assert seen + {} == seen && [] + b == b;
  }

  /** Unknown fields are invisible: a whole field the descriptor does not have, put between any
      two fields, changes neither the outcome nor the message. */
  lemma {:induction false} UnknownFieldInvisible(fs: seq<Field>, cells: seq<Cell>, a: seq<byte>, u: seq<byte>, b: seq<byte>)
    requires WellFormed(fs) && FitsAll(fs, cells) && WholeFields(fs, cells, a) && IsUnknownField(fs, u)
    ensures DecodeNoInit(fs, cells, a + u + b) == DecodeNoInit(fs, cells, a + b)
  {
    assert DecLoop(fs, cells, {}, a + u + b) == DecLoop(fs, cells, {}, a + b) by {
      LoopPastUnknown(fs, cells, a, u, b);
    }
  }

  lemma {:induction false} LoopPastUnknown(fs: seq<Field>, cells: seq<Cell>, a: seq<byte>, u: seq<byte>, b: seq<byte>)
    requires WellFormed(fs) && FitsAll(fs, cells) && WholeFields(fs, cells, a) && IsUnknownField(fs, u)
    ensures DecLoop(fs, cells, {}, a + u + b) == DecLoop(fs, cells, {}, a + b)
  {
    hide DecLoop;
    LoopSplit(fs, cells, {}, a, b);
    LoopSplit(fs, cells, {}, a, u + b);
    var p := DecLoop(fs, cells, {}, a).value;
    calc {
      DecLoop(fs, cells, {}, a + u + b);
      { assert a + u + b == a + (u + b); }
      DecLoop(fs, cells, {}, a + (u + b));
      DecLoop(fs, p.0, {} + p.1, u + b);
      { LoopSkipsUnknown(fs, p.0, {} + p.1, u, b); }
      DecLoop(fs, p.0, {} + p.1, b);
      DecLoop(fs, cells, {}, a + b);
    }
  }

  /** The one exception: an empty message type has only the terminator entry, whose tag 0 and data size
      0 the decoder takes for a field. So there a field numbered 0, however its tag is encoded, is an error
      at every field boundary, whatever follows; without it the message is fine. */
  lemma {:induction false} ZeroTagInEmptyMessage(a: seq<byte>, u: seq<byte>, b: seq<byte>)
    requires WholeFields([], [], a) && ReadTag(u).Tag? && ReadTag(u).tag == 0
    ensures DecodeNoInit([], [], a + u + b) == Fail
    ensures DecodeNoInit([], [], a) == Done([], [])
  {
    LoopSplit([], [], {}, a, u + b);
    ZeroTagFails(DecLoop([], [], {}, a).value.1, u, b);
    LoopSeesRequired([], [], {}, a);
    hide DecLoop, ReadTag, WholeFields;
    var p := DecLoop([], [], {}, a).value;
    assert p.0 == [] && {} + p.1 == p.1;
    assert a + u + b == a + (u + b);
  }

  lemma {:induction false} ZeroTagFails(seen: set<nat>, u: seq<byte>, b: seq<byte>)
    requires ReadTag(u).Tag? && ReadTag(u).tag == 0
    ensures WellFormed([]) && FitsAll([], []) && DecLoop([], [], seen, u + b) == Fail
  {
    VarintLocal(u, b);
    assert ReadTag(u + b) == Tag(0, ReadTag(u).wireType, ReadTag(u).rest + b);
    hide ReadTag;
    assert DecTurn([], [], seen, u + b) == Bad;
  }
}
