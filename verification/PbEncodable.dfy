/** Which messages the encoder accepts, and that it accepts every message the decoder delivers. */
module PbEncodable {
  import opened PbWire
  import opened PbMessage
  import opened PbFormat
  import opened PbLaws
  import opened PbRoundTrip
  import opened PbMerge

  // ---------------------------------------------------------------- what can be sent

  /** The encoder takes this value: an integer whose size is one the machine has, bytes that fit the buffer,
      a submessage all of whose fields can be sent. */
  ghost predicate Sendable(f: Field, v: Value)
    requires WellFormedField(f) && Fits(f, v)
    decreases f, 0
  {
    match f.ltype
    case Int | UInt | SInt => IntSize(f.dataSize)
    case Bytes => BYTES_HEADER + |v.b| <= f.dataSize
    case Message(fs) => SendableAll(fs, v.cells)
    case _ => true
  }

  /** What is not sent does not matter: a zero without presence, data without its flag. */
  ghost predicate SendableCell(f: Field, c: Cell)
    requires WellFormedField(f) && FitsCell(f, c)
    decreases f, 1
  {
    match c
    case One(v) => assert Fits(f, v); (f.Singular() && IsZero(f, v)) || Sendable(f, v)
    case Flagged(has, v) => has ==> Sendable(f, v)
    case Many(items) => |items| <= f.arraySize && forall i :: 0 <= i < |items| ==> Sendable(f, items[i])
    case Arm(v) => Sendable(f, v)
    case Idle => true
  }

  ghost predicate SendableAll(fs: seq<Field>, cells: seq<Cell>)
    requires WellFormed(fs) && FitsAll(fs, cells)
    decreases fs
  {
    forall i :: 0 <= i < |fs| ==> SendableCell(fs[i], cells[i])
  }

  lemma {:induction false} ValueWritten(f: Field, v: Value)
    requires WellFormedField(f) && Fits(f, v)
    ensures EncValue(f, v).Written? <==> Sendable(f, v)
    decreases f, 0
  {
    if f.ltype.Message? { FieldsWritten(f.ltype.fields, v.cells, 0); }
  }

  lemma {:induction false} ItemsWritten(f: Field, items: seq<Value>, k: nat)
    requires WellFormedField(f) && k <= |items| && forall i :: 0 <= i < |items| ==> Fits(f, items[i])
    ensures EncItems(f, items, k).Written? <==> forall i :: k <= i < |items| ==> Sendable(f, items[i])
    decreases f, 1, |items| - k
  {
    hide EncValue, Sendable;
    if k < |items| {
      ValueWritten(f, items[k]);
      ItemsWritten(f, items, k + 1);
      assert EncItem(f, items[k]).Written? <==> Sendable(f, items[k]);
      assert EncItems(f, items, k) == Cat(EncItem(f, items[k]), EncItems(f, items, k + 1));
    }
  }

  lemma {:induction false} CellWritten(f: Field, c: Cell)
    requires WellFormedField(f) && FitsCell(f, c)
    ensures EncCell(f, c).Written? <==> SendableCell(f, c)
    decreases f, 2
  {
    hide EncValue, EncItems, Sendable, IsZero;
    match c {
      case One(v) => assert Fits(f, v); ValueWritten(f, v);
      case Flagged(_, v) => ValueWritten(f, v);
      case Many(items) => ItemsWritten(f, items, 0);
      case Arm(v) => ValueWritten(f, v);
      case Idle =>
    }
  }

  lemma {:induction false} FieldsWritten(fs: seq<Field>, cells: seq<Cell>, k: nat)
    requires WellFormed(fs) && FitsAll(fs, cells) && k <= |fs|
    ensures EncFields(fs, cells, k).Written? <==> forall i :: k <= i < |fs| ==> SendableCell(fs[i], cells[i])
    decreases fs, |fs| - k
  {
    hide EncCell, SendableCell;
    if k < |fs| {
      CellWritten(fs[k], cells[k]);
      FieldsWritten(fs, cells, k + 1);
    }
  }

  /** The encoder has nothing to complain about exactly if every count is within its array, every integer
      that is sent has a size of 1, 2, 4 or 8, and all bytes that are sent are within their field. */
  lemma {:induction false} WrittenExactly(fs: seq<Field>, cells: seq<Cell>)
    requires WellFormed(fs) && FitsAll(fs, cells)
    ensures Encode(fs, cells).Written? <==> SendableAll(fs, cells)
  {
    FieldsWritten(fs, cells, 0);
  }

  // ---------------------------------------------------------------- what is left out

  /** Nothing is written for these: the zero of a field without presence, a flag that is not set, an array
      without items, a member of a union that is not current. */
  ghost predicate LeftOut(f: Field, c: Cell) {
    match c
    case One(v) => f.Singular() && ValueIsZero(f, v)
    case Flagged(has, _) => !has
    case Many(items) => items == []
    case Arm(_) => false
    case Idle => true
  }

  ghost predicate ValueIsZero(f: Field, v: Value) {
    match v
    case Num(n) => n == 0 || f.dataSize == 0
    case Blob(b) => if f.ltype.FixedBytes? then f.dataSize == 0 else if f.ltype.String? then CString(b) == [] else b == []
    case Sub(_) => false
  }

  /** And for these only; every other field gets at least its tag, or is an error. */
  lemma {:induction false} LeftOutExactly(f: Field, c: Cell)
    requires WellFormedField(f) && FitsCell(f, c)
    ensures EncCell(f, c) == Written([]) <==> LeftOut(f, c)
  {
    match c {
      case One(v) =>
        assert Fits(f, v);
        hide EncValue;
        if f.Singular() { ZeroIs(f, v); }
      case Flagged(has, v) => hide EncValue;
      case Many(items) =>
        if |items| > 0 && !f.ltype.Packable() {
          assert EncItems(f, items, 0) == Cat(EncTagged(f, items[0]), EncItems(f, items, 1));
        }
        hide EncValue, EncItems;
      case Arm(v) => hide EncValue;
      case Idle =>
    }
  }

  lemma {:induction false} ZeroIs(f: Field, v: Value)
    requires !f.ltype.Message? && FitsScalar(f, v)
    ensures IsZero(f, v) <==> ValueIsZero(f, v)
  {
  }

  // ---------------------------------------------------------------- what is received

  ghost predicate Good(f: Field, v: Value)
    requires WellFormedField(f) && Fits(f, v)
  {
    Sendable(f, v) && Terminated(f, v)
  }

  /** A struct that decoding may leave behind before all required fields are there: everything that would
      be sent can be sent, but for the required fields; and so in each submessage, sent or not, that a
      later field may be merged into. */
  ghost predicate Mergeable(fs: seq<Field>, cells: seq<Cell>)
    requires WellFormed(fs) && FitsAll(fs, cells)
    decreases fs
  {
    forall i :: 0 <= i < |fs| ==> MergeableCell(fs[i], cells[i])
  }

  ghost predicate MergeableCell(f: Field, c: Cell)
    requires WellFormedField(f) && FitsCell(f, c)
    decreases f
  {
    match c
    case One(v) =>
      assert Fits(f, v);
      if f.ltype.Message? then Mergeable(f.ltype.fields, v.cells)
      else f.Singular() ==> IsZero(f, v) || Good(f, v)
    case Flagged(has, v) =>
      assert Fits(f, v);
      (has ==> Good(f, v)) && (f.ltype.Message? ==> Mergeable(f.ltype.fields, v.cells))
    case Many(items) => |items| <= f.arraySize && forall i :: 0 <= i < |items| ==> Good(f, items[i])
    case Arm(v) => Good(f, v)
    case Idle => true
  }

  /** Every required field that has been seen can be sent. */
  ghost predicate SeenGood(fs: seq<Field>, cells: seq<Cell>, seen: set<nat>)
    requires WellFormed(fs) && FitsAll(fs, cells)
  {
    forall i :: 0 <= i < |fs| && fs[i].htype.Required? && RequiredBefore(fs, i) in seen
      ==> GoodCell(fs[i], cells[i])
  }

  ghost predicate GoodCell(f: Field, c: Cell)
    requires WellFormedField(f) && FitsCell(f, c)
  {
    c.One? && Fits(f, c.v) && Good(f, c.v)
  }

  lemma {:induction false} DefaultsMergeable(fs: seq<Field>)
    requires WellFormed(fs)
    ensures FitsAll(fs, Defaults(fs, 0)) && Mergeable(fs, Defaults(fs, 0))
    decreases fs, 1
  {
    DefaultsFit(fs);
    forall i | 0 <= i < |fs| ensures MergeableCell(fs[i], Defaults(fs, 0)[i]) {
      InitMergeable(fs[i]);
    }
  }

  lemma {:induction false} InitMergeable(f: Field)
    requires WellFormedField(f)
    ensures FitsCell(f, InitCell(f)) && MergeableCell(f, InitCell(f))
    decreases f, 0
  {
    InitFits(f);
    if f.ltype.Message? { DefaultsMergeable(f.ltype.fields); }
  }

  lemma {:induction false} ValueDecodesGood(f: Field, was: Value, s: seq<byte>)
    requires WellFormedField(f) && Fits(f, was) && DecValue(f, was, s).Done?
    requires f.ltype.Message? && !f.htype.Repeated? ==> Mergeable(f.ltype.fields, was.cells)
    ensures Good(f, DecValue(f, was, s).value)
    ensures f.ltype.Message? ==> Mergeable(f.ltype.fields, DecValue(f, was, s).value.cells)
    decreases |s|, 0
  {
    if f.ltype.Message? {
      MessageDecodesGood(f, was, s);
    }
  }

  lemma {:induction false} MessageDecodesGood(f: Field, was: Value, s: seq<byte>)
    requires WellFormedField(f) && Fits(f, was) && DecValue(f, was, s).Done? && f.ltype.Message?
    requires !f.htype.Repeated? ==> Mergeable(f.ltype.fields, was.cells)
    ensures Good(f, DecValue(f, was, s).value)
    ensures Mergeable(f.ltype.fields, DecValue(f, was, s).value.cells)
    decreases |s|, 0, 0
  {
    hide DecodeNoInit, Mergeable, SendableAll, TerminatedAll, Delimited;
    var gs := f.ltype.fields;
    DefaultsMergeable(gs);
    DecodesGood(gs, if f.htype.Repeated? then Defaults(gs, 0) else was.cells, Delimited(s).value);
  }

  lemma {:induction false} PackedGood(f: Field, items: seq<Value>, s: seq<byte>)
    requires WellFormedField(f) && f.ltype.Packable() && forall i :: 0 <= i < |items| ==> Fits(f, items[i])
    requires |items| <= f.arraySize && (forall i :: 0 <= i < |items| ==> Good(f, items[i]))
    requires DecPacked(f, items, s).Done?
    ensures var r := DecPacked(f, items, s).value;
            |r| <= f.arraySize && forall i :: 0 <= i < |r| ==> Good(f, r[i])
    decreases |s|
  {
    hide Good;
    if s != [] {
      var v := DecNumber(f, s).value;
      assert Good(f, v) by { ValueDecodesGood(f, v, s); }
      PackedGood(f, items + [v], DecNumber(f, s).rest);
    }
  }

  /** No array is filled beyond its size, whatever the input. */
  lemma {:induction false} ElementsGood(f: Field, wt: nat, items: seq<Value>, s: seq<byte>)
    requires WellFormedField(f) && f.htype.Repeated? && forall i :: 0 <= i < |items| ==> Fits(f, items[i])
    requires |items| <= f.arraySize && (forall i :: 0 <= i < |items| ==> Good(f, items[i]))
    requires DecElements(f, wt, items, s).Done?
    ensures var r := DecElements(f, wt, items, s).value;
            |r| <= f.arraySize && forall i :: 0 <= i < |r| ==> Good(f, r[i])
    decreases |s|, 1
  {
    hide Good, DecValue, DecPacked, InitValue;
    if wt == 2 && f.ltype.Packable() {
      PackedGood(f, items, Delimited(s).value);
    } else {
      InitFits(f);
      ValueDecodesGood(f, InitValue(f), s);
    }
  }

  /** The cell that decoding field i leaves. */
  lemma {:induction false} FieldDecodesGood(fs: seq<Field>, i: nat, wt: nat, cells: seq<Cell>, s: seq<byte>)
    requires WellFormed(fs) && FitsAll(fs, cells) && i < |fs| && MergeableCell(fs[i], cells[i])
    requires DecField(fs, i, wt, cells, s).Done?
    ensures var r := DecField(fs, i, wt, cells, s).value;
            MergeableCell(fs[i], r[i]) && (fs[i].htype.Required? ==> GoodCell(fs[i], r[i]))
    decreases |s|, 2
  {
    hide Good, DecValue, DecElements, InitValue, Mergeable, IsZero, SameUnion;
    var f := fs[i];
    assert WellFormedField(f) && FitsCell(f, cells[i]);
    InitFits(f);
    match f.htype {
      case Required => ValueDecodesGood(f, cells[i].v, s);
      case Optional => ValueDecodesGood(f, cells[i].v, s);
      case Repeated => ElementsGood(f, wt, cells[i].items, s);
      case OneOf =>
        if f.ltype.Message? { InitValueMergeable(f); }
        ValueDecodesGood(f, InitValue(f), s);
    }
  }

  lemma {:induction false} InitValueMergeable(f: Field)
    requires WellFormedField(f) && f.ltype.Message?
    ensures Fits(f, InitValue(f)) && Mergeable(f.ltype.fields, InitValue(f).cells)
  {
    DefaultsMergeable(f.ltype.fields);
  }

  /** It disturbs no other cell, but may put out another member of its union. */
  lemma {:induction false} FieldKeepsOthers(fs: seq<Field>, i: nat, wt: nat, cells: seq<Cell>, s: seq<byte>)
    requires WellFormed(fs) && FitsAll(fs, cells) && i < |fs| && DecField(fs, i, wt, cells, s).Done?
    ensures var r := DecField(fs, i, wt, cells, s).value;
            |r| == |fs| && forall j :: 0 <= j < |fs| && j != i ==> r[j] == cells[j] || (r[j].Idle? && fs[j].htype.OneOf?)
  {
    hide DecValue, DecElements, InitValue, Fits, UnionStart;
  }

  lemma {:induction false} TurnGood(fs: seq<Field>, cells: seq<Cell>, seen: set<nat>, s: seq<byte>)
    requires WellFormed(fs) && FitsAll(fs, cells) && Mergeable(fs, cells) && SeenGood(fs, cells, seen)
    requires DecTurn(fs, cells, seen, s).Next?
    ensures var r := DecTurn(fs, cells, seen, s); Mergeable(fs, r.cells) && SeenGood(fs, r.cells, r.seen)
    decreases |s|, 3
  {
    hide DecField, MergeableCell, GoodCell, Skip, RequiredBefore;
    var i, wt, rest := Find(fs, ReadTag(s).tag, 0), ReadTag(s).wireType, ReadTag(s).rest;
    if i < |fs| {
      FieldDecodesGood(fs, i, wt, cells, rest);
      FieldKeepsOthers(fs, i, wt, cells, rest);
      var r := DecTurn(fs, cells, seen, s);
      forall j | 0 <= j < |fs| ensures MergeableCell(fs[j], r.cells[j]) {
        assert MergeableCell(fs[j], cells[j]);
        if r.cells[j].Idle? { IdleMergeable(fs[j]); }
      }
      forall j | 0 <= j < |fs| && fs[j].htype.Required? && RequiredBefore(fs, j) in r.seen
        ensures GoodCell(fs[j], r.cells[j])
      {
        if j != i && fs[i].htype.Required? { RequiredApart(fs, i, j); }
      }
    }
  }

  lemma {:induction false} IdleMergeable(f: Field)
    requires WellFormedField(f) && FitsCell(f, Idle)
    ensures MergeableCell(f, Idle)
  {
  }

  lemma {:induction false} LoopGood(fs: seq<Field>, cells: seq<Cell>, seen: set<nat>, s: seq<byte>)
    requires WellFormed(fs) && FitsAll(fs, cells) && Mergeable(fs, cells) && SeenGood(fs, cells, seen)
    requires DecLoop(fs, cells, seen, s).Done?
    ensures var r := DecLoop(fs, cells, seen, s).value; Mergeable(fs, r.0) && SeenGood(fs, r.0, r.1)
    decreases |s|, 4
  {
    hide Mergeable, SeenGood, DecTurn;
    if s != [] && DecTurn(fs, cells, seen, s).Next? {
      TurnGood(fs, cells, seen, s);
      var r := DecTurn(fs, cells, seen, s);
      LoopGood(fs, r.cells, r.seen, r.rest);
    }
  }

  lemma {:induction false} DecodesGood(fs: seq<Field>, cells: seq<Cell>, s: seq<byte>)
    requires WellFormed(fs) && FitsAll(fs, cells) && Mergeable(fs, cells) && DecodeNoInit(fs, cells, s).Done?
    ensures var r := DecodeNoInit(fs, cells, s).value;
            Mergeable(fs, r) && SendableAll(fs, r) && TerminatedAll(fs, r)
    decreases |s|, 5
  {
    hide DecLoop, MergeableCell, GoodCell, SendableCell, TerminatedCell;
    LoopGood(fs, cells, {}, s);
    var r := DecodeNoInit(fs, cells, s).value;
    forall i | 0 <= i < |fs| ensures SendableCell(fs[i], r[i]) && TerminatedCell(fs[i], r[i]) {
      if fs[i].htype.Required? {
        RequiredFromHas(fs, 0, i);
      }
      CellGood(fs[i], r[i]);
    }
  }

  lemma {:induction false} CellGood(f: Field, c: Cell)
    requires WellFormedField(f) && FitsCell(f, c) && MergeableCell(f, c) && (f.htype.Required? ==> GoodCell(f, c))
    ensures SendableCell(f, c) && TerminatedCell(f, c)
  {
    hide Sendable, Terminated, IsZero, Mergeable;
  }

  /** Whatever the input, a message that the decoder accepts is one that the encoder accepts: no array holds
      more than its size, no buffer more than it can, every string has its terminator. */
  lemma {:induction false} DecodedIsEncodable(fs: seq<Field>, s: seq<byte>)
    requires WellFormed(fs) && Decode(fs, s).Done?
    ensures Encode(fs, Decode(fs, s).value).Written? && TerminatedAll(fs, Decode(fs, s).value)
  {
    DefaultsMergeable(fs);
    hide DecodeNoInit, Mergeable, SendableAll, TerminatedAll;
    DecodesGood(fs, Defaults(fs, 0), s);
    WrittenExactly(fs, Decode(fs, s).value);
  }

  /** So decoding, encoding and decoding again gives what decoding alone gave, in canonical form, whatever the
      order, the repetitions and the unknown fields of the input. */
  lemma {:induction false} DecodeEncodeDecode(fs: seq<Field>, s: seq<byte>)
    requires WellFormed(fs) && Decode(fs, s).Done?
    ensures Encode(fs, Decode(fs, s).value).Written?
    ensures |Encode(fs, Decode(fs, s).value).b| < U32
            ==> Decode(fs, Encode(fs, Decode(fs, s).value).b) == Done(Canon(fs, Decode(fs, s).value, 0), [])
  {
    hide Decode, Encode, TerminatedAll;
    DecodedIsEncodable(fs, s);
    if |Encode(fs, Decode(fs, s).value).b| < U32 {
      MessageRoundTrip(fs, Decode(fs, s).value);
    }
  }
}
