/** Exactly when the round trip holds, and what it may change. */
module PbExact {
  import opened PbWire
  import opened PbMessage
  import opened PbFormat
  import opened PbRoundTrip

  // ---------------------------------------------------------------- unterminated strings

  lemma {:induction false} ValueFails(f: Field, v: Value, was: Value, t: seq<byte>)
    requires WellFormedField(f) && Fits(f, v) && Fits(f, was)
    requires EncValue(f, v).Written? && |EncValue(f, v).b| < U32 && !Terminated(f, v)
    requires f.ltype.Message? && !f.htype.Repeated? ==> was == InitValue(f)
    ensures DecValue(f, was, EncValue(f, v).b + t) == Fail
    decreases f, 0, 0
  {
    hide DecodeNoInit, EncFields, DecNumber, DecBlob, EncDelimited, Delimited;
    if f.ltype.Message? {
      DelimitedRoundTrip(EncFields(f.ltype.fields, v.cells, 0).b, t);
      MessageFails(f.ltype.fields, v.cells);
    } else {
      BlobRoundTrip(f, v, t);
    }
  }

  lemma {:induction false} TaggedFails(fs: seq<Field>, i: nat, cells: seq<Cell>, seen: set<nat>, v: Value, t: seq<byte>)
    requires WellFormed(fs) && FitsAll(fs, cells) && i < |fs| && Fits(fs[i], v)
    requires EncTagged(fs[i], v).Written? && |EncTagged(fs[i], v).b| < U32 && !Terminated(fs[i], v)
    requires !fs[i].htype.Repeated? ==> cells[i] == InitCell(fs[i])
    ensures DecLoop(fs, cells, seen, EncTagged(fs[i], v).b + t) == Fail
    decreases fs[i], 1, 0
  {
    hide DecTurn, DecLoop, EncTag, DecValue, EncValue, Terminated;
    var tag, one := EncTag(fs[i].tag, WireType(fs[i].ltype)), EncValue(fs[i], v).b;
    FieldFails(fs, i, cells, v, t);
    TagTurn(fs, i, WireType(fs[i].ltype), cells, seen, one + t);
    assert EncTagged(fs[i], v).b + t == tag + (one + t);
    LoopBad(fs, cells, seen, tag + (one + t));
  }

  lemma {:induction false} LoopBad(fs: seq<Field>, cells: seq<Cell>, seen: set<nat>, s: seq<byte>)
    requires WellFormed(fs) && FitsAll(fs, cells) && s != [] && DecTurn(fs, cells, seen, s) == Bad
    ensures DecLoop(fs, cells, seen, s) == Fail
  {
    hide DecTurn;
  }

  lemma {:induction false} FieldFails(fs: seq<Field>, i: nat, cells: seq<Cell>, v: Value, t: seq<byte>)
    requires WellFormed(fs) && FitsAll(fs, cells) && i < |fs| && Fits(fs[i], v)
    requires EncTagged(fs[i], v).Written? && |EncTagged(fs[i], v).b| < U32 && !Terminated(fs[i], v)
    requires !fs[i].htype.Repeated? ==> cells[i] == InitCell(fs[i])
    ensures EncValue(fs[i], v).Written?
    ensures DecField(fs, i, WireType(fs[i].ltype), cells, EncValue(fs[i], v).b + t) == Fail
    decreases fs[i], 0, 1
  {
    var f := fs[i];
    assert FitsCell(f, cells[i]) && WellFormedField(f);
    assert !f.ltype.Packable();
    InitFits(f);
    hide DecValue, EncValue, Terminated, FitsAll;
    ValueFails(f, v, InitValue(f), t);
  }

  lemma {:induction false} ItemsFail(fs: seq<Field>, i: nat, cells: seq<Cell>, seen: set<nat>,
                                     items: seq<Value>, k: nat, t: seq<byte>)
    requires WellFormed(fs) && FitsAll(fs, cells) && i < |fs|
    requires fs[i].htype.Repeated? && !fs[i].ltype.Packable() && cells[i].Many?
    requires k <= |items| && (forall j :: 0 <= j < |items| ==> Fits(fs[i], items[j]))
    requires exists j :: k <= j < |items| && !Terminated(fs[i], items[j])
    requires EncItems(fs[i], items, k).Written? && |EncItems(fs[i], items, k).b| < U32
    requires |cells[i].items| + |items| - k <= fs[i].arraySize
    ensures DecLoop(fs, cells, seen, EncItems(fs[i], items, k).b + t) == Fail
    decreases fs[i], 2, |items| - k
  {
    hide DecLoop, EncTagged, CanonValue, Terminated;
    var f := fs[i];
    var more := EncItems(f, items, k + 1);
    assert EncItems(f, items, k) == Cat(EncTagged(f, items[k]), more);
    assert EncItems(f, items, k).b + t == EncTagged(f, items[k]).b + (more.b + t);
    if Terminated(f, items[k]) {
      TaggedRoundTrip(fs, i, cells, seen, items[k], more.b + t);
      assert seen + NewlySeen(fs, i) == seen;
      ItemsFail(fs, i, Stored(fs, i, cells, CanonValue(f, items[k])), seen, items, k + 1, t);
    } else {
      TaggedFails(fs, i, cells, seen, items[k], more.b + t);
    }
  }

  lemma {:induction false} CellFails(fs: seq<Field>, cells: seq<Cell>, k: nat, seen: set<nat>, t: seq<byte>)
    requires WellFormed(fs) && FitsAll(fs, cells) && k < |fs|
    requires EncCell(fs[k], cells[k]).Written? && |EncCell(fs[k], cells[k]).b| < U32
    requires !TerminatedCell(fs[k], cells[k])
    ensures FitsAll(fs, Halfway(fs, cells, k))
    ensures DecLoop(fs, Halfway(fs, cells, k), seen, EncCell(fs[k], cells[k]).b + t) == Fail
    decreases fs[k], 3, 0
  {
    hide DecLoop, Terminated;
    HalfwayFits(fs, cells, k);
    var before := Halfway(fs, cells, k);
    assert FitsCell(fs[k], cells[k]) && WellFormedField(fs[k]) && before[k] == InitCell(fs[k]);
    if cells[k].Many? {
      NumbersTerminate(fs[k], cells[k].items);
      ItemsFail(fs, k, before, seen, cells[k].items, 0, t);
    } else {
      SentCell(fs, cells, k);
      TaggedFails(fs, k, before, seen, cells[k].v, t);
    }
  }

  lemma {:induction false} NumbersTerminate(f: Field, items: seq<Value>)
    requires WellFormedField(f) && forall i :: 0 <= i < |items| ==> Fits(f, items[i])
    ensures f.ltype.Packable() ==> forall i :: 0 <= i < |items| ==> Terminated(f, items[i])
  {
  }

  lemma {:induction false} LoopFails(fs: seq<Field>, cells: seq<Cell>, k: nat, seen: set<nat>)
    requires WellFormed(fs) && FitsAll(fs, cells) && k <= |fs|
    requires EncFields(fs, cells, k).Written? && |EncFields(fs, cells, k).b| < U32
    requires exists i :: k <= i < |fs| && !TerminatedCell(fs[i], cells[i])
    ensures FitsAll(fs, Halfway(fs, cells, k))
    ensures DecLoop(fs, Halfway(fs, cells, k), seen, EncFields(fs, cells, k).b) == Fail
    decreases fs, 0, |fs| - k
  {
    hide DecLoop, EncCell, TerminatedCell, InitCell, CanonCell, RequiredBefore, Find, Select, UnionStart;
    var one, more := EncCell(fs[k], cells[k]), EncFields(fs, cells, k + 1);
    assert EncFields(fs, cells, k) == Cat(one, more);
    if TerminatedCell(fs[k], cells[k]) {
      CellRoundTrip(fs, cells, k, seen, more.b);
      LoopFails(fs, cells, k + 1, seen + NewlySeen(fs, k));
    } else {
      CellFails(fs, cells, k, seen, more.b);
    }
  }

  lemma {:induction false} MessageFails(fs: seq<Field>, cells: seq<Cell>)
    requires WellFormed(fs) && FitsAll(fs, cells)
    requires Encode(fs, cells).Written? && |Encode(fs, cells).b| < U32 && !TerminatedAll(fs, cells)
    ensures Decode(fs, Encode(fs, cells).b) == Fail
    decreases fs, 1, 0
  {
    hide DecLoop, EncFields, FitsAll, WellFormed;
    DefaultsFit(fs);
    LoopFails(fs, cells, 0, {});
    assert Halfway(fs, cells, 0) == Defaults(fs, 0);
  }

  /** The round trip succeeds exactly for the messages whose sent strings are terminated: pb_encode
      also accepts a string that fills its buffer, but pb_decode has no room for it. */
  lemma {:induction false} RoundTripExactly(fs: seq<Field>, cells: seq<Cell>)
    requires WellFormed(fs) && FitsAll(fs, cells)
    requires Encode(fs, cells).Written? && |Encode(fs, cells).b| < U32
    ensures Decode(fs, Encode(fs, cells).b)
            == if TerminatedAll(fs, cells) then Done(Canon(fs, cells, 0), []) else Fail
  {
    if TerminatedAll(fs, cells) {
      MessageRoundTrip(fs, cells);
    } else {
      MessageFails(fs, cells);
    }
  }

  // ---------------------------------------------------------------- nothing sent is lost

  lemma {:induction false} CanonValueSame(f: Field, v: Value)
    requires WellFormedField(f) && Fits(f, v)
    ensures Fits(f, CanonValue(f, v)) && EncValue(f, CanonValue(f, v)) == EncValue(f, v)
    decreases f, 0, 0
  {
    hide EncFields, Canon, EncVarint, EncDelimited, CString;
    CanonValueFits(f, v);
    if f.ltype.Message? {
      CanonSame(f.ltype.fields, v.cells, 0);
    } else if f.ltype.String? {
      CStringIsPrefix(v.b);
    }
  }

  lemma {:induction false} CanonItemsSame(f: Field, items: seq<Value>, k: nat, j: nat)
    requires WellFormedField(f) && k <= |items| && (forall i :: 0 <= i < |items| ==> Fits(f, items[i]))
    requires j <= |items| - k
    ensures forall i :: 0 <= i < |items| - k ==> Fits(f, CanonItems(f, items, k)[i])
    ensures EncItems(f, CanonItems(f, items, k), j) == EncItems(f, items, k + j)
    decreases f, 1, |items| - k - j
  {
    hide EncTagged, EncValue, CanonValue;
    CanonItemsFit(f, items, k);
    CanonItemAt(f, items, k, j);
    if j < |items| - k {
      CanonItemsSame(f, items, k, j + 1);
      CanonItemSame(f, items[k + j]);
    }
  }

  lemma {:induction false} CanonItemAt(f: Field, items: seq<Value>, k: nat, j: nat)
    requires WellFormedField(f) && k <= |items| && (forall i :: 0 <= i < |items| ==> Fits(f, items[i]))
    ensures j < |items| - k ==> CanonItems(f, items, k)[j] == CanonValue(f, items[k + j])
    decreases j
  {
    if 0 < j < |items| - k { CanonItemAt(f, items, k + 1, j - 1); }
  }

  lemma {:induction false} CanonItemSame(f: Field, v: Value)
    requires WellFormedField(f) && Fits(f, v)
    ensures Fits(f, CanonValue(f, v)) && EncItem(f, CanonValue(f, v)) == EncItem(f, v)
    ensures EncTagged(f, CanonValue(f, v)) == EncTagged(f, v)
    decreases f, 0, 1
  {
    hide EncValue, CanonValue;
    CanonValueSame(f, v);
  }

  lemma {:induction false} CanonCellSame(f: Field, c: Cell)
    requires WellFormedField(f) && FitsCell(f, c)
    ensures FitsCell(f, CanonCell(f, c)) && EncCell(f, CanonCell(f, c)) == EncCell(f, c)
    decreases f, 2, 0
  {
    CanonCellFits(f, c);
    match c {
      case One(v) =>
        assert Fits(f, v);
        CanonItemSame(f, v);
        if f.Singular() { SingularZero(f, v); }
      case Flagged(_, v) => CanonItemSame(f, v);
      case Many(items) => CanonItemsSame(f, items, 0, 0);
      case Arm(v) => CanonItemSame(f, v);
      case Idle =>
    }
  }

  lemma {:induction false} SingularZero(f: Field, v: Value)
    requires WellFormedField(f) && f.Singular() && FitsScalar(f, v)
    ensures !f.ltype.Message? && Fits(f, CanonValue(f, v))
    ensures IsZero(f, CanonValue(f, v)) == IsZero(f, v)
    ensures IsZero(f, v) ==> IsZero(f, f.init)
  {
    if f.ltype.String? { CStringIsPrefix(v.b); }
  }

  lemma {:induction false} CanonSame(fs: seq<Field>, cells: seq<Cell>, k: nat)
    requires WellFormed(fs) && FitsAll(fs, cells) && k <= |fs|
    ensures FitsAll(fs, Canon(fs, cells, 0))
    ensures EncFields(fs, Canon(fs, cells, 0), k) == EncFields(fs, cells, k)
    decreases fs, |fs| - k
  {
    HalfwayFits(fs, cells, |fs|);
    var canon := Canon(fs, cells, 0);
    assert canon == Halfway(fs, cells, |fs|);
    if k < |fs| {
      hide EncCell, CanonCell, Halfway, Canon;
      CanonSame(fs, cells, k + 1);
      CanonCellSame(fs[k], cells[k]);
      assert canon[k] == CanonCell(fs[k], cells[k]);
    }
  }

  /** What the round trip may change is only what is never sent: the decoded message encodes to the
      same bytes as the original. */
  lemma {:induction false} DecodedEncodesTheSame(fs: seq<Field>, cells: seq<Cell>)
    requires WellFormed(fs) && FitsAll(fs, cells) && TerminatedAll(fs, cells)
    requires Encode(fs, cells).Written? && |Encode(fs, cells).b| < U32
    ensures Decode(fs, Encode(fs, cells).b).Done?
    ensures Encode(fs, Decode(fs, Encode(fs, cells).b).value) == Encode(fs, cells)
  {
    hide EncFields, DecodeNoInit, Canon;
    MessageRoundTrip(fs, cells);
    CanonSame(fs, cells, 0);
  }
}
