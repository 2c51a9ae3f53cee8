/** The decoder undoes the encoder. */
module PbRoundTrip {
  import opened PbWire
  import opened PbMessage
  import opened PbFormat

  // ---------------------------------------------------------------- what survives

  /** The part of a struct that its encoding determines. Strings end at their terminator, the data
      behind an unset has_ flag is reset to its default, and so is a singular field that the
      encoder leaves out; everything else is kept. */
  function CanonValue(f: Field, v: Value): Value
    requires WellFormedField(f) && Fits(f, v)
    decreases f, 0
  {
    if f.ltype.Message? then Sub(Canon(f.ltype.fields, v.cells, 0))
    else if f.ltype.String? then Blob(CString(v.b))
    else v
  }

  function CanonItems(f: Field, items: seq<Value>, k: nat): (r: seq<Value>)
    requires WellFormedField(f) && k <= |items| && forall i :: 0 <= i < |items| ==> Fits(f, items[i])
    ensures |r| == |items| - k
    decreases f, 1, |items| - k
  {
    if k == |items| then [] else [CanonValue(f, items[k])] + CanonItems(f, items, k + 1)
  }

  function CanonCell(f: Field, c: Cell): Cell
    requires WellFormedField(f) && FitsCell(f, c)
    decreases f, 2
  {
    match c
    case One(v) => assert Fits(f, v); if f.Singular() && IsZero(f, v) then One(f.init) else One(CanonValue(f, v))
    case Flagged(has, v) => if has then Flagged(true, CanonValue(f, v)) else InitCell(f)
    case Many(items) => Many(CanonItems(f, items, 0))
    case Arm(v) => Arm(CanonValue(f, v))
    case Idle => Idle
  }

  function Canon(fs: seq<Field>, cells: seq<Cell>, k: nat): (r: seq<Cell>)
    requires WellFormed(fs) && FitsAll(fs, cells) && k <= |fs|
    ensures |r| == |fs| - k
    ensures forall i :: 0 <= i < |r| ==> r[i] == CanonCell(fs[k + i], cells[k + i])
    decreases fs, |fs| - k
  {
    if k == |fs| then [] else [CanonCell(fs[k], cells[k])] + Canon(fs, cells, k + 1)
  }

  /** Every string that is sent leaves room for its terminator in its buffer. */
  ghost predicate Terminated(f: Field, v: Value)
    requires WellFormedField(f) && Fits(f, v)
    decreases f, 0
  {
    if f.ltype.Message? then TerminatedAll(f.ltype.fields, v.cells)
    else f.ltype.String? ==> |CString(v.b)| < f.dataSize
  }

  ghost predicate TerminatedCell(f: Field, c: Cell)
    requires WellFormedField(f) && FitsCell(f, c)
    decreases f, 1
  {
    match c
    case One(v) => assert Fits(f, v); (f.Singular() && IsZero(f, v)) || Terminated(f, v)
    case Flagged(has, v) => has ==> Terminated(f, v)
    case Many(items) => forall i :: 0 <= i < |items| ==> Terminated(f, items[i])
    case Arm(v) => Terminated(f, v)
    case Idle => true
  }

  ghost predicate TerminatedAll(fs: seq<Field>, cells: seq<Cell>)
    requires WellFormed(fs) && FitsAll(fs, cells)
    decreases fs
  {
    forall i :: 0 <= i < |fs| ==> TerminatedCell(fs[i], cells[i])
  }

  // ---------------------------------------------------------------- canonical structs fit

  lemma {:induction false} CanonValueFits(f: Field, v: Value)
    requires WellFormedField(f) && Fits(f, v)
    ensures Fits(f, CanonValue(f, v))
    decreases f, 0
  {
    if f.ltype.Message? {
      HalfwayFits(f.ltype.fields, v.cells, |f.ltype.fields|);
      assert Canon(f.ltype.fields, v.cells, 0) == Halfway(f.ltype.fields, v.cells, |f.ltype.fields|);
    }
  }

  lemma {:induction false} CanonCellFits(f: Field, c: Cell)
    requires WellFormedField(f) && FitsCell(f, c)
    ensures FitsCell(f, CanonCell(f, c)) && (CanonCell(f, c).Arm? <==> c.Arm?)
    decreases f, 2
  {
    InitFits(f);
    match c {
      case One(v) => assert Fits(f, v); CanonValueFits(f, v);
      case Flagged(_, v) => CanonValueFits(f, v);
      case Many(items) => CanonItemsFit(f, items, 0);
      case Arm(v) => CanonValueFits(f, v);
      case Idle =>
    }
  }

  lemma {:induction false} CanonItemsFit(f: Field, items: seq<Value>, k: nat)
    requires WellFormedField(f) && k <= |items| && forall i :: 0 <= i < |items| ==> Fits(f, items[i])
    ensures forall i :: 0 <= i < |items| - k ==> Fits(f, CanonItems(f, items, k)[i])
    decreases f, 1, |items| - k
  {
    if k < |items| {
      CanonValueFits(f, items[k]);
      CanonItemsFit(f, items, k + 1);
    }
  }

  // ---------------------------------------------------------------- halfway through a message

  /** The struct once the first k fields have been decoded. */
  function Halfway(fs: seq<Field>, cells: seq<Cell>, k: nat): (r: seq<Cell>)
    requires WellFormed(fs) && FitsAll(fs, cells) && k <= |fs|
    ensures |r| == |fs|
    ensures forall i :: 0 <= i < |fs| ==> r[i] == if i < k then CanonCell(fs[i], cells[i]) else InitCell(fs[i])
  {
    seq(|fs|, i requires 0 <= i < |fs| => if i < k then CanonCell(fs[i], cells[i]) else InitCell(fs[i]))
  }

  lemma {:induction false} HalfwayFits(fs: seq<Field>, cells: seq<Cell>, k: nat)
    requires WellFormed(fs) && FitsAll(fs, cells) && k <= |fs|
    ensures FitsAll(fs, Halfway(fs, cells, k))
    decreases fs
  {
    var r := Halfway(fs, cells, k);
    forall i | 0 <= i < |fs| ensures FitsCell(fs[i], r[i]) && (r[i].Arm? ==> cells[i].Arm?) {
      CanonCellFits(fs[i], cells[i]);
      InitFits(fs[i]);
    }
  }

  // ---------------------------------------------------------------- single items

  lemma {:induction false} NumberRoundTrip(f: Field, v: Value, t: seq<byte>)
    requires WellFormedField(f) && f.ltype.Packable() && FitsScalar(f, v) && EncValue(f, v).Written?
    ensures DecNumber(f, EncValue(f, v).b + t) == Done(v, t)
  {
    var s := EncValue(f, v).b + t;
    if f.ltype.Fixed32? || f.ltype.Fixed64? {
      var n := if f.ltype.Fixed32? then 4 else 8;
      Pow256Values();
      LittleEndianRoundTrip(v.n, n);
      assert s[..n] == LittleEndian(v.n, n);
      assert s[n..] == t;
    } else if f.ltype.UInt? {
      Varint64RoundTrip(v.n, t);
    } else if f.ltype.SInt? {
      ZigZagRoundTrip(v.n);
      Varint64RoundTrip(ZigZag(v.n), t);
    } else {
      Varint64RoundTrip(ToU64(v.n), t);
      SignedCast(v.n);
    }
  }

  lemma {:induction false} SignedCast(n: int)
    requires IsInt64(n)
    ensures ToS64(ToU64(n)) == n
    ensures -0x8000_0000 <= n < 0x8000_0000 ==> ToS32(ToU64(n)) == n
  {
    if -0x8000_0000 <= n < 0 {
      assert (n + U64) % U32 == n + U32;
    }
  }

  lemma {:induction false} BlobRoundTrip(f: Field, v: Value, t: seq<byte>)
    requires WellFormedField(f) && (f.ltype.Bytes? || f.ltype.String? || f.ltype.FixedBytes?) && FitsScalar(f, v)
    requires EncValue(f, v).Written? && |EncValue(f, v).b| < U32
    ensures Terminated(f, v) ==> DecBlob(f, EncValue(f, v).b + t) == Done(CanonValue(f, v), t)
    ensures !Terminated(f, v) ==> DecBlob(f, EncValue(f, v).b + t) == Fail
  {
    var body := if f.ltype.String? then CString(v.b) else v.b;
    DelimitedRoundTrip(body, t);
    if f.ltype.FixedBytes? && |v.b| == 0 {
      assert v.b == seq(f.dataSize, _ => 0);
    }
  }

  lemma {:induction false} PackedRoundTrip(f: Field, done: seq<Value>, items: seq<Value>, k: nat)
    requires WellFormedField(f) && f.ltype.Packable() && k <= |items|
    requires forall i :: 0 <= i < |items| ==> Fits(f, items[i])
    requires forall i :: 0 <= i < |done| ==> Fits(f, done[i])
    requires EncItems(f, items, k).Written? && |done| + |items| - k <= f.arraySize
    ensures DecPacked(f, done, EncItems(f, items, k).b) == Done(done + CanonItems(f, items, k), [])
    decreases |items| - k
  {
    hide DecNumber, EncValue;
    if k == |items| {
      assert done + [] == done;
    } else {
      NumberRoundTrip(f, items[k], EncItems(f, items, k + 1).b);
      ItemNotEmpty(f, items[k]);
      PackedRoundTrip(f, done + [items[k]], items, k + 1);
      assert done + [items[k]] + CanonItems(f, items, k + 1) == done + CanonItems(f, items, k);
    }
  }

  lemma {:induction false} ItemNotEmpty(f: Field, v: Value)
    requires WellFormedField(f) && Fits(f, v) && EncValue(f, v).Written?
    ensures |EncValue(f, v).b| > 0
  {
  }

  // ---------------------------------------------------------------- tags

  lemma {:induction false} FindUnique(fs: seq<Field>, i: nat, k: nat)
    requires WellFormed(fs) && k <= i < |fs|
    ensures Find(fs, fs[i].tag, k) == i
    decreases i - k
  {
    if k < i { FindUnique(fs, i, k + 1); }
  }

  /** A field's own tag makes the loop decode that field. */
  lemma {:induction false} TagTurn(fs: seq<Field>, i: nat, wt: nat, cells: seq<Cell>, seen: set<nat>, s: seq<byte>)
    requires WellFormed(fs) && FitsAll(fs, cells) && i < |fs| && wt < 8
    ensures DecTurn(fs, cells, seen, EncTag(fs[i].tag, wt) + s) ==
            match DecField(fs, i, wt, cells, s)
            case Fail => Bad
            case Done(cells', rest) => Next(cells', seen + NewlySeen(fs, i), rest)
  {
    hide DecField, Varint, EncVarint, Find, NewlySeen;
    assert WellFormedField(fs[i]);
    var n := fs[i].tag * 8 + wt;
    Varint32RoundTrip(n, s);
    assert n / 8 == fs[i].tag && n % 8 == wt;
    FindUnique(fs, i, 0);
  }

  lemma {:induction false} LoopTurn(fs: seq<Field>, cells: seq<Cell>, seen: set<nat>, s: seq<byte>)
    requires WellFormed(fs) && FitsAll(fs, cells) && DecTurn(fs, cells, seen, s).Next?
    ensures var r := DecTurn(fs, cells, seen, s);
            DecLoop(fs, cells, seen, s) == DecLoop(fs, r.cells, r.seen, r.rest)
  {
    hide DecTurn;
  }

  // ---------------------------------------------------------------- the induction

  lemma {:induction false} ValueRoundTrip(f: Field, v: Value, was: Value, t: seq<byte>)
    requires WellFormedField(f) && Fits(f, v) && Fits(f, was)
    requires EncValue(f, v).Written? && |EncValue(f, v).b| < U32 && Terminated(f, v)
    requires f.ltype.Message? && !f.htype.Repeated? ==> was == InitValue(f)
    ensures DecValue(f, was, EncValue(f, v).b + t) == Done(CanonValue(f, v), t)
    decreases f, 0, 0
  {
    hide DecodeNoInit, EncFields, Canon, DecNumber, DecBlob, EncDelimited, Delimited;
    if f.ltype.Message? {
      var body := EncFields(f.ltype.fields, v.cells, 0).b;
      DelimitedRoundTrip(body, t);
      MessageRoundTrip(f.ltype.fields, v.cells);
    } else if f.ltype.Packable() {
      NumberRoundTrip(f, v, t);
    } else {
      BlobRoundTrip(f, v, t);
    }
  }

  /** A tagged item, whatever the field's rule: the loop decodes it into the field. */
  lemma {:induction false} TaggedRoundTrip(fs: seq<Field>, i: nat, cells: seq<Cell>, seen: set<nat>, v: Value, t: seq<byte>)
    requires WellFormed(fs) && FitsAll(fs, cells) && i < |fs| && Fits(fs[i], v)
    requires EncTagged(fs[i], v).Written? && |EncTagged(fs[i], v).b| < U32 && Terminated(fs[i], v)
    requires if fs[i].htype.Repeated?
             then !fs[i].ltype.Packable() && cells[i].Many? && |cells[i].items| < fs[i].arraySize
             else cells[i] == InitCell(fs[i])
    ensures FitsAll(fs, Stored(fs, i, cells, CanonValue(fs[i], v)))
    ensures DecLoop(fs, cells, seen, EncTagged(fs[i], v).b + t)
            == DecLoop(fs, Stored(fs, i, cells, CanonValue(fs[i], v)), seen + NewlySeen(fs, i), t)
    decreases fs[i], 1, 0
  {
    hide DecTurn, DecLoop, EncTag, DecValue, EncValue, CanonValue, Terminated;
    var f := fs[i];
    var tag, one := EncTag(f.tag, WireType(f.ltype)), EncValue(f, v).b;
    StoredByDecField(fs, i, cells, v, t);
    TagTurn(fs, i, WireType(f.ltype), cells, seen, one + t);
    assert EncTagged(f, v).b + t == tag + (one + t);
    LoopTurn(fs, cells, seen, tag + (one + t));
  }

  lemma {:induction false} StoredByDecField(fs: seq<Field>, i: nat, cells: seq<Cell>, v: Value, t: seq<byte>)
    requires WellFormed(fs) && FitsAll(fs, cells) && i < |fs| && Fits(fs[i], v)
    requires EncTagged(fs[i], v).Written? && |EncTagged(fs[i], v).b| < U32 && Terminated(fs[i], v)
    requires if fs[i].htype.Repeated?
             then !fs[i].ltype.Packable() && cells[i].Many? && |cells[i].items| < fs[i].arraySize
             else cells[i] == InitCell(fs[i])
    ensures EncValue(fs[i], v).Written?
    ensures DecField(fs, i, WireType(fs[i].ltype), cells, EncValue(fs[i], v).b + t)
            == Done(Stored(fs, i, cells, CanonValue(fs[i], v)), t)
    decreases fs[i], 0, 1
  {
    hide DecValue, EncValue, CanonValue, Terminated;
    var f := fs[i];
    assert FitsCell(f, cells[i]) && WellFormedField(f);
    InitFits(f);
    ValueRoundTrip(f, v, InitValue(f), t);
  }

  /** The struct after item v of field i has been decoded. */
  function Stored(fs: seq<Field>, i: nat, cells: seq<Cell>, v: Value): seq<Cell>
    requires |cells| == |fs| && i < |fs| && (fs[i].htype.Repeated? ==> cells[i].Many?)
  {
    match fs[i].htype
    case Required => cells[i := One(v)]
    case Optional => cells[i := if fs[i].Singular() then One(v) else Flagged(true, v)]
    case Repeated => cells[i := Many(cells[i].items + [v])]
    case OneOf => Select(fs, cells, i, v)
  }

  function Appended(cells: seq<Cell>, i: nat, items: seq<Value>): seq<Cell>
    requires i < |cells| && cells[i].Many?
  {
    cells[i := Many(cells[i].items + items)]
  }

  /** An unpacked array: each item comes behind its own tag and is appended. */
  lemma {:induction false} ItemsRoundTrip(fs: seq<Field>, i: nat, cells: seq<Cell>, seen: set<nat>,
                                          items: seq<Value>, k: nat, t: seq<byte>)
    requires WellFormed(fs) && FitsAll(fs, cells) && i < |fs|
    requires fs[i].htype.Repeated? && !fs[i].ltype.Packable() && cells[i].Many?
    requires k <= |items| && (forall j :: 0 <= j < |items| ==> Fits(fs[i], items[j]))
    requires forall j :: 0 <= j < |items| ==> Terminated(fs[i], items[j])
    requires EncItems(fs[i], items, k).Written? && |EncItems(fs[i], items, k).b| < U32
    requires |cells[i].items| + |items| - k <= fs[i].arraySize
    ensures FitsAll(fs, Appended(cells, i, CanonItems(fs[i], items, k)))
    ensures DecLoop(fs, cells, seen, EncItems(fs[i], items, k).b + t)
            == DecLoop(fs, Appended(cells, i, CanonItems(fs[i], items, k)), seen, t)
    decreases fs[i], 2, |items| - k
  {
    hide DecLoop, EncTagged, CanonValue, Terminated;
    var f := fs[i];
    if k == |items| {
      assert [] + t == t;
      assert cells[i].items + [] == cells[i].items;
      assert Appended(cells, i, []) == cells;
    } else {
      var more := EncItems(f, items, k + 1);
      assert EncItems(f, items, k) == Cat(EncTagged(f, items[k]), more);
      TaggedRoundTrip(fs, i, cells, seen, items[k], more.b + t);
      assert EncItems(f, items, k).b + t == EncTagged(f, items[k]).b + (more.b + t);
      var cells' := Stored(fs, i, cells, CanonValue(f, items[k]));
      assert seen + NewlySeen(fs, i) == seen;
      ItemsRoundTrip(fs, i, cells', seen, items, k + 1, t);
      assert cells'[i].items + CanonItems(f, items, k + 1) == cells[i].items + CanonItems(f, items, k);
      assert Appended(cells', i, CanonItems(f, items, k + 1)) == Appended(cells, i, CanonItems(f, items, k));
    }
  }

  /** One field: reading what was written for field k takes the struct from k fields decoded to
      k + 1 fields decoded. */
  lemma {:induction false} CellRoundTrip(fs: seq<Field>, cells: seq<Cell>, k: nat, seen: set<nat>, t: seq<byte>)
    requires WellFormed(fs) && FitsAll(fs, cells) && k < |fs|
    requires EncCell(fs[k], cells[k]).Written? && |EncCell(fs[k], cells[k]).b| < U32
    requires TerminatedCell(fs[k], cells[k])
    ensures FitsAll(fs, Halfway(fs, cells, k)) && FitsAll(fs, Halfway(fs, cells, k + 1))
    ensures DecLoop(fs, Halfway(fs, cells, k), seen, EncCell(fs[k], cells[k]).b + t)
            == DecLoop(fs, Halfway(fs, cells, k + 1), seen + NewlySeen(fs, k), t)
    decreases fs[k], 4, 0
  {
    hide DecLoop;
    HalfwayFits(fs, cells, k);
    HalfwayFits(fs, cells, k + 1);
    if cells[k].Many? {
      ArrayRoundTrip(fs, cells, k, seen, t);
    } else if IsSent(fs[k], cells[k]) {
      SentCell(fs, cells, k);
      TaggedRoundTrip(fs, k, Halfway(fs, cells, k), seen, cells[k].v, t);
    } else {
      assert [] + t == t;
      SkippedCell(fs, cells, k);
      assert seen + NewlySeen(fs, k) == seen;
    }
  }

  /** encode_basic_field writes the field at all. */
  predicate IsSent(f: Field, c: Cell)
    requires WellFormedField(f) && FitsCell(f, c)
  {
    match c
    case One(v) => assert Fits(f, v); !(f.Singular() && IsZero(f, v))
    case Flagged(has, _) => has
    case Many(items) => |items| > 0
    case Arm(_) => true
    case Idle => false
  }

  /** A field that is left out was, and stays, at its default. */
  lemma {:induction false} SkippedCell(fs: seq<Field>, cells: seq<Cell>, k: nat)
    requires WellFormed(fs) && FitsAll(fs, cells) && k < |fs|
    requires !cells[k].Many? && !IsSent(fs[k], cells[k])
    ensures EncCell(fs[k], cells[k]) == Written([]) && !fs[k].htype.Required?
    ensures Halfway(fs, cells, k) == Halfway(fs, cells, k + 1)
  {
    assert WellFormedField(fs[k]) && FitsCell(fs[k], cells[k]);
    SkippedCellStaysInitial(fs[k], cells[k]);
  }

  lemma {:induction false} SkippedCellStaysInitial(f: Field, c: Cell)
    requires WellFormedField(f) && FitsCell(f, c) && !c.Many? && !IsSent(f, c)
    ensures EncCell(f, c) == Written([]) && !f.htype.Required? && CanonCell(f, c) == InitCell(f)
  {
    hide CanonValue, IsZero, EncTagged, CanonItems, Defaults, Canon, EncArray;
  }

  /** A field that is sent is a tagged item, and storing it completes the field; selecting a union
      member disturbs no other field. */
  lemma {:induction false} SentCell(fs: seq<Field>, cells: seq<Cell>, k: nat)
    requires WellFormed(fs) && FitsAll(fs, cells) && k < |fs|
    requires !cells[k].Many? && IsSent(fs[k], cells[k])
    ensures !fs[k].htype.Repeated? && Fits(fs[k], cells[k].v)
    ensures EncCell(fs[k], cells[k]) == EncTagged(fs[k], cells[k].v)
    ensures TerminatedCell(fs[k], cells[k]) ==> Terminated(fs[k], cells[k].v)
    ensures Stored(fs, k, Halfway(fs, cells, k), CanonValue(fs[k], cells[k].v)) == Halfway(fs, cells, k + 1)
  {
    var f, c := fs[k], cells[k];
    assert FitsCell(f, c);
    var before, after := Halfway(fs, cells, k), Halfway(fs, cells, k + 1);
    if c.Arm? {
      forall j | 0 <= j < |fs| && j != k && SameUnion(fs, k, j) ensures before[j] == Idle && after[j] == Idle {
        assert SameUnion(fs, j, k);
        assert FitsCell(fs[j], cells[j]) && !cells[j].Arm?;
      }
    } else {
      assert before[k := CanonCell(f, c)] == after;
    }
  }

  lemma {:induction false} ArrayRoundTrip(fs: seq<Field>, cells: seq<Cell>, k: nat, seen: set<nat>, t: seq<byte>)
    requires WellFormed(fs) && FitsAll(fs, cells) && k < |fs| && cells[k].Many?
    requires FitsAll(fs, Halfway(fs, cells, k)) && FitsAll(fs, Halfway(fs, cells, k + 1))
    requires EncCell(fs[k], cells[k]).Written? && |EncCell(fs[k], cells[k]).b| < U32
    requires TerminatedCell(fs[k], cells[k])
    ensures DecLoop(fs, Halfway(fs, cells, k), seen, EncCell(fs[k], cells[k]).b + t)
            == DecLoop(fs, Halfway(fs, cells, k + 1), seen + NewlySeen(fs, k), t)
    decreases fs[k], 3, 0
  {
    hide DecLoop, DecTurn, EncItems, CanonItems, EncTag, EncDelimited;
    var f, items := fs[k], cells[k].items;
    var before, after := Halfway(fs, cells, k), Halfway(fs, cells, k + 1);
    var canon := CanonItems(f, items, 0);
    assert FitsCell(f, cells[k]) && WellFormedField(f) && before[k] == Many([]);
    assert [] + canon == canon;
    assert after == Appended(before, k, canon);
    assert seen + NewlySeen(fs, k) == seen;
    if |items| == 0 {
      assert [] + t == t;
      assert after == before;
    } else if f.ltype.Packable() {
      PackedCell(fs, k, before, seen, items, t);
    } else {
      ItemsRoundTrip(fs, k, before, seen, items, 0, t);
    }
  }

  lemma {:induction false} ElementsRoundTrip(f: Field, items: seq<Value>, t: seq<byte>)
    requires WellFormedField(f) && f.htype.Repeated? && f.ltype.Packable()
    requires forall i :: 0 <= i < |items| ==> Fits(f, items[i])
    requires EncItems(f, items, 0).Written? && |EncItems(f, items, 0).b| < U32 && |items| <= f.arraySize
    ensures DecElements(f, 2, [], EncDelimited(EncItems(f, items, 0).b) + t) == Done(CanonItems(f, items, 0), t)
  {
    hide DecPacked, EncItems, CanonItems, EncDelimited, Delimited;
    var canon := CanonItems(f, items, 0);
    DelimitedRoundTrip(EncItems(f, items, 0).b, t);
    PackedRoundTrip(f, [], items, 0);
    assert [] + canon == canon;
  }

  /** A packed array in one length-delimited item. */
  lemma {:induction false} PackedCell(fs: seq<Field>, k: nat, before: seq<Cell>, seen: set<nat>,
                                      items: seq<Value>, t: seq<byte>)
    requires WellFormed(fs) && FitsAll(fs, before) && k < |fs| && before[k] == Many([])
    requires WellFormedField(fs[k]) && fs[k].htype.Repeated? && fs[k].ltype.Packable()
    requires forall i :: 0 <= i < |items| ==> Fits(fs[k], items[i])
    requires |items| > 0 && EncArray(fs[k], items).Written? && |EncArray(fs[k], items).b| < U32
    ensures FitsAll(fs, Appended(before, k, CanonItems(fs[k], items, 0)))
    ensures DecLoop(fs, before, seen, EncArray(fs[k], items).b + t)
            == DecLoop(fs, Appended(before, k, CanonItems(fs[k], items, 0)), seen, t)
  {
    hide DecLoop, DecTurn, EncItems, CanonItems, EncTag, EncDelimited, DecElements;
    var f := fs[k];
    var canon := CanonItems(f, items, 0);
    var tag, rest := EncTag(f.tag, 2), EncDelimited(EncItems(f, items, 0).b) + t;
    ElementsRoundTrip(f, items, t);
    TagTurn(fs, k, 2, before, seen, rest);
    assert EncArray(f, items).b + t == tag + rest;
    assert [] + canon == canon;
    assert DecField(fs, k, 2, before, rest) == Done(Appended(before, k, canon), t);
    assert seen + NewlySeen(fs, k) == seen;
    LoopTurn(fs, before, seen, tag + rest);
  }

  lemma {:induction false} LoopRoundTrip(fs: seq<Field>, cells: seq<Cell>, k: nat, seen: set<nat>)
    requires WellFormed(fs) && FitsAll(fs, cells) && k <= |fs|
    requires EncFields(fs, cells, k).Written? && |EncFields(fs, cells, k).b| < U32
    requires TerminatedAll(fs, cells)
    ensures FitsAll(fs, Halfway(fs, cells, k))
    ensures DecLoop(fs, Halfway(fs, cells, k), seen, EncFields(fs, cells, k).b)
            == Done((Canon(fs, cells, 0), seen + RequiredFrom(fs, k)), [])
    decreases fs, 0, |fs| - k, 1
  {
    hide EncCell, DecTurn, CanonCell, InitCell, TerminatedCell, WellFormed, FitsCell;
    HalfwayFits(fs, cells, k);
    if k == |fs| {
      assert Halfway(fs, cells, k) == Canon(fs, cells, 0);
      assert EncFields(fs, cells, k) == Written([]);
      assert seen + RequiredFrom(fs, k) == seen;
    } else {
      LoopRoundTripStep(fs, cells, k, seen);
    }
  }

  lemma {:induction false} LoopRoundTripStep(fs: seq<Field>, cells: seq<Cell>, k: nat, seen: set<nat>)
    requires WellFormed(fs) && FitsAll(fs, cells) && k < |fs|
    requires EncFields(fs, cells, k).Written? && |EncFields(fs, cells, k).b| < U32
    requires TerminatedAll(fs, cells)
    ensures FitsAll(fs, Halfway(fs, cells, k))
    ensures DecLoop(fs, Halfway(fs, cells, k), seen, EncFields(fs, cells, k).b)
            == Done((Canon(fs, cells, 0), seen + RequiredFrom(fs, k)), [])
    decreases fs, 0, |fs| - k, 0
  {
    hide DecLoop, EncCell, TerminatedCell, InitCell, CanonCell, RequiredBefore, Find, Select, UnionStart;
    var one, more := EncCell(fs[k], cells[k]), EncFields(fs, cells, k + 1);
    assert EncFields(fs, cells, k) == Cat(one, more);
    assert TerminatedCell(fs[k], cells[k]);
    CellRoundTrip(fs, cells, k, seen, more.b);
    LoopRoundTrip(fs, cells, k + 1, seen + NewlySeen(fs, k));
    assert (seen + NewlySeen(fs, k)) + RequiredFrom(fs, k + 1) == seen + RequiredFrom(fs, k);
  }

  /** Round trip: whatever pb_encode writes for a message of less than 4 GiB whose strings are
      terminated, pb_decode accepts, uses up completely and turns back into the same message. */
  lemma {:induction false} MessageRoundTrip(fs: seq<Field>, cells: seq<Cell>)
    requires WellFormed(fs) && FitsAll(fs, cells)
    requires Encode(fs, cells).Written? && |Encode(fs, cells).b| < U32 && TerminatedAll(fs, cells)
    ensures Decode(fs, Encode(fs, cells).b) == Done(Canon(fs, cells, 0), [])
    decreases fs, 1, 0
  {
    hide DecLoop, EncFields, FitsAll, WellFormed;
    DefaultsFit(fs);
    LoopRoundTrip(fs, cells, 0, {});
    assert Halfway(fs, cells, 0) == Defaults(fs, 0);
    var p := DecLoop(fs, Defaults(fs, 0), {}, Encode(fs, cells).b).value;
    assert p.1 == {} + RequiredFrom(fs, 0) == AllRequired(fs);
  }
}
