/** What meeting a field again does: a submessage that is already there is merged field by field, the arm of
    a union and the element of an array start from defaults, an array grows. */
module PbMerge {
  import opened PbWire
  import opened PbMessage
  import opened PbFormat
  import opened PbLaws
  import opened PbRoundTrip

  // ---------------------------------------------------------------- submessages

  /** A field that holds one submessage, in place: required, or optional with its has_ flag. */
  predicate HoldsMessage(f: Field) {
    f.ltype.Message? && (f.htype.Required? || f.htype.Optional?)
  }

  /** The bytes of a submessage field with this body. */
  function SubField(f: Field, body: seq<byte>): seq<byte> {
    EncTag(f.tag, 2) + EncDelimited(body)
  }

  /** The struct with the submessage in field i replaced. */
  function WithSub(fs: seq<Field>, i: nat, cells: seq<Cell>, sub: seq<Cell>): seq<Cell>
    requires i < |fs| && |cells| == |fs|
  {
    cells[i := if fs[i].htype.Required? then One(Sub(sub)) else Flagged(true, Sub(sub))]
  }

  /** Decoding goes on in the submessage that is there, whichever values it holds. */
  lemma {:induction false} SubmessageTurn(fs: seq<Field>, i: nat, cells: seq<Cell>, seen: set<nat>,
                                          body: seq<byte>, t: seq<byte>)
    requires WellFormed(fs) && FitsAll(fs, cells) && i < |fs| && HoldsMessage(fs[i]) && |body| < U32
    ensures WellFormed(fs[i].ltype.fields) && (cells[i].One? || cells[i].Flagged?) && cells[i].v.Sub?
    ensures FitsAll(fs[i].ltype.fields, cells[i].v.cells)
    ensures DecTurn(fs, cells, seen, SubField(fs[i], body) + t) ==
            match DecodeNoInit(fs[i].ltype.fields, cells[i].v.cells, body)
            case Fail => Bad
            case Done(sub, _) => Next(WithSub(fs, i, cells, sub), seen + NewlySeen(fs, i), t)
  {
    hide DecodeNoInit, DecTurn, EncTag, EncDelimited, Delimited;
    var f := fs[i];
    assert WellFormedField(f) && FitsCell(f, cells[i]);
    DelimitedRoundTrip(body, t);
    TagTurn(fs, i, 2, cells, seen, EncDelimited(body) + t);
    assert SubField(f, body) + t == EncTag(f.tag, 2) + (EncDelimited(body) + t);
  }

  lemma {:induction false} SubmessageLoop(fs: seq<Field>, i: nat, cells: seq<Cell>, seen: set<nat>,
                                          body: seq<byte>, t: seq<byte>)
    requires WellFormed(fs) && FitsAll(fs, cells) && i < |fs| && HoldsMessage(fs[i]) && |body| < U32
    ensures WellFormed(fs[i].ltype.fields) && (cells[i].One? || cells[i].Flagged?) && cells[i].v.Sub?
    ensures FitsAll(fs[i].ltype.fields, cells[i].v.cells)
    ensures var r := DecodeNoInit(fs[i].ltype.fields, cells[i].v.cells, body);
            if r.Fail? then DecLoop(fs, cells, seen, SubField(fs[i], body) + t) == Fail
            else FitsAll(fs, WithSub(fs, i, cells, r.value))
                 && DecLoop(fs, cells, seen, SubField(fs[i], body) + t)
                    == DecLoop(fs, WithSub(fs, i, cells, r.value), seen + NewlySeen(fs, i), t)
  {
    SubmessageTurn(fs, i, cells, seen, body, t);
    hide DecodeNoInit, DecTurn, EncTag, EncDelimited;
    assert SubField(fs[i], body) + t != [];
  }

  /** A submessage that arrives in two pieces is the one whose body is the two pieces together. The first
      piece x is any sequence of whole fields. If the submessage has required fields, each piece must bring
      all of them, since each is checked on its own; if it has none, even the errors agree. */
  lemma {:induction false} SubmessagesMerge(fs: seq<Field>, i: nat, cells: seq<Cell>, seen: set<nat>,
                                            x: seq<byte>, y: seq<byte>, t: seq<byte>)
    requires WellFormed(fs) && FitsAll(fs, cells) && i < |fs| && HoldsMessage(fs[i]) && |x + y| < U32
    requires WellFormed(fs[i].ltype.fields) && (cells[i].One? || cells[i].Flagged?) && cells[i].v.Sub?
    requires FitsAll(fs[i].ltype.fields, cells[i].v.cells)
    requires WholeFields(fs[i].ltype.fields, cells[i].v.cells, x)
    requires AllRequired(fs[i].ltype.fields) == {}
             || (DecodeNoInit(fs[i].ltype.fields, cells[i].v.cells, x).Done?
                 && DecodeNoInit(fs[i].ltype.fields,
                                 DecodeNoInit(fs[i].ltype.fields, cells[i].v.cells, x).value, y).Done?)
    ensures DecLoop(fs, cells, seen, SubField(fs[i], x) + SubField(fs[i], y) + t)
            == DecLoop(fs, cells, seen, SubField(fs[i], x + y) + t)
  {
    hide DecLoop, DecodeNoInit, WholeFields, EncTag, EncDelimited, SubField;
    var f := fs[i];
    var gs, was := f.ltype.fields, cells[i].v.cells;
    PiecesJoin(gs, was, x, y);
    var sub := DecodeNoInit(gs, was, x).value;
    SubmessageLoop(fs, i, cells, seen, x, SubField(f, y) + t);
    SubmessageLoop(fs, i, WithSub(fs, i, cells, sub), seen + NewlySeen(fs, i), y, t);
    SubmessageLoop(fs, i, cells, seen, x + y, t);
    assert SubField(f, x) + SubField(f, y) + t == SubField(f, x) + (SubField(f, y) + t);
    assert seen + NewlySeen(fs, i) + NewlySeen(fs, i) == seen + NewlySeen(fs, i);
    forall sub' ensures WithSub(fs, i, WithSub(fs, i, cells, sub), sub') == WithSub(fs, i, cells, sub') {}
  }

  lemma {:induction false} PiecesJoin(gs: seq<Field>, was: seq<Cell>, x: seq<byte>, y: seq<byte>)
    requires WellFormed(gs) && FitsAll(gs, was) && WholeFields(gs, was, x)
    requires AllRequired(gs) == {}
             || (DecodeNoInit(gs, was, x).Done? && DecodeNoInit(gs, DecodeNoInit(gs, was, x).value, y).Done?)
    ensures DecodeNoInit(gs, was, x).Done?
    ensures DecodeNoInit(gs, was, x + y) == DecodeNoInit(gs, DecodeNoInit(gs, was, x).value, y)
  {
    hide DecLoop, WholeFields;
    ConcatenationIsMerge(gs, was, x, y);
    if AllRequired(gs) == {} {
      LoopSeesRequired(gs, was, {}, x);
      LoopSeesRequired(gs, was, {}, x + y);
      LoopSeesRequired(gs, DecodeNoInit(gs, was, x).value, {}, y);
    }
  }

  /** No field in s touches entry j: not its own tag, nor that of another member of its union. */
  ghost predicate NeverTouches(fs: seq<Field>, cells: seq<Cell>, s: seq<byte>, j: nat)
    requires WellFormed(fs) && FitsAll(fs, cells) && j < |fs|
    decreases |s|
  {
    s == [] || !ReadTag(s).Tag? ||
    var i := Find(fs, ReadTag(s).tag, 0);
    && i != j && (i < |fs| ==> !SameUnion(fs, i, j))
    && var r := DecTurn(fs, cells, {}, s);
       r.Next? ==> NeverTouches(fs, r.cells, r.rest, j)
  }

  lemma {:induction false} TurnKeepsOthers(fs: seq<Field>, cells: seq<Cell>, seen: set<nat>, s: seq<byte>, j: nat)
    requires WellFormed(fs) && FitsAll(fs, cells) && j < |fs| && ReadTag(s).Tag?
    requires Find(fs, ReadTag(s).tag, 0) != j
    requires Find(fs, ReadTag(s).tag, 0) < |fs| ==> !SameUnion(fs, Find(fs, ReadTag(s).tag, 0), j)
    requires DecTurn(fs, cells, seen, s).Next?
    ensures DecTurn(fs, cells, seen, s).cells[j] == cells[j]
  {
    hide DecValue, DecElements, ReadTag, Find, Fits, UnionStart, InitValue;
  }

  /** A field that the input does not mention keeps the value that was there before, a submessage and an
      array included. */
  lemma {:induction false} LoopKeepsOthers(fs: seq<Field>, cells: seq<Cell>, seen: set<nat>, s: seq<byte>, j: nat)
    requires WellFormed(fs) && FitsAll(fs, cells) && j < |fs| && NeverTouches(fs, cells, s, j)
    requires DecLoop(fs, cells, seen, s).Done?
    ensures DecLoop(fs, cells, seen, s).value.0[j] == cells[j]
    decreases |s|
  {
    if s != [] && DecTurn(fs, cells, seen, s).Next? {
      TurnAfter(fs, cells, seen, s);
      var r := DecTurn(fs, cells, seen, s);
      TurnKeepsOthers(fs, cells, seen, s, j);
      LoopKeepsOthers(fs, r.cells, r.seen, r.rest, j);
    }
  }

  /** What was seen before does not matter to a turn, but for being remembered. */
  lemma {:induction false} TurnAfter(fs: seq<Field>, cells: seq<Cell>, seen: set<nat>, s: seq<byte>)
    requires WellFormed(fs) && FitsAll(fs, cells) && DecTurn(fs, cells, seen, s).Next?
    ensures ReadTag(s).Tag?
    ensures var r, q := DecTurn(fs, cells, seen, s), DecTurn(fs, cells, {}, s);
            q.Next? && q.cells == r.cells && q.rest == r.rest
  {
    hide DecField, ReadTag, Find, Skip;
  }

  /** Merging: after two pieces of a submessage, a field of it that the second does not mention still has
      the value that the first gave it. */
  lemma {:induction false} MergeKeepsFirst(fs: seq<Field>, i: nat, cells: seq<Cell>, seen: set<nat>,
                                           x: seq<byte>, y: seq<byte>, j: nat)
    requires WellFormed(fs) && FitsAll(fs, cells) && i < |fs| && HoldsMessage(fs[i]) && |x| < U32 && |y| < U32
    requires WellFormed(fs[i].ltype.fields) && (cells[i].One? || cells[i].Flagged?) && cells[i].v.Sub?
    requires FitsAll(fs[i].ltype.fields, cells[i].v.cells)
    requires DecodeNoInit(fs[i].ltype.fields, cells[i].v.cells, x).Done? && j < |fs[i].ltype.fields|
    requires NeverTouches(fs[i].ltype.fields, DecodeNoInit(fs[i].ltype.fields, cells[i].v.cells, x).value, y, j)
    ensures var r := DecLoop(fs, cells, seen, SubField(fs[i], x) + SubField(fs[i], y));
            r.Done? ==> (r.value.0[i].One? || r.value.0[i].Flagged?) && r.value.0[i].v.Sub?
                        && |r.value.0[i].v.cells| == |fs[i].ltype.fields|
                        && r.value.0[i].v.cells[j]
                           == DecodeNoInit(fs[i].ltype.fields, cells[i].v.cells, x).value[j]
  {
    hide DecTurn, NeverTouches, EncTag, EncDelimited, SubField;
    var f := fs[i];
    var gs, was := f.ltype.fields, cells[i].v.cells;
    var sub := DecodeNoInit(gs, was, x).value;
    SubmessageLoop(fs, i, cells, seen, x, SubField(f, y));
    SubmessageLoop(fs, i, WithSub(fs, i, cells, sub), seen + NewlySeen(fs, i), y, []);
    assert SubField(f, y) + [] == SubField(f, y);
    if DecodeNoInit(gs, sub, y).Done? {
      LoopKeepsOthers(gs, sub, {}, y, j);
    }
  }

  /** The arm of a union starts from defaults each time: of two submessages only the last counts. */
  lemma {:induction false} ArmStartsAfresh(fs: seq<Field>, i: nat, cells: seq<Cell>, seen: set<nat>,
                                           x: seq<byte>, y: seq<byte>, t: seq<byte>)
    requires WellFormed(fs) && FitsAll(fs, cells) && i < |fs| && fs[i].ltype.Message? && fs[i].htype.OneOf?
    requires |x| < U32 && |y| < U32 && WellFormed(fs[i].ltype.fields)
    requires Decode(fs[i].ltype.fields, x).Done? && Decode(fs[i].ltype.fields, y).Done?
    ensures var after := Select(fs, cells, i, Sub(Decode(fs[i].ltype.fields, y).value));
            FitsAll(fs, after)
            && DecLoop(fs, cells, seen, SubField(fs[i], x) + SubField(fs[i], y) + t) == DecLoop(fs, after, seen, t)
  {
    hide DecLoop, EncTag, EncDelimited, SubField, Decode, Select;
    var f := fs[i];
    var one := Select(fs, cells, i, Sub(Decode(f.ltype.fields, x).value));
    ArmLoop(fs, i, cells, seen, x, SubField(f, y) + t);
    ArmLoop(fs, i, one, seen, y, t);
    assert SubField(f, x) + SubField(f, y) + t == SubField(f, x) + (SubField(f, y) + t);
    SelectTwice(fs, cells, i, Sub(Decode(f.ltype.fields, x).value), Sub(Decode(f.ltype.fields, y).value));
  }

  lemma {:induction false} SelectTwice(fs: seq<Field>, cells: seq<Cell>, i: nat, v: Value, w: Value)
    requires |cells| == |fs| && i < |fs|
    ensures Select(fs, Select(fs, cells, i, v), i, w) == Select(fs, cells, i, w)
  {
    hide SameUnion;
  }

  lemma {:induction false} ArmLoop(fs: seq<Field>, i: nat, cells: seq<Cell>, seen: set<nat>, body: seq<byte>,
                                   t: seq<byte>)
    requires WellFormed(fs) && FitsAll(fs, cells) && i < |fs| && fs[i].ltype.Message? && fs[i].htype.OneOf?
    requires |body| < U32 && WellFormed(fs[i].ltype.fields) && Decode(fs[i].ltype.fields, body).Done?
    ensures var after := Select(fs, cells, i, Sub(Decode(fs[i].ltype.fields, body).value));
            FitsAll(fs, after) && DecLoop(fs, cells, seen, SubField(fs[i], body) + t) == DecLoop(fs, after, seen, t)
  {
    hide DecTurn, DecLoop, EncTag, EncDelimited, Delimited, DecodeNoInit, Select;
    var f := fs[i];
    assert WellFormedField(f);
    InitFits(f);
    DelimitedRoundTrip(body, t);
    TagTurn(fs, i, 2, cells, seen, EncDelimited(body) + t);
    assert SubField(f, body) + t == EncTag(f.tag, 2) + (EncDelimited(body) + t);
    assert seen + NewlySeen(fs, i) == seen;
    LoopTurn(fs, cells, seen, SubField(f, body) + t);
  }

  // ---------------------------------------------------------------- arrays

  lemma {:induction false} ArrayLoop(fs: seq<Field>, i: nat, wt: nat, cells: seq<Cell>, seen: set<nat>, s: seq<byte>)
    requires WellFormed(fs) && FitsAll(fs, cells) && i < |fs| && fs[i].htype.Repeated? && wt < 8 && cells[i].Many?
    ensures WellFormedField(fs[i]) && forall k :: 0 <= k < |cells[i].items| ==> Fits(fs[i], cells[i].items[k])
    ensures match DecElements(fs[i], wt, cells[i].items, s)
            case Fail => DecLoop(fs, cells, seen, EncTag(fs[i].tag, wt) + s) == Fail
            case Done(items, t) =>
              FitsAll(fs, cells[i := Many(items)])
              && DecLoop(fs, cells, seen, EncTag(fs[i].tag, wt) + s) == DecLoop(fs, cells[i := Many(items)], seen, t)
  {
    hide DecTurn, EncTag, DecElements;
    assert WellFormedField(fs[i]) && FitsCell(fs[i], cells[i]);
    TagTurn(fs, i, wt, cells, seen, s);
    assert seen + NewlySeen(fs, i) == seen;
  }

  /** An element that is a submessage starts from defaults and goes to the end of the array; there is no
      room in a full array. */
  lemma {:induction false} ElementStartsAfresh(fs: seq<Field>, i: nat, cells: seq<Cell>, seen: set<nat>,
                                               body: seq<byte>, t: seq<byte>)
    requires WellFormed(fs) && FitsAll(fs, cells) && i < |fs| && fs[i].ltype.Message? && fs[i].htype.Repeated?
    requires |body| < U32 && WellFormed(fs[i].ltype.fields) && cells[i].Many?
    ensures var r := Decode(fs[i].ltype.fields, body);
            if r.Fail? || |cells[i].items| >= fs[i].arraySize
            then DecLoop(fs, cells, seen, SubField(fs[i], body) + t) == Fail
            else FitsAll(fs, Appended(cells, i, [Sub(r.value)]))
                 && DecLoop(fs, cells, seen, SubField(fs[i], body) + t)
                    == DecLoop(fs, Appended(cells, i, [Sub(r.value)]), seen, t)
  {
    hide DecLoop, EncTag, EncDelimited, DecElements, Decode, FitsCell, Fits, WellFormedField;
    var f := fs[i];
    ArrayLoop(fs, i, 2, cells, seen, EncDelimited(body) + t);
    ElementDecodes(f, cells[i].items, body, t);
    assert SubField(f, body) + t == EncTag(f.tag, 2) + (EncDelimited(body) + t);
  }

  lemma {:induction false} ElementDecodes(f: Field, items: seq<Value>, body: seq<byte>, t: seq<byte>)
    requires WellFormedField(f) && f.ltype.Message? && f.htype.Repeated? && |body| < U32
    requires WellFormed(f.ltype.fields) && forall k :: 0 <= k < |items| ==> Fits(f, items[k])
    ensures DecElements(f, 2, items, EncDelimited(body) + t) ==
            match Decode(f.ltype.fields, body)
            case Fail => Fail
            case Done(sub, _) => if |items| >= f.arraySize then Fail else Done(items + [Sub(sub)], t)
  {
    hide EncDelimited, Delimited, DecodeNoInit;
    InitFits(f);
    DelimitedRoundTrip(body, t);
  }

  /** A number behind its own tag goes to the end of its array too, although the encoder packs numbers;
      there is no room in a full array. */
  lemma {:induction false} UnpackedAppends(fs: seq<Field>, i: nat, cells: seq<Cell>, seen: set<nat>, v: Value,
                                           t: seq<byte>)
    requires WellFormed(fs) && FitsAll(fs, cells) && i < |fs| && fs[i].htype.Repeated? && fs[i].ltype.Packable()
    requires Fits(fs[i], v) && EncTagged(fs[i], v).Written? && cells[i].Many?
    ensures if |cells[i].items| < fs[i].arraySize
            then FitsAll(fs, Appended(cells, i, [v]))
                 && DecLoop(fs, cells, seen, EncTagged(fs[i], v).b + t)
                    == DecLoop(fs, Appended(cells, i, [v]), seen, t)
            else DecLoop(fs, cells, seen, EncTagged(fs[i], v).b + t) == Fail
  {
    hide DecLoop, EncTag, EncValue, DecElements, FitsCell, Fits, WellFormedField, WireType;
    var f := fs[i];
    ArrayLoop(fs, i, WireType(f.ltype), cells, seen, EncValue(f, v).b + t);
    NumberDecodes(f, cells[i].items, v, t);
    assert EncTagged(f, v).b + t == EncTag(f.tag, WireType(f.ltype)) + (EncValue(f, v).b + t);
  }

  lemma {:induction false} NumberDecodes(f: Field, items: seq<Value>, v: Value, t: seq<byte>)
    requires WellFormedField(f) && f.ltype.Packable() && (forall k :: 0 <= k < |items| ==> Fits(f, items[k]))
    requires Fits(f, v) && EncValue(f, v).Written?
    ensures DecElements(f, WireType(f.ltype), items, EncValue(f, v).b + t) ==
            if |items| >= f.arraySize then Fail else Done(items + [v], t)
  {
    hide EncValue, DecNumber;
    NumberRoundTrip(f, v, t);
    InitFits(f);
  }

  /** A packed array that arrives while the array holds items already is appended, if all of it fits. */
  lemma {:induction false} PackedAppends(fs: seq<Field>, i: nat, cells: seq<Cell>, seen: set<nat>,
                                         items: seq<Value>, t: seq<byte>)
    requires WellFormed(fs) && FitsAll(fs, cells) && i < |fs| && fs[i].htype.Repeated? && fs[i].ltype.Packable()
    requires (forall k :: 0 <= k < |items| ==> Fits(fs[i], items[k])) && cells[i].Many?
    requires EncItems(fs[i], items, 0).Written? && |EncItems(fs[i], items, 0).b| < U32
    ensures if items == [] || |cells[i].items| + |items| <= fs[i].arraySize
            then FitsAll(fs, Appended(cells, i, items))
                 && DecLoop(fs, cells, seen, SubField(fs[i], EncItems(fs[i], items, 0).b) + t)
                    == DecLoop(fs, Appended(cells, i, items), seen, t)
            else DecLoop(fs, cells, seen, SubField(fs[i], EncItems(fs[i], items, 0).b) + t) == Fail
  {
    hide DecLoop, EncTag, EncItems, DecElements, EncDelimited, FitsCell, Fits, WellFormedField;
    var f := fs[i];
    var body := EncItems(f, items, 0).b;
    ArrayLoop(fs, i, 2, cells, seen, EncDelimited(body) + t);
    PackedDecodes(f, cells[i].items, items, t);
    assert SubField(f, body) + t == EncTag(f.tag, 2) + (EncDelimited(body) + t);
    assert items[0..] == items;
  }

  lemma {:induction false} PackedDecodes(f: Field, was: seq<Value>, items: seq<Value>, t: seq<byte>)
    requires WellFormedField(f) && f.ltype.Packable() && (forall k :: 0 <= k < |was| ==> Fits(f, was[k]))
    requires forall k :: 0 <= k < |items| ==> Fits(f, items[k])
    requires EncItems(f, items, 0).Written? && |EncItems(f, items, 0).b| < U32
    ensures DecElements(f, 2, was, EncDelimited(EncItems(f, items, 0).b) + t) ==
            if items == [] || |was| + |items| <= f.arraySize then Done(was + items, t) else Fail
  {
    hide EncItems, DecPacked, EncDelimited, Delimited;
    PackedFills(f, was, items, 0);
    DelimitedRoundTrip(EncItems(f, items, 0).b, t);
    assert items[0..] == items;
  }

  lemma {:induction false} PackedFills(f: Field, done: seq<Value>, items: seq<Value>, k: nat)
    requires WellFormedField(f) && f.ltype.Packable() && k <= |items|
    requires forall i :: 0 <= i < |items| ==> Fits(f, items[i])
    requires forall i :: 0 <= i < |done| ==> Fits(f, done[i])
    requires EncItems(f, items, k).Written?
    ensures DecPacked(f, done, EncItems(f, items, k).b) ==
            if k == |items| || |done| + |items| - k <= f.arraySize then Done(done + items[k..], []) else Fail
    decreases |items| - k
  {
    hide DecNumber, EncValue;
    if k == |items| {
      assert done + items[k..] == done;
    } else {
      NumberRoundTrip(f, items[k], EncItems(f, items, k + 1).b);
      ItemNotEmpty(f, items[k]);
      PackedFills(f, done + [items[k]], items, k + 1);
      assert done + [items[k]] + items[k + 1..] == done + items[k..];
    }
  }

  // ---------------------------------------------------------------- wire types

  /** The wire type of a known field plays no part but to tell a packed array from an item. */
  lemma {:induction false} WireTypeIgnored(fs: seq<Field>, i: nat, cells: seq<Cell>, seen: set<nat>, wt: nat,
                                           s: seq<byte>)
    requires WellFormed(fs) && FitsAll(fs, cells) && i < |fs| && wt < 8
    requires fs[i].htype.Repeated? && fs[i].ltype.Packable() ==> wt != 2
    ensures DecTurn(fs, cells, seen, EncTag(fs[i].tag, wt) + s)
            == DecTurn(fs, cells, seen, EncTag(fs[i].tag, WireType(fs[i].ltype)) + s)
  {
    TagTurn(fs, i, wt, cells, seen, s);
    TagTurn(fs, i, WireType(fs[i].ltype), cells, seen, s);
    hide DecTurn, DecValue, EncTag, InitValue;
  }

  // ---------------------------------------------------------------- absent fields

  /** A message without one of its required fields is an error. */
  lemma {:induction false} RequiredMissing(fs: seq<Field>, cells: seq<Cell>, s: seq<byte>, j: nat)
    requires WellFormed(fs) && FitsAll(fs, cells) && j < |fs| && fs[j].htype.Required? && NeverTouches(fs, cells, s, j)
    ensures DecodeNoInit(fs, cells, s) == Fail
  {
    hide DecLoop;
    if DecLoop(fs, cells, {}, s).Done? {
      LoopMisses(fs, cells, {}, s, j);
      RequiredFromHas(fs, 0, j);
      assert RequiredBefore(fs, j) in AllRequired(fs);
    }
  }

  lemma {:induction false} LoopMisses(fs: seq<Field>, cells: seq<Cell>, seen: set<nat>, s: seq<byte>, j: nat)
    requires WellFormed(fs) && FitsAll(fs, cells) && j < |fs| && fs[j].htype.Required? && NeverTouches(fs, cells, s, j)
    requires RequiredBefore(fs, j) !in seen && DecLoop(fs, cells, seen, s).Done?
    ensures RequiredBefore(fs, j) !in DecLoop(fs, cells, seen, s).value.1
    decreases |s|
  {
    if s != [] && DecTurn(fs, cells, seen, s).Next? {
      TurnAfter(fs, cells, seen, s);
      var r := DecTurn(fs, cells, seen, s);
      TurnMisses(fs, cells, seen, s, j);
      hide DecTurn;
      LoopMisses(fs, r.cells, r.seen, r.rest, j);
    }
  }

  lemma {:induction false} TurnMisses(fs: seq<Field>, cells: seq<Cell>, seen: set<nat>, s: seq<byte>, j: nat)
    requires WellFormed(fs) && FitsAll(fs, cells) && j < |fs| && fs[j].htype.Required? && ReadTag(s).Tag?
    requires Find(fs, ReadTag(s).tag, 0) != j && RequiredBefore(fs, j) !in seen && DecTurn(fs, cells, seen, s).Next?
    ensures RequiredBefore(fs, j) !in DecTurn(fs, cells, seen, s).seen
  {
    hide DecField, Skip, ReadTag, Find, RequiredBefore;
    var i := Find(fs, ReadTag(s).tag, 0);
    if i < |fs| && fs[i].htype.Required? { RequiredApart(fs, i, j); }
  }

  lemma {:induction false} RequiredApart(fs: seq<Field>, i: nat, j: nat)
    requires i < |fs| && j < |fs| && i != j && fs[i].htype.Required? && fs[j].htype.Required?
    ensures RequiredBefore(fs, i) != RequiredBefore(fs, j)
  {
    var a, b := if i < j then i else j, if i < j then j else i;
    RequiredBeforeGrows(fs, a + 1, b);
  }

  /** No input at all: every field has the descriptor's default, flags are off, arrays are empty, no union has
      a member; this is an error exactly if there is a required field. */
  lemma {:induction false} EmptyInput(fs: seq<Field>)
    requires WellFormed(fs)
    ensures Decode(fs, []).Done? <==> forall i :: 0 <= i < |fs| ==> !fs[i].htype.Required?
    ensures Decode(fs, []).Done? ==> forall i :: 0 <= i < |fs| ==> AtDefault(fs[i], Decode(fs, []).value[i])
  {
    RequiredFromEmpty(fs, 0);
    forall i | 0 <= i < |fs| ensures AtDefault(fs[i], Defaults(fs, 0)[i]) {
      InitAtDefault(fs[i]);
    }
  }

  lemma {:induction false} RequiredFromEmpty(fs: seq<Field>, k: nat)
    requires k <= |fs|
    ensures RequiredFrom(fs, k) == {} <==> forall i :: k <= i < |fs| ==> !fs[i].htype.Required?
    decreases |fs| - k
  {
    if k < |fs| {
      RequiredFromEmpty(fs, k + 1);
      if fs[k].htype.Required? { assert RequiredBefore(fs, k) in RequiredFrom(fs, k); }
    }
  }

  /** Field f holds its default: the value named by the descriptor, at every depth of submessages. */
  ghost predicate AtDefault(f: Field, c: Cell)
    decreases f, 1
  {
    match f.htype
    case Required => c.One? && ValueAtDefault(f, c.v)
    case Optional => (if f.Singular() then c.One? else c.Flagged? && !c.has) && ValueAtDefault(f, c.v)
    case Repeated => c == Many([])
    case OneOf => c == Idle
  }

  ghost predicate ValueAtDefault(f: Field, v: Value)
    decreases f, 0
  {
    if f.ltype.Message? then
      v.Sub? && |v.cells| == |f.ltype.fields|
      && forall i :: 0 <= i < |f.ltype.fields| ==> AtDefault(f.ltype.fields[i], v.cells[i])
    else v == f.init
  }

  lemma {:induction false} InitAtDefault(f: Field)
    ensures AtDefault(f, InitCell(f)) && ValueAtDefault(f, InitValue(f))
    decreases f
  {
    if f.ltype.Message? {
      forall i | 0 <= i < |f.ltype.fields|
        ensures AtDefault(f.ltype.fields[i], Defaults(f.ltype.fields, 0)[i])
      {
        InitAtDefault(f.ltype.fields[i]);
      }
    }
  }
}
