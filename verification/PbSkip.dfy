/** Encoded fields are skippable: the wire type in front of a field tells a reader that does not know the
    field how much of the input it takes up, so a message can be read with a newer or older descriptor. */
module PbSkip {
  import opened PbWire
  import opened PbMessage
  import opened PbFormat
  import opened PbLaws

  // ---------------------------------------------------------------- widths

  /** What pb_skip_field passes over: up to the first byte without the high bit, eight bytes, a length
      prefix and its block, or four bytes; any other wire type is an error, and so is input that is
      too short. */
  lemma {:induction false} SkipWidths(wt: nat, s: seq<byte>)
    ensures wt == 0 ==> (Skip(wt, s).Done? <==> exists k :: 0 <= k < |s| && s[k] < 128)
    ensures wt == 1 ==> Skip(wt, s) == if |s| < 8 then Fail else Done((), s[8..])
    ensures wt == 5 ==> Skip(wt, s) == if |s| < 4 then Fail else Done((), s[4..])
    ensures wt !in {0, 1, 2, 5} ==> Skip(wt, s) == Fail
  {
    if wt == 0 { VarintEnds(s); }
  }

  lemma {:induction false} VarintEnds(s: seq<byte>)
    ensures Varint(s).Done? <==> exists k :: 0 <= k < |s| && s[k] < 128
  {
    if s != [] && s[0] >= 128 {
      VarintEnds(s[1..]);
      if k :| 0 <= k < |s| && s[k] < 128 {
        assert s[1..][k - 1] < 128;
      }
      if k :| 0 <= k < |s| - 1 && s[1..][k] < 128 {
        assert s[k + 1] < 128;
      }
    }
  }

  lemma {:induction false} SkipsVarint(s: seq<byte>, k: nat)
    requires k < |s| && s[k] < 128 && forall j :: 0 <= j < k ==> s[j] >= 128
    ensures Skip(0, s) == Done((), s[k + 1..])
  {
    if k > 0 {
      SkipsVarint(s[1..], k - 1);
      assert s[1..][k..] == s[k + 1..];
    }
  }

  /** A block of n bytes behind the varint of n is skipped whole, and nothing behind it is. */
  lemma {:induction false} SkipsBlock(body: seq<byte>, t: seq<byte>)
    requires |body| < U32
    ensures Skip(2, EncVarint(|body|) + body + t) == Done((), t)
    ensures forall n: nat :: n < |body| ==> Skip(2, EncVarint(|body|) + body[..n]) == Fail
  {
    assert EncVarint(|body|) + body == EncDelimited(body);
    DelimitedRoundTrip(body, t);
    forall n: nat | n < |body| ensures Skip(2, EncVarint(|body|) + body[..n]) == Fail {
      Varint32RoundTrip(|body|, body[..n]);
    }
  }

  /** The wire type that the encoder writes is the one of the bytes behind it. */
  lemma {:induction false} ValueSkips(f: Field, v: Value, t: seq<byte>)
    requires WellFormedField(f) && Fits(f, v) && EncValue(f, v).Written? && |EncValue(f, v).b| < U32
    ensures Skip(WireType(f.ltype), EncValue(f, v).b + t) == Done((), t)
  {
    hide EncFields, EncVarint, Varint, CString, LittleEndian;
    match f.ltype {
      case Int => VarintRoundTrip(ToU64(v.n), t);
      case UInt => VarintRoundTrip(v.n, t);
      case SInt => VarintRoundTrip(ZigZag(v.n), t);
      case Fixed32 => assert (EncValue(f, v).b + t)[4..] == t;
      case Fixed64 => assert (EncValue(f, v).b + t)[8..] == t;
      case Bytes => DelimitedRoundTrip(v.b, t);
      case String => DelimitedRoundTrip(CString(v.b), t);
      case FixedBytes => DelimitedRoundTrip(v.b, t);
      case Message(fs) => DelimitedRoundTrip(EncFields(fs, v.cells, 0).b, t);
    }
  }

  // ---------------------------------------------------------------- fields

  /** The key of a field numbered below 16 is one byte that holds the number and the wire type: 0 for the
      integers, 1 for eight fixed bytes, 5 for four, 2 for everything that carries its length. */
  lemma {:induction false} KeyByte(f: Field, v: Value)
    requires WellFormedField(f) && Fits(f, v) && EncTagged(f, v).Written? && f.tag < 16
    ensures EncTagged(f, v).b[0] / 8 == f.tag
    ensures f.ltype.Int? || f.ltype.UInt? || f.ltype.SInt? ==> EncTagged(f, v).b[0] % 8 == 0
    ensures f.ltype.Fixed64? ==> EncTagged(f, v).b[0] % 8 == 1 && |EncTagged(f, v).b| == 9
    ensures f.ltype.Fixed32? ==> EncTagged(f, v).b[0] % 8 == 5 && |EncTagged(f, v).b| == 5
    ensures !f.ltype.Packable() ==> EncTagged(f, v).b[0] % 8 == 2
  {
    hide EncFields, CString, EncDelimited;
    var wt := WireType(f.ltype);
    assert EncTag(f.tag, wt) == [f.tag * 8 + wt];
  }

  predicate Lacks(gs: seq<Field>, tag: nat) {
    forall j :: 0 <= j < |gs| ==> gs[j].tag != tag
  }

  lemma {:induction false} TagReads(tag: nat, wt: nat, t: seq<byte>)
    requires 0 < tag < 0x2000_0000 && wt < 8
    ensures ReadTag(EncTag(tag, wt) + t) == Tag(tag, wt, t)
  {
    hide EncVarint, Varint;
    Varint32RoundTrip(tag * 8 + wt, t);
    assert (tag * 8 + wt) / 8 == tag && (tag * 8 + wt) % 8 == wt;
  }

  lemma {:induction false} TaggedIsUnknown(gs: seq<Field>, f: Field, v: Value)
    requires WellFormed(gs) && Lacks(gs, f.tag)
    requires WellFormedField(f) && Fits(f, v) && EncTagged(f, v).Written? && |EncTagged(f, v).b| < U32
    ensures IsUnknownField(gs, EncTagged(f, v).b)
  {
    hide EncValue, EncTag, ReadTag, Skip;
    var one := EncValue(f, v).b;
    TagReads(f.tag, WireType(f.ltype), one);
    ValueSkips(f, v, []);
    assert one + [] == one;
  }

  /** A field that the reader's descriptor lacks, as the encoder writes it, is passed over, whatever was
      decoded before and follows behind. */
  lemma {:induction false} TaggedInvisible(gs: seq<Field>, cells: seq<Cell>, seen: set<nat>, f: Field, v: Value,
                                           b: seq<byte>)
    requires WellFormed(gs) && FitsAll(gs, cells) && Lacks(gs, f.tag)
    requires WellFormedField(f) && Fits(f, v) && EncTagged(f, v).Written? && |EncTagged(f, v).b| < U32
    ensures DecLoop(gs, cells, seen, EncTagged(f, v).b + b) == DecLoop(gs, cells, seen, b)
  {
    TaggedIsUnknown(gs, f, v);
    LoopSkipsUnknown(gs, cells, seen, EncTagged(f, v).b, b);
  }

  lemma {:induction false} ItemsInvisible(gs: seq<Field>, cells: seq<Cell>, seen: set<nat>, f: Field,
                                          items: seq<Value>, k: nat, b: seq<byte>)
    requires WellFormed(gs) && FitsAll(gs, cells) && Lacks(gs, f.tag)
    requires WellFormedField(f) && !f.ltype.Packable() && k <= |items|
    requires forall i :: 0 <= i < |items| ==> Fits(f, items[i])
    requires EncItems(f, items, k).Written? && |EncItems(f, items, k).b| < U32
    ensures DecLoop(gs, cells, seen, EncItems(f, items, k).b + b) == DecLoop(gs, cells, seen, b)
    decreases |items| - k
  {
    hide DecLoop, EncTagged;
    if k == |items| {
      assert [] + b == b;
    } else {
      var one, more := EncTagged(f, items[k]), EncItems(f, items, k + 1);
      assert EncItems(f, items, k) == Cat(one, more);
      assert one.b + more.b + b == one.b + (more.b + b);
      TaggedInvisible(gs, cells, seen, f, items[k], more.b + b);
      ItemsInvisible(gs, cells, seen, f, items, k + 1, b);
    }
  }

  lemma {:induction false} PackedInvisible(gs: seq<Field>, cells: seq<Cell>, seen: set<nat>, tag: nat,
                                           body: seq<byte>, b: seq<byte>)
    requires WellFormed(gs) && FitsAll(gs, cells) && Lacks(gs, tag) && 0 < tag < 0x2000_0000 && |body| < U32
    ensures DecLoop(gs, cells, seen, EncTag(tag, 2) + EncDelimited(body) + b) == DecLoop(gs, cells, seen, b)
  {
    hide DecLoop, EncTag, ReadTag, EncDelimited, Delimited;
    var u := EncTag(tag, 2) + EncDelimited(body);
    TagReads(tag, 2, EncDelimited(body));
    DelimitedRoundTrip(body, []);
    assert EncDelimited(body) + [] == EncDelimited(body);
    LoopSkipsUnknown(gs, cells, seen, u, b);
  }

  /** The same for a field under any repetition rule: nothing, one item, or a whole array, packed or not. */
  lemma {:induction false} CellInvisible(gs: seq<Field>, cells: seq<Cell>, seen: set<nat>, f: Field, c: Cell,
                                         b: seq<byte>)
    requires WellFormed(gs) && FitsAll(gs, cells) && Lacks(gs, f.tag)
    requires WellFormedField(f) && FitsCell(f, c) && EncCell(f, c).Written? && |EncCell(f, c).b| < U32
    ensures DecLoop(gs, cells, seen, EncCell(f, c).b + b) == DecLoop(gs, cells, seen, b)
  {
    hide DecLoop, EncTagged, EncItems, EncTag, EncDelimited, IsZero;
    if EncCell(f, c).b == [] {
      assert [] + b == b;
    } else if c.Many? {
      if f.ltype.Packable() {
        PackedInvisible(gs, cells, seen, f.tag, EncItems(f, c.items, 0).b, b);
      } else {
        ItemsInvisible(gs, cells, seen, f, c.items, 0, b);
      }
    } else {
      TaggedInvisible(gs, cells, seen, f, c.v, b);
    }
  }

  /** A whole message of which the reader knows no field is passed over. */
  lemma {:induction false} StrangerInvisible(gs: seq<Field>, cells: seq<Cell>, seen: set<nat>,
                                             fs: seq<Field>, m: seq<Cell>, k: nat, b: seq<byte>)
    requires WellFormed(gs) && FitsAll(gs, cells) && WellFormed(fs) && FitsAll(fs, m) && k <= |fs|
    requires forall i :: k <= i < |fs| ==> Lacks(gs, fs[i].tag)
    requires EncFields(fs, m, k).Written? && |EncFields(fs, m, k).b| < U32
    ensures DecLoop(gs, cells, seen, EncFields(fs, m, k).b + b) == DecLoop(gs, cells, seen, b)
    decreases |fs| - k
  {
    hide DecLoop, EncCell, Lacks;
    if k == |fs| {
      assert [] + b == b;
    } else {
      var one, more := EncCell(fs[k], m[k]), EncFields(fs, m, k + 1);
      assert EncFields(fs, m, k) == Cat(one, more);
      assert one.b + more.b + b == one.b + (more.b + b);
      CellInvisible(gs, cells, seen, fs[k], m[k], more.b + b);
      StrangerInvisible(gs, cells, seen, fs, m, k + 1, b);
    }
  }

  /** Fields added later do not disturb an old reader: it decodes a message with the field of a type it
      does not have, put at any field boundary, exactly as it decodes the message without. */
  lemma {:induction false} NewFieldInvisible(gs: seq<Field>, cells: seq<Cell>, a: seq<byte>, f: Field, c: Cell,
                                             b: seq<byte>)
    requires WellFormed(gs) && FitsAll(gs, cells) && WholeFields(gs, cells, a) && Lacks(gs, f.tag)
    requires WellFormedField(f) && FitsCell(f, c) && EncCell(f, c).Written? && |EncCell(f, c).b| < U32
    ensures DecodeNoInit(gs, cells, a + EncCell(f, c).b + b) == DecodeNoInit(gs, cells, a + b)
  {
    hide DecLoop, EncCell, WholeFields, Lacks;
    var u := EncCell(f, c).b;
    LoopSplit(gs, cells, {}, a, b);
    LoopSplit(gs, cells, {}, a, u + b);
    var p := DecLoop(gs, cells, {}, a).value;
    assert a + u + b == a + (u + b);
    CellInvisible(gs, p.0, {} + p.1, f, c, b);
  }

  // ---------------------------------------------------------------- where reading ends

  lemma {:induction false} NoEndNoVarint(s: seq<byte>)
    requires forall k :: 0 <= k < |s| ==> s[k] >= 128
    ensures Varint(s) == Fail
  {
    if s != [] { NoEndNoVarint(s[1..]); }
  }

  lemma {:induction false} ZeroStops(gs: seq<Field>, cells: seq<Cell>, seen: set<nat>, b: seq<byte>)
    requires WellFormed(gs) && FitsAll(gs, cells)
    ensures DecLoop(gs, cells, seen, [0] + b) == Done((cells, seen), b)
  {
    assert ([0] + b)[1..] == b;
    assert ReadTag([0] + b) == Eof(b);
    hide ReadTag;
  }

  /** A zero byte in place of a tag ends the message; what is behind it is not looked at. */
  lemma {:induction false} ZeroTerminates(gs: seq<Field>, cells: seq<Cell>, a: seq<byte>, b: seq<byte>)
    requires WellFormed(gs) && FitsAll(gs, cells) && WholeFields(gs, cells, a)
    ensures DecodeNoInit(gs, cells, a + [0] + b) ==
            if DecodeNoInit(gs, cells, a).Done? then Done(DecodeNoInit(gs, cells, a).value, b) else Fail
  {
    hide WholeFields, DecLoop;
    LoopSplit(gs, cells, {}, a, [0] + b);
    var p := DecLoop(gs, cells, {}, a).value;
    ZeroStops(gs, p.0, {} + p.1, b);
    assert {} + p.1 == p.1;
    assert a + [0] + b == a + ([0] + b);
  }

  /** A tag that the input breaks off within its first five bytes counts as the end as well; a longer one is
      an error. */
  lemma {:induction false} BrokenTag(gs: seq<Field>, cells: seq<Cell>, a: seq<byte>, u: seq<byte>)
    requires WellFormed(gs) && FitsAll(gs, cells) && WholeFields(gs, cells, a)
    requires u != [] && forall k :: 0 <= k < |u| ==> u[k] >= 128
    ensures |u| <= 5 ==> DecodeNoInit(gs, cells, a + u) == DecodeNoInit(gs, cells, a)
    ensures |u| > 5 ==> DecodeNoInit(gs, cells, a + u) == Fail
  {
    hide WholeFields;
    LoopSplit(gs, cells, {}, a, u);
    NoEndNoVarint(u);
    var p := DecLoop(gs, cells, {}, a).value;
    assert {} + p.1 == p.1;
    assert DecLoop(gs, p.0, p.1, u) == if |u| <= 5 then Done((p.0, p.1), []) else Fail;
  }
}
