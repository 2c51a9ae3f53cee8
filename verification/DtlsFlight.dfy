/** What it means to send a flight: the records written, one after the other, walk through the
    messages of the flight from its start. Values only; DtlsSender has the code. */
module DtlsFlight {
  import opened Wrappers
  import opened PbWire
  import opened DtlsFragment
  import opened DtlsDelivery

  const CHANGE_CIPHER_SPEC: byte := 20   // SSL3_RT_CHANGE_CIPHER_SPEC
  const HANDSHAKE: byte := 22            // SSL3_RT_HANDSHAKE
  const MT_CCS: byte := 1                // SSL3_MT_CCS

  /** DTLS_OUTGOING_MESSAGE. The data of a handshake message is its serialization as one fragment. */
  datatype Outgoing = Outgoing(data: seq<byte>, epoch: nat, isCcs: bool)

  /** A sealed record, by its plaintext; `size` is its length on the wire. */
  datatype Sealed = Sealed(typ: byte, plaintext: seq<byte>, size: nat)

  /** outgoing_written and outgoing_offset. */
  datatype Cursor = At(written: nat, offset: nat)

  const FlightStart: Cursor := At(0, 0)

  function FlightEnd(ms: seq<Outgoing>): Cursor {
    At(|ms|, 0)
  }

  /** The whole handshake message in an outgoing message, if its data is well formed. */
  function Whole(m: Outgoing): (whole: Option<Fragment>)
    ensures whole.Some? ==> IsWire(whole.value)
  {
    match ParseFragment(m.data)
    case None => None
    case Some((f, rest)) => if rest == [] && f.off == 0 && f.msgLen == |f.body| then Some(f) else None
  }

  /** What the peer has to receive of a message. */
  function Content(m: Outgoing): seq<byte> {
    if m.isCcs then [MT_CCS] else if Whole(m).Some? then Whole(m).value.body else []
  }

  /** The slice of `whole` of this length at this offset. */
  function SliceOf(whole: Fragment, off: nat, len: nat): Fragment
    requires off + len <= |whole.body|
  {
    whole.(off := off, body := whole.body[off..off + len])
  }

  /** The fragment in the plaintext of a handshake record. */
  function InRecord(r: Sealed): Option<Fragment> {
    match ParseFragment(r.plaintext)
    case None => None
    case Some((f, rest)) => if r.typ == HANDSHAKE && rest == [] then Some(f) else None
  }

  /** The cursor after this record, if the record is what comes next: ChangeCipherSpec, or a slice
      of the current message that starts where the last one ended and is not needlessly empty. */
  function Next(ms: seq<Outgoing>, c: Cursor, r: Sealed): Option<Cursor> {
    if c.written >= |ms| then None
    else if ms[c.written].isCcs then
      if c.offset == 0 && r.typ == CHANGE_CIPHER_SPEC && r.plaintext == [MT_CCS] then Some(At(c.written + 1, 0)) else None
    else if Whole(ms[c.written]).None? || InRecord(r).None? then None
    else
      var whole, f := Whole(ms[c.written]).value, InRecord(r).value;
      var end := c.offset + |f.body|;
      if end > |whole.body| || f != SliceOf(whole, c.offset, |f.body|) then None
      else if end == |whole.body| then Some(At(c.written + 1, 0))
      else if f.body == [] then None
      else Some(At(c.written, end))
  }

  function Walk(ms: seq<Outgoing>, c: Cursor, rs: seq<Sealed>): Option<Cursor>
    decreases |rs|
  {
    if rs == [] then Some(c)
    else if Next(ms, c, rs[0]).None? then None
    else Walk(ms, Next(ms, c, rs[0]).value, rs[1..])
  }

  /** The cursor is inside the flight, and mid-message only in a handshake message. */
  predicate CursorOk(ms: seq<Outgoing>, c: Cursor) {
    c.written <= |ms| &&
    (c.offset > 0 ==> c.written < |ms| && !ms[c.written].isCcs && c.offset < |Content(ms[c.written])|)
  }

  lemma {:induction false} NextOk(ms: seq<Outgoing>, c: Cursor, r: Sealed)
    requires CursorOk(ms, c) && Next(ms, c, r).Some?
    ensures CursorOk(ms, Next(ms, c, r).value)
  {
  }

  lemma {:induction false} WalkConcat(ms: seq<Outgoing>, c: Cursor, rs: seq<Sealed>, qs: seq<Sealed>)
    requires Walk(ms, c, rs).Some?
    ensures Walk(ms, c, rs + qs) == Walk(ms, Walk(ms, c, rs).value, qs)
    decreases |rs|
  {
    if rs == [] {
      assert rs + qs == qs;
    } else {
      assert (rs + qs)[1..] == rs[1..] + qs;
      WalkConcat(ms, Next(ms, c, rs[0]).value, rs[1..], qs);
    }
  }

  lemma {:induction false} WalkStep(ms: seq<Outgoing>, c: Cursor, rs: seq<Sealed>, r: Sealed)
    requires Walk(ms, c, rs).Some? && Next(ms, Walk(ms, c, rs).value, r).Some?
    ensures Walk(ms, c, rs + [r]) == Next(ms, Walk(ms, c, rs).value, r)
  {
    WalkConcat(ms, c, rs, [r]);
    var d := Walk(ms, c, rs).value;
    assert [r][1..] == [];
    assert Walk(ms, d, [r]) == Walk(ms, Next(ms, d, r).value, []);
  }

  /** A message added at the end changes nothing about what was written. */
  lemma {:induction false} WalkMore(ms: seq<Outgoing>, m: Outgoing, c: Cursor, rs: seq<Sealed>)
    requires Walk(ms, c, rs).Some?
    ensures Walk(ms + [m], c, rs) == Walk(ms, c, rs)
    decreases |rs|
  {
    if rs != [] { WalkMore(ms, m, Next(ms, c, rs[0]).value, rs[1..]); }
  }

  /** A record of the serialized next slice is the next record. */
  lemma {:induction false} NextSlice(ms: seq<Outgoing>, c: Cursor, len: nat)
    requires CursorOk(ms, c) && c.written < |ms| && !ms[c.written].isCcs && Whole(ms[c.written]).Some?
    requires var whole := Whole(ms[c.written]).value;
             c.offset + len <= |whole.body| && (len == 0 ==> c.offset == |whole.body|)
    ensures var whole := Whole(ms[c.written]).value;
            forall size :: Next(ms, c, Sealed(HANDSHAKE, SerializeFragment(SliceOf(whole, c.offset, len)), size)) ==
              Some(if c.offset + len == |whole.body| then At(c.written + 1, 0) else At(c.written, c.offset + len))
  {
    var frag := SliceOf(Whole(ms[c.written]).value, c.offset, len);
    SerializedInRecord(frag);
    hide InRecord, SerializeFragment, Whole;
  }

  lemma {:induction false} SerializedInRecord(f: Fragment)
    requires IsWire(f)
    ensures forall size :: InRecord(Sealed(HANDSHAKE, SerializeFragment(f), size)) == Some(f)
  {
    FragmentRoundTrip(f, []);
    assert SerializeFragment(f) + [] == SerializeFragment(f);
  }

  // ---------------------------------------------------------------- what a walk delivers

  /** How much of message i lies before the cursor. */
  function Before(ms: seq<Outgoing>, c: Cursor, i: nat): nat
    requires i < |ms|
  {
    if i < c.written then |Content(ms[i])| else if i == c.written then c.offset else 0
  }

  function Payload(r: Sealed): seq<byte> {
    if InRecord(r).Some? then InRecord(r).value.body else r.plaintext
  }

  /** Everything the records carry of message i. */
  function Carried(ms: seq<Outgoing>, c: Cursor, rs: seq<Sealed>, i: nat): seq<byte>
    requires Walk(ms, c, rs).Some?
    decreases |rs|
  {
    if rs == [] then []
    else (if c.written == i then Payload(rs[0]) else []) + Carried(ms, Next(ms, c, rs[0]).value, rs[1..], i)
  }

  /** Bytes a to b of message i. */
  function Part(ms: seq<Outgoing>, i: nat, a: nat, b: nat): seq<byte>
    requires i < |ms| && a <= b <= |Content(ms[i])|
  {
    Content(ms[i])[a..b]
  }

  lemma {:induction false} PartConcat(ms: seq<Outgoing>, i: nat, a: nat, b: nat, e: nat)
    requires i < |ms| && a <= b <= e <= |Content(ms[i])|
    ensures Part(ms, i, a, b) + Part(ms, i, b, e) == Part(ms, i, a, e)
  {
  }

  lemma {:induction false} NextCarries(ms: seq<Outgoing>, c: Cursor, r: Sealed, i: nat)
    requires CursorOk(ms, c) && Next(ms, c, r).Some? && i < |ms|
    ensures var d := Next(ms, c, r).value;
            && Before(ms, c, i) <= Before(ms, d, i) <= |Content(ms[i])|
            && Part(ms, i, Before(ms, c, i), Before(ms, d, i)) == if c.written == i then Payload(r) else []
  {
  }

  lemma {:induction false} WalkCarries(ms: seq<Outgoing>, c: Cursor, rs: seq<Sealed>, i: nat)
    requires CursorOk(ms, c) && Walk(ms, c, rs).Some? && i < |ms|
    ensures var d := Walk(ms, c, rs).value;
            && Before(ms, c, i) <= Before(ms, d, i) <= |Content(ms[i])|
            && Carried(ms, c, rs, i) == Part(ms, i, Before(ms, c, i), Before(ms, d, i))
    decreases |rs|
  {
    if rs != [] {
      var next := Next(ms, c, rs[0]).value;
      NextOk(ms, c, rs[0]);
      NextCarries(ms, c, rs[0], i);
      WalkCarries(ms, next, rs[1..], i);
      var e := Before(ms, Walk(ms, next, rs[1..]).value, i);
      PartConcat(ms, i, Before(ms, c, i), Before(ms, next, i), e);
      hide Next, Content, Before, Payload, CursorOk, Part;
    }
  }

  /** Records that walk through the whole flight carry every message exactly once: all its bytes,
      contiguous and in order; ChangeCipherSpec likewise. */
  lemma {:induction false} FlightTiles(ms: seq<Outgoing>, rs: seq<Sealed>, i: nat)
    requires Walk(ms, FlightStart, rs) == Some(FlightEnd(ms)) && i < |ms|
    ensures Carried(ms, FlightStart, rs, i) == Content(ms[i])
  {
    WalkCarries(ms, FlightStart, rs, i);
  }

  // ---------------------------------------------------------------- how far a walk goes

  function Units(m: Outgoing): nat {
    if m.isCcs then 1 else |Content(m)| + 1
  }

  function UnitsUpTo(ms: seq<Outgoing>, i: nat): nat
    requires i <= |ms|
  {
    if i == 0 then 0 else UnitsUpTo(ms, i - 1) + Units(ms[i - 1])
  }

  /** How far the cursor is: the bytes before it, and one for every message it has passed. */
  function Position(ms: seq<Outgoing>, c: Cursor): nat
    requires CursorOk(ms, c)
  {
    UnitsUpTo(ms, c.written) + c.offset
  }

  function Weight(r: Sealed): nat {
    if InRecord(r).None? then 1
    else
      var f := InRecord(r).value;
      |f.body| + if f.off + |f.body| == f.msgLen then 1 else 0
  }

  function TotalWeight(rs: seq<Sealed>): nat
    decreases |rs|
  {
    if rs == [] then 0 else Weight(rs[0]) + TotalWeight(rs[1..])
  }

  lemma {:induction false} TotalWeightConcat(rs: seq<Sealed>, qs: seq<Sealed>)
    ensures TotalWeight(rs + qs) == TotalWeight(rs) + TotalWeight(qs)
    decreases |rs|
  {
    if rs == [] {
      assert rs + qs == qs;
    } else {
      assert (rs + qs)[1..] == rs[1..] + qs;
      TotalWeightConcat(rs[1..], qs);
    }
  }

  lemma {:induction false} NextAdvances(ms: seq<Outgoing>, c: Cursor, r: Sealed)
    requires CursorOk(ms, c) && Next(ms, c, r).Some?
    ensures CursorOk(ms, Next(ms, c, r).value) && Weight(r) > 0
    ensures Position(ms, Next(ms, c, r).value) == Position(ms, c) + Weight(r)
  {
  }

  lemma {:induction false} WalkAdvances(ms: seq<Outgoing>, c: Cursor, rs: seq<Sealed>)
    requires CursorOk(ms, c) && Walk(ms, c, rs).Some?
    ensures CursorOk(ms, Walk(ms, c, rs).value) && TotalWeight(rs) >= |rs|
    ensures Position(ms, Walk(ms, c, rs).value) == Position(ms, c) + TotalWeight(rs)
    decreases |rs|
  {
    if rs != [] {
      NextAdvances(ms, c, rs[0]);
      WalkAdvances(ms, Next(ms, c, rs[0]).value, rs[1..]);
      hide Next, Position, Weight;
    }
  }

  lemma {:induction false} UnitsMore(ms: seq<Outgoing>, m: Outgoing, i: nat)
    requires i <= |ms|
    ensures UnitsUpTo(ms + [m], i) == UnitsUpTo(ms, i)
  {
    if i > 0 { UnitsMore(ms, m, i - 1); }
  }

  lemma {:induction false} UnitsGrow(ms: seq<Outgoing>, i: nat, j: nat)
    requires i <= j <= |ms|
    ensures UnitsUpTo(ms, i) <= UnitsUpTo(ms, j)
    decreases j
  {
    hide Units;
    if i < j { UnitsGrow(ms, i, j - 1); }
  }

  lemma {:induction false} OffsetInMessage(ms: seq<Outgoing>, c: Cursor)
    requires CursorOk(ms, c) && c.written < |ms|
    ensures c.offset <= Units(ms[c.written])
  {
  }

  lemma {:induction false} PositionBound(ms: seq<Outgoing>, c: Cursor)
    requires CursorOk(ms, c)
    ensures Position(ms, c) <= Position(ms, FlightEnd(ms))
  {
    if c.written < |ms| {
      hide Units;
      assert c.offset <= Units(ms[c.written]) by { OffsetInMessage(ms, c); }
      UnitsGrow(ms, c.written + 1, |ms|);
    }
  }

  lemma {:induction false} NothingWritten(ms: seq<Outgoing>)
    ensures CursorOk(ms, FlightStart) && Position(ms, FlightStart) == 0
    ensures Walk(ms, FlightStart, []) == Some(FlightStart) && TotalWeight([]) == 0
  {
  }

  // ---------------------------------------------------------------- end to end

  /** Every handshake message of the flight is one of the sender's messages, with its number. */
  ghost predicate Numbered(sent: seq<Message>, ms: seq<Outgoing>) {
    forall i :: 0 <= i < |ms| && !ms[i].isCcs ==> NumberedMessage(sent, ms[i])
  }

  ghost predicate NumberedMessage(sent: seq<Message>, m: Outgoing) {
    && Whole(m).Some? && Whole(m).value.seqNum < |sent|
    && Whole(m).value.typ == sent[Whole(m).value.seqNum].typ
    && Whole(m).value.body == sent[Whole(m).value.seqNum].body
  }

  /** The fragments in the handshake records. */
  function Fragments(rs: seq<Sealed>): (fs: seq<Fragment>)
    ensures forall f :: f in fs ==> f.seqNum < 0x1_0000
    decreases |rs|
  {
    if rs == [] then []
    else (if InRecord(rs[0]).Some? then [InRecord(rs[0]).value] else []) + Fragments(rs[1..])
  }

  lemma {:induction false} FragmentsHonest(sent: seq<Message>, ms: seq<Outgoing>, c: Cursor, rs: seq<Sealed>)
    requires Numbered(sent, ms) && Walk(ms, c, rs).Some?
    ensures forall f :: f in Fragments(rs) ==> Honest(sent, f)
    decreases |rs|
  {
    if rs != [] { FragmentsHonest(sent, ms, Next(ms, c, rs[0]).value, rs[1..]); }
  }

  ghost predicate CarriedBy(fs: seq<Fragment>, seqNum: nat, k: nat) {
    exists f :: f in fs && f.seqNum == seqNum && (Covers(f, k) || f.msgLen == 0)
  }

  /** Every byte of a message that the walk passes is in some fragment; of an empty message, its
      empty fragment is. */
  lemma {:induction false} WalkSupplies(ms: seq<Outgoing>, c: Cursor, rs: seq<Sealed>, i: nat, k: nat)
    requires CursorOk(ms, c) && Walk(ms, c, rs).Some? && i < |ms| && !ms[i].isCcs && Whole(ms[i]).Some?
    requires c.written <= i < Walk(ms, c, rs).value.written
    requires Before(ms, c, i) <= k && (k < |Content(ms[i])| || (k == 0 && Content(ms[i]) == []))
    ensures CarriedBy(Fragments(rs), Whole(ms[i]).value.seqNum, k)
    decreases |rs|
  {
    var next := Next(ms, c, rs[0]).value;
    NextOk(ms, c, rs[0]);
    if c.written == i && (next.written > i || k < next.offset) {
      var f := InRecord(rs[0]).value;
      assert f in Fragments(rs) && f.seqNum == Whole(ms[i]).value.seqNum && (Covers(f, k) || f.msgLen == 0);
    } else {
      WalkSupplies(ms, next, rs[1..], i, k);
      var f :| f in Fragments(rs[1..]) && f.seqNum == Whole(ms[i]).value.seqNum && (Covers(f, k) || f.msgLen == 0);
      assert f in Fragments(rs);
    }
  }

  /** Message number s is in the flight. */
  ghost predicate InFlight(ms: seq<Outgoing>, s: nat) {
    exists i :: 0 <= i < |ms| && !ms[i].isCcs && Whole(ms[i]).Some? && Whole(ms[i]).value.seqNum == s
  }

  /** The fragments of a completely written flight carry all of each message in it. */
  lemma {:induction false} FlightSupplies(sent: seq<Message>, ms: seq<Outgoing>, rs: seq<Sealed>, fs: seq<Fragment>, s: nat)
    requires Numbered(sent, ms) && Walk(ms, FlightStart, rs) == Some(FlightEnd(ms)) && InFlight(ms, s) && s < |sent|
    requires forall f :: f in Fragments(rs) ==> f in fs
    requires forall f :: f in fs ==> Honest(sent, f)
    ensures AllSupplied(sent, fs, s)
  {
    var i :| 0 <= i < |ms| && !ms[i].isCcs && Whole(ms[i]).Some? && Whole(ms[i]).value.seqNum == s;
    assert NumberedMessage(sent, ms[i]);
    WalkSupplies(ms, FlightStart, rs, i, 0);
    var g :| g in Fragments(rs) && g.seqNum == s && (Covers(g, 0) || g.msgLen == 0);
    assert g in fs;
    forall k: nat | k < |sent[s].body| ensures Supplied(fs, s, k) {
      WalkSupplies(ms, FlightStart, rs, i, k);
      var f :| f in Fragments(rs) && f.seqNum == s && (Covers(f, k) || f.msgLen == 0);
      assert f in fs && Honest(sent, f);
      var j :| 0 <= j < |fs| && fs[j] == f;
    }
  }

  /** From sender to receiver: once all the fragments of a completely written flight have arrived, in any
      order, with any repetitions and among any other true slices, the receiver hands out the messages of
      the flight from the one it waits for on, each once and in order, with the sender's bytes. */
  lemma {:induction false} WrittenFlightIsDelivered(sent: seq<Message>, ms: seq<Outgoing>, rs: seq<Sealed>, n: nat,
                                                    r: Receiver, limits: Limits, fs: seq<Fragment>)
    requires |sent| < 0x1_0000 && Numbered(sent, ms) && Walk(ms, FlightStart, rs) == Some(FlightEnd(ms))
    requires r.Valid() && Agrees(sent, r) && n <= MAX_FLIGHT && r.readSeq + n <= |sent|
    requires forall s: nat :: r.readSeq <= s < r.readSeq + n ==> InFlight(ms, s)
    requires forall f :: f in Fragments(rs) ==> f in fs
    requires forall f :: f in fs ==> Honest(sent, f) && f.seqNum < 0x1_0000 && Allowed(r.readSeq, limits, f)
    ensures ReceiveAll(r, limits, fs).Some?
    ensures Run(ReceiveAll(r, limits, fs).value, ProcessTimes(n)).Some?
    ensures var (end, out) := Run(ReceiveAll(r, limits, fs).value, ProcessTimes(n)).value;
            out == sent[r.readSeq..r.readSeq + n] && end.readSeq == r.readSeq + n
  {
    AllReceived(sent, r, limits, fs);
    forall s: nat | r.readSeq <= s < r.readSeq + n ensures Ready(ReceiveAll(r, limits, fs).value, s) {
      FlightSupplies(sent, ms, rs, fs, s);
      CoveredMessageIsReady(sent, r, limits, fs, s);
    }
    ReadyMessagesDelivered(sent, ReceiveAll(r, limits, fs).value, n);
  }
}
