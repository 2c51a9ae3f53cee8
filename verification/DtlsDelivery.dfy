/** In-order, exactly-once delivery of handshake messages over a network that loses, duplicates,
    reorders and overlaps fragments: the receiver as a state machine on values. DtlsReceiver has the
    imperative code and is proved to take exactly these steps. */
module DtlsDelivery {
  import opened Wrappers
  import opened PbWire
  import opened DtlsFragment

  const MAX_FLIGHT: nat := 7   // SSL_MAX_HANDSHAKE_FLIGHT

  /** A message under reassembly: the bytes of its body that have arrived, by position. */
  datatype Partial = Partial(typ: nat, seqNum: nat, msgLen: nat, arrived: map<nat, byte>)
  {
    predicate Complete() {
      forall k :: 0 <= k < msgLen ==> k in arrived
    }
  }

  /** The ring of incoming messages and the number of the one to be processed next. */
  datatype Receiver = Receiver(readSeq: nat, slots: seq<Option<Partial>>)
  {
    /** What every slot holds: message number s lives in slot s mod 7, inside the window. */
    ghost predicate Valid() {
      && |slots| == MAX_FLIGHT && readSeq < 0x1_0000
      && forall i :: 0 <= i < MAX_FLIGHT ==> (slots[i].Some? ==> SlotOk(i, slots[i].value))
    }

    ghost predicate SlotOk(i: nat, p: Partial) {
      p.seqNum % MAX_FLIGHT == i && readSeq <= p.seqNum < readSeq + MAX_FLIGHT && p.seqNum < 0x1_0000
    }
  }

  const EmptyReceiver: Receiver := Receiver(0, [None, None, None, None, None, None, None])

  /** The slice of a message body that a fragment carries, by position. */
  function Slice(f: Fragment): map<nat, byte> {
    map k: nat | k < f.off + |f.body| && Covers(f, k) :: f.body[k - f.off]
  }

  predicate Covers(f: Fragment, k: nat) {
    f.off <= k < f.off + |f.body|
  }

  /** What the connection allows when a fragment arrives. */
  datatype Limits = Limits(maxMessageLen: nat, encrypted: bool)

  /** One fragment in dtls1_open_handshake's loop. None is the fatal-error result. A fragment of a
      message that was already processed, or is more than seven ahead, is ignored; one that is
      exactly seven ahead passes that test but has no slot, and is an error. */
  function Receive(r: Receiver, limits: Limits, f: Fragment): (r': Option<Receiver>)
    requires r.Valid() && f.seqNum < 0x1_0000
    ensures r'.Some? ==> r'.value.Valid() && r'.value.readSeq == r.readSeq
  {
    if f.off > f.msgLen || f.off + |f.body| > f.msgLen || f.msgLen > limits.maxMessageLen then None
    else if limits.encrypted && f.seqNum != r.readSeq then None
    else if f.seqNum < r.readSeq || f.seqNum > r.readSeq + MAX_FLIGHT then Some(r)
    else if f.seqNum - r.readSeq >= MAX_FLIGHT then None
    else
      var i := f.seqNum % MAX_FLIGHT;
      SameSlotSameNumber(r, f.seqNum);
      var p := InSlot(r.slots[i], f);
      if p.typ != f.typ || p.msgLen != f.msgLen then None
      else Some(r.(slots := r.slots[i := Some(Absorb(p, f))]))
  }

  /** What the slot holds, or the empty message that dtls1_hm_fragment_new puts there. */
  function InSlot(slot: Option<Partial>, f: Fragment): Partial {
    if slot.Some? then slot.value else Partial(f.typ, f.seqNum, f.msgLen, map[])
  }

  /** The message with the fragment's bytes added, unless it was complete already. */
  function Absorb(p: Partial, f: Fragment): Partial {
    if p.Complete() then p else p.(arrived := p.arrived + Slice(f))
  }

  /** Two message numbers inside the window share a slot only if they are equal, so the fragment's
      slot is empty or holds its own message. */
  lemma {:induction false} SameSlotSameNumber(r: Receiver, seqNum: nat)
    requires r.Valid() && r.readSeq <= seqNum < r.readSeq + MAX_FLIGHT
    ensures var slot := r.slots[seqNum % MAX_FLIGHT]; slot.Some? ==> slot.value.seqNum == seqNum
  {
    var i := seqNum % MAX_FLIGHT;
    if r.slots[i].Some? {
      var s := r.slots[i].value.seqNum;
      assert r.SlotOk(i, r.slots[i].value);
      assert s / 7 * 7 + i == s && seqNum / 7 * 7 + i == seqNum;
    }
  }

  /** dtls1_open_handshake on the contents of one handshake record. */
  function ReceiveRecord(r: Receiver, limits: Limits, s: seq<byte>): (r': Option<Receiver>)
    requires r.Valid()
    ensures r'.Some? ==> r'.value.Valid() && r'.value.readSeq == r.readSeq
    decreases |s|
  {
    if s == [] then Some(r)
    else
      match ParseFragment(s)
      case None => None
      case Some((f, rest)) =>
        match Receive(r, limits, f)
        case None => None
        case Some(r') => ReceiveRecord(r', limits, rest)
  }

  /** dtls1_get_message: the next message, once all of it is there. */
  function Current(r: Receiver): Option<(nat, seq<byte>)>
    requires r.Valid()
  {
    var slot := r.slots[r.readSeq % MAX_FLIGHT];
    if slot.Some? && slot.value.Complete() then
      Some((slot.value.typ, seq(slot.value.msgLen, k requires 0 <= k < slot.value.msgLen => slot.value.arrived[k])))
    else None
  }

  /** dtls1_next_message: free the slot and move on. */
  function NextMessage(r: Receiver): (r': Receiver)
    requires r.Valid() && Current(r).Some?
    ensures r'.Valid()
  {
    var i := r.readSeq % MAX_FLIGHT;
    var r' := Receiver((r.readSeq + 1) % 0x1_0000, r.slots[i := None]);
    r'
  }

  // ---------------------------------------------------------------- runs

  datatype Message = Message(typ: nat, body: seq<byte>)

  /** What can happen to the receiver: a handshake record arrives, or the handshake asks for the
      next message and, if it is there, processes it. */
  datatype Event = Record(limits: Limits, bytes: seq<byte>) | Process

  /** A run, with the messages handed out. None if some record is a fatal error. */
  function Run(r: Receiver, events: seq<Event>): (end: Option<(Receiver, seq<Message>)>)
    requires r.Valid()
    ensures end.Some? ==> end.value.0.Valid()
    decreases |events|
  {
    if events == [] then Some((r, []))
    else
      match events[0]
      case Record(limits, bytes) =>
        (match ReceiveRecord(r, limits, bytes)
         case None => None
         case Some(r') => Run(r', events[1..]))
      case Process =>
        match Current(r)
        case None => Run(r, events[1..])
        case Some((typ, body)) =>
          match Run(NextMessage(r), events[1..])
          case None => None
          case Some((end, out)) => Some((end, [Message(typ, body)] + out))
  }

  /** A true slice of one of the sender's messages. */
  ghost predicate Honest(sent: seq<Message>, f: Fragment) {
    && f.seqNum < |sent| && f.typ == sent[f.seqNum].typ && f.msgLen == |sent[f.seqNum].body|
    && f.off + |f.body| <= f.msgLen && f.body == sent[f.seqNum].body[f.off..f.off + |f.body|]
  }

  /** A record made of true slices. */
  ghost predicate HonestRecord(sent: seq<Message>, s: seq<byte>)
    decreases |s|
  {
    s == [] ||
    match ParseFragment(s)
    case None => false
    case Some((f, rest)) => Honest(sent, f) && HonestRecord(sent, rest)
  }

  ghost predicate HonestEvents(sent: seq<Message>, events: seq<Event>) {
    forall e :: e in events && e.Record? ==> HonestRecord(sent, e.bytes)
  }

  /** Every byte held is the sender's byte at its place. */
  ghost predicate Agrees(sent: seq<Message>, r: Receiver)
    requires r.Valid()
  {
    r.readSeq <= |sent| && forall i :: 0 <= i < MAX_FLIGHT ==> (r.slots[i].Some? ==> PartOf(sent, r.slots[i].value))
  }

  ghost predicate PartOf(sent: seq<Message>, p: Partial) {
    && p.seqNum < |sent| && p.typ == sent[p.seqNum].typ && p.msgLen == |sent[p.seqNum].body|
    && forall k :: k in p.arrived ==> k < p.msgLen && p.arrived[k] == sent[p.seqNum].body[k]
  }

  lemma {:induction false} ReceiveAgrees(sent: seq<Message>, r: Receiver, limits: Limits, f: Fragment)
    requires r.Valid() && Agrees(sent, r) && Honest(sent, f) && f.seqNum < 0x1_0000
    ensures Receive(r, limits, f).Some? ==> Agrees(sent, Receive(r, limits, f).value)
  {
    if r.readSeq <= f.seqNum < r.readSeq + MAX_FLIGHT && Receive(r, limits, f).Some? {
      var i := f.seqNum % MAX_FLIGHT;
      SameSlotSameNumber(r, f.seqNum);
      assert r.slots[i].Some? ==> PartOf(sent, r.slots[i].value);
      var p' := Receive(r, limits, f).value.slots[i].value;
      assert PartOf(sent, p');
    }
  }

  lemma {:induction false} RecordAgrees(sent: seq<Message>, r: Receiver, limits: Limits, s: seq<byte>)
    requires r.Valid() && Agrees(sent, r) && HonestRecord(sent, s)
    ensures ReceiveRecord(r, limits, s).Some? ==> Agrees(sent, ReceiveRecord(r, limits, s).value)
    decreases |s|
  {
    if s != [] {
      var f, rest := ParseFragment(s).value.0, ParseFragment(s).value.1;
      ReceiveAgrees(sent, r, limits, f);
      if Receive(r, limits, f).Some? {
        RecordAgrees(sent, Receive(r, limits, f).value, limits, rest);
      }
    }
  }

  /** What is handed out next is the sender's next message. */
  lemma {:induction false} CurrentIsNext(sent: seq<Message>, r: Receiver)
    requires r.Valid() && Agrees(sent, r) && |sent| < 0x1_0000 && Current(r).Some?
    ensures r.readSeq < |sent| && Message(Current(r).value.0, Current(r).value.1) == sent[r.readSeq]
    ensures NextMessage(r).readSeq == r.readSeq + 1 && Agrees(sent, NextMessage(r))
  {
    var i := r.readSeq % MAX_FLIGHT;
    SameSlotSameNumber(r, r.readSeq);
    var p := r.slots[i].value;
    assert PartOf(sent, p) && p.seqNum == r.readSeq;
    assert Current(r).value.1 == sent[r.readSeq].body;
  }

  lemma {:induction false} RunDelivers(sent: seq<Message>, r: Receiver, events: seq<Event>)
    requires |sent| < 0x1_0000 && r.Valid() && Agrees(sent, r) && HonestEvents(sent, events)
    ensures Run(r, events).Some? ==>
              var (end, out) := Run(r, events).value;
              Agrees(sent, end) && r.readSeq <= end.readSeq && out == sent[r.readSeq..end.readSeq]
    decreases |events|
  {
    if events != [] {
      match events[0] {
        case Record(limits, bytes) =>
          assert events[0] in events;
          RecordAgrees(sent, r, limits, bytes);
          if ReceiveRecord(r, limits, bytes).Some? {
            RunDelivers(sent, ReceiveRecord(r, limits, bytes).value, events[1..]);
          }
        case Process =>
          if Current(r).Some? {
            CurrentIsNext(sent, r);
            RunDelivers(sent, NextMessage(r), events[1..]);
          } else {
            RunDelivers(sent, r, events[1..]);
          }
      }
    }
  }

  // ---------------------------------------------------------------- errors

  /** The receiver's limits allow this fragment: its message is not too long, it belongs to the message that
      is processed next if the epoch is encrypted, and it is not exactly seven messages ahead. */
  predicate Allowed(readSeq: nat, limits: Limits, f: Fragment) {
    && f.msgLen <= limits.maxMessageLen
    && (limits.encrypted ==> f.seqNum == readSeq)
    && f.seqNum != readSeq + MAX_FLIGHT
  }

  /** Another message is already under reassembly with the number of this fragment's. */
  ghost predicate Contradicts(r: Receiver, f: Fragment)
    requires r.Valid()
  {
    exists i :: 0 <= i < MAX_FLIGHT && r.slots[i].Some? && r.slots[i].value.seqNum == f.seqNum
                && (r.slots[i].value.typ != f.typ || r.slots[i].value.msgLen != f.msgLen)
  }

  /** Exactly these fragments are fatal: one that reaches beyond its message, one that is not allowed, and
      one that contradicts an earlier one about the type or length of its message. */
  lemma {:induction false} ReceiveFailsExactly(r: Receiver, limits: Limits, f: Fragment)
    requires r.Valid() && f.seqNum < 0x1_0000
    ensures Receive(r, limits, f).None? <==>
              f.off + |f.body| > f.msgLen || !Allowed(r.readSeq, limits, f) || Contradicts(r, f)
  {
    if exists i :: 0 <= i < MAX_FLIGHT && r.slots[i].Some? && r.slots[i].value.seqNum == f.seqNum {
      var i :| 0 <= i < MAX_FLIGHT && r.slots[i].Some? && r.slots[i].value.seqNum == f.seqNum;
      assert r.SlotOk(i, r.slots[i].value);
    }
    if InWindow(r, f.seqNum) { SameSlotSameNumber(r, f.seqNum); }
  }

  /** A true slice is fatal only if it is not allowed, and one of a message that was processed before, or
      of one that is too far ahead to be kept, changes nothing. */
  lemma {:induction false} HonestReceived(sent: seq<Message>, r: Receiver, limits: Limits, f: Fragment)
    requires r.Valid() && Agrees(sent, r) && Honest(sent, f) && f.seqNum < 0x1_0000
    ensures Receive(r, limits, f).Some? <==> Allowed(r.readSeq, limits, f)
    ensures Allowed(r.readSeq, limits, f) && !InWindow(r, f.seqNum) ==> Receive(r, limits, f) == Some(r)
  {
    ReceiveFailsExactly(r, limits, f);
    forall i | 0 <= i < MAX_FLIGHT && r.slots[i].Some? && r.slots[i].value.seqNum == f.seqNum
      ensures r.slots[i].value.typ == f.typ && r.slots[i].value.msgLen == f.msgLen
    {
      assert PartOf(sent, r.slots[i].value);
    }
    hide PartOf, Receiver.Valid, Honest;
    assert !Contradicts(r, f);
  }

  /** Feeding fragments one by one. */
  function ReceiveAll(r: Receiver, limits: Limits, fs: seq<Fragment>): (r': Option<Receiver>)
    requires r.Valid() && forall f :: f in fs ==> f.seqNum < 0x1_0000
    ensures r'.Some? ==> r'.value.Valid() && r'.value.readSeq == r.readSeq
    decreases |fs|
  {
    if fs == [] then Some(r)
    else
      match Receive(r, limits, fs[0])
      case None => None
      case Some(r') => ReceiveAll(r', limits, fs[1..])
  }

  /** True slices are received without an error exactly if all of them are allowed. */
  lemma {:induction false} AllReceived(sent: seq<Message>, r: Receiver, limits: Limits, fs: seq<Fragment>)
    requires r.Valid() && Agrees(sent, r)
    requires forall f :: f in fs ==> Honest(sent, f) && f.seqNum < 0x1_0000
    ensures ReceiveAll(r, limits, fs).Some? <==> forall f :: f in fs ==> Allowed(r.readSeq, limits, f)
    ensures ReceiveAll(r, limits, fs).Some? ==> Agrees(sent, ReceiveAll(r, limits, fs).value)
    decreases |fs|
  {
    if fs != [] {
      assert fs == [fs[0]] + fs[1..];
      HonestReceived(sent, r, limits, fs[0]);
      ReceiveAgrees(sent, r, limits, fs[0]);
      if Receive(r, limits, fs[0]).Some? {
        AllReceived(sent, Receive(r, limits, fs[0]).value, limits, fs[1..]);
      }
      hide Receive, Honest, Agrees, Allowed, Receiver.Valid;
    }
  }

  /** The fragments of a record, as far as they can be parsed. */
  function FragmentsIn(s: seq<byte>): (fs: seq<Fragment>)
    ensures forall f :: f in fs ==> f.seqNum < 0x1_0000
    decreases |s|
  {
    match ParseFragment(s)
    case None => []
    case Some((f, rest)) => [f] + FragmentsIn(rest)
  }

  /** A record is its fragments, one by one. */
  lemma {:induction false} RecordIsFragments(sent: seq<Message>, r: Receiver, limits: Limits, s: seq<byte>)
    requires r.Valid() && HonestRecord(sent, s)
    ensures forall f :: f in FragmentsIn(s) ==> Honest(sent, f)
    ensures ReceiveRecord(r, limits, s) == ReceiveAll(r, limits, FragmentsIn(s))
    decreases |s|
  {
    if s != [] {
      hide Receive, Honest;
      var f, rest := ParseFragment(s).value.0, ParseFragment(s).value.1;
      assert FragmentsIn(s)[1..] == FragmentsIn(rest);
      RecordIsFragments(sent, r, limits, rest);
      if Receive(r, limits, f).Some? {
        RecordIsFragments(sent, Receive(r, limits, f).value, limits, rest);
      }
    }
  }

  lemma {:induction false} RecordReceived(sent: seq<Message>, r: Receiver, limits: Limits, s: seq<byte>)
    requires r.Valid() && Agrees(sent, r) && HonestRecord(sent, s)
    ensures ReceiveRecord(r, limits, s).Some? <==> forall f :: f in FragmentsIn(s) ==> Allowed(r.readSeq, limits, f)
    ensures ReceiveRecord(r, limits, s).Some? ==> Agrees(sent, ReceiveRecord(r, limits, s).value)
  {
    RecordIsFragments(sent, r, limits, s);
    AllReceived(sent, r, limits, FragmentsIn(s));
  }

  /** Event k is a record with a fragment that is not allowed where the run has got to by then. */
  ghost predicate BreaksAt(r: Receiver, events: seq<Event>, k: nat)
    requires r.Valid()
  {
    k < |events| && events[k].Record? && Run(r, events[..k]).Some?
    && exists f :: f in FragmentsIn(events[k].bytes)
                   && !Allowed(Run(r, events[..k]).value.0.readSeq, events[k].limits, f)
  }

  /** A run over records of true slices fails only when a fragment arrives that is not allowed. */
  lemma {:induction false} RunFailsExactly(sent: seq<Message>, r: Receiver, events: seq<Event>)
    requires |sent| < 0x1_0000 && r.Valid() && Agrees(sent, r) && HonestEvents(sent, events)
    ensures Run(r, events).None? <==> exists k: nat :: BreaksAt(r, events, k)
    decreases |events|
  {
    if events == [] {
      assert !exists k: nat :: BreaksAt(r, events, k);
    } else {
      StepThenBreaks(sent, r, events);
      hide Run, BreaksAt, AfterEvent, Agrees;
      if AfterEvent(r, events[0]).Some? {
        var next := AfterEvent(r, events[0]).value;
        RunFailsExactly(sent, next, events[1..]);
        if k: nat :| BreaksAt(r, events, k) {
          assert k != 0;
          assert BreaksAt(r, events, k - 1 + 1) && BreaksAt(next, events[1..], k - 1);
        }
        if k: nat :| BreaksAt(next, events[1..], k) {
          assert BreaksAt(r, events, k + 1);
        }
      }
    }
  }

  /** The receiver after one event. */
  function AfterEvent(r: Receiver, e: Event): (r': Option<Receiver>)
    requires r.Valid()
    ensures r'.Some? ==> r'.value.Valid()
  {
    match e
    case Record(limits, bytes) => ReceiveRecord(r, limits, bytes)
    case Process => if Current(r).Some? then Some(NextMessage(r)) else Some(r)
  }

  lemma {:induction false} RunStep(r: Receiver, events: seq<Event>)
    requires r.Valid() && events != []
    ensures Run(r, events).Some? <==>
              AfterEvent(r, events[0]).Some? && Run(AfterEvent(r, events[0]).value, events[1..]).Some?
    ensures Run(r, events).Some? ==>
              Run(r, events).value.0 == Run(AfterEvent(r, events[0]).value, events[1..]).value.0
  {
    hide ReceiveRecord, Current, NextMessage, Receiver.Valid;
  }

  lemma {:induction false} StepThenBreaks(sent: seq<Message>, r: Receiver, events: seq<Event>)
    requires |sent| < 0x1_0000 && r.Valid() && Agrees(sent, r) && HonestEvents(sent, events) && events != []
    ensures BreaksAt(r, events, 0) <==> AfterEvent(r, events[0]).None?
    ensures AfterEvent(r, events[0]).Some? ==> Agrees(sent, AfterEvent(r, events[0]).value)
    ensures AfterEvent(r, events[0]).Some? ==>
              forall k: nat :: BreaksAt(r, events, k + 1) <==> BreaksAt(AfterEvent(r, events[0]).value, events[1..], k)
    ensures AfterEvent(r, events[0]).None? ==> Run(r, events).None?
    ensures AfterEvent(r, events[0]).Some? ==>
              (Run(r, events).None? <==> Run(AfterEvent(r, events[0]).value, events[1..]).None?)
  {
    assert events[0] in events;
    assert Run(r, events[..0]) == Some((r, []));
    RunStep(r, events);
    match events[0] {
      case Record(limits, bytes) => RecordReceived(sent, r, limits, bytes);
      case Process => if Current(r).Some? { CurrentIsNext(sent, r); }
    }
    hide Run, Allowed, Agrees, AfterEvent, FragmentsIn, Receiver.Valid;
    if AfterEvent(r, events[0]).Some? {
      forall k: nat
        ensures BreaksAt(r, events, k + 1) <==> BreaksAt(AfterEvent(r, events[0]).value, events[1..], k)
      {
        if k + 1 < |events| {
          assert events[..k + 1][1..] == events[1..][..k];
          RunStep(r, events[..k + 1]);
        }
      }
    }
  }

  /** While the sender is at most seven messages ahead of the receiver, and the epoch is not encrypted and its
      messages not too long, no record of true slices breaks a run, whatever is repeated or out of order. */
  lemma {:induction false} NearbyRunSucceeds(sent: seq<Message>, r: Receiver, events: seq<Event>)
    requires |sent| < 0x1_0000 && r.Valid() && Agrees(sent, r) && HonestEvents(sent, events)
    requires |sent| <= r.readSeq + MAX_FLIGHT
    requires forall e :: e in events && e.Record? ==>
               !e.limits.encrypted && forall m :: m in sent ==> |m.body| <= e.limits.maxMessageLen
    ensures Run(r, events).Some?
    decreases |events|
  {
    if events != [] {
      var e := events[0];
      assert e in events;
      if e.Record? {
        RecordIsFragments(sent, r, e.limits, e.bytes);
        forall f | f in FragmentsIn(e.bytes) ensures Allowed(r.readSeq, e.limits, f) {
          assert sent[f.seqNum] in sent;
        }
        RecordReceived(sent, r, e.limits, e.bytes);
      } else if Current(r).Some? {
        CurrentIsNext(sent, r);
      }
      RunStep(r, events);
      NearbyRunSucceeds(sent, AfterEvent(r, e).value, events[1..]);
    }
  }

  /** In-order, exactly-once delivery: whatever records made of true slices arrive, in whatever order
      and however often, a run hands out exactly the first messages the sender sent, each once and in order,
      and what it still holds is correct and in its place; it ends in a fatal error exactly if a fragment
      arrives that is not allowed. */
  lemma {:induction false} InOrderDelivery(sent: seq<Message>, events: seq<Event>)
    requires |sent| < 0x1_0000 && HonestEvents(sent, events)
    ensures Run(EmptyReceiver, events).None? <==> exists k: nat :: BreaksAt(EmptyReceiver, events, k)
    ensures Run(EmptyReceiver, events).Some? ==>
              var (end, out) := Run(EmptyReceiver, events).value;
              end.Valid() && Agrees(sent, end) && out == sent[..end.readSeq]
  {
    RunDelivers(sent, EmptyReceiver, events);
    RunFailsExactly(sent, EmptyReceiver, events);
  }

  // ---------------------------------------------------------------- progress

  /** Byte k of message s has arrived. */
  ghost predicate Held(r: Receiver, s: nat, k: nat)
    requires r.Valid()
  {
    Opened(r, s) && k in r.slots[s % MAX_FLIGHT].value.arrived
  }

  /** Message s has its slot. */
  ghost predicate Opened(r: Receiver, s: nat)
    requires r.Valid()
  {
    var slot := r.slots[s % MAX_FLIGHT]; slot.Some? && slot.value.seqNum == s
  }

  /** All of message s has arrived. */
  ghost predicate Ready(r: Receiver, s: nat)
    requires r.Valid()
  {
    Opened(r, s) && r.slots[s % MAX_FLIGHT].value.Complete()
  }

  ghost predicate InWindow(r: Receiver, s: nat) {
    r.readSeq <= s < r.readSeq + MAX_FLIGHT
  }

  /** One of these fragments carries byte k of that message. */
  ghost predicate Supplied(fs: seq<Fragment>, seqNum: nat, k: nat) {
    exists i :: 0 <= i < |fs| && fs[i].seqNum == seqNum && Covers(fs[i], k)
  }

  lemma {:induction false} BytesStay(sent: seq<Message>, r: Receiver, limits: Limits, fs: seq<Fragment>, s: nat, k: nat)
    requires r.Valid() && Agrees(sent, r) && InWindow(r, s) && s < |sent| && k < |sent[s].body|
    requires forall f :: f in fs ==> Honest(sent, f) && f.seqNum < 0x1_0000
    requires Held(r, s, k) || Supplied(fs, s, k)
    requires ReceiveAll(r, limits, fs).Some?
    ensures Held(ReceiveAll(r, limits, fs).value, s, k)
    decreases |fs|
  {
    if fs != [] {
      var r' := Receive(r, limits, fs[0]).value;
      ReceiveAgrees(sent, r, limits, fs[0]);
      ReceiveKeeps(sent, r, limits, fs[0], s, k);
      if !Held(r', s, k) {
        assert Supplied(fs, s, k);
        var i :| 0 <= i < |fs| && fs[i].seqNum == s && Covers(fs[i], k);
        assert i > 0 && fs[1..][i - 1] == fs[i];
        assert Supplied(fs[1..], s, k);
      }
      BytesStay(sent, r', limits, fs[1..], s, k);
    }
  }

  lemma {:induction false} ReceiveKeeps(sent: seq<Message>, r: Receiver, limits: Limits, f: Fragment, s: nat, k: nat)
    requires r.Valid() && Agrees(sent, r) && Honest(sent, f) && f.seqNum < 0x1_0000
    requires InWindow(r, s) && s < |sent| && k < |sent[s].body| && Receive(r, limits, f).Some?
    ensures Held(r, s, k) || (f.seqNum == s && Covers(f, k)) ==> Held(Receive(r, limits, f).value, s, k)
    ensures Opened(r, s) || f.seqNum == s ==> Opened(Receive(r, limits, f).value, s)
  {
    SameSlotSameNumber(r, s);
    if InWindow(r, f.seqNum) {
      SameSlotSameNumber(r, f.seqNum);
      var i := f.seqNum % MAX_FLIGHT;
      assert r.slots[i].Some? ==> PartOf(sent, r.slots[i].value);
      if f.seqNum == s && Covers(f, k) {
        assert k in Slice(f);
      }
    }
  }

  lemma {:induction false} SlotOpened(r: Receiver, limits: Limits, fs: seq<Fragment>, s: nat)
    requires r.Valid() && InWindow(r, s) && ReceiveAll.requires(r, limits, fs) && ReceiveAll(r, limits, fs).Some?
    requires Opened(r, s) || exists i :: 0 <= i < |fs| && fs[i].seqNum == s
    ensures Opened(ReceiveAll(r, limits, fs).value, s)
    decreases |fs|
  {
    if fs != [] {
      var r' := Receive(r, limits, fs[0]).value;
      SameSlotSameNumber(r, s);
      if InWindow(r, fs[0].seqNum) { SameSlotSameNumber(r, fs[0].seqNum); }
      if !Opened(r', s) {
        var i :| 0 <= i < |fs| && fs[i].seqNum == s;
        assert i > 0 && fs[1..][i - 1] == fs[i];
      }
      SlotOpened(r', limits, fs[1..], s);
    }
  }

  /** These fragments carry all of message s. */
  ghost predicate AllSupplied(sent: seq<Message>, fs: seq<Fragment>, s: nat)
    requires s < |sent|
  {
    && (exists i :: 0 <= i < |fs| && fs[i].seqNum == s)
    && forall k: nat :: k < |sent[s].body| ==> Supplied(fs, s, k)
  }

  /** A message in the window is ready once slices that together cover it have arrived. */
  lemma {:induction false} CoveredMessageIsReady(sent: seq<Message>, r: Receiver, limits: Limits, fs: seq<Fragment>, s: nat)
    requires r.Valid() && Agrees(sent, r) && InWindow(r, s) && s < |sent| && AllSupplied(sent, fs, s)
    requires forall f :: f in fs ==> Honest(sent, f) && f.seqNum < 0x1_0000 && Allowed(r.readSeq, limits, f)
    ensures ReceiveAll(r, limits, fs).Some? && Ready(ReceiveAll(r, limits, fs).value, s)
  {
    AllReceived(sent, r, limits, fs);
    var r' := ReceiveAll(r, limits, fs).value;
    SlotOpened(r, limits, fs, s);
    var p := r'.slots[s % MAX_FLIGHT].value;
    assert PartOf(sent, p);
    forall k | 0 <= k < p.msgLen ensures k in p.arrived {
      BytesStay(sent, r, limits, fs, s, k);
    }
  }

  /** Nothing is stuck: once slices that together cover the next message have arrived, it can be processed. */
  lemma {:induction false} CoveredMessageIsDelivered(sent: seq<Message>, r: Receiver, limits: Limits, fs: seq<Fragment>)
    requires r.Valid() && Agrees(sent, r) && |sent| < 0x1_0000 && r.readSeq < |sent| && AllSupplied(sent, fs, r.readSeq)
    requires forall f :: f in fs ==> Honest(sent, f) && f.seqNum < 0x1_0000 && Allowed(r.readSeq, limits, f)
    ensures ReceiveAll(r, limits, fs).Some?
    ensures Current(ReceiveAll(r, limits, fs).value) == Some((sent[r.readSeq].typ, sent[r.readSeq].body))
  {
    AllReceived(sent, r, limits, fs);
    CoveredMessageIsReady(sent, r, limits, fs, r.readSeq);
    CurrentIsNext(sent, ReceiveAll(r, limits, fs).value);
  }

  function ProcessTimes(n: nat): seq<Event> {
    seq(n, _ => Process)
  }

  /** The ready messages from the next one on are handed out in order. */
  lemma {:induction false} ReadyMessagesDelivered(sent: seq<Message>, r: Receiver, n: nat)
    requires r.Valid() && Agrees(sent, r) && |sent| < 0x1_0000 && r.readSeq + n <= |sent|
    requires forall s: nat :: r.readSeq <= s < r.readSeq + n ==> Ready(r, s)
    ensures Run(r, ProcessTimes(n)).Some?
    ensures var (end, out) := Run(r, ProcessTimes(n)).value;
            out == sent[r.readSeq..r.readSeq + n] && end.readSeq == r.readSeq + n
    decreases n
  {
    if n > 0 {
      assert Ready(r, r.readSeq);
      CurrentIsNext(sent, r);
      var next := NextMessage(r);
      forall s: nat | next.readSeq <= s < next.readSeq + (n - 1) ensures Ready(next, s) {
        assert Ready(r, s);
      }
      assert ProcessTimes(n)[1..] == ProcessTimes(n - 1);
      ReadyMessagesDelivered(sent, next, n - 1);
      assert [sent[r.readSeq]] + sent[r.readSeq + 1..r.readSeq + n] == sent[r.readSeq..r.readSeq + n];
      hide Ready, Agrees, NextMessage;
    }
  }
}
