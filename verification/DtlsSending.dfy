/** How a flight is sent (send_flight in d1_both.cc), on values: what one sealing does, which events a
    packet and a call consist of, and what any number of calls has written in the end. DtlsSender has the
    code, which produces exactly these events. */
module DtlsSending {
  import opened Wrappers
  import opened PbWire
  import opened DtlsFragment
  import opened DtlsFlight

  // ---------------------------------------------------------------- one record

  /** dtls_max_seal_overhead and dtls_seal_prefix_len of the keys of one epoch: both count the record
      header and the explicit nonce, the first also the cipher's own overhead. */
  datatype Cipher = Cipher(overhead: nat, prefix: nat)

  /** The write epoch, its cipher, and the one of the epoch before. */
  datatype Keys = Keys(wEpoch: nat, current: Cipher, previous: Cipher)
  {
    predicate Valid() {
      current.prefix <= current.overhead && previous.prefix <= previous.overhead
    }
  }

  /** The cipher of a message's epoch, which must be the current one or the one before. */
  function CipherFor(k: Keys, m: Outgoing): Option<Cipher> {
    if k.wEpoch >= 1 && m.epoch == k.wEpoch - 1 then Some(k.previous)
    else if m.epoch == k.wEpoch then Some(k.current)
    else None
  }

  /** After a change of keys a message of the new epoch is sealed with the new cipher, one of the epoch before
      with the same cipher as until then, and an older one not any more; when the epoch overflows, not even
      one of the epoch before. */
  lemma {:induction false} KeysChange(k: Keys, next: Cipher, m: Outgoing)
    requires k.wEpoch < 0x1_0000 && m.epoch < 0x1_0000
    ensures var k' := Keys((k.wEpoch + 1) % 0x1_0000, next, k.current);
            && (m.epoch == k'.wEpoch ==> CipherFor(k', m) == Some(next))
            && (m.epoch == k.wEpoch < 0xFFFF ==> CipherFor(k', m) == CipherFor(k, m) == Some(k.current))
            && (m.epoch != k'.wEpoch && (m.epoch != k.wEpoch || k.wEpoch == 0xFFFF) ==> CipherFor(k', m) == None)
  {
  }

  datatype SealResult = SealError | NoProgress | SealPartial(record: Sealed) | SealSuccess(record: Sealed)

  function Min(a: nat, b: nat): nat {
    if a <= b then a else b
  }

  /** seal_next_message. `seal` is what the cipher does: it fails, or it seals with this length, which is
      within the overhead it has announced. */
  function SealNext(k: Keys, ms: seq<Outgoing>, c: Cursor, maxOut: nat, seal: Option<nat>): SealResult
    requires c.written < |ms|
  {
    var m := ms[c.written];
    if CipherFor(k, m).None? then SealError
    else
      var cipher := CipherFor(k, m).value;
      if m.isCcs then
        if maxOut < 1 + cipher.overhead then NoProgress
        else if seal.None? then SealError
        else SealSuccess(Sealed(CHANGE_CIPHER_SPEC, [MT_CCS], Min(seal.value, 1 + cipher.overhead)))
      else if Whole(m).None? || c.offset > |Whole(m).value.body| then SealError
      else if maxOut < HEADER_LENGTH + 1 + cipher.overhead || maxOut < cipher.prefix then NoProgress
      else
        var left := |Whole(m).value.body| - c.offset;
        var todo := Min(left, maxOut - HEADER_LENGTH - cipher.overhead);
        if seal.None? then SealError
        else
          var plaintext := SerializeFragment(SliceOf(Whole(m).value, c.offset, todo));
          var record := Sealed(HANDSHAKE, plaintext, Min(seal.value, |plaintext| + cipher.overhead));
          if todo == left then SealSuccess(record) else SealPartial(record)
  }

  /** The current message can be cut into records: the keys of its epoch are there, and it is well formed. */
  predicate Sealable(k: Keys, ms: seq<Outgoing>, c: Cursor)
    requires c.written < |ms|
  {
    var m := ms[c.written];
    CipherFor(k, m).Some? && (m.isCcs || (Whole(m).Some? && c.offset <= |Whole(m).value.body|))
  }

  /** The least room in which a record of this message fits, be it with a single byte of it. */
  function LeastRoom(k: Keys, m: Outgoing): nat
    requires CipherFor(k, m).Some?
  {
    CipherFor(k, m).value.overhead + 1 + if m.isCcs then 0 else HEADER_LENGTH
  }

  /** A record is sealed exactly if the message can be cut, there is room for a record with one byte of it,
      and the cipher works; for lack of room nothing happens, and everything else is a failure. */
  lemma {:induction false} SealDecides(k: Keys, ms: seq<Outgoing>, c: Cursor, maxOut: nat, seal: Option<nat>)
    requires c.written < |ms| && k.Valid()
    ensures var ret := SealNext(k, ms, c, maxOut, seal);
            && (ret.NoProgress? <==> Sealable(k, ms, c) && maxOut < LeastRoom(k, ms[c.written]))
            && (ret.SealPartial? || ret.SealSuccess? <==>
                  Sealable(k, ms, c) && maxOut >= LeastRoom(k, ms[c.written]) && seal.Some?)
            && (ret.SealError? <==>
                  !Sealable(k, ms, c) || (maxOut >= LeastRoom(k, ms[c.written]) && seal.None?))
  {
    hide SerializeFragment, Whole;
  }

  /** A record that is sealed is the next one of the flight and fits the room; a part of a message fills
      it. */
  lemma {:induction false} SealsTheNext(k: Keys, ms: seq<Outgoing>, c: Cursor, maxOut: nat, seal: Option<nat>)
    requires c.written < |ms| && CursorOk(ms, c)
    ensures IsNext(k, ms, c, maxOut, SealNext(k, ms, c, maxOut, seal))
  {
    if ms[c.written].isCcs { SealsCcs(k, ms, c, maxOut, seal); } else { SealsFragment(k, ms, c, maxOut, seal); }
    hide SealNext, IsNext;
  }

  lemma {:induction false} SealsCcs(k: Keys, ms: seq<Outgoing>, c: Cursor, maxOut: nat, seal: Option<nat>)
    requires c.written < |ms| && CursorOk(ms, c) && ms[c.written].isCcs
    ensures IsNext(k, ms, c, maxOut, SealNext(k, ms, c, maxOut, seal))
  {
    hide CipherFor;
  }

  lemma {:induction false} SealsFragment(k: Keys, ms: seq<Outgoing>, c: Cursor, maxOut: nat, seal: Option<nat>)
    requires c.written < |ms| && CursorOk(ms, c) && !ms[c.written].isCcs
    ensures IsNext(k, ms, c, maxOut, SealNext(k, ms, c, maxOut, seal))
  {
    hide Next, SerializeFragment, Whole, CursorOk, Content, IsWire, CipherFor;
    var m := ms[c.written];
    if CipherFor(k, m).Some? && Whole(m).Some? && c.offset <= |Whole(m).value.body| {
      var overhead, left := CipherFor(k, m).value.overhead, |Whole(m).value.body| - c.offset;
      if maxOut >= HEADER_LENGTH + 1 + overhead {
        NextSlice(ms, c, Min(left, maxOut - HEADER_LENGTH - overhead));
      }
    }
  }

  ghost predicate IsNext(k: Keys, ms: seq<Outgoing>, c: Cursor, maxOut: nat, ret: SealResult)
    requires c.written < |ms|
  {
    match ret
    case SealSuccess(r) => Next(ms, c, r) == Some(At(c.written + 1, 0)) && r.size <= maxOut
    case SealPartial(r) =>
      && CipherFor(k, ms[c.written]).Some?
      && var todo := maxOut - HEADER_LENGTH - CipherFor(k, ms[c.written]).value.overhead;
         todo > 0 && Next(ms, c, r) == Some(At(c.written, c.offset + todo)) && r.size <= maxOut
    case _ => true
  }

  // ---------------------------------------------------------------- events

  /** What happens while a flight is sent: a record is sealed into the packet; sealing fails, which ends
      the call; the transport takes the packet, or does not. */
  datatype FlightEvent = RecordSealed(record: Sealed) | SealFailed | PacketWritten | PacketRefused

  /** The cursor, where it was when the packet was begun, the packet, and the records written. */
  datatype Sending = Sending(cursor: Cursor, saved: Cursor, packet: seq<Sealed>, written: seq<Sealed>)

  const SendingStart: Sending := Sending(FlightStart, FlightStart, [], [])

  /** One event. A refused packet is rewound; when sealing fails, the cursor stays where it is. */
  function Apply(ms: seq<Outgoing>, s: Sending, e: FlightEvent): Option<Sending> {
    match e
    case RecordSealed(r) =>
      if Next(ms, s.cursor, r).None? then None
      else Some(s.(cursor := Next(ms, s.cursor, r).value, packet := s.packet + [r]))
    case SealFailed => Some(s.(saved := s.cursor, packet := []))
    case PacketWritten => Some(s.(saved := s.cursor, packet := [], written := s.written + s.packet))
    case PacketRefused => Some(s.(cursor := s.saved, packet := []))
  }

  function Play(ms: seq<Outgoing>, s: Sending, es: seq<FlightEvent>): Option<Sending>
    decreases |es|
  {
    if es == [] then Some(s)
    else if Apply(ms, s, es[0]).None? then None
    else Play(ms, Apply(ms, s, es[0]).value, es[1..])
  }

  lemma {:induction false} PlayConcat(ms: seq<Outgoing>, s: Sending, es: seq<FlightEvent>, fs: seq<FlightEvent>)
    ensures Play(ms, s, es + fs) == if Play(ms, s, es).None? then None else Play(ms, Play(ms, s, es).value, fs)
    decreases |es|
  {
    if es == [] {
      assert es + fs == fs;
    } else if Apply(ms, s, es[0]).Some? {
      assert (es + fs)[1..] == es[1..] + fs;
      PlayConcat(ms, Apply(ms, s, es[0]).value, es[1..], fs);
    }
  }

  lemma {:induction false} PlayOne(ms: seq<Outgoing>, s: Sending, e: FlightEvent)
    ensures Play(ms, s, [e]) == Apply(ms, s, e)
  {
    assert [e][1..] == [];
  }

  /** A message added at the end changes nothing about what happened. */
  lemma {:induction false} PlayMore(ms: seq<Outgoing>, m: Outgoing, s: Sending, es: seq<FlightEvent>)
    requires Play(ms, s, es).Some?
    ensures Play(ms + [m], s, es) == Play(ms, s, es)
    decreases |es|
  {
    if es != [] { PlayMore(ms, m, Apply(ms, s, es[0]).value, es[1..]); }
  }

  // ---------------------------------------------------------------- when everything is carried

  /** Sealing failed after at least one record of that packet had been sealed. */
  ghost predicate LosesRecords(es: seq<FlightEvent>) {
    exists i :: 0 < i < |es| && es[i] == SealFailed && es[i - 1].RecordSealed?
  }

  /** A packet has been begun and neither written, refused nor given up. */
  predicate Open(es: seq<FlightEvent>) {
    es != [] && es[|es| - 1].RecordSealed?
  }

  /** The packet leads from where it was begun to the cursor. If nothing is lost, what was written leads
      to where the packet was begun; if something is, what was written is less than that. */
  ghost predicate Tracks(ms: seq<Outgoing>, s: Sending, lost: bool) {
    && CursorOk(ms, s.saved) && Walk(ms, s.saved, s.packet) == Some(s.cursor)
    && (!lost ==> Walk(ms, FlightStart, s.written) == Some(s.saved))
    && TotalWeight(s.written) <= Position(ms, s.saved)
    && (lost ==> TotalWeight(s.written) < Position(ms, s.saved))
  }

  lemma {:induction false} ApplyTracks(ms: seq<Outgoing>, s: Sending, lost: bool, e: FlightEvent)
    requires Tracks(ms, s, lost) && Apply(ms, s, e).Some?
    ensures Tracks(ms, Apply(ms, s, e).value, lost || (e == SealFailed && s.packet != []))
  {
    WalkAdvances(ms, s.saved, s.packet);
    EmptyWalk(ms, s.cursor);
    EmptyWalk(ms, s.saved);
    match e
    case RecordSealed(r) => WalkStep(ms, s.saved, s.packet, r);
    case PacketWritten =>
      TotalWeightConcat(s.written, s.packet);
      if !lost { WalkConcat(ms, FlightStart, s.written, s.packet); }
    case SealFailed =>
      assert s.packet == [] ==> s.cursor == s.saved;
    case PacketRefused =>
    hide Walk, Position, TotalWeight, CursorOk, Next;
  }

  lemma {:induction false} EmptyWalk(ms: seq<Outgoing>, c: Cursor)
    ensures Walk(ms, c, []) == Some(c)
  {
  }

  lemma {:induction false} PlayTracks(ms: seq<Outgoing>, es: seq<FlightEvent>)
    requires Play(ms, SendingStart, es).Some?
    ensures var s := Play(ms, SendingStart, es).value;
            Tracks(ms, s, LosesRecords(es)) && (s.packet != [] <==> Open(es))
    decreases |es|
  {
    if es == [] {
      NothingWritten(ms);
    } else {
      var front, last := es[..|es| - 1], es[|es| - 1];
      assert es == front + [last];
      PlayConcat(ms, SendingStart, front, [last]);
      var s := Play(ms, SendingStart, front).value;
      PlayOne(ms, s, last);
      PlayTracks(ms, front);
      ApplyTracks(ms, s, LosesRecords(front), last);
      LosesOneMore(front, last);
      hide Tracks, LosesRecords, Play, Next;
    }
  }

  lemma {:induction false} LosesOneMore(front: seq<FlightEvent>, last: FlightEvent)
    ensures LosesRecords(front + [last]) <==> LosesRecords(front) || (last == SealFailed && Open(front))
  {
    var es := front + [last];
    if LosesRecords(front) {
      var i :| 0 < i < |front| && front[i] == SealFailed && front[i - 1].RecordSealed?;
      assert es[i] == SealFailed && es[i - 1].RecordSealed?;
    }
    if last == SealFailed && Open(front) {
      assert es[|front|] == SealFailed && es[|front| - 1].RecordSealed?;
    }
    if LosesRecords(es) {
      var i :| 0 < i < |es| && es[i] == SealFailed && es[i - 1].RecordSealed?;
      assert i < |front| ==> front[i] == es[i];
      assert front[i - 1] == es[i - 1];
    }
  }

  /** Losses add up over calls, which leave no packet open. */
  lemma {:induction false} LosesInParts(es: seq<FlightEvent>, fs: seq<FlightEvent>)
    requires !Open(es)
    ensures LosesRecords(es + fs) <==> LosesRecords(es) || LosesRecords(fs)
    decreases |fs|
  {
    if fs == [] {
      assert es + fs == es;
    } else {
      var front, last := fs[..|fs| - 1], fs[|fs| - 1];
      assert fs == front + [last];
      assert es + fs == (es + front) + [last];
      assert Open(es + front) <==> Open(front) by { OpenInParts(es, front); }
      hide LosesRecords, Open;
      LosesInParts(es, front);
      LosesOneMore(es + front, last);
      LosesOneMore(front, last);
    }
  }

  lemma {:induction false} OpenInParts(es: seq<FlightEvent>, fs: seq<FlightEvent>)
    requires !Open(es)
    ensures Open(es + fs) <==> Open(fs)
  {
    if fs == [] { assert es + fs == es; }
  }

  /** Whatever happened: what has been written leads from the start of the flight to the cursor exactly
      if no sealing failed after a record of the same packet. If one did, less has been written than the
      cursor has passed. */
  lemma {:induction false} TilesExactlyUnlessSealFailed(ms: seq<Outgoing>, es: seq<FlightEvent>)
    requires Play(ms, SendingStart, es).Some? && !Open(es)
    ensures var s := Play(ms, SendingStart, es).value;
            && CursorOk(ms, s.cursor) && (Walk(ms, FlightStart, s.written) == Some(s.cursor) <==> !LosesRecords(es))
            && (LosesRecords(es) ==> TotalWeight(s.written) < Position(ms, s.cursor))
  {
    var s := Play(ms, SendingStart, es).value;
    PlayTracks(ms, es);
    EmptyWalk(ms, s.saved);
    if Walk(ms, FlightStart, s.written) == Some(s.cursor) {
      NothingWritten(ms);
      WalkAdvances(ms, FlightStart, s.written);
    }
  }

  // ---------------------------------------------------------------- one packet

  /** seal_next_packet with this much room, from its n-th sealing on; seals(n) is what the cipher does
      then. */
  function PacketEvents(k: Keys, ms: seq<Outgoing>, c: Cursor, room: nat, seals: nat -> Option<nat>, n: nat)
    : seq<FlightEvent>
    decreases |ms| - c.written
  {
    if c.written >= |ms| then []
    else
      match SealNext(k, ms, c, room, seals(n))
      case SealError => [SealFailed]
      case NoProgress => []
      case SealPartial(r) => [RecordSealed(r)]
      case SealSuccess(r) =>
        [RecordSealed(r)] +
        if r.size <= room then PacketEvents(k, ms, At(c.written + 1, 0), room - r.size, seals, n + 1) else []
  }

  /** Records are sealed, and then at most a failure comes. */
  ghost predicate PacketShape(es: seq<FlightEvent>) {
    forall i :: 0 <= i < |es| ==> es[i].RecordSealed? || (i == |es| - 1 && es[i] == SealFailed)
  }

  /** The events of a packet can happen in this state, and write nothing. */
  ghost predicate PacketRuns(ms: seq<Outgoing>, s: Sending, es: seq<FlightEvent>) {
    && PacketShape(es) && Play(ms, s, es).Some?
    && CursorOk(ms, Play(ms, s, es).value.cursor) && Play(ms, s, es).value.written == s.written
  }

  lemma {:induction false} PacketPlays(k: Keys, ms: seq<Outgoing>, s: Sending, room: nat, seals: nat -> Option<nat>, n: nat)
    requires CursorOk(ms, s.cursor)
    ensures PacketRuns(ms, s, PacketEvents(k, ms, s.cursor, room, seals, n))
    decreases |ms| - s.cursor.written
  {
    var c := s.cursor;
    hide SealNext, Next, CursorOk, PacketRuns, Play;
    if c.written >= |ms| {
      NothingRuns(ms, s);
    } else {
      var ret := SealNext(k, ms, c, room, seals(n));
      SealsTheNext(k, ms, c, room, seals(n));
      if ret.SealSuccess? {
        NextOk(ms, c, ret.record);
        var t := s.(cursor := At(c.written + 1, 0), packet := s.packet + [ret.record]);
        PacketPlays(k, ms, t, room - ret.record.size, seals, n + 1);
        RecordRuns(ms, s, ret.record, PacketEvents(k, ms, t.cursor, room - ret.record.size, seals, n + 1));
      } else {
        LastRuns(k, ms, s, room, seals, n);
      }
    }
  }

  lemma {:induction false} LastRuns(k: Keys, ms: seq<Outgoing>, s: Sending, room: nat, seals: nat -> Option<nat>, n: nat)
    requires s.cursor.written < |ms| && CursorOk(ms, s.cursor)
    requires var ret := SealNext(k, ms, s.cursor, room, seals(n)); IsNext(k, ms, s.cursor, room, ret) && !ret.SealSuccess?
    ensures PacketRuns(ms, s, PacketEvents(k, ms, s.cursor, room, seals, n))
  {
    hide SealNext, Next, CursorOk, PacketRuns, Play;
    NothingRuns(ms, s);
    var ret := SealNext(k, ms, s.cursor, room, seals(n));
    if ret.SealPartial? { RecordRuns(ms, s, ret.record, []); }
  }

  lemma {:induction false} NothingRuns(ms: seq<Outgoing>, s: Sending)
    requires CursorOk(ms, s.cursor)
    ensures PacketRuns(ms, s, []) && PacketRuns(ms, s, [SealFailed])
  {
    PlayOne(ms, s, SealFailed);
  }

  lemma {:induction false} RecordRuns(ms: seq<Outgoing>, s: Sending, r: Sealed, rest: seq<FlightEvent>)
    requires CursorOk(ms, s.cursor) && Next(ms, s.cursor, r).Some?
    requires rest == [] || PacketRuns(ms, s.(cursor := Next(ms, s.cursor, r).value, packet := s.packet + [r]), rest)
    ensures PacketRuns(ms, s, [RecordSealed(r)] + rest) && [RecordSealed(r)] + [] == [RecordSealed(r)]
  {
    NextOk(ms, s.cursor, r);
    assert ([RecordSealed(r)] + rest)[1..] == rest;
    assert Play(ms, s, [RecordSealed(r)] + rest) == Play(ms, Apply(ms, s, RecordSealed(r)).value, rest);
    hide Next, CursorOk;
  }

  lemma {:induction false} FirstEvent(k: Keys, ms: seq<Outgoing>, c: Cursor, room: nat, seals: nat -> Option<nat>, n: nat)
    requires c.written < |ms|
    ensures PacketEvents(k, ms, c, room, seals, n) ==
            match SealNext(k, ms, c, room, seals(n))
            case SealError => [SealFailed]
            case NoProgress => []
            case SealPartial(r) => [RecordSealed(r)]
            case SealSuccess(r) =>
              [RecordSealed(r)] +
              if r.size <= room then PacketEvents(k, ms, At(c.written + 1, 0), room - r.size, seals, n + 1) else []
  {
    hide SealNext;
  }

  // ---------------------------------------------------------------- one call

  /** What the cipher and the transport do with one packet. */
  datatype Round = Round(seals: nat -> Option<nat>, bioRet: int)

  /** The body of send_flight's loop: a packet is sealed and, unless that fails or nothing fits, written
      or rewound. */
  function RoundEvents(k: Keys, ms: seq<Outgoing>, c: Cursor, mtu: nat, round: Round): seq<FlightEvent> {
    var es := PacketEvents(k, ms, c, mtu, round.seals, 0);
    if Open(es) then es + [if round.bioRet > 0 then PacketWritten else PacketRefused] else es
  }

  /** Between packets. */
  function Between(c: Cursor, written: seq<Sealed>): Sending {
    Sending(c, c, [], written)
  }

  /** The last packet was written. */
  predicate Goes(es: seq<FlightEvent>) {
    es != [] && es[|es| - 1] == PacketWritten
  }

  /** The last packet was refused. */
  predicate Refused(es: seq<FlightEvent>) {
    es != [] && es[|es| - 1] == PacketRefused
  }

  lemma {:induction false} RoundPlays(k: Keys, ms: seq<Outgoing>, c: Cursor, w: seq<Sealed>, mtu: nat, round: Round)
    requires CursorOk(ms, c)
    ensures var es := RoundEvents(k, ms, c, mtu, round);
            && !Open(es) && Play(ms, Between(c, w), es).Some?
            && var t := Play(ms, Between(c, w), es).value;
               && t == Between(t.cursor, t.written) && CursorOk(ms, t.cursor)
               && (Goes(es) ==> Position(ms, t.cursor) > Position(ms, c))
               && (!Goes(es) ==> t.written == w)
               && (Refused(es) ==> t.cursor == c)
  {
    var s, es := Between(c, w), PacketEvents(k, ms, c, mtu, round.seals, 0);
    PacketPlays(k, ms, s, mtu, round.seals, 0);
    var t := Play(ms, s, es).value;
    PacketStays(ms, s, es);
    if Open(es) {
      var last := if round.bioRet > 0 then PacketWritten else PacketRefused;
      PlayConcat(ms, s, es, [last]);
      PlayOne(ms, t, last);
      WalkAdvances(ms, c, t.packet);
    }
    hide Play, Walk, CursorOk, PacketEvents, Position;
  }

  /** As long as a packet is open, its records lead from where it was begun to the cursor. */
  lemma {:induction false} PacketStays(ms: seq<Outgoing>, s: Sending, es: seq<FlightEvent>)
    requires PacketShape(es) && Play(ms, s, es).Some? && s.packet == [] && s.saved == s.cursor
    ensures var t := Play(ms, s, es).value;
            if Open(es) then t.saved == s.saved && t.packet != [] && Walk(ms, s.saved, t.packet) == Some(t.cursor)
            else t.saved == t.cursor && t.packet == []
    decreases |es|
  {
    if es != [] {
      var front, last := es[..|es| - 1], es[|es| - 1];
      assert es == front + [last];
      PlayConcat(ms, s, front, [last]);
      var t := Play(ms, s, front).value;
      PlayOne(ms, t, last);
      PacketStays(ms, s, front);
      EmptyWalk(ms, s.saved);
      if last.RecordSealed? {
        assert forall i :: 0 <= i < |front| ==> front[i].RecordSealed?;
        WalkStep(ms, s.saved, t.packet, last.record);
      }
      hide Play, Walk, Next;
    }
  }

  /** A whole call of send_flight, from its i-th packet on. */
  function FlightEvents(k: Keys, ms: seq<Outgoing>, c: Cursor, mtu: nat, rounds: nat -> Round, i: nat): seq<FlightEvent>
    requires CursorOk(ms, c)
    decreases Position(ms, FlightEnd(ms)) - Position(ms, c)
  {
    if c.written >= |ms| then []
    else
      RoundPlays(k, ms, c, [], mtu, rounds(i));
      var es := RoundEvents(k, ms, c, mtu, rounds(i));
      if !Goes(es) then es
      else
        var next := Play(ms, Between(c, []), es).value.cursor;
        PositionBound(ms, next);
        es + FlightEvents(k, ms, next, mtu, rounds, i + 1)
  }

  lemma {:induction false} FlightUnfolds(k: Keys, ms: seq<Outgoing>, c: Cursor, mtu: nat, rounds: nat -> Round, i: nat)
    requires CursorOk(ms, c)
    ensures c.written >= |ms| ==> FlightEvents(k, ms, c, mtu, rounds, i) == []
    ensures c.written < |ms| ==>
              var es := RoundEvents(k, ms, c, mtu, rounds(i));
              && Play(ms, Between(c, []), es).Some? && CursorOk(ms, Play(ms, Between(c, []), es).value.cursor)
              && FlightEvents(k, ms, c, mtu, rounds, i) ==
                   es + (if Goes(es) then FlightEvents(k, ms, Play(ms, Between(c, []), es).value.cursor, mtu, rounds, i + 1)
                         else [])
  {
    if c.written < |ms| {
      RoundPlays(k, ms, c, [], mtu, rounds(i));
      var es := RoundEvents(k, ms, c, mtu, rounds(i));
      assert es + [] == es;
    }
  }

  /** What was written before plays no part. */
  lemma {:induction false} PlayAfter(ms: seq<Outgoing>, s: Sending, es: seq<FlightEvent>, w: seq<Sealed>)
    ensures var t := Play(ms, s, es);
            Play(ms, s.(written := w + s.written), es) ==
              if t.None? then None else Some(t.value.(written := w + t.value.written))
    decreases |es|
  {
    if es != [] && Apply(ms, s, es[0]).Some? {
      var t := Apply(ms, s, es[0]).value;
      assert w + (s.written + s.packet) == w + s.written + s.packet;
      PlayAfter(ms, t, es[1..], w);
    }
  }

  /** A failure or a refusal comes last, and no packet is left open. */
  ghost predicate CallShape(es: seq<FlightEvent>) {
    !Open(es) && forall j :: 0 <= j < |es| - 1 ==> es[j] != SealFailed && es[j] != PacketRefused
  }

  /** A call leads from between packets to between packets. */
  ghost predicate Leads(ms: seq<Outgoing>, c: Cursor, es: seq<FlightEvent>) {
    CallShape(es) && Play(ms, Between(c, []), es).Some?
    && var t := Play(ms, Between(c, []), es).value;
       t == Between(t.cursor, t.written) && CursorOk(ms, t.cursor)
  }

  /** Records are lost by a call only if it ends with a failure to seal. */
  lemma {:induction false} LosesAtTheEnd(es: seq<FlightEvent>)
    requires CallShape(es) && LosesRecords(es)
    ensures es[|es| - 1] == SealFailed && !Goes(es) && !Refused(es)
  {
  }

  lemma {:induction false} LeadsFurther(ms: seq<Outgoing>, c: Cursor, es: seq<FlightEvent>, fs: seq<FlightEvent>)
    requires Leads(ms, c, es) && Goes(es) && Leads(ms, Play(ms, Between(c, []), es).value.cursor, fs)
    ensures Leads(ms, c, es + fs)
    ensures var t := Play(ms, Between(c, []), es).value;
            Play(ms, Between(c, []), es + fs).value.cursor == Play(ms, Between(t.cursor, []), fs).value.cursor
  {
    var t := Play(ms, Between(c, []), es).value;
    PlayConcat(ms, Between(c, []), es, fs);
    PlayAfter(ms, Between(t.cursor, []), fs, t.written);
    assert t.written + [] == t.written;
    OpenInParts(es, fs);
    hide Play;
  }

  lemma {:induction false} RoundLeads(k: Keys, ms: seq<Outgoing>, c: Cursor, mtu: nat, round: Round)
    requires CursorOk(ms, c)
    ensures Leads(ms, c, RoundEvents(k, ms, c, mtu, round))
  {
    RoundPlays(k, ms, c, [], mtu, round);
    PacketPlays(k, ms, Between(c, []), mtu, round.seals, 0);
    hide Play, PacketEvents;
  }

  lemma {:induction false} FlightLeads(k: Keys, ms: seq<Outgoing>, c: Cursor, mtu: nat, rounds: nat -> Round, i: nat)
    requires CursorOk(ms, c)
    ensures Leads(ms, c, FlightEvents(k, ms, c, mtu, rounds, i))
    decreases Position(ms, FlightEnd(ms)) - Position(ms, c)
  {
    if c.written < |ms| {
      var es := RoundEvents(k, ms, c, mtu, rounds(i));
      RoundPlays(k, ms, c, [], mtu, rounds(i));
      RoundLeads(k, ms, c, mtu, rounds(i));
      if Goes(es) {
        var next := Play(ms, Between(c, []), es).value.cursor;
        PositionBound(ms, next);
        var fs := FlightEvents(k, ms, next, mtu, rounds, i + 1);
        assert FlightEvents(k, ms, c, mtu, rounds, i) == es + fs;
        hide FlightEvents, RoundEvents, Leads;
        FlightLeads(k, ms, next, mtu, rounds, i + 1);
        LeadsFurther(ms, c, es, fs);
      }
    }
  }

  /** A call has come as far as this: packets up to the i-th have been written, with these events. */
  ghost predicate Underway(k: Keys, ms: seq<Outgoing>, start: Cursor, mtu: nat, rounds: nat -> Round,
                           c: Cursor, i: nat, es: seq<FlightEvent>)
  {
    && CursorOk(ms, start) && CursorOk(ms, c) && (es == [] || Goes(es))
    && FlightEvents(k, ms, start, mtu, rounds, 0) == es + FlightEvents(k, ms, c, mtu, rounds, i)
  }

  lemma {:induction false} Begin(k: Keys, ms: seq<Outgoing>, start: Cursor, mtu: nat, rounds: nat -> Round)
    requires CursorOk(ms, start)
    ensures Underway(k, ms, start, mtu, rounds, start, 0, [])
  {
  }

  /** The next packet goes on with the call or ends it. */
  lemma {:induction false} Continue(k: Keys, ms: seq<Outgoing>, start: Cursor, mtu: nat, rounds: nat -> Round,
                                    c: Cursor, i: nat, es: seq<FlightEvent>, w: seq<Sealed>, next: Cursor, w': seq<Sealed>)
    requires Underway(k, ms, start, mtu, rounds, c, i, es) && c.written < |ms|
    requires Play(ms, Between(c, w), RoundEvents(k, ms, c, mtu, rounds(i))) == Some(Between(next, w'))
    ensures var round := RoundEvents(k, ms, c, mtu, rounds(i));
            if Goes(round) then Underway(k, ms, start, mtu, rounds, next, i + 1, es + round)
            else FlightEvents(k, ms, start, mtu, rounds, 0) == es + round && (Refused(es + round) <==> Refused(round))
  {
    var round := RoundEvents(k, ms, c, mtu, rounds(i));
    FlightUnfolds(k, ms, c, mtu, rounds, i);
    PlayAfter(ms, Between(c, []), round, w);
    assert w + [] == w && round + [] == round;
    hide FlightEvents, RoundEvents, Play, CursorOk;
    if Goes(round) {
      var rest := FlightEvents(k, ms, next, mtu, rounds, i + 1);
      assert es + (round + rest) == (es + round) + rest;
    } else if round == [] {
      assert es + round == es;
    }
  }

  lemma {:induction false} Finish(k: Keys, ms: seq<Outgoing>, start: Cursor, mtu: nat, rounds: nat -> Round,
                                  c: Cursor, i: nat, es: seq<FlightEvent>)
    requires Underway(k, ms, start, mtu, rounds, c, i, es) && c.written >= |ms|
    ensures FlightEvents(k, ms, start, mtu, rounds, 0) == es && !Refused(es) && (es == [] || Goes(es))
  {
    FlightUnfolds(k, ms, c, mtu, rounds, i);
    assert es + [] == es;
    hide FlightEvents;
  }

  // ---------------------------------------------------------------- progress

  /** These events do nothing, or end somewhere, and if with a failure to seal, then short of the end. */
  ghost predicate EndsShort(ms: seq<Outgoing>, s: Sending, es: seq<FlightEvent>) {
    && Play(ms, s, es).Some?
    && (es == [] ==> Play(ms, s, es).value == s)
    && (es != [] && es[|es| - 1] == SealFailed ==> Play(ms, s, es).value.cursor.written < |ms|)
  }

  /** A packet that could not be completed leaves the cursor short of the end. */
  lemma {:induction false} PacketFailsShort(k: Keys, ms: seq<Outgoing>, s: Sending, room: nat, seals: nat -> Option<nat>,
                                            n: nat)
    requires CursorOk(ms, s.cursor)
    ensures EndsShort(ms, s, PacketEvents(k, ms, s.cursor, room, seals, n))
    decreases |ms| - s.cursor.written
  {
    var c := s.cursor;
    hide SealNext, Next, CursorOk, EndsShort, Play;
    StopsShort(ms, s);
    if c.written < |ms| {
      FirstEvent(k, ms, c, room, seals, n);
      SealsTheNext(k, ms, c, room, seals(n));
      hide PacketEvents;
      var ret := SealNext(k, ms, c, room, seals(n));
      if ret.SealSuccess? {
        NextOk(ms, c, ret.record);
        var t := s.(cursor := At(c.written + 1, 0), packet := s.packet + [ret.record]);
        var rest := PacketEvents(k, ms, t.cursor, room - ret.record.size, seals, n + 1);
        PacketFailsShort(k, ms, t, room - ret.record.size, seals, n + 1);
        RecordThenShort(ms, s, ret.record, rest);
      } else if ret.SealPartial? {
        NextOk(ms, c, ret.record);
        var t := s.(cursor := Next(ms, c, ret.record).value, packet := s.packet + [ret.record]);
        StopsShort(ms, t);
        RecordThenShort(ms, s, ret.record, []);
        assert [RecordSealed(ret.record)] + [] == [RecordSealed(ret.record)];
      }
    }
  }

  lemma {:induction false} StopsShort(ms: seq<Outgoing>, s: Sending)
    ensures EndsShort(ms, s, [])
    ensures s.cursor.written < |ms| ==> EndsShort(ms, s, [SealFailed])
  {
    PlayOne(ms, s, SealFailed);
  }

  lemma {:induction false} RecordThenShort(ms: seq<Outgoing>, s: Sending, r: Sealed, rest: seq<FlightEvent>)
    requires Next(ms, s.cursor, r).Some?
    requires EndsShort(ms, s.(cursor := Next(ms, s.cursor, r).value, packet := s.packet + [r]), rest)
    ensures EndsShort(ms, s, [RecordSealed(r)] + rest)
  {
    var es := [RecordSealed(r)] + rest;
    assert es[1..] == rest;
    assert Play(ms, s, es) == Play(ms, Apply(ms, s, RecordSealed(r)).value, rest);
    hide Play, Next;
  }

  lemma {:induction false} RoundFailsShort(k: Keys, ms: seq<Outgoing>, c: Cursor, w: seq<Sealed>, mtu: nat, round: Round)
    requires CursorOk(ms, c) && c.written < |ms|
    ensures var es := RoundEvents(k, ms, c, mtu, round);
            Play(ms, Between(c, w), es).Some? && (!Goes(es) ==> Play(ms, Between(c, w), es).value.cursor.written < |ms|)
  {
    RoundPlays(k, ms, c, w, mtu, round);
    PacketFailsShort(k, ms, Between(c, w), mtu, round.seals, 0);
    PacketPlays(k, ms, Between(c, w), mtu, round.seals, 0);
    hide Play, PacketEvents, CursorOk;
  }

  /** There are keys for every message, every message is well formed, and a record of each fits a packet. */
  predicate Sendable(k: Keys, ms: seq<Outgoing>, mtu: nat) {
    k.Valid() &&
    forall i :: 0 <= i < |ms| ==>
      CipherFor(k, ms[i]).Some? && (ms[i].isCcs || Whole(ms[i]).Some?) && mtu >= LeastRoom(k, ms[i])
  }

  /** The cipher never fails. */
  ghost predicate NeverFails(seals: nat -> Option<nat>) {
    forall n :: seals(n).Some?
  }

  /** Neither does the transport. */
  ghost predicate AllGoWell(rounds: nat -> Round) {
    forall i :: NeverFails(rounds(i).seals) && rounds(i).bioRet > 0
  }

  ghost predicate OnlySealed(es: seq<FlightEvent>) {
    forall e :: e in es ==> e.RecordSealed?
  }

  /** No failure, and with enough room at least one record. */
  lemma {:induction false} PacketSeals(k: Keys, ms: seq<Outgoing>, c: Cursor, room: nat, seals: nat -> Option<nat>, n: nat,
                                       mtu: nat)
    requires CursorOk(ms, c) && c.written < |ms| && Sendable(k, ms, mtu) && NeverFails(seals)
    ensures OnlySealed(PacketEvents(k, ms, c, room, seals, n))
    ensures room >= mtu ==> PacketEvents(k, ms, c, room, seals, n) != []
    decreases |ms| - c.written
  {
    CursorSealable(k, ms, c, mtu);
    FirstEvent(k, ms, c, room, seals, n);
    SealDecides(k, ms, c, room, seals(n));
    hide SealNext, PacketEvents, Sealable, LeastRoom, Sendable;
    var ret := SealNext(k, ms, c, room, seals(n));
    assert seals(n).Some?;
    hide NeverFails;
    SealedFirst(ret);
    if ret.SealSuccess? && ret.record.size <= room {
      if c.written + 1 < |ms| {
        PacketSeals(k, ms, At(c.written + 1, 0), room - ret.record.size, seals, n + 1, mtu);
      } else {
        PacketEnds(k, ms, At(c.written + 1, 0), room - ret.record.size, seals, n + 1);
      }
    }
    hide OnlySealed, CursorOk;
  }

  lemma {:induction false} SealedFirst(ret: SealResult)
    ensures OnlySealed([])
    ensures ret.SealPartial? ==> OnlySealed([RecordSealed(ret.record)])
    ensures ret.SealSuccess? ==> forall rest :: OnlySealed(rest) ==> OnlySealed([RecordSealed(ret.record)] + rest)
  {
  }

  /** How much of a packet these events fill. */
  function Filled(es: seq<FlightEvent>): nat
    decreases |es|
  {
    if es == [] then 0 else (if es[0].RecordSealed? then es[0].record.size else 0) + Filled(es[1..])
  }

  /** A packet takes as much of the flight as possible: it ends only at the end of the flight, within a message
      whose part has filled it, or where the next message does not fit into what is left of it. */
  lemma {:induction false} PacketIsFull(k: Keys, ms: seq<Outgoing>, s: Sending, room: nat, seals: nat -> Option<nat>, n: nat,
                                        mtu: nat)
    requires CursorOk(ms, s.cursor) && Sendable(k, ms, mtu) && NeverFails(seals)
    ensures EndsFull(k, ms, s, room, PacketEvents(k, ms, s.cursor, room, seals, n))
    decreases |ms| - s.cursor.written
  {
    var c := s.cursor;
    hide SealNext, PacketEvents, EndsFull, Sendable, Sealable, LeastRoom, Play, Next, CursorOk;
    if c.written >= |ms| {
      PacketEnds(k, ms, c, room, seals, n);
      StopsFull(k, ms, s, room);
    } else {
      CursorSealable(k, ms, c, mtu);
      FirstEvent(k, ms, c, room, seals, n);
      SealDecides(k, ms, c, room, seals(n));
      SealsTheNext(k, ms, c, room, seals(n));
      var ret := SealNext(k, ms, c, room, seals(n));
      assert seals(n).Some?;
      if ret.NoProgress? {
        StopsFull(k, ms, s, room);
      } else {
        NextOk(ms, c, ret.record);
        var t := s.(cursor := Next(ms, c, ret.record).value, packet := s.packet + [ret.record]);
        if ret.SealSuccess? {
          var rest := PacketEvents(k, ms, t.cursor, room - ret.record.size, seals, n + 1);
          PacketIsFull(k, ms, t, room - ret.record.size, seals, n + 1, mtu);
          RecordThenFull(k, ms, s, room, ret.record, rest);
        } else {
          PartFills(k, ms, s, room, ret.record);
        }
      }
    }
  }

  ghost predicate EndsFull(k: Keys, ms: seq<Outgoing>, s: Sending, room: nat, es: seq<FlightEvent>) {
    && Play(ms, s, es).Some? && Filled(es) <= room
    && var c := Play(ms, s, es).value.cursor;
       || c.written >= |ms|
       || (es != [] && c.offset > 0)
       || (CipherFor(k, ms[c.written]).Some? && room - Filled(es) < LeastRoom(k, ms[c.written]))
  }

  lemma {:induction false} StopsFull(k: Keys, ms: seq<Outgoing>, s: Sending, room: nat)
    requires s.cursor.written < |ms| ==>
               CipherFor(k, ms[s.cursor.written]).Some? && room < LeastRoom(k, ms[s.cursor.written])
    ensures EndsFull(k, ms, s, room, [])
  {
  }

  lemma {:induction false} PartFills(k: Keys, ms: seq<Outgoing>, s: Sending, room: nat, r: Sealed)
    requires Next(ms, s.cursor, r).Some? && Next(ms, s.cursor, r).value.offset > 0 && r.size <= room
    ensures EndsFull(k, ms, s, room, [RecordSealed(r)])
  {
    PlayOne(ms, s, RecordSealed(r));
    assert [RecordSealed(r)][1..] == [] && Filled([]) == 0;
    hide Play, Next;
  }

  lemma {:induction false} RecordThenFull(k: Keys, ms: seq<Outgoing>, s: Sending, room: nat, r: Sealed,
                                          rest: seq<FlightEvent>)
    requires Next(ms, s.cursor, r).Some? && r.size <= room
    requires EndsFull(k, ms, s.(cursor := Next(ms, s.cursor, r).value, packet := s.packet + [r]), room - r.size, rest)
    ensures EndsFull(k, ms, s, room, [RecordSealed(r)] + rest)
  {
    var es := [RecordSealed(r)] + rest;
    assert es[1..] == rest;
    assert Play(ms, s, es) == Play(ms, Apply(ms, s, RecordSealed(r)).value, rest);
    hide Play, Next, LeastRoom;
  }

  lemma {:induction false} PacketEnds(k: Keys, ms: seq<Outgoing>, c: Cursor, room: nat, seals: nat -> Option<nat>, n: nat)
    requires c.written >= |ms|
    ensures PacketEvents(k, ms, c, room, seals, n) == []
  {
  }

  lemma {:induction false} CursorSealable(k: Keys, ms: seq<Outgoing>, c: Cursor, mtu: nat)
    requires CursorOk(ms, c) && c.written < |ms| && Sendable(k, ms, mtu)
    ensures k.Valid() && Sealable(k, ms, c) && CipherFor(k, ms[c.written]).Some? && LeastRoom(k, ms[c.written]) <= mtu
  {
    hide CipherFor, Whole;
  }

  /** Progress: however large its messages, a flight is sent to its end if a record with a single byte of each
      fits the MTU and neither the cipher nor the transport fails. */
  lemma {:induction false} FlightReachesEnd(k: Keys, ms: seq<Outgoing>, c: Cursor, mtu: nat, rounds: nat -> Round, i: nat)
    requires CursorOk(ms, c) && Sendable(k, ms, mtu) && AllGoWell(rounds)
    ensures var es := FlightEvents(k, ms, c, mtu, rounds, i);
            Play(ms, Between(c, []), es).Some? && Play(ms, Between(c, []), es).value.cursor == FlightEnd(ms)
    decreases Position(ms, FlightEnd(ms)) - Position(ms, c)
  {
    FlightUnfolds(k, ms, c, mtu, rounds, i);
    hide FlightEvents;
    if c.written < |ms| {
      RoundGoes(k, ms, c, mtu, rounds(i));
      RoundPlays(k, ms, c, [], mtu, rounds(i));
      var es := RoundEvents(k, ms, c, mtu, rounds(i));
      var t := Play(ms, Between(c, []), es).value;
      PositionBound(ms, t.cursor);
      hide RoundEvents, Sendable, AllGoWell, CursorOk, Position;
      FlightReachesEnd(k, ms, t.cursor, mtu, rounds, i + 1);
      var fs := FlightEvents(k, ms, t.cursor, mtu, rounds, i + 1);
      PlayConcat(ms, Between(c, []), es, fs);
      PlayAfter(ms, Between(t.cursor, []), fs, t.written);
      assert t.written + [] == t.written;
      hide Play;
    }
  }

  lemma {:induction false} RoundGoes(k: Keys, ms: seq<Outgoing>, c: Cursor, mtu: nat, round: Round)
    requires CursorOk(ms, c) && c.written < |ms| && Sendable(k, ms, mtu) && NeverFails(round.seals) && round.bioRet > 0
    ensures Goes(RoundEvents(k, ms, c, mtu, round))
  {
    PacketSeals(k, ms, c, mtu, round.seals, 0, mtu);
    var es := PacketEvents(k, ms, c, mtu, round.seals, 0);
    assert es[|es| - 1] in es;
    hide PacketEvents;
  }

  // ---------------------------------------------------------------- any number of calls

  /** A call of send_flight: the keys and the MTU at the time, whether it gets as far as sending, and what
      the cipher and the transport do. */
  datatype SendCall = SendCall(keys: Keys, mtu: nat, starts: bool, rounds: nat -> Round)

  /** The events of all these calls since the flight was begun, and where the cursor is then. */
  function AfterCalls(ms: seq<Outgoing>, calls: seq<SendCall>): (r: (seq<FlightEvent>, Cursor))
    ensures CursorOk(ms, r.1)
    decreases |calls|
  {
    if |calls| == 0 then ([], FlightStart)
    else
      var (es, c) := AfterCalls(ms, calls[..|calls| - 1]);
      var call := calls[|calls| - 1];
      if !call.starts then (es, c)
      else
        FlightLeads(call.keys, ms, c, call.mtu, call.rounds, 0);
        var fs := FlightEvents(call.keys, ms, c, call.mtu, call.rounds, 0);
        (es + fs, Play(ms, Between(c, []), fs).value.cursor)
  }

  /** What has been written by all these calls. */
  function WrittenBy(ms: seq<Outgoing>, calls: seq<SendCall>): seq<Sealed> {
    match Play(ms, SendingStart, AfterCalls(ms, calls).0)
    case Some(s) => s.written
    case None => []
  }

  lemma {:induction false} CallsPlay(ms: seq<Outgoing>, calls: seq<SendCall>)
    ensures var (es, c) := AfterCalls(ms, calls);
            !Open(es) && Play(ms, SendingStart, es) == Some(Between(c, WrittenBy(ms, calls)))
    decreases |calls|
  {
    if |calls| > 0 {
      var front, call := calls[..|calls| - 1], calls[|calls| - 1];
      CallsPlay(ms, front);
      if call.starts {
        var (es, c) := AfterCalls(ms, front);
        var fs := FlightEvents(call.keys, ms, c, call.mtu, call.rounds, 0);
        FlightLeads(call.keys, ms, c, call.mtu, call.rounds, 0);
        PlayConcat(ms, SendingStart, es, fs);
        PlayAfter(ms, Between(c, []), fs, WrittenBy(ms, front));
        assert WrittenBy(ms, front) + [] == WrittenBy(ms, front);
        OpenInParts(es, fs);
        hide Play, FlightEvents;
      }
    }
  }

  /** However calls of send_flight fail and are retried: what they have written tiles the messages up to
      the cursor exactly if in none of them sealing failed after a record of the same packet had been
      sealed. In particular, if it has not and the cursor is at the end, every message has been carried
      exactly once; and if it has, then some part of the flight has not been written at all. */
  lemma {:induction false} SentExactlyUnlessSealFailed(ms: seq<Outgoing>, calls: seq<SendCall>)
    ensures var (es, c) := AfterCalls(ms, calls);
            && (Walk(ms, FlightStart, WrittenBy(ms, calls)) == Some(c) <==> !LosesRecords(es))
            && (LosesRecords(es) ==> TotalWeight(WrittenBy(ms, calls)) < Position(ms, c))
            && (c == FlightEnd(ms) && !LosesRecords(es) ==>
                  forall i :: 0 <= i < |ms| ==> Carried(ms, FlightStart, WrittenBy(ms, calls), i) == Content(ms[i]))
  {
    var (es, c) := AfterCalls(ms, calls);
    CallsPlay(ms, calls);
    TilesExactlyUnlessSealFailed(ms, es);
    if c == FlightEnd(ms) && !LosesRecords(es) {
      forall i | 0 <= i < |ms| ensures Carried(ms, FlightStart, WrittenBy(ms, calls), i) == Content(ms[i]) {
        FlightTiles(ms, WrittenBy(ms, calls), i);
      }
    }
  }

  // ---------------------------------------------------------------- a failing run

  /** A flight of a ServerHelloDone and, say, a NewSessionTicket of one byte. */
  const SampleDone: Fragment := Fragment(14, 0, 0, 0, [])
  const SampleTicket: Fragment := Fragment(4, 1, 1, 0, [7])

  function Sample(f: Fragment): Outgoing
    requires IsWire(f)
  {
    Outgoing(SerializeFragment(f), 0, false)
  }

  const SampleFlight: seq<Outgoing> := [Sample(SampleDone), Sample(SampleTicket)]
  const SampleKeys: Keys := Keys(0, Cipher(13, 13), Cipher(13, 13))

  /** The cipher seals one record and then fails. */
  function FailSecond(n: nat): Option<nat> {
    if n == 0 then Some(100) else None
  }

  function NeverFail(n: nat): Option<nat> {
    Some(100)
  }

  /** Two calls: in the first one sealing the second message fails, the second one goes through. */
  const SampleCalls: seq<SendCall> :=
    [SendCall(SampleKeys, 1472, true, (n: nat) => Round(FailSecond, 1)),
     SendCall(SampleKeys, 1472, true, (n: nat) => Round(NeverFail, 1))]

  lemma {:induction false} SampleSeals(i: nat, room: nat, seal: Option<nat>)
    requires i < 2 && 100 <= room
    ensures var whole := if i == 0 then SampleDone else SampleTicket;
            SealNext(SampleKeys, SampleFlight, At(i, 0), room, seal) ==
              if seal.None? then SealError
              else SealSuccess(Sealed(HANDSHAKE, SerializeFragment(whole), Min(seal.value, 25 + |whole.body|)))
  {
    var whole := if i == 0 then SampleDone else SampleTicket;
    FragmentRoundTrip(whole, []);
    assert SerializeFragment(whole) + [] == SerializeFragment(whole);
    assert SampleFlight[i] == Sample(whole) && Whole(Sample(whole)) == Some(whole);
    assert SliceOf(whole, 0, |whole.body|) == whole;
    hide SerializeFragment, Whole, SliceOf;
  }

  function SampleRecord(f: Fragment): Sealed
    requires IsWire(f)
  {
    Sealed(HANDSHAKE, SerializeFragment(f), 25 + |f.body|)
  }

  lemma {:induction false} FirstSampleCall()
    ensures FlightEvents(SampleKeys, SampleFlight, FlightStart, 1472, SampleCalls[0].rounds, 0) ==
            [RecordSealed(SampleRecord(SampleDone)), SealFailed]
    ensures Next(SampleFlight, FlightStart, SampleRecord(SampleDone)) == Some(At(1, 0))
  {
    SampleSeals(0, 1472, Some(100));
    SampleSeals(1, 1472 - 25, None);
    SealsTheNext(SampleKeys, SampleFlight, FlightStart, 1472, Some(100));
    hide SealNext, Next, SerializeFragment;
    FirstEvent(SampleKeys, SampleFlight, FlightStart, 1472, FailSecond, 0);
    FirstEvent(SampleKeys, SampleFlight, At(1, 0), 1472 - 25, FailSecond, 1);
    hide PacketEvents;
    assert RoundEvents(SampleKeys, SampleFlight, FlightStart, 1472, SampleCalls[0].rounds(0)) ==
           [RecordSealed(SampleRecord(SampleDone)), SealFailed];
  }

  lemma {:induction false} SecondSampleRound()
    ensures RoundEvents(SampleKeys, SampleFlight, At(1, 0), 1472, SampleCalls[1].rounds(0)) ==
            [RecordSealed(SampleRecord(SampleTicket)), PacketWritten]
    ensures Next(SampleFlight, At(1, 0), SampleRecord(SampleTicket)) == Some(At(2, 0))
  {
    SampleSeals(1, 1472, Some(100));
    SealsTheNext(SampleKeys, SampleFlight, At(1, 0), 1472, Some(100));
    hide SealNext, SerializeFragment, Next, CursorOk;
    FirstEvent(SampleKeys, SampleFlight, At(1, 0), 1472, NeverFail, 0);
    PacketEnds(SampleKeys, SampleFlight, At(2, 0), 1472 - 26, NeverFail, 1);
    hide PacketEvents;
  }

  lemma {:induction false} SecondSampleCall()
    ensures FlightEvents(SampleKeys, SampleFlight, At(1, 0), 1472, SampleCalls[1].rounds, 0) ==
            [RecordSealed(SampleRecord(SampleTicket)), PacketWritten]
    ensures Next(SampleFlight, At(1, 0), SampleRecord(SampleTicket)) == Some(At(2, 0))
  {
    hide SerializeFragment, Next, RoundEvents, FlightEvents, Play;
    var es := [RecordSealed(SampleRecord(SampleTicket)), PacketWritten];
    SecondSampleRound();
    PlayPair(SampleFlight, At(1, 0), SampleRecord(SampleTicket), PacketWritten);
    FlightUnfolds(SampleKeys, SampleFlight, At(1, 0), 1472, SampleCalls[1].rounds, 0);
    FlightUnfolds(SampleKeys, SampleFlight, At(2, 0), 1472, SampleCalls[1].rounds, 1);
    assert es + [] == es;
  }

  /** A packet of one record. */
  lemma {:induction false} PlayPair(ms: seq<Outgoing>, c: Cursor, r: Sealed, e: FlightEvent)
    requires Next(ms, c, r).Some? && (e == SealFailed || e == PacketWritten)
    ensures var next := Next(ms, c, r).value;
            Play(ms, Between(c, []), [RecordSealed(r), e]) == Some(Between(next, if e == PacketWritten then [r] else []))
  {
    assert [RecordSealed(r), e] == [RecordSealed(r)] + [e];
    PlayConcat(ms, Between(c, []), [RecordSealed(r)], [e]);
    PlayOne(ms, Between(c, []), RecordSealed(r));
    var none: seq<Sealed> := [];
    assert none + [r] == [r];
    PlayOne(ms, Sending(Next(ms, c, r).value, c, [r], []), e);
  }

  /** A record is lost: after these two calls, of which the second one succeeds, the cursor is at the end of
      the flight, but only its second message has been written. */
  lemma {:induction false} SealFailureLosesRecord()
    ensures var (es, c) := AfterCalls(SampleFlight, SampleCalls);
            && es == [RecordSealed(SampleRecord(SampleDone)), SealFailed,
                      RecordSealed(SampleRecord(SampleTicket)), PacketWritten]
            && c == FlightEnd(SampleFlight)
            && WrittenBy(SampleFlight, SampleCalls) == [SampleRecord(SampleTicket)]
            && Walk(SampleFlight, FlightStart, WrittenBy(SampleFlight, SampleCalls)) != Some(c)
  {
    FirstSampleCall();
    SecondSampleCall();
    var ms, calls := SampleFlight, SampleCalls;
    var r, q := SampleRecord(SampleDone), SampleRecord(SampleTicket);
    PlayPair(ms, FlightStart, r, SealFailed);
    PlayPair(ms, At(1, 0), q, PacketWritten);
    hide FlightEvents, SerializeFragment, Next, Walk;
    var es := [RecordSealed(r), SealFailed, RecordSealed(q), PacketWritten];
    assert calls[..2][..1] == calls[..1] && calls[..1][..0] == [];
    OneSampleCall();
    assert calls[..|calls| - 1] == calls[..1];
    assert AfterCalls(ms, calls).0 == es;
    assert es[1] == SealFailed && es[0].RecordSealed?;
    assert es == [RecordSealed(r), SealFailed] + [RecordSealed(q), PacketWritten];
    PlayConcat(ms, SendingStart, [RecordSealed(r), SealFailed], [RecordSealed(q), PacketWritten]);
    hide AfterCalls, Play;
    SentExactlyUnlessSealFailed(ms, calls);
  }

  lemma {:induction false} OneSampleCall()
    ensures AfterCalls(SampleFlight, SampleCalls[..1]) ==
            ([RecordSealed(SampleRecord(SampleDone)), SealFailed], At(1, 0))
  {
    FirstSampleCall();
    PlayPair(SampleFlight, FlightStart, SampleRecord(SampleDone), SealFailed);
    hide FlightEvents, SerializeFragment, Next, Play;
    var calls := SampleCalls[..1];
    assert |calls[..0]| == 0 && calls[0] == SampleCalls[0];
    assert calls[..|calls| - 1] == calls[..0];
    assert AfterCalls(SampleFlight, calls[..0]) == ([], FlightStart);
    assert [] + [RecordSealed(SampleRecord(SampleDone)), SealFailed] == [RecordSealed(SampleRecord(SampleDone)), SealFailed];
  }
}
