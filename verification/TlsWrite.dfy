/** Writing application data over TLS (s3_pkt.cc): data is cut into records, a record that the
    transport does not take at once stays pending, and the caller retries. */
module TlsWrite {
  import opened Wrappers
  import opened PbWire

  const MAX_PLAIN_LENGTH: nat := 16384        // SSL3_RT_MAX_PLAIN_LENGTH
  const APPLICATION_DATA: byte := 23          // SSL3_RT_APPLICATION_DATA

  /** How far writing has come: the plaintext sealed so far, how much of it has been reported to the
      caller as written, and, of the rest, how much lies in records that went out (wnum) and in the
      record that is pending (held). */
  datatype Progress = Progress(sealed: seq<byte>, reported: nat, wnum: nat, held: nat)

  /** What was sealed but not yet reported is the start of the data the caller is writing. */
  ghost predicate Matches(p: Progress, data: seq<byte>) {
    && p.reported <= |p.sealed| && p.wnum + p.held <= |data|
    && p.sealed[p.reported..] == data[..p.wnum + p.held]
  }

  /** One call with this data and this result. A positive result reports exactly a prefix of the data,
      each byte sealed once and in order; any other result reports nothing, and the same data can be
      retried. */
  ghost predicate Call(p: Progress, data: seq<byte>, r: int, q: Progress) {
    && p.reported <= |p.sealed| && q.reported <= |q.sealed|
    && if r > 0 then
         r <= |data| && q == Progress(p.sealed[..p.reported] + data[..r], p.reported + r, 0, 0)
       else
         Matches(q, data) && q.reported == p.reported && q.sealed[..q.reported] == p.sealed[..p.reported]
  }

  /** Nothing has been reported since p, and what was sealed since the last report is the start of
      the data. */
  ghost predicate Continues(p: Progress, q: Progress, data: seq<byte>) {
    && Matches(q, data) && p.reported <= |p.sealed| && q.reported == p.reported
    && q.sealed[..q.reported] == p.sealed[..p.reported]
  }

  /** One record: the pending one went out, or a new one with this plaintext; or, with a result that
      is not positive, it may now be pending. */
  ghost predicate OneRecord(p: Progress, plaintext: seq<byte>, ret: int, q: Progress) {
    && q.reported == p.reported && q.wnum == p.wnum
    && if ret > 0 then
         q.held == 0 && ret == (if p.held > 0 then p.held else |plaintext|)
         && q.sealed == if p.held > 0 then p.sealed else p.sealed + plaintext
       else
         || (q.sealed == p.sealed && q.held == p.held)
         || (p.held == 0 && q.held == |plaintext| && q.sealed == p.sealed + plaintext)
  }

  lemma {:induction false} OneRecordContinues(p: Progress, now: Progress, data: seq<byte>, nw: nat, ret: int, q: Progress)
    requires Continues(p, now, data) && now.wnum + nw <= |data|
    requires OneRecord(now, data[now.wnum..now.wnum + nw], ret, q)
    ensures ret <= 0 ==> Continues(p, q, data)
    ensures ret > 0 ==> Continues(p, q.(wnum := now.wnum + ret), data)
  {
    assert data[..now.wnum] + data[now.wnum..now.wnum + nw] == data[..now.wnum + nw];
  }

  lemma {:induction false} MatchesContinues(p: Progress, data: seq<byte>)
    requires Matches(p, data)
    ensures Continues(p, p, data) && Call(p, data, -1, p)
    ensures p.wnum > 0 ==> !Matches(p.(wnum := 0), data)
  {
  }

  lemma {:induction false} ContinuesToCall(p: Progress, q: Progress, data: seq<byte>)
    requires Continues(p, q, data)
    ensures forall r: int :: r <= 0 ==> Call(p, data, r, q)
    ensures q.held == 0 && q.wnum > 0 ==> Call(p, data, q.wnum, Progress(q.sealed, q.reported + q.wnum, 0, 0))
  {
  }

  /** A retry that is too short makes the writer lose its place. Of two records the first has gone out and
      the second is pending; a retry with a length below wnum forgets wnum. With a moving write buffer, a
      retry with the full length then takes the pending record for the first one, seals the second one
      again, and reports all the data as written. */
  lemma {:induction false} ShortRetryLosesPlace(data: seq<byte>)
    requires |data| == 1024
    ensures var first, second, zero := data[..512], data[512..], Progress([], 0, 0, 0);
            var p, lost := Progress(data, 0, 512, 512), Progress(data, 0, 0, 512);
            // the first call
            && OneRecord(zero, first, 512, zero.(sealed := first))
            && OneRecord(Progress(first, 0, 512, 0), second, -1, p) && Matches(p, data)
            // the retry that is too short
            && lost == p.(wnum := 0) && !Matches(lost, data)
            // the next retry
            && OneRecord(lost, first, 512, lost.(held := 0))
            && OneRecord(Progress(data, 0, 512, 0), second, 512, Progress(data + second, 0, 512, 0))
            && !Call(p, data, 1024, Progress(data + second, 1024, 0, 0))
  {
    assert data[..512] + data[512..] == data;
  }

  /** If no record is pending, no moving write buffer is needed: the second record could not be sealed, and
      after the retry that is too short the first one is sealed again. */
  lemma {:induction false} ShortRetrySealsTwice(data: seq<byte>)
    requires |data| == 1024
    ensures var first, second, zero := data[..512], data[512..], Progress([], 0, 0, 0);
            var p := Progress(first, 0, 512, 0);
            && OneRecord(zero, first, 512, zero.(sealed := first))
            && OneRecord(p, second, -1, p) && Matches(p, data)
            && !Matches(p.(wnum := 0), data)
            && OneRecord(p.(wnum := 0), first, 512, Progress(first + first, 0, 0, 0))
            && OneRecord(Progress(first + first, 0, 512, 0), second, 512, Progress(first + first + second, 0, 512, 0))
            && !Call(p, data, 1024, Progress(first + first + second, 1024, 0, 0))
  {
  }

  /** What one call of ssl3_write_app_data is known to do: provided that what has gone out lies within
      the length, and that the data still start with what was sealed for them, it is a correct call; and
      if it reports nothing, the same can be said of the next one. */
  ghost predicate WriteStep(p: Progress, data: seq<byte>, len: int, r: int, q: Progress) {
    p.wnum <= len && Matches(p, data) ==> Call(p, data, r, q) && (r > 0 ==> r <= len) && (r <= 0 ==> q.wnum <= len)
  }

  lemma {:induction false} SameStep(p: Progress, data: seq<byte>, len: int)
    ensures WriteStep(p, data, len, -1, p)
  {
    if Matches(p, data) { MatchesContinues(p, data); }
    hide Matches, Call;
  }

  lemma {:induction false} ShortStep(p: Progress, data: seq<byte>, len: int, r: int, q: Progress)
    requires len < p.wnum
    ensures WriteStep(p, data, len, r, q)
  {
  }

  lemma {:induction false} CallStep(p: Progress, data: seq<byte>, len: int, r: int, q: Progress)
    requires (Matches(p, data) ==> Call(p, data, r, q)) && (if r <= 0 then q.wnum <= len else r <= len)
    ensures WriteStep(p, data, len, r, q)
  {
    hide Matches, Call;
  }

  /** A call: the caller's buffer, how much of it is to be written, and the result. */
  datatype WriteCall = WriteCall(data: seq<byte>, len: nat, r: int)

  /** What the caller has to do: after a result that is not positive, call again with the same buffer and
      at least the same length. */
  ghost predicate Retries(call: WriteCall, next: WriteCall) {
    call.r <= 0 ==> next.data == call.data && next.len >= call.len
  }

  /** A run of calls by such a caller. */
  ghost predicate IsRun(states: seq<Progress>, calls: seq<WriteCall>) {
    && |states| == |calls| + 1 && states[0] == Progress([], 0, 0, 0)
    && (forall i :: 0 <= i < |calls| ==>
          calls[i].len <= |calls[i].data|
          && WriteStep(states[i], calls[i].data, calls[i].len, calls[i].r, states[i + 1]))
    && forall i {:trigger states[i], calls[i]} :: 0 < i < |calls| ==> Retries(calls[i - 1], calls[i])
  }

  /** The concatenation of the prefixes that the calls report. */
  function Reported(calls: seq<WriteCall>): seq<byte>
    decreases |calls|
  {
    if calls == [] then []
    else
      var call := calls[|calls| - 1];
      Reported(calls[..|calls| - 1]) + if 0 < call.r <= |call.data| then call.data[..call.r] else []
  }

  lemma {:induction false} ShorterRun(states: seq<Progress>, calls: seq<WriteCall>)
    requires IsRun(states, calls) && calls != []
    ensures IsRun(states[..|states| - 1], calls[..|calls| - 1])
  {
    var ss, cs := states[..|states| - 1], calls[..|calls| - 1];
    forall i | 0 <= i < |cs|
      ensures cs[i].len <= |cs[i].data| && WriteStep(ss[i], cs[i].data, cs[i].len, cs[i].r, ss[i + 1])
    {
      assert cs[i] == calls[i] && ss[i] == states[i] && ss[i + 1] == states[i + 1];
    }
    forall i | 0 < i < |cs| ensures Retries(cs[i - 1], cs[i]) {
      assert cs[i] == calls[i] && ss[i] == states[i];
    }
  }

  lemma {:induction false} CallReports(p: Progress, data: seq<byte>, r: int, q: Progress)
    requires Call(p, data, r, q)
    ensures q.reported <= |q.sealed|
    ensures q.sealed[..q.reported] == p.sealed[..p.reported] + if 0 < r <= |data| then data[..r] else []
    ensures if r > 0 then q == Progress(q.sealed[..q.reported], q.reported, 0, 0) else Matches(q, data)
  {
  }

  /** Exactly once, over any run: what was sealed and reported is the concatenation of the prefixes that
      the calls reported, nothing lost and nothing repeated. What was sealed beyond that is the start of
      the data of the last call, which is to be retried; after a success there is nothing. */
  lemma {:induction false} WriteExactlyOnce(states: seq<Progress>, calls: seq<WriteCall>)
    requires IsRun(states, calls)
    ensures var end := states[|calls|];
            && end.reported <= |end.sealed| && end.sealed[..end.reported] == Reported(calls)
            && if calls == [] || calls[|calls| - 1].r > 0 then end == Progress(Reported(calls), |Reported(calls)|, 0, 0)
               else Matches(end, calls[|calls| - 1].data) && end.wnum <= calls[|calls| - 1].len
    decreases |calls|
  {
    if calls != [] {
      var n := |calls| - 1;
      var ss, cs := states[..|states| - 1], calls[..n];
      ShorterRun(states, calls);
      WriteExactlyOnce(ss, cs);
      var p, call := states[n], calls[n];
      assert ss[n] == p;
      if n > 0 {
        assert cs[n - 1] == calls[n - 1] && Retries(calls[n - 1], call);
      }
      assert Matches(p, call.data) && p.wnum <= call.len;
      assert WriteStep(p, call.data, call.len, call.r, states[n + 1]);
      hide IsRun, Matches;
      CallReports(p, call.data, call.r, states[n + 1]);
    }
  }

  function Min(a: nat, b: nat): nat {
    if a <= b then a else b
  }

  function Concat(records: seq<seq<byte>>): seq<byte> {
    if records == [] then [] else Concat(records[..|records| - 1]) + records[|records| - 1]
  }

  lemma {:induction false} ConcatOneMore(records: seq<seq<byte>>, r: seq<byte>)
    ensures Concat(records + [r]) == Concat(records) + r
  {
    assert (records + [r])[..|records|] == records;
  }

  /** Records have been added, none of them empty or longer than this. */
  ghost predicate Added(before: seq<seq<byte>>, after: seq<seq<byte>>, max: nat) {
    before <= after && forall i :: |before| <= i < |after| ==> 0 < |after[i]| <= max
  }

  lemma {:induction false} AddedNone(records: seq<seq<byte>>, max: nat)
    ensures Added(records, records, max)
  {
  }

  lemma {:induction false} AddedMore(before: seq<seq<byte>>, now: seq<seq<byte>>, after: seq<seq<byte>>, n: nat, max: nat)
    requires Added(before, now, max) && Added(now, after, n) && n <= max
    ensures Added(before, after, max)
  {
  }

  /** What the transport does with successive writes (the bytes it takes, or a failure), whether there is room
      for a record, and what the cipher makes of it. */
  datatype Outcome = Outcome(bio: nat -> int, room: bool, ciphertext: Option<seq<byte>>)

  /** The transport always takes something. */
  ghost predicate Takes(bio: nat -> int) {
    forall i :: bio(i) > 0
  }

  /** Nothing fails, in any turn of the loop. */
  ghost predicate Smooth(outcomes: nat -> Outcome) {
    forall i :: Succeeds(outcomes(i))
  }

  ghost predicate Succeeds(o: Outcome) {
    Takes(o.bio) && o.room && o.ciphertext.Some?
  }

  lemma {:induction false} SmoothTurn(outcomes: nat -> Outcome, i: nat)
    requires Smooth(outcomes)
    ensures Succeeds(outcomes(i))
  {
  }

  /** The write buffer and the transport behind it. */
  class WriteBuffer {
    var data: seq<byte>
    var hasTransport: bool             // wbio

    /** The bytes that the transport took, and the bytes that were put into the buffer. */
    ghost var transport: seq<byte>
    ghost var produced: seq<byte>

    ghost predicate Valid()
      reads this
    {
      transport + data == produced
    }

    constructor ()
      ensures Valid() && data == []
    {
      data, hasTransport, transport, produced := [], true, [], [];
    }

    method Append(more: seq<byte>)
      requires Valid()
      modifies this`data, this`produced
      ensures Valid() && data == old(data) + more && produced == old(produced) + more
    {
      assert transport + (data + more) == produced + more;
      data, produced := data + more, produced + more;
    }

    /** tls_write_buffer_flush: the transport takes what it can, in order. */
    method Flush(bio: nat -> int) returns (ret: int)
      requires Valid()
      modifies this`data, this`transport
      ensures Valid() && old(transport) <= transport
      ensures ret > 0 ==> ret == 1 && data == [] && transport == produced
      ensures hasTransport && Takes(bio) ==> ret == 1
    {
      if !hasTransport {
        return -1;
      }
      var i := 0;
      while data != []
        invariant Valid() && old(transport) <= transport
        decreases |data|
      {
        var taken := bio(i);   // BIO_write: at most the whole buffer
        i := i + 1;
        if taken <= 0 {
          return taken;
        }
        var n := if taken <= |data| then taken else |data|;
        transport := transport + data[..n];
        data := data[n..];
      }
      ret := 1;
    }
  }

  /** The fields of SSL and SSL3_STATE that take part in writing. */
  class Writer {
    var shutdown: bool                 // write_shutdown is not ssl_shutdown_none
    var maxSendFragment: nat
    var partialWrite: bool             // SSL_MODE_ENABLE_PARTIAL_WRITE
    var movingBuffer: bool             // SSL_MODE_ACCEPT_MOVING_WRITE_BUFFER
    var wnum: nat
    var wpendPending: bool
    var wpendTot: nat
    var wpendBuf: (array?<byte>, nat)  // a pointer: the buffer and the position in it
    var wpendType: byte
    var wpendRet: nat
    var pendingFlight: seq<byte>       // from pending_flight_offset on
    const buffer: WriteBuffer

    /** Plaintexts sealed, and the number of bytes reported. */
    ghost var records: seq<seq<byte>>
    ghost var reported: nat

    ghost predicate Valid()
      reads this, buffer
    {
      512 <= maxSendFragment <= MAX_PLAIN_LENGTH && buffer.Valid() && PendingOk()
    }

    ghost predicate PendingOk()
      reads this
    {
      wpendPending ==> 0 < wpendRet == wpendTot && (wpendBuf.1 == wnum || wnum == 0)
    }

    /** A pending record whose place has been forgotten, while the buffer must not move. */
    ghost predicate Stuck()
      reads this
    {
      wpendPending && wnum == 0 && wpendBuf.1 > 0 && !movingBuffer
    }

    ghost function Now(): Progress
      reads this
    {
      Progress(Concat(records), reported, wnum, if wpendPending then wpendRet else 0)
    }

    constructor (maxSendFragment: nat)
      requires 512 <= maxSendFragment <= MAX_PLAIN_LENGTH
      ensures Valid() && fresh(buffer) && Now() == Progress([], 0, 0, 0)
    {
      this.maxSendFragment := maxSendFragment;
      shutdown, partialWrite, movingBuffer := false, false, false;
      wnum, wpendPending, wpendTot, wpendBuf, wpendType, wpendRet := 0, false, 0, (null, 0), 0, 0;
      pendingFlight, records, reported := [], [], 0;
      buffer := new WriteBuffer();
    }

    /** These are the arguments of the pending record, or a longer rest with the same start. */
    predicate Matching(typ: byte, buf: array<byte>, off: nat, len: nat)
      reads this`movingBuffer, this`wpendTot, this`wpendBuf, this`wpendType
    {
      wpendTot <= len && (movingBuffer || wpendBuf == (buf, off)) && wpendType == typ
    }

    /** Nothing stands in the way of writing: a record that is pending is the one to be written, and if there is
        none, the buffer is empty. */
    ghost predicate ReadyFor(buf: array<byte>, off: nat, len: nat)
      reads this`wpendPending, this`movingBuffer, this`wpendTot, this`wpendBuf, this`wpendType, buffer
    {
      buffer.hasTransport && if wpendPending then Matching(APPLICATION_DATA, buf, off, len) else buffer.data == []
    }

    /** How much the next record reports when nothing fails. */
    ghost function NextCount(len: nat): nat
      reads this`wpendPending, this`wpendRet
    {
      if wpendPending then wpendRet else len
    }

    /** ssl3_write_pending: only with the arguments of the pending record, or with a longer rest. */
    method WritePending(typ: byte, buf: array<byte>, off: nat, len: nat, bio: nat -> int) returns (ret: int)
      requires Valid() && wpendPending && off + len <= buf.Length
      modifies buffer, this`wpendPending
      ensures Valid()
      ensures ret > 0 ==> !wpendPending && ret == wpendRet <= len && buffer.transport == buffer.produced
      ensures buffer.hasTransport == old(buffer.hasTransport) && (ret > 0 ==> buffer.data == [])
      ensures ret <= 0 ==> wpendPending
      ensures wpendTot > len || (!movingBuffer && wpendBuf != (buf, off)) || wpendType != typ ==>
                ret == -1 && buffer.transport == old(buffer.transport)
      ensures old(Matching(typ, buf, off, len)) && buffer.hasTransport && Takes(bio) ==> ret == old(wpendRet)
    {
      if wpendTot > len || (!movingBuffer && wpendBuf != (buf, off)) || wpendType != typ {
        return -1;
      }
      ret := buffer.Flush(bio);
      if ret <= 0 {
        return;
      }
      wpendPending := false;
      ret := wpendRet;
    }

    /** do_ssl3_write, while the caller has wnum at zero: a pending record first; otherwise one new record,
        behind any handshake data that is waiting. */
    method DoWrite(typ: byte, buf: array<byte>, off: nat, len: nat, o: Outcome) returns (ret: int)
      requires Valid() && wnum == 0 && off + len <= buf.Length
      modifies buffer, this`pendingFlight, this`records,
               this`wpendPending, this`wpendTot, this`wpendBuf, this`wpendType, this`wpendRet
      ensures Valid() && ret <= len && Added(old(records), records, len)
      ensures OneRecord(old(Now()), buf[off..off + len], ret, Now())
      ensures ret > 0 ==> !wpendPending && buffer.transport == buffer.produced
      ensures buffer.hasTransport == old(buffer.hasTransport) && (ret > 0 ==> buffer.data == [])
      ensures ret <= 0 && wpendPending ==> wpendBuf == if old(wpendPending) then old(wpendBuf) else (buf, off)
      ensures old(wpendPending) && !movingBuffer && old(wpendBuf) != (buf, off) ==>
                ret == -1 && wpendPending && records == old(records)
      ensures typ == APPLICATION_DATA && 0 < len <= MAX_PLAIN_LENGTH && old(ReadyFor(buf, off, len)) && Succeeds(o) ==>
                ret == old(NextCount(len))
    {
      AddedNone(records, len);
      hide Concat, Added, WriteBuffer.Valid, Takes;
      if wpendPending {
        ret := WritePending(typ, buf, off, len, o.bio);
        return;
      }
      if len > MAX_PLAIN_LENGTH || |buffer.data| > 0 {
        return -1;
      }
      if len == 0 {
        return 0;
      }
      if !o.room {
        return -1;
      }
      var sealed := SealToBuffer(typ, buf, off, len, o.ciphertext);
      if !sealed {
        return -1;
      }
      ret := WritePending(typ, buf, off, len, o.bio);
    }

    /** The middle of do_ssl3_write: waiting handshake data and then the new record go into the
        buffer, and the arguments are remembered. */
    method SealToBuffer(typ: byte, buf: array<byte>, off: nat, len: nat, ciphertext: Option<seq<byte>>)
      returns (sealed: bool)
      requires Valid() && wnum == 0 && !wpendPending && 0 < len && off + len <= buf.Length
      modifies buffer, this`pendingFlight, this`records,
               this`wpendPending, this`wpendTot, this`wpendBuf, this`wpendType, this`wpendRet
      ensures Valid() && sealed == wpendPending == ciphertext.Some? && buffer.hasTransport == old(buffer.hasTransport)
      ensures sealed ==> Added(old(records), records, len)
      ensures sealed ==> Now() == old(Now()).(sealed := old(Now()).sealed + buf[off..off + len], held := len)
      ensures sealed ==> wpendRet == wpendTot == len && wpendBuf == (buf, off) && wpendType == typ
      ensures !sealed ==> records == old(records) && Now() == old(Now())
    {
      hide WriteBuffer.Valid, Concat;
      buffer.Append(pendingFlight);
      pendingFlight := [];
      sealed := ciphertext.Some?;
      if !sealed {
        return;
      }
      buffer.Append(ciphertext.value);
      ConcatOneMore(records, buf[off..off + len]);
      records := records + [buf[off..off + len]];
      wpendTot, wpendBuf, wpendType, wpendRet, wpendPending := len, (buf, off), typ, len, true;
    }

    /** ssl3_write_app_data, without early data. If the buffer still starts with what was
        sealed for it, this is a correct call, whatever the result, and the call may come again. The
        one exception is a retry with a length below wnum: it is refused, but wnum is forgotten, so
        that the buffer no longer matches. Then a record that is pending is stuck for good, unless the buffer
        may move. */
    method WriteAppData(buf: array<byte>, len: int, outcomes: nat -> Outcome) returns (ret: int)
      requires Valid() && len <= buf.Length
      modifies buffer, this`wnum, this`reported, this`pendingFlight, this`records,
               this`wpendPending, this`wpendTot, this`wpendBuf, this`wpendType, this`wpendRet
      ensures Valid() && Added(old(records), records, maxSendFragment)
      ensures shutdown ==> ret == -1 && Now() == old(Now())
      ensures !shutdown && len < old(wnum) ==>
                && ret == -1 && Now() == old(Now()).(wnum := 0)
                && (old(Matches(Now(), buf[..]) && wnum > 0) ==> !Matches(Now(), buf[..]))
      ensures WriteStep(old(Now()), buf[..], len, ret, Now())
      ensures !shutdown && len < old(wnum) && old(wnum > 0 && wpendPending) && !movingBuffer ==> Stuck()
      ensures old(Stuck()) ==> ret == -1 && Stuck() && records == old(records)
      ensures ret > 0 ==> ret <= len && buffer.transport == buffer.produced && (!partialWrite ==> ret == len)
      ensures !shutdown && old(wnum) < len && Smooth(outcomes)
              && old(ReadyFor(buf, wnum, Min(len - wnum, maxSendFragment))) ==>
                ret == if partialWrite then old(wnum + NextCount(Min(len - wnum, maxSendFragment))) else len
    {
      ghost var p, matched := Now(), Matches(Now(), buf[..]);
      if matched { MatchesContinues(p, buf[..]); }
      SameStep(p, buf[..], len);
      AddedNone(records, maxSendFragment);
      hide Concat, Added, OneRecord, Matches, Continues, Call, WriteStep, WriteBuffer.Valid;
      if shutdown {
        return -1;
      }
      var tot := wnum;
      wnum := 0;
      if len < 0 || len < tot {
        ShortStep(p, buf[..], len, -1, Now());
        return -1;
      }
      ret := WriteRecords(buf, len, tot, outcomes, matched, p);
      CallStep(p, buf[..], len, ret, Now());
    }

    /** The loop of ssl3_write_app_data, from position tot on. */
    method WriteRecords(buf: array<byte>, len: nat, start: nat, outcomes: nat -> Outcome,
                        ghost matched: bool, ghost p: Progress) returns (ret: int)
      requires Valid() && start <= len <= buf.Length && wnum == 0
      requires wpendPending ==> wpendBuf.1 == start || start == 0
      requires matched ==> Continues(p, Now().(wnum := start), buf[..])
      modifies buffer, this`wnum, this`reported, this`pendingFlight, this`records,
               this`wpendPending, this`wpendTot, this`wpendBuf, this`wpendType, this`wpendRet
      ensures Valid() && Added(old(records), records, maxSendFragment)
      ensures (matched ==> Call(p, buf[..], ret, Now())) && (ret <= 0 ==> start <= wnum <= len)
      ensures old(Stuck()) && start == 0 ==> ret == -1 && Stuck() && records == old(records)
      ensures ret > 0 ==> ret <= len && buffer.transport == buffer.produced && (!partialWrite ==> ret == len)
      ensures start < len && Smooth(outcomes) && old(ReadyFor(buf, start, Min(len - start, maxSendFragment))) ==>
                ret == if partialWrite then start + old(NextCount(Min(len - start, maxSendFragment))) else len
    {
      AddedNone(records, maxSendFragment);
      hide Concat, Added, Matches, Continues, Call, WriteBuffer.Valid, ReadyFor, NextCount, Smooth, Succeeds, Min;
      ghost var smooth := start < len && Smooth(outcomes) && ReadyFor(buf, start, Min(len - start, maxSendFragment));
      ghost var first := NextCount(Min(len - start, maxSendFragment));
      var tot: nat, n: nat, turn: nat := start, len - start, 0;
      while true
        invariant smooth ==> 0 < n && Smooth(outcomes) && ReadyFor(buf, tot, Min(n, maxSendFragment))
        invariant smooth && partialWrite ==> tot == start && first == NextCount(Min(n, maxSendFragment))
        invariant wpendPending ==> wpendBuf.1 == tot || tot == 0
        invariant old(Stuck()) && start == 0 ==> tot == 0 && Stuck() && records == old(records)
        invariant Valid() && n + tot == len && start <= tot && wnum == 0 && Added(old(records), records, maxSendFragment)
        invariant matched ==> Continues(p, Now().(wnum := tot), buf[..])
        decreases n
      {
        ghost var before := records;
        if smooth { SmoothTurn(outcomes, turn); }
        ret := WriteOne(buf, tot, n, outcomes(turn), matched, p);
        turn := turn + 1;
        AddedMore(old(records), before, records, maxSendFragment, maxSendFragment);
        if ret <= 0 {
          wnum := tot;
          if matched { ContinuesToCall(p, Now(), buf[..]); }
          return;
        }
        if ret == n || partialWrite {
          if matched { ContinuesToCall(p, Now().(wnum := tot + ret), buf[..]); }
          reported := reported + tot + ret;
          return tot + ret;
        }
        n := n - ret;
        tot := tot + ret;
      }
    }

    /** One turn of the loop: a record of what is left at position tot, within max_send_fragment. */
    method WriteOne(buf: array<byte>, tot: nat, n: nat, o: Outcome, ghost matched: bool, ghost p: Progress)
      returns (ret: int)
      requires Valid() && tot + n <= buf.Length && wnum == 0
      requires matched ==> Continues(p, Now().(wnum := tot), buf[..])
      modifies buffer, this`pendingFlight, this`records,
               this`wpendPending, this`wpendTot, this`wpendBuf, this`wpendType, this`wpendRet
      ensures Valid() && ret <= n && Added(old(records), records, maxSendFragment)
      ensures matched ==> Continues(p, Now().(wnum := if ret > 0 then tot + ret else tot), buf[..])
      ensures ret > 0 ==> !wpendPending && buffer.transport == buffer.produced
      ensures ret <= 0 && wpendPending ==> wpendBuf == if old(wpendPending) then old(wpendBuf) else (buf, tot)
      ensures old(wpendPending) && !movingBuffer && old(wpendBuf) != (buf, tot) ==>
                ret == -1 && wpendPending && records == old(records)
      ensures 0 < n && Succeeds(o) && old(ReadyFor(buf, tot, Min(n, maxSendFragment))) ==>
                ret == old(NextCount(Min(n, maxSendFragment))) > 0 && forall off, len :: ReadyFor(buf, off, len)
    {
      hide Concat, Added, Matches, Continues, WriteBuffer.Valid;
      var nw := if n > maxSendFragment then maxSendFragment else n;
      ghost var now := Now().(wnum := tot);
      AddedNone(records, maxSendFragment);
      ret := DoWrite(APPLICATION_DATA, buf, tot, nw, o);
      assert buf[..][tot..tot + nw] == buf[tot..tot + nw];
      AddedMore(old(records), old(records), records, nw, maxSendFragment);
      if matched { OneRecordContinues(p, now, buf[..], nw, ret, Now().(wnum := tot)); }
    }
  }
}
