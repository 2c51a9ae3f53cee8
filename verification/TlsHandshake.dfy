/** The server's handshake in code (handshake_server.cc, and the driver in handshake.cc): one method a
    state, each proved to take a step of TlsProtocol. What messages contain and what cryptography,
    certificates and callbacks say are parameters. */
module TlsHandshake {
  import opened Wrappers
  import opened TlsProtocol

  /** How far a full handshake is in a state. */
  function Level(s: State): nat {
    match s
    case StartAccept => 0
    case ReadClientHello => 1
    case SelectCertificate => 2
    case Tls13 => 3
    case SelectParameters => 3
    case SendServerHello => 4
    case SendServerCertificate => 5
    case SendServerKeyExchange => 6
    case SendServerHelloDone => 7
    case ReadClientCertificate => 8
    case VerifyClientCertificate => 9
    case ReadClientKeyExchange => 10
    case ReadClientCertificateVerify => 11
    case ReadChangeCipherSpec => 12
    case ProcessChangeCipherSpec => 13
    case ReadNextProto => 14
    case ReadChannelId => 15
    case ReadClientFinished => 16
    case SendServerFinished => 17
    case FinishServerHandshake => 18
    case Done => 19
  }

  /** The states that this environment leads through. */
  ghost predicate PathOk(e: Env, s: State) {
    && (s == SelectParameters ==> !e.tls13) && (s == Tls13 ==> e.tls13)
    && (4 <= Level(s) <= 17 ==> !e.tls13) && (5 <= Level(s) <= 11 ==> !e.resumed)
  }

  /** What one turn of the state machine meets: the message that is there, if any; the first and the second
      check that may fail; a handoff, and an asynchronous operation that is not finished; what the certificate
      callback, the session lookup and the TLS 1.3 machine return. Each step uses what it asks for. */
  datatype Turn = Turn(msg: Option<Message>, ok: bool, okAgain: bool, handoff: bool, pending: bool, callback: int,
                       session: Wait, tls13: Wait)

  /** What the transport does when the driver reads or flushes: its result, and whether to try again. */
  datatype Poll = Poll(bio: int, retry: bool)

  /** What a step needs to succeed: nothing, the checks it makes, or its message and the checks of that. */
  predicate Succeeds(c: Config, e: Env, s: State, t: Turn) {
    match s
    case ReadClientHello => t.msg == Some(ClientHello) && t.ok && !t.handoff && !t.pending
    case SelectCertificate => t.msg.Some? && t.callback > 0 && t.ok && (e.tls13 || t.okAgain)
    case Tls13 => t.tls13 == Ok
    case SelectParameters => t.msg.Some? && t.session == Ok && t.ok
    case SendServerHello | SendServerCertificate | SendServerHelloDone | ProcessChangeCipherSpec => t.ok
    case SendServerKeyExchange => e.keyExchange ==> t.ok && !(e.certificateAuth && t.pending)
    case ReadClientCertificate =>
      CertRequest(c, e) ==>
        && !Refused(c, e, s)
        && if e.certificateSent then t.msg == Some(Certificate) && t.ok else t.msg == Some(ClientKeyExchange)
    case VerifyClientCertificate => Certs(c, e) > 0 ==> t.ok && !t.pending
    case ReadClientKeyExchange => t.msg == Some(ClientKeyExchange) && t.ok && !t.pending
    case ReadClientCertificateVerify => Certs(c, e) > 0 ==> t.msg == Some(CertificateVerifyMessage) && t.ok
    case ReadNextProto => e.nextProto ==> t.msg == Some(NextProto) && t.ok
    case ReadChannelId => ChannelIdValid(e) ==> t.msg == Some(ChannelId) && t.ok
    case ReadClientFinished =>
      t.msg == Some(Finished) && t.ok && (!e.resumed && ChannelIdValid(e) ==> t.okAgain)
    case SendServerFinished => t.ok
    case _ => true
  }

  /** SSL_HANDSHAKE and the parts of SSL that the server's steps compute. What the steps only find out
      and remember is in the environment. */
  class ServerHandshake {
    const c: Config
    const env: Env
    var state: State
    var wait: Wait
    var certRequest: bool
    var serverParams: bool         // server_params is not empty
    var channelIdValid: bool       // tlsext_channel_id_valid
    var certs: nat                 // the number of certificates in new_session->certs
    var peerPubkey: bool

    ghost var trace: seq<Event>
    ghost var steps: nat
    ghost var run: seq<Handshake>

    ghost function Now(w: Wait): Handshake
      reads this`state, this`trace, this`steps
    {
      Handshake(state, w, trace, steps)
    }

    /** The fields that have been set say what they should. */
    ghost predicate FieldsOk()
      reads this`state, this`certRequest, this`channelIdValid, this`serverParams, this`certs, this`peerPubkey
    {
      PathOk(env, state) && AnswersOk(Level(state)) && CertsOk(Level(state))
    }

    ghost predicate AnswersOk(l: nat)
      reads this`certRequest, this`channelIdValid
    {
      && (l < 4 ==> !certRequest) && (l >= 4 && !env.tls13 ==> certRequest == CertRequest(c, env))
      && (2 <= l <= 4 ==> channelIdValid == env.channelIdOffered)
      && (l >= 5 && !env.tls13 ==> channelIdValid == ChannelIdValid(env))
    }

    ghost predicate CertsOk(l: nat)
      reads this`serverParams, this`certs, this`peerPubkey
    {
      && (l == 6 ==> serverParams == env.keyExchange)
      && (l <= 8 ==> certs == 0 && !peerPubkey)
      && (9 <= l <= 11 ==> certs == Certs(c, env) && (peerPubkey <==> certs > 0))
    }

    ghost predicate Valid()
      reads this
    {
      (wait != Error ==> FieldsOk()) && IsRun(c, env, run) && run[|run| - 1] == Now(wait)
    }

    constructor (c: Config, env: Env)
      ensures Valid() && this.c == c && this.env == env && run == [Start]
    {
      this.c, this.env, state, wait := c, env, StartAccept, Ok;
      certRequest, serverParams, channelIdValid, certs, peerPubkey := false, false, false, 0, false;
      trace, steps, run := [], 0, [Start];
    }

    method DoStartAccept(t: Turn) returns (ret: Wait)
      requires FieldsOk() && state == StartAccept
      modifies this`state, this`trace, this`steps
      ensures (ret != Error ==> FieldsOk()) && Stepped(c, env, old(Now(Ok)), Now(ret))
      ensures ret == WaitAfter(old(state)) <==> Succeeds(c, env, old(state), t)
    {
      state, steps := ReadClientHello, steps + 1;
      return Ok;
    }

    method DoReadClientHello(t: Turn) returns (ret: Wait)
      requires FieldsOk() && state == ReadClientHello
      modifies this`state, this`trace, this`steps, this`channelIdValid
      ensures (ret != Error ==> FieldsOk()) && Stepped(c, env, old(Now(Ok)), Now(ret))
      ensures ret == WaitAfter(old(state)) <==> Succeeds(c, env, old(state), t)
    {
      if t.msg.None? { return NeedMessage; }
      if t.msg.value != ClientHello { return Error; }
      if t.handoff { return Handoff; }
      if t.pending { return CertificateSelectionPending; }
      if !t.ok { return Error; }
      channelIdValid := env.channelIdOffered;
      state, steps := SelectCertificate, steps + 1;
      return Ok;
    }

    method DoSelectCertificate(t: Turn) returns (ret: Wait)
      requires FieldsOk() && state == SelectCertificate
      modifies this`state, this`trace, this`steps
      ensures (ret != Error ==> FieldsOk()) && Stepped(c, env, old(Now(Ok)), Now(ret))
      ensures ret == WaitAfter(old(state)) <==> Succeeds(c, env, old(state), t)
    {
      if t.msg.None? { return NeedMessage; }
      if t.callback == 0 { return Error; }
      if t.callback < 0 { return X509Lookup; }
      if !t.ok { return Error; }
      if env.tls13 {
        state, steps := Tls13, steps + 1;
        return Ok;
      }
      if !t.okAgain { return Error; }
      state, steps := SelectParameters, steps + 1;
      return Ok;
    }

    method DoTls13(t: Turn) returns (ret: Wait)
      requires FieldsOk() && state == Tls13
      modifies this`state, this`trace, this`steps
      ensures (ret != Error ==> FieldsOk()) && Stepped(c, env, old(Now(Ok)), Now(ret))
      ensures ret == WaitAfter(old(state)) <==> Succeeds(c, env, old(state), t)
    {
      ret := t.tls13;
      if ret == Ok {
        trace := trace + [Tls13Handshake];
        state, steps := FinishServerHandshake, steps + 1;
      } else if ret == NeedChangeCipherSpec {
        ret := Error;
      }
    }

    /** ssl_get_prev_session: it may have to wait for the session or for the key of its ticket. */
    method GetPrevSession(session: Wait) returns (ret: Wait)
      ensures ret == Ok || ret == Error || ret == PendingSession || ret == PendingTicket
      ensures ret == Ok <==> session == Ok
    {
      ret := session;
      if ret != Ok && ret != PendingSession && ret != PendingTicket { ret := Error; }
    }

    /** Whether to ask for a client certificate. */
    method DecideCertRequest()
      modifies this`certRequest
      ensures certRequest == (c.verifyPeer && !(c.peerIfNoObc && channelIdValid) && env.certificateAuth)
    {
      certRequest := c.verifyPeer;
      if c.peerIfNoObc && channelIdValid { certRequest := false; }
      if !env.certificateAuth { certRequest := false; }
    }

    method DoSelectParameters(t: Turn) returns (ret: Wait)
      requires FieldsOk() && state == SelectParameters
      modifies this`state, this`trace, this`steps, this`certRequest
      ensures (ret != Error ==> FieldsOk()) && Stepped(c, env, old(Now(Ok)), Now(ret))
      ensures ret == WaitAfter(old(state)) <==> Succeeds(c, env, old(state), t)
    {
      if t.msg.None? { return NeedMessage; }
      ret := GetPrevSession(t.session);
      if ret != Ok { return; }
      if !env.resumed { DecideCertRequest(); }
      if !t.ok { return Error; }
      trace := trace + [Got(ClientHello)];
      state, steps := SendServerHello, steps + 1;
      return Ok;
    }

    method DoSendServerHello(t: Turn) returns (ret: Wait)
      requires FieldsOk() && state == SendServerHello
      modifies this`state, this`trace, this`steps, this`channelIdValid
      ensures (ret != Error ==> FieldsOk()) && Stepped(c, env, old(Now(Ok)), Now(ret))
      ensures ret == WaitAfter(old(state)) <==> Succeeds(c, env, old(state), t)
    {
      AtSendServerHello(c, env);
      hide Level, Next, Emits, WaitAfter, Refused, MayWait;
      if channelIdValid && !env.ecdhe { channelIdValid := false; }
      if env.resumed && !env.sessionHasHash { channelIdValid := false; }
      if !t.ok { return Error; }
      trace := trace + [Sent(ServerHello)];
      state, steps := if env.resumed then SendServerFinished else SendServerCertificate, steps + 1;
      return Ok;
    }

    method DoSendServerCertificate(t: Turn) returns (ret: Wait)
      requires FieldsOk() && state == SendServerCertificate
      modifies this`state, this`trace, this`steps, this`serverParams
      ensures (ret != Error ==> FieldsOk()) && Stepped(c, env, old(Now(Ok)), Now(ret))
      ensures ret == WaitAfter(old(state)) <==> Succeeds(c, env, old(state), t)
    {
      AtSendServerCertificate(c, env);
      hide Level, Next, Emits, WaitAfter, Refused, MayWait;
      if !t.ok { return Error; }
      if env.certificateAuth {
        trace := trace + [Sent(Certificate)];
        if env.certificateStatus { trace := trace + [Sent(CertificateStatus)]; }
      }
      serverParams := env.keyExchange;
      state, steps := SendServerKeyExchange, steps + 1;
      return Ok;
    }

    method DoSendServerKeyExchange(t: Turn) returns (ret: Wait)
      requires FieldsOk() && state == SendServerKeyExchange
      modifies this`state, this`trace, this`steps, this`serverParams
      ensures (ret != Error ==> FieldsOk()) && Stepped(c, env, old(Now(Ok)), Now(ret))
      ensures ret == WaitAfter(old(state)) <==> Succeeds(c, env, old(state), t)
    {
      AtSendServerKeyExchange(c, env);
      hide Level, Next, Emits, WaitAfter, Refused, MayWait;
      if !serverParams {
        state, steps := SendServerHelloDone, steps + 1;
        return Ok;
      }
      if !t.ok { return Error; }
      if env.certificateAuth {
        if t.pending { return PrivateKeyOperation; }
      }
      serverParams := false;
      trace := trace + [Sent(ServerKeyExchange)];
      state, steps := SendServerHelloDone, steps + 1;
      return Ok;
    }

    method DoSendServerHelloDone(t: Turn) returns (ret: Wait)
      requires FieldsOk() && state == SendServerHelloDone
      modifies this`state, this`trace, this`steps
      ensures (ret != Error ==> FieldsOk()) && Stepped(c, env, old(Now(Ok)), Now(ret))
      ensures ret == WaitAfter(old(state)) <==> Succeeds(c, env, old(state), t)
    {
      if !t.ok { return Error; }
      if certRequest { trace := trace + [Sent(CertificateRequest)]; }
      trace := trace + [Sent(ServerHelloDone)];
      state, steps := ReadClientCertificate, steps + 1;
      return Flush;
    }

    /** The message that answers a certificate request. Whether it is Certificate is what the environment
        calls certificateSent. */
    method GetClientAnswer(msg: Option<Message>) returns (got: Option<Message>)
      ensures got.Some? ==> (got.value == Certificate <==> env.certificateSent)
      ensures got == if msg.Some? && (msg.value == Certificate <==> env.certificateSent) then msg else None
    {
      got := msg;
      if got.Some? && (got.value == Certificate) != env.certificateSent { got := None; }
    }

    /** In SSL 3.0 a client without a certificate leaves the message out, and only there. */
    method DoReadClientCertificate(t: Turn) returns (ret: Wait)
      requires FieldsOk() && state == ReadClientCertificate
      modifies this`state, this`trace, this`steps, this`certs, this`peerPubkey
      ensures (ret != Error ==> FieldsOk()) && Stepped(c, env, old(Now(Ok)), Now(ret))
      ensures ret == WaitAfter(old(state)) <==> Succeeds(c, env, old(state), t)
    {
      AtReadClientCertificate(c, env);
      hide Level, Next, Emits, WaitAfter, Refused, MayWait;
      if !certRequest {
        state, steps := VerifyClientCertificate, steps + 1;
        return Ok;
      }
      var msg := GetClientAnswer(t.msg);
      if msg.None? { return NeedMessage; }
      if msg.value != Certificate {
        if env.ssl3 && msg.value == ClientKeyExchange {
          if c.failIfNoPeerCert { return Error; }
          state, steps := VerifyClientCertificate, steps + 1;
          return Ok;
        }
        return Error;
      }
      if !t.ok { return Error; }
      if env.chain == 0 {
        if env.ssl3 { return Error; }
        if c.failIfNoPeerCert { return Error; }
      }
      certs, peerPubkey := env.chain, env.chain > 0;
      trace := trace + [Got(Certificate), Chain(certs)];
      state, steps := VerifyClientCertificate, steps + 1;
      return Ok;
    }

    method DoVerifyClientCertificate(t: Turn) returns (ret: Wait)
      requires FieldsOk() && state == VerifyClientCertificate
      modifies this`state, this`trace, this`steps
      ensures (ret != Error ==> FieldsOk()) && Stepped(c, env, old(Now(Ok)), Now(ret))
      ensures ret == WaitAfter(old(state)) <==> Succeeds(c, env, old(state), t)
    {
      if certs > 0 {
        if !t.ok { return Error; }
        if t.pending { return TlsProtocol.Wait.CertificateVerify; }
        trace := trace + [ChainVerified];
      }
      state, steps := ReadClientKeyExchange, steps + 1;
      return Ok;
    }

    method DoReadClientKeyExchange(t: Turn) returns (ret: Wait)
      requires FieldsOk() && state == ReadClientKeyExchange
      modifies this`state, this`trace, this`steps
      ensures (ret != Error ==> FieldsOk()) && Stepped(c, env, old(Now(Ok)), Now(ret))
      ensures ret == WaitAfter(old(state)) <==> Succeeds(c, env, old(state), t)
    {
      AtReadClientKeyExchange(c, env);
      hide Level, Next, Emits, WaitAfter, Refused, MayWait;
      if t.msg.None? { return NeedMessage; }
      if t.msg.value != ClientKeyExchange { return Error; }
      if t.pending { return PrivateKeyOperation; }
      if !t.ok { return Error; }
      trace := trace + [Got(ClientKeyExchange)];
      state, steps := ReadClientCertificateVerify, steps + 1;
      return Ok;
    }

    method DoReadClientCertificateVerify(t: Turn) returns (ret: Wait)
      requires FieldsOk() && state == ReadClientCertificateVerify
      modifies this`state, this`trace, this`steps
      ensures (ret != Error ==> FieldsOk()) && Stepped(c, env, old(Now(Ok)), Now(ret))
      ensures ret == WaitAfter(old(state)) <==> Succeeds(c, env, old(state), t)
    {
      if !peerPubkey {
        state, steps := ReadChangeCipherSpec, steps + 1;
        return Ok;
      }
      if t.msg.None? { return NeedMessage; }
      if t.msg.value != CertificateVerifyMessage { return Error; }
      if !t.ok { return Error; }
      trace := trace + [Got(CertificateVerifyMessage), SignatureVerified];
      state, steps := ReadChangeCipherSpec, steps + 1;
      return Ok;
    }

    method DoReadChangeCipherSpec(t: Turn) returns (ret: Wait)
      requires FieldsOk() && state == ReadChangeCipherSpec
      modifies this`state, this`trace, this`steps
      ensures (ret != Error ==> FieldsOk()) && Stepped(c, env, old(Now(Ok)), Now(ret))
      ensures ret == WaitAfter(old(state)) <==> Succeeds(c, env, old(state), t)
    {
      state, steps := ProcessChangeCipherSpec, steps + 1;
      return NeedChangeCipherSpec;
    }

    method DoProcessChangeCipherSpec(t: Turn) returns (ret: Wait)
      requires FieldsOk() && state == ProcessChangeCipherSpec
      modifies this`state, this`trace, this`steps
      ensures (ret != Error ==> FieldsOk()) && Stepped(c, env, old(Now(Ok)), Now(ret))
      ensures ret == WaitAfter(old(state)) <==> Succeeds(c, env, old(state), t)
    {
      if !t.ok { return Error; }
      trace := trace + [ReadKeys];
      state, steps := ReadNextProto, steps + 1;
      return Ok;
    }

    method DoReadNextProto(t: Turn) returns (ret: Wait)
      requires FieldsOk() && state == ReadNextProto
      modifies this`state, this`trace, this`steps
      ensures (ret != Error ==> FieldsOk()) && Stepped(c, env, old(Now(Ok)), Now(ret))
      ensures ret == WaitAfter(old(state)) <==> Succeeds(c, env, old(state), t)
    {
      AtReadNextProto(c, env);
      hide Level, Next, Emits, WaitAfter, Refused, MayWait;
      if !env.nextProto {
        state, steps := ReadChannelId, steps + 1;
        return Ok;
      }
      if t.msg.None? { return NeedMessage; }
      if t.msg.value != NextProto || !t.ok { return Error; }
      trace := trace + [Got(NextProto)];
      state, steps := ReadChannelId, steps + 1;
      return Ok;
    }

    method DoReadChannelId(t: Turn) returns (ret: Wait)
      requires FieldsOk() && state == ReadChannelId
      modifies this`state, this`trace, this`steps
      ensures (ret != Error ==> FieldsOk()) && Stepped(c, env, old(Now(Ok)), Now(ret))
      ensures ret == WaitAfter(old(state)) <==> Succeeds(c, env, old(state), t)
    {
      AtReadChannelId(c, env);
      hide Level, Next, Emits, WaitAfter, Refused, MayWait;
      if !channelIdValid {
        state, steps := ReadClientFinished, steps + 1;
        return Ok;
      }
      if t.msg.None? { return NeedMessage; }
      if t.msg.value != ChannelId || !t.ok { return Error; }
      trace := trace + [Got(ChannelId)];
      state, steps := ReadClientFinished, steps + 1;
      return Ok;
    }

    method DoReadClientFinished(t: Turn) returns (ret: Wait)
      requires FieldsOk() && state == ReadClientFinished
      modifies this`state, this`trace, this`steps
      ensures (ret != Error ==> FieldsOk()) && Stepped(c, env, old(Now(Ok)), Now(ret))
      ensures ret == WaitAfter(old(state)) <==> Succeeds(c, env, old(state), t)
    {
      AtReadClientFinished(c, env);
      hide Level, Next, Emits, WaitAfter, Refused, MayWait;
      if t.msg.None? { return NeedMessage; }
      if t.msg.value != Finished { return Error; }
      if !t.ok { return Error; }
      trace := trace + [Got(Finished), FinishedChecked];
      state, steps := if env.resumed then FinishServerHandshake else SendServerFinished, steps + 1;
      if !env.resumed && channelIdValid {
        if !t.okAgain { return Error; }
      }
      return Ok;
    }

    method DoSendServerFinished(t: Turn) returns (ret: Wait)
      requires FieldsOk() && state == SendServerFinished
      modifies this`state, this`trace, this`steps
      ensures (ret != Error ==> FieldsOk()) && Stepped(c, env, old(Now(Ok)), Now(ret))
      ensures ret == WaitAfter(old(state)) <==> Succeeds(c, env, old(state), t)
    {
      if !t.ok { return Error; }
      ghost var ticket := if env.ticket then [Sent(NewSessionTicket)] else [];
      ghost var events := ticket + [SentChangeCipherSpec, WriteKeys, Sent(Finished)];
      assert events == Emits(c, env, SendServerFinished);
      trace := trace + events;
      state, steps := if env.resumed then ReadChangeCipherSpec else FinishServerHandshake, steps + 1;
      return Flush;
    }

    method DoFinishServerHandshake(t: Turn) returns (ret: Wait)
      requires FieldsOk() && state == FinishServerHandshake
      modifies this`state, this`trace, this`steps
      ensures (ret != Error ==> FieldsOk()) && Stepped(c, env, old(Now(Ok)), Now(ret))
      ensures ret == WaitAfter(old(state)) <==> Succeeds(c, env, old(state), t)
    {
      state, steps := Done, steps + 1;
      return Ok;
    }

    /** ssl_server_handshake: step after step, as long as they succeed; world(i, s) is what turn number i
        meets in state s. If every turn meets what it needs, the loop ends at a flush, at ChangeCipherSpec, or
        at the end. */
    method ServerHandshakeLoop(world: (nat, State) -> Turn, first: nat) returns (ret: Wait, turn: nat)
      requires Valid() && wait == Ok
      modifies this
      ensures Valid() && old(run) <= run && old(trace) <= trace && wait == ret && (ret == Ok ==> state == Done)
      ensures Willing(world) ==> ret == Ok || Driven(ret)
      ensures Willing(world) && ret != Ok ==> Rank(env, state) < old(Rank(env, state))
    {
      hide ServerHandshake.Valid, Willing;
      ret, turn := Ok, first;
      while state != Done
        invariant Valid() && old(run) <= run && old(trace) <= trace && wait == Ok && ret == Ok
        invariant Rank(env, state) <= old(Rank(env, state))
        decreases Rank(env, state)
      {
        if Willing(world) { TurnSucceeds(world, turn, state); }
        ret := OneTurn(world(turn, state));
        turn := turn + 1;
        if ret != Ok { return; }
      }
    }

    /** Every turn meets what its step needs. */
    ghost predicate Willing(world: (nat, State) -> Turn) {
      forall i, s :: Succeeds(c, env, s, world(i, s))
    }

    /** What the driver does something about and then goes on. */
    predicate Driven(w: Wait) {
      w == Flush || w == NeedMessage || w == NeedChangeCipherSpec
    }

    lemma {:induction false} TurnSucceeds(world: (nat, State) -> Turn, i: nat, s: State)
      requires Willing(world)
      ensures Succeeds(c, env, s, world(i, s)) && (WaitAfter(s) == Ok || Driven(WaitAfter(s)))
    {
    }

    /** One turn of it. */
    method OneTurn(t: Turn) returns (ret: Wait)
      requires Valid() && wait == Ok && state != Done
      modifies this
      ensures Valid() && wait == ret && run == old(run) + [Now(ret)] && old(trace) <= trace
      ensures ret == WaitAfter(old(state)) <==> Succeeds(c, env, old(state), t)
      ensures ret == Ok || ret == WaitAfter(old(state)) ==> Rank(env, state) < old(Rank(env, state))
    {
      ghost var before := Now(Ok);
      hide Rank, IsRun, WaitAfter, FieldsOk, Succeeds, Stepped;
      ret := DoStep(t);
      TurnDone(c, env, run, before, Now(ret));
      run := run + [Now(ret)];
      wait := ret;
    }

    /** The switch in ssl_server_handshake. */
    method DoStep(t: Turn) returns (ret: Wait)
      requires FieldsOk() && state != Done
      modifies this`state, this`trace, this`steps, this`certRequest, this`serverParams,
               this`channelIdValid, this`certs, this`peerPubkey
      ensures (ret != Error ==> FieldsOk()) && Stepped(c, env, old(Now(Ok)), Now(ret))
      ensures ret == WaitAfter(old(state)) <==> Succeeds(c, env, old(state), t)
    {
      hide FieldsOk;
      match state
      case StartAccept => ret := DoStartAccept(t);
      case ReadClientHello => ret := DoReadClientHello(t);
      case SelectCertificate => ret := DoSelectCertificate(t);
      case Tls13 => ret := DoTls13(t);
      case SelectParameters => ret := DoSelectParameters(t);
      case SendServerHello => ret := DoSendServerHello(t);
      case SendServerCertificate => ret := DoSendServerCertificate(t);
      case SendServerKeyExchange => ret := DoSendServerKeyExchange(t);
      case SendServerHelloDone => ret := DoSendServerHelloDone(t);
      case ReadClientCertificate => ret := DoReadClientCertificate(t);
      case VerifyClientCertificate => ret := DoVerifyClientCertificate(t);
      case ReadClientKeyExchange => ret := DoReadClientKeyExchange(t);
      case ReadClientCertificateVerify => ret := DoReadClientCertificateVerify(t);
      case ReadChangeCipherSpec => ret := DoReadChangeCipherSpec(t);
      case ProcessChangeCipherSpec => ret := DoProcessChangeCipherSpec(t);
      case ReadNextProto => ret := DoReadNextProto(t);
      case ReadChannelId => ret := DoReadChannelId(t);
      case ReadClientFinished => ret := DoReadClientFinished(t);
      case SendServerFinished => ret := DoSendServerFinished(t);
      case FinishServerHandshake => ret := DoFinishServerHandshake(t);
    }

    /** ssl_run_handshake: what the handshake waits for is dealt with, and then it goes on. `records`
        is how often the transport delivers or takes something before it blocks. A result of 1 means
        that the handshake is completed; then, up to TLS 1.2, exactly what a completed handshake does
        has been done. An error is never left. If every turn meets what it needs and the transport does not
        block, the handshake is completed. */
    method RunHandshake(records: nat, world: (nat, State) -> Turn, polls: nat -> Poll) returns (result: int)
      requires Valid()
      modifies this
      ensures Valid() && old(run) <= run && old(trace) <= trace && result <= 1
      ensures result == 1 ==> state == Done && wait == Ok && (!env.tls13 ==> trace == Completed(c, env))
      ensures old(wait) == Error ==> result == -1 && wait == Error && run == old(run)
      ensures Willing(world) && NeverBlocks(polls) && records > old(Rank(env, state)) && old(CanGoOn()) ==> result == 1
    {
      hide ServerHandshake.Valid, Completed, Willing, NeverBlocks;
      ghost var smooth := Willing(world) && NeverBlocks(polls) && records > Rank(env, state) && CanGoOn();
      var left: nat, turn: nat, poll: nat := records, 0, 0;
      while true
        invariant Valid() && old(run) <= run && old(trace) <= trace
        invariant old(wait) == Error ==> wait == Error && run == old(run)
        invariant smooth ==> left > Rank(env, state) && CanGoOn()
        decreases left, if wait == Ok then 1 else 0
      {
        if wait == Error { return -1; }
        if wait == Flush || wait == NeedMessage || wait == NeedChangeCipherSpec {
          if smooth { PollSucceeds(polls, poll); }
          var p := polls(poll);
          poll := poll + 1;
          if left == 0 || p.bio <= 0 { return if p.bio <= 0 then p.bio else -1; }
          left := left - 1;
          if p.retry && wait != Flush { continue; }
          Resolve();
        } else if wait != Ok {
          Resolve();
          return -1;
        }
        var ret;
        ret, turn := ServerHandshakeLoop(world, turn);
        if ret == Error { return -1; }
        if ret == Ok {
          if !env.tls13 { CompletedTrace(); }
          return 1;
        }
      }
    }

    predicate CanGoOn()
      reads this`wait
    {
      wait == Ok || Driven(wait)
    }

    ghost predicate NeverBlocks(polls: nat -> Poll) {
      forall i :: polls(i).bio > 0 && !polls(i).retry
    }

    lemma {:induction false} PollSucceeds(polls: nat -> Poll, i: nat)
      requires NeverBlocks(polls)
      ensures polls(i).bio > 0 && !polls(i).retry
    {
    }

    lemma {:induction false} CompletedTrace()
      requires Valid() && state == Done && wait == Ok && !env.tls13
      ensures trace == Completed(c, env)
    {
      CompletedRun(c, env, run);
    }

    /** What the handshake waited for is there. */
    method Resolve()
      requires Valid() && wait != Ok && wait != Error
      modifies this`wait, this`trace, this`run
      ensures Valid() && wait == Ok && state == old(state)
      ensures trace == old(trace) + if old(wait) == NeedChangeCipherSpec then [GotChangeCipherSpec] else []
      ensures run == old(run) + [Now(Ok)]
    {
      hide FieldsOk, IsRun;
      if wait == NeedChangeCipherSpec {
        trace := trace + [GotChangeCipherSpec];
      }
      wait := Ok;
      RunMore(c, env, run, Now(Ok));
      run := run + [Now(Ok)];
    }
  }

  /** A step adds to the run and to what has happened, and brings the end nearer if it succeeds. */
  lemma {:induction false} TurnDone(c: Config, e: Env, run: seq<Handshake>, h: Handshake, h': Handshake)
    requires IsRun(c, e, run) && run[|run| - 1] == h && h.wait == Ok && h.state != Done && Stepped(c, e, h, h')
    ensures IsRun(c, e, run + [h']) && h.trace <= h'.trace
    ensures h'.wait == Ok || h'.wait == WaitAfter(h.state) ==> Rank(e, h'.state) < Rank(e, h.state)
  {
    RankDrops(e, h.state);
    RunMore(c, e, run, h');
    StepKeepsTrace(c, e, h, h');
    hide Rank, IsRun, Next, Emits, Refused;
  }

  // What the model says of the steps with the most cases.

  lemma {:induction false} AtReadClientFinished(c: Config, e: Env)
    ensures Level(ReadClientFinished) == 16 && Level(SendServerFinished) == 17 && Level(FinishServerHandshake) == 18
    ensures Next(e, ReadClientFinished) == if e.resumed then FinishServerHandshake else SendServerFinished
    ensures Emits(c, e, ReadClientFinished) == [Got(Finished), FinishedChecked] && WaitAfter(ReadClientFinished) == Ok
    ensures MayWait(c, e, ReadClientFinished, NeedMessage) && !Refused(c, e, ReadClientFinished)
  {
  }

  lemma {:induction false} AtReadClientKeyExchange(c: Config, e: Env)
    ensures Level(ReadClientKeyExchange) == 10 && Level(ReadClientCertificateVerify) == 11
    ensures Next(e, ReadClientKeyExchange) == ReadClientCertificateVerify && WaitAfter(ReadClientKeyExchange) == Ok
    ensures Emits(c, e, ReadClientKeyExchange) == [Got(ClientKeyExchange)] && !Refused(c, e, ReadClientKeyExchange)
    ensures MayWait(c, e, ReadClientKeyExchange, NeedMessage) && MayWait(c, e, ReadClientKeyExchange, PrivateKeyOperation)
  {
  }

  lemma {:induction false} AtSendServerHello(c: Config, e: Env)
    ensures Level(SendServerHello) == 4 && Level(SendServerCertificate) == 5 && Level(SendServerFinished) == 17
    ensures Next(e, SendServerHello) == if e.resumed then SendServerFinished else SendServerCertificate
    ensures Emits(c, e, SendServerHello) == [Sent(ServerHello)] && WaitAfter(SendServerHello) == Ok && !Refused(c, e, SendServerHello)
  {
  }

  lemma {:induction false} AtSendServerCertificate(c: Config, e: Env)
    ensures Level(SendServerCertificate) == 5 && Level(SendServerKeyExchange) == 6
    ensures Next(e, SendServerCertificate) == SendServerKeyExchange && WaitAfter(SendServerCertificate) == Ok
    ensures Emits(c, e, SendServerCertificate) ==
            if !e.certificateAuth then []
            else if e.certificateStatus then [Sent(Certificate), Sent(CertificateStatus)]
            else [Sent(Certificate)]
    ensures !Refused(c, e, SendServerCertificate)
  {
  }

  lemma {:induction false} AtReadClientCertificate(c: Config, e: Env)
    ensures Level(ReadClientCertificate) == 8 && Level(VerifyClientCertificate) == 9
    ensures Next(e, ReadClientCertificate) == VerifyClientCertificate && WaitAfter(ReadClientCertificate) == Ok
    ensures Emits(c, e, ReadClientCertificate) ==
            if CertRequest(c, e) && e.certificateSent then [Got(Certificate), Chain(e.chain)] else []
    ensures MayWait(c, e, ReadClientCertificate, NeedMessage) <==> CertRequest(c, e)
    ensures Refused(c, e, ReadClientCertificate) <==>
              && CertRequest(c, e)
              && if e.certificateSent then e.chain == 0 && (e.ssl3 || c.failIfNoPeerCert) else !e.ssl3 || c.failIfNoPeerCert
  {
  }

  lemma {:induction false} AtReadChannelId(c: Config, e: Env)
    ensures Level(ReadChannelId) == 15 && Level(ReadClientFinished) == 16
    ensures Next(e, ReadChannelId) == ReadClientFinished && WaitAfter(ReadChannelId) == Ok && !Refused(c, e, ReadChannelId)
    ensures Emits(c, e, ReadChannelId) == if ChannelIdValid(e) then [Got(ChannelId)] else []
    ensures MayWait(c, e, ReadChannelId, NeedMessage) <==> ChannelIdValid(e)
  {
  }

  lemma {:induction false} AtReadNextProto(c: Config, e: Env)
    ensures Level(ReadNextProto) == 14 && Level(ReadChannelId) == 15
    ensures Next(e, ReadNextProto) == ReadChannelId && WaitAfter(ReadNextProto) == Ok && !Refused(c, e, ReadNextProto)
    ensures Emits(c, e, ReadNextProto) == if e.nextProto then [Got(NextProto)] else []
    ensures MayWait(c, e, ReadNextProto, NeedMessage) <==> e.nextProto
  {
  }

  lemma {:induction false} AtSendServerKeyExchange(c: Config, e: Env)
    ensures Level(SendServerKeyExchange) == 6 && Level(SendServerHelloDone) == 7
    ensures Next(e, SendServerKeyExchange) == SendServerHelloDone && WaitAfter(SendServerKeyExchange) == Ok
    ensures Emits(c, e, SendServerKeyExchange) == if e.keyExchange then [Sent(ServerKeyExchange)] else []
    ensures !Refused(c, e, SendServerKeyExchange)
    ensures MayWait(c, e, SendServerKeyExchange, PrivateKeyOperation) <==> e.keyExchange && e.certificateAuth
  {
  }
}
