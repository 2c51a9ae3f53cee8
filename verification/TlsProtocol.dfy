/** The server's handshake up to TLS 1.2 as a state machine on values (section 7.3 of RFC 5246): which
    state follows which, what each step receives, checks, installs and sends, and what every run does
    as a whole. TlsHandshake has the code, which takes exactly these steps. */
module TlsProtocol {

  datatype State =
    | StartAccept | ReadClientHello | SelectCertificate | Tls13 | SelectParameters
    | SendServerHello | SendServerCertificate | SendServerKeyExchange | SendServerHelloDone
    | ReadClientCertificate | VerifyClientCertificate | ReadClientKeyExchange | ReadClientCertificateVerify
    | ReadChangeCipherSpec | ProcessChangeCipherSpec | ReadNextProto | ReadChannelId | ReadClientFinished
    | SendServerFinished | FinishServerHandshake | Done

  /** ssl_hs_wait_t, as far as a server up to TLS 1.2 meets it. */
  datatype Wait =
    | Ok | Error | NeedMessage | NeedChangeCipherSpec | Flush | Handoff | CertificateSelectionPending
    | X509Lookup | PrivateKeyOperation | PendingSession | PendingTicket | CertificateVerify

  datatype Message =
    | ClientHello | ServerHello | Certificate | CertificateStatus | ServerKeyExchange | CertificateRequest
    | ServerHelloDone | ClientKeyExchange | CertificateVerifyMessage | NextProto | ChannelId | Finished
    | NewSessionTicket

  /** What happens in a handshake. A message is Got when the step that reads it has accepted it. */
  datatype Event =
    | Got(message: Message) | Sent(message: Message) | Chain(length: nat) | ChainVerified | SignatureVerified
    | GotChangeCipherSpec | ReadKeys | FinishedChecked | SentChangeCipherSpec | WriteKeys | Tls13Handshake

  /** The verify_mode of the connection. */
  datatype Config = Config(verifyPeer: bool, failIfNoPeerCert: bool, peerIfNoObc: bool)

  /** What the peer, the callbacks and the configuration turn out to be. Each field is looked at by
      one step of the handshake; runs are considered for all of them. */
  datatype Env = Env(
    tls13: bool, ssl3: bool, nextProto: bool, channelIdOffered: bool,   // the ClientHello
    certificateAuth: bool, ecdhe: bool,                                 // the cipher suite
    resumed: bool, sessionHasHash: bool, ticket: bool,                  // the session
    certificateStatus: bool, keyExchange: bool,
    certificateSent: bool, chain: nat)                                  // the client's certificates

  /** Whether the server asks for a certificate. */
  predicate CertRequest(c: Config, e: Env) {
    !e.resumed && c.verifyPeer && !(c.peerIfNoObc && e.channelIdOffered) && e.certificateAuth
  }

  /** Whether Channel ID survives the ServerHello. */
  predicate ChannelIdValid(e: Env) {
    e.channelIdOffered && e.ecdhe && (e.resumed ==> e.sessionHasHash)
  }

  /** The number of certificates the client has sent. */
  function Certs(c: Config, e: Env): nat {
    if CertRequest(c, e) && e.certificateSent then e.chain else 0
  }

  /** The state after this one, once its step succeeds. */
  function Next(e: Env, s: State): State {
    match s
    case StartAccept => ReadClientHello
    case ReadClientHello => SelectCertificate
    case SelectCertificate => if e.tls13 then Tls13 else SelectParameters
    case Tls13 => FinishServerHandshake
    case SelectParameters => SendServerHello
    case SendServerHello => if e.resumed then SendServerFinished else SendServerCertificate
    case SendServerCertificate => SendServerKeyExchange
    case SendServerKeyExchange => SendServerHelloDone
    case SendServerHelloDone => ReadClientCertificate
    case ReadClientCertificate => VerifyClientCertificate
    case VerifyClientCertificate => ReadClientKeyExchange
    case ReadClientKeyExchange => ReadClientCertificateVerify
    case ReadClientCertificateVerify => ReadChangeCipherSpec
    case ReadChangeCipherSpec => ProcessChangeCipherSpec
    case ProcessChangeCipherSpec => ReadNextProto
    case ReadNextProto => ReadChannelId
    case ReadChannelId => ReadClientFinished
    case ReadClientFinished => if e.resumed then FinishServerHandshake else SendServerFinished
    case SendServerFinished => if e.resumed then ReadChangeCipherSpec else FinishServerHandshake
    case FinishServerHandshake => Done
    case Done => Done
  }

  /** What the step of this state does when it succeeds. */
  function Emits(c: Config, e: Env, s: State): seq<Event> {
    match s
    case Tls13 => [Tls13Handshake]
    case SelectParameters => [Got(ClientHello)]
    case SendServerHello => [Sent(ServerHello)]
    case SendServerCertificate =>
      if !e.certificateAuth then []
      else if e.certificateStatus then [Sent(Certificate), Sent(CertificateStatus)]
      else [Sent(Certificate)]
    case SendServerKeyExchange => if e.keyExchange then [Sent(ServerKeyExchange)] else []
    case SendServerHelloDone =>
      if CertRequest(c, e) then [Sent(CertificateRequest), Sent(ServerHelloDone)] else [Sent(ServerHelloDone)]
    case ReadClientCertificate => if CertRequest(c, e) && e.certificateSent then [Got(Certificate), Chain(e.chain)] else []
    case VerifyClientCertificate => if Certs(c, e) > 0 then [ChainVerified] else []
    case ReadClientKeyExchange => [Got(ClientKeyExchange)]
    case ReadClientCertificateVerify => if Certs(c, e) > 0 then [Got(CertificateVerifyMessage), SignatureVerified] else []
    case ReadChangeCipherSpec => [GotChangeCipherSpec]
    case ProcessChangeCipherSpec => [ReadKeys]
    case ReadNextProto => if e.nextProto then [Got(NextProto)] else []
    case ReadChannelId => if ChannelIdValid(e) then [Got(ChannelId)] else []
    case ReadClientFinished => [Got(Finished), FinishedChecked]
    case SendServerFinished =>
      if e.ticket then [Sent(NewSessionTicket), SentChangeCipherSpec, WriteKeys, Sent(Finished)]
      else [SentChangeCipherSpec, WriteKeys, Sent(Finished)]
    case _ => []
  }

  /** What the driver has to do after a successful step. */
  function WaitAfter(s: State): Wait {
    match s
    case SendServerHelloDone => Flush
    case SendServerFinished => Flush
    case ReadChangeCipherSpec => NeedChangeCipherSpec
    case _ => Ok
  }

  /** The client answers a certificate request in a way the server does not accept. */
  predicate Refused(c: Config, e: Env, s: State) {
    s == ReadClientCertificate && CertRequest(c, e)
    && if e.certificateSent then e.chain == 0 && (e.ssl3 || c.failIfNoPeerCert) else !e.ssl3 || c.failIfNoPeerCert
  }

  /** The waits with which a step may ask to be run again. */
  predicate MayWait(c: Config, e: Env, s: State, w: Wait) {
    match s
    case ReadClientHello => w == NeedMessage || w == Handoff || w == CertificateSelectionPending
    case SelectCertificate => w == NeedMessage || w == X509Lookup
    case Tls13 => w != Ok && w != Error && w != NeedChangeCipherSpec
    case SelectParameters => w == NeedMessage || w == PendingSession || w == PendingTicket
    case SendServerKeyExchange => e.keyExchange && e.certificateAuth && w == PrivateKeyOperation
    case ReadClientCertificate => CertRequest(c, e) && w == NeedMessage
    case VerifyClientCertificate => Certs(c, e) > 0 && w == CertificateVerify
    case ReadClientKeyExchange => w == NeedMessage || w == PrivateKeyOperation
    case ReadClientCertificateVerify => Certs(c, e) > 0 && w == NeedMessage
    case ReadNextProto => e.nextProto && w == NeedMessage
    case ReadChannelId => ChannelIdValid(e) && w == NeedMessage
    case ReadClientFinished => w == NeedMessage
    case _ => false
  }

  /** A handshake in progress: where it is, what it waits for, what has happened, and how many steps
      have succeeded. */
  datatype Handshake = Handshake(state: State, wait: Wait, trace: seq<Event>, steps: nat)

  const Start: Handshake := Handshake(StartAccept, Ok, [], 0)

  /** One step of the machine: success, a retry that changes nothing, or an error. An error adds nothing
      to what has happened, except that it may come after the client's Finished has been checked. */
  ghost predicate Stepped(c: Config, e: Env, h: Handshake, h': Handshake) {
    || (h'.wait == Error
        && (h'.trace == h.trace || (h.state == ReadClientFinished && h'.trace == h.trace + Emits(c, e, h.state))))
    || (MayWait(c, e, h.state, h'.wait) && h' == h.(wait := h'.wait))
    || (!Refused(c, e, h.state)
        && h'.state == Next(e, h.state) && h'.wait == WaitAfter(h.state) && h'.steps == h.steps + 1
        && h'.trace == h.trace + if h.state == ReadChangeCipherSpec then [] else Emits(c, e, h.state))
  }

  lemma {:induction false} StepKeepsTrace(c: Config, e: Env, h: Handshake, h': Handshake)
    requires Stepped(c, e, h, h')
    ensures h.trace <= h'.trace
  {
    hide Emits, Next, WaitAfter, MayWait, Refused;
  }

  /** The driver has done what the handshake waited for. */
  ghost predicate Resolved(h: Handshake, h': Handshake) {
    h' == h.(wait := Ok, trace := h.trace + if h.wait == NeedChangeCipherSpec then [GotChangeCipherSpec] else [])
  }

  ghost predicate Moved(c: Config, e: Env, h: Handshake, h': Handshake) {
    if h.wait == Ok then h.state != Done && Stepped(c, e, h, h')
    else h.wait != Error && Resolved(h, h')
  }

  /** A run: an error is never left. */
  ghost predicate IsRun(c: Config, e: Env, run: seq<Handshake>) {
    run != [] && run[0] == Start && forall i :: 0 <= i < |run| - 1 ==> Moved(c, e, run[i], run[i + 1])
  }

  // ---------------------------------------------------------------- what has happened after n steps

  function StateAfter(e: Env, n: nat): State {
    if n == 0 then StartAccept else Next(e, StateAfter(e, n - 1))
  }

  function TraceAfter(c: Config, e: Env, n: nat): seq<Event> {
    if n == 0 then [] else TraceAfter(c, e, n - 1) + Emits(c, e, StateAfter(e, n - 1))
  }

  ghost predicate NothingRefused(c: Config, e: Env, n: nat) {
    forall k: nat :: k < n ==> !Refused(c, e, StateAfter(e, k))
  }

  /** Where a handshake is says everything about its past. */
  ghost predicate OnTrack(c: Config, e: Env, h: Handshake) {
    h.wait == Error ||
    (h.state == StateAfter(e, h.steps) && NothingRefused(c, e, h.steps)
     && TraceAfter(c, e, h.steps) == h.trace + if h.wait == NeedChangeCipherSpec then [GotChangeCipherSpec] else [])
  }

  lemma {:induction false} WaitsForWhatItEmits(c: Config, e: Env, s: State)
    ensures WaitAfter(s) == NeedChangeCipherSpec <==> s == ReadChangeCipherSpec
    ensures Emits(c, e, ReadChangeCipherSpec) == [GotChangeCipherSpec] && WaitAfter(s) != Error
  {
  }

  lemma {:induction false} StaysOnTrack(c: Config, e: Env, h: Handshake, h': Handshake)
    requires OnTrack(c, e, h) && Moved(c, e, h, h')
    ensures OnTrack(c, e, h')
  {
    if h.wait == Ok && h'.wait != Error && h'.steps == h.steps + 1 {
      OneStep(c, e, h.steps);
      WaitsForWhatItEmits(c, e, h.state);
    }
    hide StateAfter, TraceAfter, Next, Emits, WaitAfter, Refused;
  }

  lemma {:induction false} RunOnTrack(c: Config, e: Env, run: seq<Handshake>)
    requires IsRun(c, e, run)
    ensures OnTrack(c, e, run[|run| - 1])
    decreases |run|
  {
    if |run| > 1 {
      var front := run[..|run| - 1];
      RunOnTrack(c, e, front);
      StaysOnTrack(c, e, front[|front| - 1], run[|run| - 1]);
    }
  }

  // ---------------------------------------------------------------- termination

  /** The steps that are left. */
  function Rank(e: Env, s: State): nat {
    match s
    case StartAccept => 20
    case ReadClientHello => 19
    case SelectCertificate => 18
    case Tls13 => 3
    case SelectParameters => 17
    case SendServerHello => 16
    case SendServerCertificate => 15
    case SendServerKeyExchange => 14
    case SendServerHelloDone => 13
    case ReadClientCertificate => 12
    case VerifyClientCertificate => 11
    case ReadClientKeyExchange => 10
    case ReadClientCertificateVerify => 9
    case ReadChangeCipherSpec => 8
    case ProcessChangeCipherSpec => 7
    case ReadNextProto => 6
    case ReadChannelId => 5
    case ReadClientFinished => 4
    case SendServerFinished => if e.resumed then 9 else 3
    case FinishServerHandshake => 2
    case Done => 0
  }

  /** The rank depends on resumption, and every successful step lowers it. */
  lemma {:induction false} RankDrops(e: Env, s: State)
    requires s != Done
    ensures Rank(e, Next(e, s)) < Rank(e, s)
  {
  }

  /** So a handshake succeeds in at most twenty steps, and Done is reached only at the end. */
  lemma {:induction false} StepsAreBounded(e: Env, n: nat)
    ensures n + Rank(e, StateAfter(e, n)) <= 20 || StateAfter(e, n) == Done
  {
    if n > 0 {
      var s := StateAfter(e, n - 1);
      StepsAreBounded(e, n - 1);
      if s != Done { RankDrops(e, s); }
      assert StateAfter(e, n) == Next(e, s);
    }
  }

  // ---------------------------------------------------------------- whole runs

  /** The client's certificate, from the request on; what the server has checked of it. */
  function ClientAuthentication(c: Config, e: Env): seq<Event> {
    (if CertRequest(c, e) && e.certificateSent then [Got(Certificate), Chain(e.chain)] else [])
    + (if Certs(c, e) > 0 then [ChainVerified] else [])
    + [Got(ClientKeyExchange)]
    + (if Certs(c, e) > 0 then [Got(CertificateVerifyMessage), SignatureVerified] else [])
  }

  /** The client's last flight, after its key exchange. */
  function ClientFinish(e: Env): seq<Event> {
    [GotChangeCipherSpec, ReadKeys]
    + (if e.nextProto then [Got(NextProto)] else [])
    + (if ChannelIdValid(e) then [Got(ChannelId)] else [])
    + [Got(Finished), FinishedChecked]
  }

  function ServerFinish(e: Env): seq<Event> {
    (if e.ticket then [Sent(NewSessionTicket)] else []) + [SentChangeCipherSpec, WriteKeys, Sent(Finished)]
  }

  /** The server's flight of a full handshake. */
  function ServerFlight(c: Config, e: Env): seq<Event> {
    (if !e.certificateAuth then []
     else if e.certificateStatus then [Sent(Certificate), Sent(CertificateStatus)]
     else [Sent(Certificate)])
    + (if e.keyExchange then [Sent(ServerKeyExchange)] else [])
    + (if CertRequest(c, e) then [Sent(CertificateRequest)] else [])
    + [Sent(ServerHelloDone)]
  }

  /** Everything that happens in a completed handshake: of a full one the client's Finished comes
      first, of a resumption the server's. */
  function Completed(c: Config, e: Env): seq<Event> {
    [Got(ClientHello), Sent(ServerHello)]
    + if e.resumed then ServerFinish(e) + ClientFinish(e)
      else ServerFlight(c, e) + ClientAuthentication(c, e) + ClientFinish(e) + ServerFinish(e)
  }

  /** One more step. */
  lemma {:induction false} OneStep(c: Config, e: Env, n: nat)
    ensures StateAfter(e, n + 1) == Next(e, StateAfter(e, n))
    ensures TraceAfter(c, e, n + 1) == TraceAfter(c, e, n) + Emits(c, e, StateAfter(e, n))
  {
  }

  lemma {:induction false} Opening(c: Config, e: Env)
    requires !e.tls13
    ensures StateAfter(e, 4) == SendServerHello && TraceAfter(c, e, 4) == [Got(ClientHello)]
    ensures StateAfter(e, 5) == (if e.resumed then SendServerFinished else SendServerCertificate)
    ensures TraceAfter(c, e, 5) == [Got(ClientHello), Sent(ServerHello)]
  {
    OneStep(c, e, 0);
    OneStep(c, e, 1);
    OneStep(c, e, 2);
    OneStep(c, e, 3);
    OneStep(c, e, 4);
    hide StateAfter, TraceAfter;
  }

  lemma {:induction false} FlightSent(c: Config, e: Env)
    requires !e.tls13 && !e.resumed
    ensures StateAfter(e, 7) == SendServerHelloDone && StateAfter(e, 8) == ReadClientCertificate
    ensures TraceAfter(c, e, 8) == TraceAfter(c, e, 5) + ServerFlight(c, e)
  {
    hide StateAfter, TraceAfter;
    Opening(c, e);
    OneStep(c, e, 5);
    OneStep(c, e, 6);
    OneStep(c, e, 7);
  }

  lemma {:induction false} ClientAuthenticated(c: Config, e: Env)
    requires !e.tls13 && !e.resumed
    ensures StateAfter(e, 8) == ReadClientCertificate && StateAfter(e, 11) == ReadClientCertificateVerify
    ensures StateAfter(e, 12) == ReadChangeCipherSpec
    ensures TraceAfter(c, e, 12) == TraceAfter(c, e, 8) + ClientAuthentication(c, e)
  {
    hide StateAfter, TraceAfter;
    FlightSent(c, e);
    OneStep(c, e, 8);
    OneStep(c, e, 9);
    OneStep(c, e, 10);
    OneStep(c, e, 11);
  }

  lemma {:induction false} ClientFinished(c: Config, e: Env, n: nat)
    requires StateAfter(e, n) == ReadChangeCipherSpec
    ensures StateAfter(e, n + 5) == Next(e, ReadClientFinished)
    ensures TraceAfter(c, e, n + 5) == TraceAfter(c, e, n) + ClientFinish(e)
  {
    hide StateAfter, TraceAfter;
    OneStep(c, e, n);
    OneStep(c, e, n + 1);
    OneStep(c, e, n + 2);
    OneStep(c, e, n + 3);
    OneStep(c, e, n + 4);
  }

  lemma {:induction false} ServerFinished(c: Config, e: Env, n: nat)
    requires StateAfter(e, n) == SendServerFinished
    ensures StateAfter(e, n + 1) == Next(e, SendServerFinished)
    ensures TraceAfter(c, e, n + 1) == TraceAfter(c, e, n) + ServerFinish(e)
  {
    OneStep(c, e, n);
  }

  lemma {:induction false} DoneStays(c: Config, e: Env, n: nat, m: nat)
    requires n <= m && StateAfter(e, n) == Done
    ensures StateAfter(e, m) == Done && TraceAfter(c, e, m) == TraceAfter(c, e, n)
    decreases m
  {
    if n < m { DoneStays(c, e, n, m - 1); }
  }

  /** The last step of a handshake leaves everything it did. */
  lemma {:induction false} DoneAfter(c: Config, e: Env, last: nat, n: nat)
    requires StateAfter(e, last) == FinishServerHandshake && StateAfter(e, n) == Done
    ensures TraceAfter(c, e, n) == TraceAfter(c, e, last)
  {
    hide StateAfter, TraceAfter;
    OneStep(c, e, last);
    if n <= last { DoneStays(c, e, n, last); }
    DoneStays(c, e, last + 1, n);
  }

  lemma {:induction false} AllSteps(c: Config, e: Env, n: nat)
    requires !e.tls13 && StateAfter(e, n) == Done
    ensures TraceAfter(c, e, n) == Completed(c, e)
  {
    hide StateAfter, TraceAfter, ServerFlight, ClientAuthentication, ClientFinish, ServerFinish;
    Opening(c, e);
    if e.resumed {
      ServerFinished(c, e, 5);
      ClientFinished(c, e, 6);
      DoneAfter(c, e, 11, n);
    } else {
      FlightSent(c, e);
      ClientAuthenticated(c, e);
      ClientFinished(c, e, 12);
      ServerFinished(c, e, 17);
      DoneAfter(c, e, 18, n);
    }
  }

  /** Every run up to TLS 1.2 that reaches Done, whatever retries occurred, did exactly this. */
  lemma {:induction false} CompletedRun(c: Config, e: Env, run: seq<Handshake>)
    requires IsRun(c, e, run) && !e.tls13
    requires run[|run| - 1].state == Done && run[|run| - 1].wait == Ok
    ensures run[|run| - 1].trace == Completed(c, e)
  {
    var h := run[|run| - 1];
    RunOnTrack(c, e, run);
    AllSteps(c, e, h.steps);
  }

  // ---------------------------------------------------------------- completion is possible

  /** The number of steps of a handshake in this environment. */
  function Steps(e: Env): nat {
    if e.tls13 then 5 else if e.resumed then 12 else 19
  }

  lemma {:induction false} LastStep(c: Config, e: Env)
    ensures StateAfter(e, Steps(e) - 1) == FinishServerHandshake && StateAfter(e, Steps(e)) == Done
    ensures e.tls13 ==> forall k: nat :: k < Steps(e) ==> StateAfter(e, k) != ReadClientCertificate
  {
    hide StateAfter, TraceAfter, ClientFinish, ServerFinish, ServerFlight, ClientAuthentication;
    if e.tls13 {
      Tls13Steps(c, e);
    } else {
      Opening(c, e);
      if e.resumed {
        ServerFinished(c, e, 5);
        ClientFinished(c, e, 6);
      } else {
        ClientAuthenticated(c, e);
        ClientFinished(c, e, 12);
        ServerFinished(c, e, 17);
      }
      OneStep(c, e, Steps(e) - 1);
    }
  }

  lemma {:induction false} Tls13Steps(c: Config, e: Env)
    requires e.tls13
    ensures StateAfter(e, 4) == FinishServerHandshake && StateAfter(e, 5) == Done
    ensures forall k: nat :: k < 5 ==> StateAfter(e, k) != ReadClientCertificate
  {
    FirstState(e);
    hide StateAfter, TraceAfter, Emits;
    OneStep(c, e, 0);
    OneStep(c, e, 1);
    OneStep(c, e, 2);
    OneStep(c, e, 3);
    OneStep(c, e, 4);
    forall k: nat | k < 5 ensures StateAfter(e, k) != ReadClientCertificate {
      assert k == 0 || k == 1 || k == 2 || k == 3 || k == 4;
    }
  }

  lemma {:induction false} FirstState(e: Env)
    ensures StateAfter(e, 0) == StartAccept
  {
  }

  /** Done is reached by the last step and not before. */
  lemma {:induction false} DoneExactlyAtLast(c: Config, e: Env, n: nat)
    ensures StateAfter(e, n) == Done <==> n >= Steps(e)
  {
    LastStep(c, e);
    hide StateAfter, TraceAfter;
    if n >= Steps(e) {
      DoneStays(c, e, Steps(e), n);
    } else if StateAfter(e, n) == Done {
      DoneStays(c, e, n, Steps(e) - 1);
    }
  }

  /** Where a handshake is after n steps, with nothing to wait for. */
  function After(c: Config, e: Env, n: nat): Handshake {
    Handshake(StateAfter(e, n), Ok, TraceAfter(c, e, n), n)
  }

  ghost predicate Ends(c: Config, e: Env, run: seq<Handshake>, h: Handshake) {
    IsRun(c, e, run) && run[|run| - 1] == h
  }

  lemma {:induction false} RunMore(c: Config, e: Env, run: seq<Handshake>, h: Handshake)
    requires IsRun(c, e, run) && Moved(c, e, run[|run| - 1], h)
    ensures Ends(c, e, run + [h], h)
  {
    hide Moved;
    var more := run + [h];
    forall i | 0 <= i < |more| - 1 ensures Moved(c, e, more[i], more[i + 1]) {
      if i < |run| - 1 { assert Moved(c, e, run[i], run[i + 1]); }
    }
  }

  /** As long as nothing is refused, there is a run of every number of steps. */
  lemma {:induction false} RunOfSteps(c: Config, e: Env, n: nat)
    requires NothingRefused(c, e, n) && n <= Steps(e)
    ensures exists run :: Ends(c, e, run, After(c, e, n))
  {
    if n == 0 {
      assert Ends(c, e, [Start], After(c, e, 0));
    } else {
      assert NothingRefused(c, e, n - 1) && !Refused(c, e, StateAfter(e, n - 1));
      hide NothingRefused, Refused, Ends, StateAfter, TraceAfter;
      RunOfSteps(c, e, n - 1);
      var run :| Ends(c, e, run, After(c, e, n - 1));
      DoneExactlyAtLast(c, e, n - 1);
      StepTo(c, e, n, run);
    }
  }

  /** One step, and what the driver does after it. */
  lemma {:induction false} StepTo(c: Config, e: Env, n: nat, run: seq<Handshake>)
    requires n > 0 && Ends(c, e, run, After(c, e, n - 1))
    requires !Refused(c, e, StateAfter(e, n - 1)) && StateAfter(e, n - 1) != Done
    ensures exists more :: Ends(c, e, more, After(c, e, n))
  {
    StepFrom(c, e, n);
    var h := Stepping(c, e, n);
    hide StateAfter, TraceAfter, IsRun, Moved, Stepping;
    RunMore(c, e, run, h);
    if h != After(c, e, n) {
      RunMore(c, e, run + [h], After(c, e, n));
    }
  }

  /** Right after the n-th step. */
  function Stepping(c: Config, e: Env, n: nat): Handshake
    requires n > 0
  {
    var s := StateAfter(e, n - 1);
    Handshake(Next(e, s), WaitAfter(s),
              TraceAfter(c, e, n - 1) + (if s == ReadChangeCipherSpec then [] else Emits(c, e, s)), n)
  }

  lemma {:induction false} StepFrom(c: Config, e: Env, n: nat)
    requires n > 0 && !Refused(c, e, StateAfter(e, n - 1)) && StateAfter(e, n - 1) != Done
    ensures Moved(c, e, After(c, e, n - 1), Stepping(c, e, n))
    ensures Stepping(c, e, n) == After(c, e, n) || Moved(c, e, Stepping(c, e, n), After(c, e, n))
  {
    OneStep(c, e, n - 1);
    WaitsForWhatItEmits(c, e, StateAfter(e, n - 1));
    hide StateAfter, TraceAfter, Next, Emits, WaitAfter, Refused, MayWait;
  }

  ghost predicate IsCompletedRun(c: Config, e: Env, run: seq<Handshake>) {
    IsRun(c, e, run) && run[|run| - 1].state == Done && run[|run| - 1].wait == Ok
  }

  /** A handshake can be completed exactly if the client does not refuse the certificate that the
      server insists on. */
  lemma {:induction false} CompletedExactlyUnlessRefused(c: Config, e: Env)
    ensures (exists run: seq<Handshake> :: IsCompletedRun(c, e, run)) <==> e.tls13 || !Refused(c, e, ReadClientCertificate)
    ensures !Refused(c, e, ReadClientCertificate) <==>
              || e.resumed || !c.verifyPeer || !e.certificateAuth || (c.peerIfNoObc && e.channelIdOffered)
              || (e.certificateSent && e.chain > 0)
              || (!c.failIfNoPeerCert && e.certificateSent != e.ssl3)
  {
    LastStep(c, e);
    if e.tls13 || !Refused(c, e, ReadClientCertificate) {
      assert NothingRefused(c, e, Steps(e));
      RunOfSteps(c, e, Steps(e));
      var run: seq<Handshake> :| Ends(c, e, run, After(c, e, Steps(e)));
      assert IsCompletedRun(c, e, run);
    } else {
      forall run: seq<Handshake> | IsCompletedRun(c, e, run) ensures false {
        var h := run[|run| - 1];
        RunOnTrack(c, e, run);
        DoneExactlyAtLast(c, e, h.steps);
        ClientAuthenticated(c, e);
      }
    }
  }

  // ---------------------------------------------------------------- both Finished messages

  /** The event happens, once. */
  ghost predicate Once(trace: seq<Event>, x: Event) {
    exists p, s :: trace == p + [x] + s && x !in p && x !in s
  }

  /** Both happen, and the first one strictly before the second. */
  ghost predicate Precedes(trace: seq<Event>, x: Event, y: Event) {
    exists p, s :: trace == p + s && x in p && x !in s && y in s && y !in p
  }

  lemma {:induction false} OnceBy(trace: seq<Event>, p: seq<Event>, x: Event, s: seq<Event>)
    requires trace == p + [x] + s && x !in p && x !in s
    ensures Once(trace, x)
  {
  }

  lemma {:induction false} PrecedesBy(trace: seq<Event>, p: seq<Event>, x: Event, y: Event, s: seq<Event>)
    requires trace == p + s && x in p && x !in s && y in s && y !in p
    ensures Precedes(trace, x, y)
  {
  }

  /** The parts of a completed handshake. */
  function BeforeServerFinish(c: Config, e: Env): seq<Event> {
    [Got(ClientHello), Sent(ServerHello)] +
    if e.resumed then [] else ServerFlight(c, e) + ClientAuthentication(c, e) + ClientFinish(e)
  }

  function BeforeClientFinish(c: Config, e: Env): seq<Event> {
    [Got(ClientHello), Sent(ServerHello)] +
    if e.resumed then ServerFinish(e) else ServerFlight(c, e) + ClientAuthentication(c, e)
  }

  lemma {:induction false} Parts(c: Config, e: Env)
    ensures Completed(c, e) == BeforeServerFinish(c, e) + ServerFinish(e) + (if e.resumed then ClientFinish(e) else [])
    ensures Completed(c, e) == BeforeClientFinish(c, e) + ClientFinish(e) + (if e.resumed then [] else ServerFinish(e))
  {
  }

  /** The kinds of events in the parts of a handshake. */
  predicate InServerFlight(x: Event) {
    x.Sent? && x.message != Finished
  }

  predicate InClientAuthentication(x: Event) {
    x.Got? || x.Chain? || x.ChainVerified? || x.SignatureVerified?
  }

  predicate InClientFinish(x: Event) {
    x.GotChangeCipherSpec? || x.ReadKeys? || x.Got? || x.FinishedChecked?
  }

  predicate InServerFinish(x: Event) {
    x.Sent? || x.SentChangeCipherSpec? || x.WriteKeys?
  }

  lemma {:induction false} Kinds(c: Config, e: Env)
    ensures forall x :: x in ServerFlight(c, e) ==> InServerFlight(x)
    ensures forall x :: x in ClientAuthentication(c, e) ==> InClientAuthentication(x)
    ensures forall x :: x in ClientFinish(e) ==> InClientFinish(x)
    ensures forall x :: x in ServerFinish(e) ==> InServerFinish(x)
  {
  }

  /** What the server finishes with occurs nowhere else, and the same for the client. */
  lemma {:induction false} FinishesApart(c: Config, e: Env)
    ensures forall x :: x == WriteKeys || x == Sent(Finished) ==> x !in BeforeServerFinish(c, e) && x !in ClientFinish(e)
    ensures forall x :: x == ReadKeys || x == FinishedChecked ==> x !in BeforeClientFinish(c, e) && x !in ServerFinish(e)
  {
    Kinds(c, e);
    hide ServerFlight, ClientAuthentication, ClientFinish, ServerFinish;
  }

  /** An event after its precondition, each once, in the part of the trace between p and s. */
  lemma {:induction false} KeyThenEvent(trace: seq<Event>, p: seq<Event>, first: seq<Event>, key: Event,
                                        mid: seq<Event>, x: Event, s: seq<Event>)
    requires trace == p + (first + [key] + mid + [x]) + s && key != x
    requires x !in p && x !in first && x !in mid && x !in s && key !in mid && key !in s
    ensures Once(trace, x) && Precedes(trace, key, x)
  {
    hide Once, Precedes;
    OnceBy(trace, p + first + [key] + mid, x, s);
    PrecedesBy(trace, p + first + [key], key, x, mid + [x] + s);
  }

  lemma {:induction false} ServerFinishedOnce(c: Config, e: Env)
    ensures Once(Completed(c, e), Sent(Finished)) && Precedes(Completed(c, e), WriteKeys, Sent(Finished))
  {
    FinishesApart(c, e);
    Parts(c, e);
    var first := (if e.ticket then [Sent(NewSessionTicket)] else []) + [SentChangeCipherSpec];
    assert ServerFinish(e) == first + [WriteKeys] + [] + [Sent(Finished)];
    var s := if e.resumed then ClientFinish(e) else [];
    hide Completed, BeforeServerFinish, ServerFinish, ClientFinish, Once, Precedes;
    KeyThenEvent(Completed(c, e), BeforeServerFinish(c, e), first, WriteKeys, [], Sent(Finished), s);
  }

  lemma {:induction false} ClientFinishedOnce(c: Config, e: Env)
    ensures Once(Completed(c, e), FinishedChecked) && Precedes(Completed(c, e), ReadKeys, FinishedChecked)
  {
    FinishesApart(c, e);
    Parts(c, e);
    var mid := (if e.nextProto then [Got(NextProto)] else []) + (if ChannelIdValid(e) then [Got(ChannelId)] else [])
               + [Got(Finished)];
    assert ReadKeys !in mid && FinishedChecked !in mid;
    assert ClientFinish(e) == [GotChangeCipherSpec] + [ReadKeys] + mid + [FinishedChecked];
    var s := if e.resumed then [] else ServerFinish(e);
    hide Completed, BeforeClientFinish, ServerFinish, ClientFinish, Once, Precedes;
    KeyThenEvent(Completed(c, e), BeforeClientFinish(c, e), [GotChangeCipherSpec], ReadKeys, mid, FinishedChecked, s);
  }

  lemma {:induction false} FinishedInOrder(c: Config, e: Env)
    ensures if e.resumed then Precedes(Completed(c, e), Sent(Finished), FinishedChecked)
            else Precedes(Completed(c, e), FinishedChecked, Sent(Finished))
  {
    FinishesApart(c, e);
    Parts(c, e);
    assert Sent(Finished) in ServerFinish(e) && FinishedChecked in ClientFinish(e);
    hide Completed, ServerFinish, ClientFinish, Precedes;
    if e.resumed {
      PrecedesBy(Completed(c, e), BeforeServerFinish(c, e) + ServerFinish(e),
                 Sent(Finished), FinishedChecked, ClientFinish(e));
    } else {
      PrecedesBy(Completed(c, e), BeforeClientFinish(c, e) + ClientFinish(e),
                 FinishedChecked, Sent(Finished), ServerFinish(e));
    }
  }

  /** In every completed handshake the client's Finished is checked exactly once, after the read keys
      have been installed, and the server's Finished is sent exactly once, after the write keys have
      been installed. In a full handshake the client's comes first, in a resumption the server's. */
  lemma {:induction false} FinishedOnceAndInOrder(c: Config, e: Env, run: seq<Handshake>)
    requires IsRun(c, e, run) && !e.tls13
    requires run[|run| - 1].state == Done && run[|run| - 1].wait == Ok
    ensures var trace := run[|run| - 1].trace;
            && Once(trace, FinishedChecked) && Once(trace, Sent(Finished))
            && Precedes(trace, ReadKeys, FinishedChecked) && Precedes(trace, WriteKeys, Sent(Finished))
            && if e.resumed then Precedes(trace, Sent(Finished), FinishedChecked)
               else Precedes(trace, FinishedChecked, Sent(Finished))
  {
    CompletedRun(c, e, run);
    ServerFinishedOnce(c, e);
    ClientFinishedOnce(c, e);
    FinishedInOrder(c, e);
  }

  // ---------------------------------------------------------------- client authentication

  /** Up to n steps nothing has been done twice: no ChangeCipherSpec yet. */
  lemma {:induction false} NoChangeCipherSpecYet(c: Config, e: Env)
    requires !e.tls13 && !e.resumed
    ensures forall n: nat :: n <= 12 ==> GotChangeCipherSpec !in TraceAfter(c, e, n)
  {
    Opening(c, e);
    FlightSent(c, e);
    ClientAuthenticated(c, e);
    Kinds(c, e);
    hide StateAfter, TraceAfter, ServerFlight, ClientAuthentication;
    assert GotChangeCipherSpec !in TraceAfter(c, e, 12);
    forall n: nat | n <= 12 ensures GotChangeCipherSpec !in TraceAfter(c, e, n) {
      TraceGrows(c, e, n, 12);
    }
  }

  lemma {:induction false} TraceGrows(c: Config, e: Env, n: nat, m: nat)
    requires n <= m
    ensures TraceAfter(c, e, n) <= TraceAfter(c, e, m)
    decreases m
  {
    if n < m { TraceGrows(c, e, n, m - 1); }
  }

  /** In every full handshake that has asked for a certificate which it must get, by the time
      ChangeCipherSpec has been read the client has sent a chain that is not empty, the chain has been
      verified, and so has the signature of the CertificateVerify message, whatever retries occurred. */
  lemma {:induction false} ClientAuthenticatedBeforeChangeCipherSpec(c: Config, e: Env, run: seq<Handshake>)
    requires IsRun(c, e, run) && !e.tls13 && CertRequest(c, e) && c.failIfNoPeerCert
    requires run[|run| - 1].wait != Error && GotChangeCipherSpec in run[|run| - 1].trace
    ensures exists p, s ::
              && run[|run| - 1].trace == p + [GotChangeCipherSpec] + s && GotChangeCipherSpec !in p
              && e.chain > 0 && Chain(e.chain) in p && ChainVerified in p && SignatureVerified in p
  {
    var h := run[|run| - 1];
    RunOnTrack(c, e, run);
    hide IsRun;
    CheckedByTwelve(c, e, h);
    PastTwelve(c, e, h);
  }

  lemma {:induction false} PastTwelve(c: Config, e: Env, h: Handshake)
    requires !e.tls13 && !e.resumed && OnTrack(c, e, h) && h.wait != Error && GotChangeCipherSpec in h.trace
    ensures h.steps >= 13 && GotChangeCipherSpec !in TraceAfter(c, e, 12)
    ensures exists s :: h.trace == TraceAfter(c, e, 12) + [GotChangeCipherSpec] + s
  {
    var t, p, q := TraceAfter(c, e, h.steps), TraceAfter(c, e, 12), TraceAfter(c, e, 13);
    assert t == h.trace + if h.wait == NeedChangeCipherSpec then [GotChangeCipherSpec] else [];
    hide OnTrack;
    assert GotChangeCipherSpec in t;
    ChangeCipherSpecIsThirteenth(c, e);
    hide StateAfter, TraceAfter;
    assert h.steps > 12;
    TraceGrows(c, e, 13, h.steps);
    AfterPrefix(h, p, t);
  }

  lemma {:induction false} ChangeCipherSpecIsThirteenth(c: Config, e: Env)
    requires !e.tls13 && !e.resumed
    ensures forall n: nat :: n <= 12 ==> GotChangeCipherSpec !in TraceAfter(c, e, n)
    ensures TraceAfter(c, e, 13) == TraceAfter(c, e, 12) + [GotChangeCipherSpec]
  {
    NoChangeCipherSpecYet(c, e);
    ClientAuthenticated(c, e);
    OneStep(c, e, 12);
    hide StateAfter, TraceAfter;
  }

  lemma {:induction false} CheckedByTwelve(c: Config, e: Env, h: Handshake)
    requires !e.tls13 && CertRequest(c, e) && c.failIfNoPeerCert
    requires OnTrack(c, e, h) && h.wait != Error && GotChangeCipherSpec in h.trace
    ensures var p := TraceAfter(c, e, 12);
            e.chain > 0 && Chain(e.chain) in p && ChainVerified in p && SignatureVerified in p
  {
    PastTwelve(c, e, h);
    ClientAuthenticated(c, e);
    assert !Refused(c, e, StateAfter(e, 8));
    CheckedInAuthentication(c, e);
    hide ClientAuthentication, TraceAfter, StateAfter;
  }

  lemma {:induction false} CheckedInAuthentication(c: Config, e: Env)
    requires Certs(c, e) > 0
    ensures var t := ClientAuthentication(c, e); Chain(e.chain) in t && ChainVerified in t && SignatureVerified in t
  {
  }

  lemma {:induction false} AfterPrefix(h: Handshake, p: seq<Event>, t: seq<Event>)
    requires GotChangeCipherSpec in h.trace && GotChangeCipherSpec !in p && p + [GotChangeCipherSpec] <= t
    requires t == h.trace + if h.wait == NeedChangeCipherSpec then [GotChangeCipherSpec] else []
    ensures exists s :: h.trace == p + [GotChangeCipherSpec] + s
  {
    assert t[..|h.trace|] == h.trace && t[..|p|] == p && t[..|p| + 1] == p + [GotChangeCipherSpec];
    assert |h.trace| == |p| ==> h.trace == p;
    assert h.trace[..|p| + 1] == t[..|p| + 1];
    assert h.trace == p + [GotChangeCipherSpec] + h.trace[|p| + 1..];
  }

  /** And a certificate that the client was asked for is checked even when it need not be given: a
      completed handshake has verified every chain that is not empty and its signature. */
  lemma {:induction false} NoUncheckedChain(c: Config, e: Env, run: seq<Handshake>)
    requires IsRun(c, e, run) && !e.tls13 && Certs(c, e) > 0
    requires run[|run| - 1].state == Done && run[|run| - 1].wait == Ok
    ensures var trace := run[|run| - 1].trace;
            && Precedes(trace, Chain(e.chain), ChainVerified) && Precedes(trace, ChainVerified, SignatureVerified)
            && Precedes(trace, SignatureVerified, FinishedChecked)
  {
    CompletedRun(c, e, run);
    ChainChecked(c, e);
  }

  lemma {:induction false} ChainChecked(c: Config, e: Env)
    requires Certs(c, e) > 0
    ensures Precedes(Completed(c, e), Chain(e.chain), ChainVerified)
    ensures Precedes(Completed(c, e), ChainVerified, SignatureVerified)
    ensures Precedes(Completed(c, e), SignatureVerified, FinishedChecked)
  {
    var before, after := [Got(ClientHello), Sent(ServerHello)] + ServerFlight(c, e), ClientFinish(e) + ServerFinish(e);
    assert ClientAuthentication(c, e) ==
           [Got(Certificate), Chain(e.chain)] + [ChainVerified, Got(ClientKeyExchange)]
           + [Got(CertificateVerifyMessage), SignatureVerified];
    assert Completed(c, e) == before + ClientAuthentication(c, e) + after;
    Kinds(c, e);
    assert FinishedChecked in ClientFinish(e);
    hide Completed, ServerFlight, ClientFinish, ServerFinish, ClientAuthentication;
    InThree(Completed(c, e), before, [Got(Certificate), Chain(e.chain)], [ChainVerified, Got(ClientKeyExchange)],
            [Got(CertificateVerifyMessage), SignatureVerified], after, Chain(e.chain));
  }

  lemma {:induction false} InThree(t: seq<Event>, before: seq<Event>, a: seq<Event>, b: seq<Event>, d: seq<Event>,
                                   after: seq<Event>, chain: Event)
    requires t == before + (a + b + d) + after
    requires chain.Chain? && chain in a && ChainVerified in b && SignatureVerified in d && FinishedChecked in after
    requires chain !in before && chain !in b && chain !in d && chain !in after
    requires ChainVerified !in before && ChainVerified !in a && ChainVerified !in d && ChainVerified !in after
    requires SignatureVerified !in before && SignatureVerified !in a
    requires SignatureVerified !in b && SignatureVerified !in after
    requires FinishedChecked !in before && FinishedChecked !in a && FinishedChecked !in b && FinishedChecked !in d
    ensures Precedes(t, chain, ChainVerified) && Precedes(t, ChainVerified, SignatureVerified)
    ensures Precedes(t, SignatureVerified, FinishedChecked)
  {
    hide Precedes;
    PrecedesBy(t, before + a, chain, ChainVerified, b + d + after);
    PrecedesBy(t, before + a + b, ChainVerified, SignatureVerified, d + after);
    PrecedesBy(t, before + a + b + d, SignatureVerified, FinishedChecked, after);
  }
}
