/** `OpenSSLStreamAdapter`: the DTLS/TLS session state machine that wraps a
    stream. OpenSSL itself is abstract: each handshake step is an
    `EngineResult` supplied by the caller, and a certificate is seen only
    through its digest computation. What remains is the state, the events
    raised on the stream, the peer-certificate digest check, the DTLS-SRTP
    profile list and the retransmission timer. */
module OpenSslStream {
  import opened Ints
  import opened Wrappers
  import SrtpSuites
  import StringEncode
  import SslFingerprint
  import opened Stream

  /** `SSLState`: the six states of the session. */
  datatype SslState = SslNone | SslWait | SslConnecting | SslConnected | SslError | SslClosed

  datatype SslRole = SslClient | SslServer
  datatype SslMode = SslModeTls | SslModeDtls
  datatype ProtocolVersion = SslProtocolTls10 | SslProtocolTls11 | SslProtocolTls12

  datatype HandshakeError = HandshakeUnknown | IncompatibleCipherSuite

  datatype DigestError = DigestOk | UnknownAlgorithm | InvalidLength | VerificationFailed

  /** What an operation makes visible outside the adapter: an event raised
      on the stream's listeners (with the error that goes with SE_CLOSE), a
      handshake error reported, the timer handle given back to the event
      loop. */
  datatype Effect =
    | Signal(events: Events, err: int)
    | HandshakeFailed(kind: HandshakeError)
    | TimerReleased

  /** The handshake timer: no handle (no event loop, or released by
      cleanup), a handle that is stopped, or one armed with a delay. */
  datatype Timer = NoTimer | Idle | Armed(delay: int)

  /** The result of one `SSL_connect`/`SSL_accept` step as `SSL_get_error`
      classifies it. `WantRead` carries the delay `DTLSv1_get_timeout`
      yields, if any; `Fatal` carries the error class and whether the last
      queued OpenSSL error has the reason "no shared cipher". */
  datatype EngineResult =
    | Completed
    | WantRead(timeout: Option<int>)
    | WantWrite
    | Fatal(sslError: int, noSharedCipher: bool)

  /** What OpenSSL does during one call: whether the context, BIO and SSL
      object can be set up, and the result of each handshake step the call
      makes (at most two: one from `begin_SSL`, one from a read/write event
      in the same `on_event`). */
  datatype Engine = Engine(setupOk: bool, onBegin: EngineResult, onContinue: EngineResult)

  datatype Adapter = Adapter(
    state: SslState,
    role: SslRole,
    errorCode: int,
    sslReadNeedsWrite: bool,
    sslWriteNeedsRead: bool,
    hasSsl: bool,
    hasIdentity: bool,
    peerCertificate: Option<SslFingerprint.Certificate>,
    peerCertificateVerified: bool,
    peerDigestValue: seq<byte>,
    peerDigestAlgorithm: string,
    srtpCiphers: string,
    mode: SslMode,
    maxVersion: ProtocolVersion,
    handshakeTimeoutMs: int,
    clientAuthEnabled: bool,
    timer: Timer)

  /** An operation's result: the adapter afterwards, the effects in order,
      and the return value. */
  datatype Out<T> = Out(adapter: Adapter, effects: seq<Effect>, value: T)

  const INITIAL_HANDSHAKE_TIMEOUT_MS := 50

  /** The constructor: client role, TLS mode, TLS 1.2 at most, no engine,
      nothing verified, client authentication on, and a timer handle when
      an event loop is given. The source leaves the error code
      uninitialised; it is 0 here. */
  function New(hasEventLoop: bool): (a: Adapter)
    ensures a.state == SslNone && !a.peerCertificateVerified
    ensures a.handshakeTimeoutMs == 50 && a.clientAuthEnabled
    ensures a.peerCertificate.None? && !HasPeerCertificateDigest(a)
    ensures a.timer != NoTimer <==> hasEventLoop
    ensures WaitingToVerify(a)
  {
    Adapter(SslNone, SslClient, 0, false, false, false, false, None, false, [], [], [],
            SslModeTls, SslProtocolTls12, INITIAL_HANDSHAKE_TIMEOUT_MS, true,
            if hasEventLoop then Idle else NoTimer)
  }

  /** `waiting_to_verify_peer_certificate`. */
  predicate WaitingToVerify(a: Adapter) {
    a.clientAuthEnabled && !a.peerCertificateVerified
  }

  /** `has_peer_certificate_digest`. */
  predicate HasPeerCertificateDigest(a: Adapter) {
    a.peerDigestAlgorithm != [] && a.peerDigestValue != []
  }

  /** The stream is closed in the two terminal states. */
  predicate IsTerminal(s: SslState) {
    s == SslError || s == SslClosed
  }

  function StopTimer(t: Timer): (r: Timer)
    ensures !r.Armed? && (r == NoTimer <==> t == NoTimer)
  {
    if t == NoTimer then NoTimer else Idle
  }

  function StartTimer(t: Timer, delay: int): (r: Timer)
    ensures t != NoTimer ==> r == Armed(delay)
    ensures t == NoTimer ==> r == NoTimer
  {
    if t == NoTimer then NoTimer else Armed(delay)
  }

  // ---------------------------------------------------------------------
  // cleanup and error_info

  /** `cleanup`: an error state is kept, any other state becomes closed
      with code 0; the engine, identity and peer certificate are dropped,
      and the timer handle is given back once and forgotten. */
  function Cleanup(a: Adapter): (r: Out<()>)
    ensures r.adapter.state == (if a.state == SslError then SslError else SslClosed)
    ensures a.state != SslError ==> r.adapter.errorCode == 0
    ensures a.state == SslError ==> r.adapter.errorCode == a.errorCode
    ensures !r.adapter.hasSsl && !r.adapter.hasIdentity && r.adapter.peerCertificate.None?
    ensures r.adapter.timer == NoTimer
    ensures r.effects == (if a.timer != NoTimer then [TimerReleased] else [])
    ensures r.adapter.peerDigestValue == a.peerDigestValue && r.adapter.peerDigestAlgorithm == a.peerDigestAlgorithm
    ensures r.adapter.peerCertificateVerified == a.peerCertificateVerified
    ensures r.adapter.srtpCiphers == a.srtpCiphers
  {
    var closed := if a.state != SslError then a.(state := SslClosed, errorCode := 0) else a;
    var released := if a.timer != NoTimer then [TimerReleased] else [];
    Out(closed.(hasSsl := false, hasIdentity := false, peerCertificate := None, timer := NoTimer), released, ())
  }

  /** A second cleanup changes nothing and releases nothing: the timer
      handle is released at most once. */
  lemma CleanupIdempotent(a: Adapter)
    ensures var c := Cleanup(a).adapter;
            Cleanup(c).adapter == c && Cleanup(c).effects == []
  {
  }

  /** `error_info`: the state becomes SSL_ERROR with the given code (kept
      through the cleanup that follows), and SE_CLOSE with the code is
      raised only when `signal` is set. */
  function ErrorInfo(a: Adapter, err: int, signal: bool): (r: Out<()>)
    ensures r.adapter.state == SslError && r.adapter.errorCode == err
    ensures !r.adapter.hasSsl && r.adapter.peerCertificate.None? && r.adapter.timer == NoTimer
    ensures (Signal(Events(false, false, false, true), err) in r.effects) <==> signal
    ensures forall e :: e in r.effects && e.Signal? ==> e == Signal(Events(false, false, false, true), err)
  {
    var c := Cleanup(a.(state := SslError, errorCode := err));
    Out(c.adapter, c.effects + (if signal then [Signal(Events(false, false, false, true), err)] else []), ())
  }

  // ---------------------------------------------------------------------
  // The handshake

  /** `continue_SSL`: the timer is stopped first. Success connects and
      raises SE_OPEN|SE_READ|SE_WRITE unless the peer certificate still
      has to be verified; want-read re-arms the timer when the engine gives
      a positive delay; want-write waits; anything else reports a handshake
      error (incompatible cipher suite only for "no shared cipher") and
      returns a non-zero code without changing the state. */
  function ContinueSsl(a: Adapter, step: EngineResult): (r: Out<int>)
    ensures step.Completed? ==> r.adapter.state == SslConnected && r.value == 0
    ensures step.Completed? ==>
              r.effects == (if WaitingToVerify(a) then [] else [Signal(Events(true, true, true, false), 0)])
    ensures !step.Completed? ==> r.adapter.state == a.state
    ensures step.Fatal? ==> r.value != 0
    ensures step.Fatal? ==> r.effects == [HandshakeFailed(if step.noSharedCipher then IncompatibleCipherSuite else HandshakeUnknown)]
    ensures !step.Fatal? ==> r.value == 0
    ensures r.adapter.errorCode == a.errorCode && r.adapter.peerCertificate == a.peerCertificate
  {
    var stopped := StopTimer(a.timer);
    var timer :=
      if step.WantRead? && step.timeout.Some? && step.timeout.value > 0 then StartTimer(stopped, step.timeout.value)
      else stopped;
    var effects :=
      if step.Completed? then (if WaitingToVerify(a) then [] else [Signal(Events(true, true, true, false), 0)])
      else if step.Fatal? then [HandshakeFailed(if step.noSharedCipher then IncompatibleCipherSuite else HandshakeUnknown)]
      else [];
    var code := if step.Fatal? then (if step.sslError != 0 then step.sslError else -1) else 0;
    Out(a.(state := if step.Completed? then SslConnected else a.state, timer := timer), effects, code)
  }

  /** The timer is stopped at every handshake step and re-armed only when
      the engine wants to read and gives a positive delay; a released
      handle stays released. */
  lemma ContinueSslTimer(a: Adapter, step: EngineResult)
    ensures var t := ContinueSsl(a, step).adapter.timer;
            (t.Armed? <==> a.timer != NoTimer && step.WantRead? && step.timeout.Some? && step.timeout.value > 0) &&
            (t.Armed? ==> t.delay == step.timeout.value) &&
            (t == NoTimer <==> a.timer == NoTimer)
  {
  }

  /** `begin_SSL`: -1 unless connecting or when the OpenSSL objects cannot
      be set up; otherwise the engine exists and the first handshake step
      runs. */
  function BeginSsl(a: Adapter, engine: Engine): (r: Out<int>)
    ensures a.state != SslConnecting || !engine.setupOk ==> r.value == -1 && r.adapter == a && r.effects == []
    ensures a.state == SslConnecting && engine.setupOk ==>
              r.adapter.hasSsl && r == ContinueSsl(a.(hasSsl := true), engine.onBegin)
  {
    if a.state != SslConnecting then Out(a, [], -1)
    else if !engine.setupOk then Out(a, [], -1)
    else ContinueSsl(a.(hasSsl := true), engine.onBegin)
  }

  /** `start_SSL`: refused with -1 unless in SSL_NONE; waits for the
      stream to open; otherwise begins. A failed begin ends in SSL_ERROR
      with the error returned and no SE_CLOSE raised. */
  function StartSsl(a: Adapter, stream: StreamState, engine: Engine): (r: Out<int>)
    ensures a.state != SslNone ==> r.value == -1 && r.adapter == a && r.effects == []
    ensures a.state == SslNone && stream != SsOpen ==>
              r.value == 0 && r.adapter == a.(state := SslWait) && r.effects == []
    ensures a.state == SslNone && stream == SsOpen && r.value == 0 ==>
              r.adapter.state in {SslConnecting, SslConnected}
    ensures a.state == SslNone && stream == SsOpen && r.value != 0 ==>
              r.adapter.state == SslError && r.adapter.errorCode == r.value &&
              forall e :: e in r.effects ==> !e.Signal? || !e.events.close
  {
    if a.state != SslNone then Out(a, [], -1)
    else if stream != SsOpen then Out(a.(state := SslWait), [], 0)
    else
      var begun := BeginSsl(a.(state := SslConnecting), engine);
      if begun.value != 0 then
        var failed := ErrorInfo(begun.adapter, begun.value, false);
        Out(failed.adapter, begun.effects + failed.effects, begun.value)
      else begun
  }

  /** The retransmission timer's callback: the engine handles the timeout
      and the handshake continues, the return value being ignored. So a
      fatal step there reports the handshake error but does not change the
      state. */
  function OnTimeout(a: Adapter, step: EngineResult): (r: Out<()>)
    ensures step.Fatal? ==> r.adapter.state == a.state && r.adapter.errorCode == a.errorCode
    ensures step.Completed? ==> r.adapter.state == SslConnected
    ensures r.effects == ContinueSsl(a, step).effects
  {
    var c := ContinueSsl(a, step);
    Out(c.adapter, c.effects, ())
  }

  // ---------------------------------------------------------------------
  // on_event

  /** `on_event`: the events of the wrapped stream. SE_OPEN while waiting
      begins the handshake (an error there raises SE_CLOSE and ends the
      call) and is otherwise passed on. SE_READ/SE_WRITE are passed on in
      clear text, drive the handshake while connecting, are re-raised
      (crossed by the needs-read/needs-write flags) once connected, and are
      dropped otherwise. SE_CLOSE cleans up and passes on the error. The
      events to pass on are raised together, once. */
  function OnEvent(a: Adapter, events: Events, err: int, engine: Engine): (r: Out<()>)
  {
    var afterOpen :=
      if !events.open then Out(a, [], Some(NO_EVENTS))
      else if a.state != SslWait then Out(a, [], Some(NO_EVENTS.(open := true)))
      else
        var begun := BeginSsl(a.(state := SslConnecting), engine);
        if begun.value != 0 then
          var failed := ErrorInfo(begun.adapter, begun.value, true);
          Out(failed.adapter, begun.effects + failed.effects, None)
        else Out(begun.adapter, begun.effects, Some(NO_EVENTS));
    if afterOpen.value.None? then Out(afterOpen.adapter, afterOpen.effects, ())
    else
      var b, toSignal := afterOpen.adapter, afterOpen.value.value;
      var driven :=
        if !(events.read || events.write) then Out(b, [], Some(toSignal))
        else if b.state == SslNone then
          Out(b, [], Some(toSignal.(read := toSignal.read || events.read, write := toSignal.write || events.write)))
        else if b.state == SslConnecting then
          var c := ContinueSsl(b, engine.onContinue);
          if c.value != 0 then
            var failed := ErrorInfo(c.adapter, c.value, true);
            Out(failed.adapter, c.effects + failed.effects, None)
          else Out(c.adapter, c.effects, Some(toSignal))
        else if b.state == SslConnected then
          var w := (events.read && b.sslWriteNeedsRead) || events.write;
          var rd := (events.write && b.sslReadNeedsWrite) || events.read;
          Out(b, [], Some(toSignal.(write := toSignal.write || w, read := toSignal.read || rd)))
        else Out(b, [], Some(toSignal));
      if driven.value.None? then Out(driven.adapter, afterOpen.effects + driven.effects, ())
      else
        var closing :=
          if events.close then
            var c := Cleanup(driven.adapter);
            (c.adapter, c.effects, driven.value.value.(close := true), err)
          else (driven.adapter, [], driven.value.value, 0);
        var raised := if AnyEvent(closing.2) then [Signal(closing.2, closing.3)] else [];
        Out(closing.0, afterOpen.effects + driven.effects + closing.1 + raised, ())
  }

  /** In clear text (SSL_NONE) read and write events are passed on as they
      are and nothing changes. */
  lemma OnEventClearText(a: Adapter, read: bool, write: bool, err: int, engine: Engine)
    requires a.state == SslNone && (read || write)
    ensures OnEvent(a, Events(false, read, write, false), err, engine) ==
            Out(a, [Signal(Events(false, read, write, false), 0)], ())
  {
  }

  /** Once connected, a read event is re-raised as readable (and writable
      when a write was blocked on reading), and a write event as writable
      (and readable when a read was blocked on writing). */
  lemma OnEventConnected(a: Adapter, read: bool, write: bool, err: int, engine: Engine)
    requires a.state == SslConnected && (read || write)
    ensures OnEvent(a, Events(false, read, write, false), err, engine) ==
            Out(a, [Signal(Events(false, read || (write && a.sslReadNeedsWrite),
                                     write || (read && a.sslWriteNeedsRead), false), 0)], ())
  {
  }

  /** Read and write events are dropped while waiting for the stream and
      after the session has ended. */
  lemma OnEventDropped(a: Adapter, read: bool, write: bool, err: int, engine: Engine)
    requires a.state in {SslWait, SslError, SslClosed}
    ensures OnEvent(a, Events(false, read, write, false), err, engine) == Out(a, [], ())
  {
  }

  /** While connecting, a read or write event runs one handshake step; a
      failed step ends in SSL_ERROR and raises SE_CLOSE with its code. */
  lemma OnEventConnecting(a: Adapter, read: bool, write: bool, err: int, engine: Engine)
    requires a.state == SslConnecting && (read || write)
    ensures var r := OnEvent(a, Events(false, read, write, false), err, engine);
            var c := ContinueSsl(a, engine.onContinue);
            (c.value == 0 ==> r.adapter == c.adapter && r.effects == c.effects) &&
            (c.value != 0 ==> r.adapter.state == SslError && r.adapter.errorCode == c.value &&
                              Signal(Events(false, false, false, true), c.value) in r.effects)
  {
  }

  /** SE_OPEN while waiting for the stream starts the handshake; in any
      other state it is passed on. */
  lemma OnEventOpen(a: Adapter, err: int, engine: Engine)
    ensures var r := OnEvent(a, Events(true, false, false, false), err, engine);
            (a.state != SslWait ==> r == Out(a, [Signal(Events(true, false, false, false), 0)], ())) &&
            (a.state == SslWait ==>
               var b := BeginSsl(a.(state := SslConnecting), engine);
               (b.value == 0 ==> r.adapter == b.adapter && r.effects == b.effects) &&
               (b.value != 0 ==> r.adapter.state == SslError && r.adapter.errorCode == b.value))
  {
  }

  /** SE_CLOSE alone always cleans up (an error state stays an error) and
      passes on SE_CLOSE with the stream's error, last. */
  lemma OnEventClose(a: Adapter, err: int, engine: Engine)
    ensures var r := OnEvent(a, Events(false, false, false, true), err, engine);
            r.adapter == Cleanup(a).adapter &&
            r.effects == Cleanup(a).effects + [Signal(Events(false, false, false, true), err)] &&
            r.adapter.state == (if a.state == SslError then SslError else SslClosed)
  {
  }

  // ---------------------------------------------------------------------
  // The peer certificate

  /** The digest sizes of the six algorithm names OpenSSL is asked for:
      None for any other name. */
  function DigestSize(algorithm: string): (r: Option<nat>)
    ensures r.Some? <==> algorithm in {"md5", "sha-1", "sha-224", "sha-256", "sha-384", "sha-512"}
    ensures r.Some? ==> 16 <= r.value <= 64
  {
    if algorithm == "md5" then Some(16)
    else if algorithm == "sha-1" then Some(20)
    else if algorithm == "sha-224" then Some(28)
    else if algorithm == "sha-256" then Some(32)
    else if algorithm == "sha-384" then Some(48)
    else if algorithm == "sha-512" then Some(64)
    else None
  }

  /** `verify_peer_certificate`: false without both a digest and a peer
      certificate, when the certificate cannot be digested, or when the
      digests differ; on a byte-equal digest the verified flag is set. */
  function VerifyPeerCertificate(a: Adapter): (r: Out<bool>)
    ensures r.effects == []
    ensures r.value <==> HasPeerCertificateDigest(a) && a.peerCertificate.Some? &&
                         a.peerCertificate.value.computeDigest(a.peerDigestAlgorithm) == Some(a.peerDigestValue)
    ensures r.value ==> r.adapter == a.(peerCertificateVerified := true)
    ensures !r.value ==> r.adapter == a
  {
    if !HasPeerCertificateDigest(a) || a.peerCertificate.None? then Out(a, [], false)
    else
      match a.peerCertificate.value.computeDigest(a.peerDigestAlgorithm)
      case None => Out(a, [], false)
      case Some(computed) =>
        if computed != a.peerDigestValue then Out(a, [], false)
        else Out(a.(peerCertificateVerified := true), [], true)
  }

  /** `set_peer_certificate_digest`: an unknown algorithm or a value of the
      wrong length fails before anything is stored. Otherwise the digest is
      stored and, when a peer certificate is already held, checked at once:
      a mismatch fails with VERIFICATION_FAILED and the state becomes
      SSL_ERROR (without SE_CLOSE). */
  function SetPeerCertificateDigest(a: Adapter, algorithm: string, value: seq<byte>): (r: Out<DigestError>)
    ensures DigestSize(algorithm).None? ==> r == Out(a, [], UnknownAlgorithm)
    ensures DigestSize(algorithm).Some? && DigestSize(algorithm).value != |value| ==> r == Out(a, [], InvalidLength)
    ensures r.value == DigestOk || r.value == VerificationFailed ==>
              r.adapter.peerDigestAlgorithm == algorithm && r.adapter.peerDigestValue == value
    ensures r.value == DigestOk && a.peerCertificate.Some? ==> r.adapter.peerCertificateVerified
    ensures r.value == VerificationFailed <==>
              DigestSize(algorithm) == Some(|value|) && a.peerCertificate.Some? &&
              a.peerCertificate.value.computeDigest(algorithm) != Some(value)
    ensures r.value == VerificationFailed ==> r.adapter.state == SslError
    ensures forall e :: e in r.effects ==> !e.Signal?
  {
    match DigestSize(algorithm)
    case None => Out(a, [], UnknownAlgorithm)
    case Some(expected) =>
      if expected != |value| then Out(a, [], InvalidLength)
      else
        var stored := a.(peerDigestValue := value, peerDigestAlgorithm := algorithm);
        if stored.peerCertificate.None? then Out(stored, [], DigestOk)
        else
          var v := VerifyPeerCertificate(stored);
          if !v.value then
            var failed := ErrorInfo(v.adapter, -1, false);
            Out(failed.adapter, failed.effects, VerificationFailed)
          else Out(v.adapter, [], DigestOk)
  }

  /** `SSL_verify_callback`: chained certificates (depth > 0) are accepted
      unchecked, and so is the leaf while no digest algorithm is set. Once
      the digest is known and the peer is not yet verified, the leaf is
      recorded and accepted only if its digest matches. An already verified
      peer is accepted. */
  function VerifyCallback(a: Adapter, depth: int, cert: SslFingerprint.Certificate): (r: Out<bool>)
    ensures depth > 0 || a.peerDigestAlgorithm == [] || a.peerCertificateVerified ==> r == Out(a, [], true)
    ensures depth <= 0 && a.peerDigestAlgorithm != [] && !a.peerCertificateVerified ==>
              r.adapter.peerCertificate == Some(cert) &&
              (r.value <==> a.peerDigestValue != [] && cert.computeDigest(a.peerDigestAlgorithm) == Some(a.peerDigestValue)) &&
              (r.value <==> r.adapter.peerCertificateVerified)
  {
    if depth > 0 then Out(a, [], true)
    else if a.peerDigestAlgorithm == [] then Out(a, [], true)
    else if !a.peerCertificateVerified then
      var v := VerifyPeerCertificate(a.(peerCertificate := Some(cert)));
      Out(v.adapter, [], v.value)
    else Out(a, [], true)
  }

  /** The adapter after a handshake in which the digest was not yet known:
      client authentication on, no digest, no peer certificate, nothing
      verified, and the state connecting. */
  predicate AwaitingLateDigest(a: Adapter) {
    a.state == SslConnecting && a.clientAuthEnabled && a.peerDigestAlgorithm == [] &&
    a.peerCertificate.None? && !a.peerCertificateVerified
  }

  /** As written, a digest that arrives after the handshake is never
      checked and SE_OPEN is never raised: the callback accepted the leaf
      without recording it, the successful step held SE_OPEN back because
      the peer was not verified, and `set_peer_certificate_digest` returns
      success at once because no certificate is held. */
  lemma LateDigestNeverOpens(a: Adapter, cert: SslFingerprint.Certificate, algorithm: string, value: seq<byte>)
    requires AwaitingLateDigest(a)
    requires DigestSize(algorithm) == Some(|value|) && cert.computeDigest(algorithm) == Some(value)
    ensures var cb := VerifyCallback(a, 0, cert);
            var hs := ContinueSsl(cb.adapter, Completed);
            var sd := SetPeerCertificateDigest(hs.adapter, algorithm, value);
            cb.value && sd.value == DigestOk && sd.adapter.state == SslConnected &&
            !sd.adapter.peerCertificateVerified && WaitingToVerify(sd.adapter) &&
            forall e :: e in hs.effects + sd.effects ==> !e.Signal?
  {
  }

  /** The callback as the comments describe it: the leaf is recorded
      before the check for a known digest, so a later digest can be
      checked against it. */
  function VerifyCallbackRecording(a: Adapter, depth: int, cert: SslFingerprint.Certificate): (r: Out<bool>)
    ensures depth > 0 ==> r == Out(a, [], true)
    ensures depth <= 0 ==> r.adapter.peerCertificate == Some(cert)
    ensures depth <= 0 && a.peerDigestAlgorithm == [] ==> r.value && r.adapter.peerCertificateVerified == a.peerCertificateVerified
    ensures depth <= 0 && a.peerDigestAlgorithm != [] && !a.peerCertificateVerified ==>
              (r.value <==> a.peerDigestValue != [] && cert.computeDigest(a.peerDigestAlgorithm) == Some(a.peerDigestValue))
  {
    if depth > 0 then Out(a, [], true)
    else
      var recorded := a.(peerCertificate := Some(cert));
      if recorded.peerDigestAlgorithm == [] then Out(recorded, [], true)
      else if !recorded.peerCertificateVerified then
        var v := VerifyPeerCertificate(recorded);
        Out(v.adapter, [], v.value)
      else Out(recorded, [], true)
  }

  /** `set_peer_certificate_digest` as the comment in `continue_SSL`
      describes it: after a successful check on a connected stream,
      SE_OPEN|SE_READ|SE_WRITE is raised. */
  function SetPeerCertificateDigestSignalling(a: Adapter, algorithm: string, value: seq<byte>): (r: Out<DigestError>)
    ensures r.value == SetPeerCertificateDigest(a, algorithm, value).value
    ensures r.adapter == SetPeerCertificateDigest(a, algorithm, value).adapter
    ensures Signal(Events(true, true, true, false), 0) in r.effects <==>
              r.value == DigestOk && a.peerCertificate.Some? && a.state == SslConnected
  {
    var r := SetPeerCertificateDigest(a, algorithm, value);
    if r.value == DigestOk && a.peerCertificate.Some? && r.adapter.state == SslConnected then
      Out(r.adapter, r.effects + [Signal(Events(true, true, true, false), 0)], r.value)
    else r
  }

  /** With both corrections, the late digest is checked against the
      recorded leaf, the peer becomes verified and SE_OPEN is raised. */
  lemma LateDigestOpensWhenRecorded(a: Adapter, cert: SslFingerprint.Certificate, algorithm: string, value: seq<byte>)
    requires AwaitingLateDigest(a)
    requires DigestSize(algorithm) == Some(|value|) && cert.computeDigest(algorithm) == Some(value)
    ensures var cb := VerifyCallbackRecording(a, 0, cert);
            var hs := ContinueSsl(cb.adapter, Completed);
            var sd := SetPeerCertificateDigestSignalling(hs.adapter, algorithm, value);
            cb.value && sd.value == DigestOk && sd.adapter.state == SslConnected &&
            sd.adapter.peerCertificateVerified && !WaitingToVerify(sd.adapter) &&
            Signal(Events(true, true, true, false), 0) in sd.effects
  {
  }

  /** And a late digest that does not match the recorded leaf fails the
      session. */
  lemma LateDigestMismatchFails(a: Adapter, cert: SslFingerprint.Certificate, algorithm: string, value: seq<byte>)
    requires AwaitingLateDigest(a)
    requires DigestSize(algorithm) == Some(|value|) && cert.computeDigest(algorithm) != Some(value)
    ensures var cb := VerifyCallbackRecording(a, 0, cert);
            var hs := ContinueSsl(cb.adapter, Completed);
            var sd := SetPeerCertificateDigestSignalling(hs.adapter, algorithm, value);
            sd.value == VerificationFailed && sd.adapter.state == SslError &&
            forall e :: e in sd.effects ==> !e.Signal?
  {
  }

  // ---------------------------------------------------------------------
  // Cipher suites and DTLS-SRTP

  /** The `srtp_cipher_map`: OpenSSL's names of the four profiles. */
  function InternalName(id: int): (r: Option<string>)
    ensures r.Some? <==> SrtpSuites.KnownSuite(id)
    ensures r.Some? ==> |r.value| > 0 && StringEncode.NonEmpty([r.value]) == [r.value]
  {
    if id == SrtpSuites.SRTP_AES128_CM_SHA1_80 then Some("SRTP_AES128_CM_SHA1_80")
    else if id == SrtpSuites.SRTP_AES128_CM_SHA1_32 then Some("SRTP_AES128_CM_SHA1_32")
    else if id == SrtpSuites.SRTP_AEAD_AES_128_GCM then Some("SRTP_AEAD_AES_128_GCM")
    else if id == SrtpSuites.SRTP_AEAD_AES_256_GCM then Some("SRTP_AEAD_AES_256_GCM")
    else None
  }

  predicate AllKnown(ids: seq<int>) {
    forall k :: 0 <= k < |ids| ==> SrtpSuites.KnownSuite(ids[k])
  }

  function InternalNames(ids: seq<int>): (names: seq<string>)
    requires AllKnown(ids)
    ensures |names| == |ids| && forall k :: 0 <= k < |ids| ==> Some(names[k]) == InternalName(ids[k])
  {
    seq(|ids|, k requires 0 <= k < |ids| => InternalName(ids[k]).value)
  }

  /** `set_dtls_srtp_crypto_suites`: only in SSL_NONE, and only for a
      non-empty list of known profile ids, whose OpenSSL names are stored
      joined by ':' in the order given; otherwise false and the stored
      string is kept. */
  method SetDtlsSrtpCryptoSuites(a: Adapter, ids: seq<int>) returns (r: Adapter, ok: bool)
    ensures ok <==> a.state == SslNone && |ids| > 0 && AllKnown(ids)
    ensures ok ==> r == a.(srtpCiphers := StringEncode.Join(InternalNames(ids), ':'))
    ensures !ok ==> r == a
  {
    hide StringEncode.Join, InternalNames, InternalName;
    if a.state != SslNone {
      return a, false;
    }
    var internal: string := [];
    var i := 0;
    while i < |ids|
      invariant 0 <= i <= |ids| && AllKnown(ids[..i])
      invariant i == 0 <==> internal == []
      invariant i > 0 ==> internal == StringEncode.Join(InternalNames(ids[..i]), ':')
    {
      var name := InternalName(ids[i]);
      if name.None? {
        return a, false;
      }
      JoinNamesStep(ids, i);
      if internal != [] {
        internal := internal + ":";
      }
      internal := internal + name.value;
      i := i + 1;
    }
    assert ids[..i] == ids;
    if internal == [] {
      return a, false;
    }
    return a.(srtpCiphers := internal), true;
  }

  /** One more profile: its name joins the string after a ':' (or alone, for
      the first). */
  lemma JoinNamesStep(ids: seq<int>, i: nat)
    requires i < |ids| && AllKnown(ids[..i]) && SrtpSuites.KnownSuite(ids[i])
    ensures AllKnown(ids[..i + 1])
    ensures var last := InternalName(ids[i]).value;
            StringEncode.Join(InternalNames(ids[..i + 1]), ':') ==
              (if i == 0 then last else StringEncode.Join(InternalNames(ids[..i]), ':') + ":" + last)
    ensures |StringEncode.Join(InternalNames(ids[..i + 1]), ':')| > 0
  {
    assert ids[..i + 1][..i] == ids[..i];
    var names := InternalNames(ids[..i + 1]);
    assert names[..i] == InternalNames(ids[..i]);
    assert names[i] == InternalName(ids[i]).value;
  }

  /** `get_dtls_srtp_crypto_suite`: the profile OpenSSL selected, only once
      connected and only if one was selected. */
  function GetDtlsSrtpCryptoSuite(a: Adapter, selected: Option<int>): (r: Option<int>)
    ensures a.state != SslConnected ==> r.None?
    ensures a.state == SslConnected ==> r == selected
  {
    if a.state != SslConnected then None else selected
  }

  /** `get_ssl_cipher_suite`: the id of the negotiated cipher truncated to
      16 bits, only once connected and only if OpenSSL has a current
      cipher. */
  function GetSslCipherSuite(a: Adapter, currentCipherId: Option<nat>): (r: Option<nat>)
    ensures r.Some? <==> a.state == SslConnected && currentCipherId.Some?
    ensures r.Some? ==> r.value < 0x1_0000 && r.value == currentCipherId.value % 0x1_0000
  {
    if a.state != SslConnected then None
    else match currentCipherId
      case None => None
      case Some(id) => Some(id % 0x1_0000)
  }

  /** The capabilities the `SSLStreamAdapter` base class leaves to its
      subclasses. */
  datatype Capability = CipherSuiteQuery | KeyingMaterialExport | SrtpSuiteConfiguration | SrtpSuiteQuery

  /** The base class refuses every one of them. */
  function BaseClassSupports(c: Capability): (r: bool)
    ensures !r
  {
    match c
    case CipherSuiteQuery => false
    case KeyingMaterialExport => false
    case SrtpSuiteConfiguration => false
    case SrtpSuiteQuery => false
  }

  // ---------------------------------------------------------------------
  // Setters

  function SetServerRole(a: Adapter, role: SslRole): (r: Adapter)
    ensures r.role == role && r.(role := a.role) == a
  {
    a.(role := role)
  }

  function SetMode(a: Adapter, mode: SslMode): (r: Adapter)
    ensures r.mode == mode && r.(mode := a.mode) == a
  {
    a.(mode := mode)
  }

  function SetMaxProtocolVersion(a: Adapter, version: ProtocolVersion): (r: Adapter)
    ensures r.maxVersion == version && r.(maxVersion := a.maxVersion) == a
  {
    a.(maxVersion := version)
  }

  function SetIdentity(a: Adapter, present: bool): (r: Adapter)
    ensures r.hasIdentity == present && r.(hasIdentity := a.hasIdentity) == a
  {
    a.(hasIdentity := present)
  }
}
