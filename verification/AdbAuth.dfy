/** The adb connection handshake: handle_packet in core/adb/adb.c with the host's key cursor
    (core/adb/adb_auth_host.c) and the device's verifier (core/adb/adb_auth_client.c). One
    transition function serves both ends; the theorems are about arbitrary packet streams at
    the device and about the two ends run against each other. */
module AdbAuth {
  import opened Bytes

  type Token = seq<int>
  type Signature = seq<int>

  const RSA_BYTES: nat := 256

  /** Only what handle_packet looks at. `kind` is the banner in front of the first colon. */
  datatype Packet =
    | Sync(on: bool)
    | Cnxn(kind: string)
    | AuthToken(token: Token)
    | AuthSignature(sig: Signature)
    | AuthPublicKey
    | Open | Okay | Clse | Wrte
    | Other

  datatype ConnState = Offline | Bootloader | Device | Recovery | Sideload | HostSide

  /** parse_banner's choice. */
  function BannerState(kind: string): (r: ConnState)
    ensures r != Offline
    ensures (r == Bootloader <==> kind == "bootloader") && (r == Device <==> kind == "device")
    ensures (r == Recovery <==> kind == "recovery") && (r == Sideload <==> kind == "sideload")
  {
    if kind == "bootloader" then Bootloader
    else if kind == "device" then Device
    else if kind == "recovery" then Recovery
    else if kind == "sideload" then Sideload
    else HostSide
  }

  /** One end: which side it is, its keys, and the unseen operations. `draw(i)` is the i-th
      token drawn, None if drawing it fails. */
  datatype Env = Env(
    host: bool, authEnabled: bool, banner: string,
    privateKeys: seq<nat>, sign: (nat, Token) -> Option<Signature>, userKey: bool,
    publicKeys: seq<nat>, verify: (nat, Signature, Token) -> bool,
    draw: nat -> Option<Token>)

  /** send_auth_publickey: nothing is sent when the user's public key cannot be read. */
  function Offer(env: Env): seq<Packet> { if env.userKey then [AuthPublicKey] else [] }

  /** struct atransport, the fields of the handshake. `draws` counts tokens drawn. */
  datatype Transport = Transport(
    online: bool, state: ConnState, key: Option<nat>, token: Token, failed: nat, draws: nat)

  // ---------------------------------------------------------------- the key cursor

  /** The key after `current`: the first one for no current key, none after the last. */
  function NextKey(keys: seq<nat>, current: Option<nat>): Option<nat> {
    if keys == [] then None
    else if current.None? then Some(keys[0])
    else Successor(keys, current.value)
  }

  function Successor(keys: seq<nat>, k: nat): Option<nat> {
    if keys == [] then None
    else if keys[0] == k then (if |keys| == 1 then None else Some(keys[1]))
    else Successor(keys[1..], k)
  }

  predicate DistinctKeys(keys: seq<nat>) {
    forall i, j :: 0 <= i < j < |keys| ==> keys[i] != keys[j]
  }

  lemma {:induction false} SuccessorAt(keys: seq<nat>, i: nat)
    requires DistinctKeys(keys) && i < |keys|
    ensures Successor(keys, keys[i]) == if i + 1 < |keys| then Some(keys[i + 1]) else None
    decreases i
  {
    if i > 0 {
      SuccessorAt(keys[1..], i - 1);
    }
  }

  /** adb_auth_nextkey: the walk along the list. */
  method AdbAuthNextkey(keys: seq<nat>, current: Option<nat>) returns (next: Option<nat>)
    ensures next == NextKey(keys, current)
  {
    if keys == [] { return None; }
    if current.None? { return Some(keys[0]); }
    var i := 0;
    assert keys[0..] == keys;
    while i < |keys|
      invariant 0 <= i <= |keys|
      invariant Successor(keys[i..], current.value) == Successor(keys, current.value)
    {
      if keys[i] == current.value {
        return if i + 1 == |keys| then None else Some(keys[i + 1]);
      }
      assert keys[i..][1..] == keys[i + 1..];
      i := i + 1;
    }
    next := None;
  }

  /** adb_auth_verify: some public key accepts the signature for the token. */
  ghost predicate Accepted(env: Env, token: Token, sig: Signature) {
    |sig| == RSA_BYTES && exists k :: k in env.publicKeys && env.verify(k, sig, token)
  }

  predicate AnyAccepts(env: Env, keys: seq<nat>, token: Token, sig: Signature) {
    keys != [] && (env.verify(keys[0], sig, token) || AnyAccepts(env, keys[1..], token, sig))
  }

  predicate Verifies(env: Env, token: Token, sig: Signature) {
    |sig| == RSA_BYTES && AnyAccepts(env, env.publicKeys, token, sig)
  }

  lemma {:induction false} AnyAcceptsMeans(env: Env, keys: seq<nat>, token: Token, sig: Signature)
    ensures AnyAccepts(env, keys, token, sig) <==> exists k :: k in keys && env.verify(k, sig, token)
    decreases |keys|
  {
    if keys != [] {
      AnyAcceptsMeans(env, keys[1..], token, sig);
      if k :| k in keys && env.verify(k, sig, token) {
        assert k == keys[0] || k in keys[1..];
      }
    }
  }

  method AdbAuthVerify(env: Env, token: Token, sig: Signature) returns (ok: bool)
    ensures ok <==> Accepted(env, token, sig)
    ensures ok <==> Verifies(env, token, sig)
  {
    AnyAcceptsMeans(env, env.publicKeys, token, sig);
    if |sig| != RSA_BYTES { return false; }
    var i := 0;
    while i < |env.publicKeys|
      invariant 0 <= i <= |env.publicKeys|
      invariant forall j :: 0 <= j < i ==> !env.verify(env.publicKeys[j], sig, token)
    {
      if env.verify(env.publicKeys[i], sig, token) {
        assert env.publicKeys[i] in env.publicKeys;
        return true;
      }
      i := i + 1;
    }
    ok := false;
  }

  // ------------------------------------------------------------------ handle_packet

  /** The transport afterwards, the packets sent, and whether a socket was touched. */
  datatype Effect = Effect(t: Transport, sent: seq<Packet>, touched: bool)

  /** send_auth_request: draw a token and send it, or do nothing if drawing fails. */
  function SendAuthRequest(env: Env, t: Transport): Effect {
    match env.draw(t.draws)
    case None => Effect(t.(draws := t.draws + 1), [], false)
    case Some(tok) => Effect(t.(token := tok, draws := t.draws + 1), [AuthToken(tok)], false)
  }

  /** adb_auth_verified. */
  function Verified(env: Env, t: Transport): Effect {
    Effect(t.(online := true), [Cnxn(env.banner)], false)
  }

  function Handle(env: Env, t: Transport, p: Packet): Effect {
    match p
    case Sync(on) =>
      if on then Effect(t, if env.host then [p, Cnxn(env.banner)] else [p], false)
      else Effect(t.(state := Offline, online := false), [p], false)
    case Cnxn(kind) =>
      var t1 := if t.state != Offline then t.(online := false) else t;
      var t2 := t1.(state := BannerState(kind));
      if env.host then Effect(t2.(online := true), [], false)
      else if !env.authEnabled then Effect(t2.(online := true), [Cnxn(env.banner)], false)
      else SendAuthRequest(env, t2)
    case AuthToken(token) =>
      var t1 := t.(key := NextKey(env.privateKeys, t.key));
      if t1.key.None? then Effect(t1, Offer(env), false)
      else
        var sig := env.sign(t1.key.value, token);
        Effect(t1, if sig.None? then [] else [AuthSignature(sig.value)], false)
    case AuthSignature(sig) =>
      if Verifies(env, t.token, sig) then
        var e := Verified(env, t);
        e.(t := e.t.(failed := 0))
      else SendAuthRequest(env, t.(failed := t.failed + 1))
    case AuthPublicKey => Effect(t, [], false)
    case Open | Okay | Clse | Wrte => Effect(t, [], t.online)
    case Other => Effect(t, [], false)
  }

  /** One end of a connection, mutated packet by packet. */
  class Endpoint {
    const env: Env
    var online: bool
    var connectionState: ConnState
    var key: Option<nat>
    var token: Token
    var failedAuthAttempts: nat
    var draws: nat
    var sent: seq<Packet>

    ghost function Model(): Transport
      reads this
    {
      Transport(online, connectionState, key, token, failedAuthAttempts, draws)
    }

    constructor (env: Env)
      ensures this.env == env && sent == []
      ensures Model() == Transport(false, Offline, None, [], 0, 0)
    {
      this.env := env;
      online, connectionState, key, token := false, Offline, None, [];
      failedAuthAttempts, draws, sent := 0, 0, [];
    }

    method SendRequest()
      modifies this
      ensures var e := SendAuthRequest(env, old(Model())); Model() == e.t && sent == old(sent) + e.sent
    {
      var tok := env.draw(draws);
      draws := draws + 1;
      if tok.Some? {
        token := tok.value;
        sent := sent + [AuthToken(token)];
      }
    }

    method HandlePacket(p: Packet) returns (touched: bool)
      modifies this
      ensures Effect(Model(), sent, touched) ==
        var e := Handle(env, old(Model()), p); e.(sent := old(sent) + e.sent)
    {
      touched := false;
      match p
      case Sync(on) =>
        if on {
          sent := sent + [p];
          if env.host { sent := sent + [Cnxn(env.banner)]; }
        } else {
          connectionState, online := Offline, false;
          sent := sent + [p];
        }
      case Cnxn(kind) =>
        if connectionState != Offline {
          connectionState, online := Offline, false;
        }
        connectionState := BannerState(kind);
        if env.host || !env.authEnabled {
          online := true;
          if !env.host { sent := sent + [Cnxn(env.banner)]; }
        } else {
          SendRequest();
        }
      case AuthToken(tok) =>
        key := AdbAuthNextkey(env.privateKeys, key);
        if key.Some? {
          var sig := env.sign(key.value, tok);
          if sig.Some? { sent := sent + [AuthSignature(sig.value)]; }
        } else {
          sent := sent + Offer(env);
        }
      case AuthSignature(sig) =>
        var ok := AdbAuthVerify(env, token, sig);
        if ok {
          online := true;
          sent := sent + [Cnxn(env.banner)];
          failedAuthAttempts := 0;
        } else {
          failedAuthAttempts := failedAuthAttempts + 1;
          SendRequest();
        }
      case AuthPublicKey =>
      case Open => touched := online;
      case Okay => touched := online;
      case Clse => touched := online;
      case Wrte => touched := online;
      case Other =>
    }
  }

  // -------------------------------------------- any packets at all, at the device

  /** What reaches a device: a packet, or the user's consent to a key (adb_auth_event). */
  datatype Event = Packet(p: Packet) | Consent

  function React(env: Env, t: Transport, e: Event): Effect {
    match e
    case Packet(p) => Handle(env, t, p)
    case Consent => Verified(env, t)
  }

  /** The transport after the first `n` events. */
  function After(env: Env, t: Transport, es: seq<Event>, n: nat): Transport
    requires n <= |es|
  {
    if n == 0 then t else React(env, After(env, t, es, n - 1), es[n - 1]).t
  }

  /** The device is convinced by this event. */
  predicate Convincing(env: Env, t: Transport, e: Event) {
    match e
    case Packet(AuthSignature(sig)) => Verifies(env, t.token, sig)
    case Packet(_) => false
    case Consent => true
  }

  /** Only a convincing event puts a device with authentication enabled online. */
  lemma OnlyConvincingGoesOnline(env: Env, t: Transport, e: Event)
    requires !env.host && env.authEnabled && !t.online && React(env, t, e).t.online
    ensures Convincing(env, t, e)
  {
  }

  ghost predicate OnlineSince(env: Env, t: Transport, es: seq<Event>, j: nat, n: nat)
    requires n <= |es|
  {
    forall k :: j < k <= n ==> After(env, t, es, k).online
  }

  lemma AfterStep(env: Env, t: Transport, es: seq<Event>, n: nat)
    requires 0 < n <= |es|
    ensures After(env, t, es, n) == React(env, After(env, t, es, n - 1), es[n - 1]).t
  {
  }

  /** For every stream of packets, well-behaved or not: a device that is online, and so may
      touch sockets, was convinced at some earlier event and has been online ever since. */
  lemma {:induction false} SocketsNeedConviction(env: Env, t: Transport, es: seq<Event>, n: nat) returns (j: nat)
    requires !env.host && env.authEnabled && !t.online && n <= |es|
    requires After(env, t, es, n).online
    ensures j < n && Convincing(env, After(env, t, es, j), es[j]) && OnlineSince(env, t, es, j, n)
    decreases n
  {
    assert n > 0;
    AfterStep(env, t, es, n);
    hide After, React, Convincing;
    if After(env, t, es, n - 1).online {
      j := SocketsNeedConviction(env, t, es, n - 1);
    } else {
      OnlyConvincingGoesOnline(env, After(env, t, es, n - 1), es[n - 1]);
      j := n - 1;
    }
  }

  /** An event that ends a connection: SYNC(0), or CNXN on a transport that has a state. */
  predicate Ending(t: Transport, e: Event) {
    e.Packet? && (e.p == Sync(false) || (e.p.Cnxn? && t.state != Offline))
  }

  predicate StreamPacket(e: Event) { e.Packet? && (e.p.Open? || e.p.Okay? || e.p.Clse? || e.p.Wrte?) }

  lemma OnlineMoves(env: Env, t: Transport, e: Event)
    requires !env.host && env.authEnabled
    ensures Convincing(env, t, e) ==> React(env, t, e).t.online
    ensures t.online && !Ending(t, e) ==> React(env, t, e).t.online
    ensures Ending(t, e) ==> !React(env, t, e).t.online
    ensures React(env, t, e).touched <==> t.online && StreamPacket(e)
  {
  }

  /** The device was convinced at event `j` and no event since then, in front of the n-th, has ended the connection. */
  ghost predicate ConvincedAt(env: Env, t: Transport, es: seq<Event>, j: nat, n: nat)
    requires n <= |es|
  {
    && j < n && Convincing(env, After(env, t, es, j), es[j])
    && forall k :: j < k < n ==> !Ending(After(env, t, es, k), es[k])
  }

  /** How the n-th event of a stream moves the device on and off line. */
  lemma OnlineStep(env: Env, t: Transport, es: seq<Event>, n: nat)
    requires !env.host && env.authEnabled && n < |es|
    ensures Convincing(env, After(env, t, es, n), es[n]) ==> After(env, t, es, n + 1).online
    ensures After(env, t, es, n).online && !Ending(After(env, t, es, n), es[n]) ==> After(env, t, es, n + 1).online
    ensures Ending(After(env, t, es, n), es[n]) ==> !After(env, t, es, n + 1).online
  {
    AfterStep(env, t, es, n + 1);
    OnlineMoves(env, After(env, t, es, n), es[n]);
  }

  lemma {:induction false} StaysOnline(env: Env, t: Transport, es: seq<Event>, j: nat, n: nat)
    requires !env.host && env.authEnabled && n <= |es| && ConvincedAt(env, t, es, j, n)
    ensures After(env, t, es, n).online
    decreases n
  {
    hide After, Convincing, Ending;
    OnlineStep(env, t, es, n - 1);
    if j < n - 1 { StaysOnline(env, t, es, j, n - 1); }
  }

  /** Over every stream of events, well-behaved or not: an event touches a socket exactly when it is a stream packet
      and the device was convinced before and the connection has not been ended since. Before the first convincing
      event, and after SYNC(0) until the next one, none does. */
  lemma TouchedExactly(env: Env, t: Transport, es: seq<Event>, n: nat)
    requires !env.host && env.authEnabled && !t.online && n < |es|
    ensures React(env, After(env, t, es, n), es[n]).touched
      <==> StreamPacket(es[n]) && exists j :: ConvincedAt(env, t, es, j, n)
  {
    OnlineMoves(env, After(env, t, es, n), es[n]);
    hide React, Convincing, Ending, After, StreamPacket;
    if After(env, t, es, n).online {
      var j := SocketsNeedConviction(env, t, es, n);
      forall k | j < k < n ensures !Ending(After(env, t, es, k), es[k]) {
        OnlineStep(env, t, es, k);
      }
      assert ConvincedAt(env, t, es, j, n);
    } else if j :| ConvincedAt(env, t, es, j, n) {
      StaysOnline(env, t, es, j, n);
    }
  }

  // ------------------------------------------------------------ two ends, one cable

  datatype System = System(h: Transport, d: Transport, toHost: seq<Packet>, toDevice: seq<Packet>)

  /** The next packet is delivered, whichever end it is for. */
  function Deliver(he: Env, de: Env, s: System): System {
    if s.toDevice != [] then
      var e := Handle(de, s.d, s.toDevice[0]);
      System(s.h, e.t, s.toHost + e.sent, s.toDevice[1..])
    else if s.toHost != [] then
      var e := Handle(he, s.h, s.toHost[0]);
      System(e.t, s.d, s.toHost[1..], s.toDevice + e.sent)
    else s
  }

  function Deliveries(he: Env, de: Env, s: System, n: nat): System {
    if n == 0 then s else Deliver(he, de, Deliveries(he, de, s, n - 1))
  }

  /** Host and device with their unseen operations working: every token can be drawn and
      signed, and whether the device accepts a signature depends on the key alone. */
  ghost predicate Working(he: Env, de: Env, accepts: nat -> bool) {
    && he.host && !de.host && de.authEnabled
    && DistinctKeys(he.privateKeys)
    && (forall i: nat :: de.draw(i).Some?)
    && (forall k, tok :: he.sign(k, tok).Some?)
    && (forall k, tok :: he.sign(k, tok).Some? ==> (Verifies(de, tok, he.sign(k, tok).value) <==> accepts(k)))
  }

  /** The host's cursor stands in front of key `i`: no key tried for 0, else key `i - 1`. */
  predicate CursorBefore(keys: seq<nat>, key: Option<nat>, i: nat) {
    i <= |keys| && key == if i == 0 then None else Some(keys[i - 1])
  }

  /** After `r` rejected keys: the device is offline, has counted the rejections, and its next
      token is on its way to a host about to try key `i`. */
  ghost predicate TokenInFlight(he: Env, de: Env, s: System, i: nat, r: nat, draws: nat) {
    && CursorBefore(he.privateKeys, s.h.key, i)
    && !s.d.online && s.d.failed == r && s.d.draws == draws && s.d.state == BannerState(he.banner)
    && s.toDevice == [] && s.toHost == [AuthToken(s.d.token)]
  }

  lemma CursorMoves(keys: seq<nat>, key: Option<nat>, i: nat)
    requires DistinctKeys(keys) && CursorBefore(keys, key, i)
    ensures i < |keys| ==> NextKey(keys, key) == Some(keys[i])
    ensures 0 < i == |keys| ==> NextKey(keys, key) == None
    ensures keys == [] ==> NextKey(keys, key) == None
  {
    if i > 0 {
      SuccessorAt(keys, i - 1);
    }
  }

  /** Two deliveries with a key the device rejects: back to the same situation, one further. */
  lemma RejectedRound(he: Env, de: Env, accepts: nat -> bool, s: System, i: nat, r: nat, draws: nat)
    requires Working(he, de, accepts) && TokenInFlight(he, de, s, i, r, draws)
    requires i < |he.privateKeys| && !accepts(he.privateKeys[i])
    ensures OfflineThrough(he, de, s, 2)
    ensures TokenInFlight(he, de, Deliveries(he, de, s, 2), i + 1, r + 1, draws + 1)
  {
    CursorMoves(he.privateKeys, s.h.key, i);
    assert Deliveries(he, de, s, 0) == s;
    var s1 := Deliver(he, de, s);
    assert s1 == Deliveries(he, de, s, 1);
    assert s1.toDevice == [AuthSignature(he.sign(he.privateKeys[i], s.d.token).value)];
    assert s1.toHost == [];
    var s2 := Deliver(he, de, s1);
    assert s2 == Deliveries(he, de, s, 2);
    assert s2.toHost == [AuthToken(s2.d.token)];
    forall m: nat | m <= 2 ensures !Deliveries(he, de, s, m).d.online {
      assert m == 0 || m == 1 || m == 2;
    }
  }

  /** Two deliveries with a key the device accepts: online, the count reset, CNXN sent. */
  lemma AcceptedRound(he: Env, de: Env, accepts: nat -> bool, s: System, i: nat, r: nat, draws: nat)
    requires Working(he, de, accepts) && TokenInFlight(he, de, s, i, r, draws)
    requires i < |he.privateKeys| && accepts(he.privateKeys[i])
    ensures OfflineThrough(he, de, s, 1)
    ensures var s2 := Deliveries(he, de, s, 2);
            s2.d.online && s2.d.failed == 0 && s2.d.draws == draws && s2.d.state == BannerState(he.banner)
            && s2.toHost == [Cnxn(de.banner)] && s2.toDevice == []
  {
    CursorMoves(he.privateKeys, s.h.key, i);
    assert Deliveries(he, de, s, 0) == s;
    var s1 := Deliver(he, de, s);
    assert s1 == Deliveries(he, de, s, 1);
    assert s1.toDevice == [AuthSignature(he.sign(he.privateKeys[i], s.d.token).value)];
    assert s1.toHost == [];
    var s2 := Deliver(he, de, s1);
    assert s2 == Deliveries(he, de, s, 2);
    OfflineOne(he, de, s);
  }

  lemma {:induction false} DeliveriesAdd(he: Env, de: Env, s: System, a: nat, b: nat)
    ensures Deliveries(he, de, s, a + b) == Deliveries(he, de, Deliveries(he, de, s, a), b)
    decreases b
  {
    hide Deliver;
    if b > 0 {
      DeliveriesAdd(he, de, s, a, b - 1);
    }
  }

  /** The device is offline now and through the next `n` deliveries. */
  ghost predicate OfflineThrough(he: Env, de: Env, s: System, n: nat) {
    forall m: nat :: m <= n ==> !Deliveries(he, de, s, m).d.online
  }

  lemma OfflineConcat(he: Env, de: Env, s: System, a: nat, b: nat)
    requires OfflineThrough(he, de, s, a) && OfflineThrough(he, de, Deliveries(he, de, s, a), b)
    ensures OfflineThrough(he, de, s, a + b)
  {
    hide Deliver, Deliveries;
    forall m: nat | m <= a + b ensures !Deliveries(he, de, s, m).d.online {
      if m > a {
        DeliveriesAdd(he, de, s, a, m - a);
      }
    }
  }

  lemma OfflineOne(he: Env, de: Env, s: System)
    requires !s.d.online && !Deliveries(he, de, s, 1).d.online
    ensures OfflineThrough(he, de, s, 1)
  {
    hide Deliver;
    assert Deliveries(he, de, s, 0) == s;
  }

  /** While keys are rejected: after `2 * r` deliveries exactly `r` keys have been refused and
      at no delivery in between was the device online. */
  lemma {:induction false} RejectedRounds(
    he: Env, de: Env, accepts: nat -> bool, s: System, i: nat, r0: nat, draws: nat, r: nat)
    requires Working(he, de, accepts) && TokenInFlight(he, de, s, i, r0, draws)
    requires i + r <= |he.privateKeys|
    requires forall k :: i <= k < i + r ==> !accepts(he.privateKeys[k])
    ensures TokenInFlight(he, de, Deliveries(he, de, s, 2 * r), i + r, r0 + r, draws + r)
    ensures OfflineThrough(he, de, s, 2 * r)
    decreases r
  {
    hide Deliver, Working, OfflineThrough, TokenInFlight, Deliveries;
    if r == 0 {
      NoDelivery(he, de, s);
      OfflineInFlight(he, de, s, i, r0, draws);
    } else {
      RejectedRounds(he, de, accepts, s, i, r0, draws, r - 1);
      var t := Deliveries(he, de, s, 2 * (r - 1));
      RejectedRound(he, de, accepts, t, i + (r - 1), r0 + (r - 1), draws + (r - 1));
      DeliveriesAdd(he, de, s, 2 * (r - 1), 2);
      OfflineConcat(he, de, s, 2 * (r - 1), 2);
    }
  }

  lemma NoDelivery(he: Env, de: Env, s: System)
    ensures Deliveries(he, de, s, 0) == s
    ensures OfflineThrough(he, de, s, 0) <==> !s.d.online
  {
  }

  lemma OfflineInFlight(he: Env, de: Env, s: System, i: nat, r: nat, draws: nat)
    requires TokenInFlight(he, de, s, i, r, draws)
    ensures !s.d.online
  {
  }

  /** Where a connection starts: the host's CNXN on its way to an offline device, the host's
      cursor in front of key `i`. */
  ghost predicate Fresh(he: Env, s: System, i: nat) {
    && CursorBefore(he.privateKeys, s.h.key, i)
    && !s.d.online && s.d.state == Offline && s.d.failed == 0 && s.d.draws == 0
    && s.toHost == [] && s.toDevice == [Cnxn(he.banner)]
  }

  lemma FirstToken(he: Env, de: Env, accepts: nat -> bool, s: System, i: nat)
    requires Working(he, de, accepts) && Fresh(he, s, i)
    ensures TokenInFlight(he, de, Deliveries(he, de, s, 1), i, 0, 1)
    ensures OfflineThrough(he, de, s, 1)
  {
    assert Deliveries(he, de, s, 0) == s;
    assert Deliveries(he, de, s, 1) == Deliver(he, de, s);
    OfflineOne(he, de, s);
  }

  /** The first token, then `r` rejected keys. */
  lemma Opening(he: Env, de: Env, accepts: nat -> bool, s: System, i: nat, r: nat)
    requires Working(he, de, accepts) && Fresh(he, s, i)
    requires i + r <= |he.privateKeys|
    requires forall k :: i <= k < i + r ==> !accepts(he.privateKeys[k])
    ensures TokenInFlight(he, de, Deliveries(he, de, s, 1 + 2 * r), i + r, r, 1 + r)
    ensures OfflineThrough(he, de, s, 1 + 2 * r)
  {
    hide Deliver, Working, OfflineThrough, TokenInFlight, Deliveries, Fresh;
    FirstToken(he, de, accepts, s, i);
    var s1 := Deliveries(he, de, s, 1);
    RejectedRounds(he, de, accepts, s1, i, 0, 1, r);
    DeliveriesAdd(he, de, s, 1, 2 * r);
    OfflineConcat(he, de, s, 1, 2 * r);
  }

  /** The handshake when some key from the cursor on is accepted, `i + j` being the first: the
      device goes online at delivery `2 * j + 3`, not before, having drawn exactly `j + 1`
      tokens, and one delivery later the host is online too. */
  lemma HandshakeAccepts(he: Env, de: Env, accepts: nat -> bool, s: System, i: nat, j: nat)
    requires Working(he, de, accepts) && Fresh(he, s, i)
    requires i + j < |he.privateKeys| && accepts(he.privateKeys[i + j])
    requires forall k :: i <= k < i + j ==> !accepts(he.privateKeys[k])
    ensures OfflineThrough(he, de, s, 2 * j + 2)
    ensures var t := Deliveries(he, de, s, 2 * j + 3);
            t.d.online && t.d.draws == j + 1 && t.d.failed == 0 && t.toHost == [Cnxn(de.banner)] && t.toDevice == []
    ensures Connected(he, de, Deliveries(he, de, s, 2 * j + 4))
  {
    hide Deliver, Working, OfflineThrough, TokenInFlight, Deliveries, Fresh;
    Opening(he, de, accepts, s, i, j);
    var t := Deliveries(he, de, s, 1 + 2 * j);
    AcceptedRound(he, de, accepts, t, i + j, j, 1 + j);
    OfflineConcat(he, de, s, 1 + 2 * j, 1);
    DeliveriesAdd(he, de, s, 1 + 2 * j, 2);
    assert he.host by { WorkingHost(he, de, accepts); }
    HostFollows(he, de, s, 2 * j + 3);
  }

  /** Both ends are online, each in the state that the banner of the other names, and nothing is on its way. */
  ghost predicate Connected(he: Env, de: Env, s: System) {
    && s.h.online && s.d.online && s.toHost == [] && s.toDevice == []
    && s.h.state == BannerState(de.banner) && s.d.state == BannerState(he.banner)
  }

  /** The device's CNXN puts the host online. */
  lemma HostFollows(he: Env, de: Env, s: System, n: nat)
    requires he.host && Deliveries(he, de, s, n).d.online && Deliveries(he, de, s, n).d.state == BannerState(he.banner)
    requires Deliveries(he, de, s, n).toDevice == [] && Deliveries(he, de, s, n).toHost == [Cnxn(de.banner)]
    ensures Connected(he, de, Deliveries(he, de, s, n + 1))
  {
    assert Deliveries(he, de, s, n + 1) == Deliver(he, de, Deliveries(he, de, s, n));
  }

  /** The handshake when no key from the cursor on is accepted: the device stays offline through
      every one of them, and in answer to the token after the last the host offers its public
      key, if it can read it. */
  lemma HandshakeRejects(he: Env, de: Env, accepts: nat -> bool, s: System, i: nat, n: nat)
    requires Working(he, de, accepts) && Fresh(he, s, i) && i + n == |he.privateKeys|
    requires forall k :: i <= k < i + n ==> !accepts(he.privateKeys[k])
    ensures OfflineThrough(he, de, s, 2 * n + 2)
    ensures var t := Deliveries(he, de, s, 2 * n + 2);
            t.toDevice == (if he.userKey then [AuthPublicKey] else []) && t.toHost == []
            && t.d.state == BannerState(he.banner) && t.d.draws == n + 1 && t.d.failed == n && t.h.key == None
  {
    hide Deliver, Working, OfflineThrough, TokenInFlight, Deliveries, Fresh;
    Opening(he, de, accepts, s, i, n);
    LastToken(he, de, accepts, Deliveries(he, de, s, 1 + 2 * n), n, 1 + n);
    DeliveriesAdd(he, de, s, 1 + 2 * n, 1);
    OfflineConcat(he, de, s, 1 + 2 * n, 1);
  }

  lemma LastToken(he: Env, de: Env, accepts: nat -> bool, s: System, r: nat, draws: nat)
    requires Working(he, de, accepts) && TokenInFlight(he, de, s, |he.privateKeys|, r, draws)
    ensures var t := Deliveries(he, de, s, 1);
            && t.toDevice == (if he.userKey then [AuthPublicKey] else []) && t.toHost == []
            && t.h.key == None && t.d == s.d
            && t.d.state == BannerState(he.banner)
    ensures OfflineThrough(he, de, s, 1) && s.d.draws == draws && s.d.failed == r
  {
    CursorMoves(he.privateKeys, s.h.key, |he.privateKeys|);
    assert Deliveries(he, de, s, 0) == s;
    OfflineOne(he, de, s);
  }

  lemma WorkingHost(he: Env, de: Env, accepts: nat -> bool)
    requires Working(he, de, accepts)
    ensures he.host && !de.host && de.authEnabled
  {
  }

  // ------------------------------------------------------------------ how a connection starts

  /** The input thread (core/adb/transport.c) between what handle_packet sends and the cable: it waits for SYNC(1) to
      come back, then passes packets on, and ends at SYNC(0). */
  datatype Pump = Idle | Active | Gone

  /** What becomes of the thread, and what goes out on the cable. */
  function Pumped(pump: Pump, sent: seq<Packet>): (Pump, seq<Packet>)
    decreases |sent|
  {
    if sent == [] then (pump, [])
    else if sent[0].Sync? then
      Pumped(if pump.Gone? || !sent[0].on then Gone else Active, sent[1..])
    else
      var (p, out) := Pumped(pump, sent[1..]);
      (p, if pump.Active? then [sent[0]] + out else out)
  }

  lemma PumpedOne(pump: Pump, p: Packet)
    ensures Pumped(pump, [p]) ==
      if p.Sync? then (if pump.Gone? || !p.on then Gone else Active, []) else (pump, if pump.Active? then [p] else [])
  {
    assert [p][1..] == [];
    assert Pumped(pump, []) == (pump, []);
    var none: seq<Packet> := [];
    assert [p] + none == [p];
  }

  /** Once it runs, everything goes out, in order. */
  lemma {:induction false} ActivePasses(sent: seq<Packet>)
    requires forall i :: 0 <= i < |sent| ==> !sent[i].Sync?
    ensures Pumped(Active, sent) == (Active, sent)
    decreases |sent|
  {
    if sent != [] {
      ActivePasses(sent[1..]);
      assert [sent[0]] + sent[1..] == sent;
    }
  }

  /** A transport just made. */
  const NEW: Transport := Transport(false, Offline, None, [], 0, 0)

  /** Two new ends after the SYNC(1) that each output thread begins with. */
  function Started(he: Env, de: Env): System {
    var h, d := Handle(he, NEW, Sync(true)), Handle(de, NEW, Sync(true));
    System(h.t, d.t, Pumped(Idle, d.sent).1, Pumped(Idle, h.sent).1)
  }

  /** Two endpoints made and told SYNC(1): the host announces itself, the device waits, both let packets out. */
  method Start(he: Env, de: Env) returns (h: Endpoint, d: Endpoint)
    requires he.host && !de.host
    ensures h.Model() == NEW && d.Model() == NEW
    ensures Pumped(Idle, h.sent) == (Active, [Cnxn(he.banner)]) && Pumped(Idle, d.sent) == (Active, [])
    ensures Started(he, de) == System(h.Model(), d.Model(), [], [Cnxn(he.banner)])
  {
    StartsFresh(he, de);
    h := new Endpoint(he);
    d := new Endpoint(de);
    var touched := h.HandlePacket(Sync(true));
    touched := d.HandlePacket(Sync(true));
    assert h.sent == Handle(he, NEW, Sync(true)).sent && d.sent == Handle(de, NEW, Sync(true)).sent;
  }

  lemma StartsFresh(he: Env, de: Env)
    requires he.host && !de.host
    ensures Fresh(he, Started(he, de), 0) && Started(he, de) == System(NEW, NEW, [], [Cnxn(he.banner)])
    ensures Pumped(Idle, Handle(he, NEW, Sync(true)).sent) == (Active, [Cnxn(he.banner)])
    ensures Pumped(Idle, Handle(de, NEW, Sync(true)).sent) == (Active, [])
  {
    assert [Sync(true), Cnxn(he.banner)][1..] == [Cnxn(he.banner)];
    PumpedOne(Active, Cnxn(he.banner));
    PumpedOne(Idle, Sync(true));
  }

  /** From there, if key `j` is the first that is accepted, both ends are connected after exactly `2 * j + 4` deliveries
      on the cable, the device having been offline up to the last but one. */
  lemma StartConnects(he: Env, de: Env, accepts: nat -> bool, j: nat)
    requires Working(he, de, accepts) && j < |he.privateKeys| && accepts(he.privateKeys[j])
    requires forall k :: 0 <= k < j ==> !accepts(he.privateKeys[k])
    ensures OfflineThrough(he, de, Started(he, de), 2 * j + 2)
    ensures Connected(he, de, Deliveries(he, de, Started(he, de), 2 * j + 4))
  {
    StartsFresh(he, de);
    HandshakeAccepts(he, de, accepts, Started(he, de), 0, j);
  }

  /** If none is, the public key is offered; consent to it then connects both ends. */
  lemma ConsentConnects(he: Env, de: Env, accepts: nat -> bool)
    requires Working(he, de, accepts) && he.userKey
    requires forall k :: k in he.privateKeys ==> !accepts(k)
    ensures var n := 2 * |he.privateKeys| + 3;
      && OfflineThrough(he, de, Started(he, de), n)
      && var s := Deliveries(he, de, Started(he, de), n);
         && s.toHost == [] && s.toDevice == []
         && var e := React(de, s.d, Consent);
            Connected(he, de, Deliver(he, de, System(s.h, e.t, Pumped(Active, e.sent).1, [])))
  {
    hide Deliver, Working, Deliveries, Fresh, OfflineThrough, Started, Connected;
    var s0, n := Started(he, de), |he.privateKeys|;
    WorkingHost(he, de, accepts);
    StartsFresh(he, de);
    HandshakeRejects(he, de, accepts, s0, 0, n);
    DeliveriesAdd(he, de, s0, 2 * n + 2, 1);
    OfflineAt(he, de, s0, 2 * n + 2);
    OfferTaken(he, de, Deliveries(he, de, s0, 2 * n + 2));
    OfflineConcat(he, de, s0, 2 * n + 2, 1);
  }

  lemma OfflineAt(he: Env, de: Env, s: System, n: nat)
    requires OfflineThrough(he, de, s, n)
    ensures !Deliveries(he, de, s, n).d.online
  {
  }

  lemma OfferTaken(he: Env, de: Env, s: System)
    requires he.host && !de.host && s.toDevice == [AuthPublicKey] && s.toHost == []
    requires !s.d.online && s.d.state == BannerState(he.banner)
    ensures OfflineThrough(he, de, s, 1)
    ensures var t := Deliveries(he, de, s, 1);
      && t.toHost == [] && t.toDevice == []
      && var e := React(de, t.d, Consent);
         Connected(he, de, Deliver(he, de, System(t.h, e.t, Pumped(Active, e.sent).1, [])))
  {
    assert Deliveries(he, de, s, 0) == s;
    assert Deliveries(he, de, s, 1) == Deliver(he, de, s);
    assert [AuthPublicKey][1..] == [];
    OfflineOne(he, de, s);
    PumpedOne(Active, Cnxn(de.banner));
    assert [Cnxn(de.banner)][1..] == [];
  }

  /** A device without authentication is online with the first packet, the host with the second. */
  lemma NoAuthConnects(he: Env, de: Env)
    requires he.host && !de.host && !de.authEnabled
    ensures Deliveries(he, de, Started(he, de), 1).d.online && !Deliveries(he, de, Started(he, de), 1).h.online
    ensures Connected(he, de, Deliveries(he, de, Started(he, de), 2))
  {
    var s := Started(he, de);
    StartsFresh(he, de);
    assert Deliveries(he, de, s, 0) == s;
    assert Deliveries(he, de, s, 1) == Deliver(he, de, s);
    assert [Cnxn(he.banner)][1..] == [];
    HostFollows(he, de, s, 1);
  }

  /** SYNC(0) takes an end offline and, coming back to it, ends its input thread; from then on nothing leaves. */
  lemma SyncEnds(env: Env, t: Transport, pump: Pump)
    ensures var e := Handle(env, t, Sync(false));
      && !e.t.online && e.t.state == Offline && Pumped(pump, e.sent) == (Gone, [])
  {
    PumpedOne(pump, Sync(false));
  }

  lemma {:induction false} GoneSendsNothing(sent: seq<Packet>)
    ensures Pumped(Gone, sent) == (Gone, [])
  {
    if sent != [] { GoneSendsNothing(sent[1..]); }
  }

  /** Before SYNC(1) has come back nothing leaves either. */
  lemma {:induction false} IdleSendsNothing(sent: seq<Packet>)
    requires forall p :: p in sent ==> !p.Sync?
    ensures Pumped(Idle, sent) == (Idle, [])
  {
    if sent != [] { IdleSendsNothing(sent[1..]); }
  }
}
