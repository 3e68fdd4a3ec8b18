/**
 The polled NTP synchronisation of the clock (`checktime`) and the two lwIP
 callbacks that feed it (`ntpcb_dns`, `ntpcb_recv`).  Each call is a pure
 step: the current session and what the WiFi and network layers answer go
 in; the next session, the return value and the calls the program makes into
 those layers come out.
 */
module TimeSync {

  import opened MachineInts
  import opened NtpWire
  import opened ClockTime

  /** An IPv4 or IPv6 address, left abstract. */
  type Address = nat

  /** What `cyw43_tcpip_link_status` reports for the station interface. */
  datatype LinkStatus = LinkDown | LinkJoin | LinkNoIp | LinkUp | LinkFail | LinkNoNet | LinkBadAuth

  /** FAIL, NONET and BADAUTH end a connection attempt. */
  predicate HardFailure(link: LinkStatus) {
    link == LinkFail || link == LinkBadAuth || link == LinkNoNet
  }

  /** What `dns_gethostbyname` returns: ERR_OK with a cached address,
      ERR_INPROGRESS (the callback will come later), or any other error. */
  datatype DnsReturn = DnsCached(address: Address) | DnsInProgress | DnsFailed

  /** The answers of the collaborators during one `checktime` call.
      `socketCreated` is whether `udp_new_ip_type` would succeed if asked. */
  datatype Environment = Environment(link: LinkStatus, socketCreated: bool, dns: DnsReturn)

  /** The calls into the WiFi, UDP and RTC layers, in the order they are made. */
  datatype Action =
    | WifiStart                                    // init, station mode, async connect
    | WifiStop                                     // cyw43_arch_deinit
    | RemoveSocket                                 // udp_remove
    | OpenSocket                                   // udp_new_ip_type succeeded, udp_recv registered
    | DnsLookup                                    // dns_gethostbyname
    | Send(to: Address, port: int, payload: seq<byte>)   // udp_sendto
    | SetRtc(time: DateTime)                       // rtc_set_datetime

  /** `l_active`, `l_connecting` and the NTP state object (whether it holds a
      socket, the server address, `active_query`, `time`). */
  datatype Session = Session(active: bool, connecting: bool, socket: bool,
                             server: Address, activeQuery: bool, time: uint32)

  /** The statics as the program starts: all zero. */
  const Boot: Session := Session(false, false, false, 0, false, 0)

  /** The outcome of one `checktime` call. */
  datatype Poll = Poll(session: Session, synced: bool, actions: seq<Action>)

  /** The outcome of a callback, which returns nothing. */
  datatype Reaction = Reaction(session: Session, actions: seq<Action>)

  /** `ntp_request`: one client request to the saved server, port 123. */
  function RequestTo(server: Address): Action {
    Send(server, NtpPort, Request())
  }

  /** Whether the actions reach out to the network: a lookup or a send. */
  predicate Contacts(actions: seq<Action>) {
    exists a :: a in actions && (a.DnsLookup? || a.Send?)
  }

  /** What every reachable session satisfies: connecting only while active,
      and an outstanding query of an active session has a link and a socket. */
  predicate Invariant(s: Session) {
    && (s.connecting ==> s.active)
    && (s.active && s.activeQuery ==> !s.connecting && s.socket)
  }

  /** The opening of `checktime`: an inactive session starts the WiFi and
      resets the NTP state, removing a socket left from the last round. */
  function Activate(s: Session): Reaction {
    if s.active then Reaction(s, [])
    else
      Reaction(s.(active := true, connecting := true, socket := false, activeQuery := false, time := 0),
               [WifiStart] + (if s.socket then [RemoveSocket] else []))
  }

  /** The query phase, once the link is up: make sure there is a socket, then
      either wait for the reply and commit it, or start a DNS lookup. */
  function Query(s: Session, tz: int8, env: Environment): Poll
    requires !s.connecting
  {
    if !s.socket && !env.socketCreated then Poll(s, false, [])
    else
      var created := if s.socket then [] else [OpenSocket];
      var t := s.(socket := true);
      if t.activeQuery then
        if t.time > 0 then
          Poll(t.(active := false, connecting := false), true,
               created + [SetRtc(ApplyTimezone(t.time, tz)), WifiStop])
        else Poll(t, false, created)
      else
        match env.dns
        case DnsCached(a) =>
          Poll(t.(server := a, activeQuery := true), false, created + [DnsLookup, RequestTo(a)])
        case DnsInProgress =>
          Poll(t.(activeQuery := true), false, created + [DnsLookup])
        case DnsFailed =>
          Poll(t.(activeQuery := false), false, created + [DnsLookup])
  }

  /** `checktime(tz)`: one poll of the synchronisation. */
  function CheckTime(s: Session, tz: int8, env: Environment): (r: Poll)
    ensures r.synced ==> s.active && s.activeQuery && s.time > 0
    ensures r.synced ==> !r.session.active && !r.session.connecting
  {
    var start := Activate(s);
    var s1 := start.session;
    if s1.connecting && HardFailure(env.link) then
      Poll(s1.(active := false, connecting := false), false, start.actions + [WifiStop])
    else
      var s2 := if s1.connecting && env.link == LinkUp then s1.(connecting := false) else s1;
      if s2.connecting then Poll(s2, false, start.actions)
      else
        var q := Query(s2, tz, env);
        Poll(q.session, q.synced, start.actions + q.actions)
  }

  /** `ntpcb_dns`: the answer of a lookup that was in progress.  An address
      is saved and a request sent to it; a null address ends the query. */
  function DnsFound(s: Session, address: Option<Address>): (r: Reaction)
    ensures r.session.(server := s.server, activeQuery := s.activeQuery) == s
    ensures address.Some? ==> && r.session.server == address.value
                              && r.session.activeQuery == s.activeQuery
                              && r.actions == [Send(address.value, NtpPort, Request())]
    ensures address.None? ==> !r.session.activeQuery && r.actions == []
  {
    match address
    case Some(a) => Reaction(s.(server := a), [RequestTo(a)])
    case None => Reaction(s.(activeQuery := false), [])
  }

  /** `ntpcb_recv`: a datagram arriving on the socket.  Only the time field
      can change, and only an acceptable reply writes it. */
  function Receive(s: Session, d: Datagram): (r: Session)
    ensures r.(time := s.time) == s
    ensures r != s ==> ReplyTime(d).Some?
    ensures ReplyTime(d).Some? ==> r.time == ReplyTime(d).value
  {
    match ReplyTime(d)
    case Some(t) => s.(time := t)
    case None => s
  }

  // ---------------------------------------------------------------------
  // The session invariant

  lemma BootSatisfiesInvariant()
    ensures Invariant(Boot) && !Boot.active
  {
  }

  lemma CheckTimePreservesInvariant(s: Session, tz: int8, env: Environment)
    requires Invariant(s)
    ensures Invariant(CheckTime(s, tz, env).session)
  {
  }

  lemma DnsFoundPreservesInvariant(s: Session, address: Option<Address>)
    requires Invariant(s)
    ensures Invariant(DnsFound(s, address).session)
  {
  }

  lemma ReceivePreservesInvariant(s: Session, d: Datagram)
    requires Invariant(s)
    ensures Invariant(Receive(s, d))
  {
  }

  /** A successful call ends by setting the RTC from the reply time with the
      timezone applied and stopping the WiFi. */
  lemma CommitSetsRtc(s: Session, tz: int8, env: Environment)
    requires CheckTime(s, tz, env).synced
    ensures var acts := CheckTime(s, tz, env).actions;
            |acts| >= 2 && acts[|acts| - 2..] == [SetRtc(ApplyTimezone(s.time, tz)), WifiStop]
  {
  }

  /** The RTC is written only by a call that reports success. */
  lemma RtcWrittenOnlyOnCommit(s: Session, tz: int8, env: Environment, i: nat)
    requires i < |CheckTime(s, tz, env).actions|
    requires CheckTime(s, tz, env).actions[i].SetRtc?
    ensures CheckTime(s, tz, env).synced
  {
  }

  // ---------------------------------------------------------------------
  // Link failure and restart

  /** A hard link failure while connecting stops the WiFi, leaves the session
      inactive and contacts nobody. */
  lemma LinkFailureStops(s: Session, tz: int8, env: Environment)
    requires !s.active || s.connecting
    requires HardFailure(env.link)
    ensures var r := CheckTime(s, tz, env);
            && !r.synced && !r.session.active && !r.session.connecting
            && r.actions[|r.actions| - 1] == WifiStop
            && !Contacts(r.actions)
  {
  }

  /** An inactive session starts a fresh connection: the WiFi is started,
      the reply time is cleared and nothing is committed.  A query is active
      afterwards only if this very call started a lookup. */
  lemma InactiveSessionRestarts(s: Session, tz: int8, env: Environment)
    requires !s.active
    ensures var r := CheckTime(s, tz, env);
            && r.actions[0] == WifiStart
            && (s.socket ==> r.actions[1] == RemoveSocket)
            && !r.synced && r.session.time == 0
            && (r.session.activeQuery ==> DnsLookup in r.actions)
  {
  }

  /** After a hard failure the next call starts over. */
  lemma LinkFailureThenRestart(s: Session, tz: int8, env: Environment, tz': int8, env': Environment)
    requires !s.active || s.connecting
    requires HardFailure(env.link)
    ensures var next := CheckTime(CheckTime(s, tz, env).session, tz', env');
            next.actions[0] == WifiStart && !next.synced && next.session.time == 0
  {
    LinkFailureStops(s, tz, env);
    InactiveSessionRestarts(CheckTime(s, tz, env).session, tz', env');
  }

  // ---------------------------------------------------------------------
  // Lookup gating

  /** Nothing is looked up or sent while the link is still coming up. */
  lemma NoContactWhileConnecting(s: Session, tz: int8, env: Environment)
    requires !s.active || s.connecting
    requires env.link != LinkUp
    ensures var r := CheckTime(s, tz, env);
            !Contacts(r.actions) && !r.synced && r.session.active == !HardFailure(env.link)
  {
  }

  /** Nothing is looked up or sent while a query is outstanding. */
  lemma NoSecondLookup(s: Session, tz: int8, env: Environment)
    requires s.active && s.activeQuery
    ensures !Contacts(CheckTime(s, tz, env).actions)
  {
    var acts := CheckTime(s, tz, env).actions;
    assert forall a | a in acts :: a == OpenSocket || a.SetRtc? || a == WifiStop;
  }

  /** A lookup is started exactly when the link is up, a socket exists or can
      be made, and no query is outstanding; it marks the query active unless
      the lookup failed at once, and never completes the synchronisation. */
  lemma LookupGate(s: Session, tz: int8, env: Environment)
    requires Invariant(s)
    ensures var r := CheckTime(s, tz, env);
            && (DnsLookup in r.actions <==>
                  && (!s.active || !s.activeQuery)
                  && (!s.active || s.connecting ==> env.link == LinkUp)
                  && ((s.active && s.socket) || env.socketCreated))
            && (DnsLookup in r.actions ==>
                  && !r.synced && r.session.active && !r.session.connecting && r.session.socket
                  && (r.session.activeQuery <==> !env.dns.DnsFailed?))
  {
  }

  /** An active, connected session with a socket and no outstanding query
      looks the server up on its next call, without reconnecting. */
  lemma IdleSessionLooksUp(s: Session, tz: int8, env: Environment)
    requires s.active && !s.connecting && s.socket && !s.activeQuery
    ensures var r := CheckTime(s, tz, env);
            DnsLookup in r.actions && WifiStart !in r.actions && !r.synced
  {
  }

  /** An immediate DNS error ends the query; the next call looks up again
      on the same connection. */
  lemma DnsErrorRetries(s: Session, tz: int8, env: Environment, tz': int8, env': Environment)
    requires Invariant(s)
    requires env.dns == DnsFailed
    requires DnsLookup in CheckTime(s, tz, env).actions
    ensures var r := CheckTime(s, tz, env);
            && !r.synced && !r.session.activeQuery && r.session.active
            && var next := CheckTime(r.session, tz', env');
               DnsLookup in next.actions && WifiStart !in next.actions
  {
    LookupGate(s, tz, env);
    IdleSessionLooksUp(CheckTime(s, tz, env).session, tz', env');
  }

  /** A failed asynchronous lookup ends the query; the next call looks up
      again on the same connection. */
  lemma NullAnswerRetries(s: Session, tz: int8, env: Environment)
    requires Invariant(s) && s.active && s.activeQuery
    ensures var r := DnsFound(s, None);
            && !r.session.activeQuery && r.session.active
            && var next := CheckTime(r.session, tz, env);
               DnsLookup in next.actions && WifiStart !in next.actions
  {
    IdleSessionLooksUp(DnsFound(s, None).session, tz, env);
  }

  // ---------------------------------------------------------------------
  // Commit

  /** An outstanding query whose reply has arrived commits on the next call,
      whatever the collaborators answer: the RTC is set from the reply time
      with the timezone applied and the WiFi is stopped. */
  lemma CommitWhenReplied(s: Session, tz: int8, env: Environment)
    requires s.active && !s.connecting && s.socket && s.activeQuery && s.time > 0
    ensures CheckTime(s, tz, env)
            == Poll(s.(active := false), true, [SetRtc(ApplyTimezone(s.time, tz)), WifiStop])
  {
  }

  /** The whole exchange: a lookup left in progress, its answer, an
      acceptable reply with a non-zero time, and the next call commits that
      time.  The answer sends exactly one request to the address found. */
  lemma LookupAnswerReplyCommits(s: Session, tz: int8, env: Environment,
                                                    a: Address, d: Datagram, tz': int8, env': Environment)
    requires Invariant(s)
    requires env.dns == DnsInProgress
    requires DnsLookup in CheckTime(s, tz, env).actions
    requires ReplyTime(d).Some? && ReplyTime(d).value > 0
    ensures var answer := DnsFound(CheckTime(s, tz, env).session, Some(a));
            var replied := Receive(answer.session, d);
            && answer.actions == [Send(a, NtpPort, Request())]
            && CheckTime(replied, tz', env')
               == Poll(replied.(active := false), true,
                       [SetRtc(ApplyTimezone(ReplyTime(d).value, tz')), WifiStop])
  {
    LookupGate(s, tz, env);
    var answer := DnsFound(CheckTime(s, tz, env).session, Some(a));
    var replied := Receive(answer.session, d);
    assert replied.time == ReplyTime(d).value;
    CommitWhenReplied(replied, tz', env');
  }

  /** There is no timeout: while the reply has not arrived, a call changes
      nothing and does nothing, whatever the collaborators answer. */
  lemma WaitsForReply(s: Session, tz: int8, env: Environment)
    requires s.active && !s.connecting && s.socket && s.activeQuery && s.time == 0
    ensures CheckTime(s, tz, env) == Poll(s, false, [])
  {
  }

  /** A reply carrying transmit time 0 never leads to a commit, even when it
      overwrites a time stored from an earlier reply. */
  lemma ZeroTimestampNeverCommits(s: Session, d: Datagram, tz: int8, env: Environment)
    requires ReplyTime(d) == Some(0)
    ensures !CheckTime(Receive(s, d), tz, env).synced
  {
    assert Receive(s, d).time == 0;
  }

  /** The call after a commit restarts the WiFi, removes the old socket and
      clears the reply time, so the same reply is never committed twice. */
  lemma CommitThenRestart(s: Session, tz: int8, env: Environment, tz': int8, env': Environment)
    requires CheckTime(s, tz, env).synced
    ensures var next := CheckTime(CheckTime(s, tz, env).session, tz', env');
            && next.actions[..2] == [WifiStart, RemoveSocket]
            && !next.synced && next.session.time == 0
            && (next.session.activeQuery ==> DnsLookup in next.actions)
  {
    var r := CheckTime(s, tz, env);
    assert r.session.socket;
    InactiveSessionRestarts(r.session, tz', env');
  }
}
