/**
 * Dispatch of inbound requests. Two fields of the application layer hold the security context and
 * the connection flag of the request being handled; a handler may re-enter through the user callback.
 */
module RequestContext {
  import opened Apci

  /** What a handler does: answer somebody, or let another request in. */
  datatype Action = Respond(toIndividual: bool) | Reenter(request: Request)

  /** A request, the Security Mode at its arrival, and what its handler does if it is dispatched. */
  datatype Request = Request(
    service: Service,
    security: Security,
    connected: bool,
    securityMode: bool,
    actions: seq<Action>)

  datatype TransportService = Connected | Connectionless | Group

  /** Observable events: a dispatch with the context in force, and a response with its transport service. */
  datatype Event =
    | Dispatched(service: Service, securityMode: bool, security: Security, connected: bool)
    | Sent(via: TransportService)

  predicate Permitted(r: Request) { ManagementWritePermitted(r.service, r.securityMode, r.security) }

  function Via(toIndividual: bool, connected: bool): TransportService {
    if !toIndividual then Group else if connected then Connected else Connectionless
  }

  /** The reference: every request carries its own context along, and nothing is shared. */
  ghost function Handle(r: Request): seq<Event>
    decreases r, 1, 0
  {
    if !Permitted(r) then []
    else [Dispatched(r.service, r.securityMode, r.security, r.connected)] + Act(r, |r.actions|)
  }

  /** The events of one action of a request's handler. */
  ghost function ActOnce(r: Request, i: nat): seq<Event>
    requires i < |r.actions|
    decreases r, 0, 0
  {
    match r.actions[i]
    case Respond(toIndividual) => [Sent(Via(toIndividual, r.connected))]
    case Reenter(inner) => Handle(inner)
  }

  /** The events of the first `n` actions. */
  ghost function Act(r: Request, n: nat): seq<Event>
    requires n <= |r.actions|
    decreases r, 0, n
  {
    if n == 0 then [] else Act(r, n - 1) + ActOnce(r, n - 1)
  }

  class ApplicationLayer {
    var requestSecurity: Security
    var handlingConnected: bool
    ghost var log: seq<Event>

    /** The context is saved, replaced and restored around the dispatch. */
    method HandleTransportRx(r: Request)
      modifies this
      ensures requestSecurity == old(requestSecurity) && handlingConnected == old(handlingConnected)
      ensures log == old(log) + Handle(r)
      decreases r, 1, 0
    {
      var previousConnected := handlingConnected;
      handlingConnected := r.connected;
      var previousSecurity := requestSecurity;
      requestSecurity := r.security;
      if Permitted(r) {
        DispatchService(r);
      }
      requestSecurity := previousSecurity;
      handlingConnected := previousConnected;
    }

    /** The handler sees the fields, not the request they came from. */
    method DispatchService(r: Request)
      requires Permitted(r) && requestSecurity == r.security && handlingConnected == r.connected
      modifies this
      ensures requestSecurity == old(requestSecurity) && handlingConnected == old(handlingConnected)
      ensures log == old(log) + Handle(r)
      decreases r, 0, |r.actions| + 1
    {
      hide ActOnce, IsManagementWrite;
      ghost var before := log;
      ghost var events := [Dispatched(r.service, r.securityMode, r.security, r.connected)];
      log := log + [Dispatched(r.service, r.securityMode, requestSecurity, handlingConnected)];
      for i := 0 to |r.actions|
        invariant requestSecurity == old(requestSecurity) && handlingConnected == old(handlingConnected)
        invariant log == before + events
        invariant events == [Dispatched(r.service, r.securityMode, r.security, r.connected)] + Act(r, i)
      {
        PerformAction(r, i);
        events := events + ActOnce(r, i);
      }
    }

    method PerformAction(r: Request, i: nat)
      requires i < |r.actions| && handlingConnected == r.connected
      modifies this
      ensures requestSecurity == old(requestSecurity) && handlingConnected == old(handlingConnected)
      ensures log == old(log) + ActOnce(r, i)
      decreases r, 0, i
    {
      match r.actions[i]
      case Respond(toIndividual) => log := log + [Sent(Via(toIndividual, handlingConnected))];
      case Reenter(inner) => HandleTransportRx(inner);
    }
  }

  /** Property, function property, memory, address, network parameter, authorization, key and restart services. */
  const MANAGEMENT_WRITES: set<Service> :=
    {0x3D7, 0x1CE, 0x1D0, 0x2C7, 0x1D4, 0x280, 0x1FB, 0x0C0, 0x3DE, 0x3E4, 0x1CA, 0x3D1, 0x3D3, 0x380}

  lemma ManagementWriteIff(service: Service)
    ensures IsManagementWrite(service) <==> service in MANAGEMENT_WRITES
  {
  }

  /** A dispatch under Security Mode is of no management write, or protected in all three respects. */
  predicate Allowed(e: Event) {
    e.Dispatched? && e.securityMode && e.service in MANAGEMENT_WRITES ==>
      e.security.secured && e.security.toolAccess && e.security.confidentiality
  }

  /**
   * For every tree of re-entrant requests: with Security Mode on, no management write is dispatched
   * unless the context in force at that dispatch is tool-secured.
   */
  lemma {:induction false} NoUnprotectedWrite(r: Request)
    ensures forall e :: e in Handle(r) ==> Allowed(e)
    decreases r, 1, 0
  {
    ManagementWriteIff(r.service);
    hide IsManagementWrite;
    if Permitted(r) {
      NoUnprotectedWriteWithin(r, |r.actions|);
    }
  }

  lemma {:induction false} NoUnprotectedWriteWithin(r: Request, n: nat)
    requires n <= |r.actions|
    ensures forall e :: e in Act(r, n) ==> Allowed(e)
    decreases r, 0, n
  {
    if n > 0 {
      NoUnprotectedWriteWithin(r, n - 1);
      match r.actions[n - 1]
      case Respond(_) =>
      case Reenter(inner) => NoUnprotectedWrite(inner);
    }
  }

  /** Nothing else is refused: a request is dispatched first, in its own context, or causes nothing at all. */
  lemma DispatchedIff(r: Request)
    ensures var refused := r.securityMode && r.service in MANAGEMENT_WRITES
        && !(r.security.secured && r.security.toolAccess && r.security.confidentiality);
      if refused then Handle(r) == []
      else Handle(r) != [] && Handle(r)[0] == Dispatched(r.service, r.securityMode, r.security, r.connected)
  {
    ManagementWriteIff(r.service);
    hide IsManagementWrite;
  }

  /** How many events the first `n` actions of a handler cause. */
  ghost function Offset(r: Request, n: nat): nat
    requires n <= |r.actions|
  {
    |Act(r, n)|
  }

  lemma {:induction false} ActPrefix(r: Request, i: nat, n: nat)
    requires i < n <= |r.actions|
    ensures Offset(r, i) + |ActOnce(r, i)| <= Offset(r, n)
    ensures Act(r, n)[Offset(r, i)..Offset(r, i) + |ActOnce(r, i)|] == ActOnce(r, i)
    decreases n
  {
    hide ActOnce;
    if i < n - 1 {
      ActPrefix(r, i, n - 1);
    }
  }

  /**
   * Every response of a dispatched request goes out on the transport service the request came in on,
   * whatever was let in before it: connected for a connected request, connectionless otherwise, and
   * group for a group destination.
   */
  lemma ResponsesFollowTheRequest(r: Request, i: nat)
    requires i < |r.actions| && r.actions[i].Respond? && Handle(r) != []
    ensures Offset(r, i) + 1 < |Handle(r)|
    ensures Handle(r)[1 + Offset(r, i)]
      == Sent(if !r.actions[i].toIndividual then Group else if r.connected then Connected else Connectionless)
  {
    ActPrefix(r, i, |r.actions|);
    var all := Act(r, |r.actions|);
    assert all[Offset(r, i)] == all[Offset(r, i)..Offset(r, i) + 1][0];
  }
}
