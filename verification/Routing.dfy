/**
 Topic negotiation.  The device announces every slot of its tables in a TopicInfo message; the setup handlers of
 rosserial_server's Session bind each topic id to a handler.  Handlers are tokens: what a handler is made for.
 */
module Routing {
  import opened Bytes
  import opened Frames
  import opened Outbox

  datatype Role = Pub | Sub

  datatype Kind = Topic | Client | Server

  /** What a TopicInfo message tells the session: who announces, under which id, and what for. */
  datatype Setup = Setup(role: Role, kind: Kind, id: u16, name: seq<byte>, ty: seq<byte>, md5: seq<byte>)

  /** The topic id that the announcement itself is sent under: getEndpointType. */
  function Endpoint(role: Role, kind: Kind): u16 {
    (match kind case Topic => 0 case Client => ID_SERVICE_CLIENT case Server => ID_SERVICE_SERVER)
    + (if role.Pub? then ID_PUBLISHER else ID_SUBSCRIBER)
  }

  datatype Handler =
    | SetupOf(role: Role, kind: Kind)
    | HandleLog
    | HandleTime
    | ToTopic(name: seq<byte>, ty: seq<byte>)
    | ToService(kind: Kind, name: seq<byte>)

  /** The maps of a session.  A service proxy is made once per name and is known by it; the map holds the id that
      the proxy sends to. */
  datatype Maps = Maps(
    callbacks: map<u16, Handler>,
    publishers: map<u16, (seq<byte>, seq<byte>)>,
    subscribers: map<u16, (seq<byte>, seq<byte>)>,
    clients: map<seq<byte>, u16>,
    servers: map<seq<byte>, u16>)
  {
    function Services(kind: Kind): map<seq<byte>, u16> { if kind.Client? then clients else servers }

    function WithServices(kind: Kind, m: map<seq<byte>, u16>): Maps {
      if kind.Client? then this.(clients := m) else this.(servers := m)
    }
  }

  /** The id of a proxy that was not told where to send: -1 as uint16_t. */
  const NO_ID: u16 := 0xffff

  /** Session::start. */
  function Start(): Maps {
    Maps(map[
           Endpoint(Pub, Topic) := SetupOf(Pub, Topic),
           Endpoint(Sub, Topic) := SetupOf(Sub, Topic),
           ID_LOG := HandleLog,
           ID_TIME := HandleTime,
           Endpoint(Pub, Client) := SetupOf(Pub, Client),
           Endpoint(Sub, Client) := SetupOf(Sub, Client),
           Endpoint(Pub, Server) := SetupOf(Pub, Server),
           Endpoint(Sub, Server) := SetupOf(Sub, Server)],
         map[], map[], map[], map[])
  }

  /** What the four service setup functions have in common: the proxy is made, and the id of this message bound to
      it, only when there is none for the name yet. */
  function Meet(m: Maps, s: Setup): Maps {
    if s.name in m.Services(s.kind) then m
    else m.WithServices(s.kind, m.Services(s.kind)[s.name := NO_ID])
          .(callbacks := m.callbacks[s.id := ToService(s.kind, s.name)])
  }

  /** The setup functions, when the ROS side can make the handler. */
  function Apply(m: Maps, s: Setup): Maps {
    if s.kind.Topic? then
      if s.role.Pub?
      then m.(callbacks := m.callbacks[s.id := ToTopic(s.name, s.ty)], publishers := m.publishers[s.id := (s.name, s.ty)])
      else m.(subscribers := m.subscribers[s.id := (s.name, s.ty)])
    else
      var n := Meet(m, s);
      if s.role.Pub? then n else n.WithServices(s.kind, n.Services(s.kind)[s.name := s.id])
  }

  function ApplyAll(m: Maps, ss: seq<Setup>): Maps {
    if ss == [] then m else Apply(ApplyAll(m, ss[..|ss| - 1]), ss[|ss| - 1])
  }

  /** Two announcements under one id are the same announcement, and no two services of one kind share a name. */
  predicate Coherent(ss: seq<Setup>) {
    && (forall s, t :: s in ss && t in ss && s.id == t.id ==> s == t)
    && (forall s, t :: s in ss && t in ss && SameService(s, t) ==> s == t)
  }

  predicate SameService(s: Setup, t: Setup) {
    !s.kind.Topic? && s.kind == t.kind && s.name == t.name && s.role == t.role
  }

  predicate About(s: Setup, kind: Kind, name: seq<byte>) { s.kind == kind && s.name == name }

  datatype First = Nobody | First(s: Setup)

  /** The first announcement of a service in a run. */
  function FirstAbout(ss: seq<Setup>, kind: Kind, name: seq<byte>): First {
    if ss == [] then Nobody else
    var f := FirstAbout(ss[..|ss| - 1], kind, name);
    if f.First? then f else if About(ss[|ss| - 1], kind, name) then First(ss[|ss| - 1]) else Nobody
  }

  // ---- what a run leaves alone ----

  predicate KeepsAt(m: Maps, n: Maps, id: u16) {
    && (id in n.callbacks <==> id in m.callbacks) && (id in n.callbacks ==> n.callbacks[id] == m.callbacks[id])
    && (id in m.publishers ==> id in n.publishers && n.publishers[id] == m.publishers[id])
    && (id in m.subscribers ==> id in n.subscribers && n.subscribers[id] == m.subscribers[id])
  }

  lemma MeetKeeps(m: Maps, s: Setup, id: u16)
    requires s.id != id
    ensures KeepsAt(m, Meet(m, s), id)
  {
  }

  lemma WithServicesKeeps(m: Maps, kind: Kind, x: map<seq<byte>, u16>)
    ensures var n := m.WithServices(kind, x);
            && n.callbacks == m.callbacks && n.publishers == m.publishers && n.subscribers == m.subscribers
            && forall k: Kind :: !k.Topic? && !kind.Topic? ==> n.Services(k) == if k == kind then x else m.Services(k)
  {
  }

  lemma ApplyKeeps(m: Maps, s: Setup, id: u16)
    requires s.id != id
    ensures KeepsAt(m, Apply(m, s), id)
  {
    if !s.kind.Topic? {
      hide KeepsAt, Meet, Maps.WithServices;
      var n := Meet(m, s);
      MeetKeeps(m, s, id);
      WithServicesKeeps(n, s.kind, n.Services(s.kind)[s.name := s.id]);
      if s.role.Sub? { KeepsLike(m, n, Apply(m, s), id); }
    }
  }

  lemma KeepsLike(m: Maps, n: Maps, n': Maps, id: u16)
    requires KeepsAt(m, n, id)
    requires n'.callbacks == n.callbacks && n'.publishers == n.publishers && n'.subscribers == n.subscribers
    ensures KeepsAt(m, n', id)
  {
  }

  lemma MeetMakes(m: Maps, s: Setup, kind: Kind, name: seq<byte>)
    requires !kind.Topic? && !s.kind.Topic?
    ensures name in Meet(m, s).Services(kind) <==> name in m.Services(kind) || About(s, kind, name)
  {
    hide Maps.WithServices;
    WithServicesKeeps(m, s.kind, m.Services(s.kind)[s.name := NO_ID]);
  }

  lemma ApplyMakes(m: Maps, s: Setup, kind: Kind, name: seq<byte>)
    requires !kind.Topic?
    ensures name in Apply(m, s).Services(kind) <==> name in m.Services(kind) || About(s, kind, name)
  {
    if !s.kind.Topic? {
      hide Meet, Maps.WithServices, Maps.Services;
      MeetMakes(m, s, kind, name);
      MeetMakes(m, s, s.kind, s.name);
      var n := Meet(m, s);
      WithServicesKeeps(n, s.kind, n.Services(s.kind)[s.name := s.id]);
    }
  }

  /** Who a proxy sends to is decided by the subscribers of its service alone. */
  lemma ApplyReplies(m: Maps, s: Setup, kind: Kind, name: seq<byte>)
    requires !kind.Topic? && (name in m.Services(kind) || (About(s, kind, name) && s.role.Sub?))
    ensures var n := Apply(m, s).Services(kind);
            name in n && n[name] == if About(s, kind, name) && s.role.Sub? then s.id else m.Services(kind)[name]
  {
    if !s.kind.Topic? {
      var n := Meet(m, s);
      assert s.name in m.Services(s.kind) ==> n == m;
      hide Maps.WithServices, Maps.Services;
      WithServicesKeeps(m, s.kind, m.Services(s.kind)[s.name := NO_ID]);
      WithServicesKeeps(n, s.kind, n.Services(s.kind)[s.name := s.id]);
      ServicesOf(m, s);
    }
  }

  lemma ServicesOf(m: Maps, s: Setup)
    requires !s.kind.Topic?
    ensures forall k: Kind :: !k.Topic? ==>
              Meet(m, s).Services(k) == if k == s.kind && s.name !in m.Services(k) then m.Services(k)[s.name := NO_ID]
                                        else m.Services(k)
  {
  }

  /** An id that nobody announces keeps its handler. */
  lemma {:induction false} CallbackKept(m: Maps, ss: seq<Setup>, id: u16)
    requires forall s <- ss :: s.id != id
    ensures var n := ApplyAll(m, ss).callbacks;
            (id in n <==> id in m.callbacks) && (id in n ==> n[id] == m.callbacks[id])
  {
    hide Apply;
    if ss != [] {
      CallbackKept(m, ss[..|ss| - 1], id);
      assert ss[|ss| - 1] in ss;
      ApplyKeeps(ApplyAll(m, ss[..|ss| - 1]), ss[|ss| - 1], id);
    }
  }

  /** While a session is active its setup handlers are never rebound: devices announce ids from 100 on. */
  lemma SetupsAreKept(ss: seq<Setup>, role: Role, kind: Kind)
    requires forall s <- ss :: s.id >= 100
    ensures var n, id := ApplyAll(Start(), ss).callbacks, Endpoint(role, kind);
            id in n && n[id] == SetupOf(role, kind)
  {
    hide ApplyAll;
    CallbackKept(Start(), ss, Endpoint(role, kind));
  }

  /** The handlers of a session's start, by their ids, after any run of announcements: nothing else is bound below 100. */
  lemma HandlersAreKept(ss: seq<Setup>)
    requires forall s <- ss :: s.id >= 100
    ensures var n := ApplyAll(Start(), ss).callbacks;
            && (forall id: u16 :: id < 100 ==> (id in n <==> id in {0, 1, 2, 3, 4, 5, 7, 10}))
            && n[0] == SetupOf(Pub, Topic) && n[1] == SetupOf(Sub, Topic)
            && n[2] == SetupOf(Pub, Server) && n[3] == SetupOf(Sub, Server)
            && n[4] == SetupOf(Pub, Client) && n[5] == SetupOf(Sub, Client)
            && n[7] == HandleLog && n[10] == HandleTime
  {
    StartIs();
    hide ApplyAll, Start;
    var n := ApplyAll(Start(), ss).callbacks;
    forall id: u16 | id < 100
      ensures (id in n <==> id in Start().callbacks) && (id in n ==> n[id] == Start().callbacks[id])
    {
      CallbackKept(Start(), ss, id);
    }
  }

  lemma StartIs()
    ensures Start().callbacks
            == map[0 := SetupOf(Pub, Topic), 1 := SetupOf(Sub, Topic), 2 := SetupOf(Pub, Server), 3 := SetupOf(Sub, Server),
                   4 := SetupOf(Pub, Client), 5 := SetupOf(Sub, Client), 7 := HandleLog, 10 := HandleTime]
  {
  }

  /** The ids that announcements are sent under. */
  lemma EndpointIs(role: Role, kind: Kind)
    ensures Endpoint(role, kind)
            == (match kind case Topic => 0 case Server => 2 case Client => 4) + if role.Pub? then 0 else 1
  {
  }

  /** A proxy exists from the first announcement of its name on. */
  lemma {:induction false} KnownFromFirst(m: Maps, ss: seq<Setup>, kind: Kind, name: seq<byte>)
    requires !kind.Topic?
    ensures name in ApplyAll(m, ss).Services(kind) <==> name in m.Services(kind) || FirstAbout(ss, kind, name).First?
  {
    hide Apply;
    if ss != [] {
      KnownFromFirst(m, ss[..|ss| - 1], kind, name);
      ApplyMakes(ApplyAll(m, ss[..|ss| - 1]), ss[|ss| - 1], kind, name);
    }
  }

  lemma {:induction false} FirstIsThere(ss: seq<Setup>, s: Setup)
    requires s in ss
    ensures var f := FirstAbout(ss, s.kind, s.name); f.First? && f.s in ss && About(f.s, s.kind, s.name)
  {
    var init := ss[..|ss| - 1];
    if s in init {
      FirstIsThere(init, s);
    } else {
      assert s == ss[|ss| - 1];
      if FirstAbout(init, s.kind, s.name).First? { FirstIsOne(init, s.kind, s.name); }
    }
  }

  lemma {:induction false} FirstIsOne(ss: seq<Setup>, kind: Kind, name: seq<byte>)
    requires FirstAbout(ss, kind, name).First?
    ensures var f := FirstAbout(ss, kind, name); f.s in ss && About(f.s, kind, name)
  {
    var init := ss[..|ss| - 1];
    if FirstAbout(init, kind, name).First? { FirstIsOne(init, kind, name); }
  }

  lemma CoherentInit(ss: seq<Setup>)
    requires ss != [] && Coherent(ss)
    ensures Coherent(ss[..|ss| - 1])
  {
    assert forall s :: s in ss[..|ss| - 1] ==> s in ss;
  }

  // ---- where messages are routed ----

  /** Whatever was announced before, a topic publisher that is announced reaches the handler for its topic. */
  lemma {:induction false} TopicIsRouted(m: Maps, ss: seq<Setup>, s: Setup)
    requires Coherent(ss) && s in ss && s.kind.Topic? && s.role.Pub?
    ensures var n := ApplyAll(m, ss); s.id in n.callbacks && n.callbacks[s.id] == ToTopic(s.name, s.ty)
    ensures s.id in ApplyAll(m, ss).publishers && ApplyAll(m, ss).publishers[s.id] == (s.name, s.ty)
  {
    var init, last := ss[..|ss| - 1], ss[|ss| - 1];
    assert last in ss;
    if last != s {
      CoherentInit(ss);
      assert s in init;
      hide Apply;
      TopicIsRouted(m, init, s);
      ApplyKeeps(ApplyAll(m, init), last, s.id);
    }
  }

  lemma {:induction false} SubscriberIsKnown(m: Maps, ss: seq<Setup>, s: Setup)
    requires Coherent(ss) && s in ss && s.kind.Topic? && s.role.Sub?
    ensures s.id in ApplyAll(m, ss).subscribers && ApplyAll(m, ss).subscribers[s.id] == (s.name, s.ty)
  {
    var init, last := ss[..|ss| - 1], ss[|ss| - 1];
    assert last in ss;
    if last != s {
      CoherentInit(ss);
      assert s in init;
      hide Apply;
      SubscriberIsKnown(m, init, s);
      ApplyKeeps(ApplyAll(m, init), last, s.id);
    }
  }

  /** What the publisher of a service sends reaches the proxy of that service if, and only if, the publisher was the
      first to announce it: an announcement that gets lost so that the subscriber comes first is never made up
      for, however often the topics are negotiated again. */
  lemma {:induction false} ServiceIsRoutedIffFirst(ss: seq<Setup>, s: Setup)
    requires Coherent(ss) && s in ss && !s.kind.Topic? && s.role.Pub? && s.id >= 100
    ensures var n := ApplyAll(Start(), ss).callbacks;
            s.id in n && n[s.id] == ToService(s.kind, s.name) <==> FirstAbout(ss, s.kind, s.name) == First(s)
  {
    var init, last := ss[..|ss| - 1], ss[|ss| - 1];
    assert last in ss;
    CoherentInit(ss);
    KnownFromFirst(Start(), init, s.kind, s.name);
    hide Start;
    if s in init {
      ServiceIsRoutedIffFirst(init, s);
      FirstIsThere(init, s);
      if last != s { ApplyKeeps(ApplyAll(Start(), init), last, s.id); }
    } else {
      assert last == s;
      forall t | t in init ensures t.id != s.id { assert t in ss; }
      CallbackKept(Start(), init, s.id);
      if FirstAbout(init, s.kind, s.name).First? { FirstIsOne(init, s.kind, s.name); }
    }
  }

  /** A proxy sends to the id of the subscriber that was announced for its service. */
  lemma {:induction false} ServiceRepliesTo(m: Maps, ss: seq<Setup>, s: Setup)
    requires Coherent(ss) && s in ss && !s.kind.Topic? && s.role.Sub?
    ensures var n := ApplyAll(m, ss).Services(s.kind); s.name in n && n[s.name] == s.id
  {
    hide Apply, Maps.Services;
    var init, last := ss[..|ss| - 1], ss[|ss| - 1];
    assert last in ss;
    if last != s {
      CoherentInit(ss);
      assert s in init;
      ServiceRepliesTo(m, init, s);
      assert !SameService(last, s);
    }
    ApplyReplies(ApplyAll(m, init), last, s.kind, s.name);
  }

  lemma ApplyUnset(m: Maps, s: Setup, kind: Kind, name: seq<byte>)
    requires !kind.Topic? && !(About(s, kind, name) && s.role.Sub?)
    requires name in m.Services(kind) ==> m.Services(kind)[name] == 65535
    ensures var n := Apply(m, s).Services(kind); name in n ==> n[name] == 65535
  {
    if name in m.Services(kind) {
      ApplyReplies(m, s, kind, name);
    } else if !s.kind.Topic? {
      ServicesOf(m, s);
      var n := Meet(m, s);
      hide Meet, Maps.WithServices, Maps.Services;
      WithServicesKeeps(n, s.kind, n.Services(s.kind)[s.name := s.id]);
    }
  }

  /** As long as no subscriber of its service was announced, a proxy sends to an id that no device has. */
  lemma {:induction false} UnpairedSendsNowhere(ss: seq<Setup>, kind: Kind, name: seq<byte>)
    requires !kind.Topic? && forall s <- ss :: About(s, kind, name) ==> s.role.Pub?
    ensures var n := ApplyAll(Start(), ss).Services(kind); name in n ==> n[name] == 65535
  {
    if ss != [] {
      hide Apply, Maps.Services;
      var init, last := ss[..|ss| - 1], ss[|ss| - 1];
      assert last in ss && forall s <- init :: s in ss;
      UnpairedSendsNowhere(init, kind, name);
      ApplyUnset(ApplyAll(Start(), init), last, kind, name);
    }
  }

  // ---- a full negotiation ----

  lemma {:induction false} FirstStays(a: seq<Setup>, b: seq<Setup>, kind: Kind, name: seq<byte>)
    requires FirstAbout(a, kind, name).First?
    ensures FirstAbout(a + b, kind, name) == FirstAbout(a, kind, name)
    decreases |b|
  {
    if b == [] {
      assert a + b == a;
    } else {
      assert (a + b)[..|a + b| - 1] == a + b[..|b| - 1];
      FirstStays(a, b[..|b| - 1], kind, name);
    }
  }

  /** After a full negotiation, publishers before subscribers, and whatever follows it, every publisher id maps to
      the handler made for its topic or service, and every proxy sends to its own subscriber. */
  lemma NegotiationRoutes(pubs: seq<Setup>, subs: seq<Setup>, later: seq<Setup>, s: Setup)
    requires Coherent(pubs + subs + later) && (forall p <- pubs :: p.role.Pub?) && s.id >= 100
    requires s in pubs || (s in subs && s.role.Sub?)
    ensures var n := ApplyAll(Start(), pubs + subs + later);
            && (s in pubs ==> s.id in n.callbacks
                              && n.callbacks[s.id] == if s.kind.Topic? then ToTopic(s.name, s.ty) else ToService(s.kind, s.name))
            && (s !in pubs && s.kind.Topic? ==> s.id in n.subscribers && n.subscribers[s.id] == (s.name, s.ty))
            && (s !in pubs && !s.kind.Topic? ==> s.name in n.Services(s.kind) && n.Services(s.kind)[s.name] == s.id)
  {
    var ss := pubs + subs + later;
    assert s in ss;
    hide ApplyAll, Start;
    if s !in pubs {
      if s.kind.Topic? { SubscriberIsKnown(Start(), ss, s); } else { ServiceRepliesTo(Start(), ss, s); }
    } else if s.kind.Topic? {
      TopicIsRouted(Start(), ss, s);
    } else {
      FirstIsThere(pubs, s);
      var f := FirstAbout(pubs, s.kind, s.name).s;
      assert f in ss && SameService(f, s);
      FirstStays(pubs, subs + later, s.kind, s.name);
      assert ss == pubs + (subs + later);
      ServiceIsRoutedIffFirst(ss, s);
    }
  }

  // ---- the session's maps, updated in place ----

  class Registry {
    var callbacks: map<u16, Handler>
    var publishers: map<u16, (seq<byte>, seq<byte>)>
    var subscribers: map<u16, (seq<byte>, seq<byte>)>
    var serviceClients: map<seq<byte>, u16>
    var serviceServers: map<seq<byte>, u16>
    var active: bool

    ghost function View(): Maps
      reads this
    {
      Maps(callbacks, publishers, subscribers, serviceClients, serviceServers)
    }

    /** Session::start. */
    constructor ()
      ensures View() == Start() && active
    {
      publishers, subscribers, serviceClients, serviceServers := map[], map[], map[], map[];
      active := true;
      callbacks := map[0 := SetupOf(Pub, Topic), 1 := SetupOf(Sub, Topic), 7 := HandleLog, 10 := HandleTime,
          4 := SetupOf(Pub, Client), 5 := SetupOf(Sub, Client),
          2 := SetupOf(Pub, Server), 3 := SetupOf(Sub, Server)];
    }

    /** Session::stop drops all that is known about the device and tells it so; what it writes to the socket. */
    method Stop() returns (sent: seq<byte>)
      modifies this
      ensures sent == if old(active) then Frame(11, [0]) else []
      ensures !active && (old(active) ==> View() == Maps(map[], map[], map[], map[], map[]))
      ensures !old(active) ==> View() == old(View())
    {
      sent := [];
      if active {
        sent := Frame(ID_TX_STOP, [0]);
        active := false;
        callbacks, publishers, subscribers := map[], map[], map[];
        serviceClients, serviceServers := map[], map[];
      }
    }

    /** setup_publisher.  `made` is false when making the handler throws; the exception is caught. */
    method SetupPublisher(s: Setup, made: bool)
      requires s.role.Pub? && s.kind.Topic?
      modifies `callbacks, `publishers
      ensures View() == if made then Apply(old(View()), s) else old(View())
    {
      if made {
        callbacks := callbacks[s.id := ToTopic(s.name, s.ty)];
        publishers := publishers[s.id := (s.name, s.ty)];
      }
    }

    /** setup_subscriber. */
    method SetupSubscriber(s: Setup, made: bool)
      requires s.role.Sub? && s.kind.Topic?
      modifies `subscribers
      ensures View() == if made then Apply(old(View()), s) else old(View())
    {
      if made { subscribers := subscribers[s.id := (s.name, s.ty)]; }
    }

    /** setup_service_client_publisher.  A proxy that cannot be made throws out of the handler. */
    method SetupClientPublisher(s: Setup, made: bool)
      requires s.role.Pub? && s.kind.Client?
      modifies `callbacks, `serviceClients
      ensures View() == if made || s.name in old(serviceClients) then Apply(old(View()), s) else old(View())
    {
      if s.name !in serviceClients && made {
        serviceClients := serviceClients[s.name := NO_ID];
        callbacks := callbacks[s.id := ToService(Client, s.name)];
      }
    }

    /** setup_service_client_subscriber. */
    method SetupClientSubscriber(s: Setup, made: bool)
      requires s.role.Sub? && s.kind.Client?
      modifies `callbacks, `serviceClients
      ensures View() == if made || s.name in old(serviceClients) then Apply(old(View()), s) else old(View())
    {
      if s.name !in serviceClients {
        if !made { return; }
        serviceClients := serviceClients[s.name := NO_ID];
        callbacks := callbacks[s.id := ToService(Client, s.name)];
      }
      serviceClients := serviceClients[s.name := s.id];
    }

    /** setup_service_server_publisher. */
    method SetupServerPublisher(s: Setup, made: bool)
      requires s.role.Pub? && s.kind.Server?
      modifies `callbacks, `serviceServers
      ensures View() == if made || s.name in old(serviceServers) then Apply(old(View()), s) else old(View())
    {
      if s.name !in serviceServers && made {
        serviceServers := serviceServers[s.name := NO_ID];
        callbacks := callbacks[s.id := ToService(Server, s.name)];
      }
    }

    /** setup_service_server_subscriber. */
    method SetupServerSubscriber(s: Setup, made: bool)
      requires s.role.Sub? && s.kind.Server?
      modifies `callbacks, `serviceServers
      ensures View() == if made || s.name in old(serviceServers) then Apply(old(View()), s) else old(View())
    {
      if s.name !in serviceServers {
        if !made { return; }
        serviceServers := serviceServers[s.name := NO_ID];
        callbacks := callbacks[s.id := ToService(Server, s.name)];
      }
      serviceServers := serviceServers[s.name := s.id];
    }

    /** read_body for an announcement: the handler bound to the id that it came under. */
    method Announced(s: Setup)
      requires Endpoint(s.role, s.kind) in callbacks && callbacks[Endpoint(s.role, s.kind)] == SetupOf(s.role, s.kind)
      modifies this
      ensures View() == Apply(old(View()), s) && active == old(active)
    {
      hide Apply;
      var h := callbacks[Endpoint(s.role, s.kind)];
      match h.kind
      case Topic => if h.role.Pub? { SetupPublisher(s, true); } else { SetupSubscriber(s, true); }
      case Client => if h.role.Pub? { SetupClientPublisher(s, true); } else { SetupClientSubscriber(s, true); }
      case Server => if h.role.Pub? { SetupServerPublisher(s, true); } else { SetupServerSubscriber(s, true); }
    }

    /** A run of announcements from session start. */
    method AnnouncedAll(ss: seq<Setup>)
      requires View() == Start() && forall s <- ss :: s.id >= 100
      modifies this
      ensures View() == ApplyAll(Start(), ss) && active == old(active)
    {
      hide Apply, Start, Endpoint;
      assert ss[..0] == [];
      for i := 0 to |ss|
        invariant View() == ApplyAll(Start(), ss[..i]) && active == old(active)
      {
        SetupsAreKept(ss[..i], ss[i].role, ss[i].kind);
        assert ss[..i + 1][..i] == ss[..i];
        Announced(ss[i]);
      }
      assert ss[..|ss|] == ss;
    }
  }
}
