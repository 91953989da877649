/** connman.c: many clients connect to one server and exchange messages with it. A sync send is a
    meeting of sender and receiver, an async endpoint is a queue, and any order of steps can occur. */
module Connman {

  type Body = int

  /** Where a client is: in c4rt_connman_connect from Made to GrantingBuffer, in c4rt_connman_send
      at Notifying, in the receiving half of c4rt_connman_call at Receiving. */
  datatype Pc =
    | New
    | Made
    | Asking
    | AwaitId
    | GrantingTo
    | GrantingFrom
    | GrantingBuffer
    | Ready
    | Notifying(call: bool)
    | Receiving
    | Gone

  /** to and from are the client's async endpoints, id what the server calls it; sent and received
      are all messages so far. */
  datatype Client = Client(pc: Pc, to: nat, from: nat, id: nat, sent: seq<Body>, received: seq<Body>)

  /** Where the server is: in handle_connect for client c from Accept to TakeBuffer, in
      handle_new_message at Taking, in the program that called listen at Handling. */
  datatype Server =
    | Listening
    | Accept(c: nat)
    | SendId(c: nat, id: nat)
    | TakeFrom(c: nat, id: nat)
    | TakeTo(c: nat, id: nat)
    | TakeBuffer(c: nat, id: nat)
    | Taking(id: nat)
    | Handling(id: nat, request: Body)

  // The server's endpoints for one client
  datatype Conn = Conn(asyncTo: nat, asyncFrom: nat)

  datatype Exchange = Exchange(request: Body, reply: Body)

  /** log is what the server has been asked and has replied under each client id. */
  datatype State = State(clients: seq<Client>, server: Server, registry: map<nat, Conn>, queues: map<nat, seq<Body>>,
                         log: map<nat, seq<Exchange>>, next: nat)

  datatype Step =
    | Make(c: nat)
    | Hello(c: nat)
    | Ask(c: nat, id: nat)
    | GiveId(c: nat)
    | GrantTo(c: nat)
    | GrantFrom(c: nat)
    | GrantBuffer(c: nat)
    | Push(c: nat, body: Body, call: bool)
    | Notify(c: nat)
    | Take
    | Respond(reply: Body)
    | Receive(c: nat)
    | Disconnect(c: nat)

  predicate HasId(pc: Pc) {
    pc.GrantingTo? || pc.GrantingFrom? || pc.GrantingBuffer? || Registered(pc)
  }

  predicate Registered(pc: Pc) {
    pc.Ready? || pc.Notifying? || pc.Receiving? || pc.Gone?
  }

  function Queue(s: State, e: nat): seq<Body> {
    if e in s.queues then s.queues[e] else []
  }

  function Log(s: State, id: nat): seq<Exchange> {
    if id in s.log then s.log[id] else []
  }

  // One step of a client, of the server, or of both when they meet. A step that cannot be taken
  // changes nothing.
  function Apply(s: State, step: Step): State {
    match step
    case Take =>
      if !s.server.Taking? then s
      else if s.server.id !in s.registry then s.(server := Listening)
      else
        var from := s.registry[s.server.id].asyncFrom;
        if Queue(s, from) == [] then s.(server := Listening)
        else s.(server := Handling(s.server.id, Queue(s, from)[0]), queues := s.queues[from := Queue(s, from)[1..]])
    case Respond(reply) =>
      if !s.server.Handling? || s.server.id !in s.registry then s
      else
        var id, to := s.server.id, s.registry[s.server.id].asyncTo;
        s.(server := Listening, queues := s.queues[to := Queue(s, to) + [reply]],
        log := s.log[id := Log(s, id) + [Exchange(s.server.request, reply)]])
    case _ =>
      if step.c >= |s.clients| then s else ClientStep(s, step, step.c, s.clients[step.c])
  }

  function ClientStep(s: State, step: Step, c: nat, k: Client): State
    requires c < |s.clients|
  {
    match step
    case Make(_) =>
      if !k.pc.New? then s
      else s.(clients := s.clients[c := k.(pc := Made, to := s.next, from := s.next + 1)],
           queues := s.queues[s.next := []][s.next + 1 := []], next := s.next + 2)
    case Hello(_) =>
      if !(k.pc.Made? && s.server.Listening?) then s
      else s.(clients := s.clients[c := k.(pc := Asking)], server := Accept(c))
    case Ask(_, id) =>
      if !(k.pc.Asking? && s.server == Accept(c) && id !in s.registry) then s
      else s.(clients := s.clients[c := k.(pc := AwaitId)], server := SendId(c, id), registry := s.registry[id := Conn(0, 0)],
           log := s.log[id := []])
    case GiveId(_) =>
      if !(k.pc.AwaitId? && s.server.SendId? && s.server.c == c) then s
      else s.(clients := s.clients[c := k.(pc := GrantingTo, id := s.server.id)], server := TakeFrom(c, s.server.id))
    case GrantTo(_) =>
      if !(k.pc.GrantingTo? && s.server.TakeFrom? && s.server.c == c && s.server.id in s.registry) then s
      else s.(clients := s.clients[c := k.(pc := GrantingFrom)], server := TakeTo(c, s.server.id),
           registry := s.registry[s.server.id := s.registry[s.server.id].(asyncFrom := k.to)])
    case GrantFrom(_) =>
      if !(k.pc.GrantingFrom? && s.server.TakeTo? && s.server.c == c && s.server.id in s.registry) then s
      else s.(clients := s.clients[c := k.(pc := GrantingBuffer)], server := TakeBuffer(c, s.server.id),
           registry := s.registry[s.server.id := s.registry[s.server.id].(asyncTo := k.from)])
    case GrantBuffer(_) =>
      if !(k.pc.GrantingBuffer? && s.server.TakeBuffer? && s.server.c == c) then s
      else s.(clients := s.clients[c := k.(pc := Ready)], server := Listening)
    case Push(_, body, call) =>
      if !k.pc.Ready? then s
      else s.(clients := s.clients[c := k.(pc := Notifying(call), sent := k.sent + [body])],
           queues := s.queues[k.to := Queue(s, k.to) + [body]])
    case Notify(_) =>
      if !(k.pc.Notifying? && s.server.Listening?) then s
      else s.(clients := s.clients[c := k.(pc := if k.pc.call then Receiving else Ready)], server := Taking(k.id))
    case Receive(_) =>
      if !((k.pc.Ready? || k.pc.Receiving?) && Queue(s, k.from) != []) then s
      else s.(clients := s.clients[c := k.(pc := Ready, received := k.received + [Queue(s, k.from)[0]])],
           queues := s.queues[k.from := Queue(s, k.from)[1..]])
    case Disconnect(_) =>
      if !(k.pc.Ready? && s.server.Listening?) then s
      else s.(clients := s.clients[c := k.(pc := Gone)])
    case _ => s
  }

  // ----- What every step keeps -----

  function Requests(l: seq<Exchange>): (r: seq<Body>)
    ensures |r| == |l| && forall i | 0 <= i < |l| :: r[i] == l[i].request
  {
    seq(|l|, i requires 0 <= i < |l| => l[i].request)
  }

  function Replies(l: seq<Exchange>): (r: seq<Body>)
    ensures |r| == |l| && forall i | 0 <= i < |l| :: r[i] == l[i].reply
  {
    seq(|l|, i requires 0 <= i < |l| => l[i].reply)
  }

  // The request under an id that the server is working on
  function InHand(server: Server, id: nat): seq<Body> {
    if server.Handling? && server.id == id then [server.request] else []
  }

  // Every message a registered client has sent is logged, in the server's hand or queued, in this
  // order; every reply has been received or is queued; and each message not yet taken has a
  // notification that the client is about to send or the server has just got.
  ghost predicate Flow(k: Client, server: Server, inbox: seq<Body>, outbox: seq<Body>, l: seq<Exchange>) {
    && k.sent == Requests(l) + InHand(server, k.id) + outbox
    && Replies(l) == k.received + inbox
    && |outbox| == (if k.pc.Notifying? then 1 else 0) + (if server == Taking(k.id) then 1 else 0)
  }

  // Client and server agree on how far the handshake is.
  ghost predicate InStep(k: Client, c: nat, server: Server) {
    && (k.pc.Asking? <==> server == Accept(c))
    && (k.pc.AwaitId? <==> server.SendId? && server.c == c)
    && (k.pc.GrantingTo? <==> server.TakeFrom? && server.c == c)
    && (k.pc.GrantingFrom? <==> server.TakeTo? && server.c == c)
    && (k.pc.GrantingBuffer? <==> server.TakeBuffer? && server.c == c)
    && (k.pc.GrantingTo? || k.pc.GrantingFrom? || k.pc.GrantingBuffer? ==> server.id == k.id)
  }

  ghost predicate ClientOk(s: State, c: nat)
    requires c < |s.clients|
  {
    var k := s.clients[c];
    && InStep(k, c, s.server)
    && (!k.pc.New? ==> k.to in s.queues && k.from in s.queues && k.to != k.from)
    && (HasId(k.pc) ==> k.id in s.registry && k.id in s.log)
    && (k.pc.GrantingFrom? ==> s.registry[k.id].asyncFrom == k.to)
    && (k.pc.GrantingBuffer? || Registered(k.pc) ==> s.registry[k.id] == Conn(k.from, k.to))
    && (!Registered(k.pc) ==> k.sent == k.received == [] && (HasId(k.pc) ==> s.log[k.id] == [])
                              && (!k.pc.New? ==> s.queues[k.to] == s.queues[k.from] == []))
    && (Registered(k.pc) ==> Flow(k, s.server, s.queues[k.from], s.queues[k.to], s.log[k.id]))
  }

  // Two clients share no endpoint and no id.
  ghost predicate Apart(k: Client, l: Client) {
    && (!k.pc.New? && !l.pc.New? ==> k.to != l.to && k.to != l.from && k.from != l.to && k.from != l.from)
    && (HasId(k.pc) && HasId(l.pc) ==> k.id != l.id)
  }

  ghost predicate ServerOk(s: State) {
    match s.server
    case Accept(c) => c < |s.clients|
    case TakeFrom(c, _) => c < |s.clients|
    case TakeTo(c, _) => c < |s.clients|
    case TakeBuffer(c, _) => c < |s.clients|
    case SendId(c, id) =>
      && c < |s.clients| && id in s.registry && id in s.log && s.log[id] == []
      && forall d | 0 <= d < |s.clients| && HasId(s.clients[d].pc) :: s.clients[d].id != id
    case Taking(id) => exists c :: 0 <= c < |s.clients| && Registered(s.clients[c].pc) && s.clients[c].id == id
    case Handling(id, _) => exists c :: 0 <= c < |s.clients| && Registered(s.clients[c].pc) && s.clients[c].id == id
    case _ => true
  }

  ghost predicate Good(s: State) {
    && (forall c | 0 <= c < |s.clients| :: ClientOk(s, c))
    && (forall c, d | 0 <= c < d < |s.clients| :: Apart(s.clients[c], s.clients[d]))
    && (forall e | e in s.queues :: e < s.next)
    && ServerOk(s)
  }

  // The server's dealings with one client id are the same.
  ghost predicate SameDealings(a: Server, b: Server, id: nat) {
    InHand(a, id) == InHand(b, id) && (a == Taking(id) <==> b == Taking(id))
  }

  // A client that a step does not concern stays as it is.
  lemma {:induction false} OtherOk(s: State, t: State, d: nat)
    requires d < |s.clients| && d < |t.clients| && t.clients[d] == s.clients[d] && ClientOk(s, d)
    requires var k := s.clients[d];
             && InStep(k, d, t.server)
             && (!k.pc.New? ==> k.to in t.queues && k.from in t.queues
                                && t.queues[k.to] == s.queues[k.to] && t.queues[k.from] == s.queues[k.from])
             && (HasId(k.pc) ==> k.id in t.registry && k.id in t.log && t.registry[k.id] == s.registry[k.id] && t.log[k.id] == s.log[k.id])
             && (Registered(k.pc) ==> SameDealings(s.server, t.server, k.id))
    ensures ClientOk(t, d)
  {
  }

  lemma ApartSymmetric(k: Client, l: Client)
    ensures Apart(k, l) <==> Apart(l, k)
  {
  }

  lemma ApartAt(s: State, c: nat, d: nat)
    requires Good(s) && c < |s.clients| && d < |s.clients| && c != d
    ensures Apart(s.clients[c], s.clients[d])
  {
    ApartSymmetric(s.clients[c], s.clients[d]);
    hide Apart, ClientOk;
  }

  lemma {:induction false} Assemble(s: State, t: State, c: nat)
    requires Good(s) && c < |s.clients| == |t.clients|
    requires forall d | 0 <= d < |s.clients| && d != c :: t.clients[d] == s.clients[d] && ClientOk(t, d) && Apart(t.clients[c], t.clients[d])
    requires ClientOk(t, c) && ServerOk(t) && forall e | e in t.queues :: e < t.next
    ensures Good(t)
  {
    hide ClientOk, ServerOk, Apart;
    forall i, j | 0 <= i < j < |t.clients|
      ensures Apart(t.clients[i], t.clients[j])
    {
      ApartSymmetric(t.clients[i], t.clients[j]);
      ApartAt(s, i, j);
    }
  }

  lemma {:induction false} MakeKeeps(s: State, c: nat)
    requires Good(s) && c < |s.clients| && s.clients[c].pc.New?
    ensures Good(Apply(s, Make(c)))
  {
    var t := Apply(s, Make(c));
    assert ClientOk(s, c);
    forall d | 0 <= d < |s.clients| && d != c
      ensures ClientOk(t, d) && Apart(t.clients[c], t.clients[d])
    {
      assert ClientOk(s, d);
      OtherOk(s, t, d);
      ApartAt(s, c, d);
    }
    assert ClientOk(t, c);
    hide ClientOk, Apart;
    SameServerOk(s, t, c);
    Assemble(s, t, c);
  }

  // The registered clients and the log being the same, the server's state stays right.
  lemma SameServerOk(s: State, t: State, c: nat)
    requires ServerOk(s) && t.server == s.server && c < |s.clients| && |t.clients| == |s.clients|
    requires forall d | 0 <= d < |s.clients| && d != c :: t.clients[d] == s.clients[d]
    requires HasId(s.clients[c].pc) == HasId(t.clients[c].pc) && Registered(s.clients[c].pc) == Registered(t.clients[c].pc)
    requires HasId(s.clients[c].pc) ==> t.clients[c].id == s.clients[c].id
    requires forall id | id in s.registry && id in s.log :: id in t.registry && id in t.log && t.log[id] == s.log[id]
    ensures ServerOk(t)
  {
    match s.server
    case Taking(id) =>
      var d :| 0 <= d < |s.clients| && Registered(s.clients[d].pc) && s.clients[d].id == id;
      assert t.clients[d].id == id && Registered(t.clients[d].pc);
    case Handling(id, _) =>
      var d :| 0 <= d < |s.clients| && Registered(s.clients[d].pc) && s.clients[d].id == id;
      assert t.clients[d].id == id && Registered(t.clients[d].pc);
    case _ =>
  }

  lemma {:induction false} HelloKeeps(s: State, c: nat)
    requires Good(s) && c < |s.clients| && s.clients[c].pc.Made? && s.server.Listening?
    ensures Good(Apply(s, Hello(c)))
  {
    var t := Apply(s, Hello(c));
    assert ClientOk(s, c);
    forall d | 0 <= d < |s.clients| && d != c
      ensures ClientOk(t, d) && Apart(t.clients[c], t.clients[d])
    {
      assert ClientOk(s, d);
      OtherOk(s, t, d);
      ApartAt(s, c, d);
    }
    Assemble(s, t, c);
  }

  lemma {:induction false} AskKeeps(s: State, c: nat, id: nat)
    requires Good(s) && c < |s.clients| && s.clients[c].pc.Asking? && s.server == Accept(c) && id !in s.registry
    ensures Good(Apply(s, Ask(c, id)))
  {
    var t := Apply(s, Ask(c, id));
    assert ClientOk(s, c);
    forall d | 0 <= d < |s.clients| && d != c
      ensures ClientOk(t, d) && Apart(t.clients[c], t.clients[d]) && (HasId(s.clients[d].pc) ==> s.clients[d].id != id)
    {
      assert ClientOk(s, d);
      OtherOk(s, t, d);
      ApartAt(s, c, d);
    }
    Assemble(s, t, c);
  }

  lemma {:induction false} GiveIdKeeps(s: State, c: nat)
    requires Good(s) && c < |s.clients| && s.clients[c].pc.AwaitId? && s.server.SendId? && s.server.c == c
    ensures Good(Apply(s, GiveId(c)))
  {
    var t := Apply(s, GiveId(c));
    assert ClientOk(s, c);
    forall d | 0 <= d < |s.clients| && d != c
      ensures ClientOk(t, d) && Apart(t.clients[c], t.clients[d])
    {
      assert ClientOk(s, d);
      OtherOk(s, t, d);
      ApartAt(s, c, d);
    }
    Assemble(s, t, c);
  }

  // GrantTo and GrantFrom
  lemma {:induction false} GrantToKeeps(s: State, c: nat)
    requires Good(s) && c < |s.clients|
    ensures Good(Apply(s, GrantTo(c)))
  {
    var t := Apply(s, GrantTo(c));
    if t != s {
      assert ClientOk(s, c);
      forall d | 0 <= d < |s.clients| && d != c
        ensures ClientOk(t, d) && Apart(t.clients[c], t.clients[d])
      {
        assert ClientOk(s, d);
        ApartAt(s, c, d);
        OtherOk(s, t, d);
      }
      Assemble(s, t, c);
    }
  }

  lemma {:induction false} GrantFromKeeps(s: State, c: nat)
    requires Good(s) && c < |s.clients|
    ensures Good(Apply(s, GrantFrom(c)))
  {
    var t := Apply(s, GrantFrom(c));
    if t != s {
      assert ClientOk(s, c);
      forall d | 0 <= d < |s.clients| && d != c
        ensures ClientOk(t, d) && Apart(t.clients[c], t.clients[d])
      {
        assert ClientOk(s, d);
        ApartAt(s, c, d);
        OtherOk(s, t, d);
      }
      Assemble(s, t, c);
    }
  }

  lemma {:induction false} GrantBufferKeeps(s: State, c: nat)
    requires Good(s) && c < |s.clients| && s.clients[c].pc.GrantingBuffer? && s.server.TakeBuffer? && s.server.c == c
    ensures Good(Apply(s, GrantBuffer(c)))
  {
    var t := Apply(s, GrantBuffer(c));
    assert ClientOk(s, c);
    forall d | 0 <= d < |s.clients| && d != c
      ensures ClientOk(t, d) && Apart(t.clients[c], t.clients[d])
    {
      assert ClientOk(s, d);
      ApartAt(s, c, d);
      OtherOk(s, t, d);
    }
    Assemble(s, t, c);
  }

  lemma {:induction false} PushKeeps(s: State, c: nat, body: Body, call: bool)
    requires Good(s) && c < |s.clients| && s.clients[c].pc.Ready?
    ensures Good(Apply(s, Push(c, body, call)))
  {
    var t, k := Apply(s, Push(c, body, call)), s.clients[c];
    assert ClientOk(s, c);
    forall d | 0 <= d < |s.clients| && d != c
      ensures ClientOk(t, d) && Apart(t.clients[c], t.clients[d])
    {
      assert ClientOk(s, d);
      ApartAt(s, c, d);
      OtherOk(s, t, d);
    }
    assert ClientOk(t, c) by {
      var l := s.log[k.id];
      assert k.sent + [body] == Requests(l) + InHand(s.server, k.id) + (s.queues[k.to] + [body]);
    }
    SameServerOk(s, t, c);
    Assemble(s, t, c);
  }

  lemma {:induction false} NotifyKeeps(s: State, c: nat)
    requires Good(s) && c < |s.clients| && s.clients[c].pc.Notifying? && s.server.Listening?
    ensures Good(Apply(s, Notify(c)))
  {
    var t := Apply(s, Notify(c));
    assert ClientOk(s, c);
    forall d | 0 <= d < |s.clients| && d != c
      ensures ClientOk(t, d) && Apart(t.clients[c], t.clients[d])
    {
      assert ClientOk(s, d);
      ApartAt(s, c, d);
      OtherOk(s, t, d);
    }
    assert t.clients[c].id == s.clients[c].id && Registered(t.clients[c].pc);
    Assemble(s, t, c);
  }

  lemma {:induction false} ReceiveKeeps(s: State, c: nat)
    requires Good(s) && c < |s.clients|
    ensures Good(Apply(s, Receive(c)))
  {
    var t, k := Apply(s, Receive(c)), s.clients[c];
    if t != s {
      assert ClientOk(s, c);
      forall d | 0 <= d < |s.clients| && d != c
        ensures ClientOk(t, d) && Apart(t.clients[c], t.clients[d])
      {
        assert ClientOk(s, d);
        ApartAt(s, c, d);
        OtherOk(s, t, d);
      }
      var q := s.queues[k.from];
      assert k.received + q == (k.received + [q[0]]) + q[1..];
      SameServerOk(s, t, c);
      Assemble(s, t, c);
    }
  }

  lemma {:induction false} DisconnectKeeps(s: State, c: nat)
    requires Good(s) && c < |s.clients| && s.clients[c].pc.Ready? && s.server.Listening?
    ensures Good(Apply(s, Disconnect(c)))
  {
    var t := Apply(s, Disconnect(c));
    assert ClientOk(s, c);
    forall d | 0 <= d < |s.clients| && d != c
      ensures ClientOk(t, d) && Apart(t.clients[c], t.clients[d])
    {
      assert ClientOk(s, d);
      ApartAt(s, c, d);
      OtherOk(s, t, d);
    }
    Assemble(s, t, c);
  }

  // A notification always finds a registered client with a message queued, so the server's
  // receive, which does not block, never comes back empty.
  lemma {:induction false} TakeSucceeds(s: State)
    requires Good(s) && s.server.Taking?
    ensures s.server.id in s.registry && Queue(s, s.registry[s.server.id].asyncFrom) != []
    ensures Apply(s, Take).server.Handling?
  {
    var c :| 0 <= c < |s.clients| && Registered(s.clients[c].pc) && s.clients[c].id == s.server.id;
    assert ClientOk(s, c);
  }

  // The client that the server is dealing with
  ghost predicate Served(s: State, c: nat) {
    c < |s.clients| && Registered(s.clients[c].pc) && (s.server.Taking? || s.server.Handling?) && s.clients[c].id == s.server.id
  }

  lemma ServedClient(s: State) returns (c: nat)
    requires ServerOk(s) && (s.server.Taking? || s.server.Handling?)
    ensures Served(s, c)
  {
    c :| 0 <= c < |s.clients| && Registered(s.clients[c].pc) && s.clients[c].id == s.server.id;
  }

  lemma ServedInv(s: State, c: nat)
    requires Served(s, c) && ClientOk(s, c)
    ensures var k := s.clients[c];
            && k.id in s.registry && s.registry[k.id] == Conn(k.from, k.to) && k.id in s.log
            && k.to in s.queues && k.from in s.queues && k.to != k.from
            && Flow(k, s.server, s.queues[k.from], s.queues[k.to], s.log[k.id])
  {
    hide Flow, InStep;
  }

  // The state after Take, spelt out
  lemma Taken(s: State, c: nat)
    requires Served(s, c) && ClientOk(s, c) && s.server.Taking?
    ensures var k := s.clients[c];
            && k.to in s.queues && s.queues[k.to] != [] && k.id == s.server.id
            && Apply(s, Take) == s.(server := Handling(k.id, s.queues[k.to][0]), queues := s.queues[k.to := s.queues[k.to][1..]])
  {
    ServedInv(s, c);
    hide ClientOk, InStep;
  }

  // What changes for a client when only one queue and the server's dealings with another id do
  lemma {:induction false} ElsewhereOk(s: State, t: State, c: nat, d: nat)
    requires c < |s.clients| && d < |s.clients| && c != d && t.clients == s.clients && t.registry == s.registry
    requires ClientOk(s, d) && Apart(s.clients[c], s.clients[d]) && Registered(s.clients[c].pc)
    requires t.queues.Keys == s.queues.Keys
    requires forall e | e in s.queues && e != s.clients[c].to && e != s.clients[c].from :: t.queues[e] == s.queues[e]
    requires t.log.Keys == s.log.Keys && forall id | id in s.log && id != s.clients[c].id :: t.log[id] == s.log[id]
    requires InStep(s.clients[d], d, t.server)
    requires forall id: nat | id != s.clients[c].id :: SameDealings(s.server, t.server, id)
    ensures ClientOk(t, d)
  {
    hide InStep, Flow, SameDealings;
    OtherOk(s, t, d);
  }

  lemma {:induction false} TakeSelf(s: State, c: nat)
    requires Served(s, c) && ClientOk(s, c) && s.server.Taking?
    ensures ClientOk(Apply(s, Take), c)
  {
    Taken(s, c);
    hide Apply;
    var k := s.clients[c];
    var q := s.queues[k.to];
    assert Requests(s.log[k.id]) + [] + q == Requests(s.log[k.id]) + [q[0]] + q[1..];
  }

  lemma {:induction false} TakeKeeps(s: State)
    requires Good(s) && s.server.Taking?
    ensures Good(Apply(s, Take))
  {
    hide ClientOk, Apart, Flow, Registered, HasId, Served;
    var c := ServedClient(s);
    TakeParts(s, c);
    hide Apply, ServerOk;
    var t := Apply(s, Take);
    forall d | 0 <= d < |s.clients| && d != c
      ensures ClientOk(t, d) && Apart(t.clients[c], t.clients[d])
    {
      ApartAt(s, c, d);
      TakeOther(s, c, d);
    }
    TakeSelf(s, c);
    Assemble(s, t, c);
  }

  lemma TakeOther(s: State, c: nat, d: nat)
    requires Served(s, c) && ClientOk(s, c) && s.server.Taking? && d < |s.clients| && d != c
    requires ClientOk(s, d) && Apart(s.clients[c], s.clients[d])
    ensures ClientOk(Apply(s, Take), d)
  {
    Taken(s, c);
    assert InStep(s.clients[d], d, Apply(s, Take).server);
    hide Apply, ClientOk, Apart;
    ElsewhereOk(s, Apply(s, Take), c, d);
  }

  lemma TakeParts(s: State, c: nat)
    requires Served(s, c) && ClientOk(s, c) && s.server.Taking?
    ensures var t := Apply(s, Take);
            t.clients == s.clients && t.next == s.next && t.queues.Keys == s.queues.Keys && ServerOk(t) && c < |s.clients|
  {
    Taken(s, c);
    hide Apply, ClientOk;
    assert s.clients[c].id == Apply(s, Take).server.id;
  }

  // The state after Respond, spelt out
  lemma Responded(s: State, c: nat, reply: Body)
    requires Served(s, c) && ClientOk(s, c) && s.server.Handling?
    ensures var k := s.clients[c];
            && k.from in s.queues && k.id in s.log && k.id == s.server.id
            && Apply(s, Respond(reply)) ==
               s.(server := Listening, queues := s.queues[k.from := s.queues[k.from] + [reply]],
               log := s.log[k.id := s.log[k.id] + [Exchange(s.server.request, reply)]])
  {
    ServedInv(s, c);
    hide ClientOk, InStep, Flow;
  }

  lemma {:induction false} RespondSelf(s: State, c: nat, reply: Body)
    requires Served(s, c) && ClientOk(s, c) && s.server.Handling?
    ensures ClientOk(Apply(s, Respond(reply)), c)
  {
    Responded(s, c, reply);
    hide Apply;
    var k := s.clients[c];
    var l, e := s.log[k.id], Exchange(s.server.request, reply);
    Longer(l, e);
    assert Requests(l) + [e.request] + s.queues[k.to] == Requests(l + [e]) + [] + s.queues[k.to];
    assert Replies(l) + [reply] == k.received + (s.queues[k.from] + [reply]);
  }

  lemma Longer(l: seq<Exchange>, e: Exchange)
    ensures Requests(l + [e]) == Requests(l) + [e.request] && Replies(l + [e]) == Replies(l) + [e.reply]
  {
  }

  lemma RespondOther(s: State, c: nat, d: nat, reply: Body)
    requires Served(s, c) && ClientOk(s, c) && s.server.Handling? && d < |s.clients| && d != c
    requires ClientOk(s, d) && Apart(s.clients[c], s.clients[d])
    ensures ClientOk(Apply(s, Respond(reply)), d)
  {
    Responded(s, c, reply);
    assert InStep(s.clients[d], d, Apply(s, Respond(reply)).server);
    hide Apply, ClientOk, Apart;
    ElsewhereOk(s, Apply(s, Respond(reply)), c, d);
  }

  lemma RespondParts(s: State, c: nat, reply: Body)
    requires Served(s, c) && ClientOk(s, c) && s.server.Handling?
    ensures var t := Apply(s, Respond(reply));
            t.clients == s.clients && t.next == s.next && t.queues.Keys == s.queues.Keys && ServerOk(t) && c < |s.clients|
  {
    Responded(s, c, reply);
    hide Apply, ClientOk;
  }

  lemma {:induction false} RespondKeeps(s: State, reply: Body)
    requires Good(s) && s.server.Handling?
    ensures Good(Apply(s, Respond(reply)))
  {
    hide ClientOk, Apart, Flow, Registered, HasId, Served;
    var c := ServedClient(s);
    RespondParts(s, c, reply);
    hide Apply, ServerOk;
    var t := Apply(s, Respond(reply));
    forall d | 0 <= d < |s.clients| && d != c
      ensures ClientOk(t, d) && Apart(t.clients[c], t.clients[d])
    {
      ApartAt(s, c, d);
      RespondOther(s, c, d, reply);
    }
    RespondSelf(s, c, reply);
    Assemble(s, t, c);
  }

  lemma {:induction false} StepKeeps(s: State, step: Step)
    requires Good(s)
    ensures Good(Apply(s, step))
  {
    hide Good;
    if Apply(s, step) != s {
      match step
      case Make(c) => MakeKeeps(s, c);
      case Hello(c) => HelloKeeps(s, c);
      case Ask(c, id) => AskKeeps(s, c, id);
      case GiveId(c) => GiveIdKeeps(s, c);
      case GrantTo(c) => GrantToKeeps(s, c);
      case GrantFrom(c) => GrantFromKeeps(s, c);
      case GrantBuffer(c) => GrantBufferKeeps(s, c);
      case Push(c, body, call) => PushKeeps(s, c, body, call);
      case Notify(c) => NotifyKeeps(s, c);
      case Take => TakeKeeps(s);
      case Respond(reply) => RespondKeeps(s, reply);
      case Receive(c) => ReceiveKeeps(s, c);
      case Disconnect(c) => DisconnectKeeps(s, c);
    }
  }

  // ----- Whole runs -----

  function Initial(n: nat): State {
    State(seq(n, _ => Client(New, 0, 0, 0, [], [])), Listening, map[], map[], map[], 0)
  }

  ghost function Run(s: State, steps: seq<Step>): State {
    if steps == [] then s else Apply(Run(s, steps[..|steps| - 1]), steps[|steps| - 1])
  }

  lemma {:induction false} RunKeeps(n: nat, steps: seq<Step>)
    ensures Good(Run(Initial(n), steps))
  {
    if steps != [] {
      RunKeeps(n, steps[..|steps| - 1]);
      StepKeeps(Run(Initial(n), steps[..|steps| - 1]), steps[|steps| - 1]);
    }
  }

  // Whatever has happened before, the server's receive after a notification finds a message.
  lemma NeverEmptyHanded(n: nat, steps: seq<Step>)
    requires Run(Initial(n), steps).server.Taking?
    ensures Apply(Run(Initial(n), steps), Take).server.Handling?
  {
    RunKeeps(n, steps);
    TakeSucceeds(Run(Initial(n), steps));
  }

  // In every interleaving, every connected client's endpoints are the server's, crosswise.
  lemma Crosswise(n: nat, steps: seq<Step>, c: nat)
    requires var s := Run(Initial(n), steps); c < |s.clients| && Registered(s.clients[c].pc)
    ensures var s := Run(Initial(n), steps);
            var k := s.clients[c];
            k.id in s.registry && s.registry[k.id].asyncFrom == k.to && s.registry[k.id].asyncTo == k.from
  {
    RunKeeps(n, steps);
    assert ClientOk(Run(Initial(n), steps), c);
  }

  // In every interleaving, the i-th reply a client has received is what the server answered to
  // the i-th message that this client sent.
  lemma {:induction false} RepliesInOrder(n: nat, steps: seq<Step>, c: nat, i: nat)
    requires var s := Run(Initial(n), steps); c < |s.clients| && i < |s.clients[c].received|
    ensures var s := Run(Initial(n), steps);
            var k := s.clients[c];
            && k.id in s.log && i < |s.log[k.id]| && i < |k.sent|
            && s.log[k.id][i].request == k.sent[i] && s.log[k.id][i].reply == k.received[i]
  {
    RunKeeps(n, steps);
    var s := Run(Initial(n), steps);
    assert ClientOk(s, c);
    var k := s.clients[c];
    assert Replies(s.log[k.id])[i] == (k.received + s.queues[k.from])[i];
    assert Requests(s.log[k.id])[i] == (Requests(s.log[k.id]) + InHand(s.server, k.id) + s.queues[k.to])[i];
  }

  // The next reply a client receives is the server's answer to its message number |received|.
  lemma {:induction false} NextReply(n: nat, steps: seq<Step>, c: nat)
    requires var s := Run(Initial(n), steps);
             c < |s.clients| && (s.clients[c].pc.Ready? || s.clients[c].pc.Receiving?) && Queue(s, s.clients[c].from) != []
    ensures var s := Run(Initial(n), steps);
            var k, r := s.clients[c], Apply(s, Receive(c)).clients[c].received;
            var i := |k.received|;
            && i < |k.sent| && k.id in s.log && i < |s.log[k.id]|
            && |r| == i + 1 && r[i] == s.log[k.id][i].reply && k.sent[i] == s.log[k.id][i].request
  {
    var s := Run(Initial(n), steps);
    RunKeeps(n, steps);
    assert ClientOk(s, c);
    var k := s.clients[c];
    var i := |k.received|;
    assert Replies(s.log[k.id])[i] == (k.received + s.queues[k.from])[i];
    assert Requests(s.log[k.id])[i] == (Requests(s.log[k.id]) + InHand(s.server, k.id) + s.queues[k.to])[i];
  }

  // ----- One call -----

  predicate Calling(pc: Pc) {
    pc == Notifying(true) || pc.Receiving?
  }

  ghost function At(n: nat, steps: seq<Step>, j: nat): State
    requires j <= |steps|
  {
    Run(Initial(n), steps[..j])
  }

  // Client c calls with step j, and step m is the receive that ends this call.
  ghost predicate CallEnds(n: nat, steps: seq<Step>, c: nat, j: nat, m: nat) {
    && j < m < |steps| && steps[j].Push? && steps[j].c == c && steps[j].call && steps[m] == Receive(c)
    && c < |At(n, steps, j).clients| && At(n, steps, j).clients[c].pc.Ready?
    && (forall k | j < k <= m :: c < |At(n, steps, k).clients| && Calling(At(n, steps, k).clients[c].pc))
    && c < |At(n, steps, m + 1).clients| && At(n, steps, m + 1).clients[c].pc.Ready?
  }

  // The last message that the client received is the server's reply to the p-th that it sent.
  ghost predicate RepliesTo(s: State, c: nat, p: nat)
    requires c < |s.clients|
  {
    var k := s.clients[c];
    && |k.received| == p + 1 <= |k.sent| && k.id in s.log && p < |s.log[k.id]|
    && s.log[k.id][p] == Exchange(k.sent[p], k.received[p])
  }

  lemma RunNext(n: nat, steps: seq<Step>, j: nat)
    requires j < |steps|
    ensures At(n, steps, j + 1) == Apply(At(n, steps, j), steps[j])
  {
    assert steps[..j + 1][..j] == steps[..j];
  }

  // While a call lasts, its client neither sends nor receives.
  lemma CallingStays(s: State, step: Step, c: nat)
    requires c < |s.clients| && Calling(s.clients[c].pc)
    ensures var t := Apply(s, step);
            c < |t.clients| && (Calling(t.clients[c].pc) ==> t.clients[c] == s.clients[c].(pc := t.clients[c].pc))
  {
  }

  lemma CallStarts(s: State, step: Step, c: nat)
    requires c < |s.clients| && s.clients[c].pc.Ready? && step.Push? && step.c == c
    ensures var t := Apply(s, step);
            && c < |t.clients| && t.clients[c].sent == s.clients[c].sent + [step.body]
            && t.clients[c].received == s.clients[c].received
  {
  }

  lemma {:induction false} CallKeeps(n: nat, steps: seq<Step>, c: nat, j: nat, m: nat, k: nat)
    requires CallEnds(n, steps, c, j, m) && j < k <= m
    ensures var before, now := At(n, steps, j).clients[c], At(n, steps, k).clients[c];
            && now.sent == before.sent + [steps[j].body] && now.received == before.received
    decreases k
  {
    hide Apply, Run, At;
    RunNext(n, steps, k - 1);
    if k > j + 1 {
      CallKeeps(n, steps, c, j, m, k - 1);
      CallingStays(At(n, steps, k - 1), steps[k - 1], c);
    } else {
      CallStarts(At(n, steps, j), steps[j], c);
    }
  }

  // A call returns exactly one reply. It is the reply to the call's own message if and only if all
  // earlier messages of the client had their replies received when the call was made; otherwise
  // it is the reply to the first that had not.
  lemma {:induction false} CallReply(n: nat, steps: seq<Step>, c: nat, j: nat, m: nat)
    requires CallEnds(n, steps, c, j, m)
    ensures var before, after := At(n, steps, j).clients[c], At(n, steps, m + 1);
            && after.clients[c].sent == before.sent + [steps[j].body]
            && before.received <= after.clients[c].received
            && RepliesTo(after, c, |before.received|)
            && (RepliesTo(after, c, |before.sent|) <==> |before.sent| == |before.received|)
  {
    CallKeeps(n, steps, c, j, m, m);
    RunNext(n, steps, m);
    RunKeeps(n, steps[..m]);
    RunKeeps(n, steps[..j]);
    assert ClientOk(At(n, steps, j), c) && ClientOk(At(n, steps, m), c);
    hide Run;
    EndsWithReply(At(n, steps, m), c);
  }

  lemma {:induction false} EndsWithReply(s: State, c: nat)
    requires c < |s.clients| && ClientOk(s, c) && Calling(s.clients[c].pc)
    requires c < |Apply(s, Receive(c)).clients| && Apply(s, Receive(c)).clients[c].pc.Ready?
    ensures var k, t := s.clients[c], Apply(s, Receive(c));
            && t.clients[c].sent == k.sent && k.received <= t.clients[c].received
            && RepliesTo(t, c, |k.received|)
  {
    var k := s.clients[c];
    var i, l := |k.received|, s.log[k.id];
    assert Replies(l)[i] == (k.received + s.queues[k.from])[i];
    assert Requests(l)[i] == (Requests(l) + InHand(s.server, k.id) + s.queues[k.to])[i];
  }

  // One client sends 1 without receiving, and calls with 2 when 1 has been answered with 10.
  function StaleSteps(): seq<Step> {
    [ Make(0), Hello(0), Ask(0, 7), GiveId(0), GrantTo(0), GrantFrom(0), GrantBuffer(0),
      Push(0, 1, false), Notify(0), Take, Respond(10), Push(0, 2, true), Notify(0), Receive(0) ]
  }

  function StaleClient(pc: Pc, id: nat, sent: seq<Body>, received: seq<Body>): seq<Client> {
    [Client(pc, 0, 1, id, sent, received)]
  }

  function StaleQueues(to: seq<Body>, from: seq<Body>): map<nat, seq<Body>> {
    map[0 := to, 1 := from]
  }

  // The states that the steps lead to: first the connection, then the messages.
  function StaleStart(k: nat): State {
    if k == 0 then Initial(1)
    else if k == 1 then State(StaleClient(Made, 0, [], []), Listening, map[], StaleQueues([], []), map[], 2)
    else if k == 2 then State(StaleClient(Asking, 0, [], []), Accept(0), map[], StaleQueues([], []), map[], 2)
    else if k == 3 then State(StaleClient(AwaitId, 0, [], []), SendId(0, 7), map[7 := Conn(0, 0)], StaleQueues([], []), map[7 := []], 2)
    else if k == 4 then State(StaleClient(GrantingTo, 7, [], []), TakeFrom(0, 7), map[7 := Conn(0, 0)], StaleQueues([], []), map[7 := []], 2)
    else if k == 5 then State(StaleClient(GrantingFrom, 7, [], []), TakeTo(0, 7), map[7 := Conn(0, 0)], StaleQueues([], []), map[7 := []], 2)
    else if k == 6 then State(StaleClient(GrantingBuffer, 7, [], []), TakeBuffer(0, 7), map[7 := Conn(1, 0)], StaleQueues([], []), map[7 := []], 2)
    else StaleState(Ready, [], [], Listening, [], [], [])
  }

  function StaleState(pc: Pc, sent: seq<Body>, received: seq<Body>, server: Server, to: seq<Body>, from: seq<Body>, log: seq<Exchange>): State {
    State(StaleClient(pc, 7, sent, received), server, map[7 := Conn(1, 0)], StaleQueues(to, from), map[7 := log], 2)
  }

  function StaleTalk(k: nat): State {
    var e := Exchange(1, 10);
    if k <= 7 then StaleState(Ready, [], [], Listening, [], [], [])
    else if k == 8 then StaleState(Notifying(false), [1], [], Listening, [1], [], [])
    else if k == 9 then StaleState(Ready, [1], [], Taking(7), [1], [], [])
    else if k == 10 then StaleState(Ready, [1], [], Handling(7, 1), [], [], [])
    else if k == 11 then StaleState(Ready, [1], [], Listening, [], [10], [e])
    else if k == 12 then StaleState(Notifying(true), [1, 2], [], Listening, [2], [10], [e])
    else if k == 13 then StaleState(Receiving, [1, 2], [], Taking(7), [2], [10], [e])
    else StaleState(Ready, [1, 2], [10], Taking(7), [2], [], [e])
  }

  lemma StaleMakes()
    ensures Apply(StaleStart(0), Make(0)) == StaleStart(1)
  {
  }

  lemma StaleMeets()
    ensures Apply(StaleStart(1), Hello(0)) == StaleStart(2) && Apply(StaleStart(2), Ask(0, 7)) == StaleStart(3)
  {
  }

  lemma StaleGrants()
    ensures Apply(StaleStart(3), GiveId(0)) == StaleStart(4) && Apply(StaleStart(4), GrantTo(0)) == StaleStart(5)
  {
  }

  lemma StaleReady()
    ensures Apply(StaleStart(5), GrantFrom(0)) == StaleStart(6) && Apply(StaleStart(6), GrantBuffer(0)) == StaleTalk(7)
  {
  }

  lemma StaleSends()
    ensures Apply(StaleTalk(7), Push(0, 1, false)) == StaleTalk(8)
  {
    assert [] + [1] == [1];
    var t := Apply(StaleTalk(7), Push(0, 1, false));
    assert t.queues == StaleTalk(8).queues;
    assert t.clients == StaleTalk(8).clients;
  }

  lemma StaleCalls()
    ensures Apply(StaleTalk(11), Push(0, 2, true)) == StaleTalk(12)
  {
    assert [1] + [2] == [1, 2] && [] + [2] == [2];
    var t := Apply(StaleTalk(11), Push(0, 2, true));
    assert t.queues == StaleTalk(12).queues;
    assert t.clients == StaleTalk(12).clients;
  }

  lemma StaleNotifies(k: nat)
    requires k == 8 || k == 12
    ensures Apply(StaleTalk(k), Notify(0)) == StaleTalk(k + 1)
  {
    assert Apply(StaleTalk(k), Notify(0)).clients == StaleTalk(k + 1).clients;
  }

  lemma StaleTakes()
    ensures Apply(StaleTalk(9), Take) == StaleTalk(10)
  {
    assert [1][1..] == [];
    assert Apply(StaleTalk(9), Take).queues == StaleTalk(10).queues;
  }

  lemma StaleAnswers()
    ensures Apply(StaleTalk(10), Respond(10)) == StaleTalk(11)
  {
    var t := Apply(StaleTalk(10), Respond(10));
    assert [] + [10] == [10] && [] + [Exchange(1, 10)] == [Exchange(1, 10)];
    assert t.queues == StaleTalk(11).queues;
    assert t.log == StaleTalk(11).log;
  }

  lemma StaleReceives()
    ensures Apply(StaleTalk(13), Receive(0)) == StaleTalk(14)
  {
    var t := Apply(StaleTalk(13), Receive(0));
    assert [10][1..] == [] && [] + [10] == [10];
    assert t.queues == StaleTalk(14).queues;
    assert t.clients == StaleTalk(14).clients;
  }

  function Stale(k: nat): State {
    if k <= 7 then StaleStart(k) else StaleTalk(k)
  }

  lemma StaleConnects(k: nat)
    requires k < 7
    ensures Apply(Stale(k), StaleSteps()[k]) == Stale(k + 1)
  {
    StaleMeeting();
    hide Apply, StaleStart, StaleTalk;
    if k == 0 { StaleMakes(); }
    else if k <= 2 { StaleMeets(); }
    else if k <= 4 { StaleGrants(); }
    else { StaleReady(); }
  }

  lemma StaleTalks(k: nat)
    requires 7 <= k < 14
    ensures Apply(Stale(k), StaleSteps()[k]) == Stale(k + 1)
  {
    StaleMeeting();
    hide Apply, StaleStart, StaleTalk;
    if k == 7 { StaleSends(); }
    else if k == 11 { StaleCalls(); }
    else if k == 8 || k == 12 { StaleNotifies(k); }
    else if k == 9 { StaleTakes(); }
    else if k == 10 { StaleAnswers(); }
    else { StaleReceives(); }
  }

  lemma StaleMeeting()
    ensures StaleStart(7) == StaleTalk(7)
  {
  }

  lemma StaleStep(k: nat)
    requires k < 14
    ensures Apply(Stale(k), StaleSteps()[k]) == Stale(k + 1)
  {
    hide Apply, Stale;
    if k < 7 { StaleConnects(k); } else { StaleTalks(k); }
  }

  lemma {:induction false} StaleAt(k: nat)
    requires k <= 14
    ensures At(1, StaleSteps(), k) == Stale(k)
    decreases k
  {
    if k == 0 {
      assert StaleSteps()[..0] == [];
    } else {
      hide At, Apply, Run, Stale, StaleSteps;
      StaleLength();
      StaleAt(k - 1);
      RunNext(1, StaleSteps(), k - 1);
      StaleStep(k - 1);
    }
  }

  lemma StaleLength()
    ensures |StaleSteps()| == 14 && StaleSteps()[11] == Push(0, 2, true) && StaleSteps()[13] == Receive(0)
  {
  }

  lemma StaleClients()
    ensures |Stale(11).clients| == |Stale(12).clients| == |Stale(13).clients| == 1
    ensures Stale(11).clients[0].pc.Ready? && Calling(Stale(12).clients[0].pc) && Calling(Stale(13).clients[0].pc)
    ensures Stale(14) == StaleState(Ready, [1, 2], [10], Taking(7), [2], [], [Exchange(1, 10)])
  {
  }

  // The reply that the call returns is the one to 1.
  lemma StaleReply()
    ensures CallEnds(1, StaleSteps(), 0, 11, 13)
    ensures |StaleSteps()| == 14
    ensures var after := At(1, StaleSteps(), 14);
            && |after.clients| == 1 && after.clients[0].sent == [1, 2] && after.clients[0].received == [10]
            && !RepliesTo(after, 0, 1) && RepliesTo(after, 0, 0)
  {
    hide At, StaleSteps, Stale;
    StaleLength();
    StaleAt(11);
    StaleAt(12);
    StaleAt(13);
    StaleAt(14);
    StaleClients();
  }

  // A client that uses c4rt_connman_call alone
  ghost predicate OnlyCalls(steps: seq<Step>, c: nat) {
    forall i | 0 <= i < |steps| && steps[i].Push? && steps[i].c == c :: steps[i].call
  }

  ghost predicate InCall(k: Client) {
    && (k.pc.Notifying? ==> k.pc.call)
    && |k.sent| == |k.received| + (if k.pc.Notifying? || k.pc.Receiving? then 1 else 0)
  }

  predicate IsBy(step: Step, c: nat) {
    !step.Take? && !step.Respond? && step.c == c
  }

  // A step changes at most the client that takes it.
  lemma OthersStand(s: State, step: Step, c: nat)
    requires c < |s.clients| && !IsBy(step, c)
    ensures c < |Apply(s, step).clients| && Apply(s, step).clients[c] == s.clients[c]
  {
  }

  // A client receives no more messages than it sends.
  lemma TakesOwnReply(s: State, c: nat)
    requires Good(s) && c < |s.clients|
    ensures var k := s.clients[c];
            Registered(k.pc) ==> |k.received| <= |k.sent| && (Queue(s, k.from) != [] ==> |k.received| < |k.sent|)
    ensures |Apply(s, Receive(c)).clients| == |s.clients|
    ensures var k, l := s.clients[c], Apply(s, Receive(c)).clients[c];
            l == k || (Registered(k.pc) && !k.pc.Notifying? && Queue(s, k.from) != [] && l.pc.Ready?
                       && l.sent == k.sent && |l.received| == |k.received| + 1)
  {
    assert ClientOk(s, c);
  }

  lemma {:induction false} InCallKeeps(s: State, step: Step, c: nat)
    requires Good(s) && c < |s.clients| && InCall(s.clients[c])
    requires step.Push? && step.c == c ==> step.call
    ensures c < |Apply(s, step).clients| && InCall(Apply(s, step).clients[c])
  {
    if !IsBy(step, c) {
      OthersStand(s, step, c);
    } else if step.Receive? {
      TakesOwnReply(s, c);
    } else {
      hide ClientOk, Good;
    }
  }

  lemma {:induction false} OnlyCallsKeeps(n: nat, steps: seq<Step>, c: nat)
    requires c < n && OnlyCalls(steps, c)
    ensures var s := Run(Initial(n), steps); c < |s.clients| && InCall(s.clients[c])
  {
    if steps != [] {
      var before, last := steps[..|steps| - 1], steps[|steps| - 1];
      assert forall i | 0 <= i < |before| :: before[i] == steps[i];
      OnlyCallsKeeps(n, before, c);
      RunKeeps(n, before);
      hide Good, Apply;
      InCallKeeps(Run(Initial(n), before), last, c);
    }
  }

  // In every interleaving with any other clients, each call of a client that only calls returns
  // the reply to its own request.
  lemma {:induction false} CallOwnReply(n: nat, steps: seq<Step>, c: nat)
    requires c < n && OnlyCalls(steps, c)
    requires var s := Run(Initial(n), steps);
             c < |s.clients| && s.clients[c].pc.Receiving? && Queue(s, s.clients[c].from) != []
    ensures var s := Run(Initial(n), steps);
            var k, r := s.clients[c], Apply(s, Receive(c)).clients[c].received;
            && |r| == |k.sent| > 0 && k.id in s.log && |s.log[k.id]| == |k.sent|
            && s.log[k.id][|r| - 1] == Exchange(k.sent[|r| - 1], r[|r| - 1])
  {
    OnlyCallsKeeps(n, steps, c);
    NextReply(n, steps, c);
    RunKeeps(n, steps);
    assert ClientOk(Run(Initial(n), steps), c);
  }

  // ----- No call is stranded -----

  // A client that has notified the server, or is about to, has a message without a received reply.
  ghost predicate Waits(k: Client) {
    k.pc.Notifying? || k.pc.Receiving? ==> |k.sent| > |k.received|
  }

  lemma {:induction false} WaitsKeeps(s: State, step: Step, c: nat)
    requires Good(s) && c < |s.clients| && Waits(s.clients[c])
    ensures c < |Apply(s, step).clients| && Waits(Apply(s, step).clients[c])
  {
    if !IsBy(step, c) {
      OthersStand(s, step, c);
    } else if step.Receive? || step.Push? {
      TakesOwnReply(s, c);
    } else {
      hide ClientOk, Good;
    }
  }

  lemma {:induction false} AlwaysWaits(n: nat, steps: seq<Step>, c: nat)
    requires c < n
    ensures var s := Run(Initial(n), steps); c < |s.clients| && Waits(s.clients[c])
  {
    if steps != [] {
      var before := steps[..|steps| - 1];
      AlwaysWaits(n, before, c);
      RunKeeps(n, before);
      hide Good, Apply;
      WaitsKeeps(Run(Initial(n), before), steps[|steps| - 1], c);
    }
  }

  function Busy(server: Server): nat {
    match server
    case Listening => 0
    case Handling(_, _) => 1
    case Taking(_) => 2
    case TakeBuffer(_, _) => 1
    case TakeTo(_, _) => 2
    case TakeFrom(_, _) => 3
    case SendId(_, _) => 4
    case Accept(_) => 5
  }

  lemma {:induction false} FreshId(ids: set<nat>) returns (id: nat)
    ensures forall i | i in ids :: i < id
  {
    if ids == {} {
      id := 0;
    } else {
      var i :| i in ids;
      var j := FreshId(ids - {i});
      id := if i < j then j else i + 1;
      assert forall k | k in ids :: k == i || k in ids - {i};
    }
  }

  // A server that is not listening has a step, its own or one with the client it shakes hands with,
  // that brings it nearer to listening and does nothing to a client in a call.
  lemma {:induction false} ServerGoesOn(s: State, c: nat) returns (step: Step)
    requires Good(s) && c < |s.clients| && Calling(s.clients[c].pc) && !s.server.Listening?
    ensures var t := Apply(s, step); Busy(t.server) < Busy(s.server) && c < |t.clients| && t.clients[c] == s.clients[c]
  {
    assert ClientOk(s, c);
    if s.server.Taking? {
      step := Take;
      hide ClientOk;
      TakeSucceeds(s);
    } else if s.server.Handling? {
      step := Respond(0);
      var d :| 0 <= d < |s.clients| && Registered(s.clients[d].pc) && s.clients[d].id == s.server.id;
      assert ClientOk(s, d);
      hide Flow, InStep;
    } else {
      step := HandshakeGoesOn(s);
    }
  }

  lemma {:induction false} HandshakeGoesOn(s: State) returns (step: Step)
    requires Good(s) && !s.server.Listening? && !s.server.Taking? && !s.server.Handling?
    ensures var t := Apply(s, step);
            && Busy(t.server) < Busy(s.server) && |t.clients| == |s.clients|
            && forall c | 0 <= c < |s.clients| && Calling(s.clients[c].pc) :: t.clients[c] == s.clients[c]
  {
    var d := s.server.c;
    assert ClientOk(s, d);
    hide Flow;
    match s.server
    case Accept(_) =>
      var id := FreshId(s.registry.Keys);
      step := Ask(d, id);
    case SendId(_, _) => step := GiveId(d);
    case TakeFrom(_, _) => step := GrantTo(d);
    case TakeTo(_, _) => step := GrantFrom(d);
    case TakeBuffer(_, _) => step := GrantBuffer(d);
  }

  // A client in a call either has a reply queued, or its message is at the server, or it is about
  // to notify the server.
  lemma {:induction false} CallInHand(s: State, c: nat)
    requires Good(s) && c < |s.clients| && s.clients[c].pc.Receiving? && Waits(s.clients[c])
    ensures Queue(s, s.clients[c].from) != [] || s.server == Taking(s.clients[c].id)
            || (s.server.Handling? && s.server.id == s.clients[c].id)
  {
    assert ClientOk(s, c);
    var k := s.clients[c];
    assert |k.sent| == |s.log[k.id]| + |InHand(s.server, k.id)| + |s.queues[k.to]|;
    assert |s.log[k.id]| == |k.received| + |s.queues[k.from]|;
  }

  lemma {:induction false} RunFirst(s: State, step: Step, steps: seq<Step>)
    ensures Run(s, [step] + steps) == Run(Apply(s, step), steps)
    decreases |steps|
  {
    var all := [step] + steps;
    if steps == [] {
      assert all[..|all| - 1] == [];
    } else {
      assert all[..|all| - 1] == [step] + steps[..|steps| - 1];
      RunFirst(s, step, steps[..|steps| - 1]);
    }
  }

  // From every good state, a call that is under way can go on to its end: the steps are there,
  // and they end with the client having received its reply.
  lemma {:induction false} CallGoesOn(s: State, c: nat) returns (steps: seq<Step>)
    requires Good(s) && c < |s.clients| && Calling(s.clients[c].pc) && Waits(s.clients[c])
    ensures var t := Run(s, steps);
            c < |t.clients| && t.clients[c].pc.Ready? && |t.clients[c].received| == |s.clients[c].received| + 1
    decreases if s.clients[c].pc.Receiving? then 0 else 1, Busy(s.server)
  {
    var k, step := s.clients[c], Receive(c);
    if k.pc.Receiving? {
      CallInHand(s, c);
    }
    if k.pc.Receiving? && Queue(s, k.from) != [] {
      steps := [];
      assert Run(Apply(s, step), []) == Apply(s, step);
    } else {
      if s.server.Listening? {
        step := Notify(c);
      } else {
        step := ServerGoesOn(s, c);
      }
      StepKeeps(s, step);
      WaitsKeeps(s, step, c);
      hide Good, Waits;
      steps := CallGoesOn(Apply(s, step), c);
    }
    RunFirst(s, step, steps);
    steps := [step] + steps;
  }

  // No reachable state strands a call, whatever the clients and the server have done before.
  lemma {:induction false} NeverStranded(n: nat, before: seq<Step>, c: nat) returns (after: seq<Step>)
    requires c < n && c < |Run(Initial(n), before).clients| && Calling(Run(Initial(n), before).clients[c].pc)
    ensures var s, t := Run(Initial(n), before), Run(Run(Initial(n), before), after);
            c < |t.clients| && t.clients[c].pc.Ready? && |t.clients[c].received| == |s.clients[c].received| + 1
  {
    RunKeeps(n, before);
    AlwaysWaits(n, before, c);
    after := CallGoesOn(Run(Initial(n), before), c);
  }
}
