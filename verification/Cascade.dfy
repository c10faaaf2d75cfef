/**
  The ticket cascade of unixsockets/csemulti as a state machine. The counter TC sends each
  accepted client to C, S or E by the service it asks for; a full C passes clients on to S, a
  full S to E, and a full E ends the run. Every channel is a FIFO queue, and the schedule is
  any list of events.
 */
module Cascade {

  datatype Client = Client(id: int, service: int)

  /** max_clients of the three servers. */
  datatype Capacities = Capacities(c: nat, s: nat, e: nat)

  datatype State = State(
    tcC: seq<Client>, tcS: seq<Client>, tcE: seq<Client>,  // channels from TC
    cs: seq<Client>, se: seq<Client>,                      // channels C to S and S to E
    atC: seq<Client>, atS: seq<Client>, atE: seq<Client>,  // clients being served
    held: seq<Client>,                                     // service unknown: kept by TC
    rejected: seq<Client>,                                 // received by E when E was full
    accepted: seq<Client>,                                 // everyone TC has accepted, in order
    down: bool)                                            // E has signalled TC and exited

  const INITIAL := State([], [], [], [], [], [], [], [], [], [], [], false)

  datatype Event =
    | Accept(client: Client)
    | RunC
    | RunS(direct: bool)  // direct: the message comes from TC, otherwise from C
    | RunE(direct: bool)  // direct: the message comes from TC, otherwise from S

  /** The switch of TC; a client of any other class is accepted but sent nowhere. */
  function Route(s: State, x: Client): (t: State) {
    if x.service == 1 then s.(accepted := s.accepted + [x], tcC := s.tcC + [x])
    else if x.service == 2 then s.(accepted := s.accepted + [x], tcS := s.tcS + [x])
    else if x.service == 3 then s.(accepted := s.accepted + [x], tcE := s.tcE + [x])
    else s.(accepted := s.accepted + [x], held := s.held + [x])
  }

  function AtC(cap: Capacities, s: State, x: Client): (t: State) {
    if |s.atC| >= cap.c then s.(cs := s.cs + [x]) else s.(atC := s.atC + [x])
  }

  function AtS(cap: Capacities, s: State, x: Client): (t: State) {
    if |s.atS| >= cap.s then s.(se := s.se + [x]) else s.(atS := s.atS + [x])
  }

  function AtE(cap: Capacities, s: State, x: Client): (t: State) {
    if |s.atE| >= cap.e then s.(rejected := s.rejected + [x], down := true)
    else s.(atE := s.atE + [x])
  }

  /** One event. A server whose channel is empty waits or polls again: the state stays. */
  function Next(cap: Capacities, s: State, e: Event): (t: State) {
    if s.down then s
    else
      match e
      case Accept(x) => Route(s, x)
      case RunC =>
        if s.tcC == [] then s else AtC(cap, s.(tcC := s.tcC[1..]), s.tcC[0])
      case RunS(direct) =>
        if direct then
          if s.tcS == [] then s else AtS(cap, s.(tcS := s.tcS[1..]), s.tcS[0])
        else
          if s.cs == [] then s else AtS(cap, s.(cs := s.cs[1..]), s.cs[0])
      case RunE(direct) =>
        if direct then
          if s.tcE == [] then s else AtE(cap, s.(tcE := s.tcE[1..]), s.tcE[0])
        else
          if s.se == [] then s else AtE(cap, s.(se := s.se[1..]), s.se[0])
  }

  /** The state after a whole schedule. */
  function Run(cap: Capacities, schedule: seq<Event>): (s: State) {
    if schedule == [] then INITIAL
    else
      var k := |schedule| - 1;
      Next(cap, Run(cap, schedule[..k]), schedule[k])
  }

  /** The clients that connect to TC in a schedule, in order. */
  function Arrivals(schedule: seq<Event>): (xs: seq<Client>) {
    if schedule == [] then []
    else
      var k := |schedule| - 1;
      Arrivals(schedule[..k]) + (if schedule[k].Accept? then [schedule[k].client] else [])
  }

  // ---------- clients by service ----------

  /** The clients that ask for the given service, in order. */
  function Asking(xs: seq<Client>, service: int): (ys: seq<Client>)
    ensures |ys| <= |xs|
  {
    if xs == [] then []
    else
      var k := |xs| - 1;
      Asking(xs[..k], service) + (if xs[k].service == service then [xs[k]] else [])
  }

  ghost predicate AllAsk(xs: seq<Client>, services: set<int>) {
    forall i :: 0 <= i < |xs| ==> xs[i].service in services
  }

  /** xs with x behind it, if x asks for the service. */
  function With(xs: seq<Client>, x: Client, service: int): (ys: seq<Client>) {
    if x.service == service then xs + [x] else xs
  }

  lemma AskingAppend(xs: seq<Client>, x: Client, service: int)
    ensures Asking(xs + [x], service) == With(Asking(xs, service), x, service)
  {
    assert (xs + [x])[..|xs|] == xs;
  }

  lemma {:induction false} AskingFirst(xs: seq<Client>, service: int)
    requires xs != []
    ensures Asking(xs, service)
         == (if xs[0].service == service then [xs[0]] else []) + Asking(xs[1..], service)
  {
    var k := |xs| - 1;
    if k > 0 {
      AskingFirst(xs[..k], service);
      assert xs[..k][1..] == xs[1..][..k - 1];
    }
  }

  lemma {:induction false} NoneAsking(xs: seq<Client>, services: set<int>, service: int)
    requires AllAsk(xs, services) && service !in services
    ensures Asking(xs, service) == []
  {
    if xs != [] {
      NoneAsking(xs[..|xs| - 1], services, service);
    }
  }

  lemma {:induction false} AllAsking(xs: seq<Client>, service: int)
    requires AllAsk(xs, {service})
    ensures Asking(xs, service) == xs
  {
    if xs != [] {
      AllAsking(xs[..|xs| - 1], service);
    }
  }

  lemma {:induction false} CountTwo(xs: seq<Client>, a: int, b: int)
    requires AllAsk(xs, {a, b}) && a != b
    ensures |xs| == |Asking(xs, a)| + |Asking(xs, b)|
  {
    if xs != [] {
      CountTwo(xs[..|xs| - 1], a, b);
    }
  }

  lemma {:induction false} CountThree(xs: seq<Client>)
    requires AllAsk(xs, {1, 2, 3})
    ensures |xs| == |Asking(xs, 1)| + |Asking(xs, 2)| + |Asking(xs, 3)|
  {
    if xs != [] {
      CountThree(xs[..|xs| - 1]);
    }
  }
}
