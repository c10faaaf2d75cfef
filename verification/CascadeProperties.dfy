/** What every run of the ticket cascade keeps, and where every run ends. */
module CascadeProperties {
  import opened Cascade
  import opened Sequences

  // ---------- the invariant ----------

  /** Clients of one service that S has passed on, in the order in which it did. */
  function PassedOnByS(s: State, service: int): (xs: seq<Client>) {
    Asking(s.atE, service) + Asking(s.rejected, service) + Asking(s.se, service)
  }

  /** Clients that C has passed on, in the order in which it did. */
  function PassedOnByC(s: State): (xs: seq<Client>) {
    Asking(s.atS, 1) + PassedOnByS(s, 1) + s.cs
  }

  ghost predicate ServicesMatch(s: State) {
    && AllAsk(s.tcC, {1}) && AllAsk(s.atC, {1}) && AllAsk(s.cs, {1})
    && AllAsk(s.tcS, {2}) && AllAsk(s.atS, {1, 2}) && AllAsk(s.se, {1, 2})
    && AllAsk(s.tcE, {3}) && AllAsk(s.atE, {1, 2, 3}) && AllAsk(s.rejected, {1, 2, 3})
    && forall i :: 0 <= i < |s.held| ==> s.held[i].service !in {1, 2, 3}
  }

  /** No server exceeds its capacity, and clients go past a server only when it is full. */
  ghost predicate Capacity(cap: Capacities, s: State) {
    && |s.atC| <= cap.c && |s.atS| <= cap.s && |s.atE| <= cap.e
    && (PassedOnByC(s) != [] ==> |s.atC| == cap.c)
    && (PassedOnByS(s, 1) != [] || PassedOnByS(s, 2) != [] ==> |s.atS| == cap.s)
    && (s.down <==> s.rejected != [])
    && (s.down ==> |s.atE| == cap.e && |s.rejected| == 1)
  }

  /** Nobody is lost, duplicated or overtaken by a client that asked for the same service. */
  ghost predicate InOrder(s: State) {
    && Asking(s.accepted, 1) == s.atC + PassedOnByC(s) + s.tcC
    && Asking(s.accepted, 2) == Asking(s.atS, 2) + PassedOnByS(s, 2) + s.tcS
    && Asking(s.accepted, 3) == Asking(s.atE, 3) + Asking(s.rejected, 3) + s.tcE
    && forall v :: v !in {1, 2, 3} ==> Asking(s.accepted, v) == Asking(s.held, v)
  }

  ghost predicate Inv(cap: Capacities, s: State) {
    ServicesMatch(s) && Capacity(cap, s) && InOrder(s)
  }

  // Services: every queue keeps holding clients of its own kind.

  lemma AllAskTail(xs: seq<Client>, services: set<int>)
    requires xs != [] && AllAsk(xs, services)
    ensures xs[0].service in services && AllAsk(xs[1..], services)
  {
  }

  lemma ServicesAtC(cap: Capacities, s: State)
    requires ServicesMatch(s)
    ensures ServicesMatch(Next(cap, s, RunC))
  {
    if s.tcC != [] {
      AllAskTail(s.tcC, {1});
    }
  }

  lemma ServicesAtS(cap: Capacities, s: State, direct: bool)
    requires ServicesMatch(s)
    ensures ServicesMatch(Next(cap, s, RunS(direct)))
  {
    if direct {
      if s.tcS != [] { AllAskTail(s.tcS, {2}); }
    } else {
      if s.cs != [] { AllAskTail(s.cs, {1}); }
    }
  }

  lemma ServicesAtE(cap: Capacities, s: State, direct: bool)
    requires ServicesMatch(s)
    ensures ServicesMatch(Next(cap, s, RunE(direct)))
  {
    if direct {
      if s.tcE != [] { AllAskTail(s.tcE, {3}); }
    } else {
      if s.se != [] { AllAskTail(s.se, {1, 2}); }
    }
  }

  lemma ServicesAtTC(cap: Capacities, s: State, x: Client)
    requires ServicesMatch(s)
    ensures ServicesMatch(Next(cap, s, Accept(x)))
  {
  }

  lemma NextKeepsServices(cap: Capacities, s: State, e: Event)
    requires ServicesMatch(s)
    ensures ServicesMatch(Next(cap, s, e))
  {
    match e
    case Accept(x) => ServicesAtTC(cap, s, x);
    case RunC => ServicesAtC(cap, s);
    case RunS(direct) => ServicesAtS(cap, s, direct);
    case RunE(direct) => ServicesAtE(cap, s, direct);
  }

  // Order: how each event moves the client at the head of a queue.

  lemma Shift(a: seq<Client>, c: seq<Client>)
    requires c != []
    ensures a + [c[0]] + c[1..] == a + c
  {
  }

  lemma ShiftPast(a: seq<Client>, b: seq<Client>, c: seq<Client>)
    requires c != []
    ensures a + (b + [c[0]]) + c[1..] == a + b + c
  {
  }

  lemma ShiftInFront(a: seq<Client>, b: seq<Client>, c: seq<Client>)
    requires c != [] && b == []
    ensures (a + [c[0]]) + b + c[1..] == a + b + c
  {
  }

  lemma Behind(a: seq<Client>, b: seq<Client>, c: seq<Client>, x: Client)
    ensures a + b + (c + [x]) == a + b + c + [x]
  {
  }

  lemma AcceptKeepsOrder(s: State, x: Client)
    requires InOrder(s)
    ensures InOrder(Route(s, x))
  {
    var t := Route(s, x);
    forall v
      ensures Asking(t.accepted, v) == With(Asking(s.accepted, v), x, v)
      ensures Asking(t.held, v)
           == if x.service in {1, 2, 3} then Asking(s.held, v) else With(Asking(s.held, v), x, v)
    {
      AskingAppend(s.accepted, x, v);
      AskingAppend(s.held, x, v);
    }
    Behind(s.atC, PassedOnByC(s), s.tcC, x);
    Behind(Asking(s.atS, 2), PassedOnByS(s, 2), s.tcS, x);
    Behind(Asking(s.atE, 3), Asking(s.rejected, 3), s.tcE, x);
  }

  lemma SameServers(cap: Capacities, s: State, t: State)
    requires Capacity(cap, s)
    requires t.atC == s.atC && t.atS == s.atS && t.atE == s.atE && t.cs == s.cs && t.se == s.se
    requires t.rejected == s.rejected && t.down == s.down
    ensures Capacity(cap, t)
  {
  }

  lemma RunCKeepsInv(cap: Capacities, s: State)
    requires Inv(cap, s) && !s.down && s.tcC != []
    ensures Capacity(cap, Next(cap, s, RunC)) && InOrder(Next(cap, s, RunC))
  {
    var x, t := s.tcC[0], Next(cap, s, RunC);
    if |s.atC| < cap.c {
      ShiftInFront(s.atC, PassedOnByC(s), s.tcC);
    } else {
      assert PassedOnByC(t) == PassedOnByC(s) + [x];
      ShiftPast(s.atC, PassedOnByC(s), s.tcC);
    }
  }

  lemma PassedOnNext(s: State, t: State, x: Client, v: int)
    requires t.atE == s.atE && t.rejected == s.rejected && t.se == s.se + [x]
    ensures PassedOnByS(t, v) == With(PassedOnByS(s, v), x, v)
  {
    AskingAppend(s.se, x, v);
    var a := Asking(s.atE, v) + Asking(s.rejected, v);
    assert a + (Asking(s.se, v) + [x]) == a + Asking(s.se, v) + [x];
  }

  lemma RunSDirectKeepsInv(cap: Capacities, s: State)
    requires Inv(cap, s) && !s.down && s.tcS != []
    ensures Capacity(cap, Next(cap, s, RunS(true))) && InOrder(Next(cap, s, RunS(true)))
  {
    var x, t := s.tcS[0], Next(cap, s, RunS(true));
    if |s.atS| < cap.s {
      AskingAppend(s.atS, x, 1);
      AskingAppend(s.atS, x, 2);
      ShiftInFront(Asking(s.atS, 2), PassedOnByS(s, 2), s.tcS);
    } else {
      PassedOnNext(s, t, x, 1);
      PassedOnNext(s, t, x, 2);
      ShiftPast(Asking(s.atS, 2), PassedOnByS(s, 2), s.tcS);
    }
  }

  lemma RunSForwardedKeepsInv(cap: Capacities, s: State)
    requires Inv(cap, s) && !s.down && s.cs != []
    ensures Capacity(cap, Next(cap, s, RunS(false))) && InOrder(Next(cap, s, RunS(false)))
  {
    var x, t := s.cs[0], Next(cap, s, RunS(false));
    if |s.atS| < cap.s {
      AskingAppend(s.atS, x, 1);
      AskingAppend(s.atS, x, 2);
      ShiftInFront(Asking(s.atS, 1), PassedOnByS(s, 1), s.cs);
    } else {
      PassedOnNext(s, t, x, 1);
      PassedOnNext(s, t, x, 2);
      ShiftPast(Asking(s.atS, 1), PassedOnByS(s, 1), s.cs);
    }
    assert PassedOnByC(t) == PassedOnByC(s);
  }

  lemma NothingBehind(a: seq<Client>)
    ensures a + [] == a
  {
  }

  lemma AskingOne(x: Client, v: int)
    ensures Asking([x], v) == With([], x, v)
  {
    AskingAppend([], x, v);
    assert [] + [x] == [x];
  }

  /** Whether E serves or rejects x, x comes next among those that have reached E. */
  lemma ReachedE(s: State, t: State, x: Client, v: int)
    requires s.rejected == []
    requires (t.atE == s.atE + [x] && t.rejected == []) || (t.atE == s.atE && t.rejected == [x])
    ensures Asking(t.atE, v) + Asking(t.rejected, v) == With(Asking(s.atE, v) + Asking(s.rejected, v), x, v)
  {
    var a := Asking(s.atE, v);
    NothingBehind(a);
    NothingBehind(With(a, x, v));
    AskingAppend(s.atE, x, v);
    AskingOne(x, v);
  }

  lemma RunEDirectKeepsInv(cap: Capacities, s: State)
    requires Inv(cap, s) && !s.down && s.tcE != []
    ensures Capacity(cap, Next(cap, s, RunE(true))) && InOrder(Next(cap, s, RunE(true)))
  {
    var x, t := s.tcE[0], Next(cap, s, RunE(true));
    ReachedE(s, t, x, 1);
    ReachedE(s, t, x, 2);
    ReachedE(s, t, x, 3);
    assert PassedOnByS(t, 1) == PassedOnByS(s, 1);
    assert PassedOnByS(t, 2) == PassedOnByS(s, 2);
    Shift(Asking(s.atE, 3) + Asking(s.rejected, 3), s.tcE);
  }

  lemma PassedOnArrives(s: State, t: State, v: int)
    requires s.rejected == [] && s.se != [] && t.se == s.se[1..]
    requires (t.atE == s.atE + [s.se[0]] && t.rejected == []) || (t.atE == s.atE && t.rejected == [s.se[0]])
    ensures PassedOnByS(t, v) == PassedOnByS(s, v)
  {
    var x := s.se[0];
    ReachedE(s, t, x, v);
    AskingFirst(s.se, v);
    var a, b := Asking(s.atE, v) + Asking(s.rejected, v), Asking(s.se[1..], v);
    assert a + [x] + b == a + ([x] + b);
    assert [] + b == b;
  }

  /** E's steps leave the order alone as long as they leave the pieces of it alone. */
  lemma SamePieces(s: State, t: State)
    requires InOrder(s)
    requires t.accepted == s.accepted && t.held == s.held && t.atC == s.atC && t.atS == s.atS
    requires t.tcC == s.tcC && t.tcS == s.tcS && t.tcE == s.tcE
    requires PassedOnByC(t) == PassedOnByC(s) && PassedOnByS(t, 2) == PassedOnByS(s, 2)
    requires Asking(t.atE, 3) + Asking(t.rejected, 3) == Asking(s.atE, 3) + Asking(s.rejected, 3)
    ensures InOrder(t)
  {
  }

  lemma RunEForwardedKeepsPieces(cap: Capacities, s: State)
    requires Inv(cap, s) && !s.down && s.se != []
    ensures var t := Next(cap, s, RunE(false));
            && PassedOnByC(t) == PassedOnByC(s)
            && PassedOnByS(t, 1) == PassedOnByS(s, 1)
            && PassedOnByS(t, 2) == PassedOnByS(s, 2)
            && Asking(t.atE, 3) + Asking(t.rejected, 3) == Asking(s.atE, 3) + Asking(s.rejected, 3)
  {
    PassedOnArrives(s, Next(cap, s, RunE(false)), 1);
    PassedOnArrives(s, Next(cap, s, RunE(false)), 2);
    assert s.se[0].service != 3;
    ReachedE(s, Next(cap, s, RunE(false)), s.se[0], 3);
  }

  lemma RunEForwardedKeepsInv(cap: Capacities, s: State)
    requires Inv(cap, s) && !s.down && s.se != []
    ensures Capacity(cap, Next(cap, s, RunE(false))) && InOrder(Next(cap, s, RunE(false)))
  {
    RunEForwardedKeepsPieces(cap, s);
    SamePieces(s, Next(cap, s, RunE(false)));
  }

  lemma ServerKeepsInv(cap: Capacities, s: State, e: Event)
    requires Inv(cap, s) && !s.down && !e.Accept?
    ensures Capacity(cap, Next(cap, s, e)) && InOrder(Next(cap, s, e))
  {
    match e
    case RunC => if s.tcC != [] { RunCKeepsInv(cap, s); }
    case RunS(true) => if s.tcS != [] { RunSDirectKeepsInv(cap, s); }
    case RunS(false) => if s.cs != [] { RunSForwardedKeepsInv(cap, s); }
    case RunE(true) => if s.tcE != [] { RunEDirectKeepsInv(cap, s); }
    case RunE(false) => if s.se != [] { RunEForwardedKeepsInv(cap, s); }
  }

  lemma AcceptKeepsCapacity(cap: Capacities, s: State, x: Client)
    requires Capacity(cap, s)
    ensures Capacity(cap, Route(s, x))
  {
    SameServers(cap, s, Route(s, x));
  }

  lemma NextKeepsInv(cap: Capacities, s: State, e: Event)
    requires Inv(cap, s)
    ensures Inv(cap, Next(cap, s, e))
  {
    NextKeepsServices(cap, s, e);
    if !s.down {
      if e.Accept? {
        AcceptKeepsOrder(s, e.client);
        AcceptKeepsCapacity(cap, s, e.client);
      } else {
        ServerKeepsInv(cap, s, e);
      }
    }
  }

  /** Every reachable state satisfies the invariant, whatever the interleaving. */
  lemma {:induction false} InvAlways(cap: Capacities, schedule: seq<Event>)
    ensures Inv(cap, Run(cap, schedule))
  {
    if schedule != [] {
      var k := |schedule| - 1;
      InvAlways(cap, schedule[..k]);
      NextKeepsInv(cap, Run(cap, schedule[..k]), schedule[k]);
    }
  }

  // ---------- arrivals ----------

  lemma ServerKeepsAccepted(cap: Capacities, s: State, e: Event)
    requires !e.Accept?
    ensures Next(cap, s, e).accepted == s.accepted
  {
  }

  lemma TCAccepts(cap: Capacities, s: State, x: Client)
    ensures Next(cap, s, Accept(x)).accepted == if s.down then s.accepted else s.accepted + [x]
  {
  }

  /** TC accepts everyone who connects, in order, until it is shut down. */
  lemma {:induction false} EverybodyAccepted(cap: Capacities, schedule: seq<Event>)
    ensures Run(cap, schedule).accepted <= Arrivals(schedule)
    ensures !Run(cap, schedule).down ==> Run(cap, schedule).accepted == Arrivals(schedule)
  {
    if schedule != [] {
      var k := |schedule| - 1;
      EverybodyAccepted(cap, schedule[..k]);
      var s, e := Run(cap, schedule[..k]), schedule[k];
      if e.Accept? {
        TCAccepts(cap, s, e.client);
      } else {
        ServerKeepsAccepted(cap, s, e);
      }
    }
  }

  /** Once E has signalled, nothing changes any more. */
  lemma {:induction false} ShutdownIsFinal(cap: Capacities, schedule: seq<Event>, k: nat)
    requires k <= |schedule| && Run(cap, schedule[..k]).down
    ensures Run(cap, schedule) == Run(cap, schedule[..k])
  {
    if k < |schedule| {
      var l := |schedule| - 1;
      assert schedule[..l][..k] == schedule[..k];
      ShutdownIsFinal(cap, schedule[..l], k);
    } else {
      assert schedule[..k] == schedule;
    }
  }

  lemma PrefixShortened(xs: seq<Client>, ys: seq<Client>)
    requires xs <= ys && xs != ys
    ensures ys != [] && xs <= ys[..|ys| - 1]
  {
  }

  lemma {:induction false} AskingPrefix(xs: seq<Client>, ys: seq<Client>, service: int)
    requires xs <= ys
    ensures Asking(xs, service) <= Asking(ys, service)
  {
    if xs != ys {
      PrefixShortened(xs, ys);
      AskingPrefix(xs, ys[..|ys| - 1], service);
    }
  }

  // ---------- conservation ----------

  function Copies(xs: seq<Client>, x: Client): (n: nat) {
    if xs == [] then 0
    else
      var k := |xs| - 1;
      Copies(xs[..k], x) + (if xs[k] == x then 1 else 0)
  }

  /** How often x is found in the system: in a channel, at a server, held by TC or rejected. */
  function Found(s: State, x: Client): (n: nat) {
    Copies(s.tcC, x) + Copies(s.tcS, x) + Copies(s.tcE, x) + Copies(s.cs, x) + Copies(s.se, x)
    + Copies(s.atC, x) + Copies(s.atS, x) + Copies(s.atE, x) + Copies(s.held, x) + Copies(s.rejected, x)
  }

  lemma CopiesAppend(xs: seq<Client>, y: Client, x: Client)
    ensures Copies(xs + [y], x) == Copies(xs, x) + (if x == y then 1 else 0)
  {
    assert (xs + [y])[..|xs|] == xs;
  }

  lemma {:induction false} CopiesHead(xs: seq<Client>, x: Client)
    requires xs != []
    ensures Copies(xs, x) == (if x == xs[0] then 1 else 0) + Copies(xs[1..], x)
  {
    var k := |xs| - 1;
    if k > 0 {
      CopiesHead(xs[..k], x);
      assert xs[..k][1..] == xs[1..][..k - 1];
    }
  }

  lemma FoundAtC(cap: Capacities, s: State, y: Client, t: State, x: Client)
    requires t == AtC(cap, s, y)
    ensures Found(t, x) == Found(s, x) + (if x == y then 1 else 0)
  {
    CopiesAppend(s.cs, y, x);
    CopiesAppend(s.atC, y, x);
  }

  lemma FoundAtS(cap: Capacities, s: State, y: Client, t: State, x: Client)
    requires t == AtS(cap, s, y)
    ensures Found(t, x) == Found(s, x) + (if x == y then 1 else 0)
  {
    CopiesAppend(s.se, y, x);
    CopiesAppend(s.atS, y, x);
  }

  lemma FoundAtE(cap: Capacities, s: State, y: Client, t: State, x: Client)
    requires t == AtE(cap, s, y)
    ensures Found(t, x) == Found(s, x) + (if x == y then 1 else 0)
  {
    CopiesAppend(s.atE, y, x);
    CopiesAppend(s.rejected, y, x);
  }

  lemma FoundByTC(s: State, y: Client, t: State, x: Client)
    requires t == Route(s, y)
    ensures Found(t, x) == Found(s, x) + (if x == y then 1 else 0)
    ensures Copies(t.accepted, x) == Copies(s.accepted, x) + (if x == y then 1 else 0)
  {
    CopiesAppend(s.accepted, y, x);
    if y.service == 1 {
      CopiesAppend(s.tcC, y, x);
    } else if y.service == 2 {
      CopiesAppend(s.tcS, y, x);
    } else if y.service == 3 {
      CopiesAppend(s.tcE, y, x);
    } else {
      CopiesAppend(s.held, y, x);
    }
  }

  lemma RunCKeepsFound(cap: Capacities, s: State, t: State, x: Client)
    requires !s.down && t == Next(cap, s, RunC)
    ensures Found(t, x) == Found(s, x)
  {
    if s.tcC != [] {
      var u := s.(tcC := s.tcC[1..]);
      CopiesHead(s.tcC, x);
      FoundAtC(cap, u, s.tcC[0], t, x);
    }
  }

  lemma RunSDirectKeepsFound(cap: Capacities, s: State, t: State, x: Client)
    requires !s.down && t == Next(cap, s, RunS(true))
    ensures Found(t, x) == Found(s, x)
  {
    if s.tcS != [] {
      var u := s.(tcS := s.tcS[1..]);
      CopiesHead(s.tcS, x);
      FoundAtS(cap, u, s.tcS[0], t, x);
    }
  }

  lemma RunSForwardedKeepsFound(cap: Capacities, s: State, t: State, x: Client)
    requires !s.down && t == Next(cap, s, RunS(false))
    ensures Found(t, x) == Found(s, x)
  {
    if s.cs != [] {
      var u := s.(cs := s.cs[1..]);
      CopiesHead(s.cs, x);
      FoundAtS(cap, u, s.cs[0], t, x);
    }
  }

  lemma RunEDirectKeepsFound(cap: Capacities, s: State, t: State, x: Client)
    requires !s.down && t == Next(cap, s, RunE(true))
    ensures Found(t, x) == Found(s, x)
  {
    if s.tcE != [] {
      var u := s.(tcE := s.tcE[1..]);
      CopiesHead(s.tcE, x);
      FoundAtE(cap, u, s.tcE[0], t, x);
    }
  }

  lemma RunEForwardedKeepsFound(cap: Capacities, s: State, t: State, x: Client)
    requires !s.down && t == Next(cap, s, RunE(false))
    ensures Found(t, x) == Found(s, x)
  {
    if s.se != [] {
      var u := s.(se := s.se[1..]);
      CopiesHead(s.se, x);
      FoundAtE(cap, u, s.se[0], t, x);
    }
  }

  lemma ServerKeepsFound(cap: Capacities, s: State, e: Event, t: State, x: Client)
    requires !s.down && !e.Accept? && t == Next(cap, s, e)
    ensures Found(t, x) == Found(s, x)
  {
    match e
    case RunC => RunCKeepsFound(cap, s, t, x);
    case RunS(true) => RunSDirectKeepsFound(cap, s, t, x);
    case RunS(false) => RunSForwardedKeepsFound(cap, s, t, x);
    case RunE(true) => RunEDirectKeepsFound(cap, s, t, x);
    case RunE(false) => RunEForwardedKeepsFound(cap, s, t, x);
  }

  lemma NextKeepsFound(cap: Capacities, s: State, e: Event, t: State, x: Client)
    requires Found(s, x) == Copies(s.accepted, x) && t == Next(cap, s, e)
    ensures Found(t, x) == Copies(t.accepted, x)
  {
    if !s.down {
      if e.Accept? {
        FoundByTC(s, e.client, t, x);
      } else {
        ServerKeepsFound(cap, s, e, t, x);
        ServerKeepsAccepted(cap, s, e);
      }
    }
  }

  lemma {:induction false} CopiesPrefix(xs: seq<Client>, ys: seq<Client>, x: Client)
    requires xs <= ys
    ensures Copies(xs, x) <= Copies(ys, x)
  {
    if xs != ys {
      PrefixShortened(xs, ys);
      CopiesPrefix(xs, ys[..|ys| - 1], x);
    }
  }

  lemma {:induction false} FoundAsAccepted(cap: Capacities, schedule: seq<Event>, x: Client)
    ensures Found(Run(cap, schedule), x) == Copies(Run(cap, schedule).accepted, x)
  {
    if schedule != [] {
      var k := |schedule| - 1;
      FoundAsAccepted(cap, schedule[..k], x);
      NextKeepsFound(cap, Run(cap, schedule[..k]), schedule[k], Run(cap, schedule), x);
    }
  }

  /**
    Conservation: each client is found as often as it was accepted, so never in two places at once;
    and until the shutdown that is as often as it has connected.
   */
  lemma NobodyLost(cap: Capacities, schedule: seq<Event>, x: Client)
    ensures Found(Run(cap, schedule), x) == Copies(Run(cap, schedule).accepted, x) <= Copies(Arrivals(schedule), x)
    ensures !Run(cap, schedule).down ==> Found(Run(cap, schedule), x) == Copies(Arrivals(schedule), x)
  {
    FoundAsAccepted(cap, schedule, x);
    EverybodyAccepted(cap, schedule);
    CopiesPrefix(Run(cap, schedule).accepted, Arrivals(schedule), x);
  }

  // ---------- consequences for every run ----------

  lemma {:induction false} AskingHolds(xs: seq<Client>, x: Client)
    requires x in xs
    ensures x in Asking(xs, x.service)
  {
    var k := |xs| - 1;
    if x in xs[..k] {
      AskingHolds(xs[..k], x);
    }
  }

  /** A client that asked for C is found past C only if C is full; likewise past S. */
  lemma NobodySentOnEarly(cap: Capacities, schedule: seq<Event>, x: Client)
    ensures var s := Run(cap, schedule);
            && (x.service == 1 && x in s.cs + s.atS + s.se + s.atE + s.rejected ==> |s.atC| == cap.c)
            && (x.service in {1, 2} && x in s.se + s.atE + s.rejected ==> |s.atS| == cap.s)
            && |s.atC| <= cap.c && |s.atS| <= cap.s && |s.atE| <= cap.e
  {
    InvAlways(cap, schedule);
    var s := Run(cap, schedule);
    if x in s.atS { AskingHolds(s.atS, x); }
    if x in s.se { AskingHolds(s.se, x); }
    if x in s.atE { AskingHolds(s.atE, x); }
    if x in s.rejected { AskingHolds(s.rejected, x); }
  }

  /** Each server takes the clients that asked for it in the order in which they came. */
  lemma FirstComeFirstServed(cap: Capacities, schedule: seq<Event>)
    ensures var s := Run(cap, schedule);
            && s.atC <= Asking(s.accepted, 1) <= Asking(Arrivals(schedule), 1)
            && Asking(s.atS, 2) <= Asking(s.accepted, 2) <= Asking(Arrivals(schedule), 2)
            && Asking(s.atE, 3) <= Asking(s.accepted, 3) <= Asking(Arrivals(schedule), 3)
  {
    InvAlways(cap, schedule);
    EverybodyAccepted(cap, schedule);
    AskingPrefix(Run(cap, schedule).accepted, Arrivals(schedule), 1);
    AskingPrefix(Run(cap, schedule).accepted, Arrivals(schedule), 2);
    AskingPrefix(Run(cap, schedule).accepted, Arrivals(schedule), 3);
  }

  // ---------- where runs end ----------

  function Excess(n: nat, capacity: nat): (e: nat) {
    if n > capacity then n - capacity else 0
  }

  function Min(a: nat, b: nat): (m: nat) {
    if a < b then a else b
  }

  /** How many clients S sees: its own, and what C cannot take. */
  function DemandS(cap: Capacities, accepted: seq<Client>): (n: nat) {
    |Asking(accepted, 2)| + Excess(|Asking(accepted, 1)|, cap.c)
  }

  /** How many clients E sees: its own, and what S cannot take. */
  function DemandE(cap: Capacities, accepted: seq<Client>): (n: nat) {
    |Asking(accepted, 3)| + Excess(DemandS(cap, accepted), cap.s)
  }

  ghost predicate Drained(s: State) {
    s.tcC == [] && s.tcS == [] && s.tcE == [] && s.cs == [] && s.se == []
  }

  /** The occupancies, and what has reached E, never exceed the demand on each server. */
  lemma DemandBounds(cap: Capacities, s: State)
    requires Inv(cap, s)
    ensures |s.atC| <= Min(|Asking(s.accepted, 1)|, cap.c)
    ensures |s.atS| <= Min(DemandS(cap, s.accepted), cap.s)
    ensures |s.atE| + |s.rejected| <= DemandE(cap, s.accepted)
  {
    CountTwo(s.atS, 1, 2);
    CountThree(s.atE);
    CountThree(s.rejected);
  }

  /** Once every channel is empty the occupancies are determined by the numbers accepted. */
  lemma DrainedOccupancy(cap: Capacities, s: State)
    requires Inv(cap, s) && Drained(s)
    ensures |s.atC| == Min(|Asking(s.accepted, 1)|, cap.c)
    ensures |s.atS| == Min(DemandS(cap, s.accepted), cap.s)
    ensures |s.atE| + |s.rejected| == DemandE(cap, s.accepted)
  {
    CountTwo(s.atS, 1, 2);
    CountThree(s.atE);
    CountThree(s.rejected);
  }

  /** The run has ended in shutdown, or nothing is left in any channel. */
  ghost predicate Ended(s: State) {
    s.down || Drained(s)
  }

  /** How a run ends when the given clients have come. */
  ghost predicate Settled(cap: Capacities, clients: seq<Client>, s: State) {
    && (s.down <==> DemandE(cap, clients) > cap.e)
    && (s.down ==> |s.atE| == cap.e && |s.rejected| == 1)
    && (!s.down ==>
          && |s.atC| == Min(|Asking(clients, 1)|, cap.c)
          && |s.atS| == Min(DemandS(cap, clients), cap.s)
          && |s.atE| == DemandE(cap, clients)
          && s.rejected == [])
  }

  lemma DemandGrows(cap: Capacities, xs: seq<Client>, ys: seq<Client>)
    requires xs <= ys
    ensures DemandE(cap, xs) <= DemandE(cap, ys)
  {
    AskingPrefix(xs, ys, 1);
    AskingPrefix(xs, ys, 2);
    AskingPrefix(xs, ys, 3);
  }

  lemma SettledByAccepted(cap: Capacities, schedule: seq<Event>)
    requires Ended(Run(cap, schedule))
    ensures Settled(cap, Run(cap, schedule).accepted, Run(cap, schedule))
  {
    InvAlways(cap, schedule);
    var s := Run(cap, schedule);
    DemandBounds(cap, s);
    if !s.down {
      DrainedOccupancy(cap, s);
    }
  }

  /**
    Shutdown happens exactly when the demand on E, by those who connected, exceeds its capacity;
    otherwise all are served. Those who were accepted before a shutdown are already too many.
   */
  lemma Outcome(cap: Capacities, schedule: seq<Event>)
    requires Ended(Run(cap, schedule))
    ensures Settled(cap, Arrivals(schedule), Run(cap, schedule))
    ensures Settled(cap, Run(cap, schedule).accepted, Run(cap, schedule))
  {
    SettledByAccepted(cap, schedule);
    EverybodyAccepted(cap, schedule);
    DemandGrows(cap, Run(cap, schedule).accepted, Arrivals(schedule));
  }

  /** Equally many clients of each class. */
  ghost predicate SameNumbers(xs: seq<Client>, ys: seq<Client>) {
    forall v :: 1 <= v <= 3 ==> |Asking(xs, v)| == |Asking(ys, v)|
  }

  lemma SettledAlike(cap: Capacities, xs: seq<Client>, ys: seq<Client>, s: State, t: State)
    requires Settled(cap, xs, s) && Settled(cap, ys, t) && SameNumbers(xs, ys)
    ensures s.down == t.down && |s.atE| == |t.atE|
    ensures !s.down ==> |s.atC| == |t.atC| && |s.atS| == |t.atS|
  {
    assert |Asking(xs, 1)| == |Asking(ys, 1)|;
    assert |Asking(xs, 2)| == |Asking(ys, 2)|;
    assert |Asking(xs, 3)| == |Asking(ys, 3)|;
  }

  /**
    Two runs to which equally many clients of each class connect, or in which as many are accepted,
    end alike, however they interleave. If the clients for C are the same, in the same order, C even
    ends up serving the same ones.
   */
  lemma ScheduleIndependence(cap: Capacities, schedule1: seq<Event>, schedule2: seq<Event>)
    requires Ended(Run(cap, schedule1)) && Ended(Run(cap, schedule2))
    requires SameNumbers(Arrivals(schedule1), Arrivals(schedule2))
          || SameNumbers(Run(cap, schedule1).accepted, Run(cap, schedule2).accepted)
    ensures var s, t := Run(cap, schedule1), Run(cap, schedule2);
            && s.down == t.down
            && |s.atE| == |t.atE|
            && (!s.down ==> |s.atC| == |t.atC| && |s.atS| == |t.atS|)
            && (!s.down && Asking(Arrivals(schedule1), 1) == Asking(Arrivals(schedule2), 1) ==> s.atC == t.atC)
  {
    Outcome(cap, schedule1);
    Outcome(cap, schedule2);
    var s, t := Run(cap, schedule1), Run(cap, schedule2);
    if SameNumbers(s.accepted, t.accepted) {
      SettledAlike(cap, s.accepted, t.accepted, s, t);
    } else {
      SettledAlike(cap, Arrivals(schedule1), Arrivals(schedule2), s, t);
    }
    FirstComeFirstServed(cap, schedule1);
    FirstComeFirstServed(cap, schedule2);
  }

  // ---------- every run ends ----------

  /** How many hops the queued clients may still make. */
  function Hops(s: State): (n: nat) {
    3 * |s.tcC| + 2 * |s.cs| + 2 * |s.tcS| + |s.se| + |s.tcE|
  }

  lemma ServerStepMakesHop(cap: Capacities, s: State, e: Event)
    requires !e.Accept? && Next(cap, s, e) != s
    ensures Hops(Next(cap, s, e)) < Hops(s)
  {
  }

  lemma ServerTakesHead(cap: Capacities, s: State, e: Event)
    requires !s.down
    requires match e
             case Accept(_) => false
             case RunC => s.tcC != []
             case RunS(direct) => if direct then s.tcS != [] else s.cs != []
             case RunE(direct) => if direct then s.tcE != [] else s.se != []
    ensures Hops(Next(cap, s, e)) < Hops(s)
  {
  }

  /** Without arrivals, no server can make a step exactly when the run has ended. */
  lemma StuckIffEnded(cap: Capacities, s: State)
    ensures (forall e: Event :: !e.Accept? ==> Next(cap, s, e) == s) <==> Ended(s)
  {
    if !Ended(s) {
      var e := if s.tcC != [] then RunC
               else if s.cs != [] then RunS(false)
               else if s.tcS != [] then RunS(true)
               else if s.se != [] then RunE(false)
               else RunE(true);
      ServerTakesHead(cap, s, e);
    }
  }

  /** Server steps only, none of them idle. */
  ghost predicate Busy(cap: Capacities, schedule: seq<Event>, more: seq<Event>)
    decreases |more|
  {
    more == [] ||
    (var k := |more| - 1;
     && !more[k].Accept?
     && Busy(cap, schedule, more[..k])
     && Run(cap, schedule + more) != Run(cap, schedule + more[..k]))
  }

  /** Once arrivals stop, the servers make at most Hops more steps, in any order. */
  lemma {:induction false} RunsEnd(cap: Capacities, schedule: seq<Event>, more: seq<Event>)
    requires Busy(cap, schedule, more)
    ensures |more| + Hops(Run(cap, schedule + more)) <= Hops(Run(cap, schedule))
    decreases |more|
  {
    if more == [] {
      assert schedule + more == schedule;
    } else {
      var k := |more| - 1;
      RunsEnd(cap, schedule, more[..k]);
      assert (schedule + more)[..|schedule| + k] == schedule + more[..k];
      ServerStepMakesHop(cap, Run(cap, schedule + more[..k]), more[k]);
    }
  }

  lemma RunExtended(cap: Capacities, schedule: seq<Event>, more: seq<Event>, e: Event)
    ensures Run(cap, schedule + (more + [e])) == Next(cap, Run(cap, schedule + more), e)
  {
    var all := schedule + (more + [e]);
    assert all[..|all| - 1] == schedule + more;
  }

  lemma BusyExtendedIff(cap: Capacities, schedule: seq<Event>, more: seq<Event>, e: Event)
    requires Busy(cap, schedule, more)
    ensures var s := Run(cap, schedule + more);
            Busy(cap, schedule, more + [e]) <==> !e.Accept? && Next(cap, s, e) != s
  {
    RunExtended(cap, schedule, more, e);
    assert (more + [e])[..|more|] == more;
  }

  /** A busy continuation can be extended exactly as long as the run has not ended. */
  lemma MaximalIffEnded(cap: Capacities, schedule: seq<Event>, more: seq<Event>)
    requires Busy(cap, schedule, more)
    ensures (forall e: Event :: !Busy(cap, schedule, more + [e])) <==> Ended(Run(cap, schedule + more))
  {
    StuckIffEnded(cap, Run(cap, schedule + more));
    forall e: Event
      ensures var s := Run(cap, schedule + more);
              Busy(cap, schedule, more + [e]) <==> !e.Accept? && Next(cap, s, e) != s
    {
      BusyExtendedIff(cap, schedule, more, e);
    }
  }

  lemma {:induction false} BusyAcceptsNobody(cap: Capacities, schedule: seq<Event>, more: seq<Event>)
    requires Busy(cap, schedule, more)
    ensures Run(cap, schedule + more).accepted == Run(cap, schedule).accepted
    decreases |more|
  {
    if more == [] {
      assert schedule + more == schedule;
    } else {
      var k := |more| - 1;
      BusyAcceptsNobody(cap, schedule, more[..k]);
      TakeOneMore(more, k);
      assert more[..k + 1] == more;
      RunExtended(cap, schedule, more[..k], more[k]);
      ServerKeepsAccepted(cap, Run(cap, schedule + more[..k]), more[k]);
    }
  }

  lemma {:induction false} BusyBringsNobody(cap: Capacities, schedule: seq<Event>, more: seq<Event>)
    requires Busy(cap, schedule, more)
    ensures Arrivals(schedule + more) == Arrivals(schedule)
    decreases |more|
  {
    if more == [] {
      assert schedule + more == schedule;
    } else {
      var k := |more| - 1;
      BusyBringsNobody(cap, schedule, more[..k]);
      assert (schedule + more)[..|schedule| + k] == schedule + more[..k];
    }
  }

  lemma {:induction false} Finish(cap: Capacities, schedule: seq<Event>, more: seq<Event>) returns (rest: seq<Event>)
    requires Busy(cap, schedule, more)
    ensures Busy(cap, schedule, rest) && Ended(Run(cap, schedule + rest))
    decreases Hops(Run(cap, schedule + more))
  {
    MaximalIffEnded(cap, schedule, more);
    if Ended(Run(cap, schedule + more)) {
      rest := more;
    } else {
      var e :| Busy(cap, schedule, more + [e]);
      BusyExtendedIff(cap, schedule, more, e);
      RunExtended(cap, schedule, more, e);
      ServerStepMakesHop(cap, Run(cap, schedule + more), e);
      rest := Finish(cap, schedule, more + [e]);
    }
  }

  /**
    Every run ends. Once arrivals stop after some schedule, the servers can go on to an end; a
    continuation of theirs has at most Hops steps and cannot be extended exactly when it has
    reached an end; and every end is the one determined by the clients that have come so far.
   */
  lemma EveryRunEnds(cap: Capacities, schedule: seq<Event>)
    ensures exists more :: Busy(cap, schedule, more) && Ended(Run(cap, schedule + more))
    ensures forall more :: Busy(cap, schedule, more) ==>
      && |more| <= Hops(Run(cap, schedule))
      && ((forall e: Event :: !Busy(cap, schedule, more + [e])) <==> Ended(Run(cap, schedule + more)))
      && (Ended(Run(cap, schedule + more)) ==>
            && Settled(cap, Arrivals(schedule), Run(cap, schedule + more))
            && Settled(cap, Run(cap, schedule).accepted, Run(cap, schedule + more)))
  {
    var rest := Finish(cap, schedule, []);
    forall more | Busy(cap, schedule, more)
      ensures |more| <= Hops(Run(cap, schedule))
      ensures (forall e: Event :: !Busy(cap, schedule, more + [e])) <==> Ended(Run(cap, schedule + more))
      ensures Ended(Run(cap, schedule + more)) ==>
                && Settled(cap, Arrivals(schedule), Run(cap, schedule + more))
                && Settled(cap, Run(cap, schedule).accepted, Run(cap, schedule + more))
    {
      RunsEnd(cap, schedule, more);
      MaximalIffEnded(cap, schedule, more);
      BusyAcceptsNobody(cap, schedule, more);
      BusyBringsNobody(cap, schedule, more);
      if Ended(Run(cap, schedule + more)) {
        Outcome(cap, schedule + more);
      }
    }
  }
}
