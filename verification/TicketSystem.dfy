/**
  The four processes of unixsockets/csemulti and the sockets between them, with one method per
  loop body. Passing a file descriptor is appending to or taking from a queue; starting the
  thread of a client and incrementing clients_no is appending the client to `atC`, `atS` or `atE`.
 */
module TicketSystem {
  import opened Cascade
  import opened CascadeProperties

  class Processes {
    const cap: Capacities
    var tcC: seq<Client>
    var tcS: seq<Client>
    var tcE: seq<Client>
    var cs: seq<Client>
    var se: seq<Client>
    var atC: seq<Client>
    var atS: seq<Client>
    var atE: seq<Client>
    var held: seq<Client>
    var rejected: seq<Client>
    var down: bool
    ghost var accepted: seq<Client>

    ghost function View(): (s: State)
      reads this
    {
      State(tcC, tcS, tcE, cs, se, atC, atS, atE, held, rejected, accepted, down)
    }

    constructor (cap: Capacities)
      ensures View() == INITIAL && this.cap == cap
      ensures tcC == tcS == tcE == cs == se == [] && atC == atS == atE == []
      ensures held == rejected == accepted == [] && !down
    {
      this.cap := cap;
      tcC, tcS, tcE, cs, se := [], [], [], [], [];
      atC, atS, atE, held, rejected := [], [], [], [], [];
      down := false;
      accepted := [];
    }

    /** tc.c: accepts a client, reads the service it wants and hands it to that server. */
    method AcceptClient(x: Client)
      requires !down
      modifies this`accepted, this`tcC, this`tcS, this`tcE, this`held
      ensures View() == Next(cap, old(View()), Accept(x))
      ensures accepted == old(accepted) + [x]
      ensures tcC == if x.service == 1 then old(tcC) + [x] else old(tcC)
      ensures tcS == if x.service == 2 then old(tcS) + [x] else old(tcS)
      ensures tcE == if x.service == 3 then old(tcE) + [x] else old(tcE)
      ensures held == if x.service in {1, 2, 3} then old(held) else old(held) + [x]
    {
      accepted := accepted + [x];
      match x.service {
        case 1 => tcC := tcC + [x];
        case 2 => tcS := tcS + [x];
        case 3 => tcE := tcE + [x];
        case _ => held := held + [x];
      }
    }

    /** c.c: receives the next client, and serves it or forwards it to S. */
    method LoopC()
      requires !down && tcC != []
      modifies this`tcC, this`cs, this`atC
      ensures View() == Next(cap, old(View()), RunC)
      ensures tcC == old(tcC)[1..]
      ensures if |old(atC)| < cap.c then atC == old(atC) + [old(tcC)[0]] && cs == old(cs)
              else cs == old(cs) + [old(tcC)[0]] && atC == old(atC)
    {
      var fd := tcC[0];
      tcC := tcC[1..];
      if |atC| >= cap.c {
        cs := cs + [fd];
      } else {
        atC := atC + [fd];
      }
    }

    /** s.c: polls both sockets; the one from TC is looked at first. */
    method LoopS(ready0: bool, ready1: bool)
      requires !down && (ready0 ==> tcS != []) && (ready1 ==> cs != [])
      modifies this`tcS, this`cs, this`atS, this`se
      ensures View() == if ready0 then Next(cap, old(View()), RunS(true))
                        else if ready1 then Next(cap, old(View()), RunS(false))
                        else old(View())
      ensures ready0 ==> tcS == old(tcS)[1..] && cs == old(cs)
      ensures !ready0 && ready1 ==> cs == old(cs)[1..] && tcS == old(tcS)
      ensures ready0 || ready1 ==>
        var fd := if ready0 then old(tcS)[0] else old(cs)[0];
        if |old(atS)| < cap.s then atS == old(atS) + [fd] && se == old(se)
        else se == old(se) + [fd] && atS == old(atS)
      ensures !ready0 && !ready1 ==> unchanged(this)
    {
      if ready0 {
        var fd := tcS[0];
        tcS := tcS[1..];
        if |atS| >= cap.s {
          se := se + [fd];
        } else {
          atS := atS + [fd];
        }
      } else if ready1 {
        var fd := cs[0];
        cs := cs[1..];
        if |atS| >= cap.s {
          se := se + [fd];
        } else {
          atS := atS + [fd];
        }
      }
    }

    /** e.c: polls both sockets; when full it signals TC, whose handler exits, and exits itself. */
    method LoopE(ready0: bool, ready1: bool)
      requires !down && (ready0 ==> tcE != []) && (ready1 ==> se != [])
      modifies this`tcE, this`se, this`atE, this`rejected, this`down
      ensures View() == if ready0 then Next(cap, old(View()), RunE(true))
                        else if ready1 then Next(cap, old(View()), RunE(false))
                        else old(View())
      ensures ready0 ==> tcE == old(tcE)[1..] && se == old(se)
      ensures !ready0 && ready1 ==> se == old(se)[1..] && tcE == old(tcE)
      ensures ready0 || ready1 ==>
        var fd := if ready0 then old(tcE)[0] else old(se)[0];
        if |old(atE)| < cap.e then atE == old(atE) + [fd] && rejected == old(rejected) && !down
        else rejected == old(rejected) + [fd] && atE == old(atE) && down
      ensures !ready0 && !ready1 ==> unchanged(this)
    {
      if ready0 {
        var fd := tcE[0];
        tcE := tcE[1..];
        if |atE| >= cap.e {
          rejected := rejected + [fd];
          down := true;
        } else {
          atE := atE + [fd];
        }
      } else if ready1 {
        var fd := se[0];
        se := se[1..];
        if |atE| >= cap.e {
          rejected := rejected + [fd];
          down := true;
        } else {
          atE := atE + [fd];
        }
      }
    }

    /** The channel that e names is empty. */
    ghost predicate Waits(e: Event)
      reads this
    {
      match e
      case Accept(_) => false
      case RunC => tcC == []
      case RunS(direct) => if direct then tcS == [] else cs == []
      case RunE(direct) => if direct then tcE == [] else se == []
    }

    /** One event of a schedule; a loop whose channel is empty goes on waiting. */
    method Perform(e: Event)
      requires !down
      modifies this
      ensures View() == Next(cap, old(View()), e)
      ensures accepted == if e.Accept? then old(accepted) + [e.client] else old(accepted)
      ensures old(Waits(e)) ==> unchanged(this)
      ensures !old(Waits(e)) ==>
        match e
        case Accept(_) => unchanged(this`cs, this`se, this`atC, this`atS, this`atE)
        case RunC => tcC == old(tcC)[1..] && unchanged(this`tcS, this`tcE, this`se, this`atS, this`atE)
        case RunS(true) => tcS == old(tcS)[1..] && unchanged(this`tcC, this`tcE, this`cs, this`atC, this`atE)
        case RunS(false) => cs == old(cs)[1..] && unchanged(this`tcC, this`tcS, this`tcE, this`atC, this`atE)
        case RunE(true) => tcE == old(tcE)[1..] && unchanged(this`tcC, this`tcS, this`cs, this`se, this`atC, this`atS)
        case RunE(false) => se == old(se)[1..] && unchanged(this`tcC, this`tcS, this`tcE, this`cs, this`atC, this`atS)
    {
      match e {
        case Accept(x) => AcceptClient(x);
        case RunC => if tcC != [] { LoopC(); }
        case RunS(direct) => LoopS(direct && tcS != [], !direct && cs != []);
        case RunE(direct) => LoopE(direct && tcE != [], !direct && se != []);
      }
    }
  }

  /** Runs the processes by a schedule; whatever it is, the system ends up where `Run` says. */
  method Simulate(cap: Capacities, schedule: seq<Event>) returns (p: Processes)
    ensures fresh(p) && p.cap == cap && p.View() == Run(cap, schedule)
    ensures Inv(cap, p.View())
    ensures p.accepted <= Arrivals(schedule) && (!p.down ==> p.accepted == Arrivals(schedule))
  {
    p := new Processes(cap);
    for i := 0 to |schedule|
      invariant fresh(p) && p.cap == cap && p.View() == Run(cap, schedule[..i])
    {
      assert schedule[..i + 1][..i] == schedule[..i];
      if !p.down {
        p.Perform(schedule[i]);
      }
    }
    assert schedule[..|schedule|] == schedule;
    InvAlways(cap, schedule);
    EverybodyAccepted(cap, schedule);
  }
}
