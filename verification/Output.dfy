/**
 * ip_tx above arp_resolve: any number of threads inside ip_tx, each sending the packets of its datagram one after
 * the other, while arp_rx runs and waits end.
 */
module Output {
  import opened ByteOrder
  import opened Wrappers
  import opened ArpTable
  import opened ArpRuns
  import Ip
  import RoundTrip
  import Ethernet
  import Delivery

  /** Payload bytes per packet: the MTU less the IP header, within the packet buffer. */
  type Capacity = n: nat | 0 < n <= Ip.PACKET_MAX - Ip.HDR_SIZE witness 1

  /** The arguments of one call of ip_tx, on a host of byte order `e`. */
  datatype Datagram = Datagram(e: Endian, netif: Netif, w: Ip.Flow, data: Bytes, cap: Capacity)

  /** The pieces ip_tx cuts a datagram into. */
  function Cut(d: Datagram): (ps: seq<Ip.Piece>)
    ensures forall i :: 0 <= i < |ps| ==> |ps[i].data| <= d.cap
  {
    RoundTrip.FieldsAreSmall(d.data, d.cap, 0);
    Ip.Pieces(d.data, d.cap, 0)
  }

  /** The packet that carries a piece, on its way through its device to the next hop, which is the destination. */
  function Wrapped(d: Datagram, p: Ip.Piece): Packet
    requires |p.data| <= d.cap
  {
    Packet(d.netif.dev, d.w.dst, Ip.Packet(d.e, d.w, p.offset, p.data))
  }

  function PacketsFor(d: Datagram): (ps: seq<Packet>)
    ensures |ps| == |Cut(d)| && forall i :: 0 <= i < |ps| ==> ps[i] == Wrapped(d, Cut(d)[i])
  {
    seq(|Cut(d)|, i requires 0 <= i < |Cut(d)| => Wrapped(d, Cut(d)[i]))
  }

  /** A thread in ip_tx: in its loop, waiting in arp_resolve, returned the length, or returned -1. */
  datatype Status = Running | Waiting | Done | Error

  /** `made` calls of ip_tx_core have begun. */
  datatype Job = Job(d: Datagram, packets: seq<Packet>, made: nat, status: Status)

  /** Broadcast datagrams do not use ARP: `shouted` were taken by the device and `refused` were not. */
  datatype Host = Host(net: System, jobs: seq<Job>, shouted: seq<Sent>, refused: seq<Packet>)

  datatype Step =
    | Submit(d: Datagram)                                    // a thread enters ip_tx
    | Send(j: nat, alloc: bool, now: int, accepts: bool)     // thread j makes its next call of ip_tx_core
    | Resume(k: nat, timedOut: bool, accepts: bool)          // the k-th wait in arp_resolve ends
    | Listen(a: Action)                                      // a locked section of arp_rx

  function NewJob(d: Datagram): Job
  {
    Job(d, PacketsFor(d), 0, if |PacketsFor(d)| == 0 then Done else Running)
  }

  /** The call that thread `j` makes next. */
  function AskOf(job: Job, j: nat): Ask
    requires job.made < |job.packets|
  {
    Ask(j, job.d.netif, job.packets[job.made].nexthop, Some(job.packets[job.made].bytes))
  }

  predicate Broadcasts(job: Job)
  {
    job.d.w.dst == Ip.LIMITED_BROADCAST
  }

  /** What the loop does with a call that has returned. */
  function Returned(job: Job, ok: bool): Job
  {
    job.(status := if !ok then Error else if job.made == |job.packets| then Done else Running)
  }

  predicate Possible(h: Host, st: Step)
  {
    match st
    case Submit(_) => true
    case Send(j, _, _, _) => j < |h.jobs| && h.jobs[j].status == Running && h.jobs[j].made < |h.jobs[j].packets|
    case Resume(k, timedOut, accepts) =>
      Enabled(h.net, Waking(k, timedOut, accepts)) && h.net.waiters[k].ask.who < |h.jobs|
    case Listen(a) => (a.RxUpdate? || a.RxInsert?) && Enabled(h.net, a)
  }

  function Take(h: Host, st: Step): Host
    requires Possible(h, st)
  {
    match st
    case Submit(d) => h.(jobs := h.jobs + [NewJob(d)])
    case Send(j, alloc, now, accepts) =>
      var ask, job := AskOf(h.jobs[j], j), h.jobs[j].(made := h.jobs[j].made + 1);
      if Broadcasts(job) then
        h.(jobs := h.jobs[j := Returned(job, accepts)],
           shouted := if accepts then h.shouted + Framed(ask, Ethernet.BROADCAST) else h.shouted,
           refused := if accepts then h.refused else h.refused + OfAsk(ask))
      else
        var r := Resolve(h.net.table, ask.netif, ask.pa, ask.data, alloc, now).1;
        var after := if r.Wait? then job.(status := Waiting) else Returned(job, r.Query? || (r.Found? && accepts));
        h.(net := Act(h.net, Resolving(ask, alloc, now, accepts)), jobs := h.jobs[j := after])
    case Resume(k, timedOut, accepts) =>
      var w := h.net.waiters[k];
      var ok := Wake(h.net.table, w.slot, timedOut).1.Found? && accepts;
      h.(net := Act(h.net, Waking(k, timedOut, accepts)),
         jobs := h.jobs[w.ask.who := Returned(h.jobs[w.ask.who], ok)])
    case Listen(a) => h.(net := Act(h.net, a))
  }

  predicate PossibleRun(h: Host, steps: seq<Step>)
    decreases steps
  {
    steps == [] || (Possible(h, steps[0]) && PossibleRun(Take(h, steps[0]), steps[1..]))
  }

  function TakeAll(h: Host, steps: seq<Step>): Host
    requires PossibleRun(h, steps)
    decreases steps
  {
    if steps == [] then h else TakeAll(Take(h, steps[0]), steps[1..])
  }

  // ---- what the threads have done ------------------------------------------------------------

  /** Packets of a thread: those it made calls for, the one it waits with, the one it reports as an error. */
  datatype Share = Called | Waits | Fails

  function Of(job: Job, share: Share): seq<Packet>
    requires job.made <= |job.packets|
  {
    match share
    case Called => job.packets[..job.made]
    case Waits => if job.status == Waiting && job.made > 0 then [job.packets[job.made - 1]] else []
    case Fails => if job.status == Error && job.made > 0 then [job.packets[job.made - 1]] else []
  }

  predicate JobOk(job: Job)
  {
    && job.made <= |job.packets|
    && (forall i :: 0 <= i < |job.packets| ==>
          job.packets[i].dev == job.d.netif.dev && job.packets[i].nexthop == job.d.w.dst)
    && (job.status == Done ==> job.made == |job.packets|)
    && (job.status == Running ==> job.made < |job.packets|)
    && (job.status == Waiting || job.status == Error ==> job.made > 0)
  }

  predicate JobsOk(jobs: seq<Job>)
  {
    forall j :: 0 <= j < |jobs| ==> JobOk(jobs[j])
  }

  /** How often `p` occurs in that share of all threads. */
  function Tally(jobs: seq<Job>, share: Share, p: Packet): nat
    requires JobsOk(jobs)
  {
    if jobs == [] then 0 else Count(Of(jobs[0], share), p) + Tally(jobs[1..], share, p)
  }

  /** The waiter is thread `who`, which waits with the packet of its latest call. */
  predicate WaiterOk(jobs: seq<Job>, w: Waiter)
    requires JobsOk(jobs)
  {
    && w.ask.who < |jobs| && jobs[w.ask.who].status == Waiting
    && OfAsk(w.ask) == Of(jobs[w.ask.who], Waits)
  }

  /** No thread waits twice. */
  predicate OneEach(waiters: seq<Waiter>)
  {
    forall i, k :: 0 <= i < k < |waiters| ==> waiters[i].ask.who != waiters[k].ask.who
  }

  predicate HostOk(h: Host)
  {
    && JobsOk(h.jobs)
    && (forall k :: 0 <= k < |h.net.waiters| ==> WaiterOk(h.jobs, h.net.waiters[k]))
    && OneEach(h.net.waiters)
  }

  /** The tallies of the threads agree with those of the layers below. */
  predicate Tallied(h: Host, p: Packet)
    requires JobsOk(h.jobs)
  {
    && Tally(h.jobs, Called, p) ==
       Count(h.net.asked, p) + Count(PacketsOf(h.shouted), p) + Count(h.refused, p)
    && Tally(h.jobs, Fails, p) == Count(h.net.failed, p) + Count(h.refused, p)
    && Tally(h.jobs, Waits, p) == Count(Held(h.net.waiters), p)
  }

  lemma {:induction false} TallyUpdate(jobs: seq<Job>, j: nat, job: Job, share: Share, p: Packet)
    requires JobsOk(jobs) && j < |jobs| && JobOk(job)
    ensures Tally(jobs[j := job], share, p) + Count(Of(jobs[j], share), p) ==
            Tally(jobs, share, p) + Count(Of(job, share), p)
  {
    var next := jobs[j := job];
    if j > 0 {
      TallyUpdate(jobs[1..], j - 1, job, share, p);
      assert next[1..] == jobs[1..][j - 1 := job];
    } else {
      assert next[1..] == jobs[1..];
    }
  }

  lemma {:induction false} TallyAppend(jobs: seq<Job>, job: Job, share: Share, p: Packet)
    requires JobsOk(jobs) && JobOk(job)
    ensures Tally(jobs + [job], share, p) == Tally(jobs, share, p) + Count(Of(job, share), p)
  {
    if jobs == [] {
      assert jobs + [job] == [job] && [job][1..] == [];
    } else {
      TallyAppend(jobs[1..], job, share, p);
      assert (jobs + [job])[1..] == jobs[1..] + [job];
    }
  }

  lemma CalledNext(job: Job, p: Packet)
    requires job.made < |job.packets|
    ensures var next := job.(made := job.made + 1);
            Count(Of(next, Called), p) == Count(Of(job, Called), p) + Count([job.packets[job.made]], p)
  {
    assert job.packets[..job.made + 1] == job.packets[..job.made] + [job.packets[job.made]];
    CountSum(job.packets[..job.made], [job.packets[job.made]], p);
  }

  /** What one more call of thread `j` adds to the tallies. */
  lemma CallMoves(jobs: seq<Job>, j: nat, status: Status, p: Packet)
    requires JobsOk(jobs) && j < |jobs| && jobs[j].status == Running
    requires JobOk(jobs[j].(made := jobs[j].made + 1, status := status))
    ensures var next, one := jobs[j := jobs[j].(made := jobs[j].made + 1, status := status)],
                             Count([jobs[j].packets[jobs[j].made]], p);
            && Tally(next, Called, p) == Tally(jobs, Called, p) + one
            && Tally(next, Waits, p) == Tally(jobs, Waits, p) + (if status == Waiting then one else 0)
            && Tally(next, Fails, p) == Tally(jobs, Fails, p) + (if status == Error then one else 0)
  {
    var job := jobs[j].(made := jobs[j].made + 1, status := status);
    TallyUpdate(jobs, j, job, Called, p);
    TallyUpdate(jobs, j, job, Waits, p);
    TallyUpdate(jobs, j, job, Fails, p);
    CalledNext(jobs[j], p);
  }

  lemma OfReturned(job: Job, ok: bool)
    requires JobOk(job) && job.status == Waiting
    ensures JobOk(Returned(job, ok))
    ensures Of(Returned(job, ok), Called) == Of(job, Called) && Of(job, Fails) == [] == Of(Returned(job, ok), Waits)
    ensures Of(Returned(job, ok), Fails) == if ok then [] else Of(job, Waits)
  {
  }

  /** What the end of its wait changes in the tallies. */
  lemma WakeMoves(jobs: seq<Job>, j: nat, job: Job, ok: bool, p: Packet)
    requires JobsOk(jobs) && j < |jobs| && jobs[j].status == Waiting && job == Returned(jobs[j], ok)
    ensures var next, one := jobs[j := job], Count(Of(jobs[j], Waits), p);
            && JobsOk(next)
            && Tally(next, Called, p) == Tally(jobs, Called, p)
            && Tally(next, Waits, p) + one == Tally(jobs, Waits, p)
            && Tally(next, Fails, p) == Tally(jobs, Fails, p) + (if ok then 0 else one)
  {
    OfReturned(jobs[j], ok);
    TallyUpdate(jobs, j, job, Called, p);
    TallyUpdate(jobs, j, job, Waits, p);
    TallyUpdate(jobs, j, job, Fails, p);
  }

  // ---- every step keeps the tallies ----------------------------------------------------------

  lemma SubmitTallies(h: Host, job: Job, p: Packet)
    requires HostOk(h) && Tallied(h, p) && JobOk(job) && job.made == 0
    ensures HostOk(h.(jobs := h.jobs + [job])) && Tallied(h.(jobs := h.jobs + [job]), p)
  {
    TallyAppend(h.jobs, job, Called, p);
    TallyAppend(h.jobs, job, Waits, p);
    TallyAppend(h.jobs, job, Fails, p);
    forall k | 0 <= k < |h.net.waiters|
      ensures WaiterOk(h.jobs + [job], h.net.waiters[k])
    {
      assert WaiterOk(h.jobs, h.net.waiters[k]);
    }
  }

  lemma AskIsPacket(job: Job, j: nat)
    requires job.made < |job.packets| && job.packets[job.made].dev == job.d.netif.dev
    ensures OfAsk(AskOf(job, j)) == [job.packets[job.made]]
  {
  }

  /** A step that moves one thread keeps the threads consistent with the waiters. */
  lemma MovedOk(h: Host, next: Host, j: nat)
    requires HostOk(h) && j < |h.jobs| && |next.jobs| == |h.jobs| && next.jobs == h.jobs[j := next.jobs[j]]
    requires JobOk(next.jobs[j])
    requires forall w :: w in next.net.waiters && w.ask.who != j ==> w in h.net.waiters
    requires forall w :: w in next.net.waiters && w.ask.who == j ==>
               next.jobs[j].status == Waiting && OfAsk(w.ask) == Of(next.jobs[j], Waits)
    requires OneEach(next.net.waiters)
    ensures HostOk(next)
  {
    forall k | 0 <= k < |next.net.waiters|
      ensures WaiterOk(next.jobs, next.net.waiters[k])
    {
      var w := next.net.waiters[k];
      if w.ask.who != j {
        var i :| 0 <= i < |h.net.waiters| && h.net.waiters[i] == w;
        assert WaiterOk(h.jobs, h.net.waiters[i]);
      }
    }
  }

  /** A running thread has no waiter; its call adds at most one. */
  lemma CalledOk(h: Host, next: Host, j: nat, more: seq<Waiter>)
    requires HostOk(h) && j < |h.jobs| == |next.jobs| && next.jobs == h.jobs[j := next.jobs[j]]
    requires h.jobs[j].status == Running && JobOk(next.jobs[j])
    requires next.net.waiters == h.net.waiters + more && |more| <= 1
    requires forall w :: w in more ==>
               w.ask.who == j && next.jobs[j].status == Waiting && OfAsk(w.ask) == Of(next.jobs[j], Waits)
    ensures HostOk(next)
  {
    forall k | 0 <= k < |h.net.waiters|
      ensures h.net.waiters[k].ask.who != j
    {
      assert WaiterOk(h.jobs, h.net.waiters[k]);
    }
    assert more != [] ==> more[0] in more;
    MovedOk(h, next, j);
  }

  lemma SendOk(h: Host, st: Step)
    requires HostOk(h) && st.Send? && Possible(h, st)
    ensures HostOk(Take(h, st))
  {
    var job, next := h.jobs[st.j], Take(h, st);
    AskIsPacket(job, st.j);
    var more := next.net.waiters[|h.net.waiters|..];
    assert next.net.waiters == h.net.waiters + more;
    CalledOk(h, next, st.j, more);
  }

  lemma RemoveOne(waiters: seq<Waiter>, k: nat)
    requires OneEach(waiters) && k < |waiters|
    ensures OneEach(Remove(waiters, k))
    ensures forall w :: w in Remove(waiters, k) ==> w in waiters && w.ask.who != waiters[k].ask.who
  {
  }

  lemma ResumeOk(h: Host, st: Step)
    requires HostOk(h) && st.Resume? && Possible(h, st)
    ensures HostOk(Take(h, st))
  {
    var who := h.net.waiters[st.k].ask.who;
    assert WaiterOk(h.jobs, h.net.waiters[st.k]);
    RemoveOne(h.net.waiters, st.k);
    OfReturned(h.jobs[who], Take(h, st).jobs[who].status != Error);
    MovedOk(h, Take(h, st), who);
  }

  lemma ResolvingCounts(s: System, ask: Ask, alloc: bool, now: int, accepts: bool, p: Packet)
    ensures var s', one := Act(s, Resolving(ask, alloc, now, accepts)), Count(OfAsk(ask), p);
            var r := Resolve(s.table, ask.netif, ask.pa, ask.data, alloc, now).1;
            && Count(s'.asked, p) == Count(s.asked, p) + one
            && Count(s'.failed, p) ==
               Count(s.failed, p) + (if r.Failed? || (r.Found? && !accepts) then one else 0)
            && Count(Held(s'.waiters), p) == Count(Held(s.waiters), p) + (if r.Wait? then one else 0)
  {
    var r := Resolve(s.table, ask.netif, ask.pa, ask.data, alloc, now).1;
    CountSum(s.asked, OfAsk(ask), p);
    CountSum(s.failed, OfAsk(ask), p);
    if r.Wait? {
      HeldAppend(s.waiters, Waiter(r.slot, ask), p);
    }
  }

  lemma WakingCounts(s: System, k: nat, timedOut: bool, accepts: bool, p: Packet)
    requires Enabled(s, Waking(k, timedOut, accepts))
    ensures var s', one := Act(s, Waking(k, timedOut, accepts)), Count(OfAsk(s.waiters[k].ask), p);
            var ok := Wake(s.table, s.waiters[k].slot, timedOut).1.Found? && accepts;
            && s'.asked == s.asked
            && Count(s'.failed, p) == Count(s.failed, p) + (if ok then 0 else one)
            && Count(Held(s'.waiters), p) + one == Count(Held(s.waiters), p)
  {
    HeldRemove(s.waiters, k, p);
    CountSum(s.failed, OfAsk(s.waiters[k].ask), p);
  }

  /** A call of thread `j` keeps the tallies if the layers below count its packet once, and as what it became. */
  lemma CallTallies(h: Host, next: Host, j: nat, p: Packet)
    requires JobsOk(h.jobs) && Tallied(h, p) && j < |h.jobs| == |next.jobs| && h.jobs[j].status == Running
    requires JobOk(next.jobs[j]) && next.jobs == h.jobs[j := next.jobs[j]]
    requires next.jobs[j] == h.jobs[j].(made := h.jobs[j].made + 1, status := next.jobs[j].status)
    requires var one, status := Count([h.jobs[j].packets[h.jobs[j].made]], p), next.jobs[j].status;
             && Count(next.net.asked, p) + Count(PacketsOf(next.shouted), p) + Count(next.refused, p) ==
                Count(h.net.asked, p) + Count(PacketsOf(h.shouted), p) + Count(h.refused, p) + one
             && Count(next.net.failed, p) + Count(next.refused, p) ==
                Count(h.net.failed, p) + Count(h.refused, p) + (if status == Error then one else 0)
             && Count(Held(next.net.waiters), p) ==
                Count(Held(h.net.waiters), p) + (if status == Waiting then one else 0)
    ensures JobsOk(next.jobs) && Tallied(next, p)
  {
    CallMoves(h.jobs, j, next.jobs[j].status, p);
  }

  lemma ShoutTallies(h: Host, st: Step, p: Packet)
    requires JobsOk(h.jobs) && Tallied(h, p) && st.Send? && Possible(h, st) && Broadcasts(h.jobs[st.j])
    ensures JobsOk(Take(h, st).jobs) && Tallied(Take(h, st), p)
  {
    var ask := AskOf(h.jobs[st.j], st.j);
    AskIsPacket(h.jobs[st.j], st.j);
    FramedIsAsk(ask, Ethernet.BROADCAST);
    CountSent(h.shouted, Framed(ask, Ethernet.BROADCAST), p);
    CountSum(h.refused, OfAsk(ask), p);
    CallTallies(h, Take(h, st), st.j, p);
  }

  lemma SendTallies(h: Host, st: Step, p: Packet)
    requires JobsOk(h.jobs) && Tallied(h, p) && st.Send? && Possible(h, st) && !Broadcasts(h.jobs[st.j])
    ensures JobsOk(Take(h, st).jobs) && Tallied(Take(h, st), p)
  {
    var ask := AskOf(h.jobs[st.j], st.j);
    AskIsPacket(h.jobs[st.j], st.j);
    ResolvingCounts(h.net, ask, st.alloc, st.now, st.accepts, p);
    CallTallies(h, Take(h, st), st.j, p);
  }

  lemma ResumeTallies(h: Host, st: Step, p: Packet)
    requires HostOk(h) && Tallied(h, p) && st.Resume? && Possible(h, st)
    requires JobsOk(Take(h, st).jobs)
    ensures Tallied(Take(h, st), p)
  {
    var w := h.net.waiters[st.k];
    assert WaiterOk(h.jobs, w);
    WakeMoves(h.jobs, w.ask.who, Take(h, st).jobs[w.ask.who],
              Wake(h.net.table, w.slot, st.timedOut).1.Found? && st.accepts, p);
    WakingCounts(h.net, st.k, st.timedOut, st.accepts, p);
  }

  lemma TakeTallies(h: Host, st: Step, p: Packet)
    requires HostOk(h) && Tallied(h, p) && Possible(h, st)
    ensures HostOk(Take(h, st)) && Tallied(Take(h, st), p)
  {
    match st
    case Submit(d) => SubmitTallies(h, NewJob(d), p);
    case Send(j, _, _, _) =>
      SendOk(h, st);
      if Broadcasts(h.jobs[j]) {
        ShoutTallies(h, st, p);
      } else {
        SendTallies(h, st, p);
      }
    case Resume(_, _, _) =>
      ResumeOk(h, st);
      ResumeTallies(h, st, p);
    case Listen(_) =>
  }

  lemma {:induction false} RunTallies(h: Host, steps: seq<Step>, p: Packet)
    requires HostOk(h) && Tallied(h, p) && PossibleRun(h, steps)
    ensures HostOk(TakeAll(h, steps)) && Tallied(TakeAll(h, steps), p)
    decreases steps
  {
    if steps != [] {
      TakeTallies(h, steps[0], p);
      RunTallies(Take(h, steps[0]), steps[1..], p);
    }
  }

  // ---- the main results ----------------------------------------------------------------------

  function Idle(size: nat, start: int): Host
  {
    Host(Start(size, start), [], [], [])
  }

  /** Everything any device was handed. */
  function Frames(h: Host): seq<Sent>
  {
    h.net.sent + h.net.direct + h.net.woken + h.shouted
  }

  /** The steps include a received message from this sender. */
  predicate Heard(steps: seq<Step>, pa: IpAddr, ha: MacAddr)
  {
    exists st :: st in steps && st.Listen? && st.a.RxUpdate? && st.a.msg.spa == pa && st.a.msg.sha == ha
  }

  predicate HeardFromSome(steps: seq<Step>, ha: MacAddr)
  {
    exists st :: st in steps && st.Listen? && st.a.RxUpdate? && st.a.msg.sha == ha
  }

  /** What a step is to the ARP cache, if it is anything. */
  function Below(h: Host, st: Step): Option<Action>
    requires Possible(h, st)
  {
    match st
    case Submit(_) => None
    case Send(j, alloc, now, accepts) =>
      if Broadcasts(h.jobs[j]) then None else Some(Resolving(AskOf(h.jobs[j], j), alloc, now, accepts))
    case Resume(k, timedOut, accepts) => Some(Waking(k, timedOut, accepts))
    case Listen(a) => Some(a)
  }

  lemma BelowIsStep(h: Host, st: Step)
    requires Possible(h, st)
    ensures match Below(h, st)
            case None => Take(h, st).net == h.net
            case Some(a) => Enabled(h.net, a) && Take(h, st).net == Act(h.net, a) && (a.RxUpdate? ==> st == Listen(a))
  {
  }

  lemma RunCons(s: System, a: Action, rest: seq<Action>)
    requires Enabled(s, a) && EnabledRun(Act(s, a), rest)
    ensures EnabledRun(s, [a] + rest) && Run(s, [a] + rest) == Run(Act(s, a), rest)
  {
    assert ([a] + rest)[1..] == rest;
  }

  /** Seen from the ARP cache, a run of ip_tx threads is a run of its locked sections. */
  lemma {:induction false} BelowIsRun(h: Host, steps: seq<Step>) returns (acts: seq<Action>)
    requires PossibleRun(h, steps)
    ensures EnabledRun(h.net, acts) && Run(h.net, acts) == TakeAll(h, steps).net
    ensures forall a :: a in acts && a.RxUpdate? ==> Listen(a) in steps
    decreases steps
  {
    acts := [];
    if steps != [] {
      acts := BelowIsRun(Take(h, steps[0]), steps[1..]);
      BelowIsStep(h, steps[0]);
      match Below(h, steps[0])
      case None =>
      case Some(a) =>
        RunCons(h.net, a, acts);
        acts := [a] + acts;
    }
  }

  lemma CountFrames(h: Host, p: Packet)
    ensures Count(PacketsOf(Frames(h)), p) == Count(PacketsOf(h.net.sent), p) + Count(PacketsOf(h.net.direct), p) +
                                              Count(PacketsOf(h.net.woken), p) + Count(PacketsOf(h.shouted), p)
  {
    CountSent(h.net.sent + h.net.direct + h.net.woken, h.shouted, p);
    CountSent(h.net.sent + h.net.direct, h.net.woken, p);
    CountSent(h.net.sent, h.net.direct, p);
  }

  lemma AnnouncedIsHeard(steps: seq<Step>, acts: seq<Action>, x: Sent)
    requires forall a :: a in acts && a.RxUpdate? ==> Listen(a) in steps
    ensures Announced(acts, x.nexthop, x.ha) ==> Heard(steps, x.nexthop, x.ha)
    ensures AnnouncedBySome(acts, x.ha) ==> HeardFromSome(steps, x.ha)
  {
    if Announced(acts, x.nexthop, x.ha) {
      var a :| a in acts && a.RxUpdate? && a.msg.spa == x.nexthop && a.msg.sha == x.ha;
      assert Listen(a).a == a;
    }
    if AnnouncedBySome(acts, x.ha) {
      var a :| a in acts && a.RxUpdate? && a.msg.sha == x.ha;
      assert Listen(a).a == a;
    }
  }

  /** Only broadcast datagrams bypass ARP, and they go to the broadcast hardware address. */
  predicate Routed(h: Host)
  {
    && (forall p :: p in h.net.asked ==> p.nexthop != [255, 255, 255, 255])
    && (forall x :: x in h.shouted ==> x.nexthop == [255, 255, 255, 255] && x.ha == [255, 255, 255, 255, 255, 255])
  }

  lemma TakeRouted(h: Host, st: Step)
    requires JobsOk(h.jobs) && Routed(h) && Possible(h, st)
    ensures Routed(Take(h, st))
  {
  }

  lemma {:induction false} RunRouted(h: Host, steps: seq<Step>, p: Packet)
    requires HostOk(h) && Tallied(h, p) && Routed(h) && PossibleRun(h, steps)
    ensures Routed(TakeAll(h, steps))
    decreases steps
  {
    if steps != [] {
      TakeTallies(h, steps[0], p);
      TakeRouted(h, steps[0]);
      RunRouted(Take(h, steps[0]), steps[1..], p);
    }
  }

  lemma SentIsCounted(sent: seq<Sent>, x: Sent)
    requires x in sent
    ensures Count(PacketsOf(sent), Packet(x.dev, x.nexthop, x.bytes)) > 0
  {
    var k :| 0 <= k < |sent| && sent[k] == x;
    assert PacketsOf(sent)[k] == Packet(x.dev, x.nexthop, x.bytes);
    CountIn(PacketsOf(sent), Packet(x.dev, x.nexthop, x.bytes));
  }

  /** What leaves through ARP was asked of it, so it is not a broadcast. */
  lemma ArpFramesAreUnicast(size: nat, start: int, acts: seq<Action>, x: Sent)
    requires EnabledRun(Start(size, start), acts)
    requires var s := Run(Start(size, start), acts); x in s.sent + s.direct + s.woken
    ensures Packet(x.dev, x.nexthop, x.bytes) in Run(Start(size, start), acts).asked
  {
    var s, p := Run(Start(size, start), acts), Packet(x.dev, x.nexthop, x.bytes);
    PacketConservation(size, start, acts, p);
    if x in s.sent {
      SentIsCounted(s.sent, x);
    } else if x in s.direct {
      SentIsCounted(s.direct, x);
    } else {
      SentIsCounted(s.woken, x);
    }
    CountIn(s.asked, p);
  }

  lemma BroadcastsAreShouted(size: nat, start: int, steps: seq<Step>, x: Sent)
    requires PossibleRun(Idle(size, start), steps) && x in Frames(TakeAll(Idle(size, start), steps))
    ensures x in TakeAll(Idle(size, start), steps).shouted <==> x.nexthop == [255, 255, 255, 255]
    ensures x.nexthop == [255, 255, 255, 255] ==> x.ha == [255, 255, 255, 255, 255, 255]
  {
    var h0, h := Idle(size, start), TakeAll(Idle(size, start), steps);
    RunRouted(h0, steps, Packet(x.dev, x.nexthop, x.bytes));
    if x !in h.shouted {
      var acts := BelowIsRun(h0, steps);
      ArpFramesAreUnicast(size, start, acts, x);
    }
  }

  /**
   * Over every interleaving of any number of ip_tx calls with arp_rx, patrols and timeouts, copy for copy: each packet
   * ip_tx has cut and begun to send is with its waiting thread, is the one its thread reports as an error, waits in the
   * ARP table, was discarded there, or was handed to a device; and the calls that failed are those reported. Frames of
   * packets found or saved go to a hardware address announced by the destination, those of woken threads to one
   * announced by some host, or to the all-zero one, and broadcasts to the broadcast address.
   */
  lemma EveryPacketAccounted(size: nat, start: int, steps: seq<Step>, p: Packet)
    requires PossibleRun(Idle(size, start), steps)
    ensures var h := TakeAll(Idle(size, start), steps);
            && JobsOk(h.jobs)
            && Tally(h.jobs, Called, p) ==
               Tally(h.jobs, Waits, p) + Tally(h.jobs, Fails, p) +
               Count(Pending(h.net.table), p) + Count(h.net.dropped, p) + Count(PacketsOf(Frames(h)), p)
            && Tally(h.jobs, Fails, p) == Count(h.net.failed, p) + Count(h.refused, p)
            && (forall x :: x in h.net.sent + h.net.direct ==> Heard(steps, x.nexthop, x.ha))
            && (forall x :: x in h.net.woken ==> x.ha == ANY || HeardFromSome(steps, x.ha))
            && (forall x :: x in Frames(h) && x.nexthop == [255, 255, 255, 255] ==>
                  x in h.shouted && x.ha == [255, 255, 255, 255, 255, 255])
  {
    var h0 := Idle(size, start);
    var h := TakeAll(h0, steps);
    RunTallies(h0, steps, p);
    var acts := BelowIsRun(h0, steps);
    PacketConservation(size, start, acts, p);
    CountFrames(h, p);
    forall x | x in h.net.sent + h.net.direct
      ensures Heard(steps, x.nexthop, x.ha)
    {
      AnnouncedIsHeard(steps, acts, x);
    }
    forall x | x in h.net.woken && x.ha != ANY
      ensures HeardFromSome(steps, x.ha)
    {
      AnnouncedIsHeard(steps, acts, x);
    }
    forall x | x in Frames(h) && x.nexthop == [255, 255, 255, 255]
      ensures x in h.shouted && x.ha == [255, 255, 255, 255, 255, 255]
    {
      BroadcastsAreShouted(size, start, steps, x);
    }
  }

  predicate Faithful(jobs: seq<Job>)
  {
    forall j :: 0 <= j < |jobs| ==> jobs[j].packets == PacketsFor(jobs[j].d)
  }

  lemma {:induction false} RunFaithful(h: Host, steps: seq<Step>)
    requires PossibleRun(h, steps) && Faithful(h.jobs)
    ensures Faithful(TakeAll(h, steps).jobs)
    decreases steps
  {
    if steps != [] {
      RunFaithful(Take(h, steps[0]), steps[1..]);
    }
  }

  lemma {:induction false} CountIn(ps: seq<Packet>, p: Packet)
    ensures Count(ps, p) > 0 <==> p in ps
  {
    if ps != [] {
      CountIn(ps[1..], p);
    }
  }

  lemma {:induction false} TalliedJob(jobs: seq<Job>, p: Packet) returns (j: nat)
    requires JobsOk(jobs) && Tally(jobs, Called, p) > 0
    ensures j < |jobs| && p in Of(jobs[j], Called)
  {
    CountIn(Of(jobs[0], Called), p);
    if p in Of(jobs[0], Called) {
      j := 0;
    } else {
      var i := TalliedJob(jobs[1..], p);
      j := i + 1;
    }
  }

  /** No frame is invented: whatever a device is handed is a piece of a datagram that some thread has begun to send. */
  lemma EveryFrameIsAPiece(size: nat, start: int, steps: seq<Step>, x: Sent) returns (j: nat, i: nat)
    requires PossibleRun(Idle(size, start), steps) && x in Frames(TakeAll(Idle(size, start), steps))
    ensures var h := TakeAll(Idle(size, start), steps);
            && j < |h.jobs| && i < h.jobs[j].made <= |Cut(h.jobs[j].d)|
            && Packet(x.dev, x.nexthop, x.bytes) == Wrapped(h.jobs[j].d, Cut(h.jobs[j].d)[i])
  {
    var h, p := TakeAll(Idle(size, start), steps), Packet(x.dev, x.nexthop, x.bytes);
    EveryPacketAccounted(size, start, steps, p);
    RunFaithful(Idle(size, start), steps);
    SentIsCounted(Frames(h), x);
    j := TalliedJob(h.jobs, p);
    i :| 0 <= i < h.jobs[j].made && h.jobs[j].packets[i] == p;
  }

  /** And a host that hears the frame and is its destination understands it as that piece. */
  lemma FrameBringsPiece(size: nat, start: int, steps: seq<Step>, x: Sent, from: MacAddr, host: Delivery.Host)
    returns (d: Datagram, p: Ip.Piece)
    requires PossibleRun(Idle(size, start), steps) && x in Frames(TakeAll(Idle(size, start), steps))
    requires forall st :: st in steps && st.Submit? ==> st.d.cap <= Delivery.CAPACITY
    requires Delivery.Configured(host) && Delivery.Hears(host, x.ha) && Ip.Accepts(host.iface, x.nexthop)
    ensures Submit(d) in steps && p in Cut(d) && d.w.dst == x.nexthop
    ensures var frame := Ethernet.Frame(x.ha, from, Ethernet.TYPE_IP, x.bytes);
            && Delivery.FrameSane(host, frame)
            && Delivery.Meaning(host, frame) ==
               if p.offset == 0 then Ip.Direct(d.w.protocol, p.data, d.w.src, d.w.dst)
               else Ip.Collect(Ip.FragmentOf(Delivery.KeyOf(host, d.w), p.offset, p.data))
  {
    var j, i := EveryFrameIsAPiece(size, start, steps, x);
    d := TakeAll(Idle(size, start), steps).jobs[j].d;
    p := Cut(d)[i];
    JobsAreSubmitted(Idle(size, start), steps, j);
    Delivery.CarrierArrives(d.e, from, x.ha, host, d.w, p, Ethernet.Frame(x.ha, from, Ethernet.TYPE_IP, x.bytes));
  }

  lemma {:induction false} JobsAreSubmitted(h: Host, steps: seq<Step>, j: nat)
    requires PossibleRun(h, steps) && j < |TakeAll(h, steps).jobs|
    ensures |h.jobs| <= |TakeAll(h, steps).jobs|
    ensures if j < |h.jobs| then TakeAll(h, steps).jobs[j].d == h.jobs[j].d
            else Submit(TakeAll(h, steps).jobs[j].d) in steps
    decreases steps
  {
    if steps != [] {
      JobsAreSubmitted(Take(h, steps[0]), steps[1..], j);
    }
  }
}
