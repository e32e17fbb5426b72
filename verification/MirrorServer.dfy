/** The mirror server's connections. Every section of code that holds the lock is one atomic step;
    steps of any number of threads interleave freely. A packet is admitted under the lock and handed
    to the transport outside it, so the order here is the order of admission. */
module MirrorServer {
  import opened Bytes
  import opened MirrorProtocol

  const MAX_IN_FLIGHT: nat := 4 * 1024 * 1024

  type Key = nat

  // ---------------------------------------------------------------- the state machine

  /** `pending` holds the sizes of the packets admitted and not yet completed, `log` the indices, in
      the order of admission, of all packets ever admitted. */
  datatype ClientView = ClientView(inFlight: int, primed: bool, pending: seq<nat>, log: seq<nat>)

  /** Every client ever accepted, attached or not, by its number; and every packet ever offered. */
  datatype View = View(connections: map<Key, nat>, clients: seq<ClientView>, offered: seq<PacketType>)

  datatype Step =
    | Accept(key: Key)
    | Send(kind: PacketType, size: nat)
    | Complete(client: nat, i: nat)
    | Remove(key: Key)
    | Stop

  const START := View(map[], [], [])
  const NEW_CLIENT := ClientView(0, false, [], [])

  /** Whether a client takes a packet. */
  predicate Admits(c: ClientView, kind: PacketType) {
    (kind == Config || c.primed) && c.inFlight <= MAX_IN_FLIGHT
  }

  /** A client after a packet was offered to it: packet number `n`, of `size` bytes. */
  function Offered(c: ClientView, kind: PacketType, size: nat, n: nat): ClientView {
    var primed := kind == Config || c.primed;
    if Admits(c, kind) then ClientView(c.inFlight + size, primed, c.pending + [size], c.log + [n])
    else c.(primed := primed)
  }

  predicate Attached(v: View, client: nat) {
    client in v.connections.Values
  }

  function Without<T>(s: seq<T>, i: nat): (r: seq<T>)
    requires i < |s|
    ensures |r| == |s| - 1
  {
    s[..i] + s[i + 1..]
  }

  function Completed(c: ClientView, i: nat): ClientView
    requires i < |c.pending|
  {
    c.(inFlight := c.inFlight - c.pending[i], pending := Without(c.pending, i))
  }

  /** A completion belongs to a packet that was admitted; everything else can happen at any time. */
  predicate Enabled(v: View, step: Step) {
    step.Complete? ==> step.client < |v.clients| && step.i < |v.clients[step.client].pending|
  }

  function Apply(v: View, step: Step): View
    requires Enabled(v, step)
  {
    match step
    case Accept(key) => v.(connections := v.connections[key := |v.clients|], clients := v.clients + [NEW_CLIENT])
    case Send(kind, size) =>
      v.(clients := seq(|v.clients|, i requires 0 <= i < |v.clients| =>
                      if Attached(v, i) then Offered(v.clients[i], kind, size, |v.offered|) else v.clients[i]),
         offered := v.offered + [kind])
    case Complete(client, i) => v.(clients := v.clients[client := Completed(v.clients[client], i)])
    case Remove(key) => v.(connections := v.connections - {key})
    case Stop => v.(connections := map[])
  }

  /** A run the server can take from `v`. */
  predicate Possible(v: View, steps: seq<Step>)
    decreases |steps|
  {
    steps == [] || (Enabled(v, steps[0]) && Possible(Apply(v, steps[0]), steps[1..]))
  }

  function Run(v: View, steps: seq<Step>): View
    requires Possible(v, steps)
    decreases |steps|
  {
    if steps == [] then v else Run(Apply(v, steps[0]), steps[1..])
  }

  // ---------------------------------------------------------------- what every run keeps

  function Sum(s: seq<nat>): (n: nat)
    ensures forall i :: 0 <= i < |s| ==> s[i] <= n
  {
    if s == [] then 0 else s[0] + Sum(s[1..])
  }

  lemma {:induction false} SumAppend(s: seq<nat>, t: seq<nat>)
    ensures Sum(s + t) == Sum(s) + Sum(t)
  {
    if s == [] {
      assert s + t == t;
    } else {
      assert (s + t)[1..] == s[1..] + t;
      SumAppend(s[1..], t);
    }
  }

  lemma SumWithout(s: seq<nat>, i: nat)
    requires i < |s|
    ensures Sum(Without(s, i)) == Sum(s) - s[i]
  {
    assert s == s[..i] + s[i..];
    SumAppend(s[..i], s[i..]);
    SumAppend(s[..i], s[i + 1..]);
  }

  predicate Increasing(log: seq<nat>, below: nat) {
    && (forall i, j :: 0 <= i < j < |log| ==> log[i] < log[j])
    && (forall i :: 0 <= i < |log| ==> log[i] < below)
  }

  /** A client that is not primed has nothing in flight, and being primed is having been given a packet;
      the first packet a client was ever given is a config packet; its packets are some of those
      offered, in order; the counter is the sum of what is pending. */
  predicate Sound(c: ClientView, offered: seq<PacketType>) {
    && (!c.primed ==> c.pending == [])
    && (c.primed <==> c.log != [])
    && Increasing(c.log, |offered|)
    && (c.log != [] ==> offered[c.log[0]] == Config)
    && c.inFlight == Sum(c.pending)
  }

  predicate AllSound(v: View) {
    && (forall i :: 0 <= i < |v.clients| ==> Sound(v.clients[i], v.offered))
    && (forall k :: k in v.connections ==> v.connections[k] < |v.clients|)
    && (forall j, k :: j in v.connections && k in v.connections && v.connections[j] == v.connections[k] ==> j == k)
  }

  predicate Bounded(v: View, largest: nat) {
    forall i :: 0 <= i < |v.clients| ==> v.clients[i].inFlight <= MAX_IN_FLIGHT + largest
  }

  lemma OfferedKeeps(c: ClientView, kind: PacketType, size: nat, offered: seq<PacketType>)
    requires Sound(c, offered)
    ensures Sound(Offered(c, kind, size, |offered|), offered + [kind])
  {
    var one: seq<nat> := [size];
    assert |one[1..]| == 0;
    SumAppend(c.pending, one);
  }

  lemma CompletedKeeps(c: ClientView, i: nat, offered: seq<PacketType>)
    requires Sound(c, offered) && i < |c.pending|
    ensures Sound(Completed(c, i), offered)
  {
    SumWithout(c.pending, i);
  }

  lemma StepKeeps(v: View, step: Step)
    requires AllSound(v) && Enabled(v, step)
    ensures AllSound(Apply(v, step))
  {
    hide Sound, Offered, Completed;
    match step
    case Accept(key) => assert Sound(NEW_CLIENT, v.offered) by { NewIsSound(v.offered); }
    case Send(kind, size) =>
      var next := Apply(v, step);
      forall i | 0 <= i < |next.clients| ensures Sound(next.clients[i], next.offered) {
        OfferedKeeps(v.clients[i], kind, size, v.offered);
        MoreOffered(v.clients[i], v.offered, kind);
      }
    case Complete(client, i) => CompletedKeeps(v.clients[client], i, v.offered);
    case Remove(key) =>
    case Stop =>
  }

  lemma NewIsSound(offered: seq<PacketType>)
    ensures Sound(NEW_CLIENT, offered)
  {
  }

  lemma MoreOffered(c: ClientView, offered: seq<PacketType>, kind: PacketType)
    requires Sound(c, offered)
    ensures Sound(c, offered + [kind])
  {
  }

  /** Admission safety and accounting hold in every state the server can reach, under every
      interleaving of accepting, sending, completing, removing and stopping. */
  lemma {:induction false} RunKeeps(v: View, steps: seq<Step>)
    requires AllSound(v) && Possible(v, steps)
    ensures AllSound(Run(v, steps))
    decreases |steps|
  {
    hide AllSound, Apply;
    if steps != [] {
      StepKeeps(v, steps[0]);
      RunKeeps(Apply(v, steps[0]), steps[1..]);
    }
  }

  lemma EveryRunIsSound(steps: seq<Step>)
    requires Possible(START, steps)
    ensures AllSound(Run(START, steps))
    ensures forall i :: 0 <= i < |Run(START, steps).clients| ==> Run(START, steps).clients[i].inFlight >= 0
  {
    RunKeeps(START, steps);
    var v := Run(START, steps);
    forall i | 0 <= i < |v.clients| ensures v.clients[i].inFlight >= 0 {
      assert Sound(v.clients[i], v.offered);
    }
  }

  /** No client ever has more in flight than the limit and one packet. */
  lemma {:induction false} RunIsBounded(v: View, steps: seq<Step>, largest: nat)
    requires AllSound(v) && Possible(v, steps) && Bounded(v, largest)
    requires forall s :: s in steps && s.Send? ==> s.size <= largest
    ensures Bounded(Run(v, steps), largest)
    decreases |steps|
  {
    hide AllSound, Sound;
    if steps != [] {
      StepKeeps(v, steps[0]);
      StepIsBounded(v, steps[0], largest);
      RunIsBounded(Apply(v, steps[0]), steps[1..], largest);
    }
  }

  lemma StepIsBounded(v: View, step: Step, largest: nat)
    requires AllSound(v) && Enabled(v, step) && Bounded(v, largest)
    requires step.Send? ==> step.size <= largest
    ensures Bounded(Apply(v, step), largest)
  {
  }

  /** A config packet reaches every attached client that has had none: such a client has nothing in
      flight in any reachable state. */
  lemma PrimingIsNeverDropped(steps: seq<Step>, client: nat)
    requires Possible(START, steps)
    requires Attached(Run(START, steps), client) && client < |Run(START, steps).clients|
      && !Run(START, steps).clients[client].primed
    ensures Admits(Run(START, steps).clients[client], Config)
  {
    EveryRunIsSound(steps);
    assert Sound(Run(START, steps).clients[client], Run(START, steps).offered);
  }

  /** A config packet offered to an attached client is dropped exactly when the client is over the
      limit, and then the client had been primed before. */
  lemma ConfigDropped(steps: seq<Step>, client: nat, size: nat)
    requires Possible(START, steps)
    requires Attached(Run(START, steps), client) && client < |Run(START, steps).clients|
    ensures var v := Run(START, steps);
            var c, next := v.clients[client], Apply(v, Send(Config, size)).clients[client];
            && next.primed
            && (next.log == c.log <==> c.inFlight > MAX_IN_FLIGHT)
            && (c.inFlight > MAX_IN_FLIGHT ==> c.primed)
  {
    EveryRunIsSound(steps);
    assert Sound(Run(START, steps).clients[client], Run(START, steps).offered);
  }

  lemma {:induction false} RunSnoc(v: View, steps: seq<Step>, step: Step)
    requires Possible(v, steps + [step])
    ensures Possible(v, steps) && Enabled(Run(v, steps), step)
    ensures Run(v, steps + [step]) == Apply(Run(v, steps), step)
    decreases |steps|
  {
    hide Apply, Enabled;
    var all := steps + [step];
    if steps == [] {
      assert all[0] == step && |all[1..]| == 0;
    } else {
      assert all[0] == steps[0] && all[1..] == steps[1..] + [step];
      RunSnoc(Apply(v, steps[0]), steps[1..], step);
    }
  }

  /** What happens to one client when a packet is sent after any run: a client that is attached, that has been given
      a packet before or is offered a config packet now, and that has at most 4 MiB pending is given it, and no
      other client is. */
  lemma GivenExactly(steps: seq<Step>, kind: PacketType, size: nat, client: nat)
    requires Possible(START, steps + [Send(kind, size)])
    ensures Possible(START, steps)
    ensures var v, next := Run(START, steps), Run(START, steps + [Send(kind, size)]);
            && |next.clients| == |v.clients| && next.offered == v.offered + [kind]
            && (client < |v.clients| ==>
                  var c, c' := v.clients[client], next.clients[client];
                  if (exists key :: key in v.connections && v.connections[key] == client)
                     && (kind == Config || c.log != []) && Sum(c.pending) <= 4_194_304
                  then c'.log == c.log + [|v.offered|] && c'.pending == c.pending + [size]
                  else c'.log == c.log && c'.pending == c.pending)
  {
    hide Sum, Possible, Run;
    RunSnoc(START, steps, Send(kind, size));
    EveryRunIsSound(steps);
    var v := Run(START, steps);
    if client < |v.clients| {
      assert Sound(v.clients[client], v.offered);
      assert Attached(v, client) <==> exists key :: key in v.connections && v.connections[key] == client;
    }
  }

  /** No other step gives any client a packet or offers one, and only a completion changes what is pending: it
      takes one packet out of one client's. */
  lemma OthersGiveNothing(steps: seq<Step>, step: Step, client: nat)
    requires Possible(START, steps + [step]) && !step.Send?
    ensures Possible(START, steps)
    ensures var v, next := Run(START, steps), Run(START, steps + [step]);
            && next.offered == v.offered
            && |next.clients| == (if step.Accept? then |v.clients| + 1 else |v.clients|)
            && (step.Accept? ==> next.clients[|v.clients|].log == [] && next.clients[|v.clients|].pending == [])
            && (client < |v.clients| ==>
                  var c, c' := v.clients[client], next.clients[client];
                  && c'.log == c.log
                  && if step.Complete? && step.client == client
                     then step.i < |c.pending| && c'.pending == c.pending[..step.i] + c.pending[step.i + 1..]
                     else c'.pending == c.pending)
  {
    hide Possible, Run;
    RunSnoc(START, steps, step);
  }

  /** The number of clients a run accepts. */
  function Accepts(steps: seq<Step>): nat {
    if steps == [] then 0
    else Accepts(steps[..|steps| - 1]) + if steps[|steps| - 1].Accept? then 1 else 0
  }

  /** Step `j` accepts a client under the key, and after it the key is not given away, removed, or cleared with all
      others. */
  predicate Holds(steps: seq<Step>, j: nat, key: Key) {
    && j < |steps| && steps[j] == Accept(key)
    && forall i :: j < i < |steps| ==> steps[i] != Accept(key) && steps[i] != Remove(key) && steps[i] != Stop
  }

  /** Who is attached after a run: under each key the client accepted last, unless the key was removed or the
      server stopped since. */
  lemma {:induction false} AttachedExactly(steps: seq<Step>, key: Key)
    requires Possible(START, steps)
    ensures var v := Run(START, steps);
            && |v.clients| == Accepts(steps)
            && (key in v.connections <==> exists j: nat :: Holds(steps, j, key))
            && forall j: nat :: Holds(steps, j, key) ==>
                 key in v.connections && v.connections[key] == Accepts(steps[..j])
    decreases |steps|
  {
    hide Possible, Run, Holds;
    if steps == [] {
      NothingYet(key);
    } else {
      var before, step := steps[..|steps| - 1], steps[|steps| - 1];
      assert before + [step] == steps;
      RunSnoc(START, before, step);
      AttachedExactly(before, key);
      forall j: nat ensures Holds(steps, j, key) <==>
                      if j == |before| then step == Accept(key)
                      else Holds(before, j, key) && step != Accept(key) && step != Remove(key) && step != Stop
        ensures (Holds(before, j, key) ==> j < |before|) && (Holds(steps, j, key) ==> j <= |before|)
      {
        HoldsNext(before, step, j, key);
      }
      forall j: nat | Holds(steps, j, key)
        ensures key in Run(START, steps).connections && Run(START, steps).connections[key] == Accepts(steps[..j])
      {
        TakeOfTake(before, step, j, key);
      }
      if step == Accept(key) {
        assert Holds(steps, |before|, key);
      } else if key in Run(START, steps).connections {
        assert key in Run(START, before).connections;
        var j: nat :| Holds(before, j, key);
        assert Holds(steps, j, key);
      }
    }
  }

  lemma NothingYet(key: Key)
    ensures Possible(START, []) && Run(START, []) == START
    ensures forall j: nat :: !Holds([], j, key)
  {
  }

  lemma HoldsNext(before: seq<Step>, step: Step, j: nat, key: Key)
    ensures Holds(before + [step], j, key) <==>
      if j == |before| then step == Accept(key)
      else Holds(before, j, key) && step != Accept(key) && step != Remove(key) && step != Stop
    ensures Holds(before, j, key) ==> j < |before|
    ensures Holds(before + [step], j, key) ==> j <= |before|
  {
    var steps := before + [step];
    assert steps[|before|] == step;
    assert forall i :: 0 <= i < |before| ==> steps[i] == before[i];
  }

  lemma TakeOfTake(before: seq<Step>, step: Step, j: nat, key: Key)
    requires Holds(before + [step], j, key)
    ensures j <= |before| && (before + [step])[..j] == before[..j]
  {
  }

  /** `m` frames of one size. */
  function Frames(size: nat, m: nat): (steps: seq<Step>)
    ensures |steps| == m
  {
    seq(m, _ => Send(Frame, size))
  }

  /** One attached client, which has had a config packet. */
  predicate OnePrimed(v: View) {
    v.connections == map[0 := 0] && |v.clients| == 1 && v.clients[0].primed && Sound(v.clients[0], v.offered)
  }

  /** A packet offered to it. */
  lemma OneSend(v: View, kind: PacketType, size: nat)
    requires OnePrimed(v)
    ensures var next := Apply(v, Send(kind, size));
            && OnePrimed(next) && next.offered == v.offered + [kind]
            && next.clients[0] == Offered(v.clients[0], kind, size, |v.offered|)
  {
    assert 0 in v.connections && v.connections[0] in v.connections.Values;
    OfferedKeeps(v.clients[0], kind, size, v.offered);
  }

  lemma {:induction false} FramesPileUp(v: View, size: nat, m: nat, last: Step)
    requires OnePrimed(v) && last.Send? && last.kind == Config
    requires m > 0 ==> v.clients[0].inFlight + (m - 1) * size <= MAX_IN_FLIGHT
    requires v.clients[0].inFlight + m * size > MAX_IN_FLIGHT
    ensures var steps := Frames(size, m) + [last];
            && Possible(v, steps)
            && var after := Run(v, steps);
               && |after.clients| == 1 && |after.offered| == |v.offered| + m + 1
               && after.offered[|v.offered| + m] == Config && |v.offered| + m !in after.clients[0].log
               && after.clients[0].inFlight == v.clients[0].inFlight + m * size
    decreases m
  {
    hide Sound, Sum;
    var steps := Frames(size, m) + [last];
    if m == 0 {
      assert steps == [last] && steps[1..] == [];
      OneSend(v, Config, last.size);
      LogBelow(v.clients[0], v.offered);
    } else {
      assert steps[1..] == Frames(size, m - 1) + [last];
      OneSend(v, Frame, size);
      Smaller(m, size);
      FramesPileUp(Apply(v, Send(Frame, size)), size, m - 1, last);
    }
  }

  lemma Smaller(m: nat, size: nat)
    requires m > 0
    ensures m * size == size + (m - 1) * size && m > 1 ==> (m - 1) * size == size + (m - 2) * size
    ensures 0 <= (m - 1) * size
  {
  }

  lemma LogBelow(c: ClientView, offered: seq<PacketType>)
    requires Sound(c, offered)
    ensures |offered| !in c.log
  {
  }

  /** And that happens with packets of any size: enough frames behind a first config packet, and a second one
      does not reach the client. */
  lemma ConfigCanBeDropped(config: nat, frame: nat)
    requires config <= MAX_IN_FLIGHT && 0 < frame
    ensures var m := (MAX_IN_FLIGHT - config) / frame + 1;
            var steps := [Accept(0), Send(Config, config)] + (Frames(frame, m) + [Send(Config, config)]);
            && Possible(START, steps)
            && var v := Run(START, steps);
               && |v.clients| == 1 && v.clients[0].inFlight == config + m * frame <= MAX_IN_FLIGHT + frame
               && |v.offered| == m + 2 && v.offered[m + 1] == Config && m + 1 !in v.clients[0].log
  {
    hide Sound, Sum;
    var m := (MAX_IN_FLIGHT - config) / frame + 1;
    var rest := Frames(frame, m) + [Send(Config, config)];
    var steps := [Accept(0), Send(Config, config)] + rest;
    assert steps[1..][1..] == rest;
    var v1, v2 := Apply(START, Accept(0)), Apply(Apply(START, Accept(0)), Send(Config, config));
    FirstConfig(config);
    Quotient(MAX_IN_FLIGHT - config, frame);
    FramesPileUp(v2, frame, m, Send(Config, config));
    assert steps[0] == Accept(0) && steps[1..][0] == Send(Config, config);
  }

  lemma FirstConfig(config: nat)
    ensures var v := Apply(Apply(START, Accept(0)), Send(Config, config));
            OnePrimed(v) && v.clients[0].inFlight == config && v.offered == [Config]
  {
    var v := Apply(START, Accept(0));
    assert 0 in v.connections && v.connections[0] in v.connections.Values;
    NewIsSound([]);
    OfferedKeeps(NEW_CLIENT, Config, config, []);
  }

  lemma Quotient(n: nat, d: nat)
    requires 0 < d
    ensures 0 <= n / d && n / d * d <= n < (n / d + 1) * d <= n + d
  {
  }

  /** A client taken out of the dictionary is never given another packet. */
  lemma {:induction false} DetachedGetsNothing(v: View, steps: seq<Step>, client: nat)
    requires AllSound(v) && Possible(v, steps) && client < |v.clients| && !Attached(v, client)
    ensures var after := Run(v, steps);
            client < |after.clients| && !Attached(after, client) && after.clients[client].log == v.clients[client].log
    decreases |steps|
  {
    hide Sound;
    if steps != [] {
      StepKeeps(v, steps[0]);
      StaysDetached(v, steps[0], client);
      DetachedGetsNothing(Apply(v, steps[0]), steps[1..], client);
    }
  }

  lemma StaysDetached(v: View, step: Step, client: nat)
    requires AllSound(v) && Enabled(v, step) && client < |v.clients| && !Attached(v, client)
    ensures var next := Apply(v, step);
            client < |next.clients| && !Attached(next, client) && next.clients[client].log == v.clients[client].log
  {
  }

  // ---------------------------------------------------------------- the server

  /** The packet `send` puts together. */
  method Assemble(kind: PacketType, payload: seq<byte>, width: int, height: int, flags: byte, timestamp: u64)
    returns (packet: seq<byte>)
    requires |payload| < TWO32
    ensures packet == Wire(Packet(kind, flags, Clamped(width), Clamped(height), timestamp, payload))
  {
    packet := EncodeHeader(Header(kind, flags, Clamped(width), Clamped(height), timestamp, |payload|));
    packet := packet + payload;
  }

  class Client {
    var inFlight: int
    var primed: bool
    ghost const number: nat
    ghost var pending: seq<nat>
    ghost var log: seq<nat>

    constructor (ghost number: nat)
      ensures this.number == number && Shown() == NEW_CLIENT
    {
      this.number := number;
      inFlight, primed, pending, log := 0, false, [], [];
    }

    ghost function Shown(): ClientView
      reads this
    {
      ClientView(inFlight, primed, pending, log)
    }

    /** The body of the loop in `send` for one client. */
    method Offer(kind: PacketType, size: nat, ghost n: nat) returns (admitted: bool)
      modifies this
      ensures admitted == Admits(old(Shown()), kind)
      ensures Shown() == Offered(old(Shown()), kind, size, n)
    {
      if kind == Config {
        primed := true;
      } else if !primed {
        return false;
      }
      if inFlight > MAX_IN_FLIGHT {
        return false;
      }
      inFlight := inFlight + size;
      pending := pending + [size];
      log := log + [n];
      admitted := true;
    }
  }

  ghost function Views(clients: seq<Client>): (r: seq<ClientView>)
    reads clients
    ensures |r| == |clients|
    ensures forall i :: 0 <= i < |r| ==> r[i] == clients[i].Shown()
  {
    seq(|clients|, i requires 0 <= i < |clients| reads clients => clients[i].Shown())
  }

  class Server {
    var connections: map<Key, Client>
    ghost var clients: seq<Client>
    ghost var offered: seq<PacketType>

    ghost predicate Valid()
      reads `connections, `clients
    {
      && (forall i :: 0 <= i < |clients| ==> clients[i].number == i)
      && (forall k :: k in connections ==>
            connections[k].number < |clients| && clients[connections[k].number] == connections[k])
      && (forall j, k :: j in connections && k in connections && connections[j] == connections[k] ==> j == k)
    }

    ghost function Shown(): View
      reads this, clients
    {
      View(map k | k in connections :: connections[k].number,
           Views(clients),
           offered)
    }

    constructor ()
      ensures Valid() && Shown() == START && clients == []
    {
      connections, clients, offered := map[], [], [];
    }

    method Accept(key: Key) returns (client: Client)
      requires Valid()
      modifies this
      ensures Valid() && Shown() == Apply(old(Shown()), Step.Accept(key))
      ensures fresh(client) && clients == old(clients) + [client]
    {
      hide Views;
      ghost var v := Shown();
      ghost var before := connections;
      client := new Client(|clients|);
      connections := connections[key := client];
      clients := clients + [client];
      ShownAfterAccept(v, before, key);
    }

    lemma ShownAfterAccept(v: View, before: map<Key, Client>, key: Key)
      requires |clients| == |v.clients| + 1 && offered == v.offered
      requires forall i :: 0 <= i < |clients| ==> clients[i].number == i
      requires forall i :: 0 <= i < |v.clients| ==> clients[i].Shown() == v.clients[i]
      requires clients[|v.clients|].Shown() == NEW_CLIENT
      requires forall k :: k in before ==> before[k].number < |v.clients| && clients[before[k].number] == before[k]
      requires forall j, k :: j in before && k in before && before[j] == before[k] ==> j == k
      requires v.connections == map k | k in before :: before[k].number
      requires connections == before[key := clients[|v.clients|]]
      ensures Valid() && Shown() == Apply(v, Step.Accept(key))
    {
      hide Views;
      assert Shown().connections == v.connections[key := |v.clients|];
      assert Shown().clients == v.clients + [NEW_CLIENT];
    }

    /** The locked part of `send`: the packet, and the clients it is to be handed to. */
    method Send(kind: PacketType, payload: seq<byte>, width: int, height: int, flags: byte, timestamp: u64)
      returns (packet: seq<byte>, sendList: seq<(Key, Client)>)
      requires Valid() && |payload| < TWO32
      modifies this, clients
      ensures Valid() && clients == old(clients) && connections == old(connections)
      ensures packet == Wire(Packet(kind, flags, Clamped(width), Clamped(height), timestamp, payload))
      ensures Shown() == Apply(old(Shown()), Step.Send(kind, HEADER_SIZE + |payload|))
      ensures Listed(sendList, old(Shown()).clients, {}, kind)
    {
      hide Wire, Offered, Admits, Listed, Reached, Views, Apply, Attached, Clamped;
      ListedStart(kind);
      packet := Assemble(kind, payload, width, height, flags, timestamp);
      ghost var v := Shown();
      ghost var before := v.clients;
      sendList := [];
      var left := connections.Keys;
      while left != {}
        invariant Valid() && left <= connections.Keys && clients == old(clients) && connections == old(connections)
          && offered == old(offered)
        invariant |before| == |clients| && forall i :: 0 <= i < |clients| ==>
          clients[i].Shown() == if Reached(i, left) then Offered(before[i], kind, |packet|, |offered|) else before[i]
        invariant Listed(sendList, before, left, kind)
      {
        var key :| key in left;
        var client := connections[key];
        NextReached(key, left);
        ListedNext(sendList, before, left, kind, key);
        var admitted := client.Offer(kind, |packet|, |offered|);
        if admitted {
          sendList := sendList + [(key, client)];
        }
        left := left - {key};
      }
      offered := offered + [kind];
      ShownAfterSend(v, kind, |packet|);
    }

    /** Client `i` is attached under a key already looked at. */
    ghost predicate Reached(i: nat, left: set<Key>)
      reads `connections
    {
      exists k :: k in connections && k !in left && connections[k].number == i
    }

    lemma NextReached(key: Key, left: set<Key>)
      requires Valid() && key in left && left <= connections.Keys
      ensures !Reached(connections[key].number, left)
      ensures forall i :: Reached(i, left - {key}) <==> Reached(i, left) || i == connections[key].number
    {
    }

    /** Of the keys looked at, the list holds those whose client admits the packet, each once. */
    ghost predicate Listed(sendList: seq<(Key, Client)>, before: seq<ClientView>, left: set<Key>, kind: PacketType)
      reads `connections, `clients
    {
      && Valid() && |before| == |clients|
      && (forall k :: k in connections && k !in left ==>
            ((k, connections[k]) in sendList <==> Admits(before[connections[k].number], kind)))
      && (forall i :: 0 <= i < |sendList| ==>
            sendList[i].0 in connections && sendList[i].0 !in left && connections[sendList[i].0] == sendList[i].1)
      && (forall i, j :: 0 <= i < j < |sendList| ==> sendList[i].0 != sendList[j].0)
    }

    lemma ListedStart(kind: PacketType)
      requires Valid()
      ensures Listed([], Shown().clients, connections.Keys, kind)
      ensures forall i :: !Reached(i, connections.Keys)
    {
    }

    lemma ListedNext(sendList: seq<(Key, Client)>, before: seq<ClientView>, left: set<Key>, kind: PacketType, key: Key)
      requires Listed(sendList, before, left, kind) && key in left && left <= connections.Keys
      ensures connections[key] in clients && connections[key].number < |before|
      ensures Listed(if Admits(before[connections[key].number], kind) then sendList + [(key, connections[key])]
                     else sendList,
                     before, left - {key}, kind)
    {
    }

    lemma ShownAfterSend(v: View, kind: PacketType, size: nat)
      requires Valid() && offered == v.offered + [kind] && |clients| == |v.clients|
      requires v.connections == map k | k in connections :: connections[k].number
      requires forall i :: 0 <= i < |clients| ==>
        clients[i].Shown() == if Reached(i, {}) then Offered(v.clients[i], kind, size, |v.offered|) else v.clients[i]
      ensures Shown() == Apply(v, Step.Send(kind, size))
    {
      hide Offered;
      forall i | 0 <= i < |clients| ensures Reached(i, {}) <==> Attached(v, i) {
        if Attached(v, i) {
          var k :| k in v.connections && v.connections[k] == i;
          assert k in connections && connections[k].number == i;
        }
        if Reached(i, {}) {
          var k :| k in connections && connections[k].number == i;
          assert v.connections[k] == i;
        }
      }
      assert Shown().clients == Apply(v, Step.Send(kind, size)).clients;
    }

    /** The locked part of a send's completion; on an error `Remove` follows as a step of its own. */
    method Complete(client: Client, size: nat, ghost i: nat)
      requires Valid() && client in clients && i < |client.pending| && client.pending[i] == size
      modifies client
      ensures Valid() && Shown() == Apply(old(Shown()), Step.Complete(client.number, i))
    {
      client.inFlight := client.inFlight - size;
      client.pending := Without(client.pending, i);
    }

    /** Takes a client out; the caller cancels its connection outside the lock. */
    method Remove(key: Key) returns (client: Option<Client>)
      requires Valid()
      modifies this
      ensures Valid() && clients == old(clients) && Shown() == Apply(old(Shown()), Step.Remove(key))
      ensures client == if key in old(connections) then Some(old(connections[key])) else None
    {
      hide Views;
      ghost var v := Shown();
      ghost var before := connections;
      client := if key in connections then Some(connections[key]) else None;
      connections := connections - {key};
      assert Shown().clients == v.clients;
      ShownAfterRemove(v, before, key);
    }

    lemma ShownAfterRemove(v: View, before: map<Key, Client>, key: Key)
      requires connections == before - {key} && Shown().clients == v.clients && offered == v.offered
      requires v.connections == map k | k in before :: before[k].number
      ensures Shown() == Apply(v, Step.Remove(key))
    {
      hide Views;
      assert Shown().connections == v.connections - {key};
    }

    method Stop() returns (active: map<Key, Client>)
      requires Valid()
      modifies this
      ensures Valid() && clients == old(clients) && Shown() == Apply(old(Shown()), Step.Stop)
      ensures active == old(connections)
    {
      active := connections;
      connections := map[];
    }

    method HasClients() returns (some: bool)
      requires Valid()
      ensures some <==> exists i :: 0 <= i < |clients| && Attached(Shown(), i)
    {
      some := connections != map[];
      if some {
        ghost var k :| k in connections;
        ghost var i :| 0 <= i < |clients| && clients[i] == connections[k];
        assert k in Shown().connections && Shown().connections[k] == i;
        assert Attached(Shown(), i);
      } else {
        assert Shown().connections == map[] && Shown().connections.Values == {};
      }
    }
  }
}
