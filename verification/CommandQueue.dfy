/** The command queue of MQTTAsync.c: which queued command is taken next, and what that means for the order of
    each client's commands. */
module CommandQueue {
  import opened Sequences
  import opened MqttTypes

  datatype Kind = Connect | Disconnect(internal: bool) | Publish | Subscribe | Unsubscribe

  /** `serial` tells commands apart; no branch reads it. */
  datatype Command = Command(client: nat, kind: Kind, serial: nat)

  /** What the selection loop reads of a client. */
  datatype Status = Status(connected: bool, connect_state: int, writing: bool, inflight: nat)

  datatype Choice = Nothing | Chosen(command: Command)

  predicate IsData(c: Command) {
    c.kind.Publish? || c.kind.Subscribe? || c.kind.Unsubscribe?
  }

  /** The two conditions of the selection loop. */
  predicate Eligible(c: Command, s: Status) {
    && (!IsData(c) || (s.connected && s.connect_state == 0 && !s.writing))
    && !(IsData(c) && s.inflight >= MAX_MSG_ID - 1)
  }

  /** No earlier command of the same client is queued. */
  predicate Oldest(q: seq<Command>, k: nat)
    requires k < |q|
  {
    forall j :: 0 <= j < k ==> q[j].client != q[k].client
  }

  predicate Ready(q: seq<Command>, status: nat -> Status, k: nat)
    requires k < |q|
  {
    Oldest(q, k) && Eligible(q[k], status(q[k].client))
  }

  /** The earliest command that is ready; |q| if there is none. */
  ghost predicate Selected(q: seq<Command>, status: nat -> Status, k: nat) {
    && k <= |q| && (k < |q| ==> Ready(q, status, k))
    && forall j :: 0 <= j < k ==> !Ready(q, status, j)
  }

  // ---------------------------------------------------------------- the queue

  class Queue {
    var commands: seq<Command>

    constructor ()
      ensures commands == []
    {
      commands := [];
    }

    /** `MQTTAsync_addCommand` */
    method AddCommand(c: Command)
      modifies this
      ensures commands == Added(old(commands), c)
      ensures Urgent(c) ==>
        commands != [] && commands[0].client == c.client
        && (c.kind.Connect? ==> commands[0].kind.Connect?) && (c.kind.Disconnect? ==> commands[0].kind.Disconnect?)
      ensures Urgent(c) ==> commands == if HeadIsSame(old(commands), c) then old(commands) else [c] + old(commands)
      ensures !Urgent(c) ==> commands == old(commands) + [c]
    {
      if c.kind.Connect? || (c.kind.Disconnect? && c.kind.internal) {
        if commands == [] || commands[0].client != c.client || !SameType(commands[0].kind, c.kind) {
          commands := [c] + commands;
        }
      } else {
        commands := commands + [c];
      }
    }

    /** The selection loop of `MQTTAsync_processCommand`, with its list of clients to leave alone. */
    method Select(status: nat -> Status) returns (k: nat)
      ensures Selected(commands, status, k)
      ensures k < |commands| ==> CanRun(commands[k], status(commands[k].client))
      ensures forall j :: 0 <= j < k ==>
        CanRun(commands[j], status(commands[j].client)) ==>
          exists i :: 0 <= i < j && commands[i].client == commands[j].client
    {
      var ignored_clients: seq<nat> := [];
      k := 0;
      while k < |commands|
        invariant 0 <= k <= |commands|
        invariant forall j :: 0 <= j < k ==> commands[j].client in ignored_clients && !Ready(commands, status, j)
        invariant forall c :: c in ignored_clients ==> exists j :: 0 <= j < k && commands[j].client == c
      {
        var cmd := commands[k];
        if cmd.client !in ignored_clients {
          var s := status(cmd.client);
          if cmd.kind.Connect? || cmd.kind.Disconnect? || (s.connected && s.connect_state == 0 && !s.writing) {
            if !((cmd.kind.Publish? || cmd.kind.Subscribe? || cmd.kind.Unsubscribe?) && s.inflight >= MAX_MSG_ID - 1) {
              return;
            }
          }
          ignored_clients := ignored_clients + [cmd.client];
        }
        k := k + 1;
      }
    }

    /** Takes the selected command off the queue: the `Process` step of a run. */
    method ProcessCommand(status: nat -> Status) returns (choice: Choice)
      modifies this
      ensures exists k: nat :: Selected(old(commands), status, k) && Processed(old(commands), k) == (commands, choice)
      ensures forall submitted, taken ::
        Step(State(old(commands), submitted, taken), Process(status),
             State(commands, submitted, if choice.Chosen? then taken + [choice.command] else taken))
    {
      var k := Select(status);
      ghost var was := commands;
      choice := Nothing;
      if k < |commands| {
        choice := Chosen(commands[k]);
        commands := commands[..k] + commands[k + 1..];
      }
      assert Selected(was, status, k) && Processed(was, k) == (commands, choice);
    }
  }

  /** A connect, or a disconnect that the client library asks for itself. */
  predicate Urgent(c: Command) {
    c.kind == Connect || c.kind == Disconnect(true)
  }

  /** The head is a command of the same client and type. */
  predicate HeadIsSame(q: seq<Command>, c: Command) {
    q != [] && q[0].client == c.client
    && ((q[0].kind.Connect? && c.kind.Connect?) || (q[0].kind.Disconnect? && c.kind.Disconnect?))
  }

  /** What a command needs to be run at all: connects and disconnects nothing, the others a connection with
      nothing pending on it and a free message id. */
  predicate CanRun(c: Command, s: Status) {
    match c.kind
    case Connect => true
    case Disconnect(_) => true
    case _ => s.connected && s.connect_state == 0 && !s.writing && s.inflight < 65534
  }

  predicate SameType(a: Kind, b: Kind) {
    (a.Connect? && b.Connect?) || (a.Disconnect? && b.Disconnect?)
  }

  /** Connects and internal disconnects go to the head, unless the head is the same already. */
  function Added(q: seq<Command>, c: Command): seq<Command> {
    if c.kind.Connect? || (c.kind.Disconnect? && c.kind.internal) then
      if q != [] && q[0].client == c.client && SameType(q[0].kind, c.kind) then q else [c] + q
    else q + [c]
  }

  function Processed(q: seq<Command>, k: nat): (seq<Command>, Choice) {
    if k < |q| then (RemoveAt(q, k), Chosen(q[k])) else (q, Nothing)
  }

  // ---------------------------------------------------------------- who is served

  /** A command is taken exactly when some client's oldest command is eligible. */
  lemma SomethingRuns(q: seq<Command>, status: nat -> Status, k: nat)
    requires Selected(q, status, k)
    ensures k < |q| <==> exists j :: 0 <= j < |q| && Oldest(q, j) && Eligible(q[j], status(q[j].client))
  {
    if j :| 0 <= j < |q| && Oldest(q, j) && Eligible(q[j], status(q[j].client)) {
      assert Ready(q, status, j);
    }
    if k < |q| { assert Ready(q, status, k); }
  }

  /** Right after it is added, a connect or an internal disconnect is the command that is taken next, whatever the
      clients' states and whatever was queued. */
  lemma UrgentRunsNext(q: seq<Command>, c: Command, status: nat -> Status, k: nat)
    requires Urgent(c) && Selected(Added(q, c), status, k)
    ensures k == 0 && Added(q, c) != [] && Added(q, c)[0].client == c.client
    ensures c.kind.Connect? ==> Added(q, c)[0].kind.Connect?
    ensures c.kind.Disconnect? ==> Added(q, c)[0].kind.Disconnect?
  {
    assert Ready(Added(q, c), status, 0);
  }

  function Without(q: seq<Command>, client: nat): seq<Command> {
    if q == [] then []
    else Without(q[..|q| - 1], client) + if q[|q| - 1].client == client then [] else [q[|q| - 1]]
  }

  /** The client's oldest command, if any, cannot run. */
  ghost predicate Blocked(q: seq<Command>, status: nat -> Status, client: nat) {
    forall j :: 0 <= j < |q| && q[j].client == client ==> !Ready(q, status, j)
  }

  ghost predicate HasClient(q: seq<Command>, client: nat) {
    exists j :: 0 <= j < |q| && q[j].client == client
  }

  lemma HasPush(q: seq<Command>, c: Command, client: nat)
    ensures HasClient(q + [c], client) <==> HasClient(q, client) || c.client == client
  {
    var q' := q + [c];
    if j :| 0 <= j < |q| && q[j].client == client { assert q'[j].client == client; }
    if c.client == client { assert q'[|q|].client == client; }
    if j :| 0 <= j < |q'| && q'[j].client == client && j < |q| { assert q[j].client == client; }
  }

  lemma {:induction false} WithoutHas(q: seq<Command>, client: nat, d: nat)
    requires d != client
    ensures HasClient(Without(q, client), d) <==> HasClient(q, d)
  {
    if q != [] {
      var front, c := q[..|q| - 1], q[|q| - 1];
      WithoutHas(front, client, d);
      HasPush(front, c, d);
      assert front + [c] == q;
      if c.client == client {
        assert Without(front, client) + [] == Without(front, client);
      } else {
        HasPush(Without(front, client), c, d);
      }
    }
  }

  lemma SelectedPush(q: seq<Command>, c: Command, status: nat -> Status, k: nat)
    requires Selected(q, status, k)
    ensures k < |q| ==> Selected(q + [c], status, k)
    ensures k == |q| ==> Selected(q + [c], status, if Ready(q + [c], status, |q|) then |q| else |q| + 1)
  {
    var q' := q + [c];
    forall j | 0 <= j < |q| ensures Ready(q', status, j) == Ready(q, status, j) {
      assert q'[..j] == q[..j];
      assert Oldest(q', j) == Oldest(q, j) by {
        assert forall i :: 0 <= i < j ==> q'[i] == q[i];
      }
    }
  }

  /** A blocked client never delays another: the same command is taken when all the commands of the blocked
      client are struck from the queue. */
  lemma {:induction false} BlockedClientDelaysNobody(q: seq<Command>, status: nat -> Status, client: nat, k: nat)
      returns (k': nat)
    requires Selected(q, status, k) && Blocked(q, status, client)
    ensures Selected(Without(q, client), status, k')
    ensures k < |q| <==> k' < |Without(q, client)|
    ensures k < |q| ==> Without(q, client)[k'] == q[k]
    decreases |q|
  {
    if q == [] {
      k' := 0;
    } else {
      var front, c := q[..|q| - 1], q[|q| - 1];
      assert q == front + [c];
      forall j | 0 <= j < |front| ensures Ready(front, status, j) == Ready(q, status, j) {
        assert Oldest(front, j) == Oldest(q, j) by { assert forall i :: 0 <= i < j ==> front[i] == q[i]; }
      }
      var kf := if k < |front| then k else |front|;
      k' := BlockedClientDelaysNobody(front, status, client, kf);
      var w := Without(front, client);
      if c.client == client {
        assert q[|front|].client == client && !Ready(q, status, |front|);
        assert k < |front| || k == |q|;
        assert w + [] == w;
      } else {
        WithoutHas(front, client, c.client);
        SelectedPush(w, c, status, k');
        assert (w + [c])[|w|] == c;
        assert Oldest(q, |front|) <==> Oldest(w + [c], |w|) by {
          OldestLast(front, c);
          OldestLast(w, c);
        }
        assert Ready(q, status, |front|) <==> Ready(w + [c], status, |w|);
        assert k >= |front| ==> (k == |front| <==> Ready(q, status, |front|));
        k' := if k' < |w| then k' else if Ready(w + [c], status, |w|) then |w| else |w| + 1;
      }
    }
  }

  lemma OldestLast(q: seq<Command>, c: Command)
    ensures Oldest(q + [c], |q|) <==> !HasClient(q, c.client)
  {
    var q' := q + [c];
    assert q'[|q|] == c && forall j :: 0 <= j < |q| ==> q'[j] == q[j];
  }

  // ---------------------------------------------------------------- order over whole runs

  /** A client's publish, subscribe and unsubscribe commands, in order. */
  function Data(q: seq<Command>, client: nat): seq<Command> {
    if q == [] then []
    else Data(q[..|q| - 1], client) + if q[|q| - 1].client == client && IsData(q[|q| - 1]) then [q[|q| - 1]] else []
  }

  lemma {:induction false} DataConcat(a: seq<Command>, b: seq<Command>, client: nat)
    ensures Data(a + b, client) == Data(a, client) + Data(b, client)
    decreases |b|
  {
    if b == [] {
      assert a + b == a;
      assert Data(a, client) + [] == Data(a, client);
    } else {
      var b', c := b[..|b| - 1], b[|b| - 1];
      DataConcat(a, b', client);
      assert (a + b)[..|a + b| - 1] == a + b' && (a + b)[|a + b| - 1] == c;
      hide IsData;
      assert Data(b, client) == Data(b', client) + if c.client == client && IsData(c) then [c] else [];
    }
  }

  lemma {:induction false} DataOfNone(q: seq<Command>, client: nat)
    requires forall j :: 0 <= j < |q| ==> q[j].client != client
    ensures Data(q, client) == []
  {
    if q != [] { DataOfNone(q[..|q| - 1], client); }
  }

  datatype Action = Add(c: Command) | Process(status: nat -> Status)

  /** The queue, all commands ever submitted, and all commands taken, oldest first. */
  datatype State = State(queue: seq<Command>, submitted: seq<Command>, taken: seq<Command>)

  ghost predicate Step(s: State, act: Action, s': State) {
    match act
    case Add(c) => s' == State(Added(s.queue, c), s.submitted + [c], s.taken)
    case Process(status) =>
      exists k: nat :: Selected(s.queue, status, k) &&
        var (queue, choice) := Processed(s.queue, k);
        s' == State(queue, s.submitted, if choice.Chosen? then s.taken + [choice.command] else s.taken)
  }

  /** Every client's data commands are exactly the taken ones followed by the queued ones. */
  ghost predicate InOrder(s: State) {
    forall client :: Data(s.taken, client) + Data(s.queue, client) == Data(s.submitted, client)
  }

  lemma DataOne(c: Command, client: nat)
    ensures Data([c], client) == if c.client == client && IsData(c) then [c] else []
  {
    assert [c][..0] == [];
  }

  lemma AddKeepsOrder(q: seq<Command>, c: Command, client: nat)
    ensures Data(Added(q, c), client) == Data(q, client) + Data([c], client)
  {
    DataOne(c, client);
    if IsData(c) || !(c.kind.Connect? || c.kind.internal) {
      DataConcat(q, [c], client);
    } else {
      DataConcat([c], q, client);
      assert Data(q, client) + [] == Data(q, client) && [] + Data(q, client) == Data(q, client);
    }
  }

  lemma TakeKeepsOrder(q: seq<Command>, k: nat, client: nat)
    requires k < |q| && Oldest(q, k)
    ensures Data([q[k]], client) + Data(RemoveAt(q, k), client) == Data(q, client)
  {
    var a, c, b := q[..k], q[k], q[k + 1..];
    assert q == a + [c] + b;
    DataConcat(a + [c], b, client);
    DataConcat(a, [c], client);
    DataConcat(a, b, client);
    DataOne(c, client);
    if c.client == client { DataOfNone(a, client); }
    hide Data;
    Assoc(Data(a, client), Data([c], client), Data(b, client));
    Assoc(Data(b, client), [], []);
    Assoc(Data([c], client), Data(b, client), []);
  }

  lemma StepKeepsOrder(s: State, act: Action, s': State)
    requires InOrder(s) && Step(s, act, s')
    ensures InOrder(s')
  {
    hide Data, Added, Selected;
    forall client ensures Data(s'.taken, client) + Data(s'.queue, client) == Data(s'.submitted, client) {
      var t, q := Data(s.taken, client), Data(s.queue, client);
      match act
      case Add(c) =>
        AddKeepsOrder(s.queue, c, client);
        DataConcat(s.submitted, [c], client);
        Assoc(t, q, Data([c], client));
      case Process(status) =>
        var k: nat :| Selected(s.queue, status, k) &&
          var (queue, choice) := Processed(s.queue, k);
          s' == State(queue, s.submitted, if choice.Chosen? then s.taken + [choice.command] else s.taken);
        SelectedIsOldest(s.queue, status, k);
        if k < |s.queue| {
          var first := Data([s.queue[k]], client);
          TakeKeepsOrder(s.queue, k, client);
          DataConcat(s.taken, [s.queue[k]], client);
          Assoc(t, first, Data(s'.queue, client));
        }
    }
  }

  lemma SelectedIsOldest(q: seq<Command>, status: nat -> Status, k: nat)
    requires Selected(q, status, k)
    ensures k < |q| ==> Oldest(q, k)
  {
  }

  ghost predicate Run(states: seq<State>, acts: seq<Action>) {
    && |states| == |acts| + 1 && states[0] == State([], [], [])
    && forall i :: 0 <= i < |acts| ==> Step(states[i], acts[i], states[i + 1])
  }

  /** Over every run, whatever the clients' states are at each call, each client's publish, subscribe and
      unsubscribe commands leave the queue in the order in which they were submitted, none lost or doubled. */
  lemma {:induction false} TakenInSubmissionOrder(states: seq<State>, acts: seq<Action>, i: nat)
    requires Run(states, acts) && i <= |acts|
    ensures InOrder(states[i])
  {
    if i == 0 {
      assert forall client :: Data([], client) + Data([], client) == Data([], client);
    } else {
      TakenInSubmissionOrder(states, acts, i - 1);
      hide InOrder;
      StepKeepsOrder(states[i - 1], acts[i - 1], states[i]);
    }
  }
}
