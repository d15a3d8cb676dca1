/** The listener that bounds open connections: accepts, failed accepts, and closes in any interleaving.

    Accept calls and connections are numbered. A slot is an element of the `slots` channel.
 */
module LimitedListener {
  const LIMIT: nat := 16

  datatype Accept =
    | Entered     // selects between a free slot and the closed listener
    | Accepting   // holds a slot while the inner listener accepts
    | Failing     // the inner accept failed; the slot has yet to be given back
    | Returned

  datatype Connection = Connection(closes: nat, released: nat)

  datatype State = State(slots: nat, closed: bool, accepts: map<nat, Accept>, connections: map<nat, Connection>)

  const INITIAL := State(0, false, map[], map[])

  datatype Step =
    | Enter(call: nat)
    | Acquire(call: nat)
    | RefuseClosed(call: nat)
    | AcceptConnection(call: nat, connection: nat)
    | FailAccept(call: nat)
    | GiveBack(call: nat)
    | CloseConnection(connection: nat)
    | CloseListener

  predicate IsAt(s: State, call: nat, accept: Accept) {
    call in s.accepts && s.accepts[call] == accept
  }

  /** Closing a connection again skips the release; the first close receives from `slots` and blocks while that
      channel is empty. */
  predicate Enabled(s: State, step: Step) {
    match step
    case Enter(a) => a !in s.accepts
    case Acquire(a) => IsAt(s, a, Entered) && s.slots < LIMIT
    case RefuseClosed(a) => IsAt(s, a, Entered) && s.closed
    case AcceptConnection(a, c) => IsAt(s, a, Accepting) && c !in s.connections
    case FailAccept(a) => IsAt(s, a, Accepting)
    case GiveBack(a) => IsAt(s, a, Failing) && s.slots > 0
    case CloseConnection(c) => c in s.connections && (s.connections[c].closes == 0 ==> s.slots > 0)
    case CloseListener => true
  }

  function Apply(s: State, step: Step): State
    requires Enabled(s, step)
  {
    match step
    case Enter(a) => s.(accepts := s.accepts[a := Entered])
    case Acquire(a) => s.(slots := s.slots + 1, accepts := s.accepts[a := Accepting])
    case RefuseClosed(a) => s.(accepts := s.accepts[a := Returned])
    case AcceptConnection(a, c) =>
      s.(accepts := s.accepts[a := Returned], connections := s.connections[c := Connection(0, 0)])
    case FailAccept(a) => s.(accepts := s.accepts[a := Failing])
    case GiveBack(a) => s.(slots := s.slots - 1, accepts := s.accepts[a := Returned])
    case CloseConnection(c) =>
      var connection := s.connections[c];
      if connection.closes > 0 then s.(connections := s.connections[c := connection.(closes := connection.closes + 1)])
      else s.(slots := s.slots - 1, connections := s.connections[c := Connection(1, connection.released + 1)])
    case CloseListener => s.(closed := true)
  }

  predicate ValidRun(s: State, steps: seq<Step>)
    decreases |steps|
  {
    steps == [] || (Enabled(s, steps[0]) && ValidRun(Apply(s, steps[0]), steps[1..]))
  }

  function Final(s: State, steps: seq<Step>): State
    requires ValidRun(s, steps)
    decreases |steps|
  {
    if steps == [] then s else Final(Apply(s, steps[0]), steps[1..])
  }

  // ----- What every step keeps -----

  /** The accept calls that hold a slot. */
  function Pending(accepts: map<nat, Accept>): set<nat> {
    set a | a in accepts && (accepts[a].Accepting? || accepts[a].Failing?)
  }

  /** The connections that have not given their slot back. */
  function Unreleased(connections: map<nat, Connection>): set<nat> {
    set c | c in connections && connections[c].released == 0
  }

  function Weight(held: bool): int {
    if held then 1 else 0
  }

  predicate HoldsSlot(accepts: map<nat, Accept>, a: nat) {
    a in accepts && (accepts[a].Accepting? || accepts[a].Failing?)
  }

  predicate IsUnreleased(connections: map<nat, Connection>, c: nat) {
    c in connections && connections[c].released == 0
  }

  function PendingCount(accepts: map<nat, Accept>): nat {
    |Pending(accepts)|
  }

  function UnreleasedCount(connections: map<nat, Connection>): nat {
    |Unreleased(connections)|
  }

  ghost predicate Inv(s: State) {
    && s.slots == PendingCount(s.accepts) + UnreleasedCount(s.connections)
    && s.slots <= LIMIT
    && forall c :: c in s.connections ==> s.connections[c].released == if s.connections[c].closes == 0 then 0 else 1
  }

  lemma PendingUpdate(accepts: map<nat, Accept>, a: nat, accept: Accept)
    ensures PendingCount(accepts[a := accept])
              == PendingCount(accepts) + Weight(accept.Accepting? || accept.Failing?) - Weight(HoldsSlot(accepts, a))
  {
    var before, after := Pending(accepts), Pending(accepts[a := accept]);
    assert after - {a} == before - {a};
    assert |before| == |before - {a}| + Weight(a in before);
    assert |after| == |after - {a}| + Weight(a in after);
  }

  lemma UnreleasedUpdate(connections: map<nat, Connection>, c: nat, connection: Connection)
    ensures UnreleasedCount(connections[c := connection])
              == UnreleasedCount(connections) + Weight(connection.released == 0) - Weight(IsUnreleased(connections, c))
  {
    var before, after := Unreleased(connections), Unreleased(connections[c := connection]);
    assert after - {c} == before - {c};
    assert |before| == |before - {c}| + Weight(c in before);
    assert |after| == |after - {c}| + Weight(c in after);
  }

  lemma StepInv(s: State, step: Step)
    requires Inv(s) && Enabled(s, step)
    ensures Inv(Apply(s, step))
  {
    match step
    case Enter(a) => PendingUpdate(s.accepts, a, Entered);
    case Acquire(a) => PendingUpdate(s.accepts, a, Accepting);
    case RefuseClosed(a) => PendingUpdate(s.accepts, a, Returned);
    case AcceptConnection(a, c) =>
      PendingUpdate(s.accepts, a, Returned);
      UnreleasedUpdate(s.connections, c, Connection(0, 0));
    case FailAccept(a) => PendingUpdate(s.accepts, a, Failing);
    case GiveBack(a) => PendingUpdate(s.accepts, a, Returned);
    case CloseConnection(c) => UnreleasedUpdate(s.connections, c, Apply(s, step).connections[c]);
    case CloseListener =>
  }

  lemma {:induction false} RunInv(s: State, steps: seq<Step>)
    requires Inv(s) && ValidRun(s, steps)
    ensures Inv(Final(s, steps))
    decreases |steps|
  {
    if steps != [] {
      StepInv(s, steps[0]);
      RunInv(Apply(s, steps[0]), steps[1..]);
    }
  }

  /** Everybody has returned and every connection was closed. */
  predicate AtRest(s: State) {
    && (forall a :: a in s.accepts ==> s.accepts[a].Entered? || s.accepts[a].Returned?)
    && (forall c :: c in s.connections ==> s.connections[c].closes > 0)
  }

  /** Occupied slots are exactly the pending accepts and the unreleased connections: never more than the limit,
      and none is leaked once every accept has returned and every connection was closed. */
  lemma SlotsAreAccountedFor(steps: seq<Step>)
    requires ValidRun(INITIAL, steps)
    ensures var s := Final(INITIAL, steps);
      s.slots == |Pending(s.accepts)| + |Unreleased(s.connections)| <= 16 && (AtRest(s) ==> s.slots == 0)
  {
    RunInv(INITIAL, steps);
    var s := Final(INITIAL, steps);
    if AtRest(s) {
      assert Pending(s.accepts) == {} && Unreleased(s.connections) == {};
    }
  }

  /** Giving a slot back never blocks, and a connection gives its slot back once, however often it is closed. */
  lemma ReleasesNeverBlock(steps: seq<Step>, call: nat, connection: nat)
    requires ValidRun(INITIAL, steps)
    ensures var s := Final(INITIAL, steps);
      && (IsAt(s, call, Failing) ==> Enabled(s, GiveBack(call)))
      && (connection in s.connections ==>
            Enabled(s, CloseConnection(connection))
            && s.connections[connection].released == if s.connections[connection].closes == 0 then 0 else 1)
  {
    RunInv(INITIAL, steps);
    var s := Final(INITIAL, steps);
    if IsAt(s, call, Failing) {
      assert call in Pending(s.accepts);
    }
    if connection in s.connections && s.connections[connection].closes == 0 {
      assert connection in Unreleased(s.connections);
    }
  }

  /** An accept call waits only while all slots are held by others. */
  lemma AcceptWaitsOnlyAtLimit(steps: seq<Step>, call: nat)
    requires ValidRun(INITIAL, steps) && IsAt(Final(INITIAL, steps), call, Entered)
    ensures var s := Final(INITIAL, steps);
      !Enabled(s, Acquire(call)) <==> |Pending(s.accepts)| + |Unreleased(s.connections)| == 16
  {
    RunInv(INITIAL, steps);
  }
}
