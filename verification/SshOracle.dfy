/** The oracle server and client of decryptor/ssh/oracle.py; hexadecimal text is the bytes it spells. */
module SshOracle {
  import opened Bytes

  /** One entry of the file: a scalar and the public value (share) it belongs to. */
  datatype Recovery = Recovery(scalar: Octets, share: Octets)

  // ----- The server

  /** The first entry from index i on that is unused and holds the requested share. */
  function FirstUnused(recoveries: seq<Recovery>, used: set<nat>, share: Octets, i: nat): (r: Option<nat>)
    ensures r.Some? ==> i <= r.value < |recoveries| && r.value !in used && recoveries[r.value].share == share
    decreases |recoveries| - i
  {
    if i >= |recoveries| then None
    else if i !in used && recoveries[i].share == share then Some(i)
    else FirstUnused(recoveries, used, share, i + 1)
  }

  function UsedAfter(recoveries: seq<Recovery>, used: set<nat>, share: Octets): set<nat> {
    match FirstUnused(recoveries, used, share, 0)
    case None => used
    case Some(i) => used + {i}
  }

  /** The entries released over a run of requests, None where a request is refused. */
  function Answers(recoveries: seq<Recovery>, used: set<nat>, requests: seq<Octets>): (answers: seq<Option<nat>>)
    ensures |answers| == |requests|
    decreases |requests|
  {
    if requests == [] then []
    else
      [FirstUnused(recoveries, used, requests[0], 0)]
      + Answers(recoveries, UsedAfter(recoveries, used, requests[0]), requests[1..])
  }

  class OracleServer {
    const recoveries: seq<Recovery>
    var used: set<nat>

    constructor (recoveries: seq<Recovery>)
      ensures this.recoveries == recoveries && used == {}
    {
      this.recoveries := recoveries;
      this.used := {};
    }

    /** One turn of the server's loop: the entry released, if any. */
    method Answer(share: Octets) returns (r: Option<nat>)
      modifies this
      ensures r == FirstUnused(recoveries, old(used), share, 0)
      ensures used == UsedAfter(recoveries, old(used), share)
    {
      r := None;
      for i := 0 to |recoveries|
        invariant used == old(used)
        invariant FirstUnused(recoveries, used, share, 0) == FirstUnused(recoveries, used, share, i)
      {
        if i !in used && recoveries[i].share == share {
          used := used + {i};
          return Some(i);
        }
      }
    }
  }

  lemma NoMore(requests: seq<Octets>)
    ensures requests[0..] == requests
  {
  }

  lemma AnswersStep(recoveries: seq<Recovery>, used: set<nat>, requests: seq<Octets>)
    requires requests != []
    ensures Answers(recoveries, used, requests) ==
            [FirstUnused(recoveries, used, requests[0], 0)]
            + Answers(recoveries, UsedAfter(recoveries, used, requests[0]), requests[1..])
  {
  }

  lemma AnswersRegroup(before: seq<Option<nat>>, r: Option<nat>, later: seq<Option<nat>>)
    ensures before + ([r] + later) == before + [r] + later
  {
  }

  /** _oracle_server: the answers to a whole run of requests. */
  method Serve(recoveries: seq<Recovery>, requests: seq<Octets>) returns (answers: seq<Option<nat>>)
    ensures answers == Answers(recoveries, {}, requests)
  {
    hide FirstUnused, UsedAfter, Answers;
    var server := new OracleServer(recoveries);
    answers := [];
    NoMore(requests);
    for n := 0 to |requests|
      invariant server.recoveries == recoveries
      invariant Answers(recoveries, {}, requests) == answers + Answers(recoveries, server.used, requests[n..])
    {
      AnswersStep(recoveries, server.used, requests[n..]);
      assert requests[n..][1..] == requests[n + 1..];
      var before := answers;
      var r := server.Answer(requests[n]);
      answers := answers + [r];
      AnswersRegroup(before, r, Answers(recoveries, server.used, requests[n + 1..]));
    }
    assert requests[|requests|..] == [];
    assert Answers(recoveries, server.used, []) == [];
  }

  // ----- One-time release

  /** A smaller number in front of an ascending list. */
  lemma AscendingFirst(i: nat, later: seq<nat>)
    requires forall k :: k in later ==> i < k
    requires forall a, b :: 0 <= a < b < |later| ==> later[a] < later[b]
    ensures forall k :: k in [i] + later <==> k == i || k in later
    ensures forall a, b :: 0 <= a < b < |[i] + later| ==> ([i] + later)[a] < ([i] + later)[b]
  {
    var all := [i] + later;
    forall a, b | 0 <= a < b < |all|
      ensures all[a] < all[b]
    {
      assert all[b] == later[b - 1] && later[b - 1] in later;
      if a > 0 {
        assert all[a] == later[a - 1];
      }
    }
  }

  /** The unused entries for a share, in stored order. */
  function Stored(recoveries: seq<Recovery>, used: set<nat>, share: Octets, i: nat): (r: seq<nat>)
    ensures forall k :: k in r <==> i <= k < |recoveries| && k !in used && recoveries[k].share == share
    ensures forall a, b :: 0 <= a < b < |r| ==> r[a] < r[b]
    decreases |recoveries| - i
  {
    if i >= |recoveries| then []
    else
      var later := Stored(recoveries, used, share, i + 1);
      if i !in used && recoveries[i].share == share then
        AscendingFirst(i, later);
        [i] + later
      else later
  }

  lemma StoredStep(recoveries: seq<Recovery>, used: set<nat>, share: Octets, i: nat)
    ensures Stored(recoveries, used, share, i) ==
            if i >= |recoveries| then []
            else if i !in used && recoveries[i].share == share then [i] + Stored(recoveries, used, share, i + 1)
            else Stored(recoveries, used, share, i + 1)
  {
  }

  /** The entries released to the requests for one share, in order. */
  function ReleasedFor(requests: seq<Octets>, answers: seq<Option<nat>>, share: Octets): seq<nat>
    requires |requests| == |answers|
  {
    if requests == [] then []
    else
      (if requests[0] == share && answers[0].Some? then [answers[0].value] else [])
      + ReleasedFor(requests[1..], answers[1..], share)
  }

  function Occurrences(requests: seq<Octets>, share: Octets): nat {
    if requests == [] then 0 else (if requests[0] == share then 1 else 0) + Occurrences(requests[1..], share)
  }

  function FirstOnes(s: seq<nat>, n: nat): seq<nat> {
    if n <= |s| then s[..n] else s
  }

  lemma {:induction false} FirstIsStoredFirst(recoveries: seq<Recovery>, used: set<nat>, share: Octets, i: nat)
    ensures var s := Stored(recoveries, used, share, i);
            FirstUnused(recoveries, used, share, i) == if s == [] then None else Some(s[0])
    decreases |recoveries| - i
  {
    if i < |recoveries| {
      FirstIsStoredFirst(recoveries, used, share, i + 1);
    }
  }

  /** Using an entry up removes it from the stored list of its share and leaves the other lists alone. */
  lemma {:induction false} StoredWithout(recoveries: seq<Recovery>, used: set<nat>, share: Octets, k: nat, i: nat)
    requires k < |recoveries| && k !in used
    ensures var before, after := Stored(recoveries, used, share, i), Stored(recoveries, used + {k}, share, i);
            if recoveries[k].share == share && before != [] && before[0] == k then after == before[1..]
            else recoveries[k].share != share || k < i ==> after == before
    decreases |recoveries| - i
  {
    hide Stored;
    StoredStep(recoveries, used, share, i);
    StoredStep(recoveries, used + {k}, share, i);
    if i < |recoveries| {
      StoredWithout(recoveries, used, share, k, i + 1);
    }
  }

  lemma FirstOnesStep(s: seq<nat>, n: nat)
    requires s != []
    ensures FirstOnes(s, n + 1) == [s[0]] + FirstOnes(s[1..], n)
  {
  }

  /**
   * The requests for a share are met from its entries in stored order until there are none left: the number of
   * successes is the smaller of the two counts.
   */
  lemma {:induction false} ReleasedInStoredOrder(recoveries: seq<Recovery>, used: set<nat>, requests: seq<Octets>,
      share: Octets)
    ensures ReleasedFor(requests, Answers(recoveries, used, requests), share)
            == FirstOnes(Stored(recoveries, used, share, 0), Occurrences(requests, share))
    decreases |requests|
  {
    hide Stored, FirstUnused;
    var stored := Stored(recoveries, used, share, 0);
    if requests != [] {
      var after := UsedAfter(recoveries, used, requests[0]);
      var answers := Answers(recoveries, used, requests);
      var first := FirstUnused(recoveries, used, requests[0], 0);
      assert answers[1..] == Answers(recoveries, after, requests[1..]);
      ReleasedInStoredOrder(recoveries, after, requests[1..], share);
      FirstIsStoredFirst(recoveries, used, requests[0], 0);
      if first.Some? {
        StoredWithout(recoveries, used, share, first.value, 0);
        if requests[0] == share {
          FirstOnesStep(stored, Occurrences(requests[1..], share));
        }
      } else if requests[0] == share {
        assert stored == [];
      }
    }
  }

  /** How often a share is answered: as often as it is asked for, up to the number of its entries. */
  lemma SuccessesAreTheMinimum(recoveries: seq<Recovery>, requests: seq<Octets>, share: Octets)
    ensures var n, stored := Occurrences(requests, share), |Stored(recoveries, {}, share, 0)|;
            |ReleasedFor(requests, Answers(recoveries, {}, requests), share)| == if n <= stored then n else stored
  {
    ReleasedInStoredOrder(recoveries, {}, requests, share);
  }

  /** Every released entry holds the requested share, was unused, and is released to no later request. */
  lemma {:induction false} ReleasedOnce(recoveries: seq<Recovery>, used: set<nat>, requests: seq<Octets>)
    ensures var answers := Answers(recoveries, used, requests);
            && (forall n :: 0 <= n < |answers| && answers[n].Some? ==>
                  && answers[n].value < |recoveries| && answers[n].value !in used
                  && recoveries[answers[n].value].share == requests[n])
            && (forall m, n :: 0 <= m < n < |answers| && answers[m].Some? ==> answers[n] != answers[m])
    decreases |requests|
  {
    if requests != [] {
      var after := UsedAfter(recoveries, used, requests[0]);
      ReleasedOnce(recoveries, after, requests[1..]);
      var answers, later := Answers(recoveries, used, requests), Answers(recoveries, after, requests[1..]);
      forall n | 1 <= n < |answers|
        ensures answers[n] == later[n - 1] && requests[n] == requests[1..][n - 1]
      {
      }
    }
  }

  /** When every share has an entry for each of its requests, no request is refused. */
  ghost predicate Enough(recoveries: seq<Recovery>, used: set<nat>, requests: seq<Octets>) {
    forall share :: Occurrences(requests, share) <= |Stored(recoveries, used, share, 0)|
  }

  lemma EnoughForFirst(recoveries: seq<Recovery>, used: set<nat>, requests: seq<Octets>)
    requires requests != [] && Enough(recoveries, used, requests)
    ensures FirstUnused(recoveries, used, requests[0], 0).Some?
    ensures Enough(recoveries, UsedAfter(recoveries, used, requests[0]), requests[1..])
  {
    hide Stored, FirstUnused;
    assert Occurrences(requests, requests[0]) >= 1;
    FirstIsStoredFirst(recoveries, used, requests[0], 0);
    var k := FirstUnused(recoveries, used, requests[0], 0).value;
    forall share
      ensures Occurrences(requests[1..], share) <= |Stored(recoveries, used + {k}, share, 0)|
    {
      StoredWithout(recoveries, used, share, k, 0);
      assert Occurrences(requests, share) <= |Stored(recoveries, used, share, 0)|;
    }
  }

  // ----- The client

  datatype Status = Requested | Rejected | Inconsistent | Released

  /** One entry of the release trace. */
  datatype Event = Event(epoch: nat, share: Octets, packetsBefore: nat, status: Status)

  /** Which entries are used up, and the events so far. */
  datatype State = State(used: set<nat>, trace: seq<Event>)

  datatype Asked = Asked(result: Result<Octets>, state: State)

  /** curve25519_public_from_private: 32 bytes, or ValueError. */
  function PublicOf(publicOf: Octets -> Octets, scalar: Octets): Result<Octets> {
    if |scalar| != 32 then Err(ValueError) else Ok(publicOf(scalar))
  }

  /** The scalar returned for one request, and the state after it. */
  function Ask(recoveries: seq<Recovery>, publicOf: Octets -> Octets, state: State,
               share: Octets, epoch: nat, packetsBefore: nat): Asked {
    var used := UsedAfter(recoveries, state.used, share);
    match FirstUnused(recoveries, state.used, share, 0)
    case None => Asked(Err(ValueError), State(used, state.trace + [Event(epoch, share, packetsBefore, Rejected)]))
    case Some(i) =>
      var scalar := recoveries[i].scalar;
      match PublicOf(publicOf, scalar)
      case Err(e) => Asked(Err(e), State(used, state.trace + [Event(epoch, share, packetsBefore, Requested)]))
      case Ok(publicValue) =>
        if publicValue != share
        then Asked(Err(ValueError), State(used, state.trace + [Event(epoch, share, packetsBefore, Inconsistent)]))
        else Asked(Ok(scalar), State(used, state.trace + [Event(epoch, share, packetsBefore, Released)]))
  }

  lemma LastReplaced(trace: seq<Event>, a: Event, b: Event)
    ensures (trace + [a])[|trace| := b] == trace + [b]
  {
  }

  class SimulatedQuantumOracle {
    const server: OracleServer
    const publicOf: Octets -> Octets
    var releaseTrace: seq<Event>

    constructor (recoveries: seq<Recovery>, publicOf: Octets -> Octets)
      ensures fresh(server) && server.recoveries == recoveries && this.publicOf == publicOf
      ensures Now() == State({}, [])
    {
      this.server := new OracleServer(recoveries);
      this.publicOf := publicOf;
      this.releaseTrace := [];
    }

    ghost function Now(): State
      reads this, server
    {
      State(server.used, releaseTrace)
    }

    method Recover(share: Octets, epoch: nat, packetsBefore: nat) returns (r: Result<Octets>)
      modifies this, server
      ensures Asked(r, Now()) == Ask(server.recoveries, publicOf, old(Now()), share, epoch, packetsBefore)
    {
      hide FirstUnused, UsedAfter;
      ghost var start := releaseTrace;
      var event := Event(epoch, share, packetsBefore, Requested);
      releaseTrace := releaseTrace + [event];
      var last := |releaseTrace| - 1;
      var answer := server.Answer(share);
      if answer.None? {
        releaseTrace := releaseTrace[last := event.(status := Rejected)];
        LastReplaced(start, event, event.(status := Rejected));
        return Err(ValueError);
      }
      var scalar := server.recoveries[answer.value].scalar;
      var publicValue :- PublicOf(publicOf, scalar);
      if publicValue != share {
        releaseTrace := releaseTrace[last := event.(status := Inconsistent)];
        LastReplaced(start, event, event.(status := Inconsistent));
        return Err(ValueError);
      }
      releaseTrace := releaseTrace[last := event.(status := Released)];
      LastReplaced(start, event, event.(status := Released));
      return Ok(scalar);
    }
  }

  /** A scalar is returned exactly when its event says released, and it is a scalar of the requested share. */
  lemma ReleasedIsConsistent(recoveries: seq<Recovery>, publicOf: Octets -> Octets, state: State,
                             share: Octets, epoch: nat, packetsBefore: nat)
    ensures var asked := Ask(recoveries, publicOf, state, share, epoch, packetsBefore);
            var event := asked.state.trace[|asked.state.trace| - 1];
            && |asked.state.trace| == |state.trace| + 1
            && asked.state.trace[..|asked.state.trace| - 1] == state.trace
            && event.(status := Released) == Event(epoch, share, packetsBefore, Released)
            && (event.status == Released <==> asked.result.Ok?)
            && (event.status == Rejected <==> FirstUnused(recoveries, state.used, share, 0).None?)
            && (event.status == Requested <==>
                  exists i :: FirstUnused(recoveries, state.used, share, 0) == Some(i) && |recoveries[i].scalar| != 32)
            && asked.state.used == UsedAfter(recoveries, state.used, share)
            && (asked.result.Err? ==> asked.result.error == ValueError)
            && (asked.result.Ok? ==> |asked.result.value| == 32 && publicOf(asked.result.value) == share)
            && (asked.result.Ok? ==> exists i :: 0 <= i < |recoveries| && i !in state.used && i in asked.state.used
                                                 && recoveries[i] == Recovery(asked.result.value, share))
  {
    hide FirstUnused;
    var asked := Ask(recoveries, publicOf, state, share, epoch, packetsBefore);
    if FirstUnused(recoveries, state.used, share, 0).Some? {
      var found := FirstUnused(recoveries, state.used, share, 0).value;
      assert FirstUnused(recoveries, state.used, share, 0) == Some(found);
    }
    if asked.result.Ok? {
      var i := FirstUnused(recoveries, state.used, share, 0).value;
      assert recoveries[i] == Recovery(asked.result.value, share);
    }
  }
}
