/**
 * Chains of futures: then binds where a value goes, then and except bind where an error goes, and
 * run pushes a value through. Futures are numbered in the order of their creation.
 */
module StormFuture {
  import opened Numbers

  datatype Option<T> = None | Some(value: T)

  /** What one call of a body does: it may call its reject function, and it returns a value. */
  datatype Outcome = Outcome(value: int, rejects: bool)

  datatype Kind =
    | PassThrough                                      // BOUND and UNBOUND futures
    | Payload(body: int -> Outcome, returnsVoid: bool) // SINGLE (never rejects) and REJ_SINGLE

  /** nxtForward: empty, the forwarder of the next future, or an except handler. */
  datatype Forward = Unbound | Next(node: nat) | Handler(id: nat)

  datatype Node = Node(kind: Kind, nxtAccept: Option<nat>, nxtForward: Forward, errored: bool, value: Option<int>)

  datatype Event =
    | Ran(node: nat, input: int)   // a body was called
    | Handled(id: nat)             // an except handler was called
    | Threw                        // an empty nxtForward was called

  datatype Binding = ThenBound(at: nat, next: nat) | ExceptBound(at: nat, id: nat)

  /** The last thing bound to the forward side of node i. */
  function LastBinding(history: seq<Binding>, i: nat): Forward {
    if history == [] then Unbound
    else
      var last := history[|history| - 1];
      if last.at != i then LastBinding(history[..|history| - 1], i)
      else if last.ThenBound? then Next(last.next) else Handler(last.id)
  }

  /** Values go to later futures, and a forwarder is always that of the future values go to. */
  ghost predicate Linked(nodes: seq<Node>) {
    forall i :: 0 <= i < |nodes| ==>
      && (nodes[i].nxtAccept.Some? ==> i < nodes[i].nxtAccept.value < |nodes|)
      && (nodes[i].nxtForward.Next? ==> nodes[i].nxtAccept == Some(nodes[i].nxtForward.node))
  }

  /** The forward side of every node is what was bound to it last. */
  ghost predicate Recorded(nodes: seq<Node>, history: seq<Binding>) {
    forall i :: 0 <= i < |nodes| ==> nodes[i].nxtForward == LastBinding(history, i)
  }

  /** An error forwarded to node i: passed on until a handler, or dropped at an unbound node. */
  function Forwarded(nodes: seq<Node>, i: nat): seq<Event>
    requires Linked(nodes) && i < |nodes|
    decreases |nodes| - i
  {
    match nodes[i].nxtForward
    case Handler(id) => [Handled(id)]
    case Next(n) => Forwarded(nodes, n)
    case Unbound => []
  }

  /** An error raised by node i itself: here an unbound forward is called nevertheless. */
  function Rejected(nodes: seq<Node>, i: nat): seq<Event>
    requires Linked(nodes) && i < |nodes|
  {
    if nodes[i].nxtForward == Unbound then [Threw] else Forwarded(nodes, i)
  }

  /** Whether the value of node i goes on to the next one. */
  predicate GoesOn(node: Node, v: int) {
    node.nxtAccept.Some? &&
    (node.kind.Payload? ==> !node.errored && !node.kind.body(v).rejects && !node.kind.returnsVoid)
  }

  function Output(node: Node, v: int): int {
    if node.kind.Payload? then node.kind.body(v).value else v
  }

  /** The events of running node i on input v. */
  function Exec(nodes: seq<Node>, i: nat, v: int): seq<Event>
    requires Linked(nodes) && i < |nodes|
    decreases |nodes| - i
  {
    (if nodes[i].kind.Payload? then [Ran(i, v)] else [])
    + (if nodes[i].kind.Payload? && nodes[i].kind.body(v).rejects then Rejected(nodes, i) else [])
    + (if GoesOn(nodes[i], v) then Exec(nodes, nodes[i].nxtAccept.value, Output(nodes[i], v)) else [])
  }

  /** Node i after its body has been called: the value is not stored when the call threw. */
  function AfterBody(nodes: seq<Node>, i: nat, v: int): Node
    requires i < |nodes|
  {
    if nodes[i].kind.PassThrough? then nodes[i]
    else
      var o := nodes[i].kind.body(v);
      nodes[i].(errored := nodes[i].errored || o.rejects,
                value := if nodes[i].kind.returnsVoid || (o.rejects && nodes[i].nxtForward == Unbound)
                         then nodes[i].value else Some(o.value))
  }

  /** The nodes after running node i on input v. */
  function Settled(nodes: seq<Node>, i: nat, v: int): (r: seq<Node>)
    requires Linked(nodes) && i < |nodes|
    ensures |r| == |nodes|
    decreases |nodes| - i
  {
    var now := nodes[i := AfterBody(nodes, i, v)];
    if GoesOn(nodes[i], v) then Settled(now, nodes[i].nxtAccept.value, Output(nodes[i], v)) else now
  }

  /** Running a node does not look at the nodes before it. */
  lemma {:induction false} ExecLooksAhead(nodes: seq<Node>, now: seq<Node>, i: nat, v: int)
    requires Linked(nodes) && Linked(now) && |now| == |nodes| && i < |nodes|
    requires forall k :: i <= k < |nodes| ==> now[k] == nodes[k]
    ensures Exec(now, i, v) == Exec(nodes, i, v)
    decreases |nodes| - i
  {
    ForwardedLooksAhead(nodes, now, i);
    if GoesOn(nodes[i], v) {
      ExecLooksAhead(nodes, now, nodes[i].nxtAccept.value, Output(nodes[i], v));
    }
  }

  lemma {:induction false} ForwardedLooksAhead(nodes: seq<Node>, now: seq<Node>, i: nat)
    requires Linked(nodes) && Linked(now) && |now| == |nodes| && i < |nodes|
    requires forall k :: i <= k < |nodes| ==> now[k] == nodes[k]
    ensures Forwarded(now, i) == Forwarded(nodes, i)
    decreases |nodes| - i
  {
    if nodes[i].nxtForward.Next? {
      ForwardedLooksAhead(nodes, now, nodes[i].nxtForward.node);
    }
  }

  class Futures {
    var nodes: seq<Node>
    ghost var history: seq<Binding>

    ghost predicate Valid()
      reads this
    {
      && Linked(nodes) && Recorded(nodes, history)
      && (forall k :: 0 <= k < |history| ==> history[k].at < |nodes|)
    }

    /** A chain begins with bound() or unbound(), which pass values through. */
    constructor ()
      ensures Valid() && history == []
      ensures nodes == [Node(PassThrough, None, Unbound, false, None)]
    {
      nodes, history := [Node(PassThrough, None, Unbound, false, None)], [];
    }

    /** then: a new future takes over the values and the errors of node i. */
    method Then(i: nat, kind: Kind) returns (n: nat)
      requires Valid() && i < |nodes|
      modifies this
      ensures Valid() && n == |old(nodes)|
      ensures nodes == old(nodes)[i := old(nodes)[i].(nxtAccept := Some(n), nxtForward := Next(n))]
                       + [Node(kind, None, Unbound, false, None)]
      ensures history == old(history) + [ThenBound(i, n)]
    {
      n := |nodes|;
      NotBoundYet(history, |nodes|, n);
      nodes := nodes[i := nodes[i].(nxtAccept := Some(n), nxtForward := Next(n))]
               + [Node(kind, None, Unbound, false, None)];
      history := history + [ThenBound(i, n)];
      assert history[..|history| - 1] == old(history);
    }

    /** except: the handler takes over the errors of node i. */
    method Except(i: nat, id: nat)
      requires Valid() && i < |nodes|
      modifies this
      ensures Valid() && nodes == old(nodes)[i := old(nodes)[i].(nxtForward := Handler(id))]
      ensures history == old(history) + [ExceptBound(i, id)]
    {
      nodes := nodes[i := nodes[i].(nxtForward := Handler(id))];
      history := history + [ExceptBound(i, id)];
      assert history[..|history| - 1] == old(history);
    }

    /** The function bound by bindforward, called on node i. */
    method Forward(i: nat) returns (events: seq<Event>)
      requires Valid() && i < |nodes|
      ensures events == Forwarded(nodes, i)
      decreases |nodes| - i
    {
      match nodes[i].nxtForward {
        case Handler(id) => events := [Handled(id)];
        case Next(n) => events := Forward(n);
        case Unbound => events := [];
      }
    }

    /** The reject function of node i. */
    method Reject(i: nat) returns (events: seq<Event>)
      requires Valid() && i < |nodes|
      ensures events == Rejected(nodes, i)
    {
      if nodes[i].nxtForward == Unbound {
        events := [Threw];
      } else {
        events := Forward(i);
      }
    }

    /** run of node i. */
    method Run(i: nat, v: int) returns (events: seq<Event>)
      requires Valid() && i < |nodes|
      modifies this`nodes
      ensures Valid() && events == Exec(old(nodes), i, v) && nodes == Settled(old(nodes), i, v)
      decreases |nodes| - i, 2
    {
      var node := nodes[i];
      if node.kind.Payload? {
        events := CallBody(i, v);
      } else {
        assert nodes[i := AfterBody(nodes, i, v)] == nodes;
        events := [];
        if node.nxtAccept.Some? {
          events := Run(node.nxtAccept.value, v);
        }
      }
    }

    /** callbody: the body may reject on the way; what it returns is then handled. */
    method CallBody(i: nat, v: int) returns (events: seq<Event>)
      requires Valid() && i < |nodes| && nodes[i].kind.Payload?
      modifies this`nodes
      ensures Valid() && events == Exec(old(nodes), i, v) && nodes == Settled(old(nodes), i, v)
      decreases |nodes| - i, 1
    {
      var node := nodes[i];
      var o := node.kind.body(v);
      var errors := [];
      if o.rejects {
        nodes := nodes[i := node.(errored := true)];
        ForwardedLooksAheadOf(old(nodes), nodes, i);
        errors := Reject(i);
      } else {
        assert nodes == nodes[i := node.(errored := node.errored)];
      }
      var more := [];
      if node.kind.returnsVoid || (o.rejects && node.nxtForward == Unbound) {
        assert nodes == old(nodes)[i := AfterBody(old(nodes), i, v)];
      } else {
        more := HandleBodyRet(i, o.value, v, old(nodes));
      }
      events := [Ran(i, v)] + errors + more;
    }

    /** The assignment of the returned value, and handle_bodyret. */
    method HandleBodyRet(i: nat, returned: int, ghost v: int, ghost before: seq<Node>) returns (events: seq<Event>)
      requires Valid() && Linked(before) && i < |before| && before[i].kind.Payload?
      requires var o, node := before[i].kind.body(v), before[i];
        && nodes == before[i := node.(errored := node.errored || o.rejects)] && returned == o.value
        && !node.kind.returnsVoid && !(o.rejects && node.nxtForward == Unbound)
      modifies this`nodes
      ensures Valid() && nodes == Settled(before, i, v)
      ensures events == if GoesOn(before[i], v) then Exec(before, before[i].nxtAccept.value, returned) else []
      decreases |nodes| - i, 0
    {
      var node := nodes[i].(value := Some(returned));
      nodes := nodes[i := node];
      assert nodes == before[i := AfterBody(before, i, v)];
      events := [];
      if !node.errored && node.nxtAccept.Some? {
        ExecLooksAhead(before, nodes, node.nxtAccept.value, returned);
        events := Run(node.nxtAccept.value, returned);
      }
    }
  }

  lemma {:induction false} NotBoundYet(history: seq<Binding>, size: nat, n: nat)
    requires n >= size && forall k :: 0 <= k < |history| ==> history[k].at < size
    ensures LastBinding(history, n) == Unbound
  {
    if history != [] { NotBoundYet(history[..|history| - 1], size, n); }
  }

  /** Forwarding looks only at the bindings. */
  lemma {:induction false} ForwardedLooksAheadOf(nodes: seq<Node>, now: seq<Node>, i: nat)
    requires Linked(nodes) && Linked(now) && |now| == |nodes| && i < |nodes|
    requires forall k :: i <= k < |nodes| ==> now[k].nxtForward == nodes[k].nxtForward
    ensures Forwarded(now, i) == Forwarded(nodes, i)
    decreases |nodes| - i
  {
    if nodes[i].nxtForward.Next? {
      ForwardedLooksAheadOf(nodes, now, nodes[i].nxtForward.node);
    }
  }

  // ---------- what one run does ----------

  /** The futures a value started at node i goes through, as long as nothing stops it. */
  function Path(nodes: seq<Node>, i: nat): (p: seq<nat>)
    requires Linked(nodes) && i < |nodes|
    ensures p != [] && p[0] == i && forall k :: 0 <= k < |p| ==> p[k] < |nodes|
    decreases |nodes| - i
  {
    [i] + (if nodes[i].nxtAccept.Some? then Path(nodes, nodes[i].nxtAccept.value) else [])
  }

  predicate Rejects(node: Node, v: int) { node.kind.Payload? && node.kind.body(v).rejects }

  /** No run has been rejected yet, and every body returns a value. */
  predicate Fresh(nodes: seq<Node>) {
    forall i :: 0 <= i < |nodes| ==> !nodes[i].errored && (nodes[i].kind.Payload? ==> !nodes[i].kind.returnsVoid)
  }

  /** The calls of the bodies along a path, each on its own input. */
  function Calls(nodes: seq<Node>, path: seq<nat>, inputs: seq<int>): seq<Event>
    requires |inputs| == |path| && forall k :: 0 <= k < |path| ==> path[k] < |nodes|
  {
    if path == [] then []
    else (if nodes[path[0]].kind.Payload? then [Ran(path[0], inputs[0])] else []) + Calls(nodes, path[1..], inputs[1..])
  }

  /** Bodies run in path order, each fed by the one before, up to the first that rejects. */
  ghost predicate RunsUpTo(nodes: seq<Node>, i: nat, v: int, inputs: seq<int>)
    requires Linked(nodes) && i < |nodes|
  {
    var path, k := Path(nodes, i), |inputs| - 1;
    && 0 <= k < |path| && inputs[0] == v
    && (forall j :: 0 <= j < k ==> !Rejects(nodes[path[j]], inputs[j]))
    && (forall j :: 0 <= j < k ==> inputs[j + 1] == Output(nodes[path[j]], inputs[j]))
    && (Rejects(nodes[path[k]], inputs[k]) || k == |path| - 1)
  }

  /** Which futures of a path a run calls: every one with a body, in path order, each once and on its own input. */
  lemma {:induction false} CallsAre(nodes: seq<Node>, path: seq<nat>, inputs: seq<int>) returns (at: seq<nat>)
    requires |inputs| == |path| && forall k :: 0 <= k < |path| ==> path[k] < |nodes|
    ensures |at| == |Calls(nodes, path, inputs)|
    ensures forall a :: 0 <= a < |at| ==>
      && at[a] < |path| && nodes[path[at[a]]].kind.Payload?
      && Calls(nodes, path, inputs)[a] == Ran(path[at[a]], inputs[at[a]])
    ensures forall a, b :: 0 <= a < b < |at| ==> at[a] < at[b]
    ensures forall k :: 0 <= k < |path| && nodes[path[k]].kind.Payload? ==> k in at
    decreases |path|
  {
    at := [];
    if path != [] {
      var n := |path| - 1;
      at := CallsAre(nodes, path[..n], inputs[..n]);
      CallsSnoc(nodes, path, inputs);
      hide Calls;
      if nodes[path[n]].kind.Payload? {
        at := at + [n];
      }
    }
  }

  lemma {:induction false} CallsSnoc(nodes: seq<Node>, path: seq<nat>, inputs: seq<int>)
    requires 0 < |inputs| == |path| && forall k :: 0 <= k < |path| ==> path[k] < |nodes|
    ensures var n := |path| - 1;
      Calls(nodes, path, inputs) == Calls(nodes, path[..n], inputs[..n])
                                    + if nodes[path[n]].kind.Payload? then [Ran(path[n], inputs[n])] else []
  {
    var n := |path| - 1;
    if n > 0 {
      CallsSnoc(nodes, path[1..], inputs[1..]);
      assert path[..n][1..] == path[1..][..n - 1] && inputs[..n][1..] == inputs[1..][..n - 1];
    } else {
      assert path[1..] == [] && inputs[1..] == [] && path[..n] == [] && inputs[..n] == [];
    }
  }

  /** The events of a run that stops with the last of these inputs. */
  function RunEvents(nodes: seq<Node>, i: nat, inputs: seq<int>): seq<Event>
    requires Linked(nodes) && i < |nodes| && 0 < |inputs| <= |Path(nodes, i)|
  {
    Calls(nodes, Path(nodes, i)[..|inputs|], inputs)
    + EndEvents(nodes, Path(nodes, i)[|inputs| - 1], inputs[|inputs| - 1])
  }

  function EndEvents(nodes: seq<Node>, i: nat, v: int): seq<Event>
    requires Linked(nodes) && i < |nodes|
  {
    if Rejects(nodes[i], v) then Rejected(nodes, i) else []
  }

  lemma {:induction false} RunFollowsPath(nodes: seq<Node>, i: nat, v: int) returns (inputs: seq<int>)
    requires Linked(nodes) && Fresh(nodes) && i < |nodes|
    ensures RunsUpTo(nodes, i, v, inputs) && Exec(nodes, i, v) == RunEvents(nodes, i, inputs)
    decreases |nodes| - i
  {
    if GoesOn(nodes[i], v) {
      var n := nodes[i].nxtAccept.value;
      var more := RunFollowsPath(nodes, n, Output(nodes[i], v));
      inputs := [v] + more;
      StepRuns(nodes, i, v, n, more);
      StepEvents(nodes, i, v, n, more, inputs);
    } else {
      inputs := [v];
      StopHere(nodes, i, v);
    }
  }

  lemma StepEvents(nodes: seq<Node>, i: nat, v: int, n: nat, more: seq<int>, inputs: seq<int>)
    requires Linked(nodes) && i < |nodes| && GoesOn(nodes[i], v) && !Rejects(nodes[i], v)
    requires nodes[i].nxtAccept == Some(n) && 0 < |more| <= |Path(nodes, n)| && inputs == [v] + more
    requires Exec(nodes, n, Output(nodes[i], v)) == RunEvents(nodes, n, more)
    ensures |inputs| <= |Path(nodes, i)| && Exec(nodes, i, v) == RunEvents(nodes, i, inputs)
  {
    StepCalls(nodes, i, v, n, more, inputs);
    StepExec(nodes, i, v, n);
    hide Path, Calls, EndEvents, Exec;
    var head := if nodes[i].kind.Payload? then [Ran(i, v)] else [];
    var calls := Calls(nodes, Path(nodes, n)[..|more|], more);
    var end := EndEvents(nodes, Path(nodes, n)[|more| - 1], more[|more| - 1]);
    Reassociate(head, calls, end);
    assert RunEvents(nodes, n, more) == calls + end;
    assert RunEvents(nodes, i, inputs) == (head + calls) + end;
  }

  lemma StepExec(nodes: seq<Node>, i: nat, v: int, n: nat)
    requires Linked(nodes) && i < |nodes| && GoesOn(nodes[i], v) && nodes[i].nxtAccept == Some(n)
    ensures Exec(nodes, i, v)
         == (if nodes[i].kind.Payload? then [Ran(i, v)] else []) + Exec(nodes, n, Output(nodes[i], v))
  {}

  lemma StopHere(nodes: seq<Node>, i: nat, v: int)
    requires Linked(nodes) && Fresh(nodes) && i < |nodes| && !GoesOn(nodes[i], v)
    ensures RunsUpTo(nodes, i, v, [v]) && Exec(nodes, i, v) == RunEvents(nodes, i, [v])
  {
    assert Path(nodes, i)[..1] == [i];
    assert Calls(nodes, [i], [v]) == (if nodes[i].kind.Payload? then [Ran(i, v)] else []) by {
      assert [i][1..] == [] && [v][1..] == [];
    }
  }

  lemma StepCalls(nodes: seq<Node>, i: nat, v: int, n: nat, more: seq<int>, inputs: seq<int>)
    requires Linked(nodes) && i < |nodes| && nodes[i].nxtAccept == Some(n)
    requires 0 < |more| <= |Path(nodes, n)| && inputs == [v] + more
    ensures |inputs| == |more| + 1 <= |Path(nodes, i)| == 1 + |Path(nodes, n)|
    ensures Path(nodes, i)[|inputs| - 1] == Path(nodes, n)[|more| - 1]
    ensures inputs[|inputs| - 1] == more[|more| - 1]
    ensures Calls(nodes, Path(nodes, i)[..|inputs|], inputs)
         == (if nodes[i].kind.Payload? then [Ran(i, v)] else []) + Calls(nodes, Path(nodes, n)[..|more|], more)
  {
    assert Path(nodes, i) == [i] + Path(nodes, n);
    assert Path(nodes, i)[..|inputs|][1..] == Path(nodes, n)[..|more|];
    assert inputs[1..] == more;
  }

  lemma StepRuns(nodes: seq<Node>, i: nat, v: int, n: nat, more: seq<int>)
    requires Linked(nodes) && i < |nodes| && GoesOn(nodes[i], v) && nodes[i].nxtAccept == Some(n)
    requires RunsUpTo(nodes, n, Output(nodes[i], v), more)
    ensures RunsUpTo(nodes, i, v, [v] + more)
  {
    var path, rest, inputs := Path(nodes, i), Path(nodes, n), [v] + more;
    assert path == [i] + rest;
    forall j | 0 <= j < |more|
      ensures !Rejects(nodes[path[j]], inputs[j]) && inputs[j + 1] == Output(nodes[path[j]], inputs[j])
    {
      if j > 0 {
        assert path[j] == rest[j - 1] && inputs[j] == more[j - 1] && inputs[j + 1] == more[j];
      }
    }
  }

  /** A forwarded error goes down the path to the first node whose forward side is not a forwarder. */
  lemma {:induction false} NearestBinding(nodes: seq<Node>, i: nat) returns (j: nat)
    requires Linked(nodes) && i < |nodes|
    ensures var path := Path(nodes, i);
      && j < |path|
      && (forall t :: 0 <= t < j ==> nodes[path[t]].nxtForward.Next?)
      && !nodes[path[j]].nxtForward.Next?
      && Forwarded(nodes, i) == (match nodes[path[j]].nxtForward
                                 case Handler(id) => [Handled(id)]
                                 case _ => [])
    decreases |nodes| - i
  {
    var path := Path(nodes, i);
    if nodes[i].nxtForward.Next? {
      var n := nodes[i].nxtForward.node;
      j := NearestBinding(nodes, n);
      assert path == [i] + Path(nodes, n);
      assert forall t :: 1 <= t <= j + 1 ==> path[t] == Path(nodes, n)[t - 1];
      j := j + 1;
    } else {
      j := 0;
    }
  }

  /**
   * One run of a fresh chain: bodies run in order up to the first that rejects, none after it, and
   * then control reaches exactly the nearest future, at or after the rejecting one, on which
   * except was bound last; a rejecting future with nothing bound throws instead.
   */
  lemma OneRun(nodes: seq<Node>, history: seq<Binding>, i: nat, v: int) returns (inputs: seq<int>, j: nat)
    requires Linked(nodes) && Recorded(nodes, history) && Fresh(nodes) && i < |nodes|
    ensures RunsUpTo(nodes, i, v, inputs)
    ensures var path, k := Path(nodes, i), |inputs| - 1;
      if !Rejects(nodes[path[k]], inputs[k]) then Exec(nodes, i, v) == Calls(nodes, path, inputs)
      else
        && j < |Path(nodes, path[k])|
        && (forall t :: 0 <= t < j ==> LastBinding(history, Path(nodes, path[k])[t]).Next?)
        && !LastBinding(history, Path(nodes, path[k])[j]).Next?
        && Exec(nodes, i, v) == Calls(nodes, path[..k + 1], inputs)
             + (match LastBinding(history, Path(nodes, path[k])[j])
                case Handler(id) => [Handled(id)]
                case _ => if j == 0 then [Threw] else [])
  {
    inputs := RunFollowsPath(nodes, i, v);
    var path, k := Path(nodes, i), |inputs| - 1;
    assert k == |path| - 1 ==> path[..k + 1] == path;
    j := NearestBinding(nodes, path[k]);
  }

  /** The futures that an error passes are the rest of the path the value was on. */
  lemma {:induction false} PathSuffix(nodes: seq<Node>, i: nat, k: nat)
    requires Linked(nodes) && i < |nodes| && k < |Path(nodes, i)|
    ensures Path(nodes, Path(nodes, i)[k]) == Path(nodes, i)[k..]
    decreases |nodes| - i
  {
    if k > 0 {
      var n := nodes[i].nxtAccept.value;
      PathSuffix(nodes, n, k - 1);
      assert Path(nodes, i) == [i] + Path(nodes, n);
    }
  }

  /** What was bound to the forward side of a future last, however much was bound before and elsewhere after. */
  lemma {:induction false} LastBindingDecides(history: seq<Binding>, i: nat, k: nat)
    requires k < |history| && history[k].at == i
    requires forall m :: k < m < |history| ==> history[m].at != i
    ensures LastBinding(history, i) == if history[k].ThenBound? then Next(history[k].next) else Handler(history[k].id)
    decreases |history|
  {
    if k < |history| - 1 {
      LastBindingDecides(history[..|history| - 1], i, k);
    }
  }

  /**
   * A future to which then was bound last passes its errors on to the next one, although except may
   * have been bound to it before: such a handler is lost.
   */
  lemma ThenDisplacesExcept(nodes: seq<Node>, history: seq<Binding>, i: nat, k: nat)
    requires Linked(nodes) && Recorded(nodes, history) && i < |nodes|
    requires k < |history| && history[k].ThenBound? && history[k].at == i
    requires forall m :: k < m < |history| ==> history[m].at != i
    ensures var n := history[k].next;
      nodes[i].nxtAccept == Some(n) && n < |nodes| && Forwarded(nodes, i) == Forwarded(nodes, n)
  {
    LastBindingDecides(history, i, k);
  }

  datatype Visit = Visit(node: nat, input: int)

  /** The futures a run goes through, each with the value it is given. */
  function Visits(nodes: seq<Node>, i: nat, v: int): (r: seq<Visit>)
    requires Linked(nodes) && i < |nodes|
    ensures forall j :: 0 <= j < |r| ==> i <= r[j].node < |nodes|
    decreases |nodes| - i
  {
    [Visit(i, v)] + (if GoesOn(nodes[i], v) then Visits(nodes, nodes[i].nxtAccept.value, Output(nodes[i], v)) else [])
  }

  lemma {:induction false} VisitsLookAhead(nodes: seq<Node>, now: seq<Node>, i: nat, v: int)
    requires Linked(nodes) && Linked(now) && |now| == |nodes| && i < |nodes|
    requires forall k :: i <= k < |nodes| ==> now[k] == nodes[k]
    ensures Visits(now, i, v) == Visits(nodes, i, v)
    decreases |nodes| - i
  {
    if GoesOn(nodes[i], v) {
      VisitsLookAhead(nodes, now, nodes[i].nxtAccept.value, Output(nodes[i], v));
    }
  }

  /** Every future visited is settled by its own body on its own input; no other is touched. */
  ghost predicate SettledBy(nodes: seq<Node>, now: seq<Node>, visits: seq<Visit>)
    requires |now| == |nodes| && forall j :: 0 <= j < |visits| ==> visits[j].node < |nodes|
  {
    && (forall j :: 0 <= j < |visits| ==> now[visits[j].node] == AfterBody(nodes, visits[j].node, visits[j].input))
    && (forall k :: 0 <= k < |nodes| && (forall j :: 0 <= j < |visits| ==> visits[j].node != k) ==> now[k] == nodes[k])
  }

  lemma {:induction false} SettledByVisits(nodes: seq<Node>, i: nat, v: int)
    requires Linked(nodes) && i < |nodes|
    ensures SettledBy(nodes, Settled(nodes, i, v), Visits(nodes, i, v))
    decreases |nodes| - i
  {
    if GoesOn(nodes[i], v) {
      var n, x := nodes[i].nxtAccept.value, Output(nodes[i], v);
      var next := nodes[i := AfterBody(nodes, i, v)];
      VisitsLookAhead(nodes, next, n, x);
      SettledByVisits(next, n, x);
      FirstVisit(nodes, next, Settled(next, n, x), i, v, n, Visits(nodes, n, x));
    } else {
      assert Visits(nodes, i, v) == [Visit(i, v)] && Visits(nodes, i, v)[0].node == i;
    }
  }

  /**
   * What a run leaves in the futures. One that it went through has been rejected if it was before
   * or its body rejects now; it holds what its body returned, unless the body returns nothing or
   * rejecting threw. Bindings and bodies stay as they are, and so do all other futures.
   */
  lemma RunStores(nodes: seq<Node>, i: nat, v: int)
    requires Linked(nodes) && i < |nodes|
    ensures forall j :: 0 <= j < |Visits(nodes, i, v)| ==>
      var visit := Visits(nodes, i, v)[j];
      var before, after := nodes[visit.node], Settled(nodes, i, v)[visit.node];
      match before.kind
      case PassThrough => after == before
      case Payload(body, void) =>
        && (after.errored <==> before.errored || body(visit.input).rejects)
        && after.value == if void || (body(visit.input).rejects && before.nxtForward == Unbound) then before.value
                          else Some(body(visit.input).value)
    ensures forall k :: 0 <= k < |nodes| ==>
      var before, after := nodes[k], Settled(nodes, i, v)[k];
      && after.kind == before.kind && after.nxtAccept == before.nxtAccept && after.nxtForward == before.nxtForward
      && ((forall j :: 0 <= j < |Visits(nodes, i, v)| ==> Visits(nodes, i, v)[j].node != k) ==> after == before)
  {
    SettledByVisits(nodes, i, v);
    var visits, now := Visits(nodes, i, v), Settled(nodes, i, v);
    hide Settled, Visits;
    forall k | 0 <= k < |nodes|
      ensures now[k].kind == nodes[k].kind && now[k].nxtAccept == nodes[k].nxtAccept
              && now[k].nxtForward == nodes[k].nxtForward
    {
      if j :| 0 <= j < |visits| && visits[j].node == k {
        assert now[visits[j].node] == AfterBody(nodes, visits[j].node, visits[j].input);
      }
    }
  }

  /**
   * The futures a run goes through: from one to the one its values are bound to, on what its body
   * returned, as long as it has not been rejected, its body does not reject and returns something.
   */
  lemma {:induction false} VisitsAre(nodes: seq<Node>, i: nat, v: int)
    requires Linked(nodes) && i < |nodes|
    ensures var visits := Visits(nodes, i, v);
      && visits != [] && visits[0] == Visit(i, v)
      && (forall j :: 0 < j < |visits| ==>
            var last, node := visits[j - 1], nodes[visits[j - 1].node];
            && node.nxtAccept == Some(visits[j].node)
            && match node.kind
               case PassThrough => visits[j].input == last.input
               case Payload(body, void) =>
                 !node.errored && !body(last.input).rejects && !void && visits[j].input == body(last.input).value)
      && var last := visits[|visits| - 1];
         var node := nodes[last.node];
         node.nxtAccept.None? ||
         (node.kind.Payload? && (node.errored || node.kind.body(last.input).rejects || node.kind.returnsVoid))
    decreases |nodes| - i
  {
    if GoesOn(nodes[i], v) {
      var n, x := nodes[i].nxtAccept.value, Output(nodes[i], v);
      var visits, more := Visits(nodes, i, v), Visits(nodes, n, x);
      VisitsAre(nodes, n, x);
      assert visits == [Visit(i, v)] + more;
      hide Visits;
      assert forall j :: 0 < j < |visits| ==> visits[j] == more[j - 1];
    } else {
      assert Visits(nodes, i, v) == [Visit(i, v)];
    }
  }

  lemma FirstVisit(nodes: seq<Node>, next: seq<Node>, now: seq<Node>, i: nat, v: int, n: nat, more: seq<Visit>)
    requires i < n < |nodes| == |next| == |now| && next == nodes[i := AfterBody(nodes, i, v)]
    requires forall j :: 0 <= j < |more| ==> n <= more[j].node < |nodes|
    requires SettledBy(next, now, more)
    ensures SettledBy(nodes, now, [Visit(i, v)] + more)
  {
    var visits := [Visit(i, v)] + more;
    hide AfterBody;
    assert now[i] == next[i];
    forall j | 0 <= j < |visits|
      ensures now[visits[j].node] == AfterBody(nodes, visits[j].node, visits[j].input)
    {
      if j > 0 {
        assert visits[j] == more[j - 1];
        SameBody(nodes, next, visits[j].node, visits[j].input);
      }
    }
    forall k | 0 <= k < |nodes| && forall j :: 0 <= j < |visits| ==> visits[j].node != k
      ensures now[k] == nodes[k]
    {
      assert visits[0].node != k;
      assert forall j :: 0 <= j < |more| ==> more[j] == visits[j + 1];
    }
  }

  lemma SameBody(nodes: seq<Node>, now: seq<Node>, i: nat, v: int)
    requires i < |nodes| == |now| && now[i] == nodes[i]
    ensures AfterBody(now, i, v) == AfterBody(nodes, i, v)
  {}

  /** The visits of a run from fresh state are the path it follows, up to the first body that rejects. */
  lemma {:induction false} VisitsFollowPath(nodes: seq<Node>, i: nat, v: int) returns (inputs: seq<int>)
    requires Linked(nodes) && Fresh(nodes) && i < |nodes|
    ensures RunsUpTo(nodes, i, v, inputs) && |Visits(nodes, i, v)| == |inputs|
    ensures forall j :: 0 <= j < |inputs| ==> Visits(nodes, i, v)[j] == Visit(Path(nodes, i)[j], inputs[j])
    decreases |nodes| - i
  {
    inputs := [v];
    if GoesOn(nodes[i], v) {
      var n := nodes[i].nxtAccept.value;
      var more := VisitsFollowPath(nodes, n, Output(nodes[i], v));
      inputs := [v] + more;
      StepRuns(nodes, i, v, n, more);
      assert Path(nodes, i) == [i] + Path(nodes, n);
    } else {
      StopHere(nodes, i, v);
    }
  }
}
