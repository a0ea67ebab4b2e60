/**
 The river-crossing server's state: a linked list of sessions that the handlers walk and
 rewrite.
 */
module RiverServer {
  import opened River

  class Node {
    const queue: int
    var cargo: Object
    var wolf: bool
    var goat: bool
    var cabbage: bool
    var boat: bool
    var next: Node?

    constructor (queueId: int, rest: Node?)
      ensures Record() == Fresh(queueId) && next == rest
    {
      queue := queueId;
      cargo := Nothing;
      wolf, goat, cabbage, boat := false, false, false, false;
      next := rest;
    }

    function Record(): Session
      reads this
    {
      Session(queue, cargo, wolf, goat, cabbage, boat)
    }

    /** The boat changes shores, and what is in it with it. */
    method Cross()
      modifies this`boat, this`wolf, this`goat, this`cabbage
      ensures Record() == Moved(old(Record()))
    {
      boat := !boat;
      match cargo {
        case Wolf => wolf := boat;
        case Goat => goat := boat;
        case Cabbage => cabbage := boat;
        case _ =>
      }
    }
  }

  ghost function NodeAt(nodes: seq<Node>, i: nat): Node? {
    if i < |nodes| then nodes[i] else null
  }

  ghost predicate Distinct(nodes: seq<Node>) {
    forall i, j :: 0 <= i < j < |nodes| ==> nodes[i] != nodes[j]
  }

  lemma {:induction false} OthersDiffer(nodes: seq<Node>, k: nat)
    requires Distinct(nodes)
    ensures forall j :: 0 <= j < |nodes| && j != k && k < |nodes| ==> nodes[j] != nodes[k]
  {
  }

  /** The list without node k: what stands where. */
  lemma {:induction false} AroundNode(nodes: seq<Node>, k: nat)
    requires Distinct(nodes) && k < |nodes|
    ensures var rest := nodes[..k] + nodes[k + 1..];
            && Distinct(rest)
            && (forall i :: 0 <= i < k ==> NodeAt(rest, i) == NodeAt(nodes, i))
            && (forall i :: k <= i <= |rest| ==> NodeAt(rest, i) == NodeAt(nodes, i + 1))
  {
  }

  ghost function Records(nodes: seq<Node>): (r: seq<Session>)
    reads nodes
    ensures |r| == |nodes| && forall i :: 0 <= i < |nodes| ==> r[i] == nodes[i].Record()
  {
    if nodes == [] then [] else [nodes[0].Record()] + Records(nodes[1..])
  }

  class Server {
    var sessions: Node?
    ghost var nodes: seq<Node>

    /** The list runs through distinct nodes and ends. */
    ghost predicate Valid()
      reads this, nodes
    {
      && Distinct(nodes) && sessions == NodeAt(nodes, 0)
      && forall i {:trigger nodes[i].next} :: 0 <= i < |nodes| ==> nodes[i].next == NodeAt(nodes, i + 1)
    }

    ghost function View(): seq<Session>
      reads this, nodes
    {
      Records(nodes)
    }

    constructor ()
      ensures Valid() && View() == [] && nodes == []
    {
      sessions := null;
      nodes := [];
    }

    /** A new session goes to the front of the list. */
    method RegisterClient(queue: int)
      requires Valid()
      modifies this
      ensures Valid() && View() == [Fresh(queue)] + old(View())
      ensures |nodes| > 0 && nodes[1..] == old(nodes) && fresh(nodes[0])
    {
      var session := new Node(queue, sessions);
      sessions := session;
      nodes := [session] + nodes;
    }

    /** The first session of the queue. */
    method GetSession(queue: int) returns (current: Node?, ghost k: nat)
      requires Valid()
      ensures k == Find(View(), queue) && k <= |nodes| && current == NodeAt(nodes, k)
    {
      current := sessions;
      k := 0;
      while current != null
        invariant 0 <= k <= |nodes| && current == NodeAt(nodes, k)
        invariant forall j :: 0 <= j < k ==> nodes[j].queue != queue
        decreases |nodes| - k
      {
        if current.queue == queue {
          FindIs(View(), queue, k);
          return;
        }
        current := current.next;
        k := k + 1;
      }
      FindIs(View(), queue, k);
    }

    /** The links around node k are closed over it. */
    method Unlink(prev: Node?, current: Node, ghost k: nat)
      requires Valid() && k < |nodes| && current == nodes[k] && prev == (if k == 0 then null else nodes[k - 1])
      modifies this, nodes
      ensures Valid() && nodes == old(nodes[..k] + nodes[k + 1..])
      ensures View() == old(View()[..k] + View()[k + 1..])
    {
      hide Distinct, NodeAt, Records;
      ghost var was, view := nodes, View();
      if k > 0 { OthersDiffer(was, k - 1); }
      AroundNode(was, k);
      if prev == null {
        sessions := current.next;
      } else {
        prev.next := current.next;
      }
      nodes := was[..k] + was[k + 1..];
      forall i | 0 <= i < |nodes|
        ensures nodes[i].next == NodeAt(nodes, i + 1)
      {
        var j := if i < k then i else i + 1;
        assert nodes[i] == was[j];
        assert j != k - 1 ==> was[j].next == NodeAt(was, j + 1);
      }
      SplitRecords(was, view, k, View());
    }

    /** The first session of the queue, if any, is taken out of the list. */
    method UnregisterClient(queue: int)
      requires Valid()
      modifies this, nodes
      ensures Valid()
      ensures View() == Serve(old(View()), Message(queue, Fin)).0
      ensures forall x :: x in nodes ==> x in old(nodes)
    {
      var current := sessions;
      var prev: Node? := null;
      ghost var k := 0;
      ghost var view := View();
      while current != null
        invariant 0 <= k <= |nodes| && current == NodeAt(nodes, k)
        invariant prev == if k == 0 then null else nodes[k - 1]
        invariant nodes == old(nodes) && Valid() && View() == view
        invariant forall j :: 0 <= j < k ==> nodes[j].queue != queue
        decreases |nodes| - k
      {
        if current.queue == queue {
          FindIs(view, queue, k);
          Unlink(prev, current, k);
          return;
        }
        prev := current;
        current := current.next;
        k := k + 1;
      }
      FindIs(view, queue, k);
    }

    // ----- the handlers -----

    method HandleInit(queue: int) returns (reply: Reply)
      requires Valid()
      modifies this
      ensures Valid() && (View(), reply) == Serve(old(View()), Message(queue, Init))
      ensures reply == Done
      ensures |nodes| > 0 && nodes[1..] == old(nodes) && fresh(nodes[0])
    {
      RegisterClient(queue);
      reply := Done;
    }

    method HandleTake(queue: int, what: Object) returns (reply: Reply)
      requires Valid()
      modifies nodes
      ensures Valid() && (View(), reply) == Serve(old(View()), Message(queue, Take(what)))
      ensures var view, k := old(View()), Find(old(View()), queue);
              (reply == Done <==> k < |view| && view[k].cargo == Nothing) && (reply != Done ==> reply.Error? && View() == view)
    {
      hide Serve, Distinct, Find, Records;
      ghost var view, k := View(), 0;
      var session;
      session, k := GetSession(queue);
      OthersDiffer(nodes, k);
      if session == null {
        NotRegistered(view, Message(queue, Take(what)));
        return Error("Not registered");
      }
      if session.cargo != Nothing {
        Served(view, Message(queue, Take(what)), k, View());
        return Error("Object already in boat");
      }
      session.cargo := what;
      Served(view, Message(queue, Take(what)), k, View());
      reply := Done;
    }

    method HandlePut(queue: int) returns (reply: Reply)
      requires Valid()
      modifies nodes
      ensures Valid() && (View(), reply) == Serve(old(View()), Message(queue, Put))
      ensures var view, k := old(View()), Find(old(View()), queue);
              (reply.Error? <==> k == |view| || view[k].cargo == Nothing) && (reply.Error? ==> View() == view)
    {
      hide Serve, Distinct, Find, Records;
      ghost var view, k := View(), 0;
      var session;
      session, k := GetSession(queue);
      OthersDiffer(nodes, k);
      if session == null {
        NotRegistered(view, Message(queue, Put));
        return Error("Not registered");
      }
      if session.cargo == Nothing {
        Served(view, Message(queue, Put), k, View());
        return Error("No object in boat");
      }
      session.cargo := Nothing;
      Served(view, Message(queue, Put), k, View());
      var allMoved := session.wolf && session.goat && session.cabbage && session.boat;
      if allMoved {
        return AllMoved;
      }
      reply := Done;
    }

    method HandleMove(queue: int) returns (reply: Reply)
      requires Valid()
      modifies nodes
      ensures Valid() && (View(), reply) == Serve(old(View()), Message(queue, Move))
      ensures var view, k := old(View()), Find(old(View()), queue);
              k == |view| ==> reply.Error? && View() == view
    {
      hide Serve, Distinct, Find, Records;
      ghost var view, k := View(), 0;
      var session;
      session, k := GetSession(queue);
      OthersDiffer(nodes, k);
      if session == null {
        NotRegistered(view, Message(queue, Move));
        return Error("Not registered");
      }
      session.Cross();
      Served(view, Message(queue, Move), k, View());
      if session.wolf == session.goat && session.wolf != session.boat {
        return Error("Goat eaten");
      }
      if session.goat == session.cabbage && session.goat != session.boat {
        return Error("Cabbage eaten");
      }
      reply := Done;
    }

    method HandleFin(queue: int) returns (reply: Reply)
      requires Valid()
      modifies this, nodes
      ensures Valid() && (View(), reply) == Serve(old(View()), Message(queue, Fin))
      ensures forall x :: x in nodes ==> x in old(nodes)
    {
      UnregisterClient(queue);
      reply := Silent;
    }

    /** One message of the main loop. */
    method Handle(m: Message) returns (reply: Reply)
      requires Valid()
      modifies this, nodes
      ensures Valid() && (View(), reply) == Serve(old(View()), m)
      ensures forall x :: x in nodes ==> x in old(nodes) || fresh(x)
    {
      match m.request {
        case Init => reply := HandleInit(m.queue);
        case Take(what) => reply := HandleTake(m.queue, what);
        case Put => reply := HandlePut(m.queue);
        case Move => reply := HandleMove(m.queue);
        case Fin => reply := HandleFin(m.queue);
      }
    }

    /** The main loop over any interleaving of messages. */
    method Run(messages: seq<Message>) returns (replies: seq<Reply>)
      requires Valid() && nodes == []
      modifies this
      ensures Valid() && View() == ServeAll([], messages) && replies == Answers(messages)
    {
      hide Serve;
      replies := [];
      var i := 0;
      while i < |messages|
        invariant 0 <= i <= |messages| && Valid() && View() == ServeAll([], messages[..i])
        invariant replies == Answers(messages[..i])
        invariant fresh(nodes)
      {
        ghost var before := nodes;
        var reply := Handle(messages[i]);
        forall j | 0 <= j < |nodes|
          ensures fresh(nodes[j])
        {
          assert nodes[j] in nodes;
          if nodes[j] in before { assert exists l :: 0 <= l < |before| && before[l] == nodes[j]; }
        }
        replies := replies + [reply];
        assert messages[..i + 1][..i] == messages[..i];
        i := i + 1;
      }
      assert messages[..i] == messages;
    }
  }

  lemma {:induction false} NotRegistered(view: seq<Session>, m: Message)
    requires Find(view, m.queue) == |view| && !m.request.Init? && !m.request.Fin?
    ensures Serve(view, m) == (view, Error("Not registered"))
  {
  }

  /** A list of sessions that differs at the session found, where it is what the request makes of it. */
  lemma {:induction false} Served(view: seq<Session>, m: Message, k: nat, after: seq<Session>)
    requires k == Find(view, m.queue) < |view| == |after| && !m.request.Init? && !m.request.Fin?
    requires forall j :: 0 <= j < |view| && j != k ==> after[j] == view[j]
    requires after[k] == Act(view[k], m.request).0
    ensures Serve(view, m) == (after, Act(view[k], m.request).1)
  {
    assert after == view[k := Act(view[k], m.request).0];
  }

  lemma SplitRecords(was: seq<Node>, view: seq<Session>, k: nat, after: seq<Session>)
    requires k < |was| == |view| && |after| == |was| - 1
    requires forall i :: 0 <= i < |after| ==> after[i] == view[if i < k then i else i + 1]
    ensures after == view[..k] + view[k + 1..]
  {
  }
}
