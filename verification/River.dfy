/**
 The river-crossing puzzle as the server keeps it: one session per registered client, and what
 each request does to the session found for its queue.
 */
module River {

  datatype Object = Wolf | Goat | Cabbage | Nothing | Unknown(code: int)

  /** What a session records: the boat's cargo, and who is on the right shore. */
  datatype Session = Session(queue: int, cargo: Object, wolf: bool, goat: bool, cabbage: bool, boat: bool)

  datatype Request = Init | Take(what: Object) | Put | Move | Fin
  datatype Message = Message(queue: int, request: Request)

  datatype Reply = Done | AllMoved | Error(text: string) | Silent

  function Fresh(queue: int): Session {
    Session(queue, Nothing, false, false, false, false)
  }

  // ----- one session -----

  function Moved(s: Session): Session {
    var b := !s.boat;
    match s.cargo
    case Wolf => s.(boat := b, wolf := b)
    case Goat => s.(boat := b, goat := b)
    case Cabbage => s.(boat := b, cabbage := b)
    case _ => s.(boat := b)
  }

  predicate GoatEaten(s: Session) {
    s.wolf == s.goat && s.wolf != s.boat
  }

  predicate CabbageEaten(s: Session) {
    s.goat == s.cabbage && s.goat != s.boat
  }

  /** A request other than Init and Fin, for a registered client. A rejected move has moved all the same. */
  function Act(s: Session, r: Request): (Session, Reply)
    requires !r.Init? && !r.Fin?
  {
    match r
    case Take(what) =>
      if s.cargo != Nothing then (s, Error("Object already in boat")) else (s.(cargo := what), Done)
    case Put =>
      if s.cargo == Nothing then (s, Error("No object in boat"))
      else (s.(cargo := Nothing), if s.wolf && s.goat && s.cabbage && s.boat then AllMoved else Done)
    case Move =>
      var s' := Moved(s);
      (s', if GoatEaten(s') then Error("Goat eaten") else if CabbageEaten(s') then Error("Cabbage eaten") else Done)
  }

  // ----- the laws of the requests -----

  /** A new session: nothing in the boat, and everything on the left. */
  lemma FreshSession(queue: int)
    ensures var s := Fresh(queue);
            s.queue == queue && s.cargo == Nothing && !s.wolf && !s.goat && !s.cabbage && !s.boat
  {
  }

  /** Granted exactly when the boat is empty; otherwise nothing changes. */
  lemma TakeLaw(s: Session, what: Object)
    ensures var (s', reply) := Act(s, Take(what));
            && (reply == Done <==> s.cargo == Nothing)
            && (reply != Done ==> reply == Error("Object already in boat") && s' == s)
            && (reply == Done ==> s'.cargo == what)
            && SameShores(s, s') && s'.queue == s.queue
  {
  }

  predicate SameShores(s: Session, s': Session) {
    s'.wolf == s.wolf && s'.goat == s.goat && s'.cabbage == s.cabbage && s'.boat == s.boat
  }

  /** Refused exactly when the boat is empty; the answer tells whether all three and the boat are on the right. */
  lemma PutLaw(s: Session)
    ensures var (s', reply) := Act(s, Put);
            && (reply.Error? <==> s.cargo == Nothing) && (reply.Error? ==> reply == Error("No object in boat"))
            && (reply == AllMoved <==> s.cargo != Nothing && s.wolf && s.goat && s.cabbage && s.boat)
            && (reply == Error("No object in boat") || reply == AllMoved || reply == Done)
            && s'.cargo == Nothing && SameShores(s, s') && s'.queue == s.queue
  {
  }

  /** The boat changes shores with exactly its cargo; the answer is an error if that leaves two alone that must not be. */
  lemma MoveLaw(s: Session)
    ensures var (s', reply) := Act(s, Move);
            && s'.boat != s.boat && s'.cargo == s.cargo && s'.queue == s.queue
            && s'.wolf == (if s.cargo == Wolf then s'.boat else s.wolf)
            && s'.goat == (if s.cargo == Goat then s'.boat else s.goat)
            && s'.cabbage == (if s.cargo == Cabbage then s'.boat else s.cabbage)
            && var goatEaten, cabbageEaten := s'.wolf == s'.goat != s'.boat, s'.goat == s'.cabbage != s'.boat;
            && (reply == Error("Goat eaten") <==> goatEaten)
            && (reply == Error("Cabbage eaten") <==> cabbageEaten && !goatEaten)
            && (reply == Done <==> !goatEaten && !cabbageEaten)
  {
  }

  // ----- the list of sessions, newest first -----

  /** The position of the first session of a queue; the length if there is none. */
  function Find(sessions: seq<Session>, queue: int): (i: nat)
    ensures i <= |sessions| && (i < |sessions| ==> sessions[i].queue == queue)
  {
    if sessions == [] || sessions[0].queue == queue then 0 else 1 + Find(sessions[1..], queue)
  }

  function Serve(sessions: seq<Session>, m: Message): (seq<Session>, Reply) {
    var i := Find(sessions, m.queue);
    match m.request
    case Init => ([Fresh(m.queue)] + sessions, Done)
    case Fin => (if i < |sessions| then sessions[..i] + sessions[i + 1..] else sessions, Silent)
    case r =>
      if i < |sessions| then (sessions[i := Act(sessions[i], r).0], Act(sessions[i], r).1)
      else (sessions, Error("Not registered"))
  }

  /** Registering puts a session in front and is confirmed; a queue without a session is told so. */
  lemma ServeLaw(sessions: seq<Session>, m: Message)
    ensures m.request.Init? ==> Serve(sessions, m) == ([Fresh(m.queue)] + sessions, Done)
    ensures m.request.Fin? ==> Serve(sessions, m).1 == Silent
    ensures !m.request.Init? && !m.request.Fin? && (forall s :: s in sessions ==> s.queue != m.queue) ==>
              Serve(sessions, m) == (sessions, Error("Not registered"))
  {
    var i := Find(sessions, m.queue);
    if i < |sessions| { assert sessions[i] in sessions; }
  }

  /** Any other request reaches the queue's first session, and no other. */
  lemma ServeFound(sessions: seq<Session>, m: Message, i: nat)
    requires !m.request.Init? && !m.request.Fin? && i < |sessions| && sessions[i].queue == m.queue
    requires forall j :: 0 <= j < i ==> sessions[j].queue != m.queue
    ensures var (after, reply) := Serve(sessions, m);
            && |after| == |sessions| && (forall j :: 0 <= j < |sessions| && j != i ==> after[j] == sessions[j])
            && (after[i], reply) == Act(sessions[i], m.request)
  {
    FindIs(sessions, m.queue, i);
  }

  /** Leaving takes the queue's first session out of the list, and no other. */
  lemma FinLaw(sessions: seq<Session>, queue: int, i: nat)
    requires i <= |sessions| && forall j :: 0 <= j < i ==> sessions[j].queue != queue
    requires i < |sessions| ==> sessions[i].queue == queue
    ensures var after := Serve(sessions, Message(queue, Fin)).0;
            && (i == |sessions| ==> after == sessions)
            && (i < |sessions| ==> |after| == |sessions| - 1)
            && (forall j :: 0 <= j < i ==> after[j] == sessions[j])
            && (forall j :: i < j < |sessions| ==> after[j - 1] == sessions[j])
  {
    FindIs(sessions, queue, i);
  }

  /** The position of a queue's first session: it matches and none before it does. */
  lemma {:induction false} FindIs(sessions: seq<Session>, queue: int, k: nat)
    requires k <= |sessions| && forall j :: 0 <= j < k ==> sessions[j].queue != queue
    requires k < |sessions| ==> sessions[k].queue == queue
    ensures Find(sessions, queue) == k
  {
    if k > 0 {
      forall j | 0 <= j < k - 1
        ensures sessions[1..][j].queue != queue
      {
        assert sessions[1..][j] == sessions[j + 1];
      }
      FindIs(sessions[1..], queue, k - 1);
    }
  }

  function ServeAll(sessions: seq<Session>, messages: seq<Message>): seq<Session> {
    if messages == [] then sessions
    else
      var last := |messages| - 1;
      Serve(ServeAll(sessions, messages[..last]), messages[last]).0
  }

  /** What is answered to each message, from a server without sessions. */
  function Answers(messages: seq<Message>): (replies: seq<Reply>)
    ensures |replies| == |messages|
  {
    if messages == [] then []
    else
      var last := |messages| - 1;
      Answers(messages[..last]) + [Serve(ServeAll([], messages[..last]), messages[last]).1]
  }

  /** Each message meets the sessions that all messages before it have left, and is answered from them. */
  lemma {:induction false} AnswerIs(messages: seq<Message>, k: nat)
    requires k < |messages|
    ensures (ServeAll([], messages[..k + 1]), Answers(messages)[k]) == Serve(ServeAll([], messages[..k]), messages[k])
    ensures ServeAll([], []) == []
  {
    hide Serve;
    assert messages[..k + 1][..k] == messages[..k];
    var last := |messages| - 1;
    if k < last {
      AnswerIs(messages[..last], k);
      assert messages[..last][..k] == messages[..k];
    }
  }

  // ----- the view of one client -----

  function SessionsOf(sessions: seq<Session>, queue: int): seq<Session> {
    if sessions == [] then []
    else (if sessions[0].queue == queue then [sessions[0]] else []) + SessionsOf(sessions[1..], queue)
  }

  /**
   What a client has asked of each of its open sessions, the newest first: Init opens one, Fin
   closes the newest, anything else goes to the newest.
   */
  function Asked(messages: seq<Message>, queue: int): seq<seq<Request>> {
    if messages == [] then []
    else
      var last := messages[|messages| - 1];
      var before := Asked(messages[..|messages| - 1], queue);
      if last.queue != queue then before
      else if last.request.Init? then [[]] + before
      else if before == [] then []
      else if last.request.Fin? then before[1..]
      else [before[0] + [last.request]] + before[1..]
  }

  ghost predicate Plain(requests: seq<Request>) {
    forall r :: r in requests ==> !r.Init? && !r.Fin?
  }

  /** A session replayed from its own requests. */
  ghost function Replay(queue: int, requests: seq<Request>): Session
    requires Plain(requests)
  {
    if requests == [] then Fresh(queue)
    else
      var last := |requests| - 1;
      Act(Replay(queue, requests[..last]), requests[last]).0
  }

  ghost predicate Replays(sessions: seq<Session>, queue: int, asked: seq<seq<Request>>) {
    |sessions| == |asked| && forall i :: 0 <= i < |asked| ==> Plain(asked[i]) && sessions[i] == Replay(queue, asked[i])
  }

  lemma {:induction false} SessionsOfAppend(a: seq<Session>, b: seq<Session>, queue: int)
    ensures SessionsOf(a + b, queue) == SessionsOf(a, queue) + SessionsOf(b, queue)
  {
    if a == [] {
      assert a + b == b;
    } else {
      assert (a + b)[0] == a[0] && (a + b)[1..] == a[1..] + b;
      SessionsOfAppend(a[1..], b, queue);
      var first := if a[0].queue == queue then [a[0]] else [];
      assert SessionsOf(a + b, queue) == first + SessionsOf(a[1..] + b, queue);
      assert first + (SessionsOf(a[1..], queue) + SessionsOf(b, queue)) == (first + SessionsOf(a[1..], queue)) + SessionsOf(b, queue);
    }
  }

  /** The first session of a queue is the first of its own. */
  lemma {:induction false} FindFirst(sessions: seq<Session>, queue: int)
    ensures var i := Find(sessions, queue);
            && SessionsOf(sessions[..i], queue) == []
            && (i < |sessions| ==> SessionsOf(sessions, queue) == [sessions[i]] + SessionsOf(sessions[i + 1..], queue))
            && (i == |sessions| ==> SessionsOf(sessions, queue) == [])
  {
    if sessions != [] && sessions[0].queue != queue {
      FindFirst(sessions[1..], queue);
      var k := Find(sessions[1..], queue);
      assert sessions[..k + 1][1..] == sessions[1..][..k];
      if k + 1 < |sessions| { assert sessions[k + 2..] == sessions[1..][k + 1..]; }
    }
  }

  lemma {:induction false} OtherQueue(s: Session, queue: int)
    ensures SessionsOf([s], queue) == if s.queue == queue then [s] else []
  {
    assert [s][1..] == [];
  }

  /** The parts of the list around the session that a request meets. */
  lemma {:induction false} Parts(sessions: seq<Session>, queue: int, other: int)
    ensures var i := Find(sessions, other);
            i < |sessions| ==>
              && SessionsOf(sessions, queue) == SessionsOf(sessions[..i], queue) + SessionsOf([sessions[i]], queue) + SessionsOf(sessions[i + 1..], queue)
              && SessionsOf(sessions[..i] + sessions[i + 1..], queue) == SessionsOf(sessions[..i], queue) + SessionsOf(sessions[i + 1..], queue)
  {
    var i := Find(sessions, other);
    if i < |sessions| {
      assert sessions == sessions[..i] + [sessions[i]] + sessions[i + 1..];
      SessionsOfAppend(sessions[..i] + [sessions[i]], sessions[i + 1..], queue);
      SessionsOfAppend(sessions[..i], [sessions[i]], queue);
      SessionsOfAppend(sessions[..i], sessions[i + 1..], queue);
    }
  }

  lemma {:induction false} Replaced(sessions: seq<Session>, i: nat, s: Session, queue: int)
    requires i < |sessions|
    ensures SessionsOf(sessions[i := s], queue)
            == SessionsOf(sessions[..i], queue) + SessionsOf([s], queue) + SessionsOf(sessions[i + 1..], queue)
  {
    assert sessions[i := s] == sessions[..i] + [s] + sessions[i + 1..];
    SessionsOfAppend(sessions[..i] + [s], sessions[i + 1..], queue);
    SessionsOfAppend(sessions[..i], [s], queue);
  }

  /** A message of another client leaves a client's sessions alone. */
  lemma {:induction false} OthersDoNotMatter(sessions: seq<Session>, m: Message, queue: int)
    requires m.queue != queue
    ensures SessionsOf(Serve(sessions, m).0, queue) == SessionsOf(sessions, queue)
  {
    hide SessionsOf, Find;
    var i := Find(sessions, m.queue);
    Parts(sessions, queue, m.queue);
    if m.request.Init? {
      SessionsOfAppend([Fresh(m.queue)], sessions, queue);
      OtherQueue(Fresh(m.queue), queue);
    } else if i < |sessions| {
      OtherQueue(sessions[i], queue);
      if !m.request.Fin? {
        var s' := Act(sessions[i], m.request).0;
        Replaced(sessions, i, s', queue);
        OtherQueue(s', queue);
      }
    }
  }

  /** A client's own message acts on its newest session only. */
  lemma {:induction false} OwnMessage(sessions: seq<Session>, m: Message)
    ensures var own := SessionsOf(sessions, m.queue);
            var own' := SessionsOf(Serve(sessions, m).0, m.queue);
            match m.request
            case Init => own' == [Fresh(m.queue)] + own
            case Fin => own' == if own == [] then [] else own[1..]
            case r => own' == (if own == [] then [] else [Act(own[0], r).0] + own[1..])
                      && Serve(sessions, m).1 == (if own == [] then Error("Not registered") else Act(own[0], r).1)
  {
    hide SessionsOf, Find;
    var q := m.queue;
    var i := Find(sessions, q);
    FindFirst(sessions, q);
    Parts(sessions, q, q);
    if m.request.Init? {
      SessionsOfAppend([Fresh(q)], sessions, q);
      OtherQueue(Fresh(q), q);
    } else if i < |sessions| {
      OtherQueue(sessions[i], q);
      if !m.request.Fin? {
        var s' := Act(sessions[i], m.request).0;
        Replaced(sessions, i, s', q);
        OtherQueue(s', q);
      }
    }
  }

  /** In any interleaving, a client's sessions are a replay of its own requests alone. */
  lemma {:induction false} Isolation(messages: seq<Message>, queue: int)
    ensures Replays(SessionsOf(ServeAll([], messages), queue), queue, Asked(messages, queue))
  {
    if messages != [] {
      hide Serve, SessionsOf;
      var last := |messages| - 1;
      var m := messages[last];
      Isolation(messages[..last], queue);
      var before := ServeAll([], messages[..last]);
      if m.queue != queue {
        OthersDoNotMatter(before, m, queue);
      } else {
        OwnMessage(before, m);
        ReplayStep(SessionsOf(before, queue), queue, Asked(messages[..last], queue), m.request);
      }
    } else {
      assert SessionsOf([], queue) == [];
    }
  }

  lemma ReplayStep(own: seq<Session>, queue: int, asked: seq<seq<Request>>, r: Request)
    requires Replays(own, queue, asked)
    ensures r.Init? ==> Replays([Fresh(queue)] + own, queue, [[]] + asked)
    ensures r.Fin? && own != [] ==> Replays(own[1..], queue, asked[1..])
    ensures !r.Init? && !r.Fin? && own != [] ==>
              Replays([Act(own[0], r).0] + own[1..], queue, [asked[0] + [r]] + asked[1..])
  {
    if !r.Init? && !r.Fin? && own != [] {
      var grown := asked[0] + [r];
      assert Plain(grown) && grown[..|grown| - 1] == asked[0];
      assert Replay(queue, grown) == Act(own[0], r).0;
    }
  }

  /** The session that a lookup finds is the replay of the newest session's requests. */
  lemma {:induction false} FoundSession(messages: seq<Message>, queue: int)
    ensures var sessions := ServeAll([], messages);
            var i, asked := Find(sessions, queue), Asked(messages, queue);
            if asked == [] then i == |sessions|
            else i < |sessions| && Plain(asked[0]) && sessions[i] == Replay(queue, asked[0])
  {
    Isolation(messages, queue);
    FindFirst(ServeAll([], messages), queue);
  }

  function OwnMessages(messages: seq<Message>, queue: int): seq<Message> {
    if messages == [] then []
    else
      var last := |messages| - 1;
      OwnMessages(messages[..last], queue) + if messages[last].queue == queue then [messages[last]] else []
  }

  /** What is replayed depends on the client's own messages only. */
  lemma AskedAlone(messages: seq<Message>, queue: int)
    ensures Asked(OwnMessages(messages, queue), queue) == Asked(messages, queue)
  {
    if messages != [] {
      var last := |messages| - 1;
      AskedAlone(messages[..last], queue);
      var own := OwnMessages(messages[..last], queue);
      if messages[last].queue == queue {
        var all := own + [messages[last]];
        assert all[..|all| - 1] == own && all[|all| - 1] == messages[last];
      } else {
        assert own + [] == own;
      }
    }
  }

  // ----- how many moves a crossing takes -----

  /** The replies to the requests of one session. */
  ghost function Replies(queue: int, requests: seq<Request>): (replies: seq<Reply>)
    requires Plain(requests)
    ensures |replies| == |requests|
  {
    if requests == [] then []
    else
      var last := |requests| - 1;
      Replies(queue, requests[..last]) + [Act(Replay(queue, requests[..last]), requests[last]).1]
  }

  ghost predicate NoError(replies: seq<Reply>) {
    forall r :: r in replies ==> !r.Error?
  }

  // ----- what a session's answers tell about it -----

  predicate Granted(r: Request, reply: Reply) {
    r.Take? && reply == Done
  }

  predicate Unloaded(r: Request, reply: Reply) {
    r.Put? && !reply.Error?
  }

  /** Request k is a take that was granted, the last one, and nothing was put down after it. */
  ghost predicate LastLoad(queue: int, requests: seq<Request>, k: nat)
    requires Plain(requests) && k < |requests|
  {
    var replies := Replies(queue, requests);
    Granted(requests[k], replies[k]) &&
    forall j :: k < j < |requests| ==> !Granted(requests[j], replies[j]) && !Unloaded(requests[j], replies[j])
  }

  /** The cargo is what the last granted take named, if nothing was put down since; otherwise there is none. */
  lemma {:induction false} CargoOfRun(queue: int, requests: seq<Request>)
    requires Plain(requests)
    ensures forall k :: 0 <= k < |requests| && LastLoad(queue, requests, k) ==> Replay(queue, requests).cargo == requests[k].what
    ensures (forall k :: 0 <= k < |requests| ==> !LastLoad(queue, requests, k)) ==> Replay(queue, requests).cargo == Nothing
  {
    if requests != [] {
      hide Act;
      var last := |requests| - 1;
      var before, s := requests[..last], Replay(queue, requests[..last]);
      CargoOfRun(queue, before);
      CargoStep(s, requests[last]);
      AnswerAt(queue, requests);
      if Granted(requests[last], Replies(queue, requests)[last]) {
        assert LastLoad(queue, requests, last);
        assert forall k :: 0 <= k < last ==> !LastLoad(queue, requests, k);
      } else {
        forall k | 0 <= k < last
          ensures LastLoad(queue, requests, k)
                  <==> LastLoad(queue, before, k) && !Unloaded(requests[last], Replies(queue, requests)[last])
        {
          EarlierLoad(queue, requests, k);
        }
      }
    }
  }

  lemma CargoStep(s: Session, r: Request)
    requires !r.Init? && !r.Fin?
    ensures var (s', reply) := Act(s, r);
            s'.cargo == if Granted(r, reply) then r.what else if Unloaded(r, reply) then Nothing else s.cargo
  {
  }

  /** The answers to the first requests do not depend on the last one. */
  lemma AnswerAt(queue: int, requests: seq<Request>)
    requires Plain(requests) && requests != []
    ensures var last := |requests| - 1;
            && Replies(queue, requests)[last] == Act(Replay(queue, requests[..last]), requests[last]).1
            && forall k :: 0 <= k < last ==> Replies(queue, requests)[k] == Replies(queue, requests[..last])[k]
  {
  }

  lemma EarlierLoad(queue: int, requests: seq<Request>, k: nat)
    requires Plain(requests) && k < |requests| - 1
    requires !Granted(requests[|requests| - 1], Replies(queue, requests)[|requests| - 1])
    ensures LastLoad(queue, requests, k)
            <==> LastLoad(queue, requests[..|requests| - 1], k)
                 && !Unloaded(requests[|requests| - 1], Replies(queue, requests)[|requests| - 1])
  {
    hide Act, Replay;
    var last := |requests| - 1;
    AnswerAt(queue, requests);
    var replies, before := Replies(queue, requests), Replies(queue, requests[..last]);
    assert forall j :: 0 <= j < last ==> requests[..last][j] == requests[j] && before[j] == replies[j];
  }

  /** The boat is on the right after an odd number of moves, rejected ones counted. */
  lemma {:induction false} BoatOfRun(queue: int, requests: seq<Request>)
    requires Plain(requests)
    ensures Replay(queue, requests).boat <==> Moves(requests) % 2 == 1
  {
    if requests != [] { BoatOfRun(queue, requests[..|requests| - 1]); }
  }

  /** No move was answered by an error; other requests may have been. */
  ghost predicate MovesAccepted(queue: int, requests: seq<Request>)
    requires Plain(requests)
  {
    forall k :: 0 <= k < |requests| && requests[k].Move? ==> !Replies(queue, requests)[k].Error?
  }

  lemma AcceptedBefore(queue: int, requests: seq<Request>)
    requires Plain(requests) && requests != [] && MovesAccepted(queue, requests)
    ensures MovesAccepted(queue, requests[..|requests| - 1])
    ensures requests[|requests| - 1].Move? ==> !Act(Replay(queue, requests[..|requests| - 1]), requests[|requests| - 1]).1.Error?
  {
    var last := |requests| - 1;
    var before := Replies(queue, requests[..last]);
    assert forall k :: 0 <= k < last ==> requests[k] == requests[..last][k] && Replies(queue, requests)[k] == before[k];
    assert Replies(queue, requests)[last] == Act(Replay(queue, requests[..last]), requests[last]).1;
  }

  function Moves(requests: seq<Request>): nat {
    if requests == [] then 0
    else Moves(requests[..|requests| - 1]) + if requests[|requests| - 1].Move? then 1 else 0
  }

  /** The fewest moves that lead to the shores of a session without an error; -1 for shores never reached so. */
  function Level(s: Session): int {
    match (s.wolf, s.goat, s.cabbage, s.boat)
    case (false, false, false, false) => 0
    case (false, true, false, true) => 1
    case (false, true, false, false) => 2
    case (true, true, false, true) => 3
    case (false, true, true, true) => 3
    case (true, false, false, false) => 4
    case (false, false, true, false) => 4
    case (true, false, true, true) => 5
    case (true, false, true, false) => 6
    case (true, true, true, true) => 7
    case _ => -1
  }

  /** A move without an error gains one level at most. */
  lemma LevelStep(s: Session)
    requires Level(s) >= 0 && !GoatEaten(Moved(s)) && !CabbageEaten(Moved(s))
    ensures 0 <= Level(Moved(s)) <= Level(s) + 1
  {
  }

  lemma {:induction false} LevelBound(queue: int, requests: seq<Request>)
    requires Plain(requests) && MovesAccepted(queue, requests)
    ensures 0 <= Level(Replay(queue, requests)) <= Moves(requests)
  {
    if requests != [] {
      var last := |requests| - 1;
      AcceptedBefore(queue, requests);
      LevelBound(queue, requests[..last]);
      if requests[last].Move? { LevelStep(Replay(queue, requests[..last])); }
    }
  }

  /**
   A session that is told all were moved has asked for seven moves, unless one of its moves was
   rejected. Errors about taking and putting down do not matter.
   */
  lemma {:induction false} SevenMoves(queue: int, requests: seq<Request>)
    requires Plain(requests) && MovesAccepted(queue, requests) && AllMoved in Replies(queue, requests)
    ensures Moves(requests) >= 7
  {
    var last := |requests| - 1;
    AcceptedBefore(queue, requests);
    if AllMoved in Replies(queue, requests[..last]) {
      SevenMoves(queue, requests[..last]);
    } else {
      LevelBound(queue, requests[..last]);
    }
  }

  /** Twice those on the right shore, less one if the boat is there. */
  function Ferried(s: Session): int {
    2 * (if s.wolf then 1 else 0) + 2 * (if s.goat then 1 else 0) + 2 * (if s.cabbage then 1 else 0) - if s.boat then 1 else 0
  }

  lemma {:induction false} FerriedBound(queue: int, requests: seq<Request>)
    requires Plain(requests)
    ensures Ferried(Replay(queue, requests)) <= Moves(requests)
  {
    if requests != [] { FerriedBound(queue, requests[..|requests| - 1]); }
  }

  /** Five moves it takes in any case, rejected ones counted. */
  lemma {:induction false} FiveMoves(queue: int, requests: seq<Request>)
    requires Plain(requests) && AllMoved in Replies(queue, requests)
    ensures Moves(requests) >= 5
  {
    var last := |requests| - 1;
    if AllMoved in Replies(queue, requests[..last]) {
      FiveMoves(queue, requests[..last]);
    } else {
      FerriedBound(queue, requests[..last]);
    }
  }

  /** Whatever the other clients send in between. */
  lemma {:induction false} AllMovedNeedsSeven(messages: seq<Message>, m: Message)
    requires Serve(ServeAll([], messages), m).1 == AllMoved
    ensures var asked := Asked(messages, m.queue);
            asked != [] && Plain(asked[0]) && Moves(asked[0]) >= 5 && (MovesAccepted(m.queue, asked[0]) ==> Moves(asked[0]) >= 7)
  {
    FoundSession(messages, m.queue);
    var asked := Asked(messages, m.queue);
    FerriedBound(m.queue, asked[0]);
    if MovesAccepted(m.queue, asked[0]) { LevelBound(m.queue, asked[0]); }
  }

  lemma {:induction false} OneMore(queue: int, requests: seq<Request>, r: Request)
    requires Plain(requests) && !r.Init? && !r.Fin?
    ensures Plain(requests + [r]) && Replay(queue, requests + [r]) == Act(Replay(queue, requests), r).0
    ensures Replies(queue, requests + [r]) == Replies(queue, requests) + [Act(Replay(queue, requests), r).1]
    ensures Moves(requests + [r]) == Moves(requests) + if r.Move? then 1 else 0
  {
    var all := requests + [r];
    assert all[..|all| - 1] == requests;
  }

  /** One crossing: take something along unless the boat goes empty, and put it down again. */
  lemma {:induction false} Crossing(queue: int, requests: seq<Request>, what: Object) returns (longer: seq<Request>)
    requires Plain(requests) && Replay(queue, requests).cargo == Nothing
    ensures Plain(longer)
    ensures var s := Moved(Replay(queue, requests).(cargo := what));
            && Replay(queue, longer) == s.(cargo := Nothing) && Moves(longer) == Moves(requests) + 1
            && (NoError(Replies(queue, requests)) && !GoatEaten(s) && !CabbageEaten(s) ==> NoError(Replies(queue, longer)))
            && (what != Nothing && s.wolf && s.goat && s.cabbage && s.boat ==> AllMoved in Replies(queue, longer))
  {
    hide Replay, Replies, Moves;
    if what == Nothing {
      OneMore(queue, requests, Move);
      longer := requests + [Move];
    } else {
      OneMore(queue, requests, Take(what));
      var taken := requests + [Take(what)];
      OneMore(queue, taken, Move);
      var moved := taken + [Move];
      OneMore(queue, moved, Put);
      longer := moved + [Put];
    }
  }

  lemma {:induction false} NothingYet(queue: int)
    ensures Plain([]) && Replay(queue, []) == Fresh(queue) && Replies(queue, []) == [] && Moves([]) == 0
  {
  }

  /** Seven moves are enough. */
  lemma {:induction false} SevenSuffice(queue: int) returns (requests: seq<Request>)
    ensures Plain(requests) && Moves(requests) == 7
    ensures NoError(Replies(queue, requests)) && AllMoved in Replies(queue, requests)
  {
    hide Replay, Replies, Moves;
    requests := [];
    NothingYet(queue);
    requests := Crossing(queue, requests, Goat);
    requests := Crossing(queue, requests, Nothing);
    requests := Crossing(queue, requests, Wolf);
    requests := Crossing(queue, requests, Goat);
    requests := Crossing(queue, requests, Cabbage);
    requests := Crossing(queue, requests, Nothing);
    requests := Crossing(queue, requests, Goat);
  }

  /** A client that ignores error replies is told so after five moves: a rejected move is made all the same. */
  lemma {:induction false} FiveWithErrors(queue: int) returns (requests: seq<Request>)
    ensures Plain(requests) && Moves(requests) == 5 && AllMoved in Replies(queue, requests)
  {
    hide Replay, Replies, Moves;
    requests := [];
    NothingYet(queue);
    requests := Crossing(queue, requests, Wolf);
    requests := Crossing(queue, requests, Nothing);
    requests := Crossing(queue, requests, Goat);
    requests := Crossing(queue, requests, Nothing);
    requests := Crossing(queue, requests, Cabbage);
  }
}
