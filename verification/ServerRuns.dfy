// Every run of the server system: the invariant, and what follows from it.
module ServerRuns {
  import opened Common
  import opened StatusCache
  import opened ServerSystem
  import opened ServerTheory

  // The mailbox is bounded; senders wait only for a full and open one; the loop ends only on a closed and empty one.
  ghost predicate Bounded(s: System) {
    && |s.queue| <= MAILBOX_SIZE
    && (s.waiting != [] ==> |s.queue| == MAILBOX_SIZE)
    && (s.closed ==> s.waiting == [])
    && (s.ended ==> s.closed && s.queue == [] && s.service == None)
  }

  // What was admitted is what was handled, what is in service, and what is queued, in this order; the mailbox is
  // closed exactly when a shutdown was handled; the listing shows the configuration last handled.
  ghost predicate InOrder(setup: Setup, s: System) {
    && s.admitted == s.handled + InService(s) + s.queue
    && (s.closed <==> Shutdown in s.handled)
    && s.status == Render(setup, Latest(setup.initial, s.handled))
  }

  // Updates are admitted in the order of their source, and none of them waits.
  ghost predicate Stamped(s: System) {
    StampsRise(s.admitted, s.stamp) && forall i :: 0 <= i < |s.waiting| ==> !s.waiting[i].UpdateConfig?
  }

  ghost predicate StampsRise(admitted: seq<Message>, bound: nat) {
    && (forall i :: 0 <= i < |admitted| && admitted[i].UpdateConfig? ==> admitted[i].stamp < bound)
    && (forall i, j :: 0 <= i < j < |admitted| && admitted[i].UpdateConfig? && admitted[j].UpdateConfig? ==>
          admitted[i].stamp < admitted[j].stamp)
  }

  ghost predicate Inv(setup: Setup, s: System) {
    && Bounded(s) && InOrder(setup, s) && Stamped(s)
    && RepliesRight(setup, s.handled, Pending(s), s.replies)
  }

  lemma StartInv(setup: Setup)
    ensures Inv(setup, Start(setup))
  {
  }

  // ---- The steps of clients ----

  lemma PostPends(s: System, m: Message)
    requires !s.closed
    ensures Pending(Post(s, m)) == Pending(s) + [m]
  {
    if |s.queue| < MAILBOX_SIZE && s.waiting == [] {
      assert InService(s) + (s.queue + [m]) + [] == InService(s) + s.queue + [] + [m];
    } else {
      assert InService(s) + s.queue + (s.waiting + [m]) == InService(s) + s.queue + s.waiting + [m];
    }
  }

  lemma StampJoins(admitted: seq<Message>, bound: nat, m: Message, bound': nat)
    requires StampsRise(admitted, bound) && bound <= bound'
    requires m.UpdateConfig? ==> bound <= m.stamp < bound'
    ensures StampsRise(admitted + [m], bound')
  {
  }

  lemma PostKeepsOrder(setup: Setup, s: System, m: Message)
    requires Bounded(s) && InOrder(setup, s)
    ensures Bounded(Post(s, m)) && InOrder(setup, Post(s, m))
  {
    assert s.handled + InService(s) + s.queue + [m] == s.handled + InService(s) + (s.queue + [m]);
  }

  lemma PostKeepsStamps(s: System, m: Message)
    requires Stamped(s) && !m.UpdateConfig?
    ensures Stamped(Post(s, m))
  {
    StampJoins(s.admitted, s.stamp, m, s.stamp);
  }

  lemma AskKeepsInv(setup: Setup, s: System, m: Message)
    requires Inv(setup, s) && IsAsk(m) && m.reply == |s.replies|
    ensures Inv(setup, Ask(s, m))
  {
    var t := s.(replies := Ask(s, m).replies);
    PostKeepsOrder(setup, t, m);
    PostKeepsStamps(t, m);
    if s.closed {
      RefusalKeeps(setup, s.handled, Pending(s), s.replies);
    } else {
      PostPends(t, m);
      AskKeeps(setup, s.handled, Pending(s), s.replies, m);
    }
  }

  lemma SendKeepsInv(setup: Setup, s: System, m: Message)
    requires Inv(setup, s) && !IsAsk(m) && !m.UpdateConfig?
    ensures Inv(setup, Post(s, m))
  {
    PostKeepsOrder(setup, s, m);
    PostKeepsStamps(s, m);
    if !s.closed {
      PostPends(s, m);
      OtherKeeps(setup, s.handled, Pending(s), s.replies, m);
    }
  }

  lemma OfferKeepsInv(setup: Setup, s: System, config: Config)
    requires Inv(setup, s)
    ensures Inv(setup, Offering(s, config))
  {
    var m := UpdateConfig(config, s.stamp);
    var t := s.(stamp := s.stamp + 1);
    if !s.closed && |s.queue| < MAILBOX_SIZE {
      PostKeepsOrder(setup, t, m);
      StampJoins(s.admitted, s.stamp, m, t.stamp);
      PostPends(t, m);
      OtherKeeps(setup, s.handled, Pending(s), s.replies, m);
    }
  }

  // ---- The steps of the server ----

  // Receiving moves messages forward in one line: handled, in service, queued, waiting.
  lemma ReceivePends(s: System)
    requires s.service == None && s.admitted == s.handled + InService(s) + s.queue
    ensures var t := Receiving(s);
      Pending(t) == Pending(s) && t.admitted == t.handled + InService(t) + t.queue
  {
    if s.queue != [] {
      if s.waiting == [] {
        HeadMoves(s.handled, s.queue);
      } else {
        HeadAndFirstMove(s.handled, s.queue, s.waiting);
      }
    }
  }

  lemma HeadMoves(handled: seq<Message>, queue: seq<Message>)
    requires queue != []
    ensures [queue[0]] + queue[1..] + [] == [] + queue + []
    ensures handled + [queue[0]] + queue[1..] == handled + [] + queue
  {
  }

  lemma HeadAndFirstMove(handled: seq<Message>, queue: seq<Message>, waiting: seq<Message>)
    requires queue != [] && waiting != []
    ensures [queue[0]] + (queue[1..] + [waiting[0]]) + waiting[1..] == [] + queue + waiting
    ensures handled + [queue[0]] + (queue[1..] + [waiting[0]]) == handled + [] + queue + [waiting[0]]
  {
  }

  lemma ReceiveKeepsStamps(s: System)
    requires Stamped(s)
    ensures Stamped(Receiving(s))
  {
    if s.queue != [] && s.waiting != [] {
      StampJoins(s.admitted, s.stamp, s.waiting[0], s.stamp);
    }
  }

  lemma ReceiveKeepsInv(setup: Setup, s: System)
    requires Inv(setup, s) && s.service == None && !s.ended
    ensures Inv(setup, Receiving(s)) && Pending(Receiving(s)) == Pending(s)
  {
    ReceivePends(s);
    ReceiveKeepsStamps(s);
  }

  lemma HandlingKeepsBounds(setup: Setup, s: System, m: Message)
    requires Bounded(s) && Stamped(s) && s.service == Some(m)
    ensures Bounded(Handling(setup, s, m)) && Stamped(Handling(setup, s, m))
  {
  }

  lemma HandlingKeepsOrder(setup: Setup, s: System, m: Message)
    requires InOrder(setup, s) && s.service == Some(m)
    ensures InOrder(setup, Handling(setup, s, m))
  {
    HandledGrows(setup, s.handled, m, s.queue);
  }

  lemma HandledGrows(setup: Setup, handled: seq<Message>, m: Message, queue: seq<Message>)
    ensures handled + [m] + [] + queue == handled + [m] + queue
    ensures Shutdown in handled + [m] <==> Shutdown in handled || m == Shutdown
    ensures Latest(setup.initial, handled + [m]) == if m.UpdateConfig? then m.config else Latest(setup.initial, handled)
  {
    assert (handled + [m])[..|handled|] == handled;
  }

  lemma PendingInService(s: System)
    requires s.service.Some?
    ensures Pending(s) != [] && Pending(s)[0] == s.service.value && Pending(s)[1..] == s.queue + s.waiting
  {
    assert Pending(s) == [s.service.value] + (s.queue + s.waiting);
  }

  lemma HandlingKeepsReplies(setup: Setup, s: System, m: Message)
    requires RepliesRight(setup, s.handled, Pending(s), s.replies)
    requires InOrder(setup, s) && s.service == Some(m)
    ensures var t := Handling(setup, s, m); RepliesRight(setup, t.handled, Pending(t), t.replies)
  {
    PendingInService(s);
    assert [] + s.queue + s.waiting == s.queue + s.waiting;
    if IsAsk(m) {
      AnswerKeeps(setup, s.handled, Pending(s), s.replies);
    } else {
      HandledKeeps(setup, s.handled, Pending(s), s.replies);
      if m.Shutdown? {
        DropKeeps(setup, s.handled + [m], s.queue, s.waiting, s.replies);
        assert [] + s.queue + [] == s.queue;
      }
    }
  }

  lemma HandleKeepsInv(setup: Setup, s: System, m: Message)
    requires Inv(setup, s) && s.service == Some(m)
    ensures Inv(setup, Handling(setup, s, m))
  {
    HandlingKeepsBounds(setup, s, m);
    HandlingKeepsOrder(setup, s, m);
    HandlingKeepsReplies(setup, s, m);
  }

  lemma StepKeepsInv(setup: Setup, s: System, e: Event)
    requires Inv(setup, s)
    ensures Inv(setup, Step(setup, s, e))
  {
    match e {
      case AskStatus => AskKeepsInv(setup, s, GetStatus(|s.replies|));
      case AskDer => AskKeepsInv(setup, s, CertificatePublicDer(|s.replies|));
      case AskDecrypt(data) => AskKeepsInv(setup, s, Decrypt(data, |s.replies|));
      case Send(m) => if !IsAsk(m) && !m.UpdateConfig? { SendKeepsInv(setup, s, m); }
      case Offer(config) => OfferKeepsInv(setup, s, config);
      case Serve =>
        if !s.ended {
          if s.service.Some? {
            HandleKeepsInv(setup, s, s.service.value);
          } else {
            ReceiveKeepsInv(setup, s);
          }
        }
    }
  }

  lemma {:induction false} RunKeepsInv(setup: Setup, s: System, events: seq<Event>)
    requires Inv(setup, s)
    ensures Inv(setup, Run(setup, s, events))
    decreases |events|
  {
    if events != [] {
      StepKeepsInv(setup, s, events[0]);
      RunKeepsInv(setup, Step(setup, s, events[0]), events[1..]);
    }
  }

  // ---- No client waits for ever ----

  predicate ServerReady(s: System) {
    !s.ended && (s.service.Some? || s.queue != [])
  }

  // How many steps of the server it takes, at most, until the one-shot r is resolved.
  function Distance(s: System, r: nat): nat {
    2 * Place(Pending(s), r) + if s.service.Some? then 1 else 2
  }

  // Whenever a client waits, for a reply or for space in the mailbox, the server can take a step; and that step
  // resolves the one-shot waited for or brings it nearer.
  lemma WaitingMeansProgress(setup: Setup, s: System, r: nat)
    requires Inv(setup, s) && r < |s.replies| && s.replies[r] == Unanswered
    ensures ServerReady(s)
    ensures var t := Step(setup, s, Serve);
      |t.replies| == |s.replies| && (t.replies[r] != Unanswered || Distance(t, r) < Distance(s, r))
  {
    assert Place(Pending(s), r) < |Pending(s)|;
    if s.service.Some? {
      HandlingBringsNearer(setup, s, s.service.value, r);
    } else {
      ReceivePends(s);
    }
  }

  // Two steps of the server shorten the line of those who wait for space.
  lemma WaitingForSpaceMeansProgress(setup: Setup, s: System)
    requires Inv(setup, s) && s.waiting != []
    ensures ServerReady(s)
    ensures |Step(setup, Step(setup, s, Serve), Serve).waiting| < |s.waiting|
  {
  }

  lemma HandlingBringsNearer(setup: Setup, s: System, m: Message, r: nat)
    requires Inv(setup, s) && s.service == Some(m) && r < |s.replies| && s.replies[r] == Unanswered
    ensures var t := Handling(setup, s, m);
      |t.replies| == |s.replies| && (t.replies[r] != Unanswered || Distance(t, r) < Distance(s, r))
  {
    PendingInService(s);
    if m.Shutdown? {
      ShutdownBringsNearer(setup, s, r);
    } else {
      assert [] + s.queue + s.waiting == s.queue + s.waiting;
    }
  }

  lemma ShutdownBringsNearer(setup: Setup, s: System, r: nat)
    requires AsksMatch(Pending(s), s.replies) && s.service == Some(Shutdown)
    requires r < |s.replies| && s.replies[r] == Unanswered
    ensures var t := Handling(setup, s, Shutdown);
      |t.replies| == |s.replies| && (t.replies[r] != Unanswered || Distance(t, r) < Distance(s, r))
  {
    PendingInService(s);
    OtherLeaves(Pending(s), s.replies);
    DropBringsNearer(s.queue, s.waiting, s.replies, r);
    assert [] + s.queue + [] == s.queue;
    assert Place(Pending(s), r) == 1 + Place(s.queue + s.waiting, r);
  }

  lemma DropBringsNearer(queue: seq<Message>, waiting: seq<Message>, replies: seq<OneShot>, r: nat)
    requires AsksMatch(queue + waiting, replies) && r < |replies| && replies[r] == Unanswered
    ensures var replies' := DropAll(replies, waiting);
      && |replies'| == |replies|
      && (replies'[r] != Unanswered || Place(queue, r) == Place(queue + waiting, r))
  {
    TailDropped(queue, waiting, replies);
    PlaceAppend(queue, waiting, r);
  }

  // What clients do meanwhile neither resolves nor delays it.
  lemma OthersDoNotDelay(setup: Setup, s: System, e: Event, r: nat)
    requires Inv(setup, s) && r < |s.replies| && s.replies[r] == Unanswered && !e.Serve?
    ensures var t := Step(setup, s, e);
      |t.replies| >= |s.replies| && t.replies[r] == Unanswered && Distance(t, r) == Distance(s, r)
  {
    assert Place(Pending(s), r) < |Pending(s)|;
    var t := Step(setup, s, e);
    if Pending(t) != Pending(s) {
      var m := JoinedBy(s, e);
      assert Pending(t) == Pending(s) + [m] by { StepPends(setup, s, e); }
      PlaceAppend(Pending(s), [m], r);
    }
  }

  // The message an event adds, if the mailbox is open.
  function JoinedBy(s: System, e: Event): Message {
    match e
    case AskStatus => GetStatus(|s.replies|)
    case AskDer => CertificatePublicDer(|s.replies|)
    case AskDecrypt(data) => Decrypt(data, |s.replies|)
    case Send(m) => m
    case Offer(config) => UpdateConfig(config, s.stamp)
    case Serve => Shutdown
  }

  lemma StepPends(setup: Setup, s: System, e: Event)
    requires !e.Serve?
    ensures var t := Step(setup, s, e);
      Pending(t) == Pending(s) || Pending(t) == Pending(s) + [JoinedBy(s, e)]
  {
    if !s.closed {
      PostPends(s, JoinedBy(s, e));
    }
  }

  function Serves(events: seq<Event>): nat {
    if events == [] then 0 else (if events[0].Serve? then 1 else 0) + Serves(events[1..])
  }

  lemma {:induction false} AnswerStands(setup: Setup, s: System, events: seq<Event>, r: nat)
    requires Inv(setup, s) && r < |s.replies| && s.replies[r] != Unanswered
    ensures var t := Run(setup, s, events); r < |t.replies| && t.replies[r] == s.replies[r]
    decreases |events|
  {
    if events != [] {
      StepKeepsAnswer(setup, s, events[0], r);
      StepKeepsInv(setup, s, events[0]);
      AnswerStands(setup, Step(setup, s, events[0]), events[1..], r);
    }
  }

  lemma StepKeepsAnswer(setup: Setup, s: System, e: Event, r: nat)
    requires Inv(setup, s) && r < |s.replies| && s.replies[r] != Unanswered
    ensures var t := Step(setup, s, e); r < |t.replies| && t.replies[r] == s.replies[r]
  {
    if e.Serve? && !s.ended && s.service.Some? {
      HandlingKeepsAnswer(setup, s, s.service.value, r);
    }
  }

  lemma HandlingKeepsAnswer(setup: Setup, s: System, m: Message, r: nat)
    requires AsksMatch(Pending(s), s.replies) && s.service == Some(m) && r < |s.replies| && s.replies[r] != Unanswered
    ensures var t := Handling(setup, s, m); |t.replies| == |s.replies| && t.replies[r] == s.replies[r]
  {
    PendingInService(s);
    if m.Shutdown? {
      OtherLeaves(Pending(s), s.replies);
      TailDropped(s.queue, s.waiting, s.replies);
    }
  }

  // Every ask the mailbox was offered is resolved after at most Distance further steps of the server, whatever
  // clients do in between, and its one-shot then never changes.
  lemma {:induction false} EventuallyAnswered(setup: Setup, s: System, events: seq<Event>, r: nat)
    requires Inv(setup, s) && r < |s.replies|
    requires s.replies[r] == Unanswered ==> Serves(events) >= Distance(s, r)
    ensures var t := Run(setup, s, events); r < |t.replies| && t.replies[r] != Unanswered
    decreases |events|
  {
    if s.replies[r] != Unanswered {
      AnswerStands(setup, s, events, r);
    } else {
      StepKeepsInv(setup, s, events[0]);
      if events[0].Serve? {
        WaitingMeansProgress(setup, s, r);
      } else {
        OthersDoNotDelay(setup, s, events[0], r);
      }
      EventuallyAnswered(setup, Step(setup, s, events[0]), events[1..], r);
    }
  }

  // ---- Answers ----

  function Asks(messages: seq<Message>): nat {
    if messages == [] then 0 else (if IsAsk(messages[0]) then 1 else 0) + Asks(messages[1..])
  }

  lemma {:induction false} AsksAppend(a: seq<Message>, b: seq<Message>)
    ensures Asks(a + b) == Asks(a) + Asks(b)
  {
    if a == [] {
      assert a + b == b;
    } else {
      assert (a + b)[1..] == a[1..] + b;
      AsksAppend(a[1..], b);
    }
  }

  lemma AdmittedOwnSlots(setup: Setup, s: System)
    requires Inv(setup, s)
    ensures OwnSlots(s.admitted, |s.replies|)
  {
    assert s.handled + Pending(s) == s.admitted + s.waiting;
    SlotsOfPrefix(s.admitted, s.waiting, |s.replies|);
  }

  // At every moment of every run: the asks admitted are those handled, in service, and queued, each with a one-shot of
  // its own; each handled one has the answer to its own request, at its place in the mailbox order, and its sender was
  // dropped exactly when the decryption it asked for failed; and no one-shot is answered but by handling its ask.
  lemma AnsweredOnceAndRight(setup: Setup, events: seq<Event>)
    ensures var s := Run(setup, Start(setup), events);
      && |s.queue| <= MAILBOX_SIZE && s.handled <= s.admitted
      && Asks(s.admitted) == Asks(s.handled) + Asks(InService(s)) + Asks(s.queue)
      && OwnSlots(s.admitted, |s.replies|) && AnswersEarned(s.handled, s.replies)
      && forall i :: 0 <= i < |s.handled| && IsAsk(s.handled[i]) ==>
           var m := s.handled[i];
           && m.reply < |s.replies|
           && s.replies[m.reply] == AnswerTo(setup, Render(setup, Latest(setup.initial, s.admitted[..i])), m)
           && (s.replies[m.reply] == Dropped <==> m.Decrypt? && setup.decrypt(m.data).None?)
  {
    var s := Run(setup, Start(setup), events);
    StartInv(setup);
    RunKeepsInv(setup, Start(setup), events);
    AdmittedOwnSlots(setup, s);
    AsksAppend(s.handled + InService(s), s.queue);
    AsksAppend(s.handled, InService(s));
    HandledRight(setup, s);
  }

  lemma HandledRight(setup: Setup, s: System)
    requires InOrder(setup, s) && AllAnswered(setup, s.handled, s.replies)
    ensures s.handled <= s.admitted
    ensures forall i :: 0 <= i < |s.handled| && IsAsk(s.handled[i]) ==>
      var m := s.handled[i];
      && m.reply < |s.replies|
      && s.replies[m.reply] == AnswerTo(setup, Render(setup, Latest(setup.initial, s.admitted[..i])), m)
      && (s.replies[m.reply] == Dropped <==> m.Decrypt? && setup.decrypt(m.data).None?)
  {
    forall i | 0 <= i < |s.handled| && IsAsk(s.handled[i]) ensures s.admitted[..i] == s.handled[..i] {
    }
  }

  // How many steps of the server it takes, at most, until the i-th message admitted has been handled.
  function StepsUntil(s: System, i: nat): nat {
    if i < |s.handled| then 0 else 2 * (i - |s.handled|) + if s.service.Some? then 1 else 2
  }

  lemma AdmittedStays(setup: Setup, s: System, e: Event)
    ensures s.admitted <= Step(setup, s, e).admitted && s.handled <= Step(setup, s, e).handled
  {
  }

  lemma AdmittedComesNearer(setup: Setup, s: System, e: Event, i: nat)
    requires Inv(setup, s) && |s.handled| <= i < |s.admitted|
    ensures StepsUntil(Step(setup, s, e), i) + (if e.Serve? then 1 else 0) <= StepsUntil(s, i)
  {
  }

  lemma {:induction false} AdmittedIsHandled(setup: Setup, s: System, events: seq<Event>, i: nat)
    requires Inv(setup, s) && i < |s.admitted| && Serves(events) >= StepsUntil(s, i)
    ensures var t := Run(setup, s, events); i < |t.handled| && s.admitted <= t.admitted
    decreases |events|
  {
    if events != [] {
      StepKeepsInv(setup, s, events[0]);
      AdmittedStays(setup, s, events[0]);
      if i >= |s.handled| {
        AdmittedComesNearer(setup, s, events[0], i);
      }
      AdmittedIsHandled(setup, Step(setup, s, events[0]), events[1..], i);
    }
  }

  // Every ask admitted in any run comes to be handled within a bounded number of steps of the server, whatever clients
  // do in between; then its own one-shot, which no other ask shares, holds the answer to its own request at its place
  // in the mailbox order.
  lemma EveryAskAnswered(setup: Setup, events: seq<Event>, more: seq<Event>, i: nat)
    requires var s := Run(setup, Start(setup), events);
      i < |s.admitted| && IsAsk(s.admitted[i]) && Serves(more) >= StepsUntil(s, i)
    ensures var s := Run(setup, Start(setup), events);
      var t := Run(setup, s, more);
      var m := s.admitted[i];
      && i < |t.handled| && t.handled[i] == m && m.reply < |t.replies|
      && t.replies[m.reply] == AnswerTo(setup, Render(setup, Latest(setup.initial, s.admitted[..i])), m)
      && (forall j :: 0 <= j < |t.admitted| && j != i && IsAsk(t.admitted[j]) ==> t.admitted[j].reply != m.reply)
  {
    StartInv(setup);
    RunKeepsInv(setup, Start(setup), events);
    var s := Run(setup, Start(setup), events);
    RunKeepsInv(setup, s, more);
    AdmittedIsHandled(setup, s, more, i);
    HandledIsAnswered(setup, Run(setup, s, more), s.admitted, i);
  }

  lemma HandledIsAnswered(setup: Setup, t: System, admitted: seq<Message>, i: nat)
    requires Inv(setup, t) && admitted <= t.admitted && i < |admitted| && i < |t.handled| && IsAsk(admitted[i])
    ensures var m := admitted[i];
      && t.handled[i] == m && m.reply < |t.replies|
      && t.replies[m.reply] == AnswerTo(setup, Render(setup, Latest(setup.initial, admitted[..i])), m)
      && (forall j :: 0 <= j < |t.admitted| && j != i && IsAsk(t.admitted[j]) ==> t.admitted[j].reply != m.reply)
  {
    AdmittedOwnSlots(setup, t);
    HandledFirst(setup, t);
    assert t.handled[i] == t.admitted[i] == admitted[i];
    assert t.handled[..i] == t.admitted[..i] == admitted[..i];
  }

  lemma HandledFirst(setup: Setup, s: System)
    requires InOrder(setup, s)
    ensures s.handled <= s.admitted
  {
  }

  // The number of the update in force after these messages; -1 for the configuration at start.
  function LatestStamp(messages: seq<Message>): int {
    if messages == [] then -1
    else
      var n := |messages| - 1;
      if messages[n].UpdateConfig? then messages[n].stamp else LatestStamp(messages[..n])
  }

  lemma {:induction false} LatestStampGrows(s: System, i: nat, j: nat)
    requires Stamped(s) && i <= j <= |s.admitted|
    ensures LatestStamp(s.admitted[..i]) <= LatestStamp(s.admitted[..j])
    ensures forall k :: 0 <= k < j && s.admitted[k].UpdateConfig? ==>
      s.admitted[k].stamp <= LatestStamp(s.admitted[..j])
    ensures LatestStamp(s.admitted[..j]) >= -1
    decreases j
  {
    if j > 0 {
      var before := s.admitted[..j - 1];
      assert s.admitted[..j][..j - 1] == before;
      LatestStampGrows(s, if i < j then i else j - 1, j - 1);
      if s.admitted[j - 1].UpdateConfig? {
        StampBelow(s, before, j - 1);
      }
    }
  }

  lemma {:induction false} StampBelow(s: System, before: seq<Message>, j: nat)
    requires Stamped(s) && j < |s.admitted| && s.admitted[j].UpdateConfig?
    requires before <= s.admitted[..j]
    ensures LatestStamp(before) < s.admitted[j].stamp
    decreases |before|
  {
    if before != [] {
      var n := |before| - 1;
      assert before[n] == s.admitted[n];
      StampBelow(s, before[..n], j);
    }
  }

  // Status replies never show an older configuration than an earlier one did, however many updates were dropped on a
  // full mailbox.
  lemma StatusNeverGoesBack(setup: Setup, events: seq<Event>, i: nat, j: nat)
    requires var s := Run(setup, Start(setup), events);
      i < j < |s.handled| && s.handled[i].GetStatus? && s.handled[j].GetStatus?
    ensures var s := Run(setup, Start(setup), events);
      && s.handled <= s.admitted && s.handled[i].reply < |s.replies| && s.handled[j].reply < |s.replies|
      && s.replies[s.handled[i].reply] == Answered(Render(setup, Latest(setup.initial, s.admitted[..i])))
      && s.replies[s.handled[j].reply] == Answered(Render(setup, Latest(setup.initial, s.admitted[..j])))
      && LatestStamp(s.admitted[..i]) <= LatestStamp(s.admitted[..j])
  {
    var s := Run(setup, Start(setup), events);
    AnsweredOnceAndRight(setup, events);
    StartInv(setup);
    RunKeepsInv(setup, Start(setup), events);
    LatestStampGrows(s, i, j);
  }

  // ---- Shutdown ----

  // The loop ends only after a shutdown was handled, with every admitted message handled in order and no one-shot left
  // unanswered.
  lemma EndsDrained(setup: Setup, events: seq<Event>)
    requires Run(setup, Start(setup), events).ended
    ensures var s := Run(setup, Start(setup), events);
      && Shutdown in s.handled && s.handled == s.admitted
      && forall r :: 0 <= r < |s.replies| ==> s.replies[r] != Unanswered
  {
    var s := Run(setup, Start(setup), events);
    StartInv(setup);
    RunKeepsInv(setup, Start(setup), events);
    assert Pending(s) == [];
  }

  // A closed mailbox stays closed and admits nothing; an ask made then is refused at once.
  lemma {:induction false} ClosedAdmitsNothing(setup: Setup, s: System, events: seq<Event>)
    requires Inv(setup, s) && s.closed
    ensures var t := Run(setup, s, events);
      && t.closed && t.admitted == s.admitted && t.waiting == []
      && forall r :: |s.replies| <= r < |t.replies| ==> t.replies[r] == Dropped
    decreases |events|
  {
    if events != [] {
      var u := Step(setup, s, events[0]);
      StepKeepsInv(setup, s, events[0]);
      ClosedStep(setup, s, events[0]);
      ClosedAdmitsNothing(setup, u, events[1..]);
      if |u.replies| > |s.replies| {
        AnswerStands(setup, u, events[1..], |s.replies|);
      }
    }
  }

  lemma ClosedStep(setup: Setup, s: System, e: Event)
    requires Inv(setup, s) && s.closed
    ensures var u := Step(setup, s, e);
      && u.closed && u.admitted == s.admitted
      && (u.replies == s.replies + [Dropped] || |u.replies| == |s.replies|)
  {
    if e.Serve? && !s.ended && s.service.Some? && s.service.value.Shutdown? {
      assert DropAll(s.replies, []) == s.replies;
    }
  }

  // The steps of the server left until its loop ends, once the mailbox is closed.
  function StepsLeft(s: System): nat {
    if s.ended then 0 else 2 * |s.queue| + (if s.service.Some? then 1 else 0) + 1
  }

  // After a shutdown the loop ends within that many steps of the server.
  lemma {:induction false} DrainTerminates(setup: Setup, s: System, events: seq<Event>)
    requires Inv(setup, s) && s.closed && Serves(events) >= StepsLeft(s)
    ensures Run(setup, s, events).ended
    decreases |events|
  {
    if events != [] {
      StepKeepsInv(setup, s, events[0]);
      ClosedStep(setup, s, events[0]);
      DrainTerminates(setup, Step(setup, s, events[0]), events[1..]);
    }
  }

  // The mailbox is closed exactly from the moment a shutdown was handled.
  lemma ClosedIffShutDown(setup: Setup, events: seq<Event>)
    ensures var s := Run(setup, Start(setup), events); s.closed <==> Shutdown in s.handled
  {
    StartInv(setup);
    RunKeepsInv(setup, Start(setup), events);
  }

  // A shutdown that was admitted ends the loop within a bounded number of steps of the server: those until it is
  // handled, and those for the sixteen messages that can be queued behind it.
  lemma ShutdownEndsLoop(setup: Setup, events: seq<Event>, more: seq<Event>, i: nat)
    requires var s := Run(setup, Start(setup), events);
      i < |s.admitted| && s.admitted[i] == Shutdown && Serves(more) >= StepsUntil(s, i) + 34
    ensures Run(setup, Run(setup, Start(setup), events), more).ended
  {
    StartInv(setup);
    RunKeepsInv(setup, Start(setup), events);
    AdmittedShutdownEnds(setup, Run(setup, Start(setup), events), more, i);
  }

  lemma {:induction false} AdmittedShutdownEnds(setup: Setup, s: System, events: seq<Event>, i: nat)
    requires Inv(setup, s) && i < |s.admitted| && s.admitted[i] == Shutdown
    requires Serves(events) >= StepsUntil(s, i) + 34
    ensures Run(setup, s, events).ended
    decreases |events|
  {
    if i < |s.handled| {
      HandledFirst(setup, s);
      assert s.handled[i] == Shutdown;
      assert s.closed && StepsLeft(s) <= 34;
      DrainTerminates(setup, s, events);
    } else {
      StepKeepsInv(setup, s, events[0]);
      AdmittedStays(setup, s, events[0]);
      AdmittedComesNearer(setup, s, events[0], i);
      AdmittedShutdownEnds(setup, Step(setup, s, events[0]), events[1..], i);
    }
  }
}
