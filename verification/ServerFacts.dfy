// What clients and the source of configurations can count on, step by step and over runs, in terms of the mailbox, the
// one-shots and the configurations themselves.
module ServerFacts {
  import opened Common
  import opened StatusCache
  import opened ServerSystem
  import opened ServerTheory
  import opened ServerRuns

  // ---- The steps of clients ----

  // What an ask puts into the mailbox.
  function Question(s: System, e: Event): Message
    requires e.AskStatus? || e.AskDer? || e.AskDecrypt?
  {
    match e
    case AskStatus => GetStatus(|s.replies|)
    case AskDer => CertificatePublicDer(|s.replies|)
    case AskDecrypt(data) => Decrypt(data, |s.replies|)
  }

  // On an open mailbox an ask makes a one-shot, unanswered, and joins the end of the line with it: at once if fewer
  // than sixteen messages are queued, waiting otherwise. Nothing else changes.
  lemma AskJoinsLine(setup: Setup, s: System, e: Event)
    requires Inv(setup, s) && !s.closed && (e.AskStatus? || e.AskDer? || e.AskDecrypt?)
    ensures var t := Step(setup, s, e); var m := Question(s, e);
      && Pending(t) == Pending(s) + [m] && t.replies == s.replies + [Unanswered]
      && t == (if |s.queue| < 16 then s.(queue := s.queue + [m], admitted := s.admitted + [m])
               else s.(waiting := s.waiting + [m])).(replies := s.replies + [Unanswered])
  {
    PostPends(s.(replies := s.replies + [Unanswered]), Question(s, e));
  }

  // So does every other message but an update, without a one-shot.
  lemma SendJoinsLine(setup: Setup, s: System, m: Message)
    requires Inv(setup, s) && !s.closed && !IsAsk(m) && !m.UpdateConfig?
    ensures var t := Step(setup, s, Send(m));
      && Pending(t) == Pending(s) + [m]
      && t == if |s.queue| < 16 then s.(queue := s.queue + [m], admitted := s.admitted + [m])
              else s.(waiting := s.waiting + [m])
  {
    PostPends(s, m);
  }

  // An update is admitted exactly if fewer than sixteen messages are queued on an open mailbox; otherwise it is gone.
  lemma OfferAdmittedIff(setup: Setup, s: System, config: Config)
    requires Inv(setup, s)
    ensures var t := Step(setup, s, Offer(config)); var m := UpdateConfig(config, s.stamp);
      t == if !s.closed && |s.queue| < 16 then
             s.(queue := s.queue + [m], admitted := s.admitted + [m], stamp := s.stamp + 1)
           else s.(stamp := s.stamp + 1)
  {
  }

  // A closed mailbox takes nothing: an ask is refused with its one-shot, and other messages are gone.
  lemma ClosedTakesNothing(setup: Setup, s: System, e: Event)
    requires Inv(setup, s) && s.closed && !e.Serve?
    ensures Step(setup, s, e) ==
      match e
      case Send(_) => s
      case Offer(_) => s.(stamp := s.stamp + 1)
      case _ => s.(replies := s.replies + [Dropped])
  {
  }

  // ---- The order of messages ----

  // Everything sent and not turned away, in the order it is or will be handled, only ever grows at its end; except that
  // handling a shutdown cuts off those who still wait for space.
  lemma OrderKept(setup: Setup, s: System, e: Event)
    requires Inv(setup, s)
    ensures var t := Step(setup, s, e);
      if e.Serve? && s.service == Some(Shutdown) then
        t.handled + Pending(t) + s.waiting == s.handled + Pending(s)
      else s.handled + Pending(s) <= t.handled + Pending(t)
  {
    if !e.Serve? {
      StepPends(setup, s, e);
      assert s.handled + (Pending(s) + [JoinedBy(s, e)]) == s.handled + Pending(s) + [JoinedBy(s, e)];
    } else if !s.ended {
      if s.service.Some? {
        HandlingKeepsLine(setup, s, s.service.value);
      } else {
        ReceivePends(s);
      }
    }
  }

  lemma HandlingKeepsLine(setup: Setup, s: System, m: Message)
    requires s.service == Some(m)
    ensures var t := Handling(setup, s, m);
      t.handled + Pending(t) + (if m.Shutdown? then s.waiting else []) == s.handled + Pending(s)
  {
    LineMoves(s.handled, m, s.queue, s.waiting);
  }

  lemma LineMoves(handled: seq<Message>, m: Message, queue: seq<Message>, waiting: seq<Message>)
    ensures handled + [m] + ([] + queue + waiting) + [] == handled + ([m] + queue + waiting)
    ensures handled + [m] + ([] + queue + []) + waiting == handled + ([m] + queue + waiting)
  {
  }

  // ---- What the listing shows ----

  // The configuration in force after these messages: the last update's, or the one at start if there is none.
  ghost predicate InForce(initial: Config, messages: seq<Message>, c: Config) {
    || (c == initial && forall j :: 0 <= j < |messages| ==> !messages[j].UpdateConfig?)
    || exists k :: 0 <= k < |messages| && messages[k].UpdateConfig? && messages[k].config == c
         && forall j :: k < j < |messages| ==> !messages[j].UpdateConfig?
  }

  lemma OthersKeepForce(initial: Config, messages: seq<Message>, m: Message, c: Config)
    requires InForce(initial, messages, c) && !m.UpdateConfig?
    ensures InForce(initial, messages + [m], c)
  {
    var all := messages + [m];
    if !(c == initial && forall j :: 0 <= j < |messages| ==> !messages[j].UpdateConfig?) {
      var k :| 0 <= k < |messages| && messages[k].UpdateConfig? && messages[k].config == c
        && forall j :: k < j < |messages| ==> !messages[j].UpdateConfig?;
      assert all[k] == messages[k];
    }
  }

  lemma UpdateTakesForce(initial: Config, messages: seq<Message>, m: Message)
    requires m.UpdateConfig?
    ensures InForce(initial, messages + [m], m.config)
  {
    assert (messages + [m])[|messages|] == m;
  }

  lemma {:induction false} LatestInForce(initial: Config, messages: seq<Message>)
    ensures InForce(initial, messages, Latest(initial, messages))
    decreases |messages|
  {
    if messages != [] {
      var n := |messages| - 1;
      assert messages[..n] + [messages[n]] == messages;
      if messages[n].UpdateConfig? {
        UpdateTakesForce(initial, messages[..n], messages[n]);
      } else {
        LatestInForce(initial, messages[..n]);
        OthersKeepForce(initial, messages[..n], messages[n], Latest(initial, messages[..n]));
      }
    }
  }

  // Every status request handled in any run was told the rendering of the listing with nobody online of the
  // configuration in force at its place in the order of the mailbox.
  lemma StatusShowsConfig(setup: Setup, events: seq<Event>, i: nat)
    requires var s := Run(setup, Start(setup), events); i < |s.handled| && s.handled[i].GetStatus?
    ensures var s := Run(setup, Start(setup), events);
      && s.handled <= s.admitted && s.handled[i].reply < |s.replies|
      && exists c: Config ::
        && InForce(setup.initial, s.admitted[..i], c)
        && s.replies[s.handled[i].reply] == Answered((setup.render)(
             StatusResponse(Some(Version("1.21.5")), Some(Players(c.maxPlayers, 0, [])), c.motd, None, true)))
  {
    var s := Run(setup, Start(setup), events);
    AnsweredOnceAndRight(setup, events);
    LatestInForce(setup.initial, s.admitted[..i]);
  }

  // ---- Updates ----

  // The configurations offered by the source, in order.
  function Offers(events: seq<Event>): seq<Config> {
    if events == [] then []
    else (if events[0].Offer? then [events[0].config] else []) + Offers(events[1..])
  }

  // m is an update offered in these events, whose numbers start at first.
  predicate IsOffer(m: Message, events: seq<Event>, first: nat) {
    m.UpdateConfig? && first <= m.stamp < first + |Offers(events)| && m.config == Offers(events)[m.stamp - first]
  }

  lemma OfferStep(setup: Setup, s: System, e: Event, a: nat)
    requires Inv(setup, s) && |s.admitted| <= a < |Step(setup, s, e).admitted|
    requires Step(setup, s, e).admitted[a].UpdateConfig?
    ensures e.Offer? && Step(setup, s, e).admitted[a] == UpdateConfig(e.config, s.stamp)
  {
  }

  lemma StampStep(setup: Setup, s: System, e: Event)
    ensures Step(setup, s, e).stamp == s.stamp + if e.Offer? then 1 else 0
  {
  }

  lemma {:induction false} UpdatesFromOffers(setup: Setup, s: System, events: seq<Event>)
    requires Inv(setup, s)
    ensures var t := Run(setup, s, events);
      && s.admitted <= t.admitted && t.stamp == s.stamp + |Offers(events)|
      && forall a :: |s.admitted| <= a < |t.admitted| && t.admitted[a].UpdateConfig? ==>
           IsOffer(t.admitted[a], events, s.stamp)
    decreases |events|
  {
    if events != [] {
      var e := events[0];
      var u := Step(setup, s, e);
      StepKeepsInv(setup, s, e);
      AdmittedStays(setup, s, e);
      StampStep(setup, s, e);
      UpdatesFromOffers(setup, u, events[1..]);
      var t := Run(setup, u, events[1..]);
      forall a | |s.admitted| <= a < |t.admitted| && t.admitted[a].UpdateConfig?
        ensures IsOffer(t.admitted[a], events, s.stamp)
      {
        if a < |u.admitted| {
          OfferStep(setup, s, e, a);
          assert u.admitted[a] == t.admitted[a];
        } else {
          assert IsOffer(t.admitted[a], events[1..], u.stamp);
        }
      }
    }
  }

  // The updates the server gets to see are a selection of those offered, in the order they were offered, each with the
  // configuration offered: dropping some on a full mailbox neither doubles, alters nor reorders the others.
  lemma UpdatesAreOffered(setup: Setup, events: seq<Event>)
    ensures var s := Run(setup, Start(setup), events);
      && (forall a :: 0 <= a < |s.admitted| && s.admitted[a].UpdateConfig? ==>
            s.admitted[a].stamp < |Offers(events)| && s.admitted[a].config == Offers(events)[s.admitted[a].stamp])
      && (forall a, b :: 0 <= a < b < |s.admitted| && s.admitted[a].UpdateConfig? && s.admitted[b].UpdateConfig? ==>
            s.admitted[a].stamp < s.admitted[b].stamp)
  {
    StartInv(setup);
    RunKeepsInv(setup, Start(setup), events);
    UpdatesFromOffers(setup, Start(setup), events);
    var s := Run(setup, Start(setup), events);
    forall a | 0 <= a < |s.admitted| && s.admitted[a].UpdateConfig?
      ensures s.admitted[a].stamp < |Offers(events)| && s.admitted[a].config == Offers(events)[s.admitted[a].stamp]
    {
      assert IsOffer(s.admitted[a], events, 0);
    }
  }

  // ---- Lost replies ----

  // At every moment of every run a reply's sender has been dropped exactly if the server tried the decryption it was
  // for and failed, or if the mailbox was shut down before its ask was admitted.
  lemma DroppedIff(setup: Setup, events: seq<Event>, r: nat)
    requires r < |Run(setup, Start(setup), events).replies|
    ensures var s := Run(setup, Start(setup), events);
      s.replies[r] == Dropped
      <==> FailedDecryption(setup, s.handled, r) || (Shutdown in s.handled && !AskIn(s.admitted, r))
  {
    var s := Run(setup, Start(setup), events);
    StartInv(setup);
    RunKeepsInv(setup, Start(setup), events);
    HandledFirst(setup, s);
    AdmittedOwnSlots(setup, s);
    if AskIn(s.handled, r) {
      HandledSlot(setup, s.handled, s.admitted, s.replies, r);
    } else {
      UnhandledSlot(setup, s, r);
    }
  }

  // The ask that one-shot r belongs to is among these messages.
  ghost predicate AskIn(messages: seq<Message>, r: nat) {
    exists i :: 0 <= i < |messages| && IsAsk(messages[i]) && messages[i].reply == r
  }

  ghost predicate FailedDecryption(setup: Setup, handled: seq<Message>, r: nat) {
    exists i :: 0 <= i < |handled| && handled[i].Decrypt? && handled[i].reply == r
      && setup.decrypt(handled[i].data) == None
  }

  // A handled ask decides its slot.
  lemma HandledSlot(setup: Setup, handled: seq<Message>, admitted: seq<Message>, replies: seq<OneShot>, r: nat)
    requires AllAnswered(setup, handled, replies) && handled <= admitted && OwnSlots(admitted, |replies|)
    requires r < |replies| && AskIn(handled, r)
    ensures AskIn(admitted, r) && (replies[r] == Dropped <==> FailedDecryption(setup, handled, r))
  {
    var i :| 0 <= i < |handled| && IsAsk(handled[i]) && handled[i].reply == r;
    assert admitted[i] == handled[i];
    forall j | 0 <= j < |handled| && IsAsk(handled[j]) && handled[j].reply == r ensures j == i {
      assert admitted[j] == handled[j];
    }
  }

  lemma UnhandledSlot(setup: Setup, s: System, r: nat)
    requires Inv(setup, s) && r < |s.replies| && !AskIn(s.handled, r)
    ensures !FailedDecryption(setup, s.handled, r)
    ensures s.replies[r] == Dropped <==> Shutdown in s.handled && !AskIn(s.admitted, r)
  {
    if Place(s.handled, r) < |s.handled| {
      assert AskIn(s.handled, r);
    }
    UnansweredIffPending(Pending(s), s.replies, r);
    AdmittedOrWaiting(s, r);
    if s.closed {
      assert !AskIn(s.waiting, r);
    }
  }

  lemma UnansweredIffPending(pending: seq<Message>, replies: seq<OneShot>, r: nat)
    requires AsksMatch(pending, replies) && r < |replies|
    ensures replies[r] == Unanswered <==> AskIn(pending, r)
  {
    var k := Place(pending, r);
    if replies[r] == Unanswered {
      assert IsAsk(pending[k]) && pending[k].reply == r;
    }
  }

  // An ask that was sent and not turned away was either admitted or still waits, and either handled or is pending.
  lemma AdmittedOrWaiting(s: System, r: nat)
    requires s.admitted == s.handled + InService(s) + s.queue
    ensures AskIn(s.admitted, r) || AskIn(s.waiting, r) <==> AskIn(s.handled, r) || AskIn(Pending(s), r)
  {
    AskInEither(s.admitted, s.waiting, r);
    AskInEither(s.handled, Pending(s), r);
    assert s.handled + Pending(s) == s.admitted + s.waiting;
  }

  lemma AskInEither(a: seq<Message>, b: seq<Message>, r: nat)
    ensures AskIn(a + b, r) <==> AskIn(a, r) || AskIn(b, r)
  {
    var all := a + b;
    if AskIn(a, r) {
      var i :| 0 <= i < |a| && IsAsk(a[i]) && a[i].reply == r;
      assert all[i] == a[i];
    }
    if AskIn(b, r) {
      var i :| 0 <= i < |b| && IsAsk(b[i]) && b[i].reply == r;
      assert all[|a| + i] == b[i];
    }
  }
}
