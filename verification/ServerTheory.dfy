// What the server promises its clients, in every run of the system.
module ServerTheory {
  import opened ServerSystem

  // ---- Asks and their one-shots ----

  // Every pending ask has an unanswered one-shot, of its own.
  ghost predicate AsksOpen(pending: seq<Message>, replies: seq<OneShot>) {
    && (forall i :: 0 <= i < |pending| && IsAsk(pending[i]) ==>
          pending[i].reply < |replies| && replies[pending[i].reply] == Unanswered)
    && (forall i, j :: 0 <= i < j < |pending| && IsAsk(pending[i]) && IsAsk(pending[j]) ==>
          pending[i].reply != pending[j].reply)
  }

  // Every unanswered one-shot belongs to a pending ask.
  ghost predicate OpenPending(pending: seq<Message>, replies: seq<OneShot>) {
    forall r :: 0 <= r < |replies| && replies[r] == Unanswered ==> Place(pending, r) < |pending|
  }

  ghost predicate AsksMatch(pending: seq<Message>, replies: seq<OneShot>) {
    AsksOpen(pending, replies) && OpenPending(pending, replies)
  }

  // The index of the ask that r belongs to; the length if there is none.
  function Place(pending: seq<Message>, r: nat): (i: nat)
    ensures i <= |pending|
    ensures i < |pending| ==> IsAsk(pending[i]) && pending[i].reply == r
  {
    if pending == [] then 0
    else if IsAsk(pending[0]) && pending[0].reply == r then 0
    else 1 + Place(pending[1..], r)
  }

  lemma {:induction false} PlaceAppend(a: seq<Message>, b: seq<Message>, r: nat)
    ensures Place(a, r) < |a| ==> Place(a + b, r) == Place(a, r)
    ensures Place(a, r) == |a| ==> Place(a + b, r) == |a| + Place(b, r)
  {
    if a == [] {
      assert a + b == b;
    } else {
      assert (a + b)[1..] == a[1..] + b;
      PlaceAppend(a[1..], b, r);
    }
  }

  lemma {:induction false} PlaceFinds(pending: seq<Message>, i: nat)
    requires i < |pending| && IsAsk(pending[i])
    ensures Place(pending, pending[i].reply) <= i
  {
    if i > 0 {
      PlaceFinds(pending[1..], i - 1);
    }
  }

  lemma AskJoins(pending: seq<Message>, replies: seq<OneShot>, m: Message)
    requires AsksMatch(pending, replies) && IsAsk(m) && m.reply == |replies|
    ensures AsksMatch(pending + [m], replies + [Unanswered])
  {
    forall r | 0 <= r <= |replies| ensures Place(pending, r) < |pending| ==> Place(pending + [m], r) < |pending| + 1 {
      PlaceAppend(pending, [m], r);
    }
    PlaceFinds(pending + [m], |pending|);
    forall r | 0 <= r < |replies| + 1 && (replies + [Unanswered])[r] == Unanswered
      ensures Place(pending + [m], r) < |pending| + 1
    {
      assert r < |replies| ==> replies[r] == Unanswered;
    }
  }

  lemma OtherJoins(pending: seq<Message>, replies: seq<OneShot>, m: Message)
    requires AsksMatch(pending, replies) && !IsAsk(m)
    ensures AsksMatch(pending + [m], replies)
  {
    forall r | 0 <= r < |replies| && replies[r] == Unanswered ensures Place(pending + [m], r) < |pending| + 1 {
      PlaceAppend(pending, [m], r);
    }
  }

  lemma RefusalJoins(pending: seq<Message>, replies: seq<OneShot>)
    requires AsksMatch(pending, replies)
    ensures AsksMatch(pending, replies + [Dropped])
  {
    forall r | 0 <= r < |replies| + 1 && (replies + [Dropped])[r] == Unanswered ensures Place(pending, r) < |pending| {
      assert r < |replies| && replies[r] == Unanswered;
    }
  }

  lemma AskLeaves(pending: seq<Message>, replies: seq<OneShot>, value: OneShot)
    requires pending != [] && AsksMatch(pending, replies) && IsAsk(pending[0]) && value != Unanswered
    ensures AsksMatch(pending[1..], Resolve(replies, pending[0].reply, value))
  {
  }

  lemma OtherLeaves(pending: seq<Message>, replies: seq<OneShot>)
    requires pending != [] && AsksMatch(pending, replies) && !IsAsk(pending[0])
    ensures AsksMatch(pending[1..], replies)
  {
  }

  // Dropping the senders of the asks at the end of the line answers exactly their one-shots.
  lemma {:induction false} TailDropped(front: seq<Message>, tail: seq<Message>, replies: seq<OneShot>)
    requires AsksMatch(front + tail, replies)
    ensures AsksMatch(front, DropAll(replies, tail))
    ensures |DropAll(replies, tail)| == |replies|
    ensures forall r :: 0 <= r < |replies| && replies[r] != Unanswered ==> DropAll(replies, tail)[r] == replies[r]
    ensures forall r :: 0 <= r < |replies| && Place(front, r) < |front| ==> DropAll(replies, tail)[r] == replies[r]
    decreases |tail|
  {
    if tail == [] {
      assert front + tail == front;
    } else {
      var m := tail[0];
      assert front + tail == front + [m] + tail[1..];
      HeadOfTailLeaves(front, m, tail[1..], replies);
      TailDropped(front, tail[1..], if IsAsk(m) then Resolve(replies, m.reply, Dropped) else replies);
    }
  }

  lemma HeadOfTailLeaves(front: seq<Message>, m: Message, rest: seq<Message>, replies: seq<OneShot>)
    requires AsksMatch(front + [m] + rest, replies)
    ensures AsksMatch(front + rest, if IsAsk(m) then Resolve(replies, m.reply, Dropped) else replies)
    ensures IsAsk(m) ==> m.reply < |replies| && replies[m.reply] == Unanswered && Place(front, m.reply) == |front|
  {
    if IsAsk(m) {
      var all := front + [m] + rest;
      assert all[..|front|] == front && all[|front|] == m;
      AskIsOpen(all, |front|, replies);
    }
    var replies' := if IsAsk(m) then Resolve(replies, m.reply, Dropped) else replies;
    WithoutStaysOpen(front, m, rest, replies, replies');
    OthersStayPlaced(front, m, rest, replies, replies');
  }

  lemma AskIsOpen(all: seq<Message>, k: nat, replies: seq<OneShot>)
    requires k < |all| && AsksOpen(all, replies) && IsAsk(all[k])
    ensures var r := all[k].reply; r < |replies| && replies[r] == Unanswered && Place(all[..k], r) == k
  {
    var i := Place(all[..k], all[k].reply);
    if i < k {
      assert false;
    }
  }

  lemma WithoutStaysOpen(front: seq<Message>, m: Message, rest: seq<Message>, replies: seq<OneShot>,
                         replies': seq<OneShot>)
    requires AsksOpen(front + [m] + rest, replies) && |replies'| == |replies|
    requires forall r :: 0 <= r < |replies| && !(IsAsk(m) && m.reply == r) ==> replies'[r] == replies[r]
    ensures AsksOpen(front + rest, replies')
  {
    var all := front + [m] + rest;
    assert all[|front|] == m;
    OthersStayOpen(all, |front|, front + rest, replies, replies');
  }

  lemma OthersStayPlaced(front: seq<Message>, m: Message, rest: seq<Message>, replies: seq<OneShot>,
                         replies': seq<OneShot>)
    requires OpenPending(front + [m] + rest, replies) && |replies'| == |replies|
    requires forall r :: 0 <= r < |replies| && replies'[r] == Unanswered ==>
      replies[r] == Unanswered && !(IsAsk(m) && m.reply == r)
    ensures OpenPending(front + rest, replies')
  {
    forall r | 0 <= r < |replies'| && replies'[r] == Unanswered ensures Place(front + rest, r) < |front + rest| {
      PlaceWithout(front, m, rest, r);
    }
  }

  lemma PlaceWithout(front: seq<Message>, m: Message, rest: seq<Message>, r: nat)
    requires Place(front + [m] + rest, r) < |front| + 1 + |rest| && !(IsAsk(m) && m.reply == r)
    ensures Place(front + rest, r) < |front| + |rest|
  {
    PlaceAppend(front + [m], rest, r);
    PlaceAppend(front, [m], r);
    PlaceAppend(front, rest, r);
    assert Place([m], r) == 1;
  }

  lemma OthersStayOpen(all: seq<Message>, k: nat, less: seq<Message>, replies: seq<OneShot>, replies': seq<OneShot>)
    requires k < |all| && |less| == |all| - 1 && AsksOpen(all, replies) && |replies'| == |replies|
    requires forall i :: 0 <= i < |less| ==> less[i] == all[if i < k then i else i + 1]
    requires forall r :: 0 <= r < |replies| && !(IsAsk(all[k]) && all[k].reply == r) ==> replies'[r] == replies[r]
    ensures AsksOpen(less, replies')
  {
    forall i, j | 0 <= i < j < |less| && IsAsk(less[i]) && IsAsk(less[j]) ensures less[i].reply != less[j].reply {
      assert all[if i < k then i else i + 1].reply != all[if j < k then j else j + 1].reply;
    }
    forall i | 0 <= i < |less| && IsAsk(less[i])
      ensures less[i].reply < |replies'| && replies'[less[i].reply] == Unanswered
    {
      var i' := if i < k then i else i + 1;
      assert less[i] == all[i'];
      assert IsAsk(all[k]) ==> all[i'].reply != all[k].reply;
    }
  }

  // Dropping changes one-shots only to Dropped.
  lemma {:induction false} DropAllOnlyDrops(replies: seq<OneShot>, messages: seq<Message>)
    ensures |DropAll(replies, messages)| == |replies|
    ensures forall r :: 0 <= r < |replies| ==>
      DropAll(replies, messages)[r] == replies[r] || DropAll(replies, messages)[r] == Dropped
    decreases |messages|
  {
    if messages != [] {
      var m := messages[0];
      DropAllOnlyDrops(if IsAsk(m) then Resolve(replies, m.reply, Dropped) else replies, messages[1..]);
    }
  }

  // ---- Asks from being sent to being handled ----

  // Every ask handled so far has its answer: the one due for its own request at its place in the order.
  ghost predicate AllAnswered(setup: Setup, handled: seq<Message>, replies: seq<OneShot>) {
    forall i :: 0 <= i < |handled| && IsAsk(handled[i]) ==>
      handled[i].reply < |replies| &&
      replies[handled[i].reply] == AnswerTo(setup, Render(setup, Latest(setup.initial, handled[..i])), handled[i])
  }

  // Nothing is answered but asks that were handled, and no sender is dropped otherwise unless there was a shutdown.
  ghost predicate AnswersEarned(handled: seq<Message>, replies: seq<OneShot>) {
    forall r :: 0 <= r < |replies| && replies[r] != Unanswered ==>
      Place(handled, r) < |handled| || (replies[r] == Dropped && Shutdown in handled)
  }

  // Each ask has a one-shot of its own.
  ghost predicate OwnSlots(messages: seq<Message>, slots: nat) {
    && (forall i :: 0 <= i < |messages| && IsAsk(messages[i]) ==> messages[i].reply < slots)
    && (forall i, j :: 0 <= i < j < |messages| && IsAsk(messages[i]) && IsAsk(messages[j]) ==>
          messages[i].reply != messages[j].reply)
  }

  // How handled and pending asks and the one-shots fit together.
  ghost predicate RepliesRight(setup: Setup, handled: seq<Message>, pending: seq<Message>, replies: seq<OneShot>) {
    && AllAnswered(setup, handled, replies) && AnswersEarned(handled, replies)
    && AsksMatch(pending, replies) && OwnSlots(handled + pending, |replies|)
  }

  // Answers already given stay when only unanswered one-shots change.
  lemma AnswersStay(setup: Setup, handled: seq<Message>, replies: seq<OneShot>, replies': seq<OneShot>)
    requires AllAnswered(setup, handled, replies) && |replies| <= |replies'|
    requires forall r :: 0 <= r < |replies| && replies[r] != Unanswered ==> replies'[r] == replies[r]
    ensures AllAnswered(setup, handled, replies')
  {
    forall i | 0 <= i < |handled| && IsAsk(handled[i])
      ensures handled[i].reply < |replies'| &&
        replies'[handled[i].reply] == AnswerTo(setup, Render(setup, Latest(setup.initial, handled[..i])), handled[i])
    {
      assert replies[handled[i].reply] != Unanswered;
    }
  }

  lemma HandledJoins(setup: Setup, handled: seq<Message>, replies: seq<OneShot>, m: Message)
    requires AllAnswered(setup, handled, replies)
    requires IsAsk(m) ==>
      m.reply < |replies| && replies[m.reply] == AnswerTo(setup, Render(setup, Latest(setup.initial, handled)), m)
    ensures AllAnswered(setup, handled + [m], replies)
  {
    var all := handled + [m];
    assert all[..|handled|] == handled;
    forall i | 0 <= i < |all| && IsAsk(all[i])
      ensures all[i].reply < |replies| &&
        replies[all[i].reply] == AnswerTo(setup, Render(setup, Latest(setup.initial, all[..i])), all[i])
    {
      if i < |handled| {
        assert all[..i] == handled[..i];
      }
    }
  }

  lemma EarnedJoins(handled: seq<Message>, replies: seq<OneShot>, m: Message, replies': seq<OneShot>)
    requires AnswersEarned(handled, replies) && |replies| == |replies'|
    requires forall r :: 0 <= r < |replies| && replies'[r] != replies[r] ==> IsAsk(m) && m.reply == r
    ensures AnswersEarned(handled + [m], replies')
  {
    forall r | 0 <= r < |replies'| && replies'[r] != Unanswered
      ensures Place(handled + [m], r) < |handled| + 1 || (replies'[r] == Dropped && Shutdown in handled + [m])
    {
      PlaceAppend(handled, [m], r);
    }
  }

  lemma SlotJoins(messages: seq<Message>, slots: nat, m: Message, slots': nat)
    requires OwnSlots(messages, slots) && slots <= slots'
    requires IsAsk(m) ==> slots <= m.reply < slots'
    ensures OwnSlots(messages + [m], slots')
  {
  }

  lemma SlotsOfPrefix(messages: seq<Message>, more: seq<Message>, slots: nat)
    requires OwnSlots(messages + more, slots)
    ensures OwnSlots(messages, slots)
  {
    var all := messages + more;
    assert forall i :: 0 <= i < |messages| ==> messages[i] == all[i];
  }

  lemma RefusalKeeps(setup: Setup, handled: seq<Message>, pending: seq<Message>, replies: seq<OneShot>)
    requires RepliesRight(setup, handled, pending, replies) && Shutdown in handled
    ensures RepliesRight(setup, handled, pending, replies + [Dropped])
  {
    RefusalJoins(pending, replies);
    AnswersStay(setup, handled, replies, replies + [Dropped]);
  }

  lemma AskKeeps(setup: Setup, handled: seq<Message>, pending: seq<Message>, replies: seq<OneShot>, m: Message)
    requires RepliesRight(setup, handled, pending, replies) && IsAsk(m) && m.reply == |replies|
    ensures RepliesRight(setup, handled, pending + [m], replies + [Unanswered])
  {
    AskJoins(pending, replies, m);
    AnswersStay(setup, handled, replies, replies + [Unanswered]);
    SlotJoins(handled + pending, |replies|, m, |replies| + 1);
    assert handled + (pending + [m]) == handled + pending + [m];
  }

  lemma OtherKeeps(setup: Setup, handled: seq<Message>, pending: seq<Message>, replies: seq<OneShot>, m: Message)
    requires RepliesRight(setup, handled, pending, replies) && !IsAsk(m)
    ensures RepliesRight(setup, handled, pending + [m], replies)
  {
    OtherJoins(pending, replies, m);
    SlotJoins(handled + pending, |replies|, m, |replies|);
    assert handled + (pending + [m]) == handled + pending + [m];
  }

  lemma AnswerKeeps(setup: Setup, handled: seq<Message>, pending: seq<Message>, replies: seq<OneShot>)
    requires RepliesRight(setup, handled, pending, replies) && pending != [] && IsAsk(pending[0])
    ensures var m := pending[0]; var status := Render(setup, Latest(setup.initial, handled));
      RepliesRight(setup, handled + [m], pending[1..], Resolve(replies, m.reply, AnswerTo(setup, status, m)))
  {
    var m := pending[0];
    AskIsOpen(pending, 0, replies);
    AnswerKeepsAs(setup, handled, pending, replies, AnswerTo(setup, Render(setup, Latest(setup.initial, handled)), m));
  }

  lemma AnswerKeepsAs(setup: Setup, handled: seq<Message>, pending: seq<Message>, replies: seq<OneShot>,
                      answer: OneShot)
    requires RepliesRight(setup, handled, pending, replies) && pending != [] && IsAsk(pending[0])
    requires pending[0].reply < |replies| && replies[pending[0].reply] == Unanswered && answer != Unanswered
    requires answer == AnswerTo(setup, Render(setup, Latest(setup.initial, handled)), pending[0])
    ensures RepliesRight(setup, handled + [pending[0]], pending[1..], Resolve(replies, pending[0].reply, answer))
  {
    AskLeaves(pending, replies, answer);
    AnsweredJoins(setup, handled, replies, pending[0], answer);
    HeadCrosses(handled, pending);
  }

  lemma HeadCrosses(handled: seq<Message>, pending: seq<Message>)
    requires pending != []
    ensures handled + [pending[0]] + pending[1..] == handled + pending
  {
  }

  lemma AnsweredJoins(setup: Setup, handled: seq<Message>, replies: seq<OneShot>, m: Message, answer: OneShot)
    requires AllAnswered(setup, handled, replies) && AnswersEarned(handled, replies)
    requires IsAsk(m) && answer == AnswerTo(setup, Render(setup, Latest(setup.initial, handled)), m)
    requires m.reply < |replies| && replies[m.reply] == Unanswered
    ensures AllAnswered(setup, handled + [m], replies[m.reply := answer])
    ensures AnswersEarned(handled + [m], replies[m.reply := answer])
  {
    var replies' := replies[m.reply := answer];
    AnswersStay(setup, handled, replies, replies');
    HandledJoins(setup, handled, replies', m);
    EarnedJoins(handled, replies, m, replies');
  }

  lemma HandledKeeps(setup: Setup, handled: seq<Message>, pending: seq<Message>, replies: seq<OneShot>)
    requires RepliesRight(setup, handled, pending, replies) && pending != [] && !IsAsk(pending[0])
    ensures RepliesRight(setup, handled + [pending[0]], pending[1..], replies)
  {
    var m := pending[0];
    OtherLeaves(pending, replies);
    HandledJoins(setup, handled, replies, m);
    EarnedJoins(handled, replies, m, replies);
    HeadCrosses(handled, pending);
  }

  lemma EarnedStays(handled: seq<Message>, replies: seq<OneShot>, replies': seq<OneShot>)
    requires AnswersEarned(handled, replies) && Shutdown in handled && |replies'| == |replies|
    requires forall r :: 0 <= r < |replies| ==> replies'[r] == replies[r] || replies'[r] == Dropped
    ensures AnswersEarned(handled, replies')
  {
  }

  lemma DropKeeps(setup: Setup, handled: seq<Message>, front: seq<Message>, tail: seq<Message>, replies: seq<OneShot>)
    requires RepliesRight(setup, handled, front + tail, replies) && Shutdown in handled
    ensures RepliesRight(setup, handled, front, DropAll(replies, tail))
  {
    TailDropped(front, tail, replies);
    DropAllOnlyDrops(replies, tail);
    AnswersStay(setup, handled, replies, DropAll(replies, tail));
    EarnedStays(handled, replies, DropAll(replies, tail));
    SlotsOfFront(handled, front, tail, |replies|);
  }

  lemma SlotsOfFront(handled: seq<Message>, front: seq<Message>, tail: seq<Message>, slots: nat)
    requires OwnSlots(handled + (front + tail), slots)
    ensures OwnSlots(handled + front, slots)
  {
    assert handled + (front + tail) == handled + front + tail;
    SlotsOfPrefix(handled + front, tail, slots);
  }
}
