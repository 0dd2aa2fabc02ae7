// The server actor: its mailbox, its message loop, and the steps of its clients, as code over mutable state. Each
// method is tied to the transition system whose runs are studied elsewhere.
module Server {
  import opened Common
  import opened StatusCache
  import S = ServerSystem

  // The bounded mailbox. Senders wait in line for space; closing it turns them away.
  class Mailbox {
    var queue: seq<S.Message>
    var waiting: seq<S.Message>
    var closed: bool
    ghost var admitted: seq<S.Message>

    constructor ()
      ensures queue == [] && waiting == [] && !closed && admitted == []
    {
      queue, waiting, closed, admitted := [], [], false, [];
    }

    // False: the mailbox is closed.
    method Send(m: S.Message) returns (accepted: bool)
      modifies this
      ensures accepted == !old(closed) && closed == old(closed)
      ensures !accepted ==> queue == old(queue) && waiting == old(waiting) && admitted == old(admitted)
      ensures accepted ==>
        if |old(queue)| < S.MAILBOX_SIZE && old(waiting) == [] then
          queue == old(queue) + [m] && waiting == [] && admitted == old(admitted) + [m]
        else
          queue == old(queue) && waiting == old(waiting) + [m] && admitted == old(admitted)
    {
      if closed {
        return false;
      }
      if |queue| < S.MAILBOX_SIZE && waiting == [] {
        queue := queue + [m];
        admitted := admitted + [m];
      } else {
        waiting := waiting + [m];
      }
      return true;
    }

    // Like Send, but never waits: a full mailbox turns the message away.
    method TrySend(m: S.Message) returns (accepted: bool)
      requires waiting != [] ==> |queue| >= S.MAILBOX_SIZE
      modifies this
      ensures accepted == (!old(closed) && |old(queue)| < S.MAILBOX_SIZE)
      ensures closed == old(closed) && waiting == old(waiting)
      ensures queue == old(queue) + if accepted then [m] else []
      ensures admitted == old(admitted) + if accepted then [m] else []
    {
      if closed || |queue| >= S.MAILBOX_SIZE {
        return false;
      }
      queue := queue + [m];
      admitted := admitted + [m];
      return true;
    }

    // The first message, if there is one; the place it frees goes to the first sender in line.
    method Recv() returns (m: Option<S.Message>)
      modifies this
      ensures closed == old(closed)
      ensures old(queue) == [] ==> m == None && queue == [] && waiting == old(waiting) && admitted == old(admitted)
      ensures old(queue) != [] ==>
        && m == Some(old(queue)[0])
        && if old(waiting) == [] then
             queue == old(queue)[1..] && waiting == [] && admitted == old(admitted)
           else
             && queue == old(queue)[1..] + [old(waiting)[0]] && waiting == old(waiting)[1..]
             && admitted == old(admitted) + [old(waiting)[0]]
    {
      if queue == [] {
        return None;
      }
      m := Some(queue[0]);
      queue := queue[1..];
      if waiting != [] {
        queue := queue + [waiting[0]];
        admitted := admitted + [waiting[0]];
        waiting := waiting[1..];
      }
    }

    method Close() returns (refused: seq<S.Message>)
      modifies `closed, `waiting
      ensures closed && waiting == [] && refused == old(waiting)
    {
      refused := waiting;
      closed, waiting := true, [];
    }
  }

  // The one-shots handed out so far.
  class OneShots {
    var slots: seq<S.OneShot>

    constructor ()
      ensures slots == []
    {
      slots := [];
    }

    method Create() returns (reply: nat)
      modifies this
      ensures reply == |old(slots)| && slots == old(slots) + [S.Unanswered]
    {
      reply := |slots|;
      slots := slots + [S.Unanswered];
    }

    // Whether anyone still holds the other end is not looked at.
    method Resolve(reply: nat, value: S.OneShot)
      modifies this
      ensures slots == S.Resolve(old(slots), reply, value)
    {
      if reply < |slots| {
        slots := slots[reply := value];
      }
    }

    method DropSenders(messages: seq<S.Message>)
      modifies this
      ensures slots == S.DropAll(old(slots), messages)
    {
      var i := 0;
      while i < |messages|
        invariant i <= |messages|
        invariant S.DropAll(slots, messages[i..]) == S.DropAll(old(slots), messages)
      {
        assert messages[i..][0] == messages[i] && messages[i..][1..] == messages[i + 1..];
        if S.IsAsk(messages[i]) {
          Resolve(messages[i].reply, S.Dropped);
        }
        i := i + 1;
      }
    }
  }

  // Counts running tasks; waiting on it returns once it is closed and none runs.
  class TaskTracker {
    var closed: bool
    var running: nat

    constructor ()
      ensures !closed && running == 0
    {
      closed, running := false, 0;
    }

    method Spawn()
      modifies this
      ensures running == old(running) + 1 && closed == old(closed)
    {
      running := running + 1;
    }

    method Close()
      modifies `closed
      ensures closed
    {
      closed := true;
    }

    // Returns without waiting.
    method Wait()
      requires closed && running == 0
    {
    }
  }

  class ServerActor {
    const setup: S.Setup
    const mailbox: Mailbox
    const replies: OneShots
    const tasks: TaskTracker
    var listing: CachedStatus
    var ended: bool
    // The number of the next update of the configuration at its source.
    var stamp: nat
    // The message received and not yet handled.
    var service: Option<S.Message>
    ghost var handled: seq<S.Message>

    // The tracker that a shutdown waits for never has a task: listeners and connections run under their own.
    ghost predicate Valid()
      reads this, mailbox, tasks
    {
      && tasks.running == 0
      && (mailbox.waiting != [] ==> |mailbox.queue| >= S.MAILBOX_SIZE)
      && (mailbox.closed ==> mailbox.waiting == [])
    }

    ghost function State(): S.System
      reads this, mailbox, replies, listing
    {
      S.System(mailbox.queue, mailbox.waiting, service, mailbox.closed, ended, listing.json, replies.slots, stamp,
               mailbox.admitted, handled)
    }

    constructor (setup: S.Setup)
      ensures Valid() && this.setup == setup && State() == S.Start(setup)
      ensures fresh(mailbox) && fresh(replies) && fresh(tasks) && fresh(listing)
    {
      this.setup := setup;
      mailbox := new Mailbox();
      replies := new OneShots();
      tasks := new TaskTracker();
      listing := new CachedStatus.FromConfig(setup.render, setup.initial);
      ended, stamp := false, 0;
      handled, service := [], None;
    }

    // ---- The server ----

    method HandleMessage(m: S.Message)
      requires Valid() && service == Some(m)
      modifies this, mailbox, replies, tasks
      ensures Valid() && (listing == old(listing) || fresh(listing))
      ensures State() == S.Handling(setup, old(State()), m)
    {
      match m {
        case Shutdown =>
          ShutDown();
        case GetStatus(reply) =>
          var json := listing.GetStatusString();
          replies.Resolve(reply, S.Answered(json));
        case StartListener(address) =>
          var _ := StartOneListener(address);
        case UpdateConfig(config, _) =>
          ReplaceListing(config);
        case CertificatePublicDer(reply) =>
          replies.Resolve(reply, S.Answered(setup.der));
        case Decrypt(data, reply) =>
          match setup.decrypt(data) {
            case Some(plain) => replies.Resolve(reply, S.Answered(plain));
            case None => replies.Resolve(reply, S.Dropped);
          }
      }
      service, handled := None, handled + [m];
    }

    // A new listing for the configuration; whatever the old one counted is gone.
    method ReplaceListing(config: Config)
      modifies `listing
      ensures fresh(listing) && listing.json == S.Render(setup, config)
    {
      listing := new CachedStatus.FromConfig(setup.render, config);
    }

    // Closes the mailbox once no task of the tracker runs, which is at once. Senders in line are turned away.
    method ShutDown()
      requires Valid()
      modifies mailbox`closed, mailbox`waiting, replies, tasks
      ensures Valid() && mailbox.closed && mailbox.waiting == []
      ensures replies.slots == S.DropAll(old(replies.slots), old(mailbox.waiting))
    {
      tasks.Close();
      tasks.Wait();
      var refused := mailbox.Close();
      replies.DropSenders(refused);
    }

    // The listener and everything it accepts run under a tracker of their own.
    method StartOneListener(address: string) returns (listenerTasks: TaskTracker)
      ensures fresh(listenerTasks) && listenerTasks.running == 1 && !listenerTasks.closed
    {
      listenerTasks := new TaskTracker();
      listenerTasks.Spawn();
    }

    // One step of the message loop: receive, or handle what was received. False: the mailbox is closed and empty, and
    // the loop ends. Nothing received on an open mailbox: the loop goes on waiting.
    method Serve() returns (goesOn: bool)
      requires Valid() && !ended
      modifies this, mailbox, replies, tasks
      ensures Valid() && goesOn == !ended && (listing == old(listing) || fresh(listing))
      ensures State() == S.Serving(setup, old(State()))
    {
      if service.Some? {
        HandleMessage(service.value);
        return true;
      }
      service := mailbox.Recv();
      ended := service.None? && mailbox.closed;
      return !ended;
    }

    // The whole loop. Between any two of its steps, also between receiving a message and handling it, the clients do
    // what the schedule says; it goes on until it ends or the schedule does.
    method Run(schedule: seq<seq<S.Event>>)
      requires Valid() && !ended
      requires forall i :: 0 <= i < |schedule| ==> NoServe(schedule[i])
      modifies this, mailbox, replies, tasks
      ensures Valid()
      ensures exists steps: nat ::
        && steps <= |schedule| && (ended || steps == |schedule|)
        && State() == S.Run(setup, old(State()), Interleaved(schedule[..steps]))
    {
      var i := 0;
      var goesOn := true;
      assert schedule[..0] == [];
      while i < |schedule| && goesOn
        invariant i <= |schedule|
        invariant Valid() && goesOn == !ended
        invariant listing == old(listing) || fresh(listing)
        invariant State() == S.Run(setup, old(State()), Interleaved(schedule[..i]))
        decreases |schedule| - i
      {
        Clients(schedule[i]);
        goesOn := Serve();
        assert schedule[..i + 1][..i] == schedule[..i];
        RunExtends(setup, old(State()), Interleaved(schedule[..i]), schedule[i]);
        i := i + 1;
      }
    }

    // ---- The clients ----

    method Clients(events: seq<S.Event>)
      requires Valid() && NoServe(events)
      modifies this`stamp, mailbox, replies
      ensures Valid()
      ensures State() == S.Run(setup, old(State()), events)
    {
      var i := 0;
      while i < |events|
        invariant i <= |events| && Valid()
        invariant S.Run(setup, State(), events[i..]) == S.Run(setup, old(State()), events)
      {
        assert events[i..][0] == events[i] && events[i..][1..] == events[i + 1..];
        Client(events[i]);
        i := i + 1;
      }
    }

    method Client(e: S.Event)
      requires Valid() && !e.Serve?
      modifies this`stamp, mailbox, replies
      ensures Valid() && State() == S.Step(setup, old(State()), e)
    {
      match e {
        case AskStatus =>
          var reply := replies.Create();
          Ask(S.GetStatus(reply));
        case AskDer =>
          var reply := replies.Create();
          Ask(S.CertificatePublicDer(reply));
        case AskDecrypt(data) =>
          var reply := replies.Create();
          Ask(S.Decrypt(data, reply));
        case Send(m) =>
          if !S.IsAsk(m) && !m.UpdateConfig? {
            var _ := mailbox.Send(m);
          }
        case Offer(config) =>
          var _ := mailbox.TrySend(S.UpdateConfig(config, stamp));
          stamp := stamp + 1;
      }
    }

    // Sends the ask; if the mailbox does not take it, the reply's sender is dropped with the message.
    method Ask(m: S.Message)
      requires Valid() && S.IsAsk(m) && |replies.slots| > 0 && m.reply == |replies.slots| - 1
      modifies mailbox, replies
      ensures Valid()
      ensures State() == S.Post(old(State()).(replies :=
        if old(mailbox.closed) then S.Resolve(old(replies.slots), m.reply, S.Dropped) else old(replies.slots)), m)
    {
      var accepted := mailbox.Send(m);
      if !accepted {
        replies.Resolve(m.reply, S.Dropped);
      }
    }
  }

  predicate NoServe(events: seq<S.Event>) {
    forall i :: 0 <= i < |events| ==> !events[i].Serve?
  }

  // The events of a run in which the server takes one step after each part of the clients' schedule.
  function Interleaved(schedule: seq<seq<S.Event>>): seq<S.Event> {
    if schedule == [] then []
    else Interleaved(schedule[..|schedule| - 1]) + schedule[|schedule| - 1] + [S.Serve]
  }

  lemma {:induction false} RunAppend(setup: S.Setup, s: S.System, a: seq<S.Event>, b: seq<S.Event>)
    ensures S.Run(setup, s, a + b) == S.Run(setup, S.Run(setup, s, a), b)
    decreases |a|
  {
    if a == [] {
      assert a + b == b;
    } else {
      assert (a + b)[1..] == a[1..] + b;
      RunAppend(setup, S.Step(setup, s, a[0]), a[1..], b);
    }
  }

  lemma RunExtends(setup: S.Setup, s: S.System, before: seq<S.Event>, events: seq<S.Event>)
    ensures S.Run(setup, s, before + events + [S.Serve])
      == S.Serving(setup, S.Run(setup, S.Run(setup, s, before), events))
  {
    RunAppend(setup, s, before + events, [S.Serve]);
    RunAppend(setup, s, before, events);
    assert [S.Serve][1..] == [];
  }
}
