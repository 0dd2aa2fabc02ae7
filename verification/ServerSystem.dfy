// The server actor with its mailbox and any number of clients, as a transition system.
module ServerSystem {
  import opened Common
  import opened StatusCache

  const MAILBOX_SIZE := 16

  // reply numbers the one-shot the answer goes to. stamp numbers the updates of the configuration at their source; the
  // server does not look at it.
  datatype Message =
    | Shutdown
    | GetStatus(reply: nat)
    | StartListener(address: string)
    | UpdateConfig(config: Config, stamp: nat)
    | CertificatePublicDer(reply: nat)
    | Decrypt(data: Bytes, reply: nat)

  predicate IsAsk(m: Message) {
    m.GetStatus? || m.CertificatePublicDer? || m.Decrypt?
  }

  // A one-shot: unanswered, answered, or its sender dropped.
  datatype OneShot = Unanswered | Answered(value: Bytes) | Dropped

  // What the server is built from: the rendering of the listing, the public key, the private key's decryption, and
  // the configuration at start.
  datatype Setup = Setup(render: Renderer, der: Bytes, decrypt: Bytes -> Option<Bytes>, initial: Config)

  // queue: the mailbox. waiting: the messages of senders that wait for space, in the order they came. service: the
  // message received and not yet handled. admitted, handled: the history of the mailbox and of the server.
  datatype System = System(
    queue: seq<Message>, waiting: seq<Message>, service: Option<Message>,
    closed: bool, ended: bool, status: Bytes,
    replies: seq<OneShot>, stamp: nat,
    admitted: seq<Message>, handled: seq<Message>)

  // What can happen: a client asks or sends; the source of configurations offers an update without waiting; the
  // server takes its next step.
  datatype Event =
    | AskStatus
    | AskDer
    | AskDecrypt(data: Bytes)
    | Send(m: Message)
    | Offer(config: Config)
    | Serve

  function Render(setup: Setup, config: Config): Bytes {
    (setup.render)(BuildResponse(config))
  }

  // The configuration in force after these messages.
  function Latest(initial: Config, messages: seq<Message>): Config {
    if messages == [] then initial
    else
      var n := |messages| - 1;
      if messages[n].UpdateConfig? then messages[n].config else Latest(initial, messages[..n])
  }

  function Start(setup: Setup): System {
    System([], [], None, false, false, Render(setup, setup.initial), [], 0, [], [])
  }

  // Sending waits for space behind those who already wait; a closed mailbox takes nothing.
  function Post(s: System, m: Message): System {
    if s.closed then s
    else if |s.queue| < MAILBOX_SIZE && s.waiting == [] then s.(queue := s.queue + [m], admitted := s.admitted + [m])
    else s.(waiting := s.waiting + [m])
  }

  // An ask creates its one-shot. If the mailbox does not take the message, the sender is dropped with it.
  function Ask(s: System, m: Message): System {
    Post(s.(replies := s.replies + [if s.closed then Dropped else Unanswered]), m)
  }

  function Offering(s: System, config: Config): System {
    var m := UpdateConfig(config, s.stamp);
    var t := s.(stamp := s.stamp + 1);
    if s.closed || |s.queue| >= MAILBOX_SIZE then t else Post(t, m)
  }

  // Receiving frees a place, which goes to the first sender that waits. On a closed and empty mailbox the loop ends.
  function Receiving(s: System): System {
    if s.queue == [] then s.(ended := s.closed)
    else if s.waiting == [] then s.(service := Some(s.queue[0]), queue := s.queue[1..])
    else
      s.(service := Some(s.queue[0]), queue := s.queue[1..] + [s.waiting[0]], waiting := s.waiting[1..],
         admitted := s.admitted + [s.waiting[0]])
  }

  function Resolve(replies: seq<OneShot>, reply: nat, value: OneShot): seq<OneShot> {
    if reply < |replies| then replies[reply := value] else replies
  }

  // The senders that still wait learn that the mailbox is closed: their one-shots are dropped.
  function DropAll(replies: seq<OneShot>, messages: seq<Message>): seq<OneShot>
    decreases |messages|
  {
    if messages == [] then replies
    else DropAll(if IsAsk(messages[0]) then Resolve(replies, messages[0].reply, Dropped) else replies, messages[1..])
  }

  // The answer to an ask, given the listing at the time.
  function AnswerTo(setup: Setup, status: Bytes, m: Message): OneShot
    requires IsAsk(m)
  {
    match m
    case GetStatus(_) => Answered(status)
    case CertificatePublicDer(_) => Answered(setup.der)
    case Decrypt(data, _) => match setup.decrypt(data) case Some(plain) => Answered(plain) case None => Dropped
  }

  function Handling(setup: Setup, s: System, m: Message): System {
    var t := s.(service := None, handled := s.handled + [m]);
    match m
    case Shutdown => t.(closed := true, replies := DropAll(s.replies, s.waiting), waiting := [])
    case StartListener(_) => t
    case UpdateConfig(config, _) => t.(status := Render(setup, config))
    case _ => t.(replies := Resolve(s.replies, m.reply, AnswerTo(setup, s.status, m)))
  }

  function Serving(setup: Setup, s: System): System {
    if s.ended then s
    else match s.service case Some(m) => Handling(setup, s, m) case None => Receiving(s)
  }

  function Step(setup: Setup, s: System, e: Event): System {
    match e
    case AskStatus => Ask(s, GetStatus(|s.replies|))
    case AskDer => Ask(s, CertificatePublicDer(|s.replies|))
    case AskDecrypt(data) => Ask(s, Decrypt(data, |s.replies|))
    case Send(m) => if IsAsk(m) || m.UpdateConfig? then s else Post(s, m)
    case Offer(config) => Offering(s, config)
    case Serve => Serving(setup, s)
  }

  function Run(setup: Setup, s: System, events: seq<Event>): System
    decreases |events|
  {
    if events == [] then s else Run(setup, Step(setup, s, events[0]), events[1..])
  }

  function InService(s: System): seq<Message> {
    if s.service.Some? then [s.service.value] else []
  }

  // Everything that has been sent and not been handled or refused, in the order it will be handled.
  function Pending(s: System): seq<Message> {
    InService(s) + s.queue + s.waiting
  }
}
