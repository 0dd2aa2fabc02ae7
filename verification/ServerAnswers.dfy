// The server's answers as the connections see them: what a connection is assumed to be told is what it is told.
module ServerAnswers {
  import opened Common
  import opened ServerRuns
  import Connection
  import System = ServerSystem

  // What the holder of the receiving end of a one-shot learns, once its message was accepted.
  function Learned(slot: System.OneShot): Connection.Asked<Bytes>
    requires slot != System.Unanswered
  {
    if slot.Answered? then Connection.Reply(slot.value) else Connection.Lost
  }

  // In every run, an accepted request is told what the connection's account of the server says: a decryption request
  // the decryption of its own data, or that the reply was lost exactly if it cannot be decrypted; the others always a
  // reply, the public key or the listing of the configuration then in force.
  lemma ServerKeepsItsWord(setup: System.Setup, events: seq<System.Event>, i: nat)
    requires var s := System.Run(setup, System.Start(setup), events);
      i < |s.handled| && System.IsAsk(s.handled[i])
    ensures var s := System.Run(setup, System.Start(setup), events);
      && s.handled <= s.admitted
      && s.handled[i].reply < |s.replies| && s.replies[s.handled[i].reply] != System.Unanswered
      && Learned(s.replies[s.handled[i].reply]) ==
           match s.handled[i]
           case Decrypt(data, _) => Connection.AskDecrypt(true, setup.decrypt, data)
           case CertificatePublicDer(_) => Connection.Reply(setup.der)
           case _ => Connection.Reply(System.Render(setup, System.Latest(setup.initial, s.admitted[..i])))
  {
    AnsweredOnceAndRight(setup, events);
  }

  // Whoever still waits for space when the mailbox closes, or asks later, learns that it was not accepted.
  lemma RefusedOnceClosed(setup: System.Setup, events: seq<System.Event>, more: seq<System.Event>, r: nat)
    requires var s := System.Run(setup, System.Start(setup), events);
      s.closed && r < |System.Run(setup, s, more).replies|
    ensures var s := System.Run(setup, System.Start(setup), events);
      var t := System.Run(setup, s, more);
      && t.admitted == s.admitted
      && (r >= |s.replies| ==> t.replies[r] == System.Dropped)
  {
    var s := System.Run(setup, System.Start(setup), events);
    StartInv(setup);
    RunKeepsInv(setup, System.Start(setup), events);
    ClosedAdmitsNothing(setup, s, more);
  }
}
