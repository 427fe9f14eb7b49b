/**
 * The bot's mutable session: the fields of `state`, one method per block
 * main.py runs under its lock, and the message handlers and the watchdog
 * tick as methods calling them. Each method is tied to the function of
 * SessionSpec that states what it does to the state.
 */
module Bot {
  import Titles
  import opened SessionSpec

  class Session {
    /** The only user the bot serves (ALLOWED_USER_ID). */
    const ownerId: int

    var kindleMode: bool
    var received: nat
    var sentOk: nat
    var sentFail: nat
    var errors: seq<string>
    var lastActivity: int

    /** The fields as one value. */
    function View(): SessionView
      reads this
    {
      SessionView(kindleMode, received, sentOk, sentFail, errors, lastActivity)
    }

    constructor (ownerId: int, now: int)
      ensures this.ownerId == ownerId
      ensures View() == Initial(now)
      ensures Settled(View())
    {
      this.ownerId := ownerId;
      kindleMode := false;
      received := 0;
      sentOk := 0;
      sentFail := 0;
      errors := [];
      lastActivity := now;
    }

    // -------------------------------------------------------------------
    // Blocks run under the lock
    // -------------------------------------------------------------------

    /** Records activity at `now`. */
    method Touch(now: int)
      modifies this
      ensures View() == Touched(old(View()), now)
    {
      lastActivity := now;
    }

    /** Reads the mode. */
    method IsKindleMode() returns (on: bool)
      ensures on == kindleMode
    {
      on := kindleMode;
    }

    /** Switches the mode on and clears the counters and the errors. */
    method Activate()
      modifies this
      ensures View() == Activated(old(View()))
      ensures Settled(View())
    {
      kindleMode := true;
      received := 0;
      sentOk := 0;
      sentFail := 0;
      errors := [];
    }

    /** Switches the mode off and clears the counters and the errors,
        returning whether the mode was on and the values it cleared. */
    method StopAndSnapshot() returns (wasOn: bool, snapshot: Snapshot)
      modifies this
      ensures StopResult(wasOn, snapshot, View()) == Stopped(old(View()))
      ensures Settled(View())
    {
      wasOn := kindleMode;
      kindleMode := false;
      snapshot := Snapshot(received, sentOk, sentFail, errors);
      received := 0;
      sentOk := 0;
      sentFail := 0;
      errors := [];
    }

    method RecordReceived()
      modifies this
      ensures View() == RecordedReceived(old(View()))
    {
      received := received + 1;
    }

    method RecordSent()
      modifies this
      ensures View() == RecordedSent(old(View()))
    {
      sentOk := sentOk + 1;
    }

    method RecordFailure(message: string)
      modifies this
      ensures View() == RecordedFailure(old(View()), message)
      ensures old(Consistent(View())) ==> Consistent(View())
    {
      sentFail := sentFail + 1;
      errors := errors + [message];
    }

    /** One wake-up of the watchdog at `now`: when the mode is on and the
        session has been idle for two hours, switches the mode off, clears
        everything and returns the counts to report. */
    method IdleTick(now: int) returns (summary: Option<IdleSummary>)
      modifies this
      ensures TickResult(summary, View()) == Ticked(old(View()), now)
      ensures summary.Some? <==> old(IdleExpired(View(), now))
      ensures lastActivity == old(lastActivity)
    {
      summary := None;
      if kindleMode {
        var idle := now - lastActivity;
        if idle >= IdleSleepSeconds {
          kindleMode := false;
          summary := Some(IdleSummary(received, sentOk, sentFail));
          received := 0;
          sentOk := 0;
          sentFail := 0;
          errors := [];
        }
      }
    }

    // -------------------------------------------------------------------
    // Handlers
    // -------------------------------------------------------------------

    method CmdStart(sender: Option<int>, now: int) returns (reply: Reply)
      modifies this
      ensures Handled(reply, View()) == StartHandled(old(View()), OnlyOwner(sender, ownerId), now)
    {
      if !OnlyOwner(sender, ownerId) {
        return PrivateBot;
      }
      Touch(now);
      reply := Welcome;
    }

    method CmdKindle(sender: Option<int>, now: int) returns (reply: Reply)
      modifies this
      ensures Handled(reply, View()) == KindleHandled(old(View()), OnlyOwner(sender, ownerId), now)
    {
      if !OnlyOwner(sender, ownerId) {
        return PrivateBot;
      }
      Touch(now);
      Activate();
      reply := KindleModeOn;
    }

    method CmdStop(sender: Option<int>, now: int) returns (reply: Reply)
      modifies this
      ensures Handled(reply, View()) == StopHandled(old(View()), OnlyOwner(sender, ownerId), now)
    {
      if !OnlyOwner(sender, ownerId) {
        return PrivateBot;
      }
      Touch(now);
      var wasOn, snapshot := StopAndSnapshot();
      if !wasOn {
        return AlreadyResting;
      }
      reply := StopSummary(snapshot.received, snapshot.sentOk, snapshot.sentFail,
                           FirstErrors(snapshot.errors));
    }

    /** An uploaded document; `download` and `delivery` are the outcomes of
        fetching it and of e-mailing it. The success reply is returned after
        the counters are updated. */
    method HandleDocument(sender: Option<int>, now: int, fileName: Option<string>,
                          download: Outcome, delivery: Outcome) returns (reply: Reply)
      modifies this
      ensures Handled(reply, View())
           == DocumentHandled(old(View()), OnlyOwner(sender, ownerId), now, fileName, download, delivery)
    {
      if !OnlyOwner(sender, ownerId) {
        return PrivateBot;
      }
      Touch(now);
      var on := IsKindleMode();
      if !on {
        return ActivateFirst;
      }
      var name := FileNameOrDefault(fileName);
      if !Titles.HasEpubExtension(name) {
        return NotEpub;
      }
      RecordReceived();
      if download.Failed? {
        RecordFailure(DownloadErrorText(name, download.reason));
        return DownloadFailed(name);
      }
      if delivery.Failed? {
        RecordFailure(DeliveryErrorText(name, delivery.reason));
        return DeliveryFailed(name);
      }
      RecordSent();
      reply := BookSent(Titles.PrettifyTitle(name));
    }
  }

  /** A /stop handled while an upload is between its first and its second
      block: the upload then reports a sent document the cleared counters
      never received. */
  method StopDuringDelivery(s: Session)
    modifies s
    requires Settled(s.View()) && s.kindleMode
    ensures s.received == 0 && s.sentOk == 1 && s.sentFail == 0
    ensures Consistent(s.View()) && !Settled(s.View())
  {
    s.RecordReceived();
    var wasOn, snapshot := s.StopAndSnapshot();
    s.RecordSent();
  }
}
