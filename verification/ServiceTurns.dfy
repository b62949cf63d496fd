/** What one turn of the payload's service loop does, event by event. */
module ServiceTurns {
  import opened Bytes
  import opened CStrings
  import opened Wire
  import opened Receiver
  import opened Service

  /** A registration call has stored a task, and has not said that the package is installed already. */
  predicate Startable(task: int, code: int)
  {
    task != -1 && (if code < 0 then code + 0x1_0000_0000 else code) != 0x80990088
  }

  /** The text that a code without a notice of its own is reported with. */
  predicate Spells(text: seq<byte>, code: int)
  {
    && |text| == 26 && text[..18] == Ascii("DPI: BGFT Error 0x")
    && forall k :: 18 <= k < 26 ==>
         var d := ShiftRight(code, 25 - k) % 16; text[k] == if d < 10 then 48 + d else 55 + d
  }

  /** The notice that belongs to the code of a debug registration. */
  predicate Belongs(notice: Notice, code: int)
  {
    var u := if code < 0 then code + 0x1_0000_0000 else code;
    match notice
    case OldDownloads => u == 0x80990086
    case AlreadyInstalled => u == 0x80990088
    case NoSpace => u == 0x80990039 || u == 0x80A30026
    case Fragmented => u == 0x80990085
    case BgftError(text) =>
      && u != 0x80990086 && u != 0x80990088 && u != 0x80990039 && u != 0x80A30026 && u != 0x80990085
      && Spells(text, code)
    case _ => false
  }

  /** What comes behind an event, and in front of it. */
  predicate Follows(trace: seq<Event>, i: nat)
    requires i < |trace|
  {
    match trace[i]
    case Registered(params, reply) =>
      && i + 1 < |trace|
      && if reply.task.Some? && Startable(reply.task.value, reply.code) then trace[i + 1] == Started(reply.task.value)
         else trace[i + 1].DebugRegistered? && trace[i + 1].params == params
    case DebugRegistered(params, reply) =>
      && 0 < i && i + 1 < |trace| && trace[i - 1].Registered? && trace[i - 1].params == params
      && var stored := if reply.task.Some? then reply.task else trace[i - 1].reply.task;
         if stored.Some? && Startable(stored.value, reply.code) then trace[i + 1] == Started(stored.value)
         else trace[i + 1].Notified? && Belongs(trace[i + 1].notice, reply.code)
    case Started(_) => 0 < i && (trace[i - 1].Registered? || trace[i - 1].DebugRegistered?)
    case Notified(notice) =>
      if notice.GetInfoError? || notice.Exited? then i == |trace| - 1
      else 0 < i && trace[i - 1].DebugRegistered? && (notice.BgftError? ==> i == |trace| - 1)
  }

  predicate AllFollow(trace: seq<Event>) { forall i :: 0 <= i < |trace| ==> Follows(trace, i) }

  lemma ClassifiedBelongs(code: int)
    requires Int32(code)
    ensures Belongs(Classify(code), code)
  {
    hide HexText, ShiftRight;
    if Classify(code).BgftError? {
      ErrorSpells(code);
    }
  }

  lemma ErrorSpells(code: int)
    requires Int32(code) && 0 !in BGFT_ERROR
    ensures Spells(ErrorText(BGFT_ERROR, code), code)
  {
    hide HexText, ShiftRight;
    var text := ErrorText(BGFT_ERROR, code);
    ErrorTextFits();
    forall k | 18 <= k < 26
      ensures var d := ShiftRight(code, 25 - k) % 16; text[k] == if d < 10 then 48 + d else 55 + d
    {
      HexTextIs(code, k - 18);
      assert text[k] == HexText(code)[2 + (k - 18)];
    }
    HexTextIs(code, 0);
    assert text[16] == HexText(code)[0] && text[17] == HexText(code)[1];
  }

  /** The first turn of a run, and what the rest of the run is. */
  lemma FirstTurn(p: Params, sessions: seq<Session>)
    requires AllValid(sessions) && sessions != []
    ensures var s, run := sessions[0], Run(p, sessions);
            if IsQuit(s) then run == Result(Some(0), [Notified(Exited)])
            else if !IsPackage(s) then run == Result(Some(-1), [Notified(GetInfoError)])
            else
              var now, first, t := ParamsOf(p, s), s.register.task, run.trace;
              var second := if s.debug.task.Some? then s.debug.task else first;
              && |t| >= 2 && t[0] == Registered(now, s.register)
              && if first.Some? && Startable(first.value, s.register.code) then
                   t[1] == Started(first.value) && run == Prepend(t[..2], Run(now, sessions[1..]))
                 else
                   && |t| >= 3 && t[1] == DebugRegistered(now, s.debug)
                   && if second.Some? && Startable(second.value, s.debug.code) then
                        t[2] == Started(second.value) && run == Prepend(t[..3], Run(now, sessions[1..]))
                      else
                        && t[2].Notified? && Belongs(t[2].notice, s.debug.code)
                        && run == if t[2].notice.BgftError? then Result(Some(-1), t[..3])
                                  else Prepend(t[..3], Run(now, sessions[1..]))
  {
    hide ErrorText, BGFT_ERROR, Belongs, Parse, Admissible, Filled, ParamsOf, Buffered, FitsHeader;
    var s := sessions[0];
    if IsPackage(s) {
      ClassifiedBelongs(s.debug.code);
      var now := ParamsOf(p, s);
      var events := PackageEvents(now, s);
      assert Run(p, sessions).trace[..|events|] == events;
    }
  }

  lemma PackageFollows(params: Params, s: Session)
    requires ValidReply(s.register) && ValidReply(s.debug)
    ensures AllFollow(PackageEvents(params, s))
    ensures var events := PackageEvents(params, s);
            !IsFatalSession(params, s) ==>
              forall i :: 0 <= i < |events| ==>
                events[i].Notified? ==> !events[i].notice.BgftError? && !events[i].notice.Exited? && !events[i].notice.GetInfoError?
  {
    hide ErrorText, BGFT_ERROR, Belongs;
    ClassifiedBelongs(s.debug.code);
    BelongsToPackage(Classify(s.debug.code), s.debug.code);
  }

  lemma BelongsToPackage(notice: Notice, code: int)
    requires Belongs(notice, code)
    ensures !notice.GetInfoError? && !notice.Exited?
  {
  }

  lemma FollowAppend(a: seq<Event>, b: seq<Event>)
    requires AllFollow(a) && AllFollow(b)
    requires forall i :: 0 <= i < |a| ==>
               a[i].Notified? ==> !a[i].notice.BgftError? && !a[i].notice.Exited? && !a[i].notice.GetInfoError?
    ensures AllFollow(a + b)
  {
    hide Belongs, Startable;
    forall i | 0 <= i < |a + b|
      ensures Follows(a + b, i)
    {
      if i < |a| {
        assert Follows(a, i);
      } else {
        assert Follows(b, i - |a|);
      }
    }
  }

  /** Over any run, each event is followed by the one that belongs to it: a registration by the start of the
      task it has stored exactly when it has stored one and has not said that the package is installed, and
      otherwise by the debug registration of the same package; that by a start under the same condition,
      and otherwise by the notice that belongs to its code. */
  lemma {:induction false} EventsFollow(p: Params, sessions: seq<Session>)
    requires AllValid(sessions)
    ensures AllFollow(Run(p, sessions).trace)
    decreases |sessions|
  {
    hide PackageEvents, IsFatalSession, Filled, Buffered, Parse, FitsHeader, Admissible, Belongs, Startable;
    if sessions != [] && IsPackage(sessions[0]) {
      var now := ParamsOf(p, sessions[0]);
      PackageFollows(now, sessions[0]);
      if !IsFatalSession(now, sessions[0]) {
        EventsFollow(now, sessions[1..]);
        FollowAppend(PackageEvents(now, sessions[0]), Run(now, sessions[1..]).trace);
      }
    }
  }

  /** The exit code and the last event tell each other. */
  lemma {:induction false} Endings(p: Params, sessions: seq<Session>)
    requires AllValid(sessions)
    ensures var run := Run(p, sessions);
            && (run.exit == Some(0) <==> run.trace != [] && run.trace[|run.trace| - 1] == Notified(Exited))
            && (run.exit == Some(-1) <==>
                  && run.trace != [] && run.trace[|run.trace| - 1].Notified?
                  && var last := run.trace[|run.trace| - 1].notice; last.GetInfoError? || last.BgftError?)
            && (run.exit == None || run.exit == Some(0) || run.exit == Some(-1))
    decreases |sessions|
  {
    hide PackageEvents, Filled, Buffered, Parse, FitsHeader, Admissible, Belongs, AllFollow;
    if sessions != [] && IsPackage(sessions[0]) {
      var now := ParamsOf(p, sessions[0]);
      PackageFollows(now, sessions[0]);
      if !IsFatalSession(now, sessions[0]) {
        Endings(now, sessions[1..]);
      }
    }
  }

  /** Every registration is made for the user the loop was started for, with the fixed entitlement and option. */
  lemma {:induction false} FixedParameters(uid: int, p: Params, sessions: seq<Session>)
    requires AllValid(sessions) && p.userId == uid && p.entitlementType == 5 && p.option == 0x10000
    ensures forall i :: 0 <= i < |Run(p, sessions).trace| ==>
              var e := Run(p, sessions).trace[i];
              e.Registered? || e.DebugRegistered? ==>
                e.params.userId == uid && e.params.entitlementType == 5 && e.params.option == 0x10000
    decreases |sessions|
  {
    hide Buffered, Parse, FitsHeader, Admissible, Classify, Unsigned;
    if sessions != [] && IsPackage(sessions[0]) {
      var now := ParamsOf(p, sessions[0]);
      if !IsFatalSession(now, sessions[0]) {
        FixedParameters(uid, now, sessions[1..]);
      }
    }
  }

  lemma StartParameters(uid: int)
    ensures Initial(uid).userId == uid && Initial(uid).entitlementType == 5 && Initial(uid).option == 0x10000
  {
  }
}
