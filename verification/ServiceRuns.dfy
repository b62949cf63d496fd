/** Properties of whole runs of the payload's service loop. */
module ServiceRuns {
  import opened Bytes
  import opened CStrings
  import opened Wire
  import opened Receiver
  import opened Delivery
  import opened Service

  // ---------- what a run is measured by ----------

  /** The requests a run takes in, in order: up to the first session that is not a package, or
      including the first package that ends in a fatal error. */
  function Accepted(params: Params, sessions: seq<Session>): seq<Parsed>
    requires AllValid(sessions)
    decreases |sessions|
  {
    if sessions == [] || !IsPackage(sessions[0]) then []
    else
      var now := ParamsOf(params, sessions[0]);
      [RequestOf(sessions[0])]
      + if IsFatalSession(now, sessions[0]) then [] else Accepted(now, sessions[1..])
  }

  /** The parameters handed to the first registration call, in order. */
  function Registrations(trace: seq<Event>): seq<Params>
  {
    if trace == [] then []
    else (if trace[0].Registered? then [trace[0].params] else []) + Registrations(trace[1..])
  }

  function Starts(trace: seq<Event>): nat
  {
    if trace == [] then 0 else (if trace[0].Started? then 1 else 0) + Starts(trace[1..])
  }

  /** A notice about a package, as opposed to one about the connection or the exit. */
  predicate IsPackageNotice(e: Event) { e.Notified? && !e.notice.GetInfoError? && !e.notice.Exited? }

  function PackageNotices(trace: seq<Event>): nat
  {
    if trace == [] then 0 else (if IsPackageNotice(trace[0]) then 1 else 0) + PackageNotices(trace[1..])
  }

  lemma {:induction false} CountsAppend(a: seq<Event>, b: seq<Event>)
    ensures Starts(a + b) == Starts(a) + Starts(b)
    ensures PackageNotices(a + b) == PackageNotices(a) + PackageNotices(b)
  {
    if a == [] {
      assert a + b == b;
    } else {
      CountsAppend(a[1..], b);
      assert (a + b)[1..] == a[1..] + b;
    }
  }

  lemma {:induction false} RegistrationsAppend(a: seq<Event>, b: seq<Event>)
    ensures Registrations(a + b) == Registrations(a) + Registrations(b)
  {
    if a == [] {
      assert a + b == b;
    } else {
      RegistrationsAppend(a[1..], b);
      assert (a + b)[1..] == a[1..] + b && (a + b)[0] == a[0];
      var first := if a[0].Registered? then [a[0].params] else [];
      assert first + (Registrations(a[1..]) + Registrations(b)) == (first + Registrations(a[1..])) + Registrations(b);
    }
  }

  /** One package causes one registration and exactly one of a started task or a package notice. */
  lemma PackageCounts(params: Params, s: Session)
    requires ValidReply(s.register) && ValidReply(s.debug)
    ensures var e := PackageEvents(params, s);
            Registrations(e) == [params] && Starts(e) + PackageNotices(e) == 1
  {
    hide Unsigned, ErrorText, BGFT_ERROR;
    var e := PackageEvents(params, s);
    if |e| == 2 {
      assert e == [e[0]] + [e[1]];
      CountsAppend([e[0]], [e[1]]);
      RegistrationsAppend([e[0]], [e[1]]);
    } else {
      assert e == [e[0]] + ([e[1]] + [e[2]]);
      CountsAppend([e[0]], [e[1]] + [e[2]]);
      RegistrationsAppend([e[0]], [e[1]] + [e[2]]);
      CountsAppend([e[1]], [e[2]]);
      RegistrationsAppend([e[1]], [e[2]]);
    }
  }

  /** Only the variable parameters change from one package to the next. */
  lemma RefilledParams(p: Params, s: Session, q: Parsed)
    requires ValidSession(s) && IsPackage(s)
    requires q.Request? && FitsHeader(q) && 0 in Buffered(q.id, ID_CAP)
    ensures Filled(ParamsOf(p, s), q) == Filled(p, q)
  {
    hide Buffered, Parse, IconName, ICON_DIR, Admissible;
    FillableRequest(s);
  }

  predicate Fillable(q: Parsed) { q.Request? && FitsHeader(q) && 0 in Buffered(q.id, ID_CAP) }

  /** The packages registered over a run are, in order, exactly the requests received: each one is built
      from its own message alone. */
  lemma {:induction false} RegistersInOrder(p: Params, sessions: seq<Session>)
    requires AllValid(sessions)
    ensures var accepted, seen := Accepted(p, sessions), Registrations(Run(p, sessions).trace);
            && |seen| == |accepted|
            && forall k :: 0 <= k < |seen| ==> Fillable(accepted[k]) && seen[k] == Filled(p, accepted[k])
    decreases |sessions|
  {
    hide PackageEvents, IsFatalSession, Filled, Buffered, Parse, FitsHeader, Admissible;
    if sessions != [] && IsPackage(sessions[0]) {
      var s := sessions[0];
      FillableRequest(s);
      var now := ParamsOf(p, s);
      PackageCounts(now, s);
      if !IsFatalSession(now, s) {
        var rest := sessions[1..];
        RegistersInOrder(now, rest);
        RegistrationsAppend(PackageEvents(now, s), Run(now, rest).trace);
        var accepted, seen := Accepted(p, sessions), Registrations(Run(p, sessions).trace);
        forall k | 0 <= k < |seen|
          ensures Fillable(accepted[k]) && seen[k] == Filled(p, accepted[k])
        {
          if k > 0 {
            assert accepted[k] == Accepted(now, rest)[k - 1];
            RefilledParams(p, s, accepted[k]);
          }
        }
      }
    }
  }

  /** Outcome accounting: over every run, started tasks and package notices together are as many as the
      packages received. */
  lemma {:induction false} Accounting(p: Params, sessions: seq<Session>)
    requires AllValid(sessions)
    ensures var t := Run(p, sessions).trace;
            Starts(t) + PackageNotices(t) == |Accepted(p, sessions)|
    decreases |sessions|
  {
    hide PackageEvents, IsFatalSession, Filled, Buffered, Parse, FitsHeader, Admissible;
    if sessions != [] && IsPackage(sessions[0]) {
      var s := sessions[0];
      var now := ParamsOf(p, s);
      PackageCounts(now, s);
      if !IsFatalSession(now, s) {
        Accounting(now, sessions[1..]);
        CountsAppend(PackageEvents(now, s), Run(now, sessions[1..]).trace);
      }
    }
  }

  // ---------- how a run ends ----------

  /** Whether a package ends the run depends on the installer's answers only. */
  predicate Fatal(s: Session)
    requires ValidReply(s.register) && ValidReply(s.debug)
  {
    var first := TaskAfter(INVALID_TASK, s.register);
    && !Usable(first, s.register) && !Usable(TaskAfter(first, s.debug), s.debug)
    && Unsigned(s.debug.code) !in {0x80990086, ALREADY_INSTALLED, 0x80990039, 0x80A30026, 0x80990085}
  }

  lemma FatalIff(params: Params, s: Session)
    requires ValidReply(s.register) && ValidReply(s.debug)
    ensures IsFatalSession(params, s) <==> Fatal(s)
  {
  }

  predicate Continues(s: Session)
    requires ValidSession(s)
  {
    IsPackage(s) && !Fatal(s)
  }

  /** The first `k` sessions are packages without a fatal error. */
  predicate ReachesTurn(sessions: seq<Session>, k: nat)
    requires AllValid(sessions) && k <= |sessions|
  {
    forall j :: 0 <= j < k ==> Continues(sessions[j])
  }

  lemma ReachesShift(sessions: seq<Session>, k: nat)
    requires AllValid(sessions) && 0 < k <= |sessions|
    ensures ReachesTurn(sessions, k) <==> Continues(sessions[0]) && ReachesTurn(sessions[1..], k - 1)
  {
    hide Fatal, IsPackage, ValidSession;
    if Continues(sessions[0]) && ReachesTurn(sessions[1..], k - 1) {
      forall j | 0 <= j < k
        ensures Continues(sessions[j])
      {
        assert j > 0 ==> sessions[j] == sessions[1..][j - 1];
      }
    }
    if ReachesTurn(sessions, k) {
      forall j | 0 <= j < k - 1
        ensures Continues(sessions[1..][j])
      {
        assert sessions[1..][j] == sessions[j + 1];
      }
    }
  }

  /** The turn in which a run ends: the first session that is not a package without a fatal error. */
  function LastTurn(sessions: seq<Session>): (k: nat)
    requires AllValid(sessions)
    ensures k <= |sessions| && ReachesTurn(sessions, k)
    ensures k < |sessions| ==> !Continues(sessions[k])
  {
    if sessions == [] || !Continues(sessions[0]) then 0
    else
      var k := 1 + LastTurn(sessions[1..]);
      ReachesShift(sessions, k);
      k
  }

  lemma LastTurnUnique(sessions: seq<Session>, k: nat)
    requires AllValid(sessions) && k < |sessions| && ReachesTurn(sessions, k) && !Continues(sessions[k])
    ensures k == LastTurn(sessions)
  {
  }

  /** How the last turn decides: the exit code is 0 only through the quit command. */
  lemma {:induction false} ExitByLastTurn(p: Params, sessions: seq<Session>)
    requires AllValid(sessions)
    ensures var k := LastTurn(sessions);
            Run(p, sessions).exit ==
              if k == |sessions| then None else if IsQuit(sessions[k]) then Some(0) else Some(-1)
    decreases |sessions|
  {
    hide PackageEvents, IsFatalSession, Filled, Buffered, Parse, FitsHeader, Admissible, Fatal, ReachesTurn;
    if sessions != [] && IsPackage(sessions[0]) {
      var now := ParamsOf(p, sessions[0]);
      FatalIff(now, sessions[0]);
      if !Fatal(sessions[0]) {
        ExitByLastTurn(now, sessions[1..]);
      }
    }
  }

  /** The run returns 0 exactly when the quit command follows packages none of which was fatal; it
      returns -1 exactly when something else than a quit ends it; otherwise it is still waiting. */
  lemma ExitCodes(p: Params, sessions: seq<Session>)
    requires AllValid(sessions)
    ensures Run(p, sessions).exit == Some(0) <==>
      exists k :: 0 <= k < |sessions| && IsQuit(sessions[k]) && ReachesTurn(sessions, k)
    ensures Run(p, sessions).exit == Some(-1) <==>
      exists k :: 0 <= k < |sessions| && !IsQuit(sessions[k]) && !Continues(sessions[k]) && ReachesTurn(sessions, k)
    ensures Run(p, sessions).exit == None <==> ReachesTurn(sessions, |sessions|)
  {
    hide Run, ReachesTurn, Fatal, Parse, Admissible;
    ExitByLastTurn(p, sessions);
    var last := LastTurn(sessions);
    forall k | 0 <= k < |sessions| && !Continues(sessions[k]) && ReachesTurn(sessions, k)
      ensures k == last
    {
      LastTurnUnique(sessions, k);
    }
    if ReachesTurn(sessions, |sessions|) && last < |sessions| {
      EveryTurn(sessions, last);
    }
  }

  lemma EveryTurn(sessions: seq<Session>, k: nat)
    requires AllValid(sessions) && k < |sessions| && ReachesTurn(sessions, |sessions|)
    ensures Continues(sessions[k])
  {
  }

  // ---------- starting tasks ----------

  /** The event before a start is a registration that stored this task or, when the second call stored
      none, the first call of the same package did; the latest code is not "already installed". */
  predicate StartJustified(trace: seq<Event>, i: nat)
    requires i < |trace| && trace[i].Started?
  {
    && trace[i].task != INVALID_TASK && i >= 1
    && match trace[i - 1]
       case Registered(_, reply) =>
         reply.task == Some(trace[i].task) && Int32(reply.code) && Unsigned(reply.code) != ALREADY_INSTALLED
       case DebugRegistered(params, reply) =>
         && Int32(reply.code) && Unsigned(reply.code) != ALREADY_INSTALLED && i >= 2
         && trace[i - 2].Registered? && trace[i - 2].params == params
         && (reply.task == Some(trace[i].task)
             || (reply.task == None && trace[i - 2].reply.task == Some(trace[i].task)))
       case _ => false
  }

  predicate AllStartsJustified(trace: seq<Event>)
  {
    forall i :: 0 <= i < |trace| && trace[i].Started? ==> StartJustified(trace, i)
  }

  lemma JustifiedAppend(a: seq<Event>, b: seq<Event>)
    requires AllStartsJustified(a) && AllStartsJustified(b)
    ensures AllStartsJustified(a + b)
  {
  }

  lemma PackageStartsJustified(params: Params, s: Session)
    requires ValidReply(s.register) && ValidReply(s.debug)
    ensures AllStartsJustified(PackageEvents(params, s))
  {
  }

  /** Every task ever started was stored by a registration of the package in hand, is not the invalid
      task, and its latest registration did not report "already installed". */
  lemma {:induction false} StartsAreJustified(p: Params, sessions: seq<Session>)
    requires AllValid(sessions)
    ensures AllStartsJustified(Run(p, sessions).trace)
    decreases |sessions|
  {
    hide PackageEvents, IsFatalSession, Filled, Buffered, Parse, FitsHeader, Admissible, StartJustified;
    if sessions != [] && IsPackage(sessions[0]) {
      var now := ParamsOf(p, sessions[0]);
      PackageStartsJustified(now, sessions[0]);
      if !IsFatalSession(now, sessions[0]) {
        StartsAreJustified(now, sessions[1..]);
        JustifiedAppend(PackageEvents(now, sessions[0]), Run(now, sessions[1..]).trace);
      }
    }
  }

  // ---------- fatal errors ----------

  /** A fatal notice is the last event, follows the debug registration that caused it, and its last eight
      characters are that call's code. */
  predicate FatalExplained(trace: seq<Event>, i: nat)
    requires i < |trace| && IsFatal(trace[i])
  {
    && i == |trace| - 1 && i >= 2 && trace[i - 1].DebugRegistered? && Int32(trace[i - 1].reply.code)
    && var text := trace[i].notice.text;
       && |text| >= 8 && AllHex(text[|text| - 8..])
       && ParseHex(text[|text| - 8..]) == Unsigned(trace[i - 1].reply.code)
  }

  predicate AllFatalExplained(trace: seq<Event>)
  {
    forall i :: 0 <= i < |trace| && IsFatal(trace[i]) ==> FatalExplained(trace, i)
  }

  lemma PackageFatalExplained(params: Params, s: Session)
    requires ValidReply(s.register) && ValidReply(s.debug)
    ensures AllFatalExplained(PackageEvents(params, s))
    ensures !IsFatalSession(params, s) ==>
      forall i :: 0 <= i < |PackageEvents(params, s)| ==> !IsFatal(PackageEvents(params, s)[i])
  {
    hide Unsigned, ErrorText, BGFT_ERROR, ParseHex, AllHex;
    ErrorTextFits();
    CodeRecoverable(BGFT_ERROR, s.debug.code);
  }

  /** No fatal error goes unexplained, and none is survived. */
  lemma {:induction false} FatalErrorsExplained(p: Params, sessions: seq<Session>)
    requires AllValid(sessions)
    ensures AllFatalExplained(Run(p, sessions).trace)
    decreases |sessions|
  {
    hide PackageEvents, IsFatalSession, Filled, Buffered, Parse, FitsHeader, Admissible, ParseHex, AllHex, Unsigned;
    if sessions != [] && IsPackage(sessions[0]) {
      var now := ParamsOf(p, sessions[0]);
      PackageFatalExplained(now, sessions[0]);
      if !IsFatalSession(now, sessions[0]) {
        FatalErrorsExplained(now, sessions[1..]);
        var a, b := PackageEvents(now, sessions[0]), Run(now, sessions[1..]).trace;
        forall i | 0 <= i < |a + b| && IsFatal((a + b)[i])
          ensures FatalExplained(a + b, i)
        {
          assert i >= |a| && (a + b)[i] == b[i - |a|];
          assert FatalExplained(b, i - |a|);
        }
      }
    }
  }

  // ---------- from the sender's queue to the installer ----------

  /** Session `k` carries the encoding of package `k`, followed by anything. */
  ghost predicate Carrying(sessions: seq<Session>, packages: seq<Package>)
  {
    && |packages| <= |sessions|
    && forall k :: 0 <= k < |packages| ==>
         && Deliverable(packages[k]) && sessions[k].stream.Some?
         && Encode(packages[k]) <= sessions[k].stream.value
  }

  lemma FilledCarries(params: Params, p: Package, stream: seq<byte>)
    requires Deliverable(p) && Encode(p) <= stream
    ensures Fillable(Parse(stream)) && Carries(Filled(params, Parse(stream)), p)
  {
    hide Parse, Body, ParseBody, ParseStrings, IdField, Buffered, CStr, ICON_DIR, ICON_EXT, Encode, Le, FromLe, IconName,
         IconPath;
    var tail := stream[|Encode(p)|..];
    assert stream == Encode(p) + tail;
    ParseEncoded(p, tail);
    BuffersRead(p);
    IconPathFits(p);
    IconNamed(p);
  }

  lemma IconNamed(p: Package)
    requires Deliverable(p) && Reads(Buffered(p.id, ID_CAP), p.id)
    ensures IconPath(p) == if |p.icon| == 0 then [] else ICON_DIR + IconName(Buffered(p.id, ID_CAP))
  {
    hide Buffered, CStr, ICON_DIR, ICON_EXT, Deliverable;
  }

  /** When successive connections carry deliverable packages, the installer is handed those packages, in
      order and unmixed, whatever it answers; and all of them, unless a fatal error stops the run. */
  lemma DeliversInOrder(params: Params, sessions: seq<Session>, packages: seq<Package>)
    requires AllValid(sessions) && Carrying(sessions, packages)
    requires |packages| == |sessions| || !IsPackage(sessions[|packages|])
    ensures var seen := Registrations(Run(params, sessions).trace);
            && |seen| <= |packages|
            && (forall k :: 0 <= k < |seen| ==> Carries(seen[k], packages[k]))
            && (|seen| == |packages| <==> ReachesTurn(sessions, if |packages| == 0 then 0 else |packages| - 1))
  {
    hide Run, Registrations, Accepted, Filled, Carries, FitsHeader, Buffered, ReachesTurn, Carrying, AllValid, IsPackage;
    RegistersInOrder(params, sessions);
    AcceptedAre(params, sessions, packages);
    var seen := Registrations(Run(params, sessions).trace);
    forall k | 0 <= k < |seen|
      ensures Carries(seen[k], packages[k])
    {
      CarriedBy(params, sessions, packages, k);
    }
  }

  lemma CarriedBy(params: Params, sessions: seq<Session>, packages: seq<Package>, k: nat)
    requires AllValid(sessions) && Carrying(sessions, packages) && k < |packages|
    ensures |packages| <= |sessions| && IsPackage(sessions[k]) && Fillable(RequestOf(sessions[k]))
    ensures Carries(Filled(params, RequestOf(sessions[k])), packages[k])
  {
    hide Filled, Carries, FitsHeader, Buffered, Deliverable, Encode, Parse, ValidSession;
    FilledCarries(params, packages[k], sessions[k].stream.value);
  }

  lemma {:induction false} AcceptedAre(params: Params, sessions: seq<Session>, packages: seq<Package>)
    requires AllValid(sessions) && Carrying(sessions, packages)
    requires |packages| == |sessions| || !IsPackage(sessions[|packages|])
    ensures var accepted := Accepted(params, sessions);
            && |accepted| <= |packages|
            && (forall k :: 0 <= k < |accepted| ==> accepted[k] == RequestOf(sessions[k]))
            && (|accepted| == |packages| <==> ReachesTurn(sessions, if |packages| == 0 then 0 else |packages| - 1))
    decreases |sessions|
  {
    hide Filled, Fillable, Deliverable, Encode, IsFatalSession, Fatal, IsPackage, RequestOf, Admissible, ValidReply,
         Carrying, ReachesTurn, ParamsOf;
    NoTurns(sessions);
    var rest := sessions[if sessions == [] then 0 else 1..];
    assert forall k :: 0 <= k < |rest| ==> rest[k] == sessions[k + 1];
    if packages == [] {
    } else {
      CarriedBy(params, sessions, packages, 0);
      var now := ParamsOf(params, sessions[0]);
      FatalIff(now, sessions[0]);
      if !Fatal(sessions[0]) {
        CarryingRest(sessions, packages);
        AcceptedAre(now, rest, packages[1..]);
      }
      if |packages| > 1 {
        ReachesShift(sessions, |packages| - 1);
      }
    }
  }

  lemma NoTurns(sessions: seq<Session>)
    requires AllValid(sessions)
    ensures ReachesTurn(sessions, 0)
    ensures sessions != [] ==> ReachesTurn(sessions[1..], 0)
  {
  }

  lemma CarryingRest(sessions: seq<Session>, packages: seq<Package>)
    requires Carrying(sessions, packages) && packages != []
    ensures |packages| <= |sessions| && Carrying(sessions[1..], packages[1..])
  {
    hide Deliverable, Encode;
  }
}
