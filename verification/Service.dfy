/** The payload's service loop: receive a package, register it, start its task or report why not. */
module Service {
  import opened Bytes
  import opened CStrings
  import opened Wire
  import opened Receiver

  const INVALID_TASK := -1
  const ALREADY_INSTALLED := 0x80990088

  /** What one registration call does: its return code, and the task it stores, if it stores one. */
  datatype Reply = Reply(code: int, task: Option<int>)

  /** Everything the environment does in one turn of the loop: the bytes of the connection (none when it
      cannot be made) and the answers of the two registration calls. */
  datatype Session = Session(stream: Option<seq<byte>>, register: Reply, debug: Reply)

  /** The notices on screen; the fixed texts are named, the generated one is spelled out. */
  datatype Notice = GetInfoError | OldDownloads | AlreadyInstalled | NoSpace | Fragmented | BgftError(text: seq<byte>) | Exited

  /** What the loop does to the outside world. */
  datatype Event =
    | Registered(params: Params, reply: Reply)
    | DebugRegistered(params: Params, reply: Reply)
    | Started(task: int)
    | Notified(notice: Notice)

  const BGFT_ERROR := Ascii("DPI: BGFT Error ")

  predicate ValidReply(r: Reply) { Int32(r.code) && (r.task.Some? ==> Int32(r.task.value)) }

  /** A session whose stream is cut off inside a header or outside defined behaviour is not considered. */
  predicate ValidSession(s: Session)
  {
    && ValidReply(s.register) && ValidReply(s.debug)
    && (s.stream.Some? ==> Admissible(s.stream.value) && !Parse(s.stream.value).Truncated?)
  }

  predicate AllValid(sessions: seq<Session>) { forall i :: 0 <= i < |sessions| ==> ValidSession(sessions[i]) }

  // ---------- one package ----------

  function TaskAfter(task: int, r: Reply): int { if r.task.Some? then r.task.value else task }

  predicate Usable(task: int, r: Reply)
    requires Int32(r.code)
  {
    Unsigned(r.code) != ALREADY_INSTALLED && task != INVALID_TASK
  }

  /** The notice for the code of the second registration. */
  function Classify(code: int): Notice
    requires Int32(code)
  {
    var u := Unsigned(code);
    if u == 0x80990086 then OldDownloads
    else if u == ALREADY_INSTALLED then AlreadyInstalled
    else if u == 0x80990039 || u == 0x80A30026 then NoSpace
    else if u == 0x80990085 then Fragmented
    else BgftError(ErrorText(BGFT_ERROR, code))
  }

  /** The events of one package. */
  function PackageEvents(params: Params, s: Session): (events: seq<Event>)
    requires ValidReply(s.register) && ValidReply(s.debug)
    ensures |events| >= 2
  {
    var first := TaskAfter(INVALID_TASK, s.register);
    if Usable(first, s.register) then [Registered(params, s.register), Started(first)]
    else
      var second := TaskAfter(first, s.debug);
      [Registered(params, s.register), DebugRegistered(params, s.debug),
       if Usable(second, s.debug) then Started(second)
       else Notified(Classify(s.debug.code))]
  }

  predicate IsFatal(e: Event) { e.Notified? && e.notice.BgftError? }

  predicate IsFatalSession(params: Params, s: Session)
    requires ValidReply(s.register) && ValidReply(s.debug)
  {
    var events := PackageEvents(params, s);
    IsFatal(events[|events| - 1])
  }

  // ---------- a run ----------

  function RequestOf(s: Session): Parsed
    requires s.stream.Some?
  {
    Parse(s.stream.value)
  }

  predicate IsPackage(s: Session) { s.stream.Some? && RequestOf(s).Request? }

  predicate IsQuit(s: Session) { s.stream.Some? && RequestOf(s).Quit? }

  lemma FillableRequest(s: Session)
    requires ValidSession(s) && IsPackage(s)
    ensures FitsHeader(RequestOf(s)) && 0 in Buffered(RequestOf(s).id, ID_CAP)
  {
    hide Buffered, TakeField;
    var body := s.stream.value[4..];
    IdReady(body);
    SizeAndIcon(body);
    TakenFits(body, URL_CAP);
    TakenFits(TakeField(body, URL_CAP).rest, NAME_CAP);
    TakenFits(TakeField(TakeField(body, URL_CAP).rest, NAME_CAP).rest, ID_CAP);
    TakenFits(TakeField(TakeField(TakeField(body, URL_CAP).rest, NAME_CAP).rest, ID_CAP).rest, TYPE_CAP);
  }

  /** The parameters a package session registers. */
  function ParamsOf(params: Params, s: Session): Params
    requires ValidSession(s) && IsPackage(s)
  {
    FillableRequest(s);
    Filled(params, RequestOf(s))
  }

  /** The exit code (none while the loop is still waiting for a connection) and all events of a run. */
  datatype Result = Result(exit: Option<int>, trace: seq<Event>)

  function Prepend(events: seq<Event>, r: Result): Result { Result(r.exit, events + r.trace) }

  function Run(params: Params, sessions: seq<Session>): Result
    requires AllValid(sessions)
    decreases |sessions|
  {
    if sessions == [] then Result(None, [])
    else
      var s := sessions[0];
      if IsQuit(s) then Result(Some(0), [Notified(Exited)])
      else if !IsPackage(s) then Result(Some(-1), [Notified(GetInfoError)])
      else
        var now := ParamsOf(params, s);
        if IsFatalSession(now, s) then Result(Some(-1), PackageEvents(now, s))
        else Prepend(PackageEvents(now, s), Run(now, sessions[1..]))
  }

  /** One turn of the loop after a package has been received. */
  method Install(params: DownloadParams, s: Session) returns (fatal: bool, events: seq<Event>)
    requires ValidReply(s.register) && ValidReply(s.debug)
    ensures events == PackageEvents(params.View(), s)
    ensures fatal <==> IsFatalSession(params.View(), s)
  {
    hide Unsigned, BGFT_ERROR, ErrorText;
    fatal := false;
    var task := INVALID_TASK;
    var rv := s.register.code;
    task := if s.register.task.Some? then s.register.task.value else task;
    events := [Registered(params.View(), s.register)];
    if Unsigned(rv) != ALREADY_INSTALLED && task != INVALID_TASK {
      events := events + [Started(task)];
      return;
    }
    rv := s.debug.code;
    task := if s.debug.task.Some? then s.debug.task.value else task;
    events := events + [DebugRegistered(params.View(), s.debug)];
    if Unsigned(rv) != ALREADY_INSTALLED && task != INVALID_TASK {
      events := events + [Started(task)];
      return;
    }
    if Unsigned(rv) == 0x80990086 {
      events := events + [Notified(OldDownloads)];
      return;
    }
    if Unsigned(rv) == ALREADY_INSTALLED {
      events := events + [Notified(AlreadyInstalled)];
      return;
    }
    if Unsigned(rv) == 0x80990039 || Unsigned(rv) == 0x80A30026 {
      events := events + [Notified(NoSpace)];
      return;
    }
    if Unsigned(rv) == 0x80990085 {
      events := events + [Notified(Fragmented)];
      return;
    }
    ErrorTextFits();
    var err := ErrorMessage(BGFT_ERROR, rv);
    events := events + [Notified(BgftError(err))];
    fatal := true;
  }

  lemma ErrorTextFits()
    ensures 0 !in BGFT_ERROR && |BGFT_ERROR| == 16
  {
  }

  /** `main`'s loop over the connections of one run. */
  method Serve(uid: int, sessions: seq<Session>) returns (exit: Option<int>, trace: seq<Event>)
    requires AllValid(sessions)
    ensures Result(exit, trace) == Run(Initial(uid), sessions)
  {
    hide PackageEvents, Filled, Buffered, IsFatalSession, Parse, Initial, Admissible;
    var params := new DownloadParams(uid);
    InitialView(params);
    trace := [];
    var i := 0;
    while i < |sessions|
      invariant 0 <= i <= |sessions|
      invariant fresh(params)
      invariant Run(Initial(uid), sessions) == Prepend(trace, Run(params.View(), sessions[i..]))
    {
      var s := sessions[i];
      assert s in sessions && sessions[i..][0] == s && sessions[i..][1..] == sessions[i + 1..];
      var before := params.View();
      var rv := Receive(params, s);
      if rv == -1 {
        trace := trace + [Notified(GetInfoError)];
        return Some(-1), trace;
      }
      if rv == 1 {
        trace := trace + [Notified(Exited)];
        return Some(0), trace;
      }
      var fatal, events := Install(params, s);
      Reassociate(trace, events, Run(params.View(), sessions[i + 1..]));
      trace := trace + events;
      if fatal {
        return Some(-1), trace;
      }
      i := i + 1;
    }
    exit := None;
  }

  function Initial(uid: int): Params
  {
    Params(uid, 5, 0x10000, [0], [0], [0], [0], Ascii("PS4GD") + [0], 0)
  }

  lemma Reassociate(a: seq<Event>, b: seq<Event>, r: Result)
    ensures Prepend(a, Prepend(b, r)) == Prepend(a + b, r)
    ensures Prepend(a, r) == Result(r.exit, a + r.trace)
  {
  }

  lemma InitialView(params: DownloadParams)
    requires params.View() == Params(params.userId, 5, 0x10000, [0], [0], [0], [0], Ascii("PS4GD") + [0], 0)
    ensures params.View() == Initial(params.userId)
  {
  }

  /** `get_pkg_info` on one session: its result tells the kind of session, and the parameters follow it. */
  method Receive(params: DownloadParams, s: Session) returns (rv: int)
    requires ValidSession(s)
    modifies params
    ensures rv == if IsQuit(s) then 1 else if IsPackage(s) then 0 else -1
    ensures IsPackage(s) ==> params.View() == ParamsOf(old(params.View()), s)
  {
    hide Filled, Buffered, FitsHeader, IconSaved, NoIcon, ParseBody;
    var file := new IconFile();
    var sock: Socket? := null;
    if s.stream.Some? {
      sock := new Socket(s.stream.value);
      IdReady(if |s.stream.value| < 4 then [] else s.stream.value[4..]);
    }
    rv := GetPkgInfo(params, sock, file);
  }
}
