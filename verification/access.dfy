/** Who may reach the guarded hooks, and which seed a key answers, over whole histories. */
module Access {
  import opened Kernel
  import opened UdsServer
  import opened UdsSystem
  import opened Monitors
  import SA = SecurityAccess

  /** The seed a response frame hands out. */
  function SeedIn(e: Event): Option<bytes> {
    match e
    case Frame(data) =>
      if |data| >= 2 && data[0] == 0x67 && (data[1] == 1 || data[1] == 3) then Some(data[2..]) else None
    case _ => None
  }

  /** An event that ends everything a tester has achieved. */
  predicate Ends(e: Event) { e.SessionSet? || e.S3Expired? || e.Reboot? }

  /** What a log entitles the tester to: the session, whether a key has been accepted in it, and the seed
      that may still be answered. `ok` is lost for good once a guarded hook is called without title, or a
      key is verified against any other seed or after one has been accepted. */
  datatype Title = Title(ok: bool, session: Session, unlocked: bool, seed: Option<bytes>)

  const NO_TITLE := Title(true, Default, false, None)

  function Observe(t: Title, e: Entry): Title {
    match e.event
    case Frame(_) => if SeedIn(e.event).Some? then t.(seed := SeedIn(e.event)) else t
    case SessionSet(session) => Title(t.ok, session, false, None)
    case S3Expired => Title(t.ok, Default, false, None)
    case Reboot(_) => Title(t.ok, Default, false, None)
    case Verify(_, seed, _, granted) => Title(t.ok && t.seed == Some(seed) && !t.unlocked, t.session, granted, None)
    case Erase(_, _, _, _) => t.(ok := t.ok && t.session != Default && t.unlocked)
    case WriteDid(_, _) => t.(ok := t.ok && t.session == Extended && t.unlocked)
    case IoControl(_, _, _) => t.(ok := t.ok && t.session == Extended && t.unlocked)
    case _ => t
  }

  predicate Good(t: Title) { t.ok }

  predicate Agrees(r: Ram, t: Title) {
    && t.ok
    && t.session == r.session.session
    && (IsUnlocked(r) <==> t.unlocked)
    && (r.security.status == SA.SeedRequested <==> t.seed.Some? && !t.unlocked)
    && (r.security.status == SA.SeedRequested ==> t.seed == Some(r.security.seed))
  }

  ghost predicate Inv(s: Sys) { Agrees(s.ram, Fold(Observe, NO_TITLE, s.log)) }

  lemma HandlerAgrees(r: Ram, now: nat, req: bytes, h: Hooks, o: Outcome<Ram>, t: Title)
    requires req != [] && OneOf(r, now, req, h, o) && Agrees(r, t)
    ensures var t' := FoldEvents(Observe, t, now, o.events);
            if AsksSecurity(r, now, req, h, o) && o.reply.Positive? && (req[1] == 1 || req[1] == 3)
            then Agrees(o.state, t'.(seed := Some(o.state.security.seed)))
                 && SeedIn(Frame(o.reply.frame)) == Some(o.state.security.seed)
            else Agrees(o.state, t') && (o.reply.Positive? ==> SeedIn(Frame(o.reply.frame)) == None)
  {
    FoldFew(Observe, t, now, o.events);
    if AsksSecurity(r, now, req, h, o) && o.reply.Positive? && (req[1] == 1 || req[1] == 3) {
      assert o.reply.frame[2..] == o.state.security.seed;
    }
  }

  lemma RequestAgrees(s: Sys, req: bytes, addressing: Addressing, h: Hooks, t: Title)
    requires Agrees(s.ram, t)
    ensures var (r, events) := Process(s.ram, s.now, req, addressing, h);
            Agrees(r, FoldEvents(Observe, t, s.now, events))
  {
    if req != [] {
      var r := Refreshed(s.ram, s.now);
      var o := Dispatch(r, s.now, req, addressing, h);
      DispatchCases(r, s.now, req, addressing, h);
      HandlerAgrees(r, s.now, req, h, o, t);
      AnswerAgrees(s.now, req, addressing, o, t);
    }
  }

  lemma AnswerAgrees(now: nat, req: bytes, addressing: Addressing, o: Outcome<Ram>, t: Title)
    requires req != []
    requires var t' := FoldEvents(Observe, t, now, o.events);
             if o.reply.Positive? && SeedIn(Frame(o.reply.frame)).Some?
             then Agrees(o.state, t'.(seed := SeedIn(Frame(o.reply.frame)))) else Agrees(o.state, t')
    ensures Agrees(o.state, FoldEvents(Observe, t, now, [Received(req, addressing)] + Emitted(addressing, req[0], o)))
  {
    var sent := Transmit(addressing, req[0], o.reply);
    FoldHandled(Observe, t, now, req, addressing, o);
    FoldFew(Observe, FoldEvents(Observe, t, now, o.events), now, sent);
  }

  lemma TitleIsMonitor()
    ensures IsMonitor(Observe, Good, Agrees)
  {
  }

  lemma TitleInEveryRun(steps: seq<Step>)
    requires Run(steps).Some?
    ensures Inv(Run(steps).value)
  {
    TitleIsMonitor();
    forall s: Sys, req: bytes, addressing: Addressing, h: Hooks, t: Title
      ensures RequestKept(Observe, Agrees, s, req, addressing, h, t)
    {
      if Agrees(s.ram, t) {
        RequestAgrees(s, req, addressing, h, t);
      }
    }
    AgreesInEveryRun(Observe, Good, Agrees, NO_TITLE, steps);
  }

  predicate NoneEnds(log: seq<Entry>, i: nat, k: nat)
    requires k <= |log|
  {
    forall m :: i < m < k ==> !Ends(log[m].event)
  }

  /** Entry `i` is an accepted 0x10 to the given session, entry `j` a later successful key verification,
      and nothing ended the session in between or since, up to position `k`. */
  predicate Entitled(log: seq<Entry>, i: nat, j: nat, k: nat, session: Session)
    requires k <= |log|
  {
    && i < j < k
    && log[i].event == SessionSet(session)
    && log[j].event.Verify? && log[j].event.granted
    && NoneEnds(log, i, k)
  }

  /** Entry `i` is the latest seed response before `k`, it hands out `seed`, and since then no key was
      verified and nothing ended the session. */
  predicate LatestSeed(log: seq<Entry>, i: nat, k: nat, seed: bytes)
    requires k <= |log|
  {
    && i < k && SeedIn(log[i].event) == Some(seed)
    && forall m :: i < m < k ==> SeedIn(log[m].event).None? && !log[m].event.Verify? && !Ends(log[m].event)
  }

  lemma {:induction false} TitleHasOrigin(log: seq<Entry>) returns (i: nat, j: nat)
    ensures var t := Fold(Observe, NO_TITLE, log);
            && (t.session != Default ==> i < |log| && log[i].event == SessionSet(t.session) && NoneEnds(log, i, |log|))
            && (t.session != Default && t.unlocked ==> Entitled(log, i, j, |log|, t.session))
  {
    i, j := 0, 0;
    if log != [] {
      var front, e := log[..|log| - 1], log[|log| - 1].event;
      i, j := TitleHasOrigin(front);
      assert forall m :: 0 <= m < |front| ==> front[m] == log[m];
      if e.SessionSet? {
        i := |log| - 1;
      } else if e.Verify? {
        j := |log| - 1;
      }
    }
  }

  lemma {:induction false} SeedHasOrigin(log: seq<Entry>) returns (i: nat)
    ensures var seed := Fold(Observe, NO_TITLE, log).seed; seed.Some? ==> LatestSeed(log, i, |log|, seed.value)
  {
    i := 0;
    if log != [] {
      var front := log[..|log| - 1];
      i := SeedHasOrigin(front);
      assert forall m :: 0 <= m < |front| ==> front[m] == log[m];
      if SeedIn(log[|log| - 1].event).Some? {
        i := |log| - 1;
      }
    }
  }

  /** The sessions in which a guarded hook may be called. */
  predicate Guarded(e: Event, session: Session) {
    match e
    case Erase(_, _, _, _) => session != Default
    case WriteDid(_, _) => session == Extended
    case IoControl(_, _, _) => session == Extended
    case _ => false
  }

  /** In every run, every call of the erase hook comes after an accepted 0x10 to a non-default session
      and then a successful key verification, with no session change, effective S3 expiry or reboot
      since that 0x10; for the write-DID and IO-control hooks the session is the extended one. */
  lemma GuardedCallsAreAuthorised(steps: seq<Step>, log: seq<Entry>, k: nat) returns (i: nat, j: nat, session: Session)
    requires Run(steps).Some? && Run(steps).value.log == log
    requires k < |log| && (log[k].event.Erase? || log[k].event.WriteDid? || log[k].event.IoControl?)
    ensures Entitled(log, i, j, k, session) && Guarded(log[k].event, session)
  {
    TitleInEveryRun(steps);
    i, j, session := TitledCall(log, k);
  }

  lemma TitledCall(log: seq<Entry>, k: nat) returns (i: nat, j: nat, session: Session)
    requires Fold(Observe, NO_TITLE, log).ok
    requires k < |log| && (log[k].event.Erase? || log[k].event.WriteDid? || log[k].event.IoControl?)
    ensures Entitled(log, i, j, k, session) && Guarded(log[k].event, session)
  {
    FoldLogEntry(Observe, Good, NO_TITLE, log, k);
    session := Fold(Observe, NO_TITLE, log[..k]).session;
    i, j := TitleHasOrigin(log[..k]);
    EntitledInPrefix(log, i, j, k, session);
  }

  lemma EntitledInPrefix(log: seq<Entry>, i: nat, j: nat, k: nat, session: Session)
    requires k <= |log| && Entitled(log[..k], i, j, k, session)
    ensures Entitled(log, i, j, k, session)
  {
    assert forall m :: 0 <= m < k ==> log[..k][m] == log[m];
  }

  /** In every run, every key verification uses exactly the bytes of the most recent seed response, with
      no verification, accepted 0x10, effective S3 expiry or reboot in between. */
  lemma VerificationsUseFreshSeeds(steps: seq<Step>, log: seq<Entry>, k: nat) returns (i: nat)
    requires Run(steps).Some? && Run(steps).value.log == log
    requires k < |log| && log[k].event.Verify?
    ensures LatestSeed(log, i, k, log[k].event.seed)
  {
    TitleInEveryRun(steps);
    i := FreshVerification(log, k);
  }

  lemma FreshVerification(log: seq<Entry>, k: nat) returns (i: nat)
    requires Fold(Observe, NO_TITLE, log).ok && k < |log| && log[k].event.Verify?
    ensures LatestSeed(log, i, k, log[k].event.seed)
  {
    FoldLogEntry(Observe, Good, NO_TITLE, log, k);
    i := SeedHasOrigin(log[..k]);
    LatestSeedInPrefix(log, i, k, log[k].event.seed);
  }

  lemma LatestSeedInPrefix(log: seq<Entry>, i: nat, k: nat, seed: bytes)
    requires k <= |log| && LatestSeed(log[..k], i, k, seed)
    ensures LatestSeed(log, i, k, seed)
  {
    assert forall m :: 0 <= m < k ==> log[..k][m] == log[m];
  }

  /** So two verifications never share a seed response. */
  lemma SeedsAreUsedOnce(steps: seq<Step>, log: seq<Entry>, k: nat, k': nat) returns (i: nat, i': nat)
    requires Run(steps).Some? && Run(steps).value.log == log
    requires k < k' < |log| && log[k].event.Verify? && log[k'].event.Verify?
    ensures LatestSeed(log, i, k, log[k].event.seed) && LatestSeed(log, i', k', log[k'].event.seed) && i < k < i' < k'
  {
    i := VerificationsUseFreshSeeds(steps, log, k);
    i' := VerificationsUseFreshSeeds(steps, log, k');
  }
}
