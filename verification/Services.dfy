/** The life-cycle of a service (service.cc): slots that act on marker files and recurse over
    the dependencies. */
module Services {

  type Service = string

  datatype Marker = Installed | Installing | Configured | Configuring | Validating | ValidationFailure
                  | AfterStarting | AfterStopping | Reloading

  /** A marker file of a service; the marker for a running service is kept apart. */
  datatype Mark = Mark(service: Service, marker: Marker)

  /** What the commands of a hook do: whether the expected output came, and which markers they
      create and remove. They touch no running markers, and none of a stop in progress. */
  datatype Effect = Effect(ok: bool, created: set<Mark>, removed: set<Mark>)

  type Outcome = e: Effect | forall m :: m in e.created + e.removed ==> m.marker != AfterStopping
    witness Effect(true, {}, {})

  /** What the igniters say, and whether there is room on disk the n-th time it is asked. */
  datatype Config = Config(
    deps: Service -> seq<Service>, configureOrder: Service -> int, startOrder: Service -> int,
    hasValidate: Service -> bool, diskHasRoom: nat -> bool)

  /** No service depends on itself, directly or not: dependencies have a lower rank. */
  ghost predicate Acyclic(c: Config, rank: Service -> nat) {
    forall s, d :: d in c.deps(s) ==> rank(d) < rank(s)
  }

  // ---------------------------------------------------------------------------------------
  // Sorting
  // ---------------------------------------------------------------------------------------

  predicate SortedBy(xs: seq<Service>, order: Service -> int) {
    forall i, j :: 0 <= i < j < |xs| ==> order(xs[i]) <= order(xs[j])
  }

  function Insert(x: Service, xs: seq<Service>, order: Service -> int): (r: seq<Service>)
    ensures multiset(r) == multiset(xs) + multiset{x}
  {
    if xs == [] then [x]
    else if order(x) <= order(xs[0]) then [x] + xs
    else
      assert xs == [xs[0]] + xs[1..];
      [xs[0]] + Insert(x, xs[1..], order)
  }

  /** `qSort`; nothing is said about services of the same order. */
  function Sort(xs: seq<Service>, order: Service -> int): (r: seq<Service>)
    ensures multiset(r) == multiset(xs)
  {
    if xs == [] then []
    else
      assert xs == [xs[0]] + xs[1..];
      Insert(xs[0], Sort(xs[1..], order), order)
  }

  lemma SameMembers(a: seq<Service>, b: seq<Service>)
    requires multiset(a) == multiset(b)
    ensures forall x :: x in a <==> x in b
  {
    forall x ensures x in a <==> x in b {
      assert x in a <==> x in multiset(a);
      assert x in b <==> x in multiset(b);
    }
  }

  lemma InsertMembers(x: Service, xs: seq<Service>, order: Service -> int)
    ensures forall v :: v in Insert(x, xs, order) <==> v == x || v in xs
  {
    hide Insert;
    assert multiset([x] + xs) == multiset{x} + multiset(xs);
    SameMembers(Insert(x, xs, order), [x] + xs);
  }

  lemma {:induction false} InsertSorts(x: Service, xs: seq<Service>, order: Service -> int)
    requires SortedBy(xs, order)
    ensures SortedBy(Insert(x, xs, order), order)
  {
    if xs != [] && order(x) > order(xs[0]) {
      InsertSorts(x, xs[1..], order);
      InsertMembers(x, xs[1..], order);
      var r := Insert(x, xs[1..], order);
      forall k | 0 <= k < |r| ensures order(xs[0]) <= order(r[k]) {
        assert r[k] in r;
      }
    }
  }

  lemma {:induction false} SortSorts(xs: seq<Service>, order: Service -> int)
    ensures SortedBy(Sort(xs, order), order)
    ensures forall x :: x in Sort(xs, order) <==> x in xs
  {
    if xs != [] {
      SortSorts(xs[1..], order);
      InsertSorts(xs[0], Sort(xs[1..], order), order);
    }
    SameMembers(Sort(xs, order), xs);
  }

  // ---------------------------------------------------------------------------------------
  // What happens during a start
  // ---------------------------------------------------------------------------------------

  /** The dependencies are gone through twice. */
  datatype Phase = ForConfigure | ForStart

  /** Why a start gives up: the n-th look at the disk found too little room, or validation left
      its failure marker among the markers then there. */
  datatype Cause = NoRoom(n: nat) | Failed(marks: set<Mark>)

  datatype Slot = Install | Configure | Validate | AfterStart | Stop | AfterStop

  /** `Begin`: a service starts to go through its dependencies; `Taken`: it takes the next
      one; `Refused`: its start gives up; `Asked`: a slot is invoked; `Ran`: the commands of
      its hook run; `Launched`: the start commands run, with the services then running and
      the markers then there. */
  datatype Event =
    | Begin(s: Service, phase: Phase)
    | Taken(s: Service, d: Service, phase: Phase)
    | Refused(s: Service, cause: Cause)
    | Asked(s: Service, slot: Slot)
    | Ran(s: Service, slot: Slot)
    | Launched(s: Service, withDeps: bool, running: set<Service>, marks: set<Mark>)

  /** The dependencies a service has taken since it last began. */
  function TakenBy(log: seq<Event>, s: Service, p: Phase): seq<Service> {
    if log == [] then []
    else
      var before, e := log[..|log| - 1], log[|log| - 1];
      if e == Begin(s, p) then []
      else TakenBy(before, s, p) + if e.Taken? && e.s == s && e.phase == p then [e.d] else []
  }

  function Order(c: Config, p: Phase, s: Service): int {
    if p.ForConfigure? then c.configureOrder(s) else c.startOrder(s)
  }

  /** In both phases every dependency was taken. */
  predicate AllTaken(c: Config, log: seq<Event>, s: Service) {
    && multiset(TakenBy(log, s, ForConfigure)) == multiset(c.deps(s))
    && multiset(TakenBy(log, s, ForStart)) == multiset(c.deps(s))
  }

  /** The last thing that happened was the validation of the service; its commands ran unless
      there are none, or another validation is at work. */
  predicate JustValidated(c: Config, log: seq<Event>, s: Service, marks: set<Mark>) {
    log != [] &&
    (log[|log| - 1] == Ran(s, Validate)
     || (log[|log| - 1] == Asked(s, Validate) && (c.hasValidate(s) ==> Mark(s, Validating) in marks)))
  }

  predicate WasRefused(log: seq<Event>, s: Service) {
    exists e :: e in log && e.Refused? && e.s == s
  }

  /** A start gives up only for lack of room, or directly after a validation that left the
      failure marker. A service goes through its dependencies once its own installation was
      seen to, and starts them once all are configured. They are taken in their order; a service is launched only once,
      after its installation was seen to, after each dependency runs or was refused, and
      directly after its validation, which left no failure marker. */
  ghost predicate EventOk(c: Config, before: seq<Event>, e: Event) {
    match e
    case Begin(s, p) =>
      && Asked(s, Install) in before
      && (p.ForStart? ==> multiset(TakenBy(before, s, ForConfigure)) == multiset(c.deps(s)))
    case Refused(s, NoRoom(n)) => !c.diskHasRoom(n)
    case Refused(s, Failed(marks)) => JustValidated(c, before, s, marks) && Mark(s, ValidationFailure) in marks
    case Asked(_, _) => true
    case Ran(_, _) => true
    case Taken(s, d, p) =>
      d in c.deps(s) && forall x :: x in TakenBy(before, s, p) ==> Order(c, p, x) <= Order(c, p, d)
    case Launched(s, withDeps, running, marks) =>
      && s !in running && Asked(s, Install) in before
      && JustValidated(c, before, s, marks) && Mark(s, ValidationFailure) !in marks
      && (withDeps ==> forall d :: d in c.deps(s) ==>
            Asked(d, Install) in before && (d in running || WasRefused(before, d)))
      && (withDeps && c.deps(s) != [] ==> AllTaken(c, before, s))
      && (forall x :: x in before && x.Launched? ==> x.s in running)
  }

  ghost predicate Disciplined(c: Config, log: seq<Event>) {
    forall i :: 0 <= i < |log| ==> EventOk(c, log[..i], log[i])
  }

  lemma DisciplinedMore(c: Config, log: seq<Event>, e: Event)
    requires Disciplined(c, log) && EventOk(c, log, e)
    ensures Disciplined(c, log + [e])
  {
    hide EventOk;
    var more := log + [e];
    forall i | 0 <= i < |more| ensures EventOk(c, more[..i], more[i]) {
      if i < |log| {
        assert more[..i] == log[..i];
      } else {
        assert more[..i] == log;
      }
    }
  }

  /** In a disciplined log no service is launched twice. */
  lemma LaunchedOnce(c: Config, log: seq<Event>, i: nat, j: nat)
    requires Disciplined(c, log) && i < j < |log| && log[i].Launched? && log[j].Launched?
    ensures log[i].s != log[j].s
  {
    assert EventOk(c, log[..j], log[j]);
    assert log[..j][i] == log[i];
  }

  /** What was taken was taken by an event of the log. */
  lemma {:induction false} TakenIsLogged(log: seq<Event>, s: Service, p: Phase, d: Service)
    requires d in TakenBy(log, s, p)
    ensures Taken(s, d, p) in log
  {
    var before, e := log[..|log| - 1], log[|log| - 1];
    if e != Taken(s, d, p) {
      TakenIsLogged(before, s, p, d);
    }
  }

  /** What is taken stays so until the service begins anew. */
  lemma {:induction false} TakenStays(log: seq<Event>, i: nat, j: nat, s: Service, p: Phase, d: Service)
    requires i < j <= |log| && log[i] == Taken(s, d, p)
    requires forall k :: i < k < j ==> log[k] != Begin(s, p)
    ensures d in TakenBy(log[..j], s, p)
  {
    assert log[..j][..j - 1] == log[..j - 1];
    if i + 1 < j {
      TakenStays(log, i, j - 1, s, p, d);
    }
  }

  /** In a disciplined log a service configures its dependencies in the configure order, and
      starts them in the start order. */
  lemma TakenInOrder(c: Config, log: seq<Event>, i: nat, j: nat, s: Service, p: Phase, x: Service, y: Service)
    requires Disciplined(c, log) && i < j < |log| && log[i] == Taken(s, x, p) && log[j] == Taken(s, y, p)
    requires forall k :: i < k < j ==> log[k] != Begin(s, p)
    ensures p.ForConfigure? ==> c.configureOrder(x) <= c.configureOrder(y)
    ensures p.ForStart? ==> c.startOrder(x) <= c.startOrder(y)
  {
    assert EventOk(c, log[..j], log[j]);
    TakenStays(log, i, j, s, p, x);
  }

  /** In a disciplined log a service starts its dependencies only after it was installed, and
      all of them were configured. */
  lemma ConfiguredBeforeStart(c: Config, log: seq<Event>, j: nat, s: Service)
    requires Disciplined(c, log) && j < |log| && log[j] == Begin(s, ForStart)
    ensures Asked(s, Install) in log[..j]
    ensures forall d :: d in c.deps(s) ==> Taken(s, d, ForConfigure) in log[..j]
  {
    assert EventOk(c, log[..j], log[j]);
    SameMembers(TakenBy(log[..j], s, ForConfigure), c.deps(s));
    forall d | d in c.deps(s) ensures Taken(s, d, ForConfigure) in log[..j] {
      TakenIsLogged(log[..j], s, ForConfigure, d);
    }
  }

  /** In a disciplined log a service is launched only when it does not run, was installed, and
      its validation came just before and left no failure; with its dependencies, only when each
      of them was installed, was configured and taken for its start, and runs or was refused. */
  lemma LaunchedWhenReady(c: Config, log: seq<Event>, j: nat)
    requires Disciplined(c, log) && j < |log| && log[j].Launched?
    ensures var s := log[j].s;
            && s !in log[j].running && Asked(s, Install) in log[..j] && Mark(s, ValidationFailure) !in log[j].marks
            && j > 0 && (log[j - 1] == Ran(s, Validate) || log[j - 1] == Asked(s, Validate))
            && (log[j].withDeps ==> forall d :: d in c.deps(s) ==>
                  && Asked(d, Install) in log[..j]
                  && Taken(s, d, ForConfigure) in log[..j] && Taken(s, d, ForStart) in log[..j]
                  && (d in log[j].running || exists i :: 0 <= i < j && log[i].Refused? && log[i].s == d))
  {
    var s, before := log[j].s, log[..j];
    assert EventOk(c, before, log[j]);
    if log[j].withDeps {
      hide EventOk, Disciplined, TakenBy;
      forall d | d in c.deps(s)
        ensures && Taken(s, d, ForConfigure) in before && Taken(s, d, ForStart) in before
                && (d in log[j].running || exists i :: 0 <= i < j && log[i].Refused? && log[i].s == d)
      {
        AllTakenLogged(c, before, s, d);
        if d !in log[j].running {
          var e :| e in before && e.Refused? && e.s == d;
          var i :| 0 <= i < j && before[i] == e;
        }
      }
    }
  }

  lemma AllTakenLogged(c: Config, log: seq<Event>, s: Service, d: Service)
    requires AllTaken(c, log, s) && d in c.deps(s)
    ensures Taken(s, d, ForConfigure) in log && Taken(s, d, ForStart) in log
  {
    hide TakenBy;
    SameMembers(TakenBy(log, s, ForConfigure), c.deps(s));
    SameMembers(TakenBy(log, s, ForStart), c.deps(s));
    TakenIsLogged(log, s, ForConfigure, d);
    TakenIsLogged(log, s, ForStart, d);
  }

  /** In a disciplined log a start is refused only without room, or directly after a validation
      with the failure marker there. */
  lemma RefusedForCause(c: Config, log: seq<Event>, j: nat)
    requires Disciplined(c, log) && j < |log| && log[j].Refused?
    ensures var s, cause := log[j].s, log[j].cause;
            && (cause.NoRoom? ==> !c.diskHasRoom(cause.n))
            && (cause.Failed? ==> Mark(s, ValidationFailure) in cause.marks && j > 0
                                  && (log[j - 1] == Ran(s, Validate) || log[j - 1] == Asked(s, Validate)))
  {
    assert EventOk(c, log[..j], log[j]);
  }

  /** Whether an event changes what a service has taken. */
  predicate Affects(e: Event, s: Service, p: Phase) {
    (e.Begin? || e.Taken?) && e.s == s && e.phase == p
  }

  lemma {:induction false} TakenBySame(log: seq<Event>, more: seq<Event>, s: Service, p: Phase)
    requires log <= more && forall i :: |log| <= i < |more| ==> !Affects(more[i], s, p)
    ensures TakenBy(more, s, p) == TakenBy(log, s, p)
  {
    if |more| > |log| {
      assert log <= more[..|more| - 1];
      TakenBySame(log, more[..|more| - 1], s, p);
    } else {
      assert more == log;
    }
  }

  /** The number of starts refused. */
  function Refusals(log: seq<Event>): nat {
    if log == [] then 0
    else Refusals(log[..|log| - 1]) + if log[|log| - 1].Refused? then 1 else 0
  }

  lemma OneMore(log: seq<Event>, e: Event)
    ensures Refusals(log + [e]) == Refusals(log) + if e.Refused? then 1 else 0
    ensures e.Begin? ==> TakenBy(log + [e], e.s, e.phase) == []
    ensures e.Taken? ==> TakenBy(log + [e], e.s, e.phase) == TakenBy(log, e.s, e.phase) + [e.d]
    ensures forall s, p :: !Affects(e, s, p) ==> TakenBy(log + [e], s, p) == TakenBy(log, s, p)
  {
    assert (log + [e])[..|log|] == log;
  }

  /** Only slots were invoked and hooks run, of services of rank at most `bound`. */
  predicate PlainSince(rank: Service -> nat, log0: seq<Event>, log: seq<Event>, bound: nat) {
    log0 <= log && forall i :: |log0| <= i < |log| ==> (log[i].Asked? || log[i].Ran?) && rank(log[i].s) <= bound
  }

  lemma {:induction false} PlainKeeps(rank: Service -> nat, log0: seq<Event>, log: seq<Event>,
                                      running: set<Service>, bound: nat)
    requires PlainSince(rank, log0, log, bound)
    ensures Refusals(log) == Refusals(log0) && Extends(rank, log0, running, log, running, bound)
    ensures forall s, p :: TakenBy(log, s, p) == TakenBy(log0, s, p)
    ensures forall e :: e in log0 ==> e in log
    ensures forall s :: WasRefused(log0, s) ==> WasRefused(log, s)
    ensures AllDeep(log0, log)
    decreases |log|
  {
    if |log| > |log0| {
      var front, e := log[..|log| - 1], log[|log| - 1];
      assert log == front + [e];
      PlainKeeps(rank, log0, front, running, bound);
      OneMore(front, e);
    } else {
      assert log == log0;
    }
  }

  /** The start commands of the service ran since `log0`. */
  predicate LaunchedSince(log0: seq<Event>, log: seq<Event>, s: Service) {
    exists i :: |log0| <= i < |log| && log[i].Launched? && log[i].s == s
  }

  /** All that happened since `log0` happened to this service. */
  predicate OnlySince(log0: seq<Event>, log: seq<Event>, s: Service) {
    log0 <= log && forall i :: |log0| <= i < |log| ==> log[i].s == s
  }

  lemma OnlyTwice(log0: seq<Event>, log1: seq<Event>, log2: seq<Event>, s: Service)
    requires OnlySince(log0, log1, s) && OnlySince(log1, log2, s)
    ensures OnlySince(log0, log2, s)
  {
    assert forall i :: 0 <= i < |log1| ==> log2[i] == log1[i];
  }

  /** All launches since `log0` were made together with the dependencies. */
  predicate AllDeep(log0: seq<Event>, log: seq<Event>) {
    log0 <= log && forall i :: |log0| <= i < |log| && log[i].Launched? ==> log[i].withDeps
  }

  lemma DeepTwice(log0: seq<Event>, log1: seq<Event>, log2: seq<Event>)
    requires AllDeep(log0, log1) && AllDeep(log1, log2)
    ensures AllDeep(log0, log2)
  {
    assert forall i :: 0 <= i < |log1| ==> log2[i] == log1[i];
  }

  lemma DeepOne(log: seq<Event>, e: Event)
    ensures AllDeep(log, log) && (e.Launched? ==> e.withDeps) ==> AllDeep(log, log + [e])
    ensures AllDeep(log, log)
  {
  }

  /** A part of a start adds events of, and launches, services of rank at most `bound`. */
  ghost predicate Extends(rank: Service -> nat, log0: seq<Event>, running0: set<Service>,
                          log: seq<Event>, running: set<Service>, bound: nat)
  {
    && log0 <= log && running0 <= running
    && (forall i :: |log0| <= i < |log| ==> rank(log[i].s) <= bound)
    && (forall s :: s in running && s !in running0 ==> rank(s) <= bound && LaunchedSince(log0, log, s))
  }

  lemma ExtendsTwice(rank: Service -> nat, log0: seq<Event>, running0: set<Service>,
                     log1: seq<Event>, running1: set<Service>,
                     log2: seq<Event>, running2: set<Service>, b1: nat, b2: nat)
    requires Extends(rank, log0, running0, log1, running1, b1) && Extends(rank, log1, running1, log2, running2, b2)
    ensures Extends(rank, log0, running0, log2, running2, if b1 < b2 then b2 else b1)
    ensures running0 <= running2 && log0 <= log2
    ensures forall e :: e in log0 ==> e in log2
    ensures forall s :: WasRefused(log0, s) ==> WasRefused(log2, s)
  {
    assert forall i :: 0 <= i < |log1| ==> log2[i] == log1[i];
    forall s | LaunchedSince(log0, log1, s) ensures LaunchedSince(log0, log2, s) {
      var i :| |log0| <= i < |log1| && log1[i].Launched? && log1[i].s == s;
      assert log2[i] == log1[i];
    }
  }

  lemma ExtendsOne(rank: Service -> nat, log: seq<Event>, running: set<Service>, e: Event)
    ensures Extends(rank, log, running, log + [e], running, rank(e.s))
    ensures Extends(rank, log, running, log, running, rank(e.s))
  {
  }

  /** The stop hook of a service ran first, and its after-stop hook last. */
  predicate StoppedSince(log0: seq<Event>, log: seq<Event>, s: Service) {
    && log0 <= log && |log| >= |log0| + 2
    && log[|log0|] == Ran(s, Stop) && log[|log| - 1] == Ran(s, AfterStop)
  }

  /** Since `log0` only the hooks of a stop ran, of some services. */
  predicate OnlyStops(log0: seq<Event>, log: seq<Event>, names: set<Service>) {
    && log0 <= log
    && forall i :: |log0| <= i < |log| ==>
         log[i].s in names && (log[i] == Ran(log[i].s, Stop) || log[i] == Ran(log[i].s, AfterStop))
  }

  lemma StopsTwice(log0: seq<Event>, log1: seq<Event>, log2: seq<Event>, a: set<Service>, b: set<Service>)
    requires OnlyStops(log0, log1, a) && OnlyStops(log1, log2, b)
    ensures OnlyStops(log0, log2, a + b)
    ensures a <= b ==> OnlyStops(log0, log2, b)
    ensures b <= a ==> OnlyStops(log0, log2, a)
  {
    assert forall i :: 0 <= i < |log1| ==> log2[i] == log1[i];
  }

  lemma StopsGrow(log0: seq<Event>, log: seq<Event>, names: set<Service>)
    requires OnlyStops(log0, log, names)
    ensures log0 <= log
  {
  }

  lemma StopsOne(log: seq<Event>, s: Service, names: set<Service>)
    requires s in names
    ensures OnlyStops(log, log, names)
    ensures OnlyStops(log, log + [Ran(s, Stop)], names) && OnlyStops(log, log + [Ran(s, AfterStop)], names)
  {
  }

  /** What a part of a start added leaves alone services of a higher rank. */
  lemma ExtendsBelow(rank: Service -> nat, log0: seq<Event>, running0: set<Service>,
                     log: seq<Event>, running: set<Service>, bound: nat, s: Service)
    requires Extends(rank, log0, running0, log, running, bound) && rank(s) > bound
    ensures TakenBy(log, s, ForConfigure) == TakenBy(log0, s, ForConfigure)
    ensures TakenBy(log, s, ForStart) == TakenBy(log0, s, ForStart)
    ensures s in running <==> s in running0
  {
    TakenBySame(log0, log, s, ForConfigure);
    TakenBySame(log0, log, s, ForStart);
  }

  /** The markers, the number of hooks run, and the events. */
  datatype Moment = Moment(marks: set<Mark>, n: nat, log: seq<Event>)

  lemma SinceTwice(log0: seq<Event>, log1: seq<Event>, log2: seq<Event>)
    requires log0 <= log1 <= log2
    ensures log0 <= log2
    ensures forall e :: e in log1[|log0|..] || e in log2[|log1|..] ==> e in log2[|log0|..]
  {
    assert log2[|log0|..] == log1[|log0|..] + log2[|log1|..];
  }

  // ---------------------------------------------------------------------------------------
  // The system around the services
  // ---------------------------------------------------------------------------------------

  /** The marker files, and what is decided outside: what the n-th hook does, and whether the
      pid file is usable when the n-th hook runs. `log` records the start in progress. */
  class World {
    const config: Config
    const hooks: nat -> Outcome
    const pidKnown: nat -> bool
    ghost const rank: Service -> nat
    var running: set<Service>
    var marks: set<Mark>
    var hookRuns: nat
    var diskChecks: nat
    ghost var log: seq<Event>

    constructor (c: Config, h: nat -> Outcome, pids: nat -> bool, ghost r: Service -> nat,
                 there: set<Service>, ms: set<Mark>)
      ensures config == c && hooks == h && pidKnown == pids && rank == r
      ensures running == there && marks == ms && log == [] && LogOk()
    {
      config, hooks, pidKnown, rank := c, h, pids, r;
      running, marks, hookRuns, diskChecks, log := there, ms, 0, 0, [];
    }

    /** The markers after the n-th hook. */
    function After(ms: set<Mark>, n: nat): set<Mark> {
      ms - hooks(n).removed + hooks(n).created
    }

    /** No hook and no marker there makes the validation of the service fail. */
    ghost predicate Sound(s: Service, ms: set<Mark>) {
      && (forall n :: Mark(s, ValidationFailure) !in hooks(n).created && Mark(s, Validating) !in hooks(n).created)
      && (Mark(s, ValidationFailure) in ms ==> config.hasValidate(s) && Mark(s, Validating) !in ms)
    }

    /** Every validation of the service fails. */
    ghost predicate Doomed(s: Service, ms: set<Mark>) {
      && config.hasValidate(s) && Mark(s, Validating) !in ms
      && (forall n :: Mark(s, ValidationFailure) in hooks(n).created && Mark(s, Validating) !in hooks(n).created)
    }

    /** There is always room, and all services of a lower rank are sound. */
    ghost predicate AllSound(bound: nat, ms: set<Mark>) {
      (forall n :: config.diskHasRoom(n)) && (forall s :: rank(s) < bound ==> Sound(s, ms))
    }

    /** Who is sound stays sound, and who is doomed stays doomed. */
    ghost predicate FatesKept(ms0: set<Mark>, ms: set<Mark>) {
      forall s :: (Sound(s, ms0) ==> Sound(s, ms)) && (Doomed(s, ms0) ==> Doomed(s, ms))
    }

    lemma FatesTwice(ms0: set<Mark>, ms1: set<Mark>, ms2: set<Mark>)
      requires FatesKept(ms0, ms1) && FatesKept(ms1, ms2)
      ensures FatesKept(ms0, ms2)
    {
    }

    /** The markers of work in progress decide no fate, but for that of a validation. */
    lemma FatesOfHook(ms: set<Mark>, s: Service, m: Marker, n: nat)
      ensures FatesKept(ms, ms)
      ensures m != Validating && m != ValidationFailure ==>
        FatesKept(ms, ms + {Mark(s, m)}) && FatesKept(ms, After(ms + {Mark(s, m)}, n) - {Mark(s, m)})
      ensures FatesKept(ms, After(ms, n))
    {
    }

    lemma FatesOfValidation(ms: set<Mark>, s: Service, n: nat)
      ensures var v := Mark(s, Validating);
              FatesKept(ms, After(ms - {Mark(s, ValidationFailure)} + {v}, n) - {v})
    {
    }

    ghost function Now(): Moment
      reads `marks, `hookRuns, `log
    {
      Moment(marks, hookRuns, log)
    }

    ghost predicate CreatedBetween(m: Mark, n0: nat, n: nat) {
      exists k :: n0 <= k < n && m in hooks(k).created
    }

    /** A service counts as configured only if it did before, a hook run since created the
        marker, or its configuration was asked for. */
    ghost predicate Traced(a: Moment, b: Moment) {
      && a.log <= b.log && a.n <= b.n
      && forall s :: Mark(s, Configured) in b.marks ==> ConfiguredBy(s, a, b)
    }

    ghost predicate ConfiguredBy(s: Service, a: Moment, b: Moment)
      requires a.log <= b.log
    {
      || Mark(s, Configured) in a.marks || CreatedBetween(Mark(s, Configured), a.n, b.n)
      || Asked(s, Configure) in b.log[|a.log|..]
    }

    /** The service was installed, and then configured unless it already was. */
    ghost predicate Prepared(s: Service, a: Moment, b: Moment) {
      a.log <= b.log && Asked(s, Install) in b.log[|a.log|..] && ConfiguredBy(s, a, b)
    }

    lemma AreInstalled(a: Moment, b: Moment)
      ensures forall s :: Prepared(s, a, b) ==> Asked(s, Install) in b.log
    {
      hide ConfiguredBy;
    }

    lemma NothingRan(a: Moment, b: Moment)
      requires a.log <= b.log && a.n == b.n && a.marks == b.marks
      ensures Traced(a, b) && FatesKept(a.marks, b.marks)
    {
    }

    lemma ByTrace(a: Moment, b: Moment, s: Service)
      requires Traced(a, b)
      ensures a.log <= b.log && (Mark(s, Configured) in b.marks ==> ConfiguredBy(s, a, b))
    {
    }

    lemma CreatedTwice(m: Mark, n0: nat, n1: nat, n2: nat)
      requires n0 <= n1 <= n2
      ensures CreatedBetween(m, n0, n1) || CreatedBetween(m, n1, n2) ==> CreatedBetween(m, n0, n2)
    {
    }

    lemma HookTraced(a: Moment, b: Moment)
      requires a.log <= b.log && a.n <= b.n <= a.n + 1
      requires forall s :: Mark(s, Configured) in b.marks ==>
        || Mark(s, Configured) in a.marks || (a.n < b.n && Mark(s, Configured) in hooks(a.n).created)
        || Asked(s, Configure) in b.log[|a.log|..]
      ensures Traced(a, b)
    {
    }

    lemma TracedTwice(a: Moment, b: Moment, c: Moment)
      requires Traced(a, b) && Traced(b, c)
      ensures Traced(a, c)
      ensures forall s :: Prepared(s, a, b) || Prepared(s, b, c) ==> Prepared(s, a, c)
    {
      hide CreatedBetween;
      SinceTwice(a.log, b.log, c.log);
      forall s ensures ConfiguredBy(s, a, b) || ConfiguredBy(s, b, c) ==> ConfiguredBy(s, a, c) {
        CreatedTwice(Mark(s, Configured), a.n, b.n, c.n);
      }
    }

    ghost predicate LogOk()
      reads `log, `running
    {
      Disciplined(config, log) && forall e :: e in log && e.Launched? ==> e.s in running
    }

    ghost method NewLog()
      modifies `log
      ensures LogOk() && log == []
    {
      log := [];
    }

    /** Run the commands of a hook, while its marker of work in progress is there. */
    method RunCommands(ghost e: Event) returns (ok: bool)
      requires e.Ran? ==> AtWork(e.s, e.slot)
      modifies `marks, `hookRuns, `log
      ensures ok == hooks(old(hookRuns)).ok && hookRuns == old(hookRuns) + 1 && log == old(log) + [e]
      ensures marks == After(old(marks), old(hookRuns))
      ensures forall s :: Mark(s, AfterStopping) in marks <==> Mark(s, AfterStopping) in old(marks)
    {
      ok := hooks(hookRuns).ok;
      marks := After(marks, hookRuns);
      hookRuns := hookRuns + 1;
      log := log + [e];
    }

    /** The marker of work in progress that belongs to a slot is there. */
    predicate AtWork(s: Service, slot: Slot)
      reads `marks
    {
      match slot
      case Install => Mark(s, Installing) in marks
      case Configure => Mark(s, Configuring) in marks
      case Validate => Mark(s, Validating) in marks
      case AfterStart => Mark(s, AfterStarting) in marks
      case AfterStop => Mark(s, AfterStopping) in marks
      case Stop => true
    }

    /** Run the commands of a hook other than the start hook. */
    method RunHook(s: Service, ghost slot: Slot) returns (ok: bool)
      requires LogOk() && AtWork(s, slot)
      modifies `marks, `hookRuns, `log
      ensures LogOk() && log == old(log) + [Ran(s, slot)]
      ensures ok == hooks(old(hookRuns)).ok && hookRuns == old(hookRuns) + 1
      ensures marks == After(old(marks), old(hookRuns))
    {
      hide EventOk;
      PlainIsOk(log, Ran(s, slot));
      DisciplinedMore(config, log, Ran(s, slot));
      ok := RunCommands(Ran(s, slot));
    }

    lemma PlainIsOk(before: seq<Event>, e: Event)
      requires e.Asked? || e.Ran?
      ensures EventOk(config, before, e)
    {
    }

    /** Record an event that needs no condition. */
    ghost method RecordPlain(e: Event)
      requires LogOk() && e.Asked?
      modifies `log
      ensures LogOk() && log == old(log) + [e]
    {
      hide EventOk;
      PlainIsOk(log, e);
      Record(e);
    }

    method CheckDisk() returns (ok: bool)
      modifies `diskChecks
      ensures ok == config.diskHasRoom(old(diskChecks)) && diskChecks == old(diskChecks) + 1
    {
      ok := config.diskHasRoom(diskChecks);
      diskChecks := diskChecks + 1;
    }

    /** Record an event that changes no running marker. */
    ghost method Record(e: Event)
      requires LogOk() && EventOk(config, log, e) && !e.Launched?
      modifies `log
      ensures LogOk() && log == old(log) + [e]
    {
      hide EventOk;
      DisciplinedMore(config, log, e);
      log := log + [e];
    }
  }

  class SvdService {
    const name: Service
    const world: World
    var dependencyServices: seq<SvdService>
    ghost var names: set<Service>
    ghost var Repr: set<object>

    /** The services started for this one form a tree; `names` are those in it. */
    ghost predicate Tree()
      reads this, Repr
      decreases Repr
    {
      && this in Repr && world !in Repr
      && (forall d <- dependencyServices ::
            d in Repr && d.Repr < Repr && this !in d.Repr && d.world == world && d.Tree())
      && names == {name} + NamesOf(dependencyServices)
    }

    /** No service occurs twice in the tree. */
    ghost predicate OnceEach()
      requires Tree()
      reads this, Repr
      decreases Repr
    {
      Apart({name}, dependencyServices) && forall d <- dependencyServices :: d.OnceEach()
    }

    constructor (n: Service, w: World)
      ensures Tree() && OnceEach() && fresh(Repr) && name == n && world == w
      ensures dependencyServices == [] && names == {n}
    {
      name, world := n, w;
      dependencyServices := [];
      names := {n};
      Repr := {this};
    }

    // -------------------------------------------------------------------------------------
    // Hooks that change no running marker
    // -------------------------------------------------------------------------------------

    function Marked(m: Marker): bool
      reads world`marks
    {
      Mark(name, m) in world.marks
    }

    method Touch(m: Marker)
      modifies world`marks
      ensures world.marks == old(world.marks) + {Mark(name, m)}
    {
      world.marks := world.marks + {Mark(name, m)};
    }

    method Remove(m: Marker)
      modifies world`marks
      ensures world.marks == old(world.marks) - {Mark(name, m)}
    {
      world.marks := world.marks - {Mark(name, m)};
    }

    /** The markers after the next hook ran while a marker of the service was there. */
    ghost function InProgress(ms: set<Mark>, m: Marker): set<Mark>
      reads world`hookRuns
    {
      world.After(ms + {Mark(name, m)}, world.hookRuns) - {Mark(name, m)}
    }

    /** `installSlot`: not again for an installed service. */
    method InstallSlot()
      requires world.LogOk()
      modifies world`marks, world`hookRuns, world`log
      ensures world.LogOk()
      ensures var done := old(Marked(Installed));
              && world.marks == (if done then old(world.marks) else old(InProgress(world.marks, Installing)))
              && world.hookRuns == old(world.hookRuns) + (if done then 0 else 1)
              && world.log == old(world.log) + [Asked(name, Install)] + if done then [] else [Ran(name, Install)]
      ensures world.FatesKept(old(world.marks), world.marks) && world.Traced(old(world.Now()), world.Now())
    {
      hide World.LogOk, World.FatesKept, World.Traced;
      world.FatesOfHook(world.marks, name, Installing, world.hookRuns);
      ghost var a := world.Now();
      world.RecordPlain(Asked(name, Install));
      if Marked(Installed) {
        world.HookTraced(a, world.Now());
        return;
      }
      Touch(Installing);
      var ok := world.RunHook(name, Install);
      Remove(Installing);
      world.HookTraced(a, world.Now());
    }

    /** `configureSlot`: only once, and marked only when its output was as expected. */
    method ConfigureSlot()
      requires world.LogOk()
      modifies world`marks, world`hookRuns, world`log
      ensures world.LogOk()
      ensures var busy := old(Marked(Configuring) || Marked(Configured));
              && (busy ==> world.marks == old(world.marks))
              && (!busy ==>
                    world.marks == old(InProgress(world.marks, Configuring))
                                   + if world.hooks(old(world.hookRuns)).ok then {Mark(name, Configured)} else {})
              && world.hookRuns == old(world.hookRuns) + (if busy then 0 else 1)
              && world.log == old(world.log) + [Asked(name, Configure)] + if busy then [] else [Ran(name, Configure)]
      ensures world.FatesKept(old(world.marks), world.marks) && world.Traced(old(world.Now()), world.Now())
    {
      hide World.LogOk, World.FatesKept, World.Traced;
      ghost var ms, n, a := world.marks, world.hookRuns, world.Now();
      world.FatesOfHook(ms, name, Configuring, n);
      world.FatesOfHook(InProgress(ms, Configuring), name, Configured, n);
      world.RecordPlain(Asked(name, Configure));
      if Marked(Configuring) || Marked(Configured) {
        world.HookTraced(a, world.Now());
        return;
      }
      Touch(Configuring);
      var ok := world.RunHook(name, Configure);
      Remove(Configuring);
      if ok {
        world.FatesTwice(ms, world.marks, world.marks + {Mark(name, Configured)});
        Touch(Configured);
      }
      assert Asked(name, Configure) == world.log[|a.log|];
      world.HookTraced(a, world.Now());
    }

    /** `validateSlot`: an old failure is cleared, unless there is no hook, or one is at work. */
    method ValidateSlot()
      requires world.LogOk()
      modifies world`marks, world`hookRuns, world`log
      ensures world.LogOk()
      ensures var skip := !world.config.hasValidate(name) || old(Marked(Validating));
              && (skip ==> world.marks == old(world.marks))
              && (!skip ==> world.marks == old(InProgress(world.marks - {Mark(name, ValidationFailure)}, Validating)))
              && (!skip ==> (Marked(ValidationFailure) <==>
                             Mark(name, ValidationFailure) in world.hooks(old(world.hookRuns)).created))
              && world.log == old(world.log) + [Asked(name, Validate)] + if skip then [] else [Ran(name, Validate)]
      ensures world.FatesKept(old(world.marks), world.marks)
      ensures world.Sound(name, old(world.marks)) ==> !Marked(ValidationFailure)
      ensures world.Doomed(name, old(world.marks)) ==> Marked(ValidationFailure)
      ensures OnlySince(old(world.log), world.log, name)
    {
      hide World.LogOk, World.FatesKept;
      world.FatesOfValidation(world.marks, name, world.hookRuns);
      world.FatesOfHook(world.marks, name, Installing, world.hookRuns);
      world.RecordPlain(Asked(name, Validate));
      if !world.config.hasValidate(name) || Marked(Validating) {
        return;
      }
      Remove(ValidationFailure);
      Touch(Validating);
      var ok := world.RunHook(name, Validate);
      Remove(Validating);
    }

    // -------------------------------------------------------------------------------------
    // Starting
    // -------------------------------------------------------------------------------------

    /** Keep the object of a started dependency. */
    method Adopt(d: SvdService)
      requires Tree() && d.Tree() && d.world == world && d.Repr !! Repr
      modifies this
      ensures Tree() && d.Tree() && Repr == old(Repr) + d.Repr && names == old(names) + d.names
      ensures dependencyServices == old(dependencyServices) + [d]
      ensures old(OnceEach()) && old(d.OnceEach()) && old(d.names !! names) ==> OnceEach()
    {
      ghost var kept := dependencyServices;
      Snoc(kept, d);
      dependencyServices := dependencyServices + [d];
      names := names + d.names;
      Repr := Repr + d.Repr;
      Snoc(kept, d);
      assert forall x <- dependencyServices :: x in kept || x == d;
    }

    /** `afterStartSlot`: not while another one is at work. */
    method AfterStartSlot()
      requires world.LogOk()
      modifies world`marks, world`hookRuns, world`running, world`log
      ensures world.LogOk()
      ensures world.running == old(world.running) + if old(Marked(AfterStarting)) then {} else {name}
      ensures world.marks == if old(Marked(AfterStarting)) then old(world.marks)
                             else old(InProgress(world.marks, AfterStarting))
      ensures world.log == old(world.log) + [Asked(name, AfterStart)]
                           + if old(Marked(AfterStarting)) then [] else [Ran(name, AfterStart)]
      ensures world.FatesKept(old(world.marks), world.marks)
    {
      hide EventOk, Disciplined, World.FatesKept;
      world.FatesOfHook(world.marks, name, AfterStarting, world.hookRuns);
      world.RecordPlain(Asked(name, AfterStart));
      if Marked(AfterStarting) {
        return;
      }
      Touch(AfterStarting);
      var ok := world.RunHook(name, AfterStart);
      Remove(AfterStarting);
      world.running := world.running + {name};
    }

    /** Every dependency was seen to: installed, and it runs or its start was refused. */
    ghost predicate DepsDone()
      reads world`log, world`running
    {
      forall d :: d in world.config.deps(name) ==>
        Asked(d, Install) in world.log && (d in world.running || WasRefused(world.log, d))
    }

    /** The start commands, after which the service counts as running, whatever they did. */
    method Launch(withDeps: bool)
      requires world.LogOk() && name !in world.running && !Marked(ValidationFailure)
      requires Asked(name, Install) in world.log && JustValidated(world.config, world.log, name, world.marks)
      requires withDeps ==> DepsDone()
      requires withDeps && world.config.deps(name) != [] ==> AllTaken(world.config, world.log, name)
      modifies world`running, world`marks, world`hookRuns, world`log
      ensures world.LogOk() && world.running == old(world.running) + {name}
      ensures old(world.log) + [Launched(name, withDeps, old(world.running), old(world.marks)), Asked(name, AfterStart)]
           <= world.log
      ensures Refusals(world.log) == Refusals(old(world.log)) && world.FatesKept(old(world.marks), world.marks)
      ensures Extends(world.rank, old(world.log), old(world.running), world.log, world.running, world.rank(name))
      ensures (withDeps ==> AllDeep(old(world.log), world.log)) && OnlySince(old(world.log), world.log, name)
    {
      hide TakenBy, AllTaken, JustValidated, SvdService.DepsDone, World.LogOk, World.FatesKept, Extends, Refusals;
      hide AllDeep;
      ghost var log0, running0, rank, ms := world.log, world.running, world.rank, world.marks;
      RunStart(withDeps);
      ghost var log1, ms1 := world.log, world.marks;
      AfterStartSlot();
      assert world.running == running0 + {name};
      world.FatesTwice(ms, ms1, world.marks);
      PlainKeeps(rank, log1, world.log, world.running, rank(name));
      ExtendsTwice(rank, log0, running0, log1, world.running, world.log, world.running, rank(name), rank(name));
      if withDeps {
        DeepTwice(log0, log1, world.log);
      }
    }

    /** The part up to the running marker. */
    method RunStart(withDeps: bool)
      requires world.LogOk() && name !in world.running && !Marked(ValidationFailure)
      requires Asked(name, Install) in world.log && JustValidated(world.config, world.log, name, world.marks)
      requires withDeps ==> DepsDone()
      requires withDeps && world.config.deps(name) != [] ==> AllTaken(world.config, world.log, name)
      modifies world`running, world`marks, world`hookRuns, world`log
      ensures world.LogOk() && world.running == old(world.running) + {name}
      ensures world.log == old(world.log) + [Launched(name, withDeps, old(world.running), old(world.marks))]
      ensures Refusals(world.log) == Refusals(old(world.log)) && world.FatesKept(old(world.marks), world.marks)
      ensures Extends(world.rank, old(world.log), old(world.running), world.log, world.running, world.rank(name))
      ensures withDeps ==> AllDeep(old(world.log), world.log)
    {
      hide EventOk, Disciplined, Refusals, TakenBy, AllTaken, JustValidated, WasRefused, World.FatesKept, Extends;
      hide AllDeep;
      ghost var e := Launched(name, withDeps, world.running, world.marks);
      LaunchIsOk(e);
      DisciplinedMore(world.config, world.log, e);
      OneMore(world.log, e);
      LaunchExtends(world.rank, world.log, world.running, e);
      DeepOne(world.log, e);
      world.FatesOfHook(world.marks, name, AfterStarting, world.hookRuns);
      var ok := world.RunCommands(e);
      world.running := world.running + {name};
    }

    lemma LaunchExtends(rank: Service -> nat, log: seq<Event>, running: set<Service>, e: Event)
      requires e.Launched?
      ensures Extends(rank, log, running, log + [e], running + {e.s}, rank(e.s))
    {
      assert (log + [e])[|log|] == e;
    }

    lemma LaunchIsOk(e: Event)
      requires world.LogOk() && e.Launched? && e.running == world.running && e.s == name && e.s !in e.running
      requires Asked(e.s, Install) in world.log && JustValidated(world.config, world.log, e.s, e.marks)
      requires Mark(e.s, ValidationFailure) !in e.marks
      requires e.withDeps ==> DepsDone()
      requires e.withDeps && world.config.deps(e.s) != [] ==> AllTaken(world.config, world.log, e.s)
      ensures EventOk(world.config, world.log, e)
    {
      hide AllTaken, JustValidated, Disciplined, WasRefused;
    }

    /** Install the service, and then configure it if it is not configured. */
    method PrepareSelf()
      requires world.LogOk()
      modifies world`marks, world`hookRuns, world`log
      ensures world.LogOk() && PlainSince(world.rank, old(world.log), world.log, world.rank(name))
      ensures OnlySince(old(world.log), world.log, name) && old(world.log) + [Asked(name, Install)] <= world.log
      ensures Asked(name, Install) in world.log && world.FatesKept(old(world.marks), world.marks)
      ensures world.Traced(old(world.Now()), world.Now()) && world.Prepared(name, old(world.Now()), world.Now())
    {
      hide World.LogOk, World.FatesKept, World.CreatedBetween, World.Traced, SvdService.InProgress;
      ghost var a := world.Now();
      InstallSlot();
      ghost var b := world.Now();
      assert b.log[|a.log|] == Asked(name, Install);
      world.ByTrace(a, b, name);
      if !Marked(Configured) {
        ConfigureSlot();
        ghost var c := world.Now();
        assert c.log[|b.log|] == Asked(name, Configure);
        world.FatesTwice(a.marks, b.marks, c.marks);
        world.TracedTwice(a, b, c);
        SinceTwice(a.log, b.log, c.log);
      }
    }

    /** Install and configure the dependencies in the order for that, with an object for each. */
    method ConfigureDependencies()
      requires world.LogOk() && Acyclic(world.config, world.rank) && Asked(name, Install) in world.log
      modifies world`marks, world`hookRuns, world`log
      ensures world.LogOk() && Refusals(world.log) == Refusals(old(world.log))
      ensures Extends(world.rank, old(world.log), world.running, world.log, world.running, world.rank(name))
      ensures multiset(TakenBy(world.log, name, ForConfigure)) == multiset(world.config.deps(name))
      ensures forall d :: d in world.config.deps(name) ==> world.Prepared(d, old(world.Now()), world.Now())
      ensures world.FatesKept(old(world.marks), world.marks) && AllDeep(old(world.log), world.log)
    {
      hide World.LogOk, EventOk, Sort, Extends, Refusals, TakenBy, Acyclic, SortedBy;
      hide World.FatesKept, World.Traced, World.Prepared, AllDeep;
      ghost var log0, running, rank := world.log, world.running, world.rank;
      ghost var a := world.Now();
      var sorted := Sort(world.config.deps(name), world.config.configureOrder);
      SortSorts(world.config.deps(name), world.config.configureOrder);
      StartTaking(ForConfigure);
      world.NothingRan(a, world.Now());
      for k := 0 to |sorted|
        invariant world.LogOk() && Refusals(world.log) == Refusals(log0)
        invariant Extends(rank, log0, running, world.log, running, rank(name))
        invariant TakenBy(world.log, name, ForConfigure) == sorted[..k]
        invariant world.FatesKept(a.marks, world.marks) && world.Traced(a, world.Now()) && AllDeep(log0, world.log)
        invariant forall j :: 0 <= j < k ==> world.Prepared(sorted[j], a, world.Now())
      {
        NextInOrder(sorted, world.config.configureOrder, k);
        ghost var log1, b := world.log, world.Now();
        ConfigureDependency(sorted[k]);
        world.FatesTwice(a.marks, b.marks, world.marks);
        world.TracedTwice(a, b, world.Now());
        DeepTwice(log0, log1, world.log);
        ExtendsTwice(rank, log0, running, log1, running, world.log, running, rank(name), rank(name));
      }
      assert sorted[..|sorted|] == sorted;
    }

    method ConfigureDependency(d: Service)
      requires world.LogOk() && Acyclic(world.config, world.rank) && d in world.config.deps(name)
      requires forall x :: x in TakenBy(world.log, name, ForConfigure) ==>
        Order(world.config, ForConfigure, x) <= Order(world.config, ForConfigure, d)
      modifies world`marks, world`hookRuns, world`log
      ensures world.LogOk() && Refusals(world.log) == Refusals(old(world.log))
      ensures Extends(world.rank, old(world.log), world.running, world.log, world.running, world.rank(name))
      ensures TakenBy(world.log, name, ForConfigure) == TakenBy(old(world.log), name, ForConfigure) + [d]
      ensures world.Traced(old(world.Now()), world.Now()) && world.Prepared(d, old(world.Now()), world.Now())
      ensures world.FatesKept(old(world.marks), world.marks) && AllDeep(old(world.log), world.log)
    {
      hide World.LogOk, Extends, Refusals, TakenBy, PlainSince, World.FatesKept, World.Traced, World.Prepared;
      hide AllDeep;
      ghost var log0, running, rank, a := world.log, world.running, world.rank, world.Now();
      StartOne(d, ForConfigure);
      ghost var log1, b := world.log, world.Now();
      world.NothingRan(a, b);
      var depService := new SvdService(d, world);
      depService.PrepareSelf();
      world.FatesTwice(a.marks, b.marks, world.marks);
      world.TracedTwice(a, b, world.Now());
      PlainKeeps(rank, log1, world.log, running, rank(d));
      DeepTwice(log0, log1, world.log);
      ExtendsTwice(rank, log0, running, log1, running, world.log, running, rank(name), rank(d));
    }

    ghost method Refuse(cause: Cause)
      requires world.LogOk() && EventOk(world.config, world.log, Refused(name, cause))
      modifies world`log
      ensures world.LogOk() && world.log == old(world.log) + [Refused(name, cause)]
      ensures Refusals(world.log) == Refusals(old(world.log)) + 1 && WasRefused(world.log, name)
      ensures OnlySince(old(world.log), world.log, name)
    {
      hide EventOk;
      OneMore(world.log, Refused(name, cause));
      world.Record(Refused(name, cause));
      assert Refused(name, cause) in world.log;
    }

    /** The start ended with a failed validation. */
    ghost predicate GaveUp()
      reads world`log, world`marks
    {
      && world.log != [] && world.log[|world.log| - 1] == Refused(name, Failed(world.marks))
      && Marked(ValidationFailure)
    }

    ghost method RefuseRoom(n: nat)
      requires world.LogOk() && !world.config.diskHasRoom(n)
      modifies world`log
      ensures world.LogOk() && world.log == old(world.log) + [Refused(name, NoRoom(n))]
      ensures Refusals(world.log) == Refusals(old(world.log)) + 1 && WasRefused(world.log, name)
      ensures OnlySince(old(world.log), world.log, name) && AllDeep(old(world.log), world.log)
      ensures Extends(world.rank, old(world.log), world.running, world.log, world.running, world.rank(name))
    {
      hide EventOk, Refusals, WasRefused, OnlySince, AllDeep, Extends, World.LogOk;
      ExtendsOne(world.rank, world.log, world.running, Refused(name, NoRoom(n)));
      NoRoomIsOk(world.log, n);
      DeepOne(world.log, Refused(name, NoRoom(n)));
      Refuse(NoRoom(n));
    }

    /** `startSlot`. Without room, or for a service that runs, nothing is done. Without
        dependencies nothing happens to any other service. Otherwise the
        service runs in the end, unless its validation failed; that does not happen if it and
        all services of a lower rank are sound. If no start is refused, the tree holds exactly
        the services launched. */
    method StartSlot(withDeps: bool)
      requires world.LogOk() && Tree() && Acyclic(world.config, world.rank)
      modifies world`running, world`marks, world`hookRuns, world`diskChecks, world`log, this
      ensures Tree() && fresh(Repr - old(Repr)) && world.LogOk()
      ensures Extends(world.rank, old(world.log), old(world.running), world.log, world.running, world.rank(name))
      ensures !world.config.diskHasRoom(old(world.diskChecks)) ==>
        && world.running == old(world.running) && world.marks == old(world.marks)
        && world.log == old(world.log) + [Refused(name, NoRoom(old(world.diskChecks)))]
      ensures world.config.diskHasRoom(old(world.diskChecks)) && name in old(world.running) ==>
        world.running == old(world.running) && world.marks == old(world.marks) && world.log == old(world.log)
      ensures world.config.diskHasRoom(old(world.diskChecks)) ==> name in world.running || GaveUp()
      ensures name in world.running || WasRefused(world.log, name)
      ensures withDeps ==> AllDeep(old(world.log), world.log)
      ensures Refusals(world.log) >= Refusals(old(world.log)) && world.FatesKept(old(world.marks), world.marks)
      ensures world.AllSound(world.rank(name) + 1, old(world.marks)) ==>
        name in world.running && Refusals(world.log) == Refusals(old(world.log))
      ensures world.AllSound(world.rank(name), old(world.marks)) && name !in old(world.running) ==>
        && Refusals(world.log) == Refusals(old(world.log)) + (if name in world.running then 0 else 1)
        && (withDeps ==> forall d :: d in world.config.deps(name) ==> d in world.running)
      ensures world.Doomed(name, old(world.marks)) && name !in old(world.running) ==> name !in world.running
      ensures !withDeps || (forall d :: d in world.config.deps(name) ==> d in old(world.running)) ==>
        world.running <= old(world.running) + {name}
      ensures !withDeps ==>
        dependencyServices == old(dependencyServices) && OnlySince(old(world.log), world.log, name)
      ensures old(dependencyServices) == [] && name !in old(world.running)
              && Refusals(world.log) == Refusals(old(world.log)) ==>
        OnceEach() && world.running == old(world.running) + names && names !! old(world.running)
      decreases world.rank(name), 2
    {
      hide SvdService.Tree, SvdService.OnceEach, World.LogOk, EventOk, Extends, Refusals, TakenBy, Acyclic;
      hide World.FatesKept, World.AllSound, World.Sound, World.Doomed, WasRefused, SvdService.DepsDone, AllTaken;
      hide AllDeep, OnlySince;
      OwnName();
      OnlyOwn(world.log, NoRoom(world.diskChecks));
      ghost var log0, running0, ms0 := world.log, world.running, world.marks;
      SoundRoom(world.rank(name), ms0);
      world.FatesOfHook(ms0, name, Installing, 0);
      var enough := world.CheckDisk();
      if !enough {
        RefuseRoom(old(world.diskChecks));
        return;
      }
      ExtendsOne(world.rank, world.log, world.running, Asked(name, Install));
      DeepOne(world.log, Asked(name, Install));
      if name in world.running {
        return;
      }
      StartDependencies(withDeps);
      OwnName();
      ghost var log1, running1, ms1 := world.log, world.running, world.marks;
      FateOf(ms0, ms1);
      ValidateAndLaunch(withDeps);
      WholeStart(withDeps, Moment(ms0, 0, log0), running0, Moment(ms1, 0, log1), running1,
                 Moment(world.marks, 0, world.log));
    }

    /** The two parts of a start, one after the other. */
    lemma WholeStart(withDeps: bool, a: Moment, running0: set<Service>, b: Moment, running1: set<Service>, c: Moment)
      requires Extends(world.rank, a.log, running0, b.log, running1, world.rank(name))
      requires Extends(world.rank, b.log, running1, c.log, world.running, world.rank(name))
      requires AllDeep(a.log, b.log) && (withDeps ==> AllDeep(b.log, c.log))
      requires !withDeps ==> OnlySince(a.log, b.log, name) && OnlySince(b.log, c.log, name)
      requires world.FatesKept(a.marks, b.marks) && world.FatesKept(b.marks, c.marks)
      ensures Extends(world.rank, a.log, running0, c.log, world.running, world.rank(name))
      ensures if withDeps then AllDeep(a.log, c.log) else OnlySince(a.log, c.log, name)
      ensures world.FatesKept(a.marks, c.marks)
    {
      hide Extends, AllDeep, OnlySince, World.FatesKept;
      if withDeps {
        DeepTwice(a.log, b.log, c.log);
      } else {
        OnlyTwice(a.log, b.log, c.log, name);
      }
      world.FatesTwice(a.marks, b.marks, c.marks);
      ExtendsTwice(world.rank, a.log, running0, b.log, running1, c.log, world.running,
                   world.rank(name), world.rank(name));
    }

    lemma OnlyOwn(log: seq<Event>, cause: Cause)
      ensures OnlySince(log, log, name) && OnlySince(log, log + [Refused(name, cause)], name)
    {
    }

    lemma NoRoomIsOk(log: seq<Event>, n: nat)
      requires !world.config.diskHasRoom(n)
      ensures EventOk(world.config, log, Refused(name, NoRoom(n)))
    {
    }

    lemma SoundRoom(bound: nat, ms: set<Mark>)
      ensures world.AllSound(bound, ms) ==> forall n :: world.config.diskHasRoom(n)
      ensures world.AllSound(bound + 1, ms) ==> world.AllSound(bound, ms)
    {
    }

    lemma FateOf(ms0: set<Mark>, ms1: set<Mark>)
      requires world.FatesKept(ms0, ms1)
      ensures world.AllSound(world.rank(name) + 1, ms0) ==> world.Sound(name, ms1)
      ensures world.Doomed(name, ms0) ==> world.Doomed(name, ms1)
    {
    }

    /** The end of a start: validation, which may refuse it, and the launch. */
    method ValidateAndLaunch(withDeps: bool)
      requires world.LogOk() && name !in world.running && Asked(name, Install) in world.log
      requires withDeps ==> DepsDone()
      requires withDeps && world.config.deps(name) != [] ==> AllTaken(world.config, world.log, name)
      modifies world`running, world`marks, world`hookRuns, world`log
      ensures world.LogOk() && world.FatesKept(old(world.marks), world.marks)
      ensures Extends(world.rank, old(world.log), old(world.running), world.log, world.running, world.rank(name))
      ensures name !in world.running ==> GaveUp() && WasRefused(world.log, name)
      ensures world.running == old(world.running) + if name in world.running then {name} else {}
      ensures Refusals(world.log) == Refusals(old(world.log)) + if name in world.running then 0 else 1
      ensures world.Sound(name, old(world.marks)) ==> name in world.running
      ensures world.Doomed(name, old(world.marks)) ==> name !in world.running
      ensures (withDeps ==> AllDeep(old(world.log), world.log)) && OnlySince(old(world.log), world.log, name)
    {
      hide AllDeep, World.LogOk, Extends, Refusals, TakenBy, World.FatesKept, World.Sound, World.Doomed, WasRefused;
      hide AllTaken, EventOk, OnlySince;
      ghost var log0, running0, rank, ms0 := world.log, world.running, world.rank, world.marks;
      ValidateSlot();
      ghost var log1, ms1 := world.log, world.marks;
      PlainKeeps(rank, log0, log1, running0, rank(name));
      StillTaken(log0, log1);
      if Marked(ValidationFailure) {
        ExtendsOne(rank, log1, running0, Refused(name, Failed(ms1)));
        FailedIsOk(log1, ms1);
        DeepOne(log1, Refused(name, Failed(ms1)));
        Refuse(Failed(ms1));
      } else {
        Launch(withDeps);
        world.FatesTwice(ms0, ms1, world.marks);
      }
      ExtendsTwice(rank, log0, running0, log1, running0, world.log, world.running, rank(name), rank(name));
      OnlyTwice(log0, log1, world.log, name);
      if withDeps {
        DeepTwice(log0, log1, world.log);
      }
    }

    lemma FailedIsOk(log: seq<Event>, ms: set<Mark>)
      requires JustValidated(world.config, log, name, ms) && Mark(name, ValidationFailure) in ms
      ensures EventOk(world.config, log, Refused(name, Failed(ms)))
    {
    }

    lemma StillTaken(log0: seq<Event>, log: seq<Event>)
      requires forall s, p :: TakenBy(log, s, p) == TakenBy(log0, s, p)
      ensures AllTaken(world.config, log0, name) ==> AllTaken(world.config, log, name)
    {
    }

    /** The first part of a start: the service is installed and configured, so are its
        dependencies, and then they are started. */
    method StartDependencies(withDeps: bool)
      requires world.LogOk() && Tree() && Acyclic(world.config, world.rank) && name !in world.running
      modifies world`running, world`marks, world`hookRuns, world`diskChecks, world`log, this
      ensures Tree() && fresh(Repr - old(Repr)) && world.LogOk() && name !in world.running
      ensures Extends(world.rank, old(world.log), old(world.running), world.log, world.running, world.rank(name))
      ensures Asked(name, Install) in world.log && AllDeep(old(world.log), world.log)
      ensures withDeps ==> DepsDone()
      ensures withDeps && world.config.deps(name) != [] ==> AllTaken(world.config, world.log, name)
      ensures Refusals(world.log) >= Refusals(old(world.log)) && world.FatesKept(old(world.marks), world.marks)
      ensures world.AllSound(world.rank(name), old(world.marks)) ==>
        && Refusals(world.log) == Refusals(old(world.log))
        && (withDeps ==> forall d :: d in world.config.deps(name) ==> d in world.running)
      ensures !withDeps || (forall d :: d in world.config.deps(name) ==> d in old(world.running)) ==>
        world.running == old(world.running)
      ensures !withDeps ==>
        dependencyServices == old(dependencyServices) && OnlySince(old(world.log), world.log, name)
      ensures old(dependencyServices) == [] && Refusals(world.log) == Refusals(old(world.log)) ==>
        TreeIsNew(old(world.running))
      decreases world.rank(name), 1, 1
    {
      hide SvdService.Tree, SvdService.OnceEach, World.LogOk, EventOk, Extends, Refusals, TakenBy, Acyclic, PlainSince;
      hide World.FatesKept, World.AllSound, WasRefused, World.Traced, World.ConfiguredBy, AllDeep, OnlySince;
      OwnName();
      ghost var log0, running0, rank, ms0 := world.log, world.running, world.rank, world.marks;
      if dependencyServices == [] {
        Leaf();
      }
      PrepareAll(withDeps);
      if !withDeps || world.config.deps(name) == [] {
        return;
      }
      ghost var log1, ms1 := world.log, world.marks;
      KeptSound(rank(name), ms0, ms1);
      LaunchDependencies();
      DeepTwice(log0, log1, world.log);
      world.FatesTwice(ms0, ms1, world.marks);
      ExtendsTwice(rank, log1, running0, world.log, world.running, world.log, world.running, rank(name), rank(name));
      ExtendsTwice(rank, log0, running0, log1, running0, world.log, world.running, rank(name), rank(name));
    }

    /** Install and configure the service, and its dependencies if they are to be started. */
    method PrepareAll(withDeps: bool)
      requires world.LogOk() && Acyclic(world.config, world.rank)
      modifies world`marks, world`hookRuns, world`log
      ensures world.LogOk() && Refusals(world.log) == Refusals(old(world.log)) && Asked(name, Install) in world.log
      ensures Extends(world.rank, old(world.log), world.running, world.log, world.running, world.rank(name))
      ensures world.FatesKept(old(world.marks), world.marks) && AllDeep(old(world.log), world.log)
      ensures withDeps && world.config.deps(name) != [] ==>
        multiset(TakenBy(world.log, name, ForConfigure)) == multiset(world.config.deps(name))
      ensures withDeps ==> forall d :: d in world.config.deps(name) ==> Asked(d, Install) in world.log
      ensures !withDeps ==> OnlySince(old(world.log), world.log, name)
    {
      hide World.LogOk, EventOk, Extends, Refusals, TakenBy, Acyclic, PlainSince, World.FatesKept, World.Traced;
      hide World.Prepared, AllDeep, OnlySince;
      ghost var log0, running, rank, a := world.log, world.running, world.rank, world.Now();
      PrepareSelf();
      PlainKeeps(rank, log0, world.log, running, rank(name));
      if !withDeps || world.config.deps(name) == [] {
        return;
      }
      ghost var log1, b := world.log, world.Now();
      ConfigureDependencies();
      DeepTwice(log0, log1, world.log);
      ExtendsTwice(rank, log0, running, log1, running, world.log, running, rank(name), rank(name));
      ExtendsTwice(rank, log1, running, world.log, running, world.log, running, rank(name), rank(name));
      world.FatesTwice(a.marks, b.marks, world.marks);
      world.AreInstalled(b, world.Now());
    }

    lemma KeptSound(bound: nat, ms0: set<Mark>, ms: set<Mark>)
      requires world.FatesKept(ms0, ms)
      ensures forall k: nat :: k <= bound && world.AllSound(bound, ms0) ==> world.AllSound(k, ms)
    {
    }

    lemma Leaf()
      requires Tree() && dependencyServices == []
      ensures OnceEach() && names == {name}
      ensures name !in world.running ==> TreeIsNew(world.running)
    {
    }

    lemma OwnName()
      requires Tree()
      ensures name in names && this in Repr && world !in Repr
    {
    }

    /** The services launched since `running0` are those in the tree, other than this one. */
    ghost predicate TreeIsNew(running0: set<Service>)
      requires Tree()
      reads this, Repr, world`running
    {
      OnceEach() && world.running == running0 + (names - {name}) && names !! running0
    }

    /** Start the dependencies that do not run, in the start order. */
    method LaunchDependencies()
      requires world.LogOk() && Tree() && Acyclic(world.config, world.rank) && name !in world.running
      requires Asked(name, Install) in world.log
      requires multiset(TakenBy(world.log, name, ForConfigure)) == multiset(world.config.deps(name))
      modifies world`running, world`marks, world`hookRuns, world`diskChecks, world`log, this
      ensures Tree() && fresh(Repr - old(Repr)) && world.LogOk() && name !in world.running
      ensures Extends(world.rank, old(world.log), old(world.running), world.log, world.running, world.rank(name))
      ensures forall d :: d in world.config.deps(name) ==> d in world.running || WasRefused(world.log, d)
      ensures AllDeep(old(world.log), world.log)
      ensures TakenBy(world.log, name, ForConfigure) == TakenBy(old(world.log), name, ForConfigure)
      ensures multiset(TakenBy(world.log, name, ForStart)) == multiset(world.config.deps(name))
      ensures Refusals(world.log) >= Refusals(old(world.log)) && world.FatesKept(old(world.marks), world.marks)
      ensures world.AllSound(world.rank(name), old(world.marks)) ==>
        && Refusals(world.log) == Refusals(old(world.log))
        && forall d :: d in world.config.deps(name) ==> d in world.running
      ensures (forall d :: d in world.config.deps(name) ==> d in old(world.running)) ==>
        world.running == old(world.running)
      ensures old(dependencyServices) == [] && Refusals(world.log) == Refusals(old(world.log)) ==>
        TreeIsNew(old(world.running))
      decreases world.rank(name), 1, 0
    {
      hide SvdService.Tree, SvdService.OnceEach, World.LogOk, EventOk, Sort, SortedBy, Extends, Refusals, TakenBy;
      hide Acyclic, WasRefused, World.FatesKept, World.AllSound, AllDeep, SvdService.TreeIsNew;
      OwnName();
      if dependencyServices == [] {
        Leaf();
      }
      ghost var a, running0, none := world.Now(), world.running, dependencyServices == [];
      assert world.running - {name} == world.running;
      world.running := world.running - {name};
      var sorted := Sort(world.config.deps(name), world.config.startOrder);
      SortSorts(world.config.deps(name), world.config.startOrder);
      StartTaking(ForStart);
      world.NothingRan(a, world.Now());
      for k := 0 to |sorted|
        invariant Tree() && fresh(Repr - old(Repr)) && world.LogOk() && name !in world.running
        invariant Going(sorted[..k], a, running0, none)
      {
        NextInOrder(sorted, world.config.startOrder, k);
        TakeNext(sorted[..k], sorted[k], a, running0, none);
      }
      assert sorted[..|sorted|] == sorted;
    }

    /** The dependencies in `seen` were taken since `a`, when `running0` were running and the
        service had no objects of dependencies if `none`. */
    ghost predicate Going(seen: seq<Service>, a: Moment, running0: set<Service>, none: bool)
      requires Tree()
      reads world`log, world`running, world`marks, this, Repr
    {
      && Extends(world.rank, a.log, running0, world.log, world.running, world.rank(name))
      && TakenBy(world.log, name, ForStart) == seen
      && TakenBy(world.log, name, ForConfigure) == TakenBy(a.log, name, ForConfigure)
      && (forall d :: d in seen ==> d in world.running || WasRefused(world.log, d))
      && Refusals(world.log) >= Refusals(a.log) && world.FatesKept(a.marks, world.marks)
      && AllDeep(a.log, world.log)
      && (world.AllSound(world.rank(name), a.marks) ==>
            Refusals(world.log) == Refusals(a.log) && forall d :: d in seen ==> d in world.running)
      && ((forall d :: d in world.config.deps(name) ==> d in running0) ==> world.running == running0)
      && (none && Refusals(world.log) == Refusals(a.log) ==> TreeIsNew(running0))
    }

    /** Take the next dependency in the start order. */
    method TakeNext(ghost seen: seq<Service>, d: Service, ghost a: Moment, ghost running0: set<Service>,
                    ghost none: bool)
      requires world.LogOk() && Tree() && Acyclic(world.config, world.rank) && name !in world.running
      requires Going(seen, a, running0, none) && d in world.config.deps(name)
      requires forall x :: x in seen ==> world.config.startOrder(x) <= world.config.startOrder(d)
      modifies world`running, world`marks, world`hookRuns, world`diskChecks, world`log, this
      ensures Tree() && fresh(Repr - old(Repr)) && world.LogOk() && name !in world.running
      ensures Going(seen + [d], a, running0, none)
      decreases world.rank(name), 0, 1
    {
      hide SvdService.Tree, SvdService.OnceEach, World.LogOk, EventOk, Extends, Refusals, TakenBy;
      hide Acyclic, WasRefused, World.FatesKept, World.AllSound, AllDeep, SvdService.TreeIsNew;
      ghost var b, running1 := world.Now(), world.running;
      KeptSound(world.rank(name), a.marks, b.marks);
      TakeDependency(d, running0);
      GoneOn(a, running0, b, running1, world.Now());
    }

    /** Two parts of a start, one after the other. */
    lemma GoneOn(a: Moment, running0: set<Service>, b: Moment, running1: set<Service>, c: Moment)
      requires Extends(world.rank, a.log, running0, b.log, running1, world.rank(name))
      requires Extends(world.rank, b.log, running1, c.log, world.running, world.rank(name))
      requires AllDeep(a.log, b.log) && AllDeep(b.log, c.log)
      requires world.FatesKept(a.marks, b.marks) && world.FatesKept(b.marks, c.marks)
      ensures Extends(world.rank, a.log, running0, c.log, world.running, world.rank(name))
      ensures AllDeep(a.log, c.log) && world.FatesKept(a.marks, c.marks) && running1 <= world.running
      ensures forall s :: WasRefused(b.log, s) ==> WasRefused(c.log, s)
    {
      hide Extends, AllDeep, World.FatesKept, WasRefused;
      var rank := world.rank;
      DeepTwice(a.log, b.log, c.log);
      world.FatesTwice(a.marks, b.marks, c.marks);
      ExtendsTwice(rank, a.log, running0, b.log, running1, c.log, world.running, rank(name), rank(name));
      ExtendsTwice(rank, b.log, running1, c.log, world.running, c.log, world.running, rank(name), rank(name));
    }

    ghost method StartTaking(p: Phase)
      requires world.LogOk() && Asked(name, Install) in world.log
      requires p.ForStart? ==> multiset(TakenBy(world.log, name, ForConfigure)) == multiset(world.config.deps(name))
      modifies world`log
      ensures world.LogOk() && world.log == old(world.log) + [Begin(name, p)]
      ensures TakenBy(world.log, name, p) == [] && Refusals(world.log) == Refusals(old(world.log))
      ensures forall q :: q != p ==> TakenBy(world.log, name, q) == TakenBy(old(world.log), name, q)
      ensures Extends(world.rank, old(world.log), world.running, world.log, world.running, world.rank(name))
      ensures AllDeep(old(world.log), world.log)
    {
      OneMore(world.log, Begin(name, p));
      world.Record(Begin(name, p));
    }

    ghost method StartOne(d: Service, p: Phase)
      requires world.LogOk() && d in world.config.deps(name)
      requires forall x :: x in TakenBy(world.log, name, p) ==> Order(world.config, p, x) <= Order(world.config, p, d)
      modifies world`log
      ensures world.LogOk() && world.log == old(world.log) + [Taken(name, d, p)]
      ensures TakenBy(world.log, name, p) == TakenBy(old(world.log), name, p) + [d]
      ensures forall q :: q != p ==> TakenBy(world.log, name, q) == TakenBy(old(world.log), name, q)
      ensures Refusals(world.log) == Refusals(old(world.log))
      ensures Extends(world.rank, old(world.log), world.running, world.log, world.running, world.rank(name))
      ensures AllDeep(old(world.log), world.log)
    {
      OneMore(world.log, Taken(name, d, p));
      world.Record(Taken(name, d, p));
    }

    lemma NextInOrder(sorted: seq<Service>, order: Service -> int, k: nat)
      requires SortedBy(sorted, order) && k < |sorted|
      ensures forall x :: x in sorted[..k] ==> order(x) <= order(sorted[k])
      ensures sorted[k] in sorted && sorted[..k + 1] == sorted[..k] + [sorted[k]]
    {
    }

    lemma Lower(d: Service)
      requires Acyclic(world.config, world.rank) && d in world.config.deps(name)
      ensures world.rank(d) < world.rank(name)
    {
    }

    /** Take one dependency: start it unless it runs. */
    method TakeDependency(d: Service, ghost running0: set<Service>)
      requires world.LogOk() && Tree() && Acyclic(world.config, world.rank) && name !in world.running
      requires d in world.config.deps(name)
      requires forall x :: x in TakenBy(world.log, name, ForStart) ==>
        Order(world.config, ForStart, x) <= Order(world.config, ForStart, d)
      modifies world`running, world`marks, world`hookRuns, world`diskChecks, world`log, this
      ensures Tree() && fresh(Repr - old(Repr)) && world.LogOk() && name !in world.running
      ensures Extends(world.rank, old(world.log), old(world.running), world.log, world.running, world.rank(name))
      ensures (d in world.running || WasRefused(world.log, d)) && AllDeep(old(world.log), world.log)
      ensures d in old(world.running) ==> world.running == old(world.running)
      ensures TakenBy(world.log, name, ForStart) == TakenBy(old(world.log), name, ForStart) + [d]
      ensures TakenBy(world.log, name, ForConfigure) == TakenBy(old(world.log), name, ForConfigure)
      ensures Refusals(world.log) >= Refusals(old(world.log)) && world.FatesKept(old(world.marks), world.marks)
      ensures world.AllSound(world.rank(name), old(world.marks)) ==>
        d in world.running && Refusals(world.log) == Refusals(old(world.log))
      ensures old(TreeIsNew(running0)) && Refusals(world.log) == Refusals(old(world.log)) ==> TreeIsNew(running0)
      decreases world.rank(name), 0, 0
    {
      hide SvdService.Tree, SvdService.OnceEach, World.LogOk, Extends, Refusals, TakenBy, Acyclic, Order;
      hide WasRefused, World.FatesKept, World.AllSound, World.Doomed, AllDeep;
      OwnName();
      Lower(d);
      ghost var log0, before, rank, ms0 := world.log, world.running, world.rank, world.marks;
      StartOne(d, ForStart);
      ghost var log1 := world.log;
      world.NothingRan(Moment(ms0, 0, log0), Moment(ms0, 0, log1));
      KeptSound(rank(name), ms0, ms0);
      if d !in world.running {
        ghost var names0 := names;
        var depService := new SvdService(d, world);
        depService.StartSlot(true);
        ExtendsBelow(rank, log1, before, world.log, world.running, rank(d), name);
        ExtendsTwice(rank, log0, before, log1, before, world.log, world.running, rank(name), rank(d));
        NewNames(running0, names0, depService.names, before);
        DeepTwice(log0, log1, world.log);
        Adopt(depService);
      }
    }

    lemma NewNames(running0: set<Service>, own: set<Service>, more: set<Service>, before: set<Service>)
      requires name in own
      ensures name !in before + more && more !! before && before == running0 + (own - {name}) ==>
        more !! own && before + more == running0 + (own + more - {name})
    {
    }

    // -------------------------------------------------------------------------------------
    // Stopping
    // -------------------------------------------------------------------------------------

    /** `afterStopSlot`: not while another one is at work. */
    method AfterStopSlot()
      modifies world`marks, world`hookRuns, world`running, world`log
      ensures world.running == old(world.running) - if old(Marked(AfterStopping)) then {} else {name}
      ensures forall s :: Mark(s, AfterStopping) in world.marks ==> Mark(s, AfterStopping) in old(world.marks)
      ensures world.marks == if old(Marked(AfterStopping)) then old(world.marks)
                             else old(InProgress(world.marks, AfterStopping))
      ensures world.log == old(world.log) + if old(Marked(AfterStopping)) then [] else [Ran(name, AfterStop)]
    {
      if Marked(AfterStopping) {
        return;
      }
      Touch(AfterStopping);
      var ok := world.RunCommands(Ran(name, AfterStop));
      Remove(AfterStopping);
      world.running := world.running - {name};
    }

    /** The stop commands, and the removal of all markers of work in progress. With a usable pid
        file the running marker is removed at once. */
    method StopSelf()
      modifies world`marks, world`hookRuns, world`running, world`log
      ensures world.running == old(world.running) - if old(world.pidKnown(world.hookRuns)) then {name} else {}
      ensures forall s :: Mark(s, AfterStopping) in world.marks ==> Mark(s, AfterStopping) in old(world.marks)
      ensures world.marks
           == world.After(old(world.marks), old(world.hookRuns))
              - set m | m in {Installing, AfterStopping, AfterStarting, Configuring, Reloading, Validating,
                              ValidationFailure} :: Mark(name, m)
      ensures world.log == old(world.log) + [Ran(name, Stop)]
    {
      var pidKnown := world.pidKnown(world.hookRuns);
      var ok := world.RunCommands(Ran(name, Stop));
      if pidKnown {
        world.running := world.running - {name};
      }
      ClearMarkers();
    }

    /** Remove what may be left of work in progress. */
    method ClearMarkers()
      modifies world`marks
      ensures world.marks
           == old(world.marks) - set m | m in {Installing, AfterStopping, AfterStarting, Configuring, Reloading,
                                               Validating, ValidationFailure} :: Mark(name, m)
    {
      Remove(Installing);
      Remove(AfterStopping);
      Remove(AfterStarting);
      Remove(Configuring);
      Remove(Reloading);
      Remove(Validating);
      Remove(ValidationFailure);
    }

    /** `stopSlot`: the service, then the dependencies that were started for it. A service that
        does not run is left alone, together with its dependencies. */
    method StopSlot(withDeps: bool)
      requires Tree()
      modifies world`marks, world`hookRuns, world`running, world`log
      ensures Tree() && name !in world.running && old(world.running) - names <= world.running <= old(world.running)
      ensures name !in old(world.running) ==>
        world.running == old(world.running) && world.marks == old(world.marks) && world.log == old(world.log)
      ensures old(world.log) <= world.log
      ensures name in old(world.running) ==> StoppedSince(old(world.log), world.log, name)
      ensures OnlyStops(old(world.log), world.log, if withDeps then names else {name})
      ensures withDeps && OnceEach() && names <= old(world.running) ==> world.running == old(world.running) - names
      ensures !withDeps ==> world.running == old(world.running) - {name}
      ensures forall s :: Mark(s, AfterStopping) in world.marks ==> Mark(s, AfterStopping) in old(world.marks)
      decreases Repr, 2
    {
      hide SvdService.Tree, SvdService.OnceEach, OnlyStops, SvdService.InProgress, World.After, NamesOf;
      OwnName();
      ghost var log0, which := world.log, if withDeps then names else {name};
      StopsOne(log0, name, which);
      if name !in world.running {
        return;
      }
      StopSelf();
      ghost var log1 := world.log;
      StopsOne(log1, name, which);
      if withDeps {
        StopDependencies();
      }
      ghost var log2 := world.log;
      StopsOne(log2, name, which);
      AfterStopSlot();
      Named();
      StopsTwice(log0, log1, log2, which, which);
      StopsTwice(log0, log2, world.log, which, which);
    }

    lemma Named()
      requires Tree()
      ensures names == {name} + NamesOf(dependencyServices)
    {
    }

    /** Stop the dependencies that were started for this service. */
    method StopDependencies()
      requires Tree()
      modifies world`marks, world`hookRuns, world`running, world`log
      ensures Tree() && old(world.running) - names <= world.running <= old(world.running)
      ensures forall d :: d in dependencyServices ==> d.name !in world.running
      ensures OnceEach() && names - {name} <= old(world.running) ==>
        world.running == old(world.running) - NamesOf(dependencyServices)
      ensures forall s :: Mark(s, AfterStopping) in world.marks ==> Mark(s, AfterStopping) in old(world.marks)
      ensures old(world.log) <= world.log && OnlyStops(old(world.log), world.log, names)
      decreases Repr, 1
    {
      ghost var ds, log0 := dependencyServices, world.log;
      NoNames(ds);
      hide StoppedSince, SvdService.Tree, SvdService.OnceEach, NamesOf, OnlyStops;
      OwnName();
      StopsOne(log0, name, names);
      for i := 0 to |dependencyServices|
        invariant Tree() && old(world.running) - names <= world.running <= old(world.running)
        invariant forall k :: 0 <= k < i ==> ds[k].name !in world.running
        invariant OnceEach() && names - {name} <= old(world.running) ==>
          world.running == old(world.running) - NamesOf(ds[..i])
        invariant forall s :: Mark(s, AfterStopping) in world.marks ==> Mark(s, AfterStopping) in old(world.marks)
        invariant OnlyStops(log0, world.log, names)
      {
        ghost var log1 := world.log;
        StopDependency(i, old(world.running));
        StopsTwice(log0, log1, world.log, names, names);
      }
      assert ds[..|ds|] == ds;
      StopsGrow(log0, world.log, names);
    }

    method StopDependency(i: nat, ghost running0: set<Service>)
      requires Tree() && i < |dependencyServices| && running0 - names <= world.running <= running0
      requires OnceEach() && names - {name} <= running0 ==>
        world.running == running0 - NamesOf(dependencyServices[..i])
      modifies world`marks, world`hookRuns, world`running, world`log
      ensures Tree() && dependencyServices[i].name !in world.running
      ensures running0 - names <= world.running <= old(world.running)
      ensures OnceEach() && names - {name} <= running0 ==>
        world.running == running0 - NamesOf(dependencyServices[..i + 1])
      ensures forall s :: Mark(s, AfterStopping) in world.marks ==> Mark(s, AfterStopping) in old(world.marks)
      ensures OnlyStops(old(world.log), world.log, names)
      decreases Repr, 0
    {
      hide StoppedSince, SvdService.Tree, SvdService.OnceEach, NamesOf, OnlyStops;
      OwnName();
      Child(i);
      ghost var log0 := world.log;
      var depService := dependencyServices[i];
      depService.StopSlot(true);
      StopsOne(log0, name, names);
      StopsTwice(log0, log0, world.log, names, depService.names);
    }

    lemma NoNames(ds: seq<SvdService>)
      ensures NamesOf(ds[..0]) == {}
    {
    }

    lemma Child(i: nat)
      requires Tree() && i < |dependencyServices|
      ensures var ds, d := dependencyServices, dependencyServices[i];
              && d.Repr < Repr && d.world == world && d.Tree() && d.name in d.names && d.names <= names
              && NamesOf(ds[..i + 1]) == NamesOf(ds[..i]) + d.names
              && (OnceEach() ==> d.OnceEach() && d.names !! {name} + NamesOf(ds[..i]) && d.names <= names - {name})
    {
      SplitNames({name}, dependencyServices, i);
    }

    lemma {:induction false} SplitNames(own: set<Service>, ds: seq<SvdService>, i: nat)
      requires i < |ds|
      ensures NamesOf(ds[..i + 1]) == NamesOf(ds[..i]) + ds[i].names
      ensures ds[i].names <= NamesOf(ds) && NamesOf(ds[..i]) <= NamesOf(ds)
      ensures Apart(own, ds) ==> ds[i].names !! own + NamesOf(ds[..i])
      decreases |ds|
    {
      assert ds[..i + 1][..i] == ds[..i];
      if i + 1 < |ds| {
        var front := ds[..|ds| - 1];
        SplitNames(own, front, i);
        assert front[..i] == ds[..i];
      } else {
        assert ds[..i + 1] == ds;
      }
    }

    /** `restartSlot`; `shutdown` is the shutdown hook file. `stopped` is what the stop did, and
        `down` are the services running then. Afterwards the service runs, unless there was no
        room, or its validation failed. Without dependencies no other service is touched. */
    method RestartSlot(withDeps: bool, shutdown: bool) returns (ghost stopped: seq<Event>, ghost down: set<Service>)
      requires Tree() && Acyclic(world.config, world.rank)
      modifies world`running, world`marks, world`hookRuns, world`diskChecks, world`log, this
      ensures Tree() && fresh(Repr - old(Repr))
      ensures shutdown ==> world.running == old(world.running) && world.marks == old(world.marks)
      ensures !shutdown && name in old(world.running) ==> StoppedSince(old(world.log), stopped, name)
      ensures !shutdown ==> name !in down && old(world.running) - old(names) <= down <= old(world.running)
      ensures !shutdown && withDeps && old(OnceEach()) && old(names) <= old(world.running) ==>
        down == old(world.running) - old(names)
      ensures !shutdown && !withDeps ==>
        && down == old(world.running) - {name} && down <= world.running <= down + {name}
        && dependencyServices == old(dependencyServices) && OnlySince([], world.log, name)
      ensures !shutdown && withDeps ==> down <= world.running && AllDeep([], world.log)
      ensures !shutdown && !world.config.diskHasRoom(old(world.diskChecks)) ==>
        world.running == down && world.log == [Refused(name, NoRoom(old(world.diskChecks)))]
      ensures !shutdown && world.config.diskHasRoom(old(world.diskChecks)) ==>
        world.LogOk() && ((name in world.running && LaunchedSince([], world.log, name)) || GaveUp())
    {
      hide SvdService.Tree, Acyclic, World.LogOk, StoppedSince, LaunchedSince, SvdService.GaveUp, WasRefused;
      hide World.FatesKept, World.AllSound, World.Doomed, Refusals, SvdService.OnceEach, OnlySince, AllDeep;
      stopped, down := world.log, world.running;
      if shutdown {
        return;
      }
      OwnName();
      StopSlot(withDeps);
      stopped, down := world.log, world.running;
      world.NewLog();
      StartSlot(withDeps);
    }

    /** Starting and then stopping a service that does not run restores the services that ran,
        if no start was refused; and none is if the service and those of a lower rank are sound.
        If its own start was refused, stopping does nothing, and what was launched for it stays.
        `mid` are the services running in between, `started` is what happened until then. */
    method StartThenStop() returns (ghost mid: set<Service>, ghost started: seq<Event>)
      requires world.log == [] && Tree() && Acyclic(world.config, world.rank)
      requires dependencyServices == [] && name !in world.running
      modifies world`running, world`marks, world`hookRuns, world`diskChecks, world`log, this
      ensures Disciplined(world.config, started)
      ensures Refusals(started) == 0 ==> world.running == old(world.running) && name in mid
      ensures old(world.running) <= mid && (name !in mid ==> world.running == mid)
      ensures world.AllSound(world.rank(name) + 1, old(world.marks)) ==>
        Refusals(started) == 0 && world.running == old(world.running) && name in mid
      ensures world.Doomed(name, old(world.marks)) ==> name !in mid
      ensures world.AllSound(world.rank(name), old(world.marks)) ==>
        && (forall d :: d in world.config.deps(name) ==> d in mid)
        && (world.running == old(world.running) <==>
            name in mid || forall d :: d in world.config.deps(name) ==> d in old(world.running))
    {
      hide SvdService.Tree, SvdService.OnceEach, Acyclic, EventOk, SvdService.GaveUp, WasRefused, LaunchedSince;
      hide World.FatesKept, World.AllSound, World.Doomed;
      StartSlot(true);
      OwnName();
      mid, started := world.running, world.log;
      StopSlot(true);
    }

    lemma Snoc(ds: seq<SvdService>, d: SvdService)
      ensures NamesOf(ds + [d]) == NamesOf(ds) + d.names
      ensures forall own :: Apart(own, ds + [d]) <==> Apart(own, ds) && d.names !! own + NamesOf(ds)
    {
      assert (ds + [d])[..|ds|] == ds;
    }
  }

  /** The services in the trees of some objects. */
  ghost function NamesOf(ds: seq<SvdService>): set<Service>
    reads ds`names
  {
    if ds == [] then {} else NamesOf(ds[..|ds| - 1]) + ds[|ds| - 1].names
  }

  /** The trees share no service with each other or with `own`. */
  ghost predicate Apart(own: set<Service>, ds: seq<SvdService>)
    reads ds`names
  {
    ds == [] || (Apart(own, ds[..|ds| - 1]) && ds[|ds| - 1].names !! own + NamesOf(ds[..|ds| - 1]))
  }

  // ---------------------------------------------------------------------------------------
  // A start that leaves something behind
  // ---------------------------------------------------------------------------------------

  const WEB: Service := "web"
  const STORE: Service := "store"

  /** One service depends on another, and each of its validations fails. */
  function FailingConfig(): Config {
    Config(s => if s == WEB then [STORE] else [], _ => 0, _ => 0, s => s == WEB, _ => true)
  }

  function FailingHook(n: nat): Outcome {
    Effect(true, {Mark(WEB, ValidationFailure)}, {})
  }

  function FailingRank(s: Service): nat {
    if s == WEB then 1 else 0
  }

  lemma FailingFates(w: World)
    requires w.config == FailingConfig() && w.hooks == FailingHook && w.rank == FailingRank
    ensures Acyclic(w.config, w.rank) && w.Doomed(WEB, {}) && w.AllSound(1, {})
    ensures w.config.deps(WEB) == [STORE] && w.rank(WEB) == 1
  {
    assert WEB != STORE;
    assert forall n :: w.hooks(n) == FailingHook(n);
  }

  /** Starting and then stopping, with nothing running before. The dependency is started before
      the validation that fails, and stopping a service that does not run leaves it running. */
  method LeftBehind() returns (web: SvdService)
    ensures web.world.config == FailingConfig() && web.world.hooks == FailingHook && web.name == WEB
    ensures WEB !in web.world.running && STORE in web.world.running
  {
    hide *;
    var world := new World(FailingConfig(), FailingHook, _ => true, FailingRank, {}, {});
    web := new SvdService(WEB, world);
    FailingFates(world);
    ghost var mid, started := web.StartThenStop();
    assert STORE in world.config.deps(WEB);
  }
}
