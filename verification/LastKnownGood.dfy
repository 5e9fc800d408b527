/** The remembered outbound route: ordering a plan by it, dialing, and what a session leaves behind. */
module LastKnownGood {
  import opened Wrappers
  import opened Addr

  const HEALTH_TTL_MS := 3600 * 1000
  const WRITE_DEBOUNCE_MS := 300 * 1000

  /** Targets, keys and the text operations on keys. */
  datatype Env = Env(key: Target -> string, trim: string -> string, lower: string -> string) {

    /** Keys are already trimmed, in lower case and not empty. */
    ghost predicate Valid() {
      forall t :: trim(key(t)) == key(t) && lower(key(t)) == key(t) && key(t) != ""
    }

    /** A stored preference as it is compared with keys. */
    function Normal(pref: string): string {
      lower(trim(pref))
    }
  }

  datatype Plan = Plan(logical: Target, candidates: seq<Target>)

  datatype State = State(preferred: Option<string>, updatedAt: nat)

  const UNKNOWN := State(None, 0)

  function Since(now: nat, before: nat): nat {
    if now < before then 0 else now - before
  }

  /** The preference, while it is fresh enough to act on. */
  function PreferredFresh(env: Env, s: State, now: nat): Option<string> {
    if s.preferred.None? then None
    else
      var pref := env.trim(s.preferred.value);
      if pref == "" || s.updatedAt == 0 || Since(now, s.updatedAt) > HEALTH_TTL_MS then None else Some(pref)
  }

  /** Index of the first candidate with a key. */
  function Position(env: Env, candidates: seq<Target>, key: string): (r: Option<nat>)
    ensures r.Some? ==> r.value < |candidates| && env.key(candidates[r.value]) == key
    ensures forall i :: 0 <= i < (if r.Some? then r.value else |candidates|) ==> env.key(candidates[i]) != key
  {
    if candidates == [] then None
    else if env.key(candidates[0]) == key then Some(0)
    else
      var r := Position(env, candidates[1..], key);
      if r.Some? then Some(r.value + 1) else None
  }

  /** Element `i` first, the others in their order. */
  function MovedFirst(candidates: seq<Target>, i: nat): (moved: seq<Target>)
    requires i < |candidates|
    ensures |moved| == |candidates| && moved[0] == candidates[i]
  {
    [candidates[i]] + candidates[..i] + candidates[i + 1..]
  }

  /** The plan with the fresh preferred candidate first. */
  function Ordered(env: Env, plan: Plan, s: State, now: nat): Plan {
    match PreferredFresh(env, s, now)
    case None => plan
    case Some(pref) =>
      match Position(env, plan.candidates, pref)
      case None => plan
      case Some(i) => plan.(candidates := MovedFirst(plan.candidates, i))
  }

  method OrderPlan(env: Env, plan: Plan, s: State, now: nat) returns (ordered: Plan)
    ensures ordered == Ordered(env, plan, s, now)
  {
    var pref := PreferredFresh(env, s, now);
    if pref.None? {
      return plan;
    }
    var found := Position(env, plan.candidates, pref.value);
    var candidates := plan.candidates;
    if found.Some? && found.value > 0 {
      var candidate := candidates[found.value];
      candidates := candidates[..found.value] + candidates[found.value + 1..];
      candidates := [candidate] + candidates;
      assert candidates == MovedFirst(plan.candidates, found.value);
    } else if found.Some? {
      assert candidates == MovedFirst(candidates, 0);
    }
    return plan.(candidates := candidates);
  }

  /** Ordering only moves: the same candidates, the same destination, and nothing else changes place. */
  lemma OrderOnlyMoves(env: Env, plan: Plan, s: State, now: nat)
    ensures var ordered := Ordered(env, plan, s, now);
      && ordered.logical == plan.logical
      && multiset(ordered.candidates) == multiset(plan.candidates)
      && (ordered != plan ==>
          exists i :: 0 < i < |plan.candidates| && ordered.candidates == MovedFirst(plan.candidates, i))
  {
    var ordered := Ordered(env, plan, s, now);
    var pref := PreferredFresh(env, s, now);
    if pref.Some? && Position(env, plan.candidates, pref.value).Some? {
      var i := Position(env, plan.candidates, pref.value).value;
      var c := plan.candidates;
      assert c == c[..i] + [c[i]] + c[i + 1..];
      if i == 0 {
        assert MovedFirst(c, 0) == c;
      }
    }
  }

  /** Written less than an hour ago, or even later than now, and at a known time. */
  predicate Fresh(s: State, now: nat) {
    s.updatedAt > 0 && now <= s.updatedAt + 3600000
  }

  /** A preference moves its candidate to the front for an hour. */
  lemma ActedOn(env: Env, plan: Plan, s: State, now: nat, t: Target)
    requires s.preferred.Some? && env.trim(s.preferred.value) == env.key(t) != "" && Fresh(s, now)
    requires t in plan.candidates
    ensures var ordered := Ordered(env, plan, s, now).candidates;
      |ordered| > 0 && env.key(ordered[0]) == env.key(t)
  {
    var i :| 0 <= i < |plan.candidates| && plan.candidates[i] == t;
    assert Position(env, plan.candidates, env.key(t)).Some?;
  }

  /** Nothing else moves anything: no preference, a blank one, one without a time, one that is more than an hour old, or
      one that no candidate has. */
  lemma NotActedOn(env: Env, plan: Plan, s: State, now: nat)
    requires s.preferred.Some? && Fresh(s, now) && env.trim(s.preferred.value) != "" ==>
               forall t :: t in plan.candidates ==> env.key(t) != env.trim(s.preferred.value)
    ensures Ordered(env, plan, s, now) == plan
  {
  }

  // ---- dialing ----

  datatype ConnectError = Forbidden | Failed(why: string)

  const NO_CANDIDATES := Failed("no candidates")

  /** Which candidate won and which failed first, or with what error the dial failed. */
  datatype Dialed = Won(winner: nat, firstFailed: Option<nat>) | AllFailed(error: ConnectError)

  /** The first candidate that connects wins, and the very first is the first failure unless it won; when all fail, the
      error is that of the last. `dial` says which error a target ends with, if any. */
  ghost predicate IsDialed(candidates: seq<Target>, dial: Target -> Option<ConnectError>, d: Dialed) {
    match d
    case Won(w, failed) =>
      && w < |candidates| && dial(candidates[w]).None? && (forall i :: 0 <= i < w ==> dial(candidates[i]).Some?)
      && failed == if w > 0 then Some(0) else None
    case AllFailed(error) =>
      && (forall i :: 0 <= i < |candidates| ==> dial(candidates[i]).Some?)
      && error == if candidates == [] then NO_CANDIDATES else dial(candidates[|candidates| - 1]).value
  }

  /** The error of the last candidate. */
  function LastError(candidates: seq<Target>, dial: Target -> Option<ConnectError>): ConnectError {
    if candidates == [] || dial(candidates[|candidates| - 1]).None? then NO_CANDIDATES
    else dial(candidates[|candidates| - 1]).value
  }

  /** The outcome of dialing a list of candidates. */
  function Outcome(candidates: seq<Target>, dial: Target -> Option<ConnectError>, from: nat): Dialed
    requires from <= |candidates|
    decreases |candidates| - from
  {
    if from == |candidates| then AllFailed(LastError(candidates, dial))
    else if dial(candidates[from]).None? then Won(from, if from > 0 then Some(0) else None)
    else Outcome(candidates, dial, from + 1)
  }

  lemma {:induction false} OutcomeIsDialed(candidates: seq<Target>, dial: Target -> Option<ConnectError>, from: nat)
    requires from <= |candidates| && forall i :: 0 <= i < from ==> dial(candidates[i]).Some?
    ensures IsDialed(candidates, dial, Outcome(candidates, dial, from))
    decreases |candidates| - from
  {
    if from < |candidates| && dial(candidates[from]).Some? {
      OutcomeIsDialed(candidates, dial, from + 1);
    }
  }

  /** Try each candidate until one connects. */
  method Dial(candidates: seq<Target>, dial: Target -> Option<ConnectError>) returns (d: Dialed)
    ensures IsDialed(candidates, dial, d) && d == Outcome(candidates, dial, 0)
  {
    OutcomeIsDialed(candidates, dial, 0);
    if |candidates| == 1 {
      var only := dial(candidates[0]);
      return if only.None? then Won(0, None) else AllFailed(only.value);
    }
    var lastError := NO_CANDIDATES;
    var firstFailed: Option<nat> := None;
    for i: nat := 0 to |candidates|
      invariant forall k :: 0 <= k < i ==> dial(candidates[k]).Some?
      invariant firstFailed == if i > 0 then Some(0) else None
      invariant lastError == LastError(candidates[..i], dial)
    {
      match dial(candidates[i]) {
        case None => return Won(i, firstFailed);
        case Some(e) =>
          firstFailed := if firstFailed.Some? then firstFailed else Some(i);
          lastError := e;
      }
    }
    assert candidates[..|candidates|] == candidates;
    return AllFailed(lastError);
  }

  /** Whether a dial succeeds does not depend on the stored preference. */
  lemma SuccessIndependent(env: Env, plan: Plan, s: State, s': State, now: nat, dial: Target -> Option<ConnectError>,
                           d: Dialed, d': Dialed)
    requires IsDialed(Ordered(env, plan, s, now).candidates, dial, d)
    requires IsDialed(Ordered(env, plan, s', now).candidates, dial, d')
    ensures d.AllFailed? <==> d'.AllFailed?
  {
    hide Ordered;
    var a, b := Ordered(env, plan, s, now).candidates, Ordered(env, plan, s', now).candidates;
    OrderOnlyMoves(env, plan, s, now);
    OrderOnlyMoves(env, plan, s', now);
    SameMembers(a, b, dial);
  }

  /** Two orders of the same candidates have a working one together. */
  lemma SameMembers(a: seq<Target>, b: seq<Target>, dial: Target -> Option<ConnectError>)
    requires multiset(a) == multiset(b)
    ensures (exists i :: 0 <= i < |a| && dial(a[i]).None?) <==> (exists i :: 0 <= i < |b| && dial(b[i]).None?)
  {
    if i :| 0 <= i < |a| && dial(a[i]).None? {
      assert a[i] in multiset(b);
      assert a[i] in b;
    }
    if i :| 0 <= i < |b| && dial(b[i]).None? {
      assert b[i] in multiset(a);
      assert b[i] in a;
    }
  }

  // ---- what a session leaves behind ----

  datatype Action = Keep | Clear | Record(key: string)

  datatype Verdict = SessionWon(winner: string, isDirect: bool, firstFailed: Option<string>) | SessionFailed

  function ShouldRecord(env: Env, winner: string, s: State, now: nat): bool {
    if s.preferred.Some? && env.Normal(s.preferred.value) == winner then false
    else Since(now, s.updatedAt) >= WRITE_DEBOUNCE_MS
  }

  predicate PrefFailed(env: Env, s: State, firstFailed: Option<string>) {
    s.preferred.Some? && env.Normal(s.preferred.value) == if firstFailed.Some? then firstFailed.value else ""
  }

  function OnSessionResult(env: Env, s: State, v: Verdict, now: nat): Action {
    match v
    case SessionFailed => if s.preferred.Some? then Clear else Keep
    case SessionWon(winner, isDirect, firstFailed) =>
      if !isDirect && ShouldRecord(env, winner, s, now) then Record(winner)
      else if PrefFailed(env, s, firstFailed) then Clear
      else Keep
  }

  function Applied(s: State, a: Action, now: nat): State {
    match a
    case Keep => s
    case Clear => UNKNOWN
    case Record(key) => State(Some(key), now)
  }

  /** One session: when it dialed and when it ended, its plan, and how dialing each target ends. */
  datatype Session = Session(dialedAt: nat, endedAt: nat, plan: Plan, dial: Target -> Option<ConnectError>)

  function VerdictOf(env: Env, plan: Plan, d: Dialed): Verdict
    requires d.Won? ==>
             d.winner < |plan.candidates| && (d.firstFailed.Some? ==> d.firstFailed.value < |plan.candidates|)
  {
    match d
    case AllFailed(_) => SessionFailed
    case Won(w, failed) =>
      var winner := plan.candidates[w];
      var failedKey := if failed.Some? then Some(env.key(plan.candidates[failed.value])) else None;
      SessionWon(env.key(winner), winner == plan.logical, failedKey)
  }

  /** What one session does to the stored state: order by it, dial, settle. */
  function ActionOf(env: Env, s: State, session: Session): Action {
    var plan := Ordered(env, session.plan, s, session.dialedAt);
    OutcomeIsDialed(plan.candidates, session.dial, 0);
    var d := Outcome(plan.candidates, session.dial, 0);
    OnSessionResult(env, s, VerdictOf(env, plan, d), session.endedAt)
  }

  /** The stored state after one session. */
  function After(env: Env, s: State, session: Session): State {
    Applied(s, ActionOf(env, s, session), session.endedAt)
  }

  /** The candidate that a fresh preference puts first, if there is one. */
  function PutFirst(env: Env, s: State, session: Session): Option<Target> {
    if s.preferred.None? || env.trim(s.preferred.value) == "" || !Fresh(s, session.dialedAt) then None
    else
      match Position(env, session.plan.candidates, env.trim(s.preferred.value))
      case None => None
      case Some(i) => Some(session.plan.candidates[i])
  }

  /** A preference that was put first and failed is not stored afterwards. */
  lemma FailedPreferenceGone(env: Env, s: State, session: Session)
    requires env.Valid()
    requires PutFirst(env, s, session).Some? && session.dial(PutFirst(env, s, session).value).Some?
    ensures var s' := After(env, s, session);
      s'.preferred.None? || env.Normal(s'.preferred.value) != env.key(PutFirst(env, s, session).value)
  {
    hide Env.Valid;
    var plan := Ordered(env, session.plan, s, session.dialedAt);
    var first := PutFirst(env, s, session).value;
    OutcomeIsDialed(plan.candidates, session.dial, 0);
    var d := Outcome(plan.candidates, session.dial, 0);
    assert plan.candidates[0] == first;
    KeyIsNormal(env, first);
    assert env.Normal(s.preferred.value) == env.key(first);
    if d.Won? {
      assert d.winner > 0 && d.firstFailed == Some(0);
      KeyIsNormal(env, plan.candidates[d.winner]);
    }
  }

  lemma KeyIsNormal(env: Env, t: Target)
    requires env.Valid()
    ensures env.Normal(env.key(t)) == env.key(t) && env.key(t) != ""
    ensures forall p :: env.trim(p) == env.key(t) ==> env.Normal(p) == env.key(t)
  {
    assert env.lower(env.key(t)) == env.key(t);
  }

  /** The states that a run of sessions goes through. */
  function Run(env: Env, s: State, sessions: seq<Session>): State {
    if sessions == [] then s else After(env, Run(env, s, sessions[..|sessions| - 1]), sessions[|sessions| - 1])
  }

  /** Some proxy candidate of the session with this key carried it. */
  ghost predicate Carried(env: Env, session: Session, key: string) {
    exists t :: t in session.plan.candidates && t != session.plan.logical && session.dial(t).None? && env.key(t) == key
  }

  /** Over any run from scratch: a stored preference is the key of a proxy candidate that carried some session, and
      it was stored when that session ended. */
  lemma {:induction false} PreferenceCarried(env: Env, sessions: seq<Session>)
    ensures var s := Run(env, UNKNOWN, sessions);
      s.preferred.Some? ==>
        exists i :: 0 <= i < |sessions| && Carried(env, sessions[i], s.preferred.value)
          && sessions[i].endedAt == s.updatedAt
  {
    if sessions != [] {
      hide Carried, Ordered;
      var n := |sessions| - 1;
      PreferenceCarried(env, sessions[..n]);
      var before, after := Run(env, UNKNOWN, sessions[..n]), Run(env, UNKNOWN, sessions);
      if after.preferred.Some? {
        if after == before {
          var i :| 0 <= i < n && Carried(env, sessions[..n][i], before.preferred.value)
            && sessions[..n][i].endedAt == before.updatedAt;
          assert Carried(env, sessions[i], after.preferred.value);
        } else {
          RecordedCarried(env, before, sessions[n]);
        }
      }
    }
  }

  lemma RecordedCarried(env: Env, s: State, session: Session)
    requires After(env, s, session) != s && After(env, s, session).preferred.Some?
    ensures Carried(env, session, After(env, s, session).preferred.value)
            && After(env, s, session).updatedAt == session.endedAt
  {
    hide Ordered;
    var plan := Ordered(env, session.plan, s, session.dialedAt);
    OrderOnlyMoves(env, session.plan, s, session.dialedAt);
    OutcomeIsDialed(plan.candidates, session.dial, 0);
    var d := Outcome(plan.candidates, session.dial, 0);
    if d.Won? {
      var t := plan.candidates[d.winner];
      assert t in multiset(plan.candidates);
      assert t in session.plan.candidates;
    }
  }

  /** A session that replaces a stored preference ends at least five minutes after it was stored. */
  lemma WritesSpaced(env: Env, s: State, session: Session)
    requires After(env, s, session) != s && After(env, s, session).preferred.Some?
    ensures Since(session.endedAt, s.updatedAt) >= WRITE_DEBOUNCE_MS
  {
    hide Ordered;
    OutcomeIsDialed(Ordered(env, session.plan, s, session.dialedAt).candidates, session.dial, 0);
  }

  /** What session `i` of a run does. */
  function ActionAt(env: Env, sessions: seq<Session>, i: nat): Action
    requires i < |sessions|
  {
    ActionOf(env, Run(env, UNKNOWN, sessions[..i]), sessions[i])
  }

  lemma RunNext(env: Env, sessions: seq<Session>, i: nat)
    requires i < |sessions|
    ensures Run(env, UNKNOWN, sessions[..i + 1])
         == Applied(Run(env, UNKNOWN, sessions[..i]), ActionAt(env, sessions, i), sessions[i].endedAt)
  {
    hide ActionOf, Applied;
    assert sessions[..i + 1][..i] == sessions[..i];
  }

  /** A recording comes at least five minutes after the last write that it replaces. */
  lemma RecordedLater(env: Env, s: State, session: Session)
    requires ActionOf(env, s, session).Record?
    ensures session.endedAt >= s.updatedAt + WRITE_DEBOUNCE_MS
  {
    hide Ordered;
  }

  /** Until something is cleared, the stored time does not go back behind a recording. */
  lemma {:induction false} TimeStays(env: Env, sessions: seq<Session>, i: nat, j: nat)
    requires i < j <= |sessions| && ActionAt(env, sessions, i).Record?
    requires forall k :: i < k < j ==> !ActionAt(env, sessions, k).Clear?
    ensures Run(env, UNKNOWN, sessions[..j]).updatedAt >= sessions[i].endedAt
  {
    hide ActionOf;
    RunNext(env, sessions, j - 1);
    if j - 1 > i {
      TimeStays(env, sessions, i, j - 1);
      if ActionAt(env, sessions, j - 1).Record? {
        RecordedLater(env, Run(env, UNKNOWN, sessions[..j - 1]), sessions[j - 1]);
      }
    }
  }

  /** Over any run: two recordings are at least five minutes apart, unless a session between them cleared the
      preference. */
  lemma RunSpaced(env: Env, sessions: seq<Session>, i: nat, j: nat)
    requires i < j < |sessions| && ActionAt(env, sessions, i).Record? && ActionAt(env, sessions, j).Record?
    ensures sessions[j].endedAt >= sessions[i].endedAt + WRITE_DEBOUNCE_MS
            || exists k :: i < k < j && ActionAt(env, sessions, k).Clear?
  {
    hide ActionOf, Run;
    if forall k :: i < k < j ==> !ActionAt(env, sessions, k).Clear? {
      TimeStays(env, sessions, i, j);
      RecordedLater(env, Run(env, UNKNOWN, sessions[..j]), sessions[j]);
    }
  }

  /** The candidates of session `i` of a run in the order in which they are dialed. */
  function DialedAt(env: Env, sessions: seq<Session>, i: nat): seq<Target>
    requires i < |sessions|
  {
    Ordered(env, sessions[i].plan, Run(env, UNKNOWN, sessions[..i]), sessions[i].dialedAt).candidates
  }

  /** What was recorded stays as long as the sessions in between keep it. */
  lemma {:induction false} RecordKept(env: Env, sessions: seq<Session>, i: nat, j: nat)
    requires i < j <= |sessions| && ActionAt(env, sessions, i).Record?
    requires forall k :: i < k < j ==> ActionAt(env, sessions, k).Keep?
    ensures Run(env, UNKNOWN, sessions[..j]) == State(Some(ActionAt(env, sessions, i).key), sessions[i].endedAt)
  {
    hide ActionOf;
    RunNext(env, sessions, j - 1);
    if j - 1 > i {
      RecordKept(env, sessions, i, j - 1);
    }
  }

  /** Over any run: when a session has recorded a key, the next one within an hour that has a candidate with this key
      dials such a candidate first. Sessions in between that keep the preference do not matter. */
  lemma RememberedFirst(env: Env, sessions: seq<Session>, i: nat, j: nat, t: Target)
    requires env.Valid() && i < j < |sessions| && ActionAt(env, sessions, i).Record?
    requires forall k :: i < k < j ==> ActionAt(env, sessions, k).Keep?
    requires 0 < sessions[i].endedAt && sessions[j].dialedAt <= sessions[i].endedAt + 3600000
    requires t in sessions[j].plan.candidates && env.key(t) == ActionAt(env, sessions, i).key
    ensures var dialed := DialedAt(env, sessions, j);
      |dialed| > 0 && env.key(dialed[0]) == ActionAt(env, sessions, i).key
  {
    hide ActionOf, Run, Ordered;
    RecordKept(env, sessions, i, j);
    ActedOn(env, sessions[j].plan, Run(env, UNKNOWN, sessions[..j]), sessions[j].dialedAt, t);
  }

  /** After an hour it is forgotten: the plan is dialed as it stands. */
  lemma ForgottenLater(env: Env, sessions: seq<Session>, i: nat, j: nat)
    requires i < j < |sessions| && ActionAt(env, sessions, i).Record?
    requires forall k :: i < k < j ==> ActionAt(env, sessions, k).Keep?
    requires sessions[j].dialedAt > sessions[i].endedAt + 3600000
    ensures DialedAt(env, sessions, j) == sessions[j].plan.candidates
  {
    hide ActionOf, Run, Ordered;
    RecordKept(env, sessions, i, j);
    NotActedOn(env, sessions[j].plan, Run(env, UNKNOWN, sessions[..j]), sessions[j].dialedAt);
  }

  /** When a session is recorded: exactly when a candidate other than the destination is the first to connect, its key
      is not the stored one, and the last write is five minutes old. */
  lemma RecordedIff(env: Env, s: State, session: Session)
    ensures var dialed := Ordered(env, session.plan, s, session.dialedAt).candidates;
      ActionOf(env, s, session).Record?
      <==> exists w :: 0 <= w < |dialed| && FirstToConnect(dialed, session.dial, w)
             && dialed[w] != session.plan.logical
             && (s.preferred.Some? ==> env.Normal(s.preferred.value) != env.key(dialed[w]))
             && (session.endedAt >= s.updatedAt + 300000)
  {
    OrderOnlyMoves(env, session.plan, s, session.dialedAt);
    hide Ordered;
    var dialed := Ordered(env, session.plan, s, session.dialedAt).candidates;
    OutcomeIsDialed(dialed, session.dial, 0);
    var d := Outcome(dialed, session.dial, 0);
    if d.Won? {
      assert FirstToConnect(dialed, session.dial, d.winner);
    }
  }

  /** When a preference is cleared: exactly when nothing connects, or the candidate dialed first has its key and fails
      and what connects instead is not recorded. */
  lemma ClearedIff(env: Env, s: State, session: Session)
    requires env.Valid() && s.preferred.Some? && env.Normal(s.preferred.value) != ""
    ensures var dialed := Ordered(env, session.plan, s, session.dialedAt).candidates;
      ActionOf(env, s, session).Clear?
      <==> (forall i :: 0 <= i < |dialed| ==> session.dial(dialed[i]).Some?)
           || (|dialed| > 0 && session.dial(dialed[0]).Some? && env.key(dialed[0]) == env.Normal(s.preferred.value)
               && !ActionOf(env, s, session).Record?)
  {
    hide Ordered;
    var dialed := Ordered(env, session.plan, s, session.dialedAt).candidates;
    OutcomeIsDialed(dialed, session.dial, 0);
    var d := Outcome(dialed, session.dial, 0);
    if d.Won? {
      assert session.dial(dialed[d.winner]).None?;
    }
  }

  predicate FirstToConnect(dialed: seq<Target>, dial: Target -> Option<ConnectError>, w: nat)
    requires w < |dialed|
  {
    dial(dialed[w]).None? && forall i :: 0 <= i < w ==> dial(dialed[i]).Some?
  }

  /** A session over one proxy candidate that ends in the given way. */
  function OneCandidate(logical: Target, proxy: Target, endedAt: nat, end: Option<ConnectError>): Session {
    Session(endedAt, endedAt, Plan(logical, [proxy]), _ => end)
  }

  /** Clearing lifts the spacing: recorded, cleared by a failed session, and recorded again, one millisecond each. */
  lemma ClearingLifts(env: Env, logical: Target, proxy: Target, start: nat)
    requires logical != proxy && start >= WRITE_DEBOUNCE_MS
    ensures var sessions := [OneCandidate(logical, proxy, start, None),
                             OneCandidate(logical, proxy, start + 1, Some(Forbidden)),
                             OneCandidate(logical, proxy, start + 2, None)];
      && ActionAt(env, sessions, 0).Record? && ActionAt(env, sessions, 1).Clear? && ActionAt(env, sessions, 2).Record?
  {
    var a, b := OneCandidate(logical, proxy, start, None), OneCandidate(logical, proxy, start + 1, Some(Forbidden));
    var sessions := [a, b, OneCandidate(logical, proxy, start + 2, None)];
    var stored := State(Some(env.key(proxy)), start);
    OrderedAlone(env, a.plan, UNKNOWN, start);
    OrderedAlone(env, a.plan, stored, start + 1);
    OrderedAlone(env, a.plan, UNKNOWN, start + 2);
    RunNext(env, sessions, 0);
    RunNext(env, sessions, 1);
    hide Ordered;
    assert Run(env, UNKNOWN, sessions[..0]) == UNKNOWN;
    assert Run(env, UNKNOWN, sessions[..1]) == stored;
    assert Outcome([proxy], b.dial, 1).AllFailed?;
    assert ActionOf(env, stored, b).Clear?;
    assert Run(env, UNKNOWN, sessions[..2]) == UNKNOWN;
  }

  /** A plan with one candidate stays as it is. */
  lemma OrderedAlone(env: Env, plan: Plan, s: State, now: nat)
    requires |plan.candidates| == 1
    ensures Ordered(env, plan, s, now) == plan
  {
    OrderOnlyMoves(env, plan, s, now);
  }
}
