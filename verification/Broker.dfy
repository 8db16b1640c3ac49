/** internal/awsauth/broker.go: any number of concurrent Fetch calls over one credential cache, as a
    state machine whose steps are the calls' atomic acts on the file and the lock. */
module Broker {
  import opened Values

  type Pid = nat
  type Cache = map<string, Credential>

  datatype Credential = Credential(accessKey: string, secret: string, sessionToken: string, expiresAtMs: int, digest: string)

  predicate Complete(c: Credential) {
    c.accessKey != "" && c.secret != "" && c.sessionToken != "" && c.expiresAtMs > 0
  }

  /** Durations and instants are in nanoseconds, expiries in milliseconds, as the service keeps them. */
  const REMINT_LEAD: int := 600_000_000_000
  const NANOS_PER_MS: int := 1_000_000

  /** One broker's configuration; a non-positive remintLead asks for the default. */
  datatype Config = Config(profile: string, digest: string, remintLead: int)

  function Lead(c: Config): int {
    if c.remintLead > 0 then c.remintLead else REMINT_LEAD
  }

  function Remaining(cred: Credential, now: int): int {
    cred.expiresAtMs * NANOS_PER_MS - now
  }

  /** warm: complete, minted under this broker's narrowing, and with more than the lead to live. */
  predicate Warm(c: Config, cred: Credential, now: int) {
    Complete(cred) && cred.digest == c.digest && Remaining(cred, now) > Lead(c)
  }

  predicate WarmEntry(c: Config, cache: Cache, now: int) {
    c.profile in cache && Warm(c, cache[c.profile], now)
  }

  datatype Decision = Cached | Minted | Waited
  datatype Outcome = Served(cred: Credential, decision: Decision) | Failed

  /** Where one Fetch stands. A Fetch about to mint remembers the state it reloaded and when. */
  datatype Phase =
    | Start
    | WantLock
    | Reload
    | Mint(reloaded: Cache, at: int)
    | Write(loaded: Cache, minted: Credential)
    | Done(outcome: Outcome)

  datatype Proc = Proc(config: Config, phase: Phase)

  /** disk is the cache file: None while it is absent or unreadable. mints counts completed mints. */
  datatype State = State(disk: Option<Cache>, lock: Option<Pid>, procs: map<Pid, Proc>, now: int, mints: nat)

  datatype Step =
    | ReadFast(p: Pid)
    | LockFails(p: Pid)
    | TakeLock(p: Pid)
    | ReloadLocked(p: Pid)
    | MintOk(p: Pid, cred: Credential)
    | MintFails(p: Pid)
    | WriteOk(p: Pid)
    | WriteFails(p: Pid)
    | Die(p: Pid)
    | Spoil
    | Pass(now: int)

  function Loaded(s: State): Cache {
    if s.disk.Some? then s.disk.value else map[]
  }

  function To(s: State, p: Pid, phase: Phase): State
    requires p in s.procs
  {
    s.(procs := s.procs[p := s.procs[p].(phase := phase)])
  }

  /** The call returns, and with it its deferred unlock. */
  function Return(s: State, p: Pid, outcome: Outcome): State
    requires p in s.procs
  {
    var t := To(s, p, Done(outcome));
    if s.lock == Some(p) then t.(lock := None) else t
  }

  predicate Enabled(s: State, step: Step) {
    match step
    case ReadFast(p) => p in s.procs && s.procs[p].phase.Start?
    case LockFails(p) => p in s.procs && s.procs[p].phase.WantLock?
    case TakeLock(p) => p in s.procs && s.procs[p].phase.WantLock? && s.lock.None?
    case ReloadLocked(p) => p in s.procs && s.procs[p].phase.Reload?
    case MintOk(p, cred) => p in s.procs && s.procs[p].phase.Mint? && Complete(cred) && cred.digest == s.procs[p].config.digest
    case MintFails(p) => p in s.procs && s.procs[p].phase.Mint?
    case WriteOk(p) => p in s.procs && s.procs[p].phase.Write?
    case WriteFails(p) => p in s.procs && s.procs[p].phase.Write?
    case Die(p) => p in s.procs && !s.procs[p].phase.Done?
    case Spoil => true
    case Pass(now) => now >= s.now
  }

  /** Fetch, one atomic act at a time. */
  function Next(s: State, step: Step): State
    requires Enabled(s, step)
  {
    match step
    case ReadFast(p) =>
      if s.disk.Some? && WarmEntry(s.procs[p].config, s.disk.value, s.now)
      then Return(s, p, Served(s.disk.value[s.procs[p].config.profile], Cached))
      else To(s, p, WantLock)
    case LockFails(p) => Return(s, p, Failed)
    case TakeLock(p) => To(s, p, Reload).(lock := Some(p))
    case ReloadLocked(p) =>
      if WarmEntry(s.procs[p].config, Loaded(s), s.now)
      then Return(s, p, Served(Loaded(s)[s.procs[p].config.profile], Waited))
      else To(s, p, Mint(Loaded(s), s.now))
    case MintOk(p, cred) => To(s, p, Write(s.procs[p].phase.reloaded, cred)).(mints := s.mints + 1)
    case MintFails(p) => Return(s, p, Failed)
    case WriteOk(p) =>
      var w := s.procs[p].phase;
      Return(s.(disk := Some(w.loaded[s.procs[p].config.profile := w.minted])), p, Served(w.minted, Minted))
    case WriteFails(p) => Return(s, p, Failed)
    case Die(p) => Return(s, p, Failed)
    case Spoil => s.(disk := None)
    case Pass(now) => s.(now := now)
  }

  /** Any number of fresh calls over any cache. */
  predicate Init(s: State) {
    s.lock.None? && s.mints == 0 && forall p :: p in s.procs ==> s.procs[p].phase.Start?
  }

  /** A run: one step from each state to the next. */
  ghost predicate Run(states: seq<State>, steps: seq<Step>) {
    && |states| == |steps| + 1
    && Init(states[0])
    && forall i :: 0 <= i < |steps| ==> Enabled(states[i], steps[i]) && states[i + 1] == Next(states[i], steps[i])
  }

  predicate Holds(phase: Phase) {
    phase.Reload? || phase.Mint? || phase.Write?
  }

  /** What a phase lets one rely on, given the disk as it is now. */
  predicate Coherent(s: State, proc: Proc) {
    match proc.phase
    case Mint(reloaded, at) =>
      (s.disk.Some? ==> s.disk.value == reloaded) && at <= s.now && !WarmEntry(proc.config, reloaded, at)
    case Write(loaded, minted) =>
      (s.disk.Some? ==> s.disk.value == loaded) && Complete(minted) && minted.digest == proc.config.digest
    case Done(Served(cred, _)) => Complete(cred) && cred.digest == proc.config.digest
    case _ => true
  }

  ghost predicate Inv(s: State) {
    && (forall p :: p in s.procs && Holds(s.procs[p].phase) ==> s.lock == Some(p))
    && (s.lock.Some? ==> s.lock.value in s.procs && Holds(s.procs[s.lock.value].phase))
    && forall p :: p in s.procs ==> Coherent(s, s.procs[p])
  }

  lemma {:induction false} StepKeepsInv(s: State, step: Step)
    requires Inv(s) && Enabled(s, step)
    ensures Inv(Next(s, step))
  {
    var t := Next(s, step);
    forall p | p in t.procs
      ensures Coherent(t, t.procs[p])
      ensures Holds(t.procs[p].phase) ==> t.lock == Some(p)
    {
      assert Coherent(s, s.procs[p]);
    }
  }

  lemma {:induction false} RunKeepsInv(states: seq<State>, steps: seq<Step>, i: nat)
    requires Run(states, steps) && i < |states|
    ensures Inv(states[i])
  {
    if i > 0 {
      RunKeepsInv(states, steps, i - 1);
      StepKeepsInv(states[i - 1], steps[i - 1]);
    }
  }

  /** Safety of every reachable state: calls holding the lock exclude each other; a call mints only
      after the entry it reloaded under the lock was not warm for it; and whatever a call returned is
      complete and carries its own broker's narrowing. */
  lemma {:induction false} FetchIsSafe(states: seq<State>, steps: seq<Step>, i: nat, p: Pid, q: Pid)
    requires Run(states, steps) && i < |states| && p in states[i].procs && q in states[i].procs
    ensures var s := states[i];
            && (Holds(s.procs[p].phase) && Holds(s.procs[q].phase) ==> p == q)
            && (s.procs[p].phase.Mint? ==> !WarmEntry(s.procs[p].config, s.procs[p].phase.reloaded, s.procs[p].phase.at))
            && (s.procs[p].phase.Done? && s.procs[p].phase.outcome.Served? ==>
                  Complete(s.procs[p].phase.outcome.cred) && s.procs[p].phase.outcome.cred.digest == s.procs[p].config.digest)
  {
    RunKeepsInv(states, steps, i);
    assert Coherent(states[i], states[i].procs[p]);
  }

  /** A step that writes another profile's entry. */
  predicate WritesProfile(s: State, step: Step, profile: string) {
    step.WriteOk? && step.p in s.procs && s.procs[step.p].config.profile == profile
  }

  /** A mint for one profile never loses another's entry from a readable cache, whichever calls ran in
      between its reload and its write. */
  lemma {:induction false} StepKeepsOtherEntries(s: State, step: Step, profile: string)
    requires Inv(s) && Enabled(s, step) && s.disk.Some?
    requires !step.Spoil? && !WritesProfile(s, step, profile)
    ensures var t := Next(s, step);
            && t.disk.Some?
            && (profile in t.disk.value <==> profile in s.disk.value)
            && (profile in s.disk.value ==> t.disk.value[profile] == s.disk.value[profile])
  {
    if step.WriteOk? {
      assert Coherent(s, s.procs[step.p]);
    }
  }

  lemma {:induction false} EntryStandsThroughRun(states: seq<State>, steps: seq<Step>, i: nat, j: nat, profile: string)
    requires Run(states, steps) && i <= j < |states|
    requires states[i].disk.Some? && profile in states[i].disk.value
    requires forall k :: i <= k < j ==> !steps[k].Spoil? && !WritesProfile(states[k], steps[k], profile)
    ensures states[j].disk.Some? && profile in states[j].disk.value
    ensures states[j].disk.value[profile] == states[i].disk.value[profile]
    decreases j
  {
    if i < j {
      EntryStandsThroughRun(states, steps, i, j - 1, profile);
      RunKeepsInv(states, steps, j - 1);
      StepKeepsOtherEntries(states[j - 1], steps[j - 1], profile);
    }
  }

  // ---------------------------------------------------------------- what a warm serve asks for

  /** Unset, the lead is ten minutes. */
  lemma {:induction false} LeadMeans(c: Config)
    ensures Lead(c) > 0 && (c.remintLead <= 0 ==> Lead(c) == 10 * 60 * 1_000_000_000) && (c.remintLead > 0 ==> Lead(c) == c.remintLead)
  {}

  /** An entry may be served while it is complete, minted under the caller's own narrowing, and has more than the
      lead to live. */
  predicate Servable(c: Config, cred: Credential, now: int) {
    && cred.accessKey != "" && cred.secret != "" && cred.sessionToken != "" && cred.expiresAtMs > 0
    && cred.digest == c.digest
    && cred.expiresAtMs * 1_000_000 - now > (if c.remintLead > 0 then c.remintLead else 600_000_000_000)
  }

  /** A call starts by reading, whoever holds the lock and without touching it or the file: it returns at once
      exactly when what it read may be served, and else goes to wait for the lock. */
  lemma {:induction false} WarmServeIsLockFree(s: State, p: Pid)
    requires Inv(s) && p in s.procs && s.procs[p].phase.Start?
    ensures Enabled(s, ReadFast(p))
    ensures var t, profile := Next(s, ReadFast(p)), s.procs[p].config.profile;
            && t.lock == s.lock && t.disk == s.disk && t.mints == s.mints
            && if s.disk.Some? && profile in s.disk.value && Servable(s.procs[p].config, s.disk.value[profile], s.now)
               then t.procs[p].phase == Done(Served(s.disk.value[profile], Cached))
               else t.procs[p].phase == WantLock
  {}

  /** Under the lock it reads again: it mints only if what is there now may not be served. */
  lemma {:induction false} ReloadDecides(s: State, p: Pid)
    requires Inv(s) && p in s.procs && s.procs[p].phase.Reload?
    ensures var t, profile := Next(s, ReloadLocked(p)), s.procs[p].config.profile;
            && t.disk == s.disk && t.mints == s.mints
            && if s.disk.Some? && profile in s.disk.value && Servable(s.procs[p].config, s.disk.value[profile], s.now)
               then t.procs[p].phase == Done(Served(s.disk.value[profile], Waited)) && t.lock.None?
               else t.procs[p].phase.Mint? && t.lock == Some(p)
  {}

  /** In every reachable state, only the write of a mint changes a file that can still be read, and then only under
      the lock, at the one profile, to a credential the call is then served. */
  lemma {:induction false} OnlyMintsWrite(states: seq<State>, steps: seq<Step>, i: nat)
    requires Run(states, steps) && i < |steps| && states[i + 1].disk != states[i].disk
    ensures (steps[i].Spoil? && states[i + 1].disk.None?) || steps[i].WriteOk?
    ensures steps[i].WriteOk? ==>
              var s, t, p := states[i], states[i + 1], steps[i].p;
              && p in s.procs && s.lock == Some(p) && t.lock.None? && t.disk.Some?
              && s.procs[p].config.profile in t.disk.value && p in t.procs
              && t.procs[p].phase == Done(Served(t.disk.value[s.procs[p].config.profile], Minted))
              && (s.disk.Some? ==> t.disk.value == s.disk.value[s.procs[p].config.profile := t.disk.value[s.procs[p].config.profile]])
  {
    RunKeepsInv(states, steps, i);
    if steps[i].WriteOk? { assert Coherent(states[i], states[i].procs[steps[i].p]); }
  }

  /** Of a call that reloaded at step i: what it reloaded is what it still holds. */
  lemma {:induction false} HoldsReloaded(states: seq<State>, steps: seq<Step>, p: Pid, i: nat, k: nat)
    requires Run(states, steps) && i < k <= |steps| && steps[i] == ReloadLocked(p)
    requires states[i + 1].procs[p].phase.Mint?
    ensures p in states[k].procs
    ensures match states[k].procs[p].phase
            case Mint(reloaded, _) => reloaded == Loaded(states[i])
            case Write(loaded, _) => loaded == Loaded(states[i])
            case Done(_) => true
            case _ => false
    decreases k
  {
    if k > i + 1 { HoldsReloaded(states, steps, p, i, k - 1); }
  }

  /** A call's write brings back the other profiles' entries it had reloaded, even if the file has become unreadable
      since. */
  lemma {:induction false} WriteRestores(states: seq<State>, steps: seq<Step>, p: Pid, i: nat, k: nat, profile: string)
    requires Run(states, steps) && i < k < |steps| && steps[i] == ReloadLocked(p) && steps[k] == WriteOk(p)
    requires profile in Loaded(states[i]) && profile != states[k].procs[p].config.profile
    ensures states[k + 1].disk.Some? && profile in states[k + 1].disk.value
    ensures states[k + 1].disk.value[profile] == Loaded(states[i])[profile]
  {
    if !states[i + 1].procs[p].phase.Mint? {
      DoneStays(states, steps, p, i + 1, k);
    } else {
      HoldsReloaded(states, steps, p, i, k);
    }
  }

  lemma {:induction false} DoneStays(states: seq<State>, steps: seq<Step>, p: Pid, i: nat, k: nat)
    requires Run(states, steps) && i <= k <= |steps| && p in states[i].procs && states[i].procs[p].phase.Done?
    ensures p in states[k].procs && states[k].procs[p].phase.Done?
    decreases k
  {
    if k > i { DoneStays(states, steps, p, i, k - 1); }
  }

  // ---------------------------------------------------------------- no retry

  predicate ActsFor(step: Step, p: Pid) {
    !step.Spoil? && !step.Pass? && step.p == p
  }

  function Rank(phase: Phase): nat {
    match phase
    case Start => 0
    case WantLock => 1
    case Reload => 2
    case Mint(_, _) => 3
    case Write(_, _) => 4
    case Done(_) => 5
  }

  /** Whatever fails ends the call there: the failure is what it returns, the lock is let go, the file is as it was. */
  lemma {:induction false} FailureEnds(s: State, step: Step)
    requires Inv(s) && Enabled(s, step) && (step.LockFails? || step.MintFails? || step.WriteFails? || step.Die?)
    ensures var t := Next(s, step);
            && step.p in t.procs && t.procs[step.p].phase == Done(Failed)
            && t.lock != Some(step.p) && (s.lock != Some(step.p) ==> t.lock == s.lock)
            && t.disk == s.disk && t.mints == s.mints
  {}

  lemma {:induction false} CallAdvances(s: State, step: Step, p: Pid)
    requires Enabled(s, step) && p in s.procs
    ensures p in Next(s, step).procs
    ensures var before, after := s.procs[p].phase, Next(s, step).procs[p].phase;
            if ActsFor(step, p) then Rank(after) > Rank(before) && (step.MintOk? ==> Rank(before) == 3) else after == before
  {}

  /** The steps a call takes among the first n of a run, and the mints among them. */
  function StepsOf(steps: seq<Step>, p: Pid, n: nat): nat
    requires n <= |steps|
  {
    if n == 0 then 0 else StepsOf(steps, p, n - 1) + if ActsFor(steps[n - 1], p) then 1 else 0
  }

  function MintsOf(steps: seq<Step>, p: Pid, n: nat): nat
    requires n <= |steps|
  {
    if n == 0 then 0 else MintsOf(steps, p, n - 1) + if steps[n - 1].MintOk? && steps[n - 1].p == p then 1 else 0
  }

  /** In every run a call takes five steps at most and mints once at most, whatever the others do and whatever fails. */
  lemma {:induction false} CallIsShort(states: seq<State>, steps: seq<Step>, p: Pid, n: nat)
    requires Run(states, steps) && n <= |steps| && p in states[0].procs
    ensures p in states[n].procs && StepsOf(steps, p, n) <= Rank(states[n].procs[p].phase) <= 5
    ensures MintsOf(steps, p, n) <= (if Rank(states[n].procs[p].phase) > 3 then 1 else 0)
  {
    if n > 0 {
      CallIsShort(states, steps, p, n - 1);
      CallAdvances(states[n - 1], steps[n - 1], p);
    }
  }

  // ---------------------------------------------------------------- one cold episode, one mint

  /** Every call is for one configuration, whose cache entry starts cold. */
  predicate ColdStart(s: State, c: Config) {
    Init(s) && (forall p :: p in s.procs ==> s.procs[p].config == c) && !WarmEntry(c, Loaded(s), s.now)
  }

  /** Nothing fails, nobody else touches the file, and what is minted stays warm until the end. */
  predicate Undisturbed(step: Step, c: Config, end: int) {
    match step
    case LockFails(_) => false
    case MintFails(_) => false
    case WriteFails(_) => false
    case Die(_) => false
    case Spoil => false
    case Pass(now) => now <= end
    case MintOk(_, cred) => Warm(c, cred, end)
    case _ => true
  }

  /** The episode before its mint, and after it with minted credential cred. */
  ghost predicate Before(s: State, c: Config) {
    s.mints == 0 && !WarmEntry(c, Loaded(s), s.now) &&
    forall p :: p in s.procs ==> s.procs[p].config == c && !s.procs[p].phase.Write? && !s.procs[p].phase.Done?
  }

  ghost predicate After(s: State, c: Config, cred: Credential, end: int) {
    && s.mints == 1 && s.now <= end && Warm(c, cred, end)
    && (forall p :: p in s.procs ==>
         && s.procs[p].config == c
         && (s.procs[p].phase.Done? ==> s.procs[p].phase.outcome.Served? && s.procs[p].phase.outcome.cred == cred)
         && (s.procs[p].phase.Write? ==> s.procs[p].phase.minted == cred))
    && if s.lock.Some? && s.lock.value in s.procs && s.procs[s.lock.value].phase.Write?
       then (forall p :: p in s.procs ==> !s.procs[p].phase.Done?) && !WarmEntry(c, Loaded(s), s.now)
       else s.disk.Some? && c.profile in s.disk.value && s.disk.value[c.profile] == cred
            && (forall p :: p in s.procs ==> !s.procs[p].phase.Mint?)
            && (exists p :: p in s.procs && s.procs[p].phase == Done(Served(cred, Minted)))
            && OneMinter(s)
  }

  predicate OneMinter(s: State) {
    forall p, q :: p in s.procs && q in s.procs && IsMinter(s.procs[p]) && IsMinter(s.procs[q]) ==> p == q
  }

  predicate IsMinter(proc: Proc) {
    proc.phase.Done? && proc.phase.outcome.Served? && proc.phase.outcome.decision.Minted?
  }

  lemma {:induction false} WarmUntil(c: Config, cred: Credential, now: int, end: int)
    requires now <= end && Warm(c, cred, end)
    ensures Warm(c, cred, now)
  {}

  lemma {:induction false} BeforeStep(s: State, step: Step, c: Config, end: int) returns (cred: Credential)
    requires Inv(s) && Enabled(s, step) && Before(s, c) && Undisturbed(step, c, end) && s.now <= end
    ensures Next(s, step).now <= end
    ensures Before(Next(s, step), c) || After(Next(s, step), c, cred, end)
  {
    cred := if step.MintOk? then step.cred else Credential("", "", "", 0, "");
  }

  lemma {:induction false} AfterStep(s: State, step: Step, c: Config, cred: Credential, end: int)
    requires Inv(s) && Enabled(s, step) && After(s, c, cred, end) && Undisturbed(step, c, end)
    ensures After(Next(s, step), c, cred, end)
  {
    WarmUntil(c, cred, s.now, end);
    if s.lock.Some? && s.lock.value in s.procs && s.procs[s.lock.value].phase.Write? {
      AfterMintStep(s, step, c, cred, end);
    } else {
      AfterWriteStep(s, step, c, cred, end);
    }
  }

  /** The credential is minted and not yet written. */
  lemma {:induction false} AfterMintStep(s: State, step: Step, c: Config, cred: Credential, end: int)
    requires Inv(s) && Enabled(s, step) && After(s, c, cred, end) && Undisturbed(step, c, end)
    requires s.lock.Some? && s.lock.value in s.procs && s.procs[s.lock.value].phase.Write?
    ensures After(Next(s, step), c, cred, end)
  {
    var t := Next(s, step);
    if step.WriteOk? { assert t.procs[step.p].phase == Done(Served(cred, Minted)); }
  }

  /** The credential is on disk: whoever reads it is served it. */
  lemma {:induction false} AfterWriteStep(s: State, step: Step, c: Config, cred: Credential, end: int)
    requires Inv(s) && Enabled(s, step) && After(s, c, cred, end) && Undisturbed(step, c, end) && Warm(c, cred, s.now)
    requires !(s.lock.Some? && s.lock.value in s.procs && s.procs[s.lock.value].phase.Write?)
    ensures After(Next(s, step), c, cred, end)
  {
    var t := Next(s, step);
    var p :| p in s.procs && s.procs[p].phase == Done(Served(cred, Minted));
    assert t.procs[p].phase == Done(Served(cred, Minted));
  }

  lemma {:induction false} EpisodeInvariant(states: seq<State>, steps: seq<Step>, c: Config, end: int, i: nat) returns (cred: Credential)
    requires Run(states, steps) && ColdStart(states[0], c) && states[0].now <= end && i < |states|
    requires forall k :: 0 <= k < |steps| ==> Undisturbed(steps[k], c, end)
    ensures states[i].now <= end
    ensures Before(states[i], c) || After(states[i], c, cred, end)
  {
    if i == 0 {
      cred := Credential("", "", "", 0, "");
    } else {
      cred := EpisodeInvariant(states, steps, c, end, i - 1);
      RunKeepsInv(states, steps, i - 1);
      if Before(states[i - 1], c) {
        cred := BeforeStep(states[i - 1], steps[i - 1], c, end);
      } else {
        AfterStep(states[i - 1], steps[i - 1], c, cred, end);
      }
    }
  }

  /** However many calls meet a cold cache, and however their steps interleave, there is never a second
      mint; and once they have all returned there was exactly one, by exactly one call, and every call
      was served what it minted. */
  lemma {:induction false} OneMintPerEpisode(states: seq<State>, steps: seq<Step>, c: Config, end: int, i: nat) returns (cred: Credential)
    requires Run(states, steps) && ColdStart(states[0], c) && states[0].now <= end && i < |states|
    requires forall k :: 0 <= k < |steps| ==> Undisturbed(steps[k], c, end)
    ensures states[i].mints <= 1
    ensures states[i].procs.Keys != {} && (forall p :: p in states[i].procs ==> states[i].procs[p].phase.Done?) ==>
              && states[i].mints == 1
              && (exists p :: p in states[i].procs && states[i].procs[p].phase == Done(Served(cred, Minted)))
              && OneMinter(states[i])
              && (forall p :: p in states[i].procs ==>
                    states[i].procs[p].phase.outcome.Served? && states[i].procs[p].phase.outcome.cred == cred)
  {
    cred := EpisodeInvariant(states, steps, c, end, i);
    var s := states[i];
    if s.procs.Keys != {} && forall p :: p in s.procs ==> s.procs[p].phase.Done? {
      var p :| p in s.procs;
      assert s.procs[p].phase.Done?;
    }
  }

  // ---------------------------------------------------------------- the proactive ticker

  function TickInterval(c: Config): int {
    Lead(c) / 2
  }

  /** RemintDue for the configured profile; an unconfigured broker never mints. */
  predicate RemintDue(c: Config, disk: Option<Cache>, now: int) {
    c.profile != "" && !(disk.Some? && WarmEntry(c, disk.value, now))
  }

  /** A re-mint is due for a configured profile exactly while nothing that may be served can be read for it. */
  lemma {:induction false} RemintDueIff(c: Config, disk: Option<Cache>, now: int)
    ensures RemintDue(c, disk, now) <==>
              c.profile != "" && !(disk.Some? && c.profile in disk.value && Servable(c, disk.value[c.profile], now))
  {}

  /** The cache as each tick leaves it: re-minted under this configuration when due, else as found, and
      between two ticks replaced only by other mints. */
  ghost predicate Ticked(c: Config, ticks: seq<int>, found: seq<Option<Cache>>, left: seq<Cache>) {
    && |ticks| == |found| == |left|
    && (forall i :: 0 <= i < |ticks| - 1 ==> 0 <= ticks[i + 1] - ticks[i] <= TickInterval(c))
    && forall i :: 0 <= i < |ticks| ==>
         if RemintDue(c, found[i], ticks[i]) then WarmEntry(c, left[i], ticks[i]) else found[i] == Some(left[i])
  }

  /** Ticking at half the lead, the entry a tick left behind still has half the lead to live when the
      next tick comes: a credential is re-minted well before it could be served dead. */
  lemma {:induction false} TickBeforeExpiry(c: Config, ticks: seq<int>, found: seq<Option<Cache>>, left: seq<Cache>, i: nat, now: int)
    requires c.profile != "" && Ticked(c, ticks, found, left) && i < |ticks|
    requires ticks[i] <= now <= if i + 1 < |ticks| then ticks[i + 1] else ticks[i] + TickInterval(c)
    ensures c.profile in left[i] && Remaining(left[i][c.profile], now) > Lead(c) / 2
  {
    if i + 1 < |ticks| {
      assert 0 <= ticks[i + 1] - ticks[i] <= TickInterval(c);
    }
    assert if RemintDue(c, found[i], ticks[i]) then WarmEntry(c, left[i], ticks[i]) else found[i] == Some(left[i]);
  }
}
