/** What the enforcement gate does over whole runs: its state is explained by the history of
    calls, and enforcement always traces back to one admitted mode change. */
module GateHistory {

  import opened EnforcementGate

  type History = seq<Call>

  /** The state after a history of calls. */
  function Run(o: Options, h: History): State {
    if h == [] then Initial(o) else Step(o, Run(o, h[..|h| - 1]), h[|h| - 1])
  }

  lemma RunSnoc(o: Options, h: History, c: Call)
    ensures Run(o, h + [c]) == Step(o, Run(o, h), c)
  {
    assert (h + [c])[..|h|] == h;
  }

  // ---------------------------------------------------------------- closed

  /** A close that no later call reopened. */
  ghost predicate ClosedBy(h: History) {
    exists i :: 0 <= i < |h| && h[i] == Close && forall j :: i < j < |h| ==> h[j] != Reopen
  }

  lemma ClosedByLast(h: History)
    requires h != []
    ensures var n := |h| - 1; ClosedBy(h) <==> h[n] == Close || (h[n] != Reopen && ClosedBy(h[..n]))
  {
    var n := |h| - 1;
    var p := h[..n];
    assert forall j :: 0 <= j < n ==> p[j] == h[j];
    if ClosedBy(p) && h[n] != Reopen {
      var i :| 0 <= i < |p| && p[i] == Close && forall j :: i < j < |p| ==> p[j] != Reopen;
      assert h[i] == Close;
    }
    if ClosedBy(h) {
      var i :| 0 <= i < |h| && h[i] == Close && forall j :: i < j < |h| ==> h[j] != Reopen;
      assert i < n ==> p[i] == Close;
    }
  }

  lemma {:induction false} ClosedIff(o: Options, h: History)
    ensures Run(o, h).closed <==> ClosedBy(h)
  {
    if h == [] {
    } else {
      ClosedIff(o, h[..|h| - 1]);
      ClosedByLast(h);
    }
  }

  // ---------------------------------------------------------------- bypassed

  /** The right token was presented and not cleared since. */
  ghost predicate BypassedBy(o: Options, h: History) {
    && o.bypassEnabled
    && exists i :: 0 <= i < |h| && h[i] == EmergencyBypass(o.bypassToken)
         && forall j :: i < j < |h| ==> h[j] != ClearEmergencyBypass(o.bypassToken)
  }

  lemma BypassedByLast(o: Options, h: History)
    requires h != []
    ensures var p, c := h[..|h| - 1], h[|h| - 1];
      BypassedBy(o, h) <==>
        && o.bypassEnabled
        && (c == EmergencyBypass(o.bypassToken) || (BypassedBy(o, p) && c != ClearEmergencyBypass(o.bypassToken)))
  {
    var p, c, t := h[..|h| - 1], h[|h| - 1], o.bypassToken;
    assert forall j :: 0 <= j < |p| ==> p[j] == h[j];
    if c == EmergencyBypass(t) {
      assert h[|h| - 1] == EmergencyBypass(t);
    } else if c != ClearEmergencyBypass(t) && BypassedBy(o, p) {
      var i :| 0 <= i < |p| && p[i] == EmergencyBypass(t) && forall j :: i < j < |p| ==> p[j] != ClearEmergencyBypass(t);
      assert h[i] == EmergencyBypass(t);
    }
    if BypassedBy(o, h) {
      var i :| 0 <= i < |h| && h[i] == EmergencyBypass(t) && forall j :: i < j < |h| ==> h[j] != ClearEmergencyBypass(t);
      assert c == EmergencyBypass(t) || p[i] == EmergencyBypass(t);
    }
  }

  lemma {:induction false} BypassedIff(o: Options, h: History)
    ensures Run(o, h).bypassSet == if BypassedBy(o, h) then {o.bypassToken} else {}
  {
    if h == [] {
    } else {
      BypassedIff(o, h[..|h| - 1]);
      BypassedByLast(o, h);
    }
  }

  // ---------------------------------------------------------------- comparison thresholds

  /** The comparison results recorded since the last reset. */
  function Results(h: History): seq<bool> {
    if h == [] then []
    else
      var before := Results(h[..|h| - 1]);
      match h[|h| - 1]
      case RecordComparisonResult(matched) => before + [matched]
      case ResetComparisonResults => []
      case _ => before
  }

  function Matches(r: seq<bool>): nat {
    if r == [] then 0 else Matches(r[..|r| - 1]) + (if r[|r| - 1] then 1 else 0)
  }

  /** How many results at the end are matches. */
  function Trailing(r: seq<bool>): nat {
    if r == [] || !r[|r| - 1] then 0 else 1 + Trailing(r[..|r| - 1])
  }

  /** The last result is a match, the matches at the end are enough, and the share of matches is
      at least the required percentage. */
  predicate MeetsThresholds(o: Options, r: seq<bool>) {
    && r != [] && r[|r| - 1]
    && Trailing(r) >= o.thresholdCount
    && 100 * Matches(r) >= o.thresholdPercentage * |r|
  }

  lemma {:induction false} ResultBounds(r: seq<bool>)
    ensures Trailing(r) <= Matches(r) <= |r|
  {
    if r == [] {
    } else {
      ResultBounds(r[..|r| - 1]);
    }
  }

  /** A further match cannot undo the thresholds. */
  lemma MatchPreserves(o: Options, r: seq<bool>)
    requires ValidOptions(o) && MeetsThresholds(o, r)
    ensures MeetsThresholds(o, r + [true])
  {
    assert (r + [true])[..|r|] == r;
    assert o.thresholdPercentage * (|r| + 1) == o.thresholdPercentage * |r| + o.thresholdPercentage;
  }

  function Summary(o: Options, r: seq<bool>): Comparison {
    Comparison(|r|, Matches(r), Trailing(r), MeetsThresholds(o, r))
  }

  lemma SummaryStep(o: Options, r: seq<bool>, matched: bool)
    requires ValidOptions(o)
    ensures ComparisonAfter(o, Summary(o, r), RecordComparisonResult(matched)) == Summary(o, r + [matched])
  {
    var now := r + [matched];
    assert now[..|r|] == r && now[|r|] == matched;
    if matched && MeetsThresholds(o, r) {
      MatchPreserves(o, r);
    }
  }

  /** The counters are those of the results, and the threshold flag is raised if and only if the
      results meet both thresholds. */
  lemma {:induction false} ThresholdIff(o: Options, h: History)
    requires ValidOptions(o)
    ensures Run(o, h).comparison == Summary(o, Results(h))
  {
    if h == [] {
    } else {
      var p, c := h[..|h| - 1], h[|h| - 1];
      ThresholdIff(o, p);
      if c.RecordComparisonResult? {
        SummaryStep(o, Results(p), c.matched);
      }
    }
  }

  lemma CountersOrdered(o: Options, h: History)
    requires ValidOptions(o)
    ensures Run(o, h).comparison.consecutive <= Run(o, h).comparison.matches <= Run(o, h).comparison.total
  {
    ThresholdIff(o, h);
    ResultBounds(Results(h));
  }

  // ---------------------------------------------------------------- the mode

  /** Whether a change to `m` is let through after the history. */
  ghost predicate Admitted(o: Options, h: History, m: Mode) {
    && !ClosedBy(h)
    && (m == Enforce || m == DryRun || m == Canary ==>
          o.allowEnforcement && (o.requireThreshold ==> MeetsThresholds(o, Results(h))))
  }

  lemma AdmittedIff(o: Options, h: History, m: Mode)
    requires ValidOptions(o)
    ensures SetModeAllowed(o, Run(o, h), m) <==> Admitted(o, h, m)
  {
    ClosedIff(o, h);
    ThresholdIff(o, h);
  }

  /** Call `i` installs mode `m`. */
  ghost predicate Installs(o: Options, h: History, i: nat, m: Mode)
    requires i < |h|
  {
    match h[i]
    case SetMode(n, now) => n == m && Admitted(o, h[..i], n)
    case DisableEnforcement => m == Shadow
    case AutoRevertIfNeeded(now) => m == Shadow && Reverts(o, Run(o, h[..i]), now)
    case _ => false
  }

  ghost predicate InstallsSome(o: Options, h: History, i: nat)
    requires i < |h|
  {
    exists m :: Installs(o, h, i, m)
  }

  /** Call `i` installs the mode and no later call installs another. */
  ghost predicate LastInstall(o: Options, h: History, i: nat, m: Mode) {
    i < |h| && Installs(o, h, i, m) && forall j :: i < j < |h| ==> !InstallsSome(o, h, j)
  }

  lemma InstallsPrefix(o: Options, h: History, n: nat, i: nat, m: Mode)
    requires i < n <= |h|
    ensures Installs(o, h[..n], i, m) == Installs(o, h, i, m)
  {
    assert h[..n][..i] == h[..i];
  }

  lemma InstallsSomePrefix(o: Options, h: History, n: nat, i: nat)
    requires i < n <= |h|
    ensures InstallsSome(o, h[..n], i) == InstallsSome(o, h, i)
  {
    if InstallsSome(o, h, i) {
      var m :| Installs(o, h, i, m);
      InstallsPrefix(o, h, n, i, m);
    }
    if InstallsSome(o, h[..n], i) {
      var m :| Installs(o, h[..n], i, m);
      InstallsPrefix(o, h, n, i, m);
    }
  }

  /** The mode and the time of the last call decide what it installs. */
  lemma StepInstalls(o: Options, h: History)
    requires ValidOptions(o) && h != []
    ensures var p := h[..|h| - 1];
      if InstallsSome(o, h, |h| - 1) then Installs(o, h, |h| - 1, Run(o, h).mode)
      else Run(o, h).mode == Run(o, p).mode && Run(o, h).enabledAt == Run(o, p).enabledAt
  {
    var p, c := h[..|h| - 1], h[|h| - 1];
    if c.SetMode? {
      AdmittedIff(o, p, c.mode);
      assert Admitted(o, p, c.mode) ==> Installs(o, h, |h| - 1, c.mode);
    } else if c.DisableEnforcement? {
      assert Installs(o, h, |h| - 1, Shadow);
    } else if c.AutoRevertIfNeeded? {
      assert Reverts(o, Run(o, p), c.now) ==> Installs(o, h, |h| - 1, Shadow);
    }
  }

  lemma LastInstallStays(o: Options, h: History, i: nat, m: Mode)
    requires h != [] && LastInstall(o, h[..|h| - 1], i, m) && !InstallsSome(o, h, |h| - 1)
    ensures LastInstall(o, h, i, m)
  {
    var n := |h| - 1;
    InstallsPrefix(o, h, n, i, m);
    forall j | i < j < n ensures !InstallsSome(o, h, j) {
      InstallsSomePrefix(o, h, n, j);
    }
  }

  lemma NoneInstalls(o: Options, h: History)
    requires h != [] && !InstallsSome(o, h, |h| - 1)
    requires var p := h[..|h| - 1]; forall j :: 0 <= j < |p| ==> !InstallsSome(o, p, j)
    ensures forall j :: 0 <= j < |h| ==> !InstallsSome(o, h, j)
  {
    var n := |h| - 1;
    forall j | 0 <= j < n ensures !InstallsSome(o, h, j) {
      InstallsSomePrefix(o, h, n, j);
    }
  }

  /** The mode is the initial one until a call installs another, and then the one installed
      last. */
  lemma {:induction false} ModeIsLastInstalled(o: Options, h: History)
    requires ValidOptions(o)
    ensures (exists i :: LastInstall(o, h, i, Run(o, h).mode))
      || (Run(o, h).mode == o.initialMode && forall j :: 0 <= j < |h| ==> !InstallsSome(o, h, j))
  {
    if h == [] {
    } else {
      var n := |h| - 1;
      var p, m := h[..n], Run(o, h).mode;
      ModeIsLastInstalled(o, p);
      StepInstalls(o, h);
      if InstallsSome(o, h, n) {
        assert LastInstall(o, h, n, m);
      } else {
        if i: nat :| LastInstall(o, p, i, m) {
          LastInstallStays(o, h, i, m);
        } else {
          NoneInstalls(o, h);
        }
      }
    }
  }

  // ---------------------------------------------------------------- where enforcement comes from

  /** The enforcing mode was installed by call `i`, a mode change made while the gate was open,
      with enforcement allowed and the comparison results meeting the thresholds if required,
      and no call since has installed another mode. */
  ghost predicate Justified(o: Options, h: History, i: nat) {
    && i < |h| && h[i].SetMode? && h[i].mode == Run(o, h).mode
    && !ClosedBy(h[..i])
    && o.allowEnforcement
    && (o.requireThreshold ==> MeetsThresholds(o, Results(h[..i])))
    && forall j :: i < j < |h| ==> !InstallsSome(o, h, j)
  }

  ghost predicate IsJustified(o: Options, h: History) {
    exists i :: Justified(o, h, i)
  }

  /** In every run, an enforcing mode is justified, unless it is the initial mode and nothing
      was installed since. */
  lemma EnforcementJustified(o: Options, h: History)
    requires ValidOptions(o) && Enforcing(Run(o, h).mode)
    ensures IsJustified(o, h)
      || (Run(o, h).mode == o.initialMode && forall j :: 0 <= j < |h| ==> !InstallsSome(o, h, j))
  {
    ModeIsLastInstalled(o, h);
    if i: nat :| LastInstall(o, h, i, Run(o, h).mode) {
      assert Justified(o, h, i);
    }
  }

  /** Every enforcing mode of every run is justified if and only if the initial mode is not an
      enforcing one. */
  lemma JustifiedIffStartsSafe(o: Options)
    requires ValidOptions(o)
    ensures (forall h :: Enforcing(Run(o, h).mode) ==> IsJustified(o, h)) <==> !Enforcing(o.initialMode)
  {
    if Enforcing(o.initialMode) {
      assert Run(o, []).mode == o.initialMode;
      assert !IsJustified(o, []);
    } else {
      forall h | Enforcing(Run(o, h).mode) ensures IsJustified(o, h) {
        EnforcementJustified(o, h);
      }
    }
  }

  // ---------------------------------------------------------------- automatic disabling

  function Mismatches(h: History): nat {
    if h == [] then 0
    else
      match h[|h| - 1]
      case RecordMismatch => Mismatches(h[..|h| - 1]) + 1
      case ClearMismatches => 0
      case _ => Mismatches(h[..|h| - 1])
  }

  function Decisions(h: History): nat {
    if h == [] then 0 else Decisions(h[..|h| - 1]) + (if h[|h| - 1] == RecordDecision then 1 else 0)
  }

  lemma {:induction false} CountsAre(o: Options, h: History)
    ensures Run(o, h).mismatchCount == Mismatches(h) && Run(o, h).decisions == Decisions(h)
  {
    if h == [] {
    } else {
      CountsAre(o, h[..|h| - 1]);
    }
  }

  /** Call `i` records a mismatch that takes the rate above the threshold. */
  ghost predicate Trips(o: Options, h: History, i: nat)
    requires i < |h|
  {
    && h[i] == RecordMismatch && o.autoDisableThreshold > 0 && Decisions(h[..i]) > 0
    && 100 * Mismatches(h[..i + 1]) > o.autoDisableThreshold * Decisions(h[..i])
  }

  /** Call `i` clears automatic disabling. */
  ghost predicate Rearms(o: Options, h: History, i: nat)
    requires i < |h|
  {
    match h[i]
    case SetMode(m, now) => (m == Shadow || Enforcing(m)) && Admitted(o, h[..i], m)
    case DisableEnforcement => true
    case ClearMismatches => true
    case _ => false
  }

  ghost predicate DisabledBy(o: Options, h: History) {
    exists i :: 0 <= i < |h| && Trips(o, h, i) && forall j :: i < j < |h| ==> !Rearms(o, h, j)
  }

  lemma PrefixEvents(o: Options, h: History, n: nat, i: nat)
    requires i < n <= |h|
    ensures Trips(o, h[..n], i) == Trips(o, h, i)
    ensures Rearms(o, h[..n], i) == Rearms(o, h, i)
  {
    assert h[..n][..i] == h[..i] && h[..n][..i + 1] == h[..i + 1];
  }

  lemma StepDisables(o: Options, h: History)
    requires ValidOptions(o) && h != []
    ensures var n := |h| - 1;
      Run(o, h).autoDisabled <==> Trips(o, h, n) || (Run(o, h[..n]).autoDisabled && !Rearms(o, h, n))
  {
    var p, c := h[..|h| - 1], h[|h| - 1];
    CountsAre(o, p);
    assert h[..|h|] == h;
    if c.SetMode? {
      AdmittedIff(o, p, c.mode);
    }
  }

  lemma DisabledByLast(o: Options, h: History)
    requires h != []
    ensures var n := |h| - 1;
      DisabledBy(o, h) <==> Trips(o, h, n) || (DisabledBy(o, h[..n]) && !Rearms(o, h, n))
  {
    var n := |h| - 1;
    var p := h[..n];
    forall i | 0 <= i < n ensures Trips(o, p, i) == Trips(o, h, i) && Rearms(o, p, i) == Rearms(o, h, i) {
      PrefixEvents(o, h, n, i);
    }
    if DisabledBy(o, p) && !Rearms(o, h, n) {
      var i :| 0 <= i < |p| && Trips(o, p, i) && forall j :: i < j < |p| ==> !Rearms(o, p, j);
      assert Trips(o, h, i);
    }
    if DisabledBy(o, h) {
      var i :| 0 <= i < |h| && Trips(o, h, i) && forall j :: i < j < |h| ==> !Rearms(o, h, j);
      assert i < n ==> Trips(o, p, i);
    }
  }

  /** The gate is automatically disabled if and only if some recorded mismatch took the rate
      above the threshold and nothing rearmed it since. */
  lemma {:induction false} DisabledIff(o: Options, h: History)
    requires ValidOptions(o)
    ensures Run(o, h).autoDisabled <==> DisabledBy(o, h)
  {
    if h == [] {
    } else {
      DisabledIff(o, h[..|h| - 1]);
      StepDisables(o, h);
      DisabledByLast(o, h);
    }
  }

  /** While disabled there is at least one mismatch, and the threshold is positive. */
  lemma {:induction false} DisabledHasCause(o: Options, h: History)
    requires Run(o, h).autoDisabled
    ensures Run(o, h).mismatchCount > 0 && o.autoDisableThreshold > 0
  {
    var p := h[..|h| - 1];
    if Run(o, p).autoDisabled {
      DisabledHasCause(o, p);
    }
  }

  // ---------------------------------------------------------------- enforcement over whole runs

  /** A request is enforced only in an open gate, with no active bypass, not disabled, and in a
      mode that an admitted change installed; and whenever all that holds the gate enforces. */
  lemma ShouldEnforceIff(o: Options, h: History)
    requires ValidOptions(o) && !Enforcing(o.initialMode)
    ensures Enforces(Run(o, h)) <==>
      && !ClosedBy(h) && !BypassedBy(o, h) && !DisabledBy(o, h) && IsJustified(o, h)
      && (Run(o, h).mode == Enforce || Run(o, h).mode == DryRun || Run(o, h).mode == Canary)
  {
    ClosedIff(o, h);
    BypassedIff(o, h);
    DisabledIff(o, h);
    if Enforcing(Run(o, h).mode) {
      EnforcementJustified(o, h);
    }
  }

  /** While the gate is closed a call can move the mode only to shadow. */
  lemma ClosedOnlyToShadow(o: Options, h: History, c: Call)
    requires ClosedBy(h)
    ensures Run(o, h + [c]).mode == Run(o, h).mode || Run(o, h + [c]).mode == Shadow
  {
    ClosedIff(o, h);
    RunSnoc(o, h, c);
  }

  /** The time kept with an enforcing mode is that of the call that installed it. */
  lemma {:induction false} EnabledSince(o: Options, h: History, i: nat)
    requires ValidOptions(o) && LastInstall(o, h, i, Run(o, h).mode) && Enforcing(Run(o, h).mode)
    ensures h[i].SetMode? && Run(o, h).enabledAt == h[i].now
  {
    var n := |h| - 1;
    if i == n {
      AdmittedIff(o, h[..n], h[n].mode);
    } else {
      StepInstalls(o, h);
      InstallsPrefix(o, h, n, i, Run(o, h).mode);
      forall j | i < j < n ensures !InstallsSome(o, h[..n], j) {
        InstallsSomePrefix(o, h, n, j);
      }
      EnabledSince(o, h[..n], i);
    }
  }

  /** After a duration check an enforcing mode was installed no longer ago than the limit. */
  lemma RevertBoundsDuration(o: Options, h: History, now: int)
    requires ValidOptions(o) && !Enforcing(o.initialMode) && o.maxDuration != 0
    ensures var r := h + [AutoRevertIfNeeded(now)];
      Enforcing(Run(o, r).mode) ==> exists i: nat :: Justified(o, r, i) && now - r[i].now <= o.maxDuration
  {
    var r := h + [AutoRevertIfNeeded(now)];
    RunSnoc(o, h, AutoRevertIfNeeded(now));
    if Enforcing(Run(o, r).mode) {
      EnforcementJustified(o, r);
      var i :| Justified(o, r, i);
      assert Installs(o, r, i, Run(o, r).mode);
      EnabledSince(o, r, i);
    }
  }

  /** A duration check leaves an enforcing mode if and only if there is no limit or the change that
      installed it is no older than the limit; otherwise it puts the gate in shadow mode. */
  lemma RevertsIff(o: Options, h: History, now: int)
    requires ValidOptions(o) && !Enforcing(o.initialMode) && Enforcing(Run(o, h).mode)
    ensures var m, n := Run(o, h).mode, Run(o, h + [AutoRevertIfNeeded(now)]).mode;
      && (n == m || n == Shadow)
      && (n == m <==>
           o.maxDuration == 0 || exists i: nat :: LastInstall(o, h, i, m) && h[i].SetMode? && now - h[i].now <= o.maxDuration)
  {
    RunSnoc(o, h, AutoRevertIfNeeded(now));
    ModeIsLastInstalled(o, h);
    forall i: nat | LastInstall(o, h, i, Run(o, h).mode) ensures h[i].SetMode? && Run(o, h).enabledAt == h[i].now {
      EnabledSince(o, h, i);
    }
  }

  // ---------------------------------------------------------------- which requests are enforced

  /** The same letter, ASCII case aside. */
  predicate SameLetter(c: char, d: char) {
    || c == d
    || ('a' <= c <= 'z' && c as int - d as int == 32)
    || ('A' <= c <= 'Z' && d as int - c as int == 32)
  }

  predicate SameLetters(a: string, b: string) {
    |a| == |b| && forall i :: 0 <= i < |a| ==> SameLetter(a[i], b[i])
  }

  lemma {:induction false} UpperIff(a: string, b: string)
    ensures Upper(a) == Upper(b) <==> SameLetters(a, b)
  {
    if a == "" || b == "" {
    } else {
      UpperIff(a[1..], b[1..]);
      assert forall i :: 1 <= i < |a| ==> a[i] == a[1..][i - 1];
      assert forall i :: 1 <= i < |b| ==> b[i] == b[1..][i - 1];
      assert SameLetters(a, b) <==> SameLetter(a[0], b[0]) && SameLetters(a[1..], b[1..]);
      assert Upper(a)[1..] == Upper(a[1..]) && Upper(b)[1..] == Upper(b[1..]);
    }
  }

  /** The text as a whole fits the pattern, whose wildcards cover anything but a newline. */
  predicate Matched(pattern: string, text: string) {
    GlobPattern.GlobAccepts(pattern, text, {'\n'})
  }

  /** Outside canary mode an enforcing gate enforces exactly the requests whose method, parsed path and
      host are each listed, a list that is empty listing everything. */
  lemma EnforcedOutsideCanaryIff(o: Options, h: History, r: HttpRequest)
    requires Enforces(Run(o, h)) && Run(o, h).mode != Canary
    ensures EnforcedFor(o, Run(o, h), r) <==>
      && (o.methodAllowlist == [] || exists i :: 0 <= i < |o.methodAllowlist| && SameLetters(o.methodAllowlist[i], r.verb))
      && (o.resourceAllowlist == [] || r.parsedPath.Some?)
      && (o.resourceAllowlist == [] || exists i :: 0 <= i < |o.resourceAllowlist| && Matched(o.resourceAllowlist[i], r.parsedPath.value))
      && (o.storageAllowlist == [] || exists i :: 0 <= i < |o.storageAllowlist| && Matched(o.storageAllowlist[i], r.host))
  {
    forall i | 0 <= i < |o.methodAllowlist|
      ensures Upper(o.methodAllowlist[i]) == Upper(r.verb) <==> SameLetters(o.methodAllowlist[i], r.verb)
    {
      UpperIff(o.methodAllowlist[i], r.verb);
    }
  }

  /** In canary mode it enforces exactly the requests that the configured strategy picks: by number,
      by header or by path. */
  lemma EnforcedInCanaryIff(o: Options, h: History, r: HttpRequest)
    requires Enforces(Run(o, h)) && Run(o, h).mode == Canary
    ensures EnforcedFor(o, Run(o, h), r) <==>
      && o.canaryEnabled
      && (o.canaryMode == Percentage ==> (CanaryRequests(o, h) + 1) % 100 < o.canaryPercentage)
      && (o.canaryMode == Header ==> o.canaryHeaderName != "" && r.header == o.canaryHeaderValue)
      && (o.canaryMode == Path ==>
            exists i :: 0 <= i < |o.canaryPaths| && Matched(o.canaryPaths[i], r.path))
      && !o.canaryMode.OtherCanary?
  {
    RequestsCounted(o, h);
  }

  /** How many requests were put to the percentage strategy. */
  function CanaryRequests(o: Options, h: History): nat {
    if h == [] then 0
    else
      var front, c := h[..|h| - 1], h[|h| - 1];
      CanaryRequests(o, front)
      + if c.SelectRequest? && Run(o, front).mode == Canary && o.canaryEnabled && o.canaryMode == Percentage then 1 else 0
  }

  lemma {:induction false} RequestsCounted(o: Options, h: History)
    ensures Run(o, h).canary.requests == CanaryRequests(o, h)
  {
    if h == [] {
    } else {
      RequestsCounted(o, h[..|h| - 1]);
    }
  }

  /** In every run the canary counters follow the quota exactly, and enforced and shadowed
      requests add up. */
  lemma {:induction false} CanaryCountersFollowQuota(o: Options, h: History)
    ensures var s := Run(o, h);
      && s.canary.enforced == CanaryQuota.EnforcedAmong(0, s.canary.requests, o.canaryPercentage)
      && s.canary.enforced + s.canary.shadowed == s.canary.requests
  {
    if h == [] {
    } else {
      CanaryCountersFollowQuota(o, h[..|h| - 1]);
    }
  }

  // ---------------------------------------------------------------- a request judged in two parts

  /** Calls after a run extend it. */
  lemma {:induction false} RunFromRun(o: Options, h: History, t: History)
    ensures RunFrom(o, Run(o, h), t) == Run(o, h + t)
  {
    if t == [] {
      assert h + t == h;
    } else {
      RunFromRun(o, h, t[..|t| - 1]);
      assert (h + t)[..|h + t| - 1] == h + t[..|t| - 1];
    }
  }

  /** The answer, asked after the first `i` calls and given after all of them, is the decision of some
      state from the one to the other. */
  ghost predicate Explained(o: Options, h: History, i: nat, r: HttpRequest)
    requires i <= |h|
  {
    exists n :: i <= n <= |h| && AnswerAcross(o, Run(o, h[..i]), Run(o, h), r) == EnforcedFor(o, Run(o, h[..n]), r)
  }

  predicate InCanary(o: Options, r: HttpRequest) {
    match o.canaryMode
    case Percentage => o.canaryPercentage == 100
    case Header => o.canaryHeaderName != "" && r.header == o.canaryHeaderValue
    case Path => AnyMatches(o.canaryPaths, r.path)
    case OtherCanary(_) => false
  }

  /** Canary mode selects the request whenever it is asked. */
  predicate AlwaysCanary(o: Options, r: HttpRequest) {
    o.canaryEnabled && InCanary(o, r)
  }

  /** Canary mode never selects the request. */
  predicate NeverCanary(o: Options, r: HttpRequest) {
    !o.canaryEnabled || (if o.canaryMode == Percentage then o.canaryPercentage == 0 else !InCanary(o, r))
  }

  /** Some run reaches canary mode. */
  predicate CanaryReachable(o: Options) {
    o.allowEnforcement || o.initialMode == Canary
  }

  /** Where canary mode can be reached it always selects the request, and either so do the lists, or
      it cannot be entered under a bypass; or neither canary mode nor the lists ever select it. */
  predicate SafeAcross(o: Options, r: HttpRequest) {
    CanaryReachable(o) ==>
      || (AlwaysCanary(o, r) && (Allowlisted(o, r) || !o.allowEnforcement || !o.bypassEnabled))
      || (NeverCanary(o, r) && !Allowlisted(o, r))
  }

  lemma SelectedIs(o: Options, s: State, r: HttpRequest)
    requires ValidOptions(o)
    ensures s.mode != Canary ==> Selected(o, s, r) == Allowlisted(o, r)
    ensures s.mode == Canary && AlwaysCanary(o, r) ==> Selected(o, s, r)
    ensures s.mode == Canary && NeverCanary(o, r) ==> !Selected(o, s, r)
  {
  }

  /** Without enforcement allowed canary mode is never entered. */
  lemma {:induction false} CanaryNotEntered(o: Options, h: History, i: nat)
    requires !o.allowEnforcement && i <= |h|
    ensures Run(o, h).mode == Canary ==> Run(o, h[..i]).mode == Canary
  {
    if i == |h| {
      assert h[..i] == h;
    } else {
      var n := |h| - 1;
      CanaryNotEntered(o, h[..n], i);
      assert h[..n][..i] == h[..i];
    }
  }

  /** A run that ends in canary mode and does not begin in it has a call that enters it. */
  lemma {:induction false} CanaryEntered(o: Options, h: History, i: nat) returns (n: nat)
    requires i <= |h| && Run(o, h[..i]).mode != Canary && Run(o, h).mode == Canary
    ensures i < n <= |h| && Run(o, h[..n]).mode == Canary && Run(o, h[..n - 1]).mode != Canary
  {
    assert h[..|h|] == h;
    var m := |h| - 1;
    if Run(o, h[..m]).mode != Canary {
      n := |h|;
    } else {
      assert h[..m][..i] == h[..i];
      n := CanaryEntered(o, h[..m], i);
      assert h[..m][..n] == h[..n] && h[..m][..n - 1] == h[..n - 1];
    }
  }

  /** Without a bypass the gate enforces at the moment it enters canary mode. */
  lemma EnteredEnforces(o: Options, h: History)
    requires !o.bypassEnabled && h != [] && Run(o, h).mode == Canary && Run(o, h[..|h| - 1]).mode != Canary
    ensures Enforces(Run(o, h))
  {
    BypassedIff(o, h);
  }

  lemma SafeExplained(o: Options, h: History, i: nat, r: HttpRequest)
    requires ValidOptions(o) && SafeAcross(o, r) && i <= |h|
    ensures Explained(o, h, i, r)
  {
    var s, t := Run(o, h[..i]), Run(o, h);
    assert h[..|h|] == h;
    SelectedIs(o, s, r);
    SelectedIs(o, t, r);
    if !Enforces(s) || Selected(o, s, r) == Selected(o, t, r) {
      assert AnswerAcross(o, s, t, r) == EnforcedFor(o, Run(o, h[..i]), r);
    } else if !Selected(o, t, r) {
      assert AnswerAcross(o, s, t, r) == EnforcedFor(o, Run(o, h[..|h|]), r);
    } else {
      assert s.mode == Canary || t.mode == Canary;
      EnteringExplained(o, h, i, r);
    }
  }

  lemma EnteringExplained(o: Options, h: History, i: nat, r: HttpRequest)
    requires ValidOptions(o) && SafeAcross(o, r) && i <= |h|
    requires Enforces(Run(o, h[..i])) && !Selected(o, Run(o, h[..i]), r) && Selected(o, Run(o, h), r)
    ensures Explained(o, h, i, r)
  {
    var s, t := Run(o, h[..i]), Run(o, h);
    SelectedIs(o, s, r);
    SelectedIs(o, t, r);
    if !CanaryReachable(o) {
      NoCanary(o, h);
      NoCanary(o, h[..i]);
    } else {
      assert AlwaysCanary(o, r) && !Allowlisted(o, r) && s.mode != Canary && t.mode == Canary;
      if !o.allowEnforcement {
        CanaryNotEntered(o, h, i);
      } else {
        var n := CanaryEntered(o, h, i);
        assert h[..n][..n - 1] == h[..n - 1];
        EnteredEnforces(o, h[..n]);
        SelectedIs(o, Run(o, h[..n]), r);
        assert EnforcedFor(o, Run(o, h[..n]), r);
      }
    }
  }

  lemma NoCanary(o: Options, h: History)
    requires !CanaryReachable(o)
    ensures Run(o, h).mode != Canary
  {
    CanaryNotEntered(o, h, 0);
    assert h[..0] == [];
  }

  // ---------------------------------------------------------------- runs that no state explains

  /** So many matching comparisons. */
  function Comparisons(n: nat): History {
    seq(n, _ => RecordComparisonResult(true))
  }

  lemma EnoughMatches(o: Options, n: nat)
    requires ValidOptions(o) && n > 0
    ensures CountersMeet(o, n, n, n) <==> n >= o.thresholdCount
  {
    assert o.thresholdPercentage * n <= 100 * n;
  }

  lemma {:induction false} AfterComparisons(o: Options, n: nat)
    requires ValidOptions(o)
    ensures Run(o, Comparisons(n)) == Initial(o).(comparison := Comparison(n, n, n, n > 0 && n >= o.thresholdCount))
  {
    if n == 0 {
    } else {
      AfterComparisons(o, n - 1);
      RunSnoc(o, Comparisons(n - 1), RecordComparisonResult(true));
      assert Comparisons(n) == Comparisons(n - 1) + [RecordComparisonResult(true)];
      EnoughMatches(o, n);
    }
  }

  /** An enforcing mode is reached, with the gate enforcing, if it is the initial one or enforcement
      is allowed. */
  lemma Reaches(o: Options, m: Mode) returns (h: History)
    requires ValidOptions(o) && Enforcing(m) && (o.allowEnforcement || o.initialMode == m)
    ensures var s := Run(o, h);
      s.mode == m && Enforces(s) && s.canary == CanaryCounts(0, 0, 0) && (o.allowEnforcement ==> s.comparison.met)
  {
    if !o.allowEnforcement {
      h := [];
    } else {
      var before := Comparisons(o.thresholdCount + 1);
      AfterComparisons(o, o.thresholdCount + 1);
      RunSnoc(o, before, SetMode(m, 0));
      h := before + [SetMode(m, 0)];
    }
  }

  /** A run in which the gate, asked after the first `i` calls, enforces the request although no state
      since does. */
  ghost predicate Unexplained(o: Options, h: History, i: nat, r: HttpRequest) {
    && i <= |h| && AnswerAcross(o, Run(o, h[..i]), Run(o, h), r)
    && forall n :: i <= n <= |h| ==> !EnforcedFor(o, Run(o, h[..n]), r)
  }

  lemma OneBetween(o: Options, h: History, a: Call, r: HttpRequest)
    requires Enforces(Run(o, h)) && !Selected(o, Run(o, h), r)
    requires var s := Step(o, Run(o, h), a); !Enforces(s) && Selected(o, s, r)
    ensures Unexplained(o, h + [a], |h|, r)
  {
    var t := h + [a];
    RunSnoc(o, h, a);
    assert t[..|h|] == h && t[..|t|] == t;
  }

  lemma TwoBetween(o: Options, h: History, a: Call, b: Call, r: HttpRequest)
    requires Enforces(Run(o, h)) && !Selected(o, Run(o, h), r)
    requires var s := Step(o, Run(o, h), a); !Enforces(s) && !Enforces(Step(o, s, b)) && Selected(o, Step(o, s, b), r)
    ensures Unexplained(o, h + [a] + [b], |h|, r)
  {
    var t := h + [a];
    var u := t + [b];
    RunSnoc(o, h, a);
    RunSnoc(o, t, b);
    assert u[..|h|] == h && u[..|t|] == t && u[..|u|] == u;
  }

  /** A gate in canary mode is disabled in between, and the lists select what the canary did not. */
  lemma DisabledBetween(o: Options, h: History, r: HttpRequest)
    requires var s := Run(o, h); s.mode == Canary && Enforces(s) && !Selected(o, s, r) && Allowlisted(o, r)
    ensures Unexplained(o, h + [DisableEnforcement], |h|, r)
  {
    OneBetween(o, h, DisableEnforcement, r);
  }

  /** A gate that enforces is bypassed in between and then enters canary mode. */
  lemma BypassedBetween(o: Options, h: History, r: HttpRequest)
    requires ValidOptions(o)
    requires var s := Run(o, h); s.mode == Enforce && Enforces(s) && s.comparison.met
    requires o.allowEnforcement && o.bypassEnabled && AlwaysCanary(o, r) && !Allowlisted(o, r)
    ensures Unexplained(o, h + [EmergencyBypass(o.bypassToken)] + [SetMode(Canary, 0)], |h|, r)
  {
    var bypassed := Step(o, Run(o, h), EmergencyBypass(o.bypassToken));
    assert o.bypassToken in bypassed.bypassSet;
    SelectedIs(o, Step(o, bypassed, SetMode(Canary, 0)), r);
    TwoBetween(o, h, EmergencyBypass(o.bypassToken), SetMode(Canary, 0), r);
  }

  /** A gate in canary mode is closed in between, and another request moves the count on to where the
      canary selects this one. */
  lemma ClosedBetween(o: Options, h: History, r: HttpRequest)
    requires var s := Run(o, h); s.mode == Canary && Enforces(s) && s.canary.requests == 98
    requires o.canaryEnabled && o.canaryMode == Percentage && 0 < o.canaryPercentage < 100
    ensures Unexplained(o, h + [Close] + [SelectRequest(r)], |h|, r)
  {
    TwoBetween(o, h, Close, SelectRequest(r), r);
  }

  lemma {:induction false} AfterRequests(o: Options, h: History, r: HttpRequest, n: nat) returns (t: History)
    requires var s := Run(o, h); s.mode == Canary && Enforces(s) && s.canary.requests == 0
    requires o.canaryEnabled && o.canaryMode == Percentage
    ensures var s := Run(o, t); s.mode == Canary && Enforces(s) && s.canary.requests == n
  {
    if n == 0 {
      t := h;
    } else {
      var before := AfterRequests(o, h, r, n - 1);
      RunSnoc(o, before, SelectRequest(r));
      t := before + [SelectRequest(r)];
    }
  }

  lemma UnsafeUnexplained(o: Options, r: HttpRequest) returns (h: History, i: nat)
    requires ValidOptions(o) && !SafeAcross(o, r)
    ensures Unexplained(o, h, i, r)
  {
    if AlwaysCanary(o, r) {
      var before := Reaches(o, Enforce);
      BypassedBetween(o, before, r);
      h, i := before + [EmergencyBypass(o.bypassToken)] + [SetMode(Canary, 0)], |before|;
    } else {
      var before := Reaches(o, Canary);
      if NeverCanary(o, r) {
        SelectedIs(o, Run(o, before), r);
        DisabledBetween(o, before, r);
        h, i := before + [DisableEnforcement], |before|;
      } else {
        var asked := AfterRequests(o, before, r, 98);
        ClosedBetween(o, asked, r);
        h, i := asked + [Close] + [SelectRequest(r)], |asked|;
      }
    }
  }

  /** The lock is let go between the two parts.  Whatever calls come in between, and in every run, the
      decision for a request is that of some state meanwhile if and only if options and request are
      safe. */
  lemma AcrossExplainedIff(o: Options, r: HttpRequest)
    requires ValidOptions(o)
    ensures (forall h: History, i: nat | i <= |h| :: Explained(o, h, i, r)) <==> SafeAcross(o, r)
  {
    if SafeAcross(o, r) {
      forall h: History, i: nat | i <= |h| ensures Explained(o, h, i, r) {
        SafeExplained(o, h, i, r);
      }
    } else {
      var h, i := UnsafeUnexplained(o, r);
      assert !Explained(o, h, i, r);
    }
  }

  /** The other case occurs: a gate in canary mode with no canary share is disabled between the two
      parts, and the request is enforced although no state of the run enforces it. */
  lemma EnforcedByNoState(o: Options, r: HttpRequest, now: int)
    requires ValidOptions(o) && o.allowEnforcement && !o.requireThreshold && !Enforcing(o.initialMode)
    requires o.canaryEnabled && o.canaryMode == Percentage && o.canaryPercentage == 0
    requires o.methodAllowlist == [] && o.resourceAllowlist == [] && o.storageAllowlist == []
    ensures var h := [SetMode(Canary, now), DisableEnforcement];
      && AnswerAcross(o, Run(o, h[..1]), Run(o, h), r)
      && forall n :: 0 <= n <= |h| ==> !EnforcedFor(o, Run(o, h[..n]), r)
  {
    var h := [SetMode(Canary, now), DisableEnforcement];
    assert h[..0] == [] && h[..2] == h && h[..1] == [] + [h[0]] && h == h[..1] + [h[1]];
    RunSnoc(o, [], h[0]);
    RunSnoc(o, h[..1], h[1]);
  }
}
