/** The enforcement gate (internal/authz/enforcement_gate.go): a mode, an open or closed gate,
    an emergency bypass, automatic disabling on mismatches, and a threshold on comparison
    results that must be met before enforcement may be switched on. */
module EnforcementGate {

  import opened Wrappers
  import GlobPattern
  import CanaryQuota

  datatype Mode = Shadow | Enforce | DryRun | Canary | OtherMode(name: string)

  predicate Enforcing(m: Mode) {
    m == Enforce || m == DryRun || m == Canary
  }

  datatype CanaryMode = Percentage | Header | Path | OtherCanary(name: string)

  datatype Options = Options(
    initialMode: Mode,
    allowEnforcement: bool,
    bypassEnabled: bool,
    bypassToken: string,
    maxDuration: int,
    resourceAllowlist: seq<string>,
    storageAllowlist: seq<string>,
    methodAllowlist: seq<string>,
    autoDisableThreshold: int,
    canaryEnabled: bool,
    canaryMode: CanaryMode,
    canaryPercentage: int,
    canaryHeaderName: string,
    canaryHeaderValue: string,
    canaryPaths: seq<string>,
    requireThreshold: bool,
    thresholdPercentage: int,
    thresholdCount: int)

  predicate AllValidPatterns(patterns: seq<string>) {
    forall i :: 0 <= i < |patterns| ==> GlobPattern.ValidPattern(patterns[i])
  }

  /** What the constructor demands. */
  predicate ValidOptions(o: Options) {
    && AllValidPatterns(o.resourceAllowlist) && AllValidPatterns(o.storageAllowlist) && AllValidPatterns(o.canaryPaths)
    && (o.canaryEnabled ==>
          && 0 <= o.canaryPercentage <= 100
          && (o.canaryMode == Header ==> o.canaryHeaderName != ""))
    && 0 <= o.autoDisableThreshold <= 100
    && 0 <= o.thresholdPercentage <= 100
    && 0 <= o.thresholdCount
  }

  /** Some pattern holds a character other than a letter, a digit, a hyphen, an underscore, a dot, a
      slash, a star and a question mark. */
  ghost predicate Malformed(patterns: seq<string>) {
    exists i, j :: 0 <= i < |patterns| && 0 <= j < |patterns[i]| &&
      var c := patterns[i][j];
      !('a' <= c <= 'z') && !('A' <= c <= 'Z') && !('0' <= c <= '9') && c !in ['-', '_', '.', '/', '*', '?']
  }

  lemma MalformedIff(patterns: seq<string>)
    ensures Malformed(patterns) <==> !AllValidPatterns(patterns)
  {
    if !AllValidPatterns(patterns) {
      var i :| 0 <= i < |patterns| && !GlobPattern.ValidPattern(patterns[i]);
      var c :| c in patterns[i] && !GlobPattern.IsPatternChar(c);
      var j :| 0 <= j < |patterns[i]| && patterns[i][j] == c;
    } else {
      forall i, j | 0 <= i < |patterns| && 0 <= j < |patterns[i]| ensures GlobPattern.IsPatternChar(patterns[i][j]) {
        assert patterns[i][j] in patterns[i];
      }
    }
  }

  /** The options that the constructor refuses. */
  lemma RefusedIff(o: Options)
    ensures !ValidOptions(o) <==>
      || Malformed(o.resourceAllowlist) || Malformed(o.storageAllowlist) || Malformed(o.canaryPaths)
      || (o.canaryEnabled && (o.canaryPercentage < 0 || o.canaryPercentage > 100))
      || (o.canaryEnabled && o.canaryMode == Header && o.canaryHeaderName == "")
      || o.autoDisableThreshold < 0 || o.autoDisableThreshold > 100
      || o.thresholdPercentage < 0 || o.thresholdPercentage > 100 || o.thresholdCount < 0
  {
    MalformedIff(o.resourceAllowlist);
    MalformedIff(o.storageAllowlist);
    MalformedIff(o.canaryPaths);
  }

  /** Results of comparisons with the server behind the gate. */
  datatype Comparison = Comparison(total: nat, matches: nat, consecutive: nat, met: bool)

  /** Canary requests counted by the percentage strategy. */
  datatype CanaryCounts = CanaryCounts(requests: nat, enforced: nat, shadowed: nat)

  datatype State = State(
    mode: Mode,
    enabledAt: int,
    bypassSet: set<string>,
    closed: bool,
    mismatchCount: nat,
    decisions: nat,
    autoDisabled: bool,
    comparison: Comparison,
    canary: CanaryCounts)

  function Initial(o: Options): State {
    State(o.initialMode, 0, {}, false, 0, 0, false, Comparison(0, 0, 0, false), CanaryCounts(0, 0, 0))
  }

  // ---------------------------------------------------------------- one call

  /** A request as the gate sees it: `path` is the path of its URL, `parsedPath` the path
      obtained by printing and parsing the URL again, `header` the value of the configured
      canary header. */
  datatype HttpRequest = HttpRequest(verb: string, path: string, parsedPath: Option<string>, host: string, header: string)

  datatype Call =
    | SetMode(mode: Mode, now: int)
    | DisableEnforcement
    | EmergencyBypass(token: string)
    | ClearEmergencyBypass(token: string)
    | Close
    | Reopen
    | AutoRevertIfNeeded(now: int)
    | RecordMismatch
    | ClearMismatches
    | RecordComparisonResult(matched: bool)
    | ResetComparisonResults
    | RecordDecision
    | SelectRequest(request: HttpRequest)

  /** Whether a mode change is let through. */
  predicate SetModeAllowed(o: Options, s: State, m: Mode) {
    && !s.closed
    && (Enforcing(m) ==> o.allowEnforcement && (o.requireThreshold ==> s.comparison.met))
  }

  predicate Reverts(o: Options, s: State, now: int) {
    o.maxDuration != 0 && Enforcing(s.mode) && now - s.enabledAt > o.maxDuration
  }

  /** The mismatch rate, as a percentage of the decisions, is above the threshold. */
  predicate MismatchesExceed(o: Options, mismatches: nat, decisions: nat) {
    o.autoDisableThreshold > 0 && decisions > 0 && 100 * mismatches > o.autoDisableThreshold * decisions
  }

  predicate CountersMeet(o: Options, total: nat, matches: nat, consecutive: nat) {
    && (o.thresholdCount > 0 ==> consecutive >= o.thresholdCount)
    && (o.thresholdPercentage > 0 && total > 0 ==> 100 * matches >= o.thresholdPercentage * total)
  }

  predicate Enforces(s: State) {
    !s.closed && !s.autoDisabled && s.bypassSet == {} && Enforcing(s.mode)
  }

  function Upper(s: string): string {
    if s == "" then "" else [if 'a' <= s[0] <= 'z' then 'A' + (s[0] - 'a') else s[0]] + Upper(s[1..])
  }

  predicate MethodAllowlisted(o: Options, verb: string) {
    o.methodAllowlist == [] || exists i :: 0 <= i < |o.methodAllowlist| && Upper(o.methodAllowlist[i]) == Upper(verb)
  }

  predicate AnyMatches(patterns: seq<string>, text: string) {
    exists i :: 0 <= i < |patterns| && GlobPattern.GlobAccepts(patterns[i], text, {GlobPattern.NEWLINE})
  }

  predicate Allowlisted(o: Options, r: HttpRequest) {
    && MethodAllowlisted(o, r.verb)
    && (o.resourceAllowlist == [] || (r.parsedPath.Some? && AnyMatches(o.resourceAllowlist, r.parsedPath.value)))
    && (o.storageAllowlist == [] || AnyMatches(o.storageAllowlist, r.host))
  }

  predicate Counted(o: Options, s: State) {
    s.mode == Canary && o.canaryEnabled && o.canaryMode == Percentage
  }

  /** Whether a request is among those to enforce, given that the gate enforces. */
  predicate Selected(o: Options, s: State, r: HttpRequest) {
    if s.mode != Canary then Allowlisted(o, r)
    else
      && o.canaryEnabled
      && match o.canaryMode
         case Percentage => CanaryQuota.EnforcedAt(s.canary.requests + 1, o.canaryPercentage)
         case Header => o.canaryHeaderName != "" && r.header == o.canaryHeaderValue
         case Path => AnyMatches(o.canaryPaths, r.path)
         case OtherCanary(_) => false
  }

  /** Whether a request is enforced, all in one state. */
  predicate EnforcedFor(o: Options, s: State, r: HttpRequest) {
    Enforces(s) && Selected(o, s, r)
  }

  function ModeAfter(o: Options, s: State, c: Call): Mode {
    match c
    case SetMode(m, _) => if SetModeAllowed(o, s, m) then m else s.mode
    case DisableEnforcement => Shadow
    case AutoRevertIfNeeded(now) => if Reverts(o, s, now) then Shadow else s.mode
    case _ => s.mode
  }

  function EnabledAtAfter(o: Options, s: State, c: Call): int {
    match c
    case SetMode(m, now) => if SetModeAllowed(o, s, m) && Enforcing(m) then now else s.enabledAt
    case _ => s.enabledAt
  }

  function BypassAfter(o: Options, active: set<string>, c: Call): set<string> {
    match c
    case EmergencyBypass(token) => if o.bypassEnabled && token == o.bypassToken then active + {token} else active
    case ClearEmergencyBypass(token) => active - {token}
    case _ => active
  }

  function ClosedAfter(closed: bool, c: Call): bool {
    match c
    case Close => true
    case Reopen => false
    case _ => closed
  }

  function MismatchesAfter(count: nat, c: Call): nat {
    match c
    case RecordMismatch => count + 1
    case ClearMismatches => 0
    case _ => count
  }

  function DecisionsAfter(count: nat, c: Call): nat {
    if c == RecordDecision then count + 1 else count
  }

  function DisabledAfter(o: Options, s: State, c: Call): bool {
    match c
    case SetMode(m, _) => if SetModeAllowed(o, s, m) && (m == Shadow || Enforcing(m)) then false else s.autoDisabled
    case DisableEnforcement => false
    case RecordMismatch => s.autoDisabled || MismatchesExceed(o, s.mismatchCount + 1, s.decisions)
    case ClearMismatches => false
    case _ => s.autoDisabled
  }

  function ComparisonAfter(o: Options, k: Comparison, c: Call): Comparison {
    match c
    case RecordComparisonResult(matched) =>
      if !matched then Comparison(k.total + 1, k.matches, 0, false)
      else
        Comparison(k.total + 1, k.matches + 1, k.consecutive + 1,
                   k.met || CountersMeet(o, k.total + 1, k.matches + 1, k.consecutive + 1))
    case ResetComparisonResults => Comparison(0, 0, 0, false)
    case _ => k
  }

  function CanaryAfter(o: Options, s: State, c: Call): CanaryCounts {
    match c
    case SelectRequest(_) =>
      var k := s.canary;
      if !Counted(o, s) then k
      else if CanaryQuota.EnforcedAt(k.requests + 1, o.canaryPercentage) then
        CanaryCounts(k.requests + 1, k.enforced + 1, k.shadowed)
      else CanaryCounts(k.requests + 1, k.enforced, k.shadowed + 1)
    case _ => s.canary
  }

  /** The state after a call. */
  function Step(o: Options, s: State, c: Call): State {
    State(ModeAfter(o, s, c), EnabledAtAfter(o, s, c), BypassAfter(o, s.bypassSet, c), ClosedAfter(s.closed, c),
          MismatchesAfter(s.mismatchCount, c), DecisionsAfter(s.decisions, c), DisabledAfter(o, s, c),
          ComparisonAfter(o, s.comparison, c), CanaryAfter(o, s, c))
  }

  /** The state after further calls. */
  function RunFrom(o: Options, s: State, calls: seq<Call>): State {
    if calls == [] then s else Step(o, RunFrom(o, s, calls[..|calls| - 1]), calls[|calls| - 1])
  }

  /** The answer for a request when the gate is asked in one state whether it enforces and in another
      whether the request is selected. */
  predicate AnswerAcross(o: Options, first: State, second: State, r: HttpRequest) {
    Enforces(first) && Selected(o, second, r)
  }

  // ---------------------------------------------------------------- the object

  /** Each method holds the gate's lock for its whole body and is one step, except that
      `ShouldEnforceForRequest` consists of two such methods and lets the lock go between them. */
  class Gate {
    const options: Options
    var mode: Mode
    var enabledAt: int
    var bypassSet: set<string>
    var closed: bool
    var closeReason: string
    var mismatchCount: nat
    var autoDisabled: bool
    var comparisonTotalCount: nat
    var comparisonMatchCount: nat
    var consecutiveMatchCount: nat
    var thresholdMet: bool
    var decisionsRecorded: nat
    var canaryRequestCount: nat
    var canaryRequestsEnforced: nat
    var canaryRequestsShadowed: nat
    var allowlistHits: nat
    var allowlistMisses: nat

    function Abstract(): State
      reads this
    {
      State(mode, enabledAt, bypassSet, closed, mismatchCount, decisionsRecorded, autoDisabled,
            Comparison(comparisonTotalCount, comparisonMatchCount, consecutiveMatchCount, thresholdMet),
            CanaryCounts(canaryRequestCount, canaryRequestsEnforced, canaryRequestsShadowed))
    }

    constructor (o: Options)
      requires ValidOptions(o)
      ensures options == o && Abstract() == Initial(o)
      ensures closeReason == "" && allowlistHits == 0 && allowlistMisses == 0
    {
      options := o;
      mode, enabledAt, bypassSet, closed, closeReason := o.initialMode, 0, {}, false, "";
      mismatchCount, autoDisabled := 0, false;
      comparisonTotalCount, comparisonMatchCount, consecutiveMatchCount, thresholdMet := 0, 0, 0, false;
      decisionsRecorded, canaryRequestCount, canaryRequestsEnforced, canaryRequestsShadowed := 0, 0, 0, 0;
      allowlistHits, allowlistMisses := 0, 0;
    }

    method SetMode(m: Mode, now: int) returns (ok: bool)
      modifies `mode, `enabledAt, `autoDisabled
      ensures ok == SetModeAllowed(options, old(Abstract()), m)
      ensures Abstract() == Step(options, old(Abstract()), Call.SetMode(m, now))
    {
      if closed {
        return false;
      }
      if Enforcing(m) {
        if !options.allowEnforcement {
          return false;
        }
        if options.requireThreshold && !thresholdMet {
          return false;
        }
        enabledAt := now;
        autoDisabled := false;
      }
      if m == Shadow {
        autoDisabled := false;
      }
      mode := m;
      return true;
    }

    method DisableEnforcement()
      modifies `mode, `autoDisabled
      ensures Abstract() == Step(options, old(Abstract()), Call.DisableEnforcement)
    {
      mode := Shadow;
      autoDisabled := false;
    }

    method EmergencyBypass(token: string) returns (ok: bool)
      modifies `bypassSet
      ensures ok == (options.bypassEnabled && token == options.bypassToken)
      ensures Abstract() == Step(options, old(Abstract()), Call.EmergencyBypass(token))
    {
      if !options.bypassEnabled {
        return false;
      }
      if token == options.bypassToken {
        bypassSet := bypassSet + {token};
        return true;
      }
      return false;
    }

    method ClearEmergencyBypass(token: string)
      modifies `bypassSet
      ensures Abstract() == Step(options, old(Abstract()), Call.ClearEmergencyBypass(token))
    {
      bypassSet := bypassSet - {token};
    }

    method Close(reason: string)
      modifies `closed, `closeReason
      ensures Abstract() == Step(options, old(Abstract()), Call.Close) && closeReason == reason
    {
      closed := true;
      closeReason := reason;
    }

    method Reopen()
      modifies `closed, `closeReason
      ensures Abstract() == Step(options, old(Abstract()), Call.Reopen) && closeReason == ""
    {
      closed := false;
      closeReason := "";
    }

    method AutoRevertIfNeeded(now: int)
      modifies `mode
      ensures Abstract() == Step(options, old(Abstract()), Call.AutoRevertIfNeeded(now))
    {
      if options.maxDuration == 0 {
        return;
      }
      if mode != Enforce && mode != DryRun && mode != Canary {
        return;
      }
      if now - enabledAt > options.maxDuration {
        mode := Shadow;
      }
    }

    method RecordMismatch()
      modifies `mismatchCount, `autoDisabled
      ensures Abstract() == Step(options, old(Abstract()), Call.RecordMismatch)
    {
      mismatchCount := mismatchCount + 1;
      if options.autoDisableThreshold > 0 {
        var totalRequests := decisionsRecorded;
        if totalRequests > 0 {
          if 100 * mismatchCount > options.autoDisableThreshold * totalRequests {
            autoDisabled := true;
          }
        }
      }
    }

    method ClearMismatches()
      modifies `mismatchCount, `autoDisabled
      ensures Abstract() == Step(options, old(Abstract()), Call.ClearMismatches)
    {
      mismatchCount := 0;
      if autoDisabled {
        autoDisabled := false;
      }
    }

    method RecordComparisonResult(matched: bool)
      modifies `comparisonTotalCount, `comparisonMatchCount, `consecutiveMatchCount, `thresholdMet
      ensures Abstract() == Step(options, old(Abstract()), Call.RecordComparisonResult(matched))
    {
      comparisonTotalCount := comparisonTotalCount + 1;
      if matched {
        comparisonMatchCount := comparisonMatchCount + 1;
        consecutiveMatchCount := consecutiveMatchCount + 1;
        var percentageMet, consecutiveMet := false, false;
        if options.thresholdCount > 0 {
          consecutiveMet := consecutiveMatchCount >= options.thresholdCount;
        } else {
          consecutiveMet := true;
        }
        if options.thresholdPercentage > 0 && comparisonTotalCount > 0 {
          percentageMet := 100 * comparisonMatchCount >= options.thresholdPercentage * comparisonTotalCount;
        } else {
          percentageMet := true;
        }
        if consecutiveMet && percentageMet {
          thresholdMet := true;
        }
      } else {
        consecutiveMatchCount := 0;
        if thresholdMet {
          thresholdMet := false;
        }
      }
    }

    method ResetComparisonResults()
      modifies `comparisonTotalCount, `comparisonMatchCount, `consecutiveMatchCount, `thresholdMet
      ensures Abstract() == Step(options, old(Abstract()), Call.ResetComparisonResults)
    {
      comparisonTotalCount, comparisonMatchCount, consecutiveMatchCount := 0, 0, 0;
      thresholdMet := false;
    }

    method RecordDecision()
      modifies `decisionsRecorded
      ensures Abstract() == Step(options, old(Abstract()), Call.RecordDecision)
    {
      decisionsRecorded := decisionsRecorded + 1;
    }

    method ShouldEnforce() returns (enforces: bool)
      ensures enforces == Enforces(Abstract())
    {
      if closed {
        return false;
      }
      if autoDisabled {
        return false;
      }
      if bypassSet != {} {
        return false;
      }
      return mode == Enforce || mode == DryRun || mode == Canary;
    }

    /** The second part, which does not look again at whether the gate enforces. */
    method SelectRequest(r: HttpRequest) returns (selected: bool)
      modifies `canaryRequestCount, `canaryRequestsEnforced, `canaryRequestsShadowed, `allowlistHits, `allowlistMisses
      ensures selected == Selected(options, old(Abstract()), r)
      ensures Abstract() == Step(options, old(Abstract()), Call.SelectRequest(r))
      ensures allowlistHits + allowlistMisses == old(allowlistHits + allowlistMisses) + (if mode != Canary then 1 else 0)
      ensures allowlistHits == old(allowlistHits) + (if selected && mode != Canary then 1 else 0)
    {
      if mode == Canary {
        selected := IsCanaryRequest(r);
        return;
      }
      var allowed := IsMethodAllowlisted(r.verb);
      if !allowed {
        allowlistMisses := allowlistMisses + 1;
        return false;
      }
      allowed := IsResourceAllowlisted(r.parsedPath);
      if !allowed {
        allowlistMisses := allowlistMisses + 1;
        return false;
      }
      allowed := IsStorageAllowlisted(r.host);
      if !allowed {
        allowlistMisses := allowlistMisses + 1;
        return false;
      }
      allowlistHits := allowlistHits + 1;
      return true;
    }

    method IsCanaryRequest(r: HttpRequest) returns (selected: bool)
      requires mode == Canary
      modifies `canaryRequestCount, `canaryRequestsEnforced, `canaryRequestsShadowed
      ensures selected == Selected(options, old(Abstract()), r)
      ensures Abstract() == Step(options, old(Abstract()), Call.SelectRequest(r))
    {
      if !options.canaryEnabled {
        return false;
      }
      match options.canaryMode
      case Percentage =>
        canaryRequestCount := canaryRequestCount + 1;
        if canaryRequestCount % 100 < options.canaryPercentage {
          canaryRequestsEnforced := canaryRequestsEnforced + 1;
          return true;
        }
        canaryRequestsShadowed := canaryRequestsShadowed + 1;
        return false;
      case Header =>
        if options.canaryHeaderName == "" {
          return false;
        }
        return r.header == options.canaryHeaderValue;
      case Path =>
        selected := GlobPattern.AnyPatternMatches(options.canaryPaths, r.path);
      case OtherCanary(_) =>
        return false;
    }

    method IsMethodAllowlisted(verb: string) returns (listed: bool)
      ensures listed == MethodAllowlisted(options, verb)
    {
      if |options.methodAllowlist| == 0 {
        return true;
      }
      for i := 0 to |options.methodAllowlist|
        invariant forall j :: 0 <= j < i ==> Upper(options.methodAllowlist[j]) != Upper(verb)
      {
        if Upper(options.methodAllowlist[i]) == Upper(verb) {
          return true;
        }
      }
      return false;
    }

    method IsResourceAllowlisted(path: Option<string>) returns (listed: bool)
      ensures listed == (options.resourceAllowlist == [] || (path.Some? && AnyMatches(options.resourceAllowlist, path.value)))
    {
      if |options.resourceAllowlist| == 0 {
        return true;
      }
      if path.None? {
        return false;
      }
      listed := GlobPattern.AnyPatternMatches(options.resourceAllowlist, path.value);
    }

    method IsStorageAllowlisted(host: string) returns (listed: bool)
      ensures listed == (options.storageAllowlist == [] || AnyMatches(options.storageAllowlist, host))
    {
      if |options.storageAllowlist| == 0 {
        return true;
      }
      listed := GlobPattern.AnyPatternMatches(options.storageAllowlist, host);
    }

    /** Any one call. */
    method Perform(c: Call)
      modifies this
      ensures Abstract() == Step(options, old(Abstract()), c)
    {
      match c
      case SetMode(m, now) => var _ := SetMode(m, now);
      case DisableEnforcement => DisableEnforcement();
      case EmergencyBypass(token) => var _ := EmergencyBypass(token);
      case ClearEmergencyBypass(token) => ClearEmergencyBypass(token);
      case Close => Close("");
      case Reopen => Reopen();
      case AutoRevertIfNeeded(now) => AutoRevertIfNeeded(now);
      case RecordMismatch => RecordMismatch();
      case ClearMismatches => ClearMismatches();
      case RecordComparisonResult(matched) => RecordComparisonResult(matched);
      case ResetComparisonResults => ResetComparisonResults();
      case RecordDecision => RecordDecision();
      case SelectRequest(r) => var _ := SelectRequest(r);
    }

    method PerformAll(calls: seq<Call>)
      modifies this
      ensures Abstract() == RunFrom(options, old(Abstract()), calls)
    {
      for i := 0 to |calls|
        invariant Abstract() == RunFrom(options, old(Abstract()), calls[..i])
      {
        Perform(calls[i]);
        assert calls[..i + 1][..i] == calls[..i];
      }
      assert calls[..|calls|] == calls;
    }

    /** The lock is let go between the two parts; `others` are the calls that come in between. */
    method ShouldEnforceForRequest(r: HttpRequest, others: seq<Call>) returns (enforced: bool)
      modifies this
      ensures var before := old(Abstract());
        var between := RunFrom(options, before, others);
        && enforced == AnswerAcross(options, before, between, r)
        && Abstract() == if Enforces(before) then Step(options, between, Call.SelectRequest(r)) else before
    {
      var enforces := ShouldEnforce();
      if !enforces {
        return false;
      }
      PerformAll(others);
      enforced := SelectRequest(r);
    }
  }

  /** Unset options take their defaults. */
  function WithDefaults(o: Options, generatedToken: string): Options {
    o.(initialMode := if o.initialMode == OtherMode("") then Shadow else o.initialMode,
       bypassToken := if o.bypassToken == "" then generatedToken else o.bypassToken)
  }

  /** A gate is made exactly for valid options. */
  method NewEnforcementGate(o: Options, generatedToken: string) returns (gate: Gate?)
    ensures gate != null <==> ValidOptions(o)
    ensures gate != null ==> fresh(gate) && gate.Abstract() == Initial(gate.options)
    ensures gate != null ==> gate.mode == (if o.initialMode == OtherMode("") then Shadow else o.initialMode)
    ensures gate != null ==>
      gate.options == o.(initialMode := gate.mode, bypassToken := if o.bypassToken == "" then generatedToken else o.bypassToken)
  {
    var resources := ValidatePatterns(o.resourceAllowlist);
    var storages := ValidatePatterns(o.storageAllowlist);
    var paths := ValidatePatterns(o.canaryPaths);
    if !resources || !storages || !paths {
      return null;
    }
    if o.canaryEnabled {
      if o.canaryPercentage < 0 || o.canaryPercentage > 100 {
        return null;
      }
      if o.canaryMode == Header && o.canaryHeaderName == "" {
        return null;
      }
    }
    if o.autoDisableThreshold < 0 || o.autoDisableThreshold > 100 {
      return null;
    }
    if o.thresholdPercentage < 0 || o.thresholdPercentage > 100 || o.thresholdCount < 0 {
      return null;
    }
    gate := new Gate(WithDefaults(o, generatedToken));
  }

  method ValidatePatterns(patterns: seq<string>) returns (valid: bool)
    ensures valid == AllValidPatterns(patterns)
  {
    for i := 0 to |patterns|
      invariant forall j :: 0 <= j < i ==> GlobPattern.ValidPattern(patterns[j])
    {
      if !GlobPattern.ValidPattern(patterns[i]) {
        return false;
      }
    }
    return true;
  }
}
