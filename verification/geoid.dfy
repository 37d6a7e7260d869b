/**
 * Choice of the vertical reference system (geoid, tidal or geopotential
 * model) used to turn orthometric heights into ellipsoid heights, and the
 * source-CRS dispatch in front of the reprojection to WGS 84.
 *
 * The model-name catalogue lookup of the geoid library is a parameter of
 * type `Catalog`; the logger becomes the returned trace of tagged messages;
 * `exit(1)` becomes the outcome `Exit1`.
 */
module Geoid {
  import opened Wrappers
  import opened CrsModel

  /** The catalogue lookup `model_search`: a canonical model name or no match. */
  type Catalog = string -> Option<string>

  /** What `use_model` does in the end. */
  datatype Outcome =
    | Model(name: string)            // returns a model name
    | NoCorrection                   // returns the sentinel 0
    | NoMatch(found: Option<string>) // returns the falsy lookup result without exiting
    | Exit1                          // terminates the process with status 1

  /** The messages `use_model` writes to its logger, in order. */
  datatype LogEntry =
    | DebugHints(userHint: Option<string>, lasHint: Option<string>)
    | DebugAfterLasSearch(lasResult: Option<string>)
    | DebugAfterUserSearch(userResult: Option<string>)
    | InfoOverride(user: string, vrs: string)
    | ErrorNoSystemMatching(value: string)
    | InfoUserFound(vrs: string)
    | ErrorUserNotFound(user: string)

  datatype Resolution = Resolution(outcome: Outcome, log: seq<LogEntry>)

  /** How a hint fares in the catalogue: absent (falsy), matched or unmatched. */
  datatype HintState = Empty | Matched | Unmatched

  function StateOf(search: Catalog, hint: Option<string>): HintState {
    if !Truthy(hint) then Empty
    else if Truthy(search(hint.value)) then Matched
    else Unmatched
  }

  /** The outcome classes of the documented scenario table. */
  datatype Documented = UseLas | UseUser | Zero | ExitOne

  /**
   * The nine scenarios listed in the documentation of `use_model`, indexed by
   * the state of the header hint and of the user hint.
   */
  function DocumentedOutcome(las: HintState, user: HintState): Documented {
    match (las, user)
    case (Matched, _) => UseLas          // scenarios 1, 2, 3
    case (Empty, Empty) => Zero          // scenario 4
    case (Empty, Matched) => UseUser     // scenario 5
    case (Empty, Unmatched) => ExitOne   // scenario 6
    case (Unmatched, _) => ExitOne       // scenarios 7, 8, 9
  }

  /** Whether a concrete outcome belongs to a documented outcome class. */
  predicate Realizes(o: Outcome, d: Documented, search: Catalog, user: Option<string>, las: Option<string>) {
    match d
    case UseLas => las.Some? && search(las.value).Some? && o == Model(search(las.value).value)
    case UseUser => user.Some? && search(user.value).Some? && o == Model(search(user.value).value)
    case Zero => o == NoCorrection
    case ExitOne => o == Exit1
  }

  /**
   * `use_model` as written: the header hint `las` overrides the user hint;
   * the catalogue is consulted for `las` when it is truthy, otherwise for
   * `user` when that is truthy.
   */
  function UseModel(search: Catalog, user: Option<string>, las: Option<string>): (r: Resolution)
    // it never invents a model name: a name is the lookup of the hint that was consulted
    ensures r.outcome.Model? ==>
      r.outcome.name != "" &&
      ((Truthy(las) && search(las.value) == Some(r.outcome.name)) ||
       (!Truthy(las) && Truthy(user) && search(user.value) == Some(r.outcome.name)))
    ensures r.outcome == NoCorrection <==> !Truthy(las) && !Truthy(user)
    // the falsy lookup result comes back only when the header hint is unmatched and the user hint absent
    ensures r.outcome.NoMatch? <==> StateOf(search, las) == Unmatched && !Truthy(user)
    ensures r.outcome.NoMatch? ==> r.outcome.found == search(las.value)
    ensures |r.log| > 0 && r.log[0] == DebugHints(user, las)
  {
    var start := [DebugHints(user, las)];
    if Truthy(las) then
      var vrs := search(las.value);
      var log := start + [DebugAfterLasSearch(vrs)];
      if Truthy(user) && Truthy(vrs) then
        Resolution(Model(vrs.value), log + [InfoOverride(user.value, vrs.value)])   // scenarios 1, 2
      else if Truthy(user) then
        Resolution(Exit1, log + [ErrorNoSystemMatching(user.value)])               // scenarios 8, 9
      else if Truthy(vrs) then
        Resolution(Model(vrs.value), log)                                          // scenario 3
      else
        Resolution(NoMatch(vrs), log + [ErrorNoSystemMatching(las.value)])         // scenario 7
    else if !Truthy(user) then
      Resolution(NoCorrection, start)                                              // scenario 4
    else
      var vrs := search(user.value);
      var log := start + [DebugAfterUserSearch(vrs)];
      if Truthy(vrs) then
        Resolution(Model(vrs.value), log + [InfoUserFound(vrs.value)])             // scenario 5
      else
        Resolution(Exit1, log + [ErrorUserNotFound(user.value)])                   // scenario 6
  }

  /** The code agrees with the documented table in eight scenarios; in scenario 7 it returns instead of exiting. */
  lemma UseModelScenarios(search: Catalog, user: Option<string>, las: Option<string>)
    ensures var ls, us := StateOf(search, las), StateOf(search, user);
      var o := UseModel(search, user, las).outcome;
      if ls == Unmatched && us == Empty then o == NoMatch(search(las.value))
      else Realizes(o, DocumentedOutcome(ls, us), search, user, las)
  {
  }

  /** Scenario 4: with both hints falsy the result is 0 and the catalogue is never consulted. */
  lemma BothAbsentNeverSearches(s1: Catalog, s2: Catalog, user: Option<string>, las: Option<string>)
    requires !Truthy(user) && !Truthy(las)
    ensures UseModel(s1, user, las) == UseModel(s2, user, las)
    ensures UseModel(s1, user, las) == Resolution(NoCorrection, [DebugHints(user, las)])
  {
  }

  /**
   * Scenarios 1, 2 and 3: a matched header hint wins whatever the user hint
   * is; the user hint is never looked up, so two catalogues that agree on
   * the header hint give identical results.
   */
  lemma MatchedLasWins(s1: Catalog, s2: Catalog, user: Option<string>, las: Option<string>)
    requires Truthy(las) && Truthy(s1(las.value)) && s2(las.value) == s1(las.value)
    ensures UseModel(s1, user, las).outcome == Model(s1(las.value).value)
    ensures UseModel(s1, user, las) == UseModel(s2, user, las)
  {
  }

  /** The override notice is logged exactly when a matched header hint meets a truthy user hint, and names both. */
  lemma OverrideNotice(search: Catalog, user: Option<string>, las: Option<string>, u: string, v: string)
    ensures InfoOverride(u, v) in UseModel(search, user, las).log <==>
      StateOf(search, las) == Matched && Truthy(user) && u == user.value && v == search(las.value).value
  {
  }

  /** Scenarios 8 and 9: an unmatched header hint with a truthy user hint exits, even if the user hint would match. */
  lemma UnmatchedLasWithUserExits(search: Catalog, user: Option<string>, las: Option<string>)
    requires StateOf(search, las) == Unmatched && Truthy(user)
    ensures UseModel(search, user, las).outcome == Exit1
    ensures ErrorNoSystemMatching(user.value) in UseModel(search, user, las).log
  {
  }

  /** Scenario 7: an error naming the header hint is logged, but the falsy lookup result is returned. */
  lemma UnmatchedLasAloneReturns(search: Catalog, user: Option<string>, las: Option<string>)
    requires StateOf(search, las) == Unmatched && !Truthy(user)
    ensures UseModel(search, user, las).outcome == NoMatch(search(las.value))
    ensures ErrorNoSystemMatching(las.value) in UseModel(search, user, las).log
  {
  }

  /** Scenarios 5 and 6: without a header hint the user hint is looked up; a miss exits. */
  lemma UserHintOnly(search: Catalog, user: Option<string>, las: Option<string>)
    requires !Truthy(las) && Truthy(user)
    ensures var r := UseModel(search, user, las);
      if Truthy(search(user.value)) then
        r.outcome == Model(search(user.value).value) && InfoUserFound(search(user.value).value) in r.log
      else
        r.outcome == Exit1 && ErrorUserNotFound(user.value) in r.log
  {
  }

  /** A catalogue that knows a single model name. */
  function OnlyKnows(model: string): Catalog {
    s => if s == model then Some(model) else None
  }

  /** Scenario 7 with concrete values: the function returns `None` where the documentation promises `exit(1)`. */
  lemma Scenario7DoesNotExit()
    ensures UseModel(OnlyKnows("EGM2008"), None, Some("NAVD88")).outcome == NoMatch(None)
    ensures DocumentedOutcome(StateOf(OnlyKnows("EGM2008"), Some("NAVD88")), StateOf(OnlyKnows("EGM2008"), None)) == ExitOne
  {
  }

  /** Scenario 8 with concrete values: the error claims no system matches the user value, which does match. */
  lemma Scenario8ErrorNamesMatchedValue()
    ensures ErrorNoSystemMatching("EGM2008") in UseModel(OnlyKnows("EGM2008"), Some("EGM2008"), Some("NAVD88")).log
    ensures Truthy(OnlyKnows("EGM2008")("EGM2008"))
  {
  }

  /**
   * `use_model` as documented: scenario 7 exits with status 1, and the
   * "no vertical reference system matching" error names the header hint,
   * the value whose lookup failed.
   */
  function UseModelIntended(search: Catalog, user: Option<string>, las: Option<string>): (r: Resolution)
    ensures Realizes(r.outcome, DocumentedOutcome(StateOf(search, las), StateOf(search, user)), search, user, las)
    ensures !r.outcome.NoMatch?
    ensures forall v :: ErrorNoSystemMatching(v) in r.log ==> Some(v) == las && StateOf(search, las) == Unmatched
    // an unmatched header hint is reported by name after its lookup, and nothing else is logged
    ensures StateOf(search, las) == Unmatched ==>
      r.log == [DebugHints(user, las), DebugAfterLasSearch(search(las.value)), ErrorNoSystemMatching(las.value)]
  {
    if StateOf(search, las) == Unmatched then
      // scenarios 7, 8 and 9: report the header value whose lookup failed, then exit
      Resolution(Exit1, [DebugHints(user, las), DebugAfterLasSearch(search(las.value)), ErrorNoSystemMatching(las.value)])
    else
      // scenarios 1 to 6 behave as the code does
      UseModel(search, user, las)
  }

  /** Outside scenarios 7, 8 and 9 the corrected function and the code coincide. */
  lemma IntendedAgreesElsewhere(search: Catalog, user: Option<string>, las: Option<string>)
    requires StateOf(search, las) != Unmatched
    ensures UseModelIntended(search, user, las) == UseModel(search, user, las)
  {
  }

  // ---------------------------------------------------------------------
  // crs_to_wgs84: which CRS constructor the source specifier goes through

  /** The EPSG code of WGS 84, the target of every reprojection. */
  const Wgs84Epsg: int := 4326

  /** The Python value passed as `from_crs`, by its exact type. */
  datatype CrsSpecifier =
    | IntValue(code: int)     // type(from_crs) == int
    | CrsValue(crs: Crs)      // type(from_crs) == CRS
    | StrValue(text: string)  // type(from_crs) == str
    | OtherValue              // any other type, bool and CRS subclasses included

  /** How the library builds a CRS. */
  datatype CrsConstruction =
    | FromEpsg(code: int)
    | Given(crs: Crs)
    | FromWkt(wkt: string)
    | FromString(text: string)

  datatype Reprojection = Reprojection(source: CrsConstruction, target: CrsConstruction)

  /** With no branch taken, `crs` is never bound and its first use raises. */
  datatype DispatchError = UnboundCrs

  const Authority: string := "AUTHORITY"

  /** The source/target choice made by `crs_to_wgs84` before the transform runs. */
  function CrsToWgs84(spec: CrsSpecifier): (r: Result<Reprojection, DispatchError>)
    ensures r.Failure? <==> spec.OtherValue?
    ensures r.Success? ==> r.value.target == FromEpsg(Wgs84Epsg)
    ensures spec.IntValue? ==> r.value.source == FromEpsg(spec.code)
    ensures spec.CrsValue? ==> r.value.source == Given(spec.crs)
    ensures spec.StrValue? ==>
      r.value.source == (if exists i: nat :: OccursAt(spec.text, Authority, i) then FromWkt(spec.text) else FromString(spec.text))
  {
    match spec
    case IntValue(code) => Success(Reprojection(FromEpsg(code), FromEpsg(Wgs84Epsg)))
    case CrsValue(crs) => Success(Reprojection(Given(crs), FromEpsg(Wgs84Epsg)))
    case StrValue(text) =>
      var source := if Contains(text, Authority) then FromWkt(text) else FromString(text);
      Success(Reprojection(source, FromEpsg(Wgs84Epsg)))
    case OtherValue => Failure(UnboundCrs)
  }
}
