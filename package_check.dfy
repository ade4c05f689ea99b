/** `check_for_pip_package_condition`: does the installed version of a pip package satisfy
    `installed <operator> target`? The package metadata lookup (`JohnnyDist`) is an input,
    and the result records which lookups the function performed. */
module PackageCheck {
  import opened Wrappers
  import opened Versions
  import Text

  /** The six operator strings the function accepts. */
  datatype CompareOperator = Gt | Ge | Lt | Le | Ne | Eq

  const Symbols: seq<string> := [">", ">=", "<", "<=", "!=", "=="]

  function Symbol(op: CompareOperator): string
  {
    match op
    case Gt => ">"
    case Ge => ">="
    case Lt => "<"
    case Le => "<="
    case Ne => "!="
    case Eq => "=="
  }

  /** The membership test of the function's opening assertion. */
  function ParseOperator(s: string): (op: Option<CompareOperator>)
    ensures op.Some? <==> s in Symbols
    ensures op.Some? ==> Symbol(op.value) == s
  {
    if s == ">" then Some(Gt)
    else if s == ">=" then Some(Ge)
    else if s == "<" then Some(Lt)
    else if s == "<=" then Some(Le)
    else if s == "!=" then Some(Ne)
    else if s == "==" then Some(Eq)
    else None
  }

  lemma ParseOperatorSymbol(op: CompareOperator)
    ensures ParseOperator(Symbol(op)) == Some(op)
  {
  }

  /** The functions of Python's `operator` module that the dispatch table refers to. */
  datatype OperatorFunction = OpLt | OpLe | OpEq | OpNe | OpGt | OpGe

  /** The `operator` function each symbol names: "<" is `lt`, "<=" is `le`, and so on. */
  function NamedFunction(op: CompareOperator): OperatorFunction
  {
    match op
    case Lt => OpLt
    case Le => OpLe
    case Eq => OpEq
    case Ne => OpNe
    case Gt => OpGt
    case Ge => OpGe
  }

  /** The dispatch table `operator_list`, as written: "<=" selects `lt` and "<" selects `le`. */
  function OperatorList(op: CompareOperator): (f: OperatorFunction)
    ensures op != Lt && op != Le ==> f == NamedFunction(op)
    ensures op == Lt ==> f == NamedFunction(Le)
    ensures op == Le ==> f == NamedFunction(Lt)
  {
    match op
    case Le => OpLt
    case Lt => OpLe
    case Eq => OpEq
    case Ne => OpNe
    case Gt => OpGt
    case Ge => OpGe
  }

  /** `f(a, b)` for two parsed versions, in terms of the first release number where they differ. */
  function Apply(f: OperatorFunction, a: Version, b: Version): (r: bool)
    ensures f == OpLt ==> (r <==> exists k: nat :: LessAt(a.release, b.release, k))
    ensures f == OpLe ==> (r <==> !exists k: nat :: LessAt(b.release, a.release, k))
    ensures f == OpEq ==> (r <==> forall i: nat :: At(a.release, i) == At(b.release, i))
    ensures f == OpNe ==> (r <==> !forall i: nat :: At(a.release, i) == At(b.release, i))
    ensures f == OpGt ==> (r <==> exists k: nat :: LessAt(b.release, a.release, k))
    ensures f == OpGe ==> (r <==> !exists k: nat :: LessAt(a.release, b.release, k))
  {
    var o := CompareVersions(a, b);
    match f
    case OpLt => o == Less
    case OpLe => o != Greater
    case OpEq => o == Same
    case OpNe => o != Same
    case OpGt => o == Greater
    case OpGe => o != Less
  }

  /** An exception raised by a metadata lookup, or the value it produced. */
  datatype Lookup<T> = Raised | Produced(value: T)

  /** What the `JohnnyDist` object for the package reports: whether the object is truthy,
      `version_installed`, and the outcome of reading `version_latest`. */
  datatype Distribution = Distribution(
    truthy: bool,
    versionInstalled: Option<string>,
    versionLatest: Lookup<Option<string>>)

  /** A lookup the function performs against the package metadata provider. */
  datatype ProviderCall = RequestDistribution | RequestLatest

  /** The opening assertion failing, or the value returned (`None`, `True` or `False`). */
  datatype Outcome = AssertionFailure | Returned(value: Option<bool>)

  datatype Run = Run(outcome: Outcome, calls: seq<ProviderCall>)

  /** The test `specific_version and specific_version.lower() != "latest"`. */
  function UsesSpecificVersion(specificVersion: Option<string>): (used: bool)
    ensures used ==> specificVersion.Some? && specificVersion.value != []
    ensures specificVersion in {Some("latest"), Some("Latest"), Some("LATEST")} ==> !used
  {
    !Falsy(specificVersion) && Text.Lower(specificVersion.value) != "latest"
  }

  /** The tail of the function once `installed` and `latest` are known: the falsiness test,
      parsing both strings, and applying the operator from the table. */
  function CompareInstalled(op: CompareOperator, installed: Option<string>, latest: Option<string>): (r: Option<bool>)
    ensures r.Some? <==>
      !Falsy(installed) && !Falsy(latest) && Parse(installed.value).Some? && Parse(latest.value).Some?
    ensures r.Some? ==>
      r.value == Apply(OperatorList(op), Parse(installed.value).value, Parse(latest.value).value)
  {
    if Falsy(latest) || Falsy(installed) then None
    else
      match (Parse(installed.value), Parse(latest.value))
      case (Some(i), Some(l)) => Some(Apply(OperatorList(op), i, l))
      case _ => None
  }

  function CheckForPipPackageCondition(
    compareOperator: string, specificVersion: Option<string>, lookup: Lookup<Distribution>): (run: Run)
    // an unknown operator fails the assertion before any lookup
    ensures run.outcome.AssertionFailure? <==> compareOperator !in Symbols
    ensures run.outcome.AssertionFailure? ==> run.calls == []
    // otherwise the distribution is always requested first
    ensures compareOperator in Symbols ==> |run.calls| >= 1 && run.calls[0] == RequestDistribution
    // a failed metadata request yields None and nothing more is looked up
    ensures compareOperator in Symbols && lookup.Raised? ==> run == Run(Returned(None), [RequestDistribution])
    // the latest version is looked up exactly when no specific version is requested
    ensures RequestLatest in run.calls <==>
      compareOperator in Symbols && lookup.Produced? && lookup.value.truthy
      && !UsesSpecificVersion(specificVersion)
    // once the distribution is known, exactly one request for it and at most one for the latest version
    ensures compareOperator in Symbols && lookup.Produced? ==>
      run.calls == [RequestDistribution] +
        (if lookup.value.truthy && !UsesSpecificVersion(specificVersion) then [RequestLatest] else [])
    // once the distribution is known: None for a falsy one, else the comparison with the target
    ensures compareOperator in Symbols && lookup.Produced? ==>
      run.outcome == Returned(
        if lookup.value.truthy
        then CompareInstalled(ParseOperator(compareOperator).value, lookup.value.versionInstalled,
                              Target(specificVersion, lookup.value))
        else None)
    // a falsy distribution yields None
    ensures compareOperator in Symbols && lookup.Produced? && !lookup.value.truthy
      ==> run.outcome == Returned(None)
    // a missing or empty installed version yields None
    ensures compareOperator in Symbols && lookup.Produced? && Falsy(lookup.value.versionInstalled)
      ==> run.outcome == Returned(None)
    // an installed version that does not parse yields None
    ensures (compareOperator in Symbols && lookup.Produced? && !Falsy(lookup.value.versionInstalled)
             && Parse(lookup.value.versionInstalled.value).None?) ==> run.outcome == Returned(None)
    // with no specific version (missing, empty or "latest" in any case), a raising, missing,
    // empty or unparsable `version_latest` yields None
    ensures (compareOperator in Symbols && lookup.Produced? && !UsesSpecificVersion(specificVersion)
             && (lookup.value.versionLatest.Raised? || Falsy(lookup.value.versionLatest.value)
                 || Parse(lookup.value.versionLatest.value.value).None?))
      ==> run.outcome == Returned(None)
    // a requested version that does not parse yields None
    ensures (compareOperator in Symbols && UsesSpecificVersion(specificVersion)
             && Parse(specificVersion.value).None?) ==> run.outcome == Returned(None)
  {
    match ParseOperator(compareOperator)
    case None => Run(AssertionFailure, [])
    case Some(op) =>
      match lookup
      case Raised => Run(Returned(None), [RequestDistribution])
      case Produced(dist) =>
        if !dist.truthy then
          // `latest` keeps its initial None, so the falsiness test returns None
          Run(Returned(None), [RequestDistribution])
        else
          var calls := if UsesSpecificVersion(specificVersion) then [RequestDistribution]
                        else [RequestDistribution, RequestLatest];
          Run(Returned(CompareInstalled(op, dist.versionInstalled, Target(specificVersion, dist))), calls)
  }

  /** The version compared against: the requested one, or else `version_latest`, which
      becomes None when reading it raises. */
  function Target(specificVersion: Option<string>, dist: Distribution): (t: Option<string>)
    ensures UsesSpecificVersion(specificVersion) ==> t == specificVersion
    ensures !UsesSpecificVersion(specificVersion) && dist.versionLatest.Raised? ==> t == None
    ensures !UsesSpecificVersion(specificVersion) && dist.versionLatest.Produced? ==> t == dist.versionLatest.value
  {
    if UsesSpecificVersion(specificVersion) then specificVersion
    else
      match dist.versionLatest
      case Raised => None
      case Produced(v) => v
  }

  /** Once both versions parse, the result is a boolean given by the operator table as written,
      with the installed version on the left: "<=" means strictly older and "<" means not newer. */
  lemma OperatorSemantics(
    compareOperator: string, specificVersion: Option<string>, dist: Distribution, installed: Version, target: Version)
    requires compareOperator in Symbols && dist.truthy
    requires !Falsy(dist.versionInstalled) && Parse(dist.versionInstalled.value) == Some(installed)
    requires !Falsy(Target(specificVersion, dist)) && Parse(Target(specificVersion, dist).value) == Some(target)
    ensures CheckForPipPackageCondition(compareOperator, specificVersion, Produced(dist)).outcome.Returned?
    ensures var r := CheckForPipPackageCondition(compareOperator, specificVersion, Produced(dist)).outcome.value;
      var o := CompareVersions(installed, target);
      r.Some? &&
      (compareOperator == "<=" ==> r.value == (o == Less)) &&
      (compareOperator == "<" ==> r.value == (o == Less || o == Same)) &&
      (compareOperator == "==" ==> r.value == (o == Same)) &&
      (compareOperator == "!=" ==> r.value == (o != Same)) &&
      (compareOperator == ">" ==> r.value == (o == Greater)) &&
      (compareOperator == ">=" ==> r.value == (o == Greater || o == Same))
  {
  }

  /** Whether a specific version is used depends on its letter case only through `lower`. */
  lemma SpecificVersionCaseInsensitive(specificVersion: string)
    ensures UsesSpecificVersion(Some(Text.Lower(specificVersion))) == UsesSpecificVersion(Some(specificVersion))
  {
    Text.LowerIdempotent(specificVersion);
  }

  /** The sentinel "latest", in any case, never parses as a version. */
  lemma LatestIsNotAVersion(s: string)
    ensures Text.Lower(s) == "latest" ==> Parse(s) == None
  {
    if Text.Lower(s) == "latest" {
      forall i | 0 <= i < |s| ensures s[i] != '.' && !IsDigit(s[i]) {
        assert Text.Lower(s)[i] in "latest";
      }
      assert Text.Split(s, '.') == [s];
      assert !IsDigit(s[0]);
    }
  }

  /** The swapped table made visible: a version compared with itself satisfies "<" but not "<=". */
  lemma SwappedLessOperators(s: string, v: Version)
    requires Parse(s) == Some(v)
    ensures var dist := Distribution(true, Some(s), Raised);
      CheckForPipPackageCondition("<", Some(s), Produced(dist)).outcome == Returned(Some(true)) &&
      CheckForPipPackageCondition("<=", Some(s), Produced(dist)).outcome == Returned(Some(false))
  {
    CompareReflexive(v.release);
    LatestIsNotAVersion(s);
  }

  /** When a specific version is requested, `version_latest` plays no part in the result. */
  lemma SpecificVersionIgnoresLatest(
    compareOperator: string, specificVersion: string, dist: Distribution, latest: Lookup<Option<string>>)
    requires UsesSpecificVersion(Some(specificVersion))
    ensures CheckForPipPackageCondition(compareOperator, Some(specificVersion), Produced(dist))
         == CheckForPipPackageCondition(compareOperator, Some(specificVersion), Produced(dist.(versionLatest := latest)))
  {
  }
}
