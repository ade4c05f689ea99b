# robotframework-remoterunner-ssl: utility logic in Dafny

This project models the decision logic of `src/rfremoterunner_ssl/utils.py` from
robotframework-remoterunner-ssl, the XML-RPC remote runner for Robot Framework:

- `check_for_pip_package_condition` (module `PackageCheck`): whether the installed version of
  a pip package satisfies `installed <operator> target`. The target is a requested version or,
  for an empty, missing or `latest` request, the latest version on PyPI. The answer is `True`,
  `False`, or `None` when it cannot be determined. The `JohnnyDist` metadata object is an input
  (`Lookup<Distribution>`): either its construction raised, or it gives a truthiness,
  `version_installed`, and the outcome of reading `version_latest`, which may raise. The result
  (`Run`) holds the outcome and the list of metadata lookups made, so "no lookup happens" can be
  stated. `packaging.version.parse` and the version order are modelled in `Versions`, for
  release numbers only.
- `calculate_ts_parent_path` (module `SuitePath`): a method that walks a suite's chain of parent
  objects with a `while` loop, collects their names, reverses them, joins them with POSIX
  `os.path.join`, and turns backslashes into `/`. It is proved equal to the specification
  function `ParentPath` of the suite's ancestry. Lemmas then say what that path is.
- The defaulting tail of `get_command_line_params_client` (module `ClientParams`).

`Text` holds the string operations these use (`split`, `join`, `lower`, `replace`), and
`Wrappers` the `Option` type standing for Python's `None`.

Behaviour kept exactly as written:

- The operator table at utils.py:584-591 maps `"<="` to `operator.lt` and `"<"` to
  `operator.le`. So `"<="` means "strictly older than the target" and `"<"` means "not newer".
  `PackageCheck.SwappedLessOperators` shows this: a version compared with itself satisfies
  `"<"` but not `"<="`.
- The installed version is checked only after the target is chosen (utils.py:580). A failing
  latest lookup is also never distinguished from a missing installed version: both give `None`.
- An unknown operator raises `AssertionError` (utils.py:537).
- An empty `--extension` or `--input-dir` list is defaulted just like an absent one
  (`not robot_extension`). The default input directory is the string `"."`, not a list.

## Model

| member | source | states |
|---|---|---|
| `PackageCheck.CheckForPipPackageCondition` | src/rfremoterunner_ssl/utils.py:516-606 | the assertion fails exactly for an operator outside the six symbols, and then no lookup is made; otherwise the distribution is requested first; the latest version is looked up exactly when the distribution was produced and is truthy and no specific version other than "latest" (in any case) is given; once a distribution is produced, the lookups are exactly one distribution request followed by at most one latest-version request, with no retries. A raising metadata request gives `None` with no further lookup. A produced distribution gives `None` when it is falsy, and otherwise `CompareInstalled` of the installed version and `Target`. Spelled out, `None` comes back for a missing, empty or unparsable installed version; for no specific version with a raising, missing, empty or unparsable `version_latest`; and for an unparsable requested version |
| `PackageCheck.ParseOperator` | src/rfremoterunner_ssl/utils.py:537 | an operator string is accepted exactly when it is one of `>`, `>=`, `<`, `<=`, `!=`, `==`, and the accepted operator is the one spelled by the string |
| `PackageCheck.ParseOperatorSymbol` | src/rfremoterunner_ssl/utils.py:537 | each of the six operators is recognised from its own symbol |
| `PackageCheck.OperatorList` | src/rfremoterunner_ssl/utils.py:584-591 | the table picks the `operator` function each symbol names, except that `"<"` picks the one `"<="` names (`le`) and `"<="` the one `"<"` names (`lt`) |
| `PackageCheck.Apply` | src/rfremoterunner_ssl/utils.py:601 | `lt` holds when the installed version is smaller at the first differing release number, `le` when the target is not, `eq` when all zero-padded release numbers agree, `ne` when some differ, `gt` and `ge` the mirror images |
| `PackageCheck.UsesSpecificVersion` | src/rfremoterunner_ssl/utils.py:562 | a used request is present and non-empty; "latest", "Latest" and "LATEST" are never used as a specific version (the general case-insensitivity is `SpecificVersionCaseInsensitive`) |
| `PackageCheck.SpecificVersionCaseInsensitive` | src/rfremoterunner_ssl/utils.py:562 | whether a requested version is used verbatim depends on its letter case only through `lower` |
| `PackageCheck.Target` | src/rfremoterunner_ssl/utils.py:562-575 | a non-empty requested version other than "latest" in any case is the target verbatim; otherwise the target is `version_latest`, or `None` when reading it raised |
| `PackageCheck.CompareInstalled` | src/rfremoterunner_ssl/utils.py:580-601 | a boolean comes back exactly when both strings are non-empty and both parse, and it is then the table's operator applied to installed (left) and target (right) |
| `PackageCheck.OperatorSemantics` | src/rfremoterunner_ssl/utils.py:584-601 | with both versions parsed, the result is never `None`, and it is: `<=` strictly older, `<` older or same, `==` same, `!=` not same, `>` newer, `>=` newer or same (installed against target) |
| `PackageCheck.SwappedLessOperators` | src/rfremoterunner_ssl/utils.py:584-591 | for any parsable version compared with itself, `"<"` gives `True` and `"<="` gives `False` |
| `PackageCheck.SpecificVersionIgnoresLatest` | src/rfremoterunner_ssl/utils.py:562-566 | when a specific version is requested, the result and the lookups are the same whatever `version_latest` would give |
| `PackageCheck.LatestIsNotAVersion` | src/rfremoterunner_ssl/utils.py:562 | the sentinel "latest", in any letter case, never parses as a version |
| `Versions.ParseFormat` | src/rfremoterunner_ssl/utils.py:594-596 | parsing the dotted spelling of any version gives that version back |
| `Versions.NumberRoundTrip` | src/rfremoterunner_ssl/utils.py:594-596 | a release number's decimal spelling parses back to that number |
| `Versions.CompareSame` | src/rfremoterunner_ssl/utils.py:601 | two versions compare equal exactly when they agree on every release number, missing trailing numbers counting as zero (`1.0` equals `1.0.0`) |
| `Versions.CompareFlip` | src/rfremoterunner_ssl/utils.py:601 | swapping the two versions flips the comparison |
| `Versions.CompareTransitive` | src/rfremoterunner_ssl/utils.py:601 | "older than" is transitive |
| `Versions.CompareReflexive` | src/rfremoterunner_ssl/utils.py:601 | every version compares equal to itself |
| `Versions.ParseNumbers` | src/rfremoterunner_ssl/utils.py:594-596 | a list of release components parses exactly when every component is a non-empty digit string, and gives, for each component in order, its decimal value |
| `Versions.Parse` | src/rfremoterunner_ssl/utils.py:595-596 | a string parses exactly when every dot-separated piece after an optional leading `v` or `V` is a non-empty string of digits; the release numbers are then the pieces' decimal values, in order; the empty string never parses |
| `Versions.CompareVersions` | src/rfremoterunner_ssl/utils.py:601 | one version is older than another exactly when they agree up to some release number and it is smaller there (missing numbers count as zero), newer in the mirror case, and the same exactly when every zero-padded release number agrees |
| `Versions.CompareLess` | src/rfremoterunner_ssl/utils.py:601 | the recursive comparison answers "older" exactly when the versions agree up to some zero-padded release number and the first is smaller there |
| `SuitePath.Suite.constructor` | src/rfremoterunner_ssl/utils.py:93-118 | a suite is built from its name and its parent (null for the root); its ancestry is the parent's name followed by the parent's ancestry, which keeps every parent chain finite |
| `SuitePath.CalculateTsParentPath` | src/rfremoterunner_ssl/utils.py:93-118 | the walk up the parent chain returns the specification path `ParentPath` of the suite's ancestry, which contains no backslash |
| `SuitePath.ParentPath` | src/rfremoterunner_ssl/utils.py:110-118 | the path is empty for a suite without a parent, contains no backslash, and otherwise ends with the immediate parent's name (backslashes replaced) |
| `SuitePath.JoinStep` | src/rfremoterunner_ssl/utils.py:118 | one `os.path.join` step ends with the new component; a component starting with `/` replaces the path; otherwise the path so far is kept as a prefix |
| `SuitePath.JoinRest` | src/rfremoterunner_ssl/utils.py:118 | joining the remaining components ends with the last one and, when none starts with `/`, begins with the path so far |
| `SuitePath.PathJoin` | src/rfremoterunner_ssl/utils.py:118 | `os.path.join` ends with its last component and, when no later component starts with `/`, begins with its first |
| `SuitePath.ParentPathEmpty` | src/rfremoterunner_ssl/utils.py:110-111 | with non-empty names, the path is empty exactly when the suite has no parent |
| `SuitePath.ParentPathJoinsNames` | src/rfremoterunner_ssl/utils.py:112-118 | for names that are non-empty and neither start nor end with `/`, the path is the ancestors' names, root first and immediate parent last, joined with `/`, backslashes replaced |
| `SuitePath.ParentPathExtends` | src/rfremoterunner_ssl/utils.py:112-118 | for a suite that itself has a parent, and names that are non-empty and neither start nor end with `/`, the path of the suite's child is the suite's own path, then `/`, then the suite's name; the suite whose path is computed never contributes its own name |
| `SuitePath.ParentPathSplits` | src/rfremoterunner_ssl/utils.py:112-118 | for non-empty names free of `/` and `\`, splitting the path on `/` gives exactly the ancestors' names, root first |
| `SuitePath.JoinRestPlain` | src/rfremoterunner_ssl/utils.py:118 | POSIX `os.path.join` of plain names inserts exactly one `/` between consecutive names |
| `SuitePath.Reversed` | src/rfremoterunner_ssl/utils.py:118 | reversing keeps the length and puts the last element first |
| `Text.Replace` | src/rfremoterunner_ssl/utils.py:118 | `replace` keeps the length, turns every backslash into `/`, leaves every other character, and leaves no backslash |
| `Text.Lower` | src/rfremoterunner_ssl/utils.py:562 | `lower` keeps the length, turns each ASCII capital into its small letter and leaves every other character |
| `Text.SplitJoin` | src/rfremoterunner_ssl/utils.py:118 | splitting a `/`-joined string on `/` gives back the parts when no part contains `/` |
| `Text.JoinSplit` | src/rfremoterunner_ssl/utils.py:118 | a fact about the string helpers rather than the code at this line: joining the pieces of a split with the same separator gives the string back (the inverse half of `Text.SplitJoin`) |
| `ClientParams.PopulateDefaults` | src/rfremoterunner_ssl/utils.py:466-513 | the returned values are the parsed ones, in order, with input directories and extensions defaulted and every other value unchanged |
| `ClientParams.DefaultInputDirFor` | src/rfremoterunner_ssl/utils.py:489 | an absent or empty `--input-dir` list becomes the single string "."; a non-empty list is returned unchanged |
| `ClientParams.DefaultExtensionsFor` | src/rfremoterunner_ssl/utils.py:490-492 | an absent or empty `--extension` list becomes `["robot", "txt", "text", "resource"]`; a non-empty list is returned unchanged and in order; the result is never empty |
| `ClientParams.DefaultExtensionsIdempotent` | src/rfremoterunner_ssl/utils.py:490-492 | defaulting an already defaulted extension list changes nothing |

## Left out

- `read_file_from_disk`, `write_file_to_disk` (utils.py:51-90): plain file I/O.
- `resolve_output_path` (utils.py:121-142): it depends on the process's working directory through `os.path.abspath`.
- `get_command_line_params_server` and the argparse set-up of `get_command_line_params_client` (utils.py:145-462): choice checks, `str.upper`, port parsing and "extend" accumulation are argparse's behaviour. Only the defaulting tail is modelled.
- `check_if_input_dir_exists` (utils.py:261-277): a file-system query.
- Logging and structlog configuration (utils.py:37-48) and every `logger` call: no decision content.
- `PORT_INC_REGEX` (utils.py:42): never used.
- Merging the server's upgrade policy (`NEVER`/`OUTDATED`/`ALWAYS`) with the client's enforcement flag: no function in utils.py implements it. Only the option help texts (utils.py:219-226, 446-451) describe it.
- PackageCheck.CheckForPipPackageCondition: `package_name` is not a parameter. It only names the package for the metadata lookup, which is an input, and for log messages.
- PackageCheck.CheckForPipPackageCondition: models Python with assertions enabled. Under `python -O` the assertion is skipped: an unknown operator then goes through the same lookups, and the result is `None` whenever the distribution request raises, the distribution is falsy, or a version is missing, empty or unparsable; only when both versions were found and parsed does the table lookup at utils.py:601 raise `KeyError`.
- PackageCheck.CheckForPipPackageCondition: reading `version_installed` is taken not to raise, as the code's comment states.
- Versions.Parse: accepts only an optional `v`, then decimal release numbers separated by single dots. Epochs, pre-, post- and dev-releases, local labels and surrounding whitespace make the model report a parse failure (`None`), although `packaging` accepts them. Older `packaging` releases that fall back to `LegacyVersion` instead of raising are not modelled either.
- Text.Lower: folds ASCII letters only. No other character lowers to one of the letters of "latest", so the test against "latest" is unaffected.
- SuitePath.CalculateTsParentPath: `os.path.join` is modelled with POSIX rules. The Windows rules, with drive letters and `\` as a separator, are not modelled.
- SuitePath.Suite: a suite's name and parent are fixed when it is constructed, and a suite object is truthy exactly when it is not `None`.
