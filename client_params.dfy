/** The tail of `get_command_line_params_client`: the values argparse produced, with defaults
    filled in for the two accumulating options that argparse cannot default. */
module ClientParams {
  import opened Wrappers

  /** The parsed client options, as argparse leaves them; an accumulating option that was
      never given is None. */
  datatype ParsedArgs = ParsedArgs(
    logLevel: string,
    suite: Option<seq<string>>,
    test: Option<seq<string>>,
    includeTags: Option<seq<string>>,
    excludeTags: Option<seq<string>>,
    debug: bool,
    host: string,
    port: int,
    user: string,
    password: string,
    testConnection: bool,
    outputDir: string,
    inputDir: Option<seq<string>>,
    extension: Option<seq<string>>,
    outputFile: string,
    logFile: string,
    reportFile: string,
    clientEnforcesServerPackageUpgrade: bool)

  /** The input directory value: the single string "." by default, otherwise the list given. */
  datatype InputDir = Directory(path: string) | Directories(paths: seq<string>)

  /** The values the function returns, in its order. */
  datatype ClientParams = ClientParams(
    logLevel: string,
    suite: Option<seq<string>>,
    test: Option<seq<string>>,
    includeTags: Option<seq<string>>,
    excludeTags: Option<seq<string>>,
    debug: bool,
    host: string,
    port: int,
    user: string,
    password: string,
    testConnection: bool,
    outputDir: string,
    inputDir: InputDir,
    extension: seq<string>,
    outputFile: string,
    logFile: string,
    reportFile: string,
    clientEnforcesServerPackageUpgrade: bool)

  const DefaultExtensions: seq<string> := ["robot", "txt", "text", "resource"]

  const DefaultInputDir: string := "."

  function DefaultInputDirFor(inputDir: Option<seq<string>>): (d: InputDir)
    ensures d.Directory? <==> Falsy(inputDir)
    ensures d.Directory? ==> d.path == DefaultInputDir
    ensures d.Directories? ==> d.paths == inputDir.value && d.paths != []
  {
    if Falsy(inputDir) then Directory(DefaultInputDir) else Directories(inputDir.value)
  }

  function DefaultExtensionsFor(extension: Option<seq<string>>): (e: seq<string>)
    ensures e != []
    ensures Falsy(extension) ==> e == DefaultExtensions
    ensures !Falsy(extension) ==> e == extension.value
  {
    if Falsy(extension) then DefaultExtensions else extension.value
  }

  /** The returned values: defaults for the input directories and extensions, every other
      value passed through untouched. */
  function PopulateDefaults(args: ParsedArgs): (p: ClientParams)
    ensures p.inputDir == DefaultInputDirFor(args.inputDir)
    ensures p.extension == DefaultExtensionsFor(args.extension)
    ensures p.logLevel == args.logLevel && p.suite == args.suite && p.test == args.test
    ensures p.includeTags == args.includeTags && p.excludeTags == args.excludeTags && p.debug == args.debug
    ensures p.host == args.host && p.port == args.port && p.user == args.user && p.password == args.password
    ensures p.testConnection == args.testConnection && p.outputDir == args.outputDir
    ensures p.outputFile == args.outputFile && p.logFile == args.logFile && p.reportFile == args.reportFile
    ensures p.clientEnforcesServerPackageUpgrade == args.clientEnforcesServerPackageUpgrade
  {
    ClientParams(
      args.logLevel, args.suite, args.test, args.includeTags, args.excludeTags, args.debug,
      args.host, args.port, args.user, args.password, args.testConnection, args.outputDir,
      DefaultInputDirFor(args.inputDir), DefaultExtensionsFor(args.extension),
      args.outputFile, args.logFile, args.reportFile, args.clientEnforcesServerPackageUpgrade)
  }

  /** Defaulting is idempotent: feeding the extensions back in changes nothing. */
  lemma DefaultExtensionsIdempotent(extension: Option<seq<string>>)
    ensures DefaultExtensionsFor(Some(DefaultExtensionsFor(extension))) == DefaultExtensionsFor(extension)
  {
  }
}
