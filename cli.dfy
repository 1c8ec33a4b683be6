/** The command-line helpers: the input validator and the usage texts the flag
    registration helpers compute. */
module Cli {
  import opened Wrappers

  /** Which of the validator's three rules rejected the input. */
  datatype InputError = InvalidFileType | InvalidOperatorType | UnsupportedFlagCombination

  /** ValidateInputs: the resolved file type and operator must be known, and removal is
      supported only together with the detailed display. The first failing rule decides. */
  function ValidateInputs(fileTypeFilter: string, operatorType: string,
                          removeFiles: bool, displayDetailedResults: bool): (r: Option<InputError>)
    ensures r.None? <==> fileTypeFilter != "" && operatorType != "" && (removeFiles ==> displayDetailedResults)
    ensures fileTypeFilter == "" ==> r == Some(InvalidFileType)
    ensures fileTypeFilter != "" && operatorType == "" ==> r == Some(InvalidOperatorType)
    ensures fileTypeFilter != "" && operatorType != "" && removeFiles && !displayDetailedResults ==>
              r == Some(UnsupportedFlagCombination)
  {
    if fileTypeFilter == "" then Some(InvalidFileType)
    else if operatorType == "" then Some(InvalidOperatorType)
    else if removeFiles && !displayDetailedResults then Some(UnsupportedFlagCombination)
    else None
  }

  /** What RegisterBoolFlag appends to a usage text: a default of false is spelled out. */
  function BoolUsageSuffix(value: bool): string
  {
    if value then "\n" else "\n (default false)"
  }

  /** The usage text RegisterBoolFlag registers. */
  function BoolFlagUsage(value: bool, usage: string): (r: string)
    ensures value ==> r == usage + "\n"
    ensures !value ==> r == usage + "\n (default false)"
  {
    usage + BoolUsageSuffix(value)
  }

  /** The usage text RegisterStringFlag and RegisterFloat64Flag register. */
  function PlainFlagUsage(usage: string): (r: string)
    ensures |r| == |usage| + 1 && r[..|usage|] == usage && r[|usage|] == '\n'
  {
    var r := usage + "\n";
    assert r[..|usage|] == usage;
    r
  }

  /** The usage text a registered flag was given, recovered from what was registered. */
  function UsageGiven(registered: string, suffix: string): (u: string)
    requires |suffix| <= |registered|
    ensures |u| == |registered| - |suffix|
  {
    registered[..|registered| - |suffix|]
  }

  /** The registered texts determine the given ones: stripping the suffix recovers the
      usage, so distinct usages register as distinct texts. */
  lemma UsageRoundTrip(value: bool, usage: string)
    ensures UsageGiven(BoolFlagUsage(value, usage), BoolUsageSuffix(value)) == usage
    ensures UsageGiven(PlainFlagUsage(usage), "\n") == usage
  {
  }

  /** The flag-combination rule: once the input is accepted, removal implies the
      detailed display, which is the only result form the deletion accepts. */
  lemma AcceptedRemovalIsDetailed(fileTypeFilter: string, operatorType: string, displayDetailedResults: bool)
    requires ValidateInputs(fileTypeFilter, operatorType, true, displayDetailedResults).None?
    ensures displayDetailedResults
  {
  }
}
