/** How `main` decides what to do from the device check and its arguments
    (main.cpp, main): no device ends the program with status 1 before any
    argument is read; three arguments whose flag is "-g" or "-s" select a
    run over the given root path; every other invocation, including three
    arguments with another flag (the `case 3` of the switch falls through to
    `default`), prints the usage text and ends with status 0. */
module CommandLine {

  datatype Mode =
    | NoDevice                          // return 1
    | Usage                             // print usage, return 0
    | Run(histogram: bool, root: string) // walk `root`; "-g" draws histograms, "-s" writes statistics

  const HistogramFlag: string := "-g"
  const StatsFlag: string := "-s"

  /** `deviceFound` is whether `chgen::CudaCount()` reported at least one
      device; `argv` holds all arguments, the program name first, so that
      `argc` is `|argv|`. */
  function SelectMode(deviceFound: bool, argv: seq<string>): (m: Mode)
    ensures !deviceFound ==> m == NoDevice
    ensures deviceFound ==> m != NoDevice
    ensures m.Run? <==> deviceFound && |argv| == 3 && argv[1] in {HistogramFlag, StatsFlag}
    ensures m.Run? ==> m.root == argv[2] && (m.histogram <==> argv[1] == HistogramFlag)
  {
    if !deviceFound then NoDevice
    else if |argv| == 3 && (argv[1] == HistogramFlag || argv[1] == StatsFlag) then
      Run(argv[1] == HistogramFlag, argv[2])
    else Usage
  }

  /** The status `main` returns without processing anything. */
  function EarlyExitCode(m: Mode): (code: int)
    requires !m.Run?
    ensures code == 1 <==> m == NoDevice
    ensures code == 0 <==> m == Usage
  {
    match m
    case NoDevice => 1
    case Usage => 0
  }

  /** The command line that asks for a run: the program name, the mode's
      flag and the root path. */
  function Invocation(program: string, histogram: bool, root: string): (argv: seq<string>)
  {
    [program, if histogram then HistogramFlag else StatsFlag, root]
  }

  /** Each run mode is selected by exactly its own invocation, whatever the
      program name and the root path. */
  lemma InvocationSelectsRun(program: string, histogram: bool, root: string)
    ensures SelectMode(true, Invocation(program, histogram, root)) == Run(histogram, root)
  {
  }

  /** A run is selected only by the invocation for that run. */
  lemma RunOnlyFromInvocation(argv: seq<string>, histogram: bool, root: string)
    requires SelectMode(true, argv) == Run(histogram, root)
    ensures argv == Invocation(argv[0], histogram, root)
  {
  }

  /** Three arguments with any flag other than "-g" and "-s" fall through to
      the usage text. */
  lemma OtherFlagPrintsUsage(argv: seq<string>)
    requires |argv| == 3 && argv[1] != HistogramFlag && argv[1] != StatsFlag
    ensures SelectMode(true, argv) == Usage
  {
  }
}
