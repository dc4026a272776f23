/** The run count read from the command line (lib/index.js, lines 35 and 42).
    `parseInt(arg, 10)` is a parameter: it yields `Some(k)` for an argument
    that starts with an integer and `None` for one it reads as NaN. */
module Options {
  import opened Wrappers
  import opened Ordered

  const DefaultRuns: nat := 5
  const RunsFlag := "--runs"

  /** `numRuns`: 5 unless `--runs` is followed by a non-empty argument; then
      `Math.max(1, parseInt(arg))`. NaN makes `i < numRuns` false at once, so
      an unparsable argument is represented by zero runs. */
  function NumRuns(argv: seq<string>, parseInt: string -> Option<int>): (n: nat)
    ensures RunsFlag !in argv ==> n == DefaultRuns
    ensures forall i :: 0 <= i < |argv| && argv[i] == RunsFlag && RunsFlag !in argv[..i] ==>
      if i + 1 == |argv| || argv[i + 1] == "" then n == DefaultRuns
      else match parseInt(argv[i + 1])
        case None => n == 0
        case Some(k) => n >= 1 && n >= k && (n == 1 || n == k)
  {
    var at := IndexOf(argv, RunsFlag);
    if at != -1 && at + 1 < |argv| && argv[at + 1] != "" then
      match parseInt(argv[at + 1])
      case None => 0
      case Some(k) => if k < 1 then 1 else k
    else DefaultRuns
  }
}
