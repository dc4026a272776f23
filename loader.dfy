/** One load of one module (`requireTime` and `isESM`, lib/index.js lines
    115-155). The clock, `require` and the forked child are an oracle: for
    each load it says what the probe saw and what the timed load did. */
module Loader {

  /** What the probe `require(moduleName)` in `isESM` produced: it threw (or
      purging the cache threw), or it returned an export, described by its
      JavaScript truthiness and whether its `type` property is `'module'`. */
  datatype Probe = ProbeThrew | Exported(truthy: bool, typeIsModule: bool)

  /** What the timed load did: finished after `ns` nanoseconds, or threw
      (for the isolated path: the child could not be started, or closed before
      sending a duration). */
  datatype Attempt = Took(ns: nat) | Threw

  datatype LoadStep = LoadStep(probe: Probe, attempt: Attempt)

  /** What `requireTime` hands back to the run loop: a duration, `false`
      after a caught failure, or a rejection that escapes its `try`. */
  datatype Outcome = Duration(ns: nat) | Caught | Escaped

  /** `isESM`: a throwing probe counts as ESM; otherwise
      `module && module.type === 'module'`. */
  function IsESM(p: Probe): bool {
    match p
    case ProbeThrew => true
    case Exported(truthy, typeIsModule) => truthy && typeIsModule
  }

  /** `useESM || isESM(modulePath)`: the probe is skipped when `--esm` is set. */
  function Isolated(useESM: bool, p: Probe): (r: bool)
    ensures r <==> useESM || p == ProbeThrew || p == Exported(true, true)
  {
    useESM || IsESM(p)
  }

  /** The result of `requireTime`. The isolated path returns its Promise from
      inside the `try` without awaiting it, so a rejection is not caught there;
      the in-process path throws synchronously and is caught. */
  function RequireOutcome(useESM: bool, step: LoadStep): (o: Outcome)
    ensures o.Duration? <==> step.attempt.Took?
    ensures o.Duration? ==> o.ns == step.attempt.ns
    ensures o.Escaped? <==> (step.attempt.Threw? &&
      (useESM || step.probe.ProbeThrew? || (step.probe.truthy && step.probe.typeIsModule)))
    ensures o.Caught? <==> (step.attempt.Threw? && !useESM &&
      step.probe.Exported? && !(step.probe.truthy && step.probe.typeIsModule))
  {
    match step.attempt
    case Took(d) => Duration(d)
    case Threw => if Isolated(useESM, step.probe) then Escaped else Caught
  }
}
