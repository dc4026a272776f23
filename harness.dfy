/** The run loop of lib/index.js: the module-level `packages` Set and
    `timespans` Map, `timeload()` (lines 50-75) and the eviction in
    `requireTime()` (lines 134-140). First a specification on values, then
    the class that updates the two collections in place. */
module Harness {
  import opened Wrappers
  import opened Ordered
  import opened Options
  import opened Deps
  import opened Loader
  import opened Aggregate

  /** The two collections: `packages` as an insertion-ordered Set, and
      `timespans` as its key order plus its entries. */
  datatype State = State(packages: seq<string>, order: seq<string>, spans: map<string, seq<Sample>>)

  /** What the collections always satisfy: no duplicates, the key order lists
      exactly the keys, and every list holds at least one sample. */
  ghost predicate Consistent(st: State) {
    && Distinct(st.packages)
    && Distinct(st.order)
    && (forall k :: k in st.order <==> k in st.spans)
    && (forall k :: k in st.spans ==> |st.spans[k]| > 0)
  }

  /** The state right after the dependencies were added to `packages`. */
  function Fresh(p: seq<string>): State {
    State(p, [], map[])
  }

  /** The environment of a session: `--esm`, and the oracle that says, for run
      `r` and module `m`, what the probe saw and what the timed load did. */
  datatype Env = Env(useESM: bool, oracle: (nat, string) -> LoadStep)

  function OutcomeAt(env: Env, r: nat, m: string): Outcome {
    RequireOutcome(env.useESM, env.oracle(r, m))
  }

  /** What `timespans.get(module).push(timespan)` appends. */
  function SampleOf(o: Outcome): Sample
    requires !o.Escaped?
  {
    match o
    case Duration(d) => Ns(d)
    case Caught => Failed
  }

  /** Lines 66-67: create the entry if it is missing, then append. */
  function Push(st: State, m: string, s: Sample): State {
    if m in st.spans then State(st.packages, st.order, st.spans[m := st.spans[m] + [s]])
    else State(st.packages, st.order + [m], st.spans[m := [s]])
  }

  /** Lines 136-137: `timespans.delete(module)` and `packages.delete(module)`. */
  function Evict(st: State, m: string): State {
    State(Remove(st.packages, m), Remove(st.order, m), st.spans - {m})
  }

  /** One iteration of the inner loop for an outcome that did not escape. */
  function Record(st: State, m: string, o: Outcome): State
    requires !o.Escaped?
  {
    Push(if o.Caught? then Evict(st, m) else st, m, SampleOf(o))
  }

  /** Where the loop stands: still going, or stopped by a rejection that
      escaped `requireTime` (the state is the one at that moment). */
  datatype Progress = Done(st: State) | Aborted(st: State)

  /** Loads module `m` in run `r`, unless the loop has already stopped. */
  function Extend(p: Progress, r: nat, m: string, env: Env): Progress {
    match p
    case Aborted(_) => p
    case Done(s) =>
      var o := OutcomeAt(env, r, m);
      if o.Escaped? then Aborted(s) else Done(Record(s, m, o))
  }

  /** Run `r` over the modules `mods`, in order. */
  function Pass(st: State, r: nat, mods: seq<string>, env: Env): Progress {
    if mods == [] then Done(st) else Extend(Pass(st, r, mods[..|mods| - 1], env), r, mods[|mods| - 1], env)
  }

  /** Runs `lo` up to `hi - 1`; each run goes over the modules that are in
      `packages` when it starts. */
  function Runs(st: State, lo: nat, hi: nat, env: Env): Progress
    decreases hi
  {
    if hi <= lo then Done(st) else NextRun(Runs(st, lo, hi - 1, env), hi - 1, env)
  }

  /** Run `r` after the earlier ones, unless the loop has already stopped. */
  function NextRun(p: Progress, r: nat, env: Env): Progress {
    match p
    case Aborted(_) => p
    case Done(s) => Pass(s, r, s.packages, env)
  }

  /** One more module at the end of a pass that has not stopped. */
  lemma PassStep(st: State, r: nat, mods: seq<string>, x: string, s: State, env: Env)
    requires Pass(st, r, mods, env) == Done(s)
    ensures Pass(st, r, mods + [x], env) ==
      if OutcomeAt(env, r, x).Escaped? then Aborted(s) else Done(Record(s, x, OutcomeAt(env, r, x)))
  {
    assert (mods + [x])[..|mods|] == mods;
  }

  /** The live Set iterator of `for ... of packages`: it has reached the
      module `snap[p]` at position `j`; whether or not that module was
      deleted meanwhile, the next position reaches `snap[p + 1]`. */
  lemma IteratorAdvance(before: seq<string>, after: seq<string>, j: nat, snap: seq<string>, p: nat)
    requires Distinct(before) && j < |before| && p <= |snap| && before[j..] == snap[p..]
    requires after == before || after == Remove(before, before[j])
    ensures p < |snap| && snap[p] == before[j]
    ensures var next := if j < |after| && after[j] == before[j] then j + 1 else j;
      next <= |after| && after[next..] == snap[p + 1..]
  {
    assert before[j..][0] == before[j];
    assert before[j..][1..] == before[j + 1..];
    if after != before {
      RemoveAt(before, j);
      assert after[j..] == before[j + 1..];
    }
  }

  /** The loop body of `LoadAll` for a load that did not escape: the pass
      takes one more module and the live iterator moves on to `snap[p + 1]`. */
  lemma PassAdvance(st: State, r: nat, snap: seq<string>, p: nat, before: State, j: nat, env: Env)
    requires Distinct(before.packages) && j < |before.packages| && p <= |snap|
    requires before.packages[j..] == snap[p..]
    requires Pass(st, r, snap[..p], env) == Done(before)
    requires !OutcomeAt(env, r, before.packages[j]).Escaped?
    ensures p < |snap| && snap[p] == before.packages[j]
    ensures var after := Record(before, snap[p], OutcomeAt(env, r, snap[p]));
      && Pass(st, r, snap[..p + 1], env) == Done(after)
      && var next := if j < |after.packages| && after.packages[j] == snap[p] then j + 1 else j;
        next <= |after.packages| && after.packages[next..] == snap[p + 1..]
  {
    var name := before.packages[j];
    var o := OutcomeAt(env, r, name);
    var after := Record(before, name, o);
    assert after.packages == if o.Caught? then Remove(before.packages, name) else before.packages;
    IteratorAdvance(before.packages, after.packages, j, snap, p);
    assert snap[..p + 1] == snap[..p] + [name];
    PassStep(st, r, snap[..p], name, before, env);
  }

  /** A load that escaped ends the pass with the state it found. */
  lemma PassStops(st: State, r: nat, snap: seq<string>, p: nat, before: State, env: Env)
    requires p < |snap| && Pass(st, r, snap[..p], env) == Done(before)
    requires OutcomeAt(env, r, snap[p]).Escaped?
    ensures Pass(st, r, snap, env) == Aborted(before)
  {
    assert snap[..p + 1] == snap[..p] + [snap[p]];
    PassStep(st, r, snap[..p], snap[p], before, env);
    PassConcat(st, r, snap[..p + 1], snap[p + 1..], env);
    assert snap[..p + 1] + snap[p + 1..] == snap;
  }

  function ContinuePass(p: Progress, r: nat, mods: seq<string>, env: Env): Progress {
    match p
    case Aborted(_) => p
    case Done(s) => Pass(s, r, mods, env)
  }

  function ContinueRuns(p: Progress, lo: nat, hi: nat, env: Env): Progress {
    match p
    case Aborted(_) => p
    case Done(s) => Runs(s, lo, hi, env)
  }

  /** How `timeload()` ends. */
  datatype Verdict =
    | Unreadable           // `package.json` could not be read
    | NoDependencies       // nothing left to time
    | Rejected             // an isolated load rejected; `summary()` never ran
    | Reported(report: Report)

  /** The whole session: select the modules, run the loop, summarise. */
  function Session(manifest: Option<Manifest>, useDev: bool, runs: nat, env: Env): Verdict {
    match manifest
    case None => Unreadable
    case Some(m) =>
      var p := Selected(m, useDev);
      if p == [] then NoDependencies
      else
        SelectedSpec(m, useDev);
        Conclude(Fresh(p), runs, env)
  }

  /** The loop over `runs` runs from `st`, then `summary()` unless a
      rejection escaped first. */
  function Conclude(st: State, runs: nat, env: Env): Verdict
    requires Consistent(st)
  {
    RunsConsistent(st, 0, runs, env);
    match Runs(st, 0, runs, env)
    case Aborted(_) => Rejected
    case Done(s) => Reported(Summarize(s.order, s.spans, runs))
  }

  /** The session takes the 'No dependencies found.' exit (`NoDependencies`)
      exactly when the manifest was read and every declared name (the
      `devDependencies` ones only with `--dev`) is an `@types/` package. */
  lemma NothingToTime(manifest: Option<Manifest>, useDev: bool, runs: nat, env: Env)
    ensures Session(manifest, useDev, runs, env) == NoDependencies <==>
      manifest.Some? &&
      forall x :: x in manifest.value.dependencies || (useDev && x in manifest.value.devDependencies) ==>
        StartsWith(x, TypesPrefix)
  {
    if manifest.Some? {
      var m := manifest.value;
      SelectedSpec(m, useDev);
      var p := Selected(m, useDev);
      if p != [] {
        assert p[0] in p;
      }
    }
  }

  // ----- consistency -----

  lemma RecordConsistent(st: State, m: string, o: Outcome)
    requires Consistent(st) && !o.Escaped?
    ensures Consistent(Record(st, m, o))
    ensures Record(st, m, o).packages == if o.Caught? then Remove(st.packages, m) else st.packages
  {
    var mid := if o.Caught? then Evict(st, m) else st;
    if o.Caught? {
      EvictConsistent(st, m);
    }
    PushConsistent(mid, m, SampleOf(o));
  }

  lemma EvictConsistent(st: State, m: string)
    requires Consistent(st)
    ensures Consistent(Evict(st, m))
  {
    RemoveDistinct(st.packages, m);
    RemoveDistinct(st.order, m);
    var e := Evict(st, m);
    forall k ensures k in e.order <==> k in e.spans {
      assert k in e.order <==> k in st.order && k != m;
    }
  }

  lemma PushConsistent(st: State, m: string, s: Sample)
    requires Consistent(st)
    ensures Consistent(Push(st, m, s))
  {
    var q := Push(st, m, s);
    if m !in st.spans {
      var o := st.order + [m];
      assert m !in st.order;
      forall i, j | 0 <= i < j < |o| ensures o[i] != o[j] {
        assert o[i] == st.order[i];
      }
      assert q.order == o;
    }
    forall k ensures k in q.order <==> k in q.spans {
      assert k in q.spans <==> k in st.spans || k == m;
    }
  }

  lemma {:induction false} PassConsistent(st: State, r: nat, mods: seq<string>, env: Env)
    requires Consistent(st)
    ensures Consistent(Pass(st, r, mods, env).st)
  {
    if mods != [] {
      PassConsistent(st, r, mods[..|mods| - 1], env);
      var p := Pass(st, r, mods[..|mods| - 1], env);
      if p.Done? {
        var o := OutcomeAt(env, r, mods[|mods| - 1]);
        if !o.Escaped? {
          RecordConsistent(p.st, mods[|mods| - 1], o);
        }
      }
    }
  }

  lemma {:induction false} RunsConsistent(st: State, lo: nat, hi: nat, env: Env)
    requires Consistent(st)
    ensures Consistent(Runs(st, lo, hi, env).st)
    decreases hi
  {
    if hi > lo {
      RunsConsistent(st, lo, hi - 1, env);
      var p := Runs(st, lo, hi - 1, env);
      if p.Done? {
        PassConsistent(p.st, hi - 1, p.st.packages, env);
      }
      assert Runs(st, lo, hi, env) == NextRun(p, hi - 1, env);
    }
  }

  // ----- composing passes and runs -----

  /** A pass over `a + b` is a pass over `a` followed by one over `b`. */
  lemma {:induction false} PassConcat(st: State, r: nat, a: seq<string>, b: seq<string>, env: Env)
    ensures Pass(st, r, a + b, env) == ContinuePass(Pass(st, r, a, env), r, b, env)
  {
    if b == [] {
      assert a + b == a;
    } else {
      PassConcat(st, r, a, b[..|b| - 1], env);
      assert (a + b)[..|a + b| - 1] == a + b[..|b| - 1];
    }
  }

  /** Runs `lo..hi` are runs `lo..mid` followed by runs `mid..hi`. */
  lemma {:induction false} RunsSplit(st: State, lo: nat, mid: nat, hi: nat, env: Env)
    requires lo <= mid <= hi
    ensures Runs(st, lo, hi, env) == ContinueRuns(Runs(st, lo, mid, env), mid, hi, env)
    decreases hi
  {
    if hi > mid {
      RunsSplit(st, lo, mid, hi - 1, env);
      var p := Runs(st, lo, mid, env);
      assert Runs(st, lo, hi, env) == NextRun(ContinueRuns(p, mid, hi - 1, env), hi - 1, env);
      if p.Done? {
        assert ContinueRuns(p, mid, hi, env) == NextRun(Runs(p.st, mid, hi - 1, env), hi - 1, env);
      }
    }
  }

  // ----- no failure -----

  /** A pass in which every load succeeds keeps `packages`, adds the modules
      to the Map's order as `Set.add` would, and appends exactly one
      duration to each module's list. */
  lemma {:induction false} PassAllSucceed(st: State, r: nat, mods: seq<string>, env: Env)
    requires Consistent(st)
    requires forall m :: m in mods ==> OutcomeAt(env, r, m).Duration?
    ensures Pass(st, r, mods, env).Done?
    ensures Pass(st, r, mods, env).st.packages == st.packages
    ensures Pass(st, r, mods, env).st.order == AddAll(st.order, mods)
  {
    if mods != [] {
      var init := mods[..|mods| - 1];
      var x := mods[|mods| - 1];
      PassAllSucceed(st, r, init, env);
      PassConsistent(st, r, init, env);
      var s0 := Pass(st, r, init, env).st;
      PassStep(st, r, init, x, s0, env);
      assert x in s0.spans <==> x in s0.order;
    }
  }

  /** The same pass seen from one module `k`: its list gains exactly one
      duration when `k` is among the modules loaded. */
  lemma {:induction false} PassAllSpans(st: State, r: nat, mods: seq<string>, env: Env, k: string)
    requires Consistent(st) && Distinct(mods)
    requires forall m :: m in mods ==> OutcomeAt(env, r, m).Duration?
    ensures Pass(st, r, mods, env).Done?
    ensures var s := Pass(st, r, mods, env).st;
      && (k in s.spans <==> k in st.spans || k in mods)
      && (k in s.spans ==>
            s.spans[k] == (if k in st.spans then st.spans[k] else [])
                          + (if k in mods then [Ns(OutcomeAt(env, r, k).ns)] else []))
  {
    PassAllSucceed(st, r, mods, env);
    if mods != [] {
      var init := mods[..|mods| - 1];
      var x := mods[|mods| - 1];
      assert x !in init by {
        forall i | 0 <= i < |init| ensures init[i] != x {
          assert init[i] == mods[i];
        }
      }
      assert k in mods <==> k in init || k == x by {
        assert mods == init + [x];
      }
      PassAllSpans(st, r, init, env, k);
      var s0 := Pass(st, r, init, env).st;
      PushAt(s0, x, Ns(OutcomeAt(env, r, x).ns), k);
    }
  }

  /** `Push` seen from one key. */
  lemma PushAt(st: State, m: string, s: Sample, k: string)
    ensures var q := Push(st, m, s);
      && (k in q.spans <==> k in st.spans || k == m)
      && (k in q.spans ==> q.spans[k] == (if k in st.spans then st.spans[k] else []) + (if k == m then [s] else []))
  {
    if k != m && k in st.spans {
      assert st.spans[k] + [] == st.spans[k];
    }
  }

  /** The duration the oracle reports for module `m` in run `r` (0 if none). */
  function DurationAt(env: Env, r: nat, m: string): nat {
    match OutcomeAt(env, r, m)
    case Duration(d) => d
    case _ => 0
  }

  /** After `n` runs without failure over the modules `p`: `packages` is
      unchanged, the Map's order is the module order, and each module's list
      holds exactly one duration per run, in run order. */
  ghost predicate Timed(s: State, p: seq<string>, n: nat, env: Env) {
    && s.packages == p
    && s.order == (if n == 0 then [] else p)
    && (forall k :: k in s.spans <==> n > 0 && k in p)
    && (forall k :: k in s.spans ==>
          |s.spans[k]| == n && forall r :: 0 <= r < n ==> s.spans[k][r] == Ns(DurationAt(env, r, k)))
  }

  lemma NextRunSucceeds(s0: State, p: seq<string>, n: nat, env: Env)
    requires Consistent(s0) && Distinct(p) && Timed(s0, p, n, env)
    requires forall m :: m in p ==> OutcomeAt(env, n, m).Duration?
    ensures Pass(s0, n, p, env).Done? && Timed(Pass(s0, n, p, env).st, p, n + 1, env)
  {
    PassAllSucceed(s0, n, p, env);
    var s := Pass(s0, n, p, env).st;
    assert s.order == p by {
      if n == 0 {
        AddAllFresh([], p);
      } else {
        AddAllPresent(p, p);
      }
    }
    forall k
      ensures k in s.spans <==> k in p
      ensures k in s.spans ==>
        |s.spans[k]| == n + 1 && forall r :: 0 <= r < n + 1 ==> s.spans[k][r] == Ns(DurationAt(env, r, k))
    {
      TimedKey(s0, p, n, env, k);
    }
  }

  /** `NextRunSucceeds` for the list of one module `k`. */
  lemma TimedKey(s0: State, p: seq<string>, n: nat, env: Env, k: string)
    requires Consistent(s0) && Distinct(p) && Timed(s0, p, n, env)
    requires forall m :: m in p ==> OutcomeAt(env, n, m).Duration?
    ensures var s := Pass(s0, n, p, env).st;
      && (k in s.spans <==> k in p)
      && (k in s.spans ==>
            |s.spans[k]| == n + 1 && forall r :: 0 <= r < n + 1 ==> s.spans[k][r] == Ns(DurationAt(env, r, k)))
  {
    PassAllSpans(s0, n, p, env, k);
    var s := Pass(s0, n, p, env).st;
    if k in p {
      var before := if k in s0.spans then s0.spans[k] else [];
      assert |before| == n && forall r :: 0 <= r < n ==> before[r] == Ns(DurationAt(env, r, k));
      assert s.spans[k] == before + [Ns(OutcomeAt(env, n, k).ns)];
      forall r | 0 <= r < n + 1 ensures s.spans[k][r] == Ns(DurationAt(env, r, k)) {
        if r < n {
          assert s.spans[k][r] == before[r];
        }
      }
    }
  }

  lemma {:induction false} AllLoadsSucceed(p: seq<string>, n: nat, env: Env)
    requires Distinct(p)
    requires forall r, m :: 0 <= r < n && m in p ==> OutcomeAt(env, r, m).Duration?
    ensures Runs(Fresh(p), 0, n, env).Done?
    ensures Timed(Runs(Fresh(p), 0, n, env).st, p, n, env)
  {
    if n > 0 {
      AllLoadsSucceed(p, n - 1, env);
      var s0 := Runs(Fresh(p), 0, n - 1, env).st;
      RunsConsistent(Fresh(p), 0, n - 1, env);
      assert Runs(Fresh(p), 0, n, env) == Pass(s0, n - 1, p, env);
      NextRunSucceeds(s0, p, n - 1, env);
    }
  }

  // ----- failures -----

  /** A caught failure evicts the module from `packages`, drops its earlier
      samples, re-creates its entry as `[false]` and moves it to the end of
      the Map's order; no other entry changes. */
  lemma CaughtFailure(st: State, m: string)
    requires Consistent(st)
    ensures var s := Record(st, m, Caught);
      && m !in s.packages
      && s.packages == Remove(st.packages, m)
      && s.spans[m] == [Failed]
      && s.order == Remove(st.order, m) + [m]
      && (forall k :: k != m ==> (k in s.spans <==> k in st.spans))
      && (forall k :: k != m && k in st.spans ==> s.spans[k] == st.spans[k])
  {
  }

  /** A pass that does not visit `m` leaves its entry alone and never puts it
      back into `packages`. */
  lemma {:induction false} PassKeepsAbsent(st: State, r: nat, mods: seq<string>, m: string, env: Env)
    requires m !in mods
    ensures var s := Pass(st, r, mods, env).st;
      && (m in s.packages ==> m in st.packages)
      && (m in s.spans <==> m in st.spans)
      && (m in st.spans ==> s.spans[m] == st.spans[m])
  {
    if mods != [] {
      PassKeepsAbsent(st, r, mods[..|mods| - 1], m, env);
    }
  }

  /** Once out of `packages`, a module is never loaded again: later runs leave
      its entry as it is. */
  lemma {:induction false} RunsKeepEvicted(st: State, lo: nat, hi: nat, m: string, env: Env)
    requires m !in st.packages
    ensures var s := Runs(st, lo, hi, env).st;
      && m !in s.packages
      && (m in s.spans <==> m in st.spans)
      && (m in st.spans ==> s.spans[m] == st.spans[m])
    decreases hi
  {
    if hi > lo {
      var q := Runs(st, lo, hi - 1, env);
      assert m !in q.st.packages && (m in q.st.spans <==> m in st.spans)
          && (m in st.spans ==> q.st.spans[m] == st.spans[m]) by {
        RunsKeepEvicted(st, lo, hi - 1, m, env);
      }
      NextRunKeepsAbsent(q, hi - 1, m, env);
    }
  }

  lemma NextRunKeepsAbsent(p: Progress, r: nat, m: string, env: Env)
    requires m !in p.st.packages
    ensures var s := NextRun(p, r, env).st;
      && m !in s.packages
      && (m in s.spans <==> m in p.st.spans)
      && (m in p.st.spans ==> s.spans[m] == p.st.spans[m])
  {
    if p.Done? {
      PassKeepsAbsent(p.st, r, p.st.packages, m, env);
    }
  }

  /** The decomposition of run `k` around module `m`. */
  lemma SplitAt(snap: seq<string>, m: string) returns (j: nat)
    requires Distinct(snap) && m in snap
    ensures j < |snap| && snap[j] == m && m !in snap[j + 1..]
    ensures snap == snap[..j + 1] + snap[j + 1..] && snap[..j + 1][..j] == snap[..j]
  {
    j := IndexOf(snap, m);
    forall t | j + 1 <= t < |snap| ensures snap[t] != m {
    }
  }

  /** A module whose load fails and is caught in run `k` ends the session
      with exactly `[false]` in `timespans` and outside `packages`, whatever
      it recorded before and however many runs follow. */
  lemma FailureIsFinal(st: State, k: nat, n: nat, m: string, env: Env)
    requires Consistent(st) && k < n
    requires Runs(st, 0, k, env).Done? && m in Runs(st, 0, k, env).st.packages
    requires OutcomeAt(env, k, m).Caught?
    requires Runs(st, 0, n, env).Done?
    ensures var s := Runs(st, 0, n, env).st;
      m !in s.packages && m in s.spans && s.spans[m] == [Failed]
  {
    var after := Runs(st, 0, k + 1, env).st;
    assert Runs(st, 0, n, env) == Runs(after, k + 1, n, env)
        && m !in after.packages && m in after.spans && after.spans[m] == [Failed] by {
      var s0 := Runs(st, 0, k, env).st;
      RunsConsistent(st, 0, k, env);
      assert Runs(st, 0, k + 1, env) == Pass(s0, k, s0.packages, env);
      RunsSplit(st, 0, k + 1, n, env);
      FailureInPass(s0, k, m, env);
    }
    RunsKeepEvicted(after, k + 1, n, m, env);
  }

  /** The run in which the failure is caught: if it completes, the module
      ends it with `[false]` and outside `packages`. */
  lemma FailureInPass(s0: State, k: nat, m: string, env: Env)
    requires Consistent(s0) && m in s0.packages && OutcomeAt(env, k, m).Caught?
    ensures var q := Pass(s0, k, s0.packages, env);
      q.Done? ==> m !in q.st.packages && m in q.st.spans && q.st.spans[m] == [Failed]
  {
    var snap := s0.packages;
    var j := SplitAt(snap, m);
    var head := Pass(s0, k, snap[..j + 1], env);
    var q := Pass(s0, k, snap, env);
    assert q == ContinuePass(head, k, snap[j + 1..], env) by {
      PassConcat(s0, k, snap[..j + 1], snap[j + 1..], env);
    }
    if q.Done? {
      var t0 := Pass(s0, k, snap[..j], env);
      assert t0.Done? && head == Done(Record(t0.st, m, Caught)) by {
        assert snap[..j + 1] == snap[..j] + [m];
      }
      assert m !in head.st.packages && m in head.st.spans && head.st.spans[m] == [Failed] by {
        PassConsistent(s0, k, snap[..j], env);
        CaughtFailure(t0.st, m);
      }
      PassKeepsAbsent(head.st, k, snap[j + 1..], m, env);
    }
  }

  /** A rejection on the isolated path stops the whole loop: the session ends
      without a summary, whatever the remaining runs would have done. */
  lemma RejectionAborts(st: State, k: nat, n: nat, m: string, env: Env)
    requires Consistent(st) && k < n
    requires Runs(st, 0, k, env).Done? && m in Runs(st, 0, k, env).st.packages
    requires OutcomeAt(env, k, m).Escaped?
    ensures Runs(st, 0, n, env).Aborted?
  {
    var s0 := Runs(st, 0, k, env).st;
    RunsConsistent(st, 0, k, env);
    var snap := s0.packages;
    var j := SplitAt(snap, m);
    PassConcat(s0, k, snap[..j + 1], snap[j + 1..], env);
    RunsSplit(st, 0, k + 1, n, env);
  }

  // ----- the implementation -----

  /** The module state of lib/index.js: the options fixed at start-up and the
      `packages` Set and `timespans` Map that `timeload` fills in place. */
  class Harness {
    const useDev: bool
    const useESM: bool
    const numRuns: nat
    var packages: seq<string>
    var order: seq<string>
    var spans: map<string, seq<Sample>>

    ghost function Abs(): State
      reads this
    {
      State(packages, order, spans)
    }

    /** Lines 27-28 and 40-42: empty collections and the options. The two
        flags are what `hasFlag('dev')` and `hasFlag('esm')` answered. */
    constructor (argv: seq<string>, parseInt: string -> Option<int>, dev: bool, esm: bool)
      ensures useDev == dev && useESM == esm && numRuns == NumRuns(argv, parseInt)
      ensures Abs() == Fresh([])
    {
      useDev, useESM := dev, esm;
      numRuns := NumRuns(argv, parseInt);
      packages, order, spans := [], [], map[];
    }

    /** Line 57: `.forEach(packages.add, packages)`. */
    method AddPackages(names: seq<string>)
      modifies this
      ensures packages == AddAll(old(packages), names)
      ensures order == old(order) && spans == old(spans)
    {
      for i := 0 to |names|
        invariant packages == AddAll(old(packages), names[..i])
        invariant order == old(order) && spans == old(spans)
      {
        assert names[..i + 1][..i] == names[..i];
        if names[i] !in packages {
          packages := packages + [names[i]];
        }
      }
      assert names[..|names|] == names;
    }

    /** `requireTime(module)`, lines 115-141, with the oracle's answer for
        this load. A caught failure evicts the module; an isolated rejection
        escapes and changes nothing here. */
    method RequireTime(name: string, step: LoadStep) returns (r: Outcome)
      modifies this
      ensures r == RequireOutcome(useESM, step)
      ensures Abs() == if r.Caught? then Evict(old(Abs()), name) else old(Abs())
    {
      var isolated := Isolated(useESM, step.probe);
      match step.attempt
      case Took(d) =>
        r := Duration(d);
      case Threw =>
        if isolated {
          r := Escaped;
        } else {
          spans := spans - {name};
          order := Remove(order, name);
          packages := Remove(packages, name);
          r := Caught;
        }
    }

    /** Lines 66-67: `timespans.set(module, [])` when the entry is missing,
        then `timespans.get(module).push(timespan)`. */
    method Append(name: string, s: Sample)
      modifies this
      ensures Abs() == Push(old(Abs()), name, s)
    {
      if name !in spans {
        order := order + [name];
        spans := spans[name := []];
      }
      spans := spans[name := spans[name] + [s]];
      if name !in old(spans) {
        assert [] + [s] == [s];
        assert spans == old(spans)[name := [s]];
      }
    }

    /** `timeload()`, lines 50-75. */
    method Timeload(manifest: Option<Manifest>, oracle: (nat, string) -> LoadStep) returns (v: Verdict)
      requires Abs() == Fresh([])
      modifies this
      ensures v == Session(manifest, useDev, numRuns, Env(useESM, oracle))
      ensures manifest.None? || Selected(manifest.value, useDev) == [] ==> Abs() == Fresh([])
      ensures manifest.Some? && Selected(manifest.value, useDev) != [] ==>
        Abs() == Runs(Fresh(Selected(manifest.value, useDev)), 0, numRuns, Env(useESM, oracle)).st
    {
      if manifest.None? {
        return Unreadable;
      }
      AddPackages(Candidates(manifest.value, useDev));
      assert Abs() == Fresh(Selected(manifest.value, useDev));
      if |packages| == 0 {
        return NoDependencies;
      }
      SelectedSpec(manifest.value, useDev);
      v := Measure(oracle);
    }

    /** Lines 61-75 once the Set is filled: `numRuns` runs, then
        `summary()` unless a rejection escaped first. */
    method Measure(oracle: (nat, string) -> LoadStep) returns (v: Verdict)
      requires Consistent(Abs())
      modifies this
      ensures Abs() == Runs(old(Abs()), 0, numRuns, Env(useESM, oracle)).st
      ensures v == Conclude(old(Abs()), numRuns, Env(useESM, oracle))
    {
      ghost var env := Env(useESM, oracle);
      ghost var start := Abs();
      var i := 0;
      while i < numRuns
        invariant 0 <= i <= numRuns
        invariant Consistent(Abs())
        invariant Runs(start, 0, i, env) == Done(Abs())
      {
        ghost var before := Abs();
        var rejected := LoadAll(i, oracle);
        assert Runs(start, 0, i + 1, env) == Pass(before, i, before.packages, env);
        if rejected {
          assert Runs(start, 0, numRuns, env) == Aborted(Abs()) by {
            RunsSplit(start, 0, i + 1, numRuns, env);
          }
          return Rejected;
        }
        i := i + 1;
      }
      var rep := Summary();
      v := Reported(rep);
    }

    /** Run `run` of the outer loop, lines 62-68: `for await (const module of
        packages)` walks the live Set. When the current module is deleted the
        next one moves into its place, so the position only advances past a
        module that is still there; the result is a pass over the modules
        present when the run started. */
    method LoadAll(run: nat, oracle: (nat, string) -> LoadStep) returns (rejected: bool)
      requires Consistent(Abs())
      modifies this
      ensures Consistent(Abs())
      ensures Pass(old(Abs()), run, old(packages), Env(useESM, oracle)) ==
        if rejected then Aborted(Abs()) else Done(Abs())
    {
      ghost var env := Env(useESM, oracle);
      ghost var runStart := Abs();
      ghost var snap := packages;
      ghost var p := 0;
      var j := 0;
      while j < |packages|
        invariant 0 <= j <= |packages| && 0 <= p <= |snap|
        invariant packages[j..] == snap[p..]
        invariant Pass(runStart, run, snap[..p], env) == Done(Abs())
        decreases |snap| - p
      {
        var name := packages[j];
        ghost var before := Abs();
        PassConsistent(runStart, run, snap[..p], env);
        assert before.packages[j..][0] == name;
        var r := RequireTime(name, oracle(run, name));
        if r.Escaped? {
          PassStops(runStart, run, snap, p, before, env);
          return true;
        }
        assert r == OutcomeAt(env, run, name);
        ghost var loaded := Abs();
        Append(name, SampleOf(r));
        assert Abs() == Record(before, name, r) by {
          assert loaded == if r.Caught? then Evict(before, name) else before;
        }
        PassAdvance(runStart, run, snap, p, before, j, env);
        assert Pass(runStart, run, snap[..p + 1], env) == Done(Abs());
        if j < |packages| && packages[j] == name {
          j := j + 1;
        }
        p := p + 1;
      }
      assert snap[..p] == snap;
      PassConsistent(runStart, run, snap, env);
      return false;
    }

    /** `summary()`, lines 80-103: the `forEach` over `timespans` accumulates
        the total and fills the `averages` Map; then sort, sum and percentages. */
    method Summary() returns (rep: Report)
      requires Complete(order, spans)
      ensures rep == Summarize(order, spans, numRuns)
    {
      var totalLoadTime: nat := 0;
      var averages: seq<Entry> := [];
      for i := 0 to |order|
        invariant averages == Averages(order[..i], spans)
        invariant totalLoadTime == Sum(AllSamples(order[..i], spans))
      {
        var loadTimes := spans[order[i]];
        var loadTime := Sum(loadTimes);
        assert order[..i + 1][..i] == order[..i];
        SumConcat(AllSamples(order[..i], spans), loadTimes);
        totalLoadTime := totalLoadTime + loadTime;
        averages := averages + [Entry(order[i], loadTime as real / |loadTimes| as real)];
      }
      assert order[..|order|] == order;
      var sorted := SortByAverage(averages);
      var averageLoadTime := SumAverages(sorted);
      rep := Report(Rows(sorted, averageLoadTime), numRuns, averageLoadTime, numRuns > 1, totalLoadTime);
    }
  }
}
