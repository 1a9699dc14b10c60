/**
 * The structured-diff engine, `compare_output(old, new, commandlist)`.
 *
 * For every name of the merged task list, in order, the engine looks the
 * name up in the probe registry (an unknown name yields one WARNING), skips
 * names outside a non-empty `commandlist`, and otherwise parses both raw
 * captures with the probe (the empty string standing in for a missing old
 * value) and appends what the probe's `compare` returns. A `compare` that
 * returns anything but a list aborts the whole comparison.
 */
module DiffEngine {
  import opened Commands
  import opened Utils

  /** Why a whole comparison is abandoned instead of returning anomalies. */
  datatype Error =
    | UnexpectedReturnType(task: string)  // a probe's compare returned a non-list
    | MissingNewValue(task: string)       // `new[task_name]` raised KeyError

  datatype Result<T> = Ok(value: T) | Fail(error: Error)

  /** What one comparison works on: the baseline, the new snapshot, the filter and the registry. */
  datatype Inputs<!S> = Inputs(base: Snapshot, current: Snapshot,
                               commandlist: Option<seq<string>>, registry: Registry<S>)

  /** Any falsy `old` (`None` or `{}`) means "no baseline yet", the empty dict. */
  function Baseline(oldSnap: Option<Snapshot>): (base: Snapshot)
    ensures oldSnap.None? ==> base == EmptySnapshot
    ensures oldSnap.Some? && oldSnap.value.IsEmpty() ==> base == EmptySnapshot
    ensures oldSnap.Some? && !oldSnap.value.IsEmpty() ==> base == oldSnap.value
  {
    if oldSnap.None? || oldSnap.value.IsEmpty() then EmptySnapshot else oldSnap.value
  }

  /** `commandlist` lets `name` through: it is `None` or empty (falsy), or it lists `name`. */
  predicate Selected(commandlist: Option<seq<string>>, name: string)
  {
    commandlist.None? || commandlist.value == [] || name in commandlist.value
  }

  const UnknownPrefix := "unknown command with name "
  const UnknownSuffix := " found (cache generated by older version?)"

  /** The text of the warning for a task name the registry does not know. */
  function UnknownMessage(name: string): (msg: string)
    ensures |msg| == |UnknownPrefix| + |name| + |UnknownSuffix|
    ensures msg[|UnknownPrefix|..|UnknownPrefix| + |name|] == name
  {
    UnknownPrefix + name + UnknownSuffix
  }

  /**
   * The contribution of one task: one warning for an unknown name (checked
   * before the filter), nothing for a name the filter leaves out, otherwise
   * the list the probe's compare returns, or the error that aborts the call.
   */
  function TaskResult<S>(name: string, inp: Inputs<S>): (r: Result<seq<Anomaly>>)
    ensures name !in inp.registry ==> r.Ok? && |r.value| == 1 && r.value[0].kind == Warning
    ensures r.Fail? ==> r.error.task == name && name in inp.registry && Selected(inp.commandlist, name)
    ensures r.Fail? && r.error.MissingNewValue? ==> name !in inp.current.values
    ensures name in inp.registry && Selected(inp.commandlist, name) && name in inp.current.values ==>
      var probe := inp.registry[name];
      var oldRaw := if name in inp.base.values then inp.base.values[name] else "";
      var ret := probe.compare(probe.parse(oldRaw), probe.parse(inp.current.values[name]));
      (ret.AList? ==> r == Ok(ret.items)) && (ret.NotAList? ==> r == Fail(UnexpectedReturnType(name)))
  {
    if name !in inp.registry then Ok([W(UnknownMessage(name))])
    else if !Selected(inp.commandlist, name) then Ok([])
    else if name !in inp.current.values then Fail(MissingNewValue(name))
    else
      var oldRaw := if name in inp.base.values then inp.base.values[name] else "";
      ProbeResult(name, inp.registry[name], oldRaw, inp.current.values[name])
  }

  /** Parse both raw captures with `probe` and compare them; a non-list result is an error. */
  function ProbeResult<S>(name: string, probe: Probe<S>, oldRaw: string, newRaw: string): Result<seq<Anomaly>>
  {
    match probe.compare(probe.parse(oldRaw), probe.parse(newRaw))
    case AList(items) => Ok(items)
    case NotAList => Fail(UnexpectedReturnType(name))
  }

  /** Sequencing of two partial results: the first failure wins, lists concatenate. */
  function Then(first: Result<seq<Anomaly>>, second: Result<seq<Anomaly>>): Result<seq<Anomaly>>
  {
    match first
    case Fail(e) => Fail(e)
    case Ok(xs) =>
      match second
      case Fail(e) => Fail(e)
      case Ok(ys) => Ok(xs + ys)
  }

  /** The result of the first `n` tasks, processed in order: where the loop stands after `n` passes. */
  function Processed<S>(tasks: seq<string>, n: nat, inp: Inputs<S>): Result<seq<Anomaly>>
    requires n <= |tasks|
  {
    if n == 0 then Ok([]) else Then(Processed(tasks, n - 1, inp), TaskResult(tasks[n - 1], inp))
  }

  /** The result of processing every task of `tasks` in order. */
  function Aggregate<S>(tasks: seq<string>, inp: Inputs<S>): Result<seq<Anomaly>>
  {
    Processed(tasks, |tasks|, inp)
  }

  /** The inputs `compare_output(old, new, commandlist)` works on. */
  function InputsOf<S>(oldSnap: Option<Snapshot>, newSnap: Snapshot,
                       commandlist: Option<seq<string>>, registry: Registry<S>): Inputs<S>
  {
    Inputs(Baseline(oldSnap), newSnap, commandlist, registry)
  }

  /** What `compare_output(old, new, commandlist)` returns or raises. */
  function Diff<S>(oldSnap: Option<Snapshot>, newSnap: Snapshot,
                   commandlist: Option<seq<string>>, registry: Registry<S>): (r: Result<seq<Anomaly>>)
    ensures r.Fail? ==> r.error.task in registry && Selected(commandlist, r.error.task)
    ensures r.Fail? ==> r.error.task in Baseline(oldSnap).keys || r.error.task in newSnap.keys
    ensures registry == map[] ==> r.Ok?
  {
    var inp := InputsOf(oldSnap, newSnap, commandlist, registry);
    var tasks := MergeKeysToList(inp.base, newSnap);
    var r := Aggregate(tasks, inp);
    if r.Fail? then
      AggregateFailsAtFirst(tasks, inp);
      r
    else r
  }

  /** `compare_output`: the loop over the merged task list. */
  method CompareOutput<S>(oldSnap: Option<Snapshot>, newSnap: Snapshot,
                          commandlist: Option<seq<string>>, registry: Registry<S>)
    returns (r: Result<seq<Anomaly>>)
    ensures r == Diff(oldSnap, newSnap, commandlist, registry)
  {
    var anomalies: seq<Anomaly> := [];
    var base := if oldSnap.None? || oldSnap.value.IsEmpty() then EmptySnapshot else oldSnap.value;
    var tasks := MergeKeysToList(base, newSnap);
    ghost var inp := Inputs(base, newSnap, commandlist, registry);
    DiffIsAggregate(oldSnap, newSnap, commandlist, registry, base);
    var i := 0;
    while i < |tasks|
      invariant 0 <= i <= |tasks|
      invariant Processed(tasks, i, inp) == Ok(anomalies)
    {
      var ret := CompareTask(tasks[i], base, newSnap, commandlist, registry);
      if ret.Fail? {
        ProcessedStopsAtFailure(tasks, i + 1, |tasks|, inp);
        return ret;
      }
      anomalies := anomalies + ret.value;
      i := i + 1;
    }
    return Ok(anomalies);
  }

  /** `Diff` runs the task list merged from the baseline `compare_output` picks. */
  lemma DiffIsAggregate<S>(oldSnap: Option<Snapshot>, newSnap: Snapshot, commandlist: Option<seq<string>>,
                           registry: Registry<S>, base: Snapshot)
    requires base == if oldSnap.None? || oldSnap.value.IsEmpty() then EmptySnapshot else oldSnap.value
    ensures Diff(oldSnap, newSnap, commandlist, registry)
            == Aggregate(MergeKeysToList(base, newSnap), Inputs(base, newSnap, commandlist, registry))
  {
  }

  /**
   * One pass of the loop body of `compare_output` for `name`: the registry
   * lookup, the filter, parsing both sides and the probe's compare.
   */
  method CompareTask<S>(name: string, base: Snapshot, newSnap: Snapshot,
                        commandlist: Option<seq<string>>, registry: Registry<S>)
    returns (r: Result<seq<Anomaly>>)
    ensures r == TaskResult(name, Inputs(base, newSnap, commandlist, registry))
  {
    if name !in registry {
      return Ok([W(UnknownMessage(name))]);
    }
    if commandlist.Some? && commandlist.value != [] && name !in commandlist.value {
      return Ok([]);
    }
    var probe := registry[name];
    var oldRaw := if name in base.values then base.values[name] else "";
    var oldData := probe.parse(oldRaw);
    if name !in newSnap.values {
      return Fail(MissingNewValue(name));
    }
    var newData := probe.parse(newSnap.values[name]);
    var ret := probe.compare(oldData, newData);
    if ret.NotAList? {
      return Fail(UnexpectedReturnType(name));
    }
    return Ok(ret.items);
  }

  /**
   * A registered, selected task present in `new` runs its probe: the old raw
   * value (or `""`) and the new one are parsed, and a list returned by
   * `compare` is the task's contribution unchanged, a non-list its error.
   */
  lemma SelectedTaskRunsProbe<S>(name: string, inp: Inputs<S>)
    requires name in inp.registry && Selected(inp.commandlist, name) && name in inp.current.values
    ensures var probe := inp.registry[name];
      var oldRaw := if name in inp.base.values then inp.base.values[name] else "";
      var ret := probe.compare(probe.parse(oldRaw), probe.parse(inp.current.values[name]));
      && (ret.AList? ==> TaskResult(name, inp) == Ok(ret.items))
      && (ret.NotAList? ==> TaskResult(name, inp) == Fail(UnexpectedReturnType(name)))
  {
  }

  /** One selected task whose probe's compare returns a non-list makes the whole comparison fail. */
  lemma NonListAborts<S>(tasks: seq<string>, inp: Inputs<S>, i: nat)
    requires i < |tasks|
    requires tasks[i] in inp.registry && Selected(inp.commandlist, tasks[i]) && tasks[i] in inp.current.values
    requires var probe := inp.registry[tasks[i]];
      var oldRaw := if tasks[i] in inp.base.values then inp.base.values[tasks[i]] else "";
      probe.compare(probe.parse(oldRaw), probe.parse(inp.current.values[tasks[i]])).NotAList?
    ensures Aggregate(tasks, inp).Fail?
  {
    SelectedTaskRunsProbe(tasks[i], inp);
    AggregateOkIff(tasks, inp);
  }

  /** Once the first `k` tasks fail, processing more of them keeps that failure. */
  lemma {:induction false} ProcessedStopsAtFailure<S>(tasks: seq<string>, k: nat, n: nat, inp: Inputs<S>)
    requires k <= n <= |tasks|
    requires Processed(tasks, k, inp).Fail?
    ensures Processed(tasks, n, inp) == Processed(tasks, k, inp)
  {
    if n > k {
      ProcessedStopsAtFailure(tasks, k, n - 1, inp);
    }
  }

  /** Passing `None` as `old` and passing an empty dict are the same call. */
  lemma NoBaselineIsEmptyDict<S>(empty: Snapshot, newSnap: Snapshot,
                                 commandlist: Option<seq<string>>, registry: Registry<S>)
    requires empty.IsEmpty()
    ensures Diff(None, newSnap, commandlist, registry) == Diff(Some(empty), newSnap, commandlist, registry)
    ensures Diff(None, newSnap, commandlist, registry) == Diff(Some(EmptySnapshot), newSnap, commandlist, registry)
  {
  }

  /**
   * A name the registry does not know yields exactly one WARNING naming it,
   * whatever the filter: the lookup comes before the filter check.
   */
  lemma UnknownTaskWarns<S>(name: string, inp: Inputs<S>)
    requires name !in inp.registry
    ensures TaskResult(name, inp).Ok?
    ensures |TaskResult(name, inp).value| == 1
    ensures TaskResult(name, inp).value[0].kind == Warning
    ensures TaskResult(name, inp).value[0].message[|UnknownPrefix|..|UnknownPrefix| + |name|] == name
    ensures forall f :: TaskResult(name, inp.(commandlist := f)) == TaskResult(name, inp)
  {
  }

  /**
   * A registered name outside a non-empty `commandlist` contributes nothing,
   * and its probe is never consulted: any other probe in its place gives the
   * same result.
   */
  lemma UnselectedTaskSilent<S>(name: string, inp: Inputs<S>, other: Probe<S>)
    requires name in inp.registry && !Selected(inp.commandlist, name)
    ensures TaskResult(name, inp) == Ok([])
    ensures TaskResult(name, inp.(registry := inp.registry[name := other])) == Ok([])
  {
  }

  /** A `None` or empty `commandlist` filters nothing. */
  lemma EmptyFilterSelectsAll(name: string, commandlist: Option<seq<string>>)
    requires commandlist.None? || commandlist.value == []
    ensures Selected(commandlist, name)
  {
  }

  /** A task absent from the baseline has its old side parsed from the empty string. */
  lemma MissingOldParsesEmpty<S>(name: string, inp: Inputs<S>)
    requires name in inp.registry && Selected(inp.commandlist, name)
    requires name !in inp.base.values && name in inp.current.values
    ensures TaskResult(name, inp) == ProbeResult(name, inp.registry[name], "", inp.current.values[name])
  {
  }

  /** The first `n` tasks succeed together exactly when each of them succeeds on its own. */
  lemma {:induction false} ProcessedOkIff<S>(tasks: seq<string>, n: nat, inp: Inputs<S>)
    requires n <= |tasks|
    ensures Processed(tasks, n, inp).Ok? <==> forall i :: 0 <= i < n ==> TaskResult(tasks[i], inp).Ok?
  {
    if n > 0 {
      ProcessedOkIff(tasks, n - 1, inp);
    }
  }

  /** The whole comparison succeeds exactly when every task's own step succeeds. */
  lemma AggregateOkIff<S>(tasks: seq<string>, inp: Inputs<S>)
    ensures Aggregate(tasks, inp).Ok? <==> forall i :: 0 <= i < |tasks| ==> TaskResult(tasks[i], inp).Ok?
  {
    ProcessedOkIff(tasks, |tasks|, inp);
  }

  /**
   * When the first `n` tasks fail, they fail with the error of the first task
   * whose own step fails, every task before it having succeeded.
   */
  lemma {:induction false} ProcessedFailsAtFirst<S>(tasks: seq<string>, n: nat, inp: Inputs<S>)
    requires n <= |tasks|
    requires Processed(tasks, n, inp).Fail?
    ensures exists i :: 0 <= i < n && TaskResult(tasks[i], inp) == Processed(tasks, n, inp)
                        && forall j :: 0 <= j < i ==> TaskResult(tasks[j], inp).Ok?
  {
    if Processed(tasks, n - 1, inp).Fail? {
      ProcessedFailsAtFirst(tasks, n - 1, inp);
    } else {
      ProcessedOkIff(tasks, n - 1, inp);
      assert TaskResult(tasks[n - 1], inp) == Processed(tasks, n, inp);
    }
  }

  /**
   * A failing comparison fails with the error of the first task whose step
   * fails; every task before it succeeded. No partial anomaly list survives.
   */
  lemma AggregateFailsAtFirst<S>(tasks: seq<string>, inp: Inputs<S>)
    requires Aggregate(tasks, inp).Fail?
    ensures exists i :: 0 <= i < |tasks| && TaskResult(tasks[i], inp) == Aggregate(tasks, inp)
                        && forall j :: 0 <= j < i ==> TaskResult(tasks[j], inp).Ok?
  {
    ProcessedFailsAtFirst(tasks, |tasks|, inp);
  }

  /** The anomalies of every task, task by task from the first, each in its own order. */
  function Contributions<S>(tasks: seq<string>, inp: Inputs<S>): seq<Anomaly>
    requires forall i :: 0 <= i < |tasks| ==> TaskResult(tasks[i], inp).Ok?
  {
    if tasks == [] then []
    else TaskResult(tasks[0], inp).value + Contributions(tasks[1..], inp)
  }

  /** Adding one more successful task at the end appends its contribution. */
  lemma {:induction false} ContributionsSnoc<S>(tasks: seq<string>, last: string, inp: Inputs<S>)
    requires forall i :: 0 <= i < |tasks| ==> TaskResult(tasks[i], inp).Ok?
    requires TaskResult(last, inp).Ok?
    ensures Contributions(tasks + [last], inp) == Contributions(tasks, inp) + TaskResult(last, inp).value
  {
    if tasks == [] {
      assert [] + [last] == [last];
      assert [last][1..] == [];
    } else {
      assert (tasks + [last])[1..] == tasks[1..] + [last];
      ContributionsSnoc(tasks[1..], last, inp);
    }
  }

  /** The first `n` tasks, when all succeed, give the concatenation of their contributions. */
  lemma {:induction false} ProcessedIsConcatenation<S>(tasks: seq<string>, n: nat, inp: Inputs<S>)
    requires n <= |tasks|
    requires forall i :: 0 <= i < |tasks| ==> TaskResult(tasks[i], inp).Ok?
    ensures Processed(tasks, n, inp) == Ok(Contributions(tasks[..n], inp))
  {
    if n > 0 {
      ProcessedIsConcatenation(tasks, n - 1, inp);
      assert tasks[..n] == tasks[..n - 1] + [tasks[n - 1]];
      ContributionsSnoc(tasks[..n - 1], tasks[n - 1], inp);
    }
  }

  /** A successful comparison returns the concatenation, in task order, of each task's contribution. */
  lemma AggregateIsConcatenation<S>(tasks: seq<string>, inp: Inputs<S>)
    requires forall i :: 0 <= i < |tasks| ==> TaskResult(tasks[i], inp).Ok?
    ensures Aggregate(tasks, inp) == Ok(Contributions(tasks, inp))
  {
    ProcessedIsConcatenation(tasks, |tasks|, inp);
    assert tasks[..|tasks|] == tasks;
  }

  /** One unknown-name warning per task, in task order. */
  function UnknownWarnings(tasks: seq<string>): (ws: seq<Anomaly>)
    ensures |ws| == |tasks|
  {
    seq(|tasks|, i requires 0 <= i < |tasks| => W(UnknownMessage(tasks[i])))
  }

  /** With an empty registry each of the first `n` tasks yields its unknown-name warning. */
  lemma {:induction false} EmptyRegistryWarnsEach<S>(tasks: seq<string>, n: nat, inp: Inputs<S>)
    requires n <= |tasks|
    requires inp.registry == map[]
    ensures Processed(tasks, n, inp) == Ok(UnknownWarnings(tasks[..n]))
  {
    if n > 0 {
      EmptyRegistryWarnsEach(tasks, n - 1, inp);
      assert UnknownWarnings(tasks[..n])
          == UnknownWarnings(tasks[..n - 1]) + [W(UnknownMessage(tasks[n - 1]))];
    }
  }

  /** Swapping the probe of a registered name the filter leaves out changes nothing anywhere. */
  lemma {:induction false} UnselectedProbeIrrelevant<S>(tasks: seq<string>, n: nat, inp: Inputs<S>,
                                                        name: string, other: Probe<S>)
    requires n <= |tasks|
    requires name in inp.registry && !Selected(inp.commandlist, name)
    ensures Processed(tasks, n, inp.(registry := inp.registry[name := other])) == Processed(tasks, n, inp)
  {
    var swapped := inp.(registry := inp.registry[name := other]);
    if n > 0 {
      var task := tasks[n - 1];
      UnselectedProbeIrrelevant(tasks, n - 1, inp, name, other);
      if task != name {
        assert task in swapped.registry <==> task in inp.registry;
        assert task in inp.registry ==> swapped.registry[task] == inp.registry[task];
        assert TaskResult(task, swapped) == TaskResult(task, inp);
      } else {
        UnselectedTaskSilent(name, inp, other);
      }
    }
  }

  /** A task whose new value is present can only fail through its probe's return value. */
  lemma TaskFailsOnlyOnReturnType<S>(name: string, inp: Inputs<S>)
    requires name in inp.current.values
    ensures TaskResult(name, inp).Fail? ==> TaskResult(name, inp).error == UnexpectedReturnType(name)
  {
  }

  /** Every name the merged task list holds is a key of the baseline or of the new snapshot. */
  lemma MergedTasksComeFromSnapshots(base: Snapshot, current: Snapshot, k: nat)
    requires base.Valid() && current.Valid()
    requires k < |MergeKeysToList(base, current)|
    ensures MergeKeysToList(base, current)[k] in base.values || MergeKeysToList(base, current)[k] in current.values
  {
  }

  /**
   * When every key of a valid baseline is also in the new snapshot, the
   * `new[task_name]` lookup never raises KeyError; the only way the call can
   * fail is a probe returning a non-list.
   */
  lemma NoKeyErrorWhenNewCoversOld<S>(oldSnap: Option<Snapshot>, newSnap: Snapshot,
                                      commandlist: Option<seq<string>>, registry: Registry<S>)
    requires oldSnap.Some? ==> oldSnap.value.Valid()
    requires newSnap.Valid()
    requires forall k :: k in Baseline(oldSnap).values ==> k in newSnap.values
    ensures Diff(oldSnap, newSnap, commandlist, registry).Fail? ==>
              Diff(oldSnap, newSnap, commandlist, registry).error.UnexpectedReturnType?
  {
    var inp := InputsOf(oldSnap, newSnap, commandlist, registry);
    var tasks := MergeKeysToList(inp.base, newSnap);
    assert inp.base.Valid();
    if Aggregate(tasks, inp).Fail? {
      AggregateFailsAtFirst(tasks, inp);
      var i :| 0 <= i < |tasks| && TaskResult(tasks[i], inp) == Aggregate(tasks, inp)
               && forall j :: 0 <= j < i ==> TaskResult(tasks[j], inp).Ok?;
      MergedTasksComeFromSnapshots(inp.base, newSnap, i);
      assert tasks[i] in newSnap.values;
      TaskFailsOnlyOnReturnType(tasks[i], inp);
    }
  }

  /** An unknown probe name in identical snapshots yields exactly one WARNING about it. */
  lemma UnknownProbeScenario<S>(registry: Registry<S>)
    requires "foo" !in registry
    ensures Diff(Some(Snapshot(["foo"], map["foo" := "x"])), Snapshot(["foo"], map["foo" := "x"]),
                 None, registry)
         == Ok([Anomaly(Warning, UnknownMessage("foo"))])
  {
    var snap := Snapshot(["foo"], map["foo" := "x"]);
    var inp := InputsOf(Some(snap), snap, None, registry);
    assert !snap.IsEmpty();
    assert inp.base == snap;
    assert OnlyIn(["foo"], snap.values) == [];
    assert MergeKeysToList(snap, snap) == ["foo"];
    assert TaskResult("foo", inp) == Ok([W(UnknownMessage("foo"))]);
    assert Processed(["foo"], 1, inp) == Then(Ok([]), TaskResult("foo", inp));
    assert [] + [W(UnknownMessage("foo"))] == [W(UnknownMessage("foo"))];
    assert Diff(Some(snap), snap, None, registry) == Aggregate(["foo"], inp);
  }
}
