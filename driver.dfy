/**
 * The decisions `run` takes around the diff engine: the `-m` bound check,
 * whether the new snapshot is cached, the default command list, the
 * warnings it adds before the comparison, the cache lookups of an explicit
 * id-to-id comparison, and what it hands to `print_anomalies`.
 *
 * Argument parsing, the root prompt, collecting a snapshot (`local_run`) and
 * the cache's file persistence are outside the model: the parsed arguments,
 * the collected snapshot and the loaded cache's contents are parameters.
 */
module Driver {
  import opened Commands
  import opened Utils
  import opened DiffEngine
  import opened Presentation

  const DefaultMaxCacheEntries := 16
  const NoBaselineMessage := "no cache entry found yet so caching baseline"
  const PartialRunMessage := "results NOT cached as only partial command list being run"

  /** The `-A`, `-C`, `-E` and `-L` options are mutually exclusive: at most one action. */
  datatype Action = NoAction | Analyze | CompareCache(id1: int, id2: int) | ListCommands | ListCache

  /** How a run ends. */
  datatype Outcome =
    | InvalidMaxCacheEntries                  // the `-m` bound check failed; exit status 1
    | NoActionSelected                        // "select an action -A/C/E/L"
    | Listed                                  // `-E` or `-L`: a listing is printed, nothing compared
    | EntryNotFound(id: int)                  // `-C`: a requested cache entry is missing or empty
    | Aborted(error: Error)                   // `compare_output` raised
    | Reported(anomalies: seq<Anomaly>,       // what is handed to `print_anomalies`
               report: Report,                // what `print_anomalies` prints
               added: Option<Snapshot>,       // the snapshot appended to the cache, if any
               purgeLimit: int)               // the bound the cache is purged to before saving

  /** `-m` is accepted exactly when it lies between 1 and 1024 inclusive. */
  function MaxCacheEntriesValid(n: int): (ok: bool)
    ensures ok <==> 1 <= n <= 1024
  {
    !(n < 1 || n > 1024)
  }

  /** The default `-m` passes its own bound check. */
  lemma DefaultMaxCacheEntriesValid()
    ensures MaxCacheEntriesValid(DefaultMaxCacheEntries)
  {
  }

  /** `-e` was not given (or given nothing): a full run. */
  predicate FullCommandList(commandlist: Option<seq<string>>)
  {
    commandlist.None? || commandlist.value == []
  }

  /** `add_to_cache`: only a full analysis is cached. */
  function AddToCache(commandlist: Option<seq<string>>, analyze: bool): (add: bool)
    ensures add <==> analyze && FullCommandList(commandlist)
  {
    !(commandlist.Some? && commandlist.value != []) && analyze
  }

  /** The command list the comparison is filtered by: the given one, or every built-in probe's name. */
  function EffectiveCommandList<S>(commandlist: Option<seq<string>>, commands: seq<Probe<S>>): (names: seq<string>)
    ensures FullCommandList(commandlist) ==> names == Names(commands)
    ensures !FullCommandList(commandlist) ==> names == commandlist.value
  {
    if FullCommandList(commandlist) then Names(commands) else commandlist.value
  }

  /** The names of the built-in probes, appended one by one (`for cmd in commands.COMMANDS`). */
  method DefaultCommandList<S>(commands: seq<Probe<S>>) returns (names: seq<string>)
    ensures names == Names(commands)
  {
    names := [];
    var i := 0;
    while i < |commands|
      invariant 0 <= i <= |commands|
      invariant |names| == i
      invariant forall j :: 0 <= j < i ==> names[j] == commands[j].name
    {
      names := names + [commands[i].name];
      i := i + 1;
    }
  }

  /** The warnings an analysis adds before the comparison's own anomalies. */
  function EarlierWarnings(commandlist: Option<seq<string>>, last: Option<Snapshot>): (ws: seq<Anomaly>)
    ensures |ws| <= 1
    ensures forall i :: 0 <= i < |ws| ==> ws[i].kind == Warning
    ensures !FullCommandList(commandlist) ==> ws == [W(PartialRunMessage)]
    ensures FullCommandList(commandlist) && (last.None? || last.value.IsEmpty()) ==> ws == [W(NoBaselineMessage)]
    ensures FullCommandList(commandlist) && last.Some? && !last.value.IsEmpty() ==> ws == []
  {
    if FullCommandList(commandlist) then
      (if last.None? || last.value.IsEmpty() then [W(NoBaselineMessage)] else [])
    else [W(PartialRunMessage)]
  }

  /** A cache entry lookup as `run` tests it: a missing entry and an empty snapshot are both falsy. */
  predicate EntryPresent(entries: map<int, Snapshot>, id: int)
    ensures EntryPresent(entries, id) <==> id in entries && entries[id].values != map[]
  {
    id in entries && !entries[id].IsEmpty()
  }

  /**
   * `run` after the arguments are parsed, the root prompt answered, a snapshot
   * `collected` gathered and the cache loaded: `last` is its last entry and
   * `entries` its entries by id.
   */
  method Run<S>(maxCacheEntries: int, action: Action, commandlist: Option<seq<string>>, showDebug: bool,
                commands: seq<Probe<S>>, registry: Registry<S>,
                collected: Snapshot, last: Option<Snapshot>, entries: map<int, Snapshot>)
    returns (out: Outcome)
    ensures out == InvalidMaxCacheEntries <==> !MaxCacheEntriesValid(maxCacheEntries)
    ensures MaxCacheEntriesValid(maxCacheEntries) && action.NoAction? ==> out == NoActionSelected
    ensures MaxCacheEntriesValid(maxCacheEntries) && (action.ListCache? || action.ListCommands?) ==> out == Listed
    ensures out.Reported? ==> out.report == PrintAnomalies(out.anomalies, showDebug)
    ensures out.Reported? ==> out.purgeLimit == maxCacheEntries
    ensures out.Reported? ==> out.added == (if AddToCache(commandlist, action.Analyze?) then Some(collected) else None)
    ensures MaxCacheEntriesValid(maxCacheEntries) && action.Analyze? ==>
      var tasks := EffectiveCommandList(commandlist, commands);
      match Diff(last, collected, Some(tasks), registry)
      case Fail(e) => out == Aborted(e)
      case Ok(found) => out.Reported? && out.anomalies == EarlierWarnings(commandlist, last) + found
    ensures MaxCacheEntriesValid(maxCacheEntries) && action.CompareCache? ==>
      var tasks := EffectiveCommandList(commandlist, commands);
      if !EntryPresent(entries, action.id2) then out == EntryNotFound(action.id2)
      else if !EntryPresent(entries, action.id1) then out == EntryNotFound(action.id1)
      else match Diff(Some(entries[action.id1]), entries[action.id2], Some(tasks), registry)
        case Fail(e) => out == Aborted(e)
        case Ok(found) => out.Reported? && out.anomalies == found
  {
    if maxCacheEntries < 1 || maxCacheEntries > 1024 {
      return InvalidMaxCacheEntries;
    }
    if action.NoAction? {
      return NoActionSelected;
    }
    if action.ListCache? || action.ListCommands? {
      return Listed;
    }

    var addToCache := AddToCache(commandlist, action.Analyze?);

    var tasks: seq<string>;
    if commandlist.None? || commandlist.value == [] {
      tasks := DefaultCommandList(commands);
    } else {
      tasks := commandlist.value;
    }
    assert tasks == EffectiveCommandList(commandlist, commands);

    var anomalies: seq<Anomaly> := [];
    var added: Option<Snapshot> := None;
    var newSnap: Snapshot;
    var oldSnap: Option<Snapshot>;
    if action.Analyze? {
      newSnap := collected;
      oldSnap := last;
      if addToCache {
        if oldSnap.None? || oldSnap.value.IsEmpty() {
          anomalies := anomalies + [W(NoBaselineMessage)];
        }
        added := Some(newSnap);
      } else {
        anomalies := anomalies + [W(PartialRunMessage)];
      }
      assert anomalies == EarlierWarnings(commandlist, last);
    } else {
      if action.id2 !in entries || entries[action.id2].IsEmpty() {
        return EntryNotFound(action.id2);
      }
      newSnap := entries[action.id2];
      if action.id1 !in entries || entries[action.id1].IsEmpty() {
        return EntryNotFound(action.id1);
      }
      oldSnap := Some(entries[action.id1]);
    }

    out := CompareAndReport(anomalies, oldSnap, newSnap, tasks, registry, showDebug, added, maxCacheEntries);
  }

  /**
   * The end of `run`: compare, then hand the earlier warnings followed by the
   * comparison's anomalies to `print_anomalies`; a raise aborts the run.
   */
  method CompareAndReport<S>(earlier: seq<Anomaly>, oldSnap: Option<Snapshot>, newSnap: Snapshot,
                             tasks: seq<string>, registry: Registry<S>, showDebug: bool,
                             added: Option<Snapshot>, purgeLimit: int)
    returns (out: Outcome)
    ensures match Diff(oldSnap, newSnap, Some(tasks), registry)
      case Fail(e) => out == Aborted(e)
      case Ok(found) =>
        out == Reported(earlier + found, PrintAnomalies(earlier + found, showDebug), added, purgeLimit)
  {
    var found := CompareOutput(oldSnap, newSnap, Some(tasks), registry);
    if found.Fail? {
      return Aborted(found.error);
    }
    var anomalies := earlier + found.value;
    return Reported(anomalies, PrintAnomalies(anomalies, showDebug), added, purgeLimit);
  }

  /**
   * The warnings `run` adds before comparing are printed first among the
   * warnings, ahead of every warning the comparison itself produced.
   */
  lemma EarlierWarningsPrintedFirst(earlier: seq<Anomaly>, found: seq<Anomaly>, showDebug: bool)
    requires forall i :: 0 <= i < |earlier| ==> earlier[i].kind == Warning
    ensures PrintAnomalies(earlier + found, showDebug).warnings == earlier + OfKind(found, Warning)
    ensures PrintAnomalies(earlier + found, showDebug).changes == OfKind(found, Change)
  {
    OfKindAppend(earlier, found, Warning);
    OfKindAppend(earlier, found, Change);
    OfKindKeepsUniform(earlier, Warning);
    assert OfKind(earlier, Change) == [] by {
      OfKindKinds(earlier, Change);
    }
  }
}
