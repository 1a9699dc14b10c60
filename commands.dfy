/**
 * The interface the diff engine expects of the `commands` module: anomaly
 * kinds, the anomaly pair `(kind, message)`, the warning helper `W`, and
 * probes (registered commands) with their `parse` and `compare` operations.
 *
 * The bodies of the individual probes are not part of this model, so a probe
 * is a value holding two arbitrary functions; every property proved about the
 * engine therefore holds for every possible probe.
 */
module Commands {

  /** The three severities an anomaly can carry. */
  datatype Kind = Change | Warning | Debug

  /** One reported observation: the pair `(kind, message)`. */
  datatype Anomaly = Anomaly(kind: Kind, message: string)

  /** `commands.W(msg)`: a WARNING anomaly carrying `msg`. */
  function W(msg: string): (a: Anomaly)
    ensures a.kind == Warning && a.message == msg
  {
    Anomaly(Warning, msg)
  }

  /**
   * What a probe's `compare` hands back. The engine only accepts a Python
   * list; any other value is `NotAList`.
   */
  datatype Returned = AList(items: seq<Anomaly>) | NotAList

  /**
   * A probe (a registered command). `S` is the structured form its `parse`
   * produces, which the engine never looks into.
   */
  datatype Probe<!S> = Probe(name: string, parse: string -> S, compare: (S, S) -> Returned)

  /** `commands.COMMAND_CACHE`: probe name to probe. */
  type Registry<!S> = map<string, Probe<S>>

  /** The names of a list of probes, in list order (`cmd.name for cmd in COMMANDS`). */
  function Names<S>(probes: seq<Probe<S>>): (names: seq<string>)
    ensures |names| == |probes|
    ensures forall i :: 0 <= i < |probes| ==> names[i] == probes[i].name
  {
    if probes == [] then [] else [probes[0].name] + Names(probes[1..])
  }
}
