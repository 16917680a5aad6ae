/** The records the passes publish (`Diagnostic`, its related information) and the
    shared problem budget `{max, current}` (server/src/validations.ts), threaded through
    every pass as an explicit value. */
module Diagnostics {
  import opened Options
  import opened Positions

  datatype Severity = Error | Warning

  /** One entry of `relatedInformation`: a range of the same document and a message. */
  datatype RelatedInformation = RelatedInformation(range: Range, message: string)

  /** A published diagnostic. `source` and `related` are absent unless the pass sets them. */
  datatype Diagnostic = Diagnostic(
    range: Range,
    severity: Severity,
    message: string,
    source: Option<string>,
    related: Option<RelatedInformation>)

  /** A diagnostic with neither `source` nor related information. */
  function Plain(range: Range, severity: Severity, message: string): Diagnostic {
    Diagnostic(range, severity, message, None, None)
  }

  /** The shared budget: a pass may handle another match only while `current < max`. */
  datatype Problems = Problems(max: int, current: int) {
    predicate HasRoom() { current < max }

    /** How many more diagnostics a gated pass may still push. */
    function Room(): (n: nat)
      ensures n == 0 <==> !HasRoom()
      ensures HasRoom() ==> current + n == max
    {
      if current < max then max - current else 0
    }
  }

  /** The state every pass threads: the budget and the diagnostics pushed so far. */
  datatype Run = Run(problems: Problems, diagnostics: seq<Diagnostic>) {
    /** `diagnostics.push(d); problems.current++`. */
    function Report(d: Diagnostic): Run {
      Run(Problems(problems.max, problems.current + 1), diagnostics + [d])
    }

    /** Reporting `ds` one after the other. */
    function ReportAll(ds: seq<Diagnostic>): (r: Run)
      ensures r.diagnostics == diagnostics + ds
      ensures r.problems == Problems(problems.max, problems.current + |ds|)
      decreases |ds|
    {
      if |ds| == 0 then this else Report(ds[0]).ReportAll(ds[1..])
    }
  }

  /** `r` follows `run`: the same `max`, the earlier diagnostics untouched, and one
      increment of `current` for every diagnostic added. */
  ghost predicate Extends(r: Run, run: Run) {
    && r.problems.max == run.problems.max
    && |run.diagnostics| <= |r.diagnostics|
    && r.diagnostics[..|run.diagnostics|] == run.diagnostics
    && r.problems.current - |r.diagnostics| == run.problems.current - |run.diagnostics|
  }

  lemma ExtendsTransitive(a: Run, b: Run, c: Run)
    requires Extends(b, a) && Extends(c, b)
    ensures Extends(c, a)
  {
    assert c.diagnostics[..|a.diagnostics|] == c.diagnostics[..|b.diagnostics|][..|a.diagnostics|];
  }

  /** A fresh run: no diagnostics and `current` at 0. */
  function Start(max: int): (run: Run)
    ensures run.problems.current == |run.diagnostics| == 0
  {
    Run(Problems(max, 0), [])
  }
}
