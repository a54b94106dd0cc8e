/** The declared budget of an attempt, shared by ladder rows and retained
    evidence (`BudgetControls` in `budget.rs`). */
module BudgetControls {
  import opened Wrappers

  datatype Controls = Controls(timeoutScale: real, maxOutputTokens: Option<nat>, paramsB: real, ctx: nat)

  /** A modified budget: useful for diagnosis, not for calibration. */
  predicate DiagnosticControls(c: Controls) {
    c.timeoutScale != 1.0 || c.maxOutputTokens.Some?
  }
}
