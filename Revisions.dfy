/** The two readings of the pipeline: the source as written, and with its two evident defects corrected. */
module Revisions {

  /** `AsWritten` draws the crossover cut from `randint(1, n - 1)` and scores with `weighted_time or inf`;
      `Intended` draws the cut from `randint(1, max(1, n - 1))` and sends only a missing time to infinity. */
  datatype Revision = AsWritten | Intended
}
