/** The transcript record that flows through the pipeline. */
module Transcript {

  /**
   * One transcript entry `{id, text, start, end}`. Timestamps are seconds;
   * the program holds them as floats, the model as reals.
   */
  datatype Entry = Entry(id: string, text: string, start: real, end: real)
}
