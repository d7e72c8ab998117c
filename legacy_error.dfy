/** The errors of the older datafile builders (src/datafile/error.rs). */
module LegacyDatafileErrors {

  /** `DatafileError`, with the two variants the builders raise besides
      `InvalidRolloutId`. */
  datatype DatafileError =
    | MissingField(field: string)
    | InvalidRevision
    | InvalidRolloutId(rolloutId: string)
    | InvalidVariationId(variationId: string)
    | InvalidExperimentId(experimentId: string)
}
