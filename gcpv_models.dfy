/**
 * The records an export passes through: one parsed row, one racer entry, one race, and the
 * configuration that says where in a row each field is found.
 */
module GcpvModels {

  /**
   * Where a field is found: the cell equal to `key` (trimmed, ignoring case), shifted right by
   * `offset`; `suffixStopWords` are stripped from the end of the value. A missing stop-word list
   * is the empty one.
   */
  datatype KeyFieldConfig = KeyFieldConfig(key: string, offset: int, suffixStopWords: seq<string>)

  /** `GcpvRacerRowData`: the fields of one export row. */
  datatype GcpvRacerRowData = GcpvRacerRowData(
    raceNumber: string,
    trackParams: string,
    raceGroup: string,
    stage: string,
    lane: string,
    racer: string,
    affiliation: string)

  /** `GcpvRacerData`: one racer of a race. */
  datatype GcpvRacerData = GcpvRacerData(lane: string, racer: string, affiliation: string)

  /** `GcpvRaceData`: one race with its racers. */
  datatype GcpvRaceData = GcpvRaceData(
    raceNumber: string,
    trackParams: string,
    raceGroup: string,
    stage: string,
    racers: seq<GcpvRacerData>)
}
