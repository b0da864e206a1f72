/** The tunables of the engine. */
module EngineSettings {
  import opened Texts

  /** The alignment score of a boundary between two texts. */
  type Score = (Text, Text) -> int

  /** `boundaryScore` is how the semantic cleanup rates an alignment; it depends on
      character classes and stays a parameter. */
  datatype Settings = Settings(
    diffTimeout: real,
    diffEditCost: int,
    matchThreshold: real,
    matchDistance: int,
    patchDeleteThreshold: real,
    patchMargin: int,
    matchMaxBits: int,
    boundaryScore: Score)

  /** Settings that keep every pattern the patcher looks for within a word. */
  predicate Matchable(dmp: Settings) {
    dmp.matchDistance >= 0 && 0 < dmp.matchMaxBits <= 32
  }

  /** Settings the patcher works with: also room for text between two margins of context. */
  predicate Workable(dmp: Settings) {
    Matchable(dmp) && 0 < dmp.patchMargin && 2 * dmp.patchMargin < dmp.matchMaxBits
  }
}
