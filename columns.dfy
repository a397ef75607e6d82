/**
 * Column names. The names the control-data script mentions are constructors,
 * so that two different names are different values at a glance; any other
 * name a partition file may carry is `Other`, told apart by a number, and the name the engine gives a
 * clashing right-hand join column (the original name followed by `_right`)
 * is `Suffixed`.
 */
module Columns {

  datatype Column =
    | AlleleAccessionId
    | GeneAccessionId
    | ExternalSampleId
    | BiologicalSampleGroup
    | Sex
    | ProductionCenter
    | ColonyId
    | Weight
    | Zygosity
    | StrainName
    | DateOfExperiment
    | MetadataGroup
    | PhenotypingCenter
    | SpecimenId
    | Group
    | BackgroundStrainName
    | Batch
    | Suffixed(base: Column)
    | Other(id: nat)
}
