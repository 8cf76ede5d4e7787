/** The records of the genetic algorithm
    (Corte_2/Algoritmo_Genetico/geneticalgorithm/ga.go). */
module GATypes {
  import opened Cities

  /** GAConfig. The mutation rate is compared against draws of `rand.Float64`. */
  datatype GAConfig = GAConfig(
    popSize: int,
    generations: int,
    mutationRate: real,
    tournamentSize: int,
    stagnationLimit: int)

  /** A candidate: a tour of city indices and its closed cost. */
  datatype Individual = Individual(tour: seq<int>, cost: nat)

  /** The two stop reasons, "max_generaciones" and "estancamiento". */
  datatype StopReason = MaxGeneraciones | Estancamiento

  datatype GAResult = GAResult(
    bestTour: seq<City>,
    bestCost: nat,
    lastImproveGen: int,
    totalGens: int,
    stopReason: StopReason)
}
