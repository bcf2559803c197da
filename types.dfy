/** The roster data model shared by the team-setup parser and the balancer. */
module Types {

  /** The usual Some/None wrapper; None stands for JavaScript's null, undefined and NaN. */
  datatype Option<+T> = None | Some(value: T)

  /**
   * A role label. The declared TypeScript type admits only "1" to "5", but the parser hands
   * on whatever a trimmed character gives (including "" for an inner space), so any string
   * may reach the balancer.
   */
  type Position = string

  /** The five role labels a well-formed roster uses. */
  const ValidPositions: set<Position> := {"1", "2", "3", "4", "5"}

  predicate IsValidPosition(p: Position) {
    p in ValidPositions
  }

  /** The distinct labels of a position list, as a JavaScript Set of them would hold. */
  function LabelSet(ps: seq<Position>): set<Position> {
    set p | p in ps
  }

  /** One roster entry; ranks are whole numbers of any sign, as parseInt produces them. */
  datatype Player = Player(name: string, rank: int, positions: seq<Position>)

  /** Every position label of every entry is one of the five role labels. */
  predicate AllLabelsValid(roster: seq<Player>) {
    forall k, p :: 0 <= k < |roster| && p in roster[k].positions ==> IsValidPosition(p)
  }

  lemma ValidPositionsCount()
    ensures |ValidPositions| == 5
  {
  }
}
