/** What travels between the operators of the retraining protocol. */
module Messages {

  datatype Point = Point(id: int, features: seq<real>, anomaly: int)

  /** A trained tree, as far as the protocol can tell: the pool it was drawn from and its sample size. */
  datatype Trained = Trained(pool: multiset<Point>, subsampleSize: int)

  /** The batch id of the source is `(subtask << 32) | round`. */
  datatype TreeMsg = TreeMsg(subtask: int, slot: int, round: int, batchEnd: bool, tree: Trained)

  const ROUND_SPACE := 0x1_0000_0000

  /** `batchId & 0xFFFFFFFF`: the shifted subtask leaves the low 32 bits to the round. */
  function LowRound(m: TreeMsg): int {
    m.round % ROUND_SPACE
  }

  datatype Forest = Forest(version: int, subsampleSize: int, trees: seq<TreeMsg>)

  datatype RoundStatus = VOTING | COMMITTED | ABORTED

  datatype DriftRound = DriftRound(roundId: int, status: RoundStatus, votesYes: int)

  datatype Phase = A | C

  /** A score leaving the operator: which point, under which forest version, in which phase. */
  datatype Scored = Scored(point: Point, version: int, phase: Phase)
}
