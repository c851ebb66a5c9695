/** The payload of one node of the scheduler's process list, and the three
    scheduling disciplines that order such payloads. */
module Processes {

  /** One process record. `next` of the source node is not part of the payload:
      the list's link structure is the position of a record in a sequence. */
  datatype Process = Process(name: string, size: int, id: int, rt: int, pr: int)

  /** The three comparators the scheduler offers. */
  datatype Policy = Priority | SJF | FCFS

  /** The field a policy orders by: priority value, burst time, or arrival id. */
  function Key(policy: Policy, p: Process): int
  {
    match policy
    case Priority => p.pr
    case SJF => p.rt
    case FCFS => p.id
  }

  /** "Should `a` move behind `b`?" -- the comparator each policy hands to the
      exchange sort. It holds exactly when `a`'s key is strictly larger, so two
      records with equal keys are never exchanged. */
  predicate Compare(policy: Policy, a: Process, b: Process)
    ensures Compare(policy, a, b) <==> Key(policy, a) > Key(policy, b)
  {
    match policy
    case Priority => a.pr > b.pr
    case SJF => a.rt > b.rt
    case FCFS => a.id > b.id
  }
}
