/** A way to carry a large fact through a proof without unfolding it. */
module Sealing {

  datatype Topic =
    | Readings | Outcomes | Layouts | Cycles | Digits | Lines | Trackers | Tokens | Parses | Squeezes | Steps | Logs
    | Rounds

  /** Always true. A fact stated for every k sealed under a topic stays folded until a proof names
      a seal of that topic. */
  ghost predicate Seal(t: Topic, k: int) { true }
}
