/** include/libhv_evpp/Status.h: the ordered status values that lifecycle guards compare. */
module Statuses {
  datatype KStatus =
    | Null | Initializing | Initialized | Starting | Started | Running | Pause | Stopping | Stopped | Destroyed

  function Rank(s: KStatus): nat {
    match s
    case Null => 0
    case Initializing => 1
    case Initialized => 2
    case Starting => 3
    case Started => 4
    case Running => 5
    case Pause => 6
    case Stopping => 7
    case Stopped => 8
    case Destroyed => 9
  }

  /** The guard of start: nothing to do when already started. The status is read twice. */
  predicate AlreadyStarted(first: KStatus, second: KStatus) {
    Rank(first) >= Rank(Starting) && Rank(second) < Rank(Stopped)
  }

  /** The guard of stop: nothing to do when not started, or stopping already. */
  predicate NothingToStop(first: KStatus, second: KStatus) {
    Rank(first) < Rank(Starting) || Rank(second) >= Rank(Stopping)
  }

  /** The guards, status by status. */
  lemma GuardsExactly(first: KStatus, second: KStatus)
    ensures AlreadyStarted(first, second) <==>
            first !in {Null, Initializing, Initialized} && second !in {Stopped, Destroyed}
    ensures NothingToStop(first, second) <==>
            first in {Null, Initializing, Initialized} || second in {Stopping, Stopped, Destroyed}
  {
  }
}
