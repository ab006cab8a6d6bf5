/** The per-disk health states and the transitions between them. */
module DiskStates {

  datatype DiskState = Healthy | Suspect | Degraded | Draining | Failed | Removed {

    predicate AllowsAllocation() {
      Healthy? || Suspect?
    }

    predicate AllowsReads() {
      Healthy? || Suspect? || Degraded? || Draining?
    }

    predicate CanBecome(to: DiskState) {
      this == to ||
      match this
      case Healthy => to.Suspect? || to.Degraded? || to.Draining? || to.Failed?
      case Suspect => to.Healthy? || to.Degraded? || to.Draining? || to.Failed?
      case Degraded => to.Draining? || to.Failed? || to.Removed?
      case Draining => to.Failed? || to.Removed?
      case Failed => to.Removed?
      case Removed => false
    }
  }
}
