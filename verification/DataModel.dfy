// The values that the server stores and hands out (src/database-server/data-model).

module DataModel {
  import opened Wire

  datatype Variable = Variable(name: Bytes, color: Bytes)

  // A VarValue: the name of its variable, the reading and a timestamp in milliseconds.
  // A double is modelled by a real number.
  datatype Reading = Reading(name: Bytes, val: real, timestamp: U64)

  /** The order in which a store should keep readings. */
  ghost predicate InTimeOrder(vals: seq<Reading>) {
    forall i, j :: 0 <= i < j < |vals| ==> vals[i].timestamp <= vals[j].timestamp
  }
}
