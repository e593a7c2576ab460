/** Numbered placeholders of SQL statements. */
module Placeholders {
  import opened Wrappers

  /** Placeholder k names the k-th argument. */
  function Resolve<A>(args: seq<A>, k: nat): Option<A> {
    if 1 <= k <= |args| then Some(args[k-1]) else None
  }
}
