/** Instants as the tables compare them.
 *
 *  The tables hold formatted names compared as text; Stamps.TextOrderIsTimeOrder
 *  shows that this is the order of the instants, so here they are seconds.
 */
module Clock {

  type Stamp = int

  // Seconds an entry outlives its process.
  const EXITED_GRACE_SECS: int := 90
}
