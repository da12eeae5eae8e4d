/** State-vector records and the error outcomes of the query layer. */
module Records {

  /** The exceptions the query layer raises, as values. */
  datatype Error =
    | ValueError   // an empty record list handed to closest_epoch or epoch_range
    | BadRequest   // an offset out of bounds, or a requested epoch that is not in the list
    | IndexError   // a list read past its end

  datatype Result<T> = Ok(value: T) | Err(error: Error)

  /** One sample of the feed. The epoch is a timestamp in microseconds
      (the resolution of a Python datetime); the position and velocity
      components are carried along and never computed on here. */
  datatype StateVector = StateVector(
    epoch: int,
    x: real, y: real, z: real,
    xDot: real, yDot: real, zDot: real)

  /** abs(epoch - t): the size of the timedelta between two timestamps. */
  function Distance(epoch: int, t: int): (d: nat)
    ensures d == epoch - t || d == t - epoch
    ensures d == 0 <==> epoch == t
  {
    if epoch >= t then epoch - t else t - epoch
  }

  /** Some record of the list carries the given epoch. */
  predicate Occurs(vs: seq<StateVector>, epoch: int)
  {
    exists j :: 0 <= j < |vs| && vs[j].epoch == epoch
  }
}
