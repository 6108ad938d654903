/** The three ways an operation of the library can end. */
module Outcomes {

  datatype Option<+T> = None | Some(value: T)

  datatype Errno = EUCLEAN | ENODATA | ERANGE | ENOENT | EOPNOTSUPP

  /** `Fault` stands for a run that does not return: an unwrap of nothing, a slice out of range,
      an integer underflow, or a read outside the buffer handed to unsafe code. */
  datatype Outcome<+T> = Ok(value: T) | Err(errno: Errno) | Fault {

    predicate IsFailure() {
      !Ok?
    }

    function PropagateFailure<U>(): Outcome<U>
      requires !Ok?
    {
      if Err? then Err(errno) else Fault
    }

    function Extract(): T
      requires Ok?
    {
      value
    }
  }
}

/** A lazy sequence: the items it yields, then how it ends. */
module Streams {
  import opened Outcomes

  datatype Stream<+T> = Stream(items: seq<T>, end: Outcome<()>)

  function Done<T>(): Stream<T> {
    Stream([], Ok(()))
  }

  function Stop<T>(failure: Outcome<()>): Stream<T>
    requires !failure.Ok?
  {
    Stream([], failure)
  }

  function Cons<T>(x: T, s: Stream<T>): Stream<T> {
    Stream([x] + s.items, s.end)
  }
}
