/** Errors, results and address ranges shared by every part of the walker model. */
module Basics {
  datatype Option<+T> = None | Some(value: T)
  {
    /** The value, or `error` if there is none. */
    function OkOr(error: PagingError): Result<T> {
      match this
      case Some(value) => Ok(value)
      case None => Err(error)
    }
  }

  datatype PagingError =
    | OutOfMemory
    | NotAligned
    | NotMapped
    | AlreadyMapped
    | IntermediateIsLeaf
    | AddressOutOfRange
    | UnsupportedSize
    | NotCoalescable
    | InvalidMappingShape
    | InvalidEntryKind

  /** The outcome of an operation; failures propagate with `:-`. */
  datatype Result<+T> = Ok(value: T) | Err(error: PagingError)
  {
    predicate IsFailure() {
      Err?
    }

    /** Total, so that a failure proved impossible may still be propagated. */
    function PropagateFailure<U>(): Result<U> {
      match this
      case Err(e) => Err(e)
      case Ok(_) => Err(InvalidEntryKind)
    }

    function Extract(): T
      requires Ok?
    {
      value
    }
  }

  /** One past the largest machine address. */
  const ADDRESS_LIMIT: nat := 0x1_0000_0000_0000_0000

  /** A half-open address range whose end is itself a representable address. */
  datatype AddrRange = AddrRange(start: nat, end: nat) {
    ghost predicate Valid() {
      start <= end < ADDRESS_LIMIT
    }

    function Size(): nat {
      if start <= end then end - start else 0
    }

    predicate Contains(v: nat) {
      start <= v < end
    }
  }

  /** The range of `size` bytes at `start`, unless its end would not be representable. */
  function RangeFromStartSize(start: nat, size: nat): Option<AddrRange> {
    if start + size < ADDRESS_LIMIT then Some(AddrRange(start, start + size)) else None
  }
}
