/**
 `libp2p::ambigousSize`: narrows a span in place to its first `n` elements, or
 raises `std::logic_error` when the span is shorter than `n`.
 */
module AmbigousSize {

  /** The `std::logic_error` raised by the guard, carrying its `what()` text. */
  datatype LogicError = LogicError(what: string)

  /** The message the guard raises. */
  const Message: string := "libp2p::ambigousSize"

  /** How a call ends: normal return, or the exception it throws. */
  datatype Outcome = Pass | Throw(error: LogicError)

  /** The narrowing of a view of elements, as a value: the first `n` elements or the error. */
  datatype Narrowed<T> = Narrowed(view: seq<T>) | Rejected(error: LogicError)

  /**
   What `ambigousSize` does to the elements a span shows: fails exactly when `n`
   exceeds the view; otherwise gives the prefix of length `n`.
   */
  function Narrow<T>(view: seq<T>, n: nat): (r: Narrowed<T>)
    ensures r.Rejected? <==> n > |view|
    ensures r.Rejected? ==> r.error == LogicError(Message)
    ensures r.Narrowed? ==> |r.view| == n && forall i :: 0 <= i < n ==> r.view[i] == view[i]
  {
    if n > |view| then Rejected(LogicError(Message)) else Narrowed(view[..n])
  }

  /** The length a view has after a call: `n` on success, the old length on failure. */
  function LengthAfter<T>(view: seq<T>, n: nat): nat {
    match Narrow(view, n)
    case Narrowed(v) => |v|
    case Rejected(_) => |view|
  }

  /** The view never grows, whatever the outcome. */
  lemma NarrowNeverGrows<T>(view: seq<T>, n: nat)
    ensures LengthAfter(view, n) <= |view|
    ensures LengthAfter(view, n) == if n <= |view| then n else |view|
  {
  }

  /** Narrowing to the current length changes nothing. */
  lemma NarrowToLengthIsIdentity<T>(view: seq<T>)
    ensures Narrow(view, |view|) == Narrowed(view)
  {
  }

  /** Narrowing twice to the same length is narrowing once. */
  lemma NarrowIdempotent<T>(view: seq<T>, n: nat)
    requires n <= |view|
    ensures Narrow(Narrow(view, n).view, n) == Narrow(view, n)
  {
  }

  /** Narrowing to `m` and then to `n <= m` is narrowing to `n` directly. */
  lemma NarrowCompose<T>(view: seq<T>, m: nat, n: nat)
    requires n <= m <= |view|
    ensures Narrow(Narrow(view, m).view, n) == Narrow(view, n)
  {
  }

  /**
   A `std::span<T>`: `size` elements of a backing array, starting at `start`.
   The span does not own the array; reassigning the span leaves the array alone.
   */
  class Span<T> {
    const data: array<T>
    var start: nat
    var size: nat

    ghost predicate Valid()
      reads this
    {
      start + size <= data.Length
    }

    /** The elements the span shows. */
    ghost function Elements(): seq<T>
      reads this, data
      requires Valid()
    {
      data[start..start + size]
    }

    constructor (data: array<T>, start: nat, size: nat)
      requires start + size <= data.Length
      ensures Valid()
      ensures this.data == data && this.start == start && this.size == size
    {
      this.data := data;
      this.start := start;
      this.size := size;
    }
  }

  /**
   `ambigousSize(s, n)`: throws before touching `s` when `n > s.size()`;
   otherwise `s = s.first(n)`, which keeps the data pointer and sets the size to `n`.
   */
  method AmbigousSize<T>(s: Span<T>, n: nat) returns (outcome: Outcome)
    requires s.Valid()
    modifies s
    ensures s.Valid()
    ensures outcome == if n > old(s.size) then Throw(LogicError(Message)) else Pass
    ensures s.start == old(s.start)
    ensures s.size == if outcome.Pass? then n else old(s.size)
    ensures s.data[..] == old(s.data[..])
    ensures Narrow(old(s.Elements()), n) == if outcome.Pass? then Narrowed(s.Elements()) else Rejected(outcome.error)
  {
    if n > s.size {
      return Throw(LogicError(Message));
    }
    s.size := n;
    outcome := Pass;
  }

  /**
   A caller that narrows a span twice to the same length: the second call ends
   as the first one did and leaves the span exactly as the first one left it.
   */
  method NarrowTwice<T>(s: Span<T>, n: nat) returns (first: Outcome, second: Outcome)
    requires s.Valid()
    modifies s
    ensures first.Pass? <==> n <= old(s.size)
    ensures second == first
    ensures s.Valid() && s.Elements() == if first.Pass? then old(s.Elements())[..n] else old(s.Elements())
  {
    first := AmbigousSize(s, n);
    ghost var afterFirst := s.Elements();
    second := AmbigousSize(s, n);
    if first.Pass? {
      assert s.Elements() == afterFirst;
    }
  }
}
