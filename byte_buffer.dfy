/** The part of `java.nio.ByteBuffer` the decoders use: a read cursor over
    the first `length` bytes of a packet, relative `get`s that throw
    BufferUnderflowException past the limit, and the byte order of
    `getShort`. Exceptions become `Failure` results. */
module ByteBuffers {
  import opened JavaBytes

  /** The runtime exceptions a decoder can raise on a malformed packet. */
  datatype DecodeError =
    | BufferUnderflow     // a read past the buffer's limit
    | NegativeArraySize   // `new T[n]` with a negative count read from the wire

  datatype Result<+T> = Success(value: T) | Failure(error: DecodeError) {
    predicate IsFailure() { Failure? }

    function PropagateFailure<U>(): Result<U>
      requires Failure?
    {
      Failure(error)
    }

    function Extract(): T
      requires Success?
    {
      value
    }
  }

  /** Put elements already parsed in front of the outcome of parsing the
      rest of a run; a failure stays a failure. */
  function Prepend<T>(xs: seq<T>, r: Result<(seq<T>, nat)>): Result<(seq<T>, nat)>
  {
    match r
    case Success((ys, next)) => Success((xs + ys, next))
    case Failure(e) => Failure(e)
  }

  lemma PrependNothing<T>(r: Result<(seq<T>, nat)>)
    ensures Prepend([], r) == r
  {
    match r
    case Success((ys, next)) => assert [] + ys == ys;
    case Failure(_) =>
  }

  lemma PrependTwice<T>(xs: seq<T>, ys: seq<T>, r: Result<(seq<T>, nat)>)
    ensures Prepend(xs, Prepend(ys, r)) == Prepend(xs + ys, r)
  {
    match r
    case Success((zs, next)) => assert xs + (ys + zs) == (xs + ys) + zs;
    case Failure(_) =>
  }

  /** Where a window of a packet holds `a + b`, its first `|a|` bytes hold
      `a` and the next `|b|` bytes hold `b`. */
  lemma SplitWindow<T>(p: seq<T>, lo: nat, a: seq<T>, b: seq<T>)
    requires lo + |a| + |b| <= |p| && p[lo..lo + |a| + |b|] == a + b
    ensures p[lo..lo + |a|] == a && p[lo + |a|..lo + |a| + |b|] == b
  {
    forall i | 0 <= i < |a| ensures p[lo + i] == a[i] {
      assert p[lo + i] == (a + b)[i];
    }
    forall i | 0 <= i < |b| ensures p[lo + |a| + i] == b[i] {
      assert p[lo + |a| + i] == (a + b)[|a| + i];
    }
  }

  /** Where a packet cut short holds a prefix of `a + b` from `lo` on and
      reaches past `a`, it holds all of `a` and then a prefix of `b`. */
  lemma SplitCut<T>(p: seq<T>, lo: nat, a: seq<T>, b: seq<T>)
    requires lo + |a| <= |p| <= lo + |a| + |b| && p[lo..] == (a + b)[..|p| - lo]
    ensures p[lo..lo + |a|] == a && p[lo + |a|..] == b[..|p| - lo - |a|]
  {
    forall i | 0 <= i < |a| ensures p[lo + i] == a[i] {
      assert p[lo..][i] == (a + b)[i];
    }
    forall i | 0 <= i < |p| - lo - |a| ensures p[lo + |a| + i] == b[i] {
      assert p[lo..][|a| + i] == (a + b)[|a| + i];
    }
  }

  /** Where a packet cut short holds a prefix of `a + b` from `lo` on and
      ends within `a`, it holds a prefix of `a`. */
  lemma CutWithin<T>(p: seq<T>, lo: nat, a: seq<T>, b: seq<T>)
    requires lo <= |p| <= lo + |a| && p[lo..] == (a + b)[..|p| - lo]
    ensures p[lo..] == a[..|p| - lo]
  {
    forall i | 0 <= i < |p| - lo ensures p[lo..][i] == a[i] {
      assert (a + b)[i] == a[i];
    }
  }

  class ByteBuffer {
    /** The bytes between offset 0 and the limit given to `wrap`. */
    const data: seq<JByte>
    var position: nat
    var littleEndian: bool

    ghost predicate Valid()
      reads this
    {
      position <= |data|
    }

    /** `ByteBuffer.wrap(bytes, 0, length)`: big-endian, cursor at 0. */
    constructor Wrap(bytes: seq<JByte>, length: nat)
      requires length <= |bytes|
      ensures Valid()
      ensures data == bytes[..length] && position == 0 && !littleEndian
    {
      data := bytes[..length];
      position := 0;
      littleEndian := false;
    }

    /** `order(ByteOrder.LITTLE_ENDIAN)`. */
    method OrderLittleEndian()
      modifies this`littleEndian
      ensures littleEndian
    {
      littleEndian := true;
    }

    /** Relative `get()`: the byte under the cursor, or underflow with the
        cursor left where it was. */
    method Get() returns (r: Result<JByte>)
      requires Valid()
      modifies this`position
      ensures Valid()
      ensures old(position) < |data| ==> r == Success(data[old(position)]) && position == old(position) + 1
      ensures old(position) >= |data| ==> r == Failure(BufferUnderflow) && position == old(position)
    {
      if position < |data| {
        r := Success(data[position]);
        position := position + 1;
      } else {
        r := Failure(BufferUnderflow);
      }
    }

    /** Relative `getShort()`: two bytes in the buffer's byte order. */
    method GetShort() returns (r: Result<int>)
      requires Valid()
      modifies this`position
      ensures Valid()
      ensures old(position) + 2 <= |data| ==>
        position == old(position) + 2 &&
        r == Success(if littleEndian then ShortLE(data[old(position)], data[old(position) + 1])
                     else ShortLE(data[old(position) + 1], data[old(position)]))
      ensures old(position) + 2 > |data| ==> r == Failure(BufferUnderflow) && position == old(position)
    {
      if position + 2 <= |data| {
        var a, b := data[position], data[position + 1];
        r := Success(if littleEndian then ShortLE(a, b) else ShortLE(b, a));
        position := position + 2;
      } else {
        r := Failure(BufferUnderflow);
      }
    }

    /** Bulk `get(dst, 0, n)` into a fresh `byte[n]`: all `n` bytes or
        underflow with nothing consumed. */
    method GetBytes(n: nat) returns (r: Result<seq<JByte>>)
      requires Valid()
      modifies this`position
      ensures Valid()
      ensures old(position) + n <= |data| ==>
        r == Success(data[old(position)..old(position) + n]) && position == old(position) + n
      ensures old(position) + n > |data| ==> r == Failure(BufferUnderflow) && position == old(position)
    {
      if position + n <= |data| {
        r := Success(data[position..position + n]);
        position := position + n;
      } else {
        r := Failure(BufferUnderflow);
      }
    }
  }
}
