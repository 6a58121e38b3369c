/** Bytes, options and the few sequence facts that every other module needs. */
module Common {

  /** An octet, as an integer: the source's arithmetic on bytes is done in wider integers. */
  type byte = x: int | 0 <= x < 256

  /** A seven-bit register field, as MAXCNT, AMOUNT and SIZE of an OUT endpoint are. */
  type Bits7 = n: int | 0 <= n < 128

  /** What a seven-bit field keeps of a value, when it is written or read. */
  function ToBits7(value: nat): Bits7 { value % 128 }

  datatype Option<+T> = None | Some(value: T)

  function Min(a: nat, b: nat): (m: nat)
    ensures m <= a && m <= b && (m == a || m == b)
  {
    if a < b then a else b
  }

  /** The number of chunks of at most `b` that `a` items fill: a divided by b, rounded up. */
  function CeilDiv(a: nat, b: nat): (q: nat)
    requires b > 0
  {
    if a == 0 then 0 else 1 + CeilDiv(a - Min(a, b), b)
  }

  lemma {:induction false} CeilDivRoundsUp(a: nat, b: nat)
    requires b > 0
    ensures a <= CeilDiv(a, b) * b && (a > 0 ==> (CeilDiv(a, b) - 1) * b < a)
  {
    if a > 0 {
      CeilDivRoundsUp(a - Min(a, b), b);
    }
  }

  lemma Assoc<T>(a: seq<T>, b: seq<T>, c: seq<T>)
    ensures a + b + c == a + (b + c)
  {
  }

  lemma TakeDrop<T>(s: seq<T>, n: nat)
    requires n <= |s|
    ensures s[..n] + s[n..] == s
  {
  }

  function Repeat(value: byte, count: nat): (s: seq<byte>)
    ensures |s| == count && forall i :: 0 <= i < count ==> s[i] == value
  {
    seq(count, _ => value)
  }

  function Concat<T>(parts: seq<seq<T>>): seq<T> {
    if parts == [] then [] else parts[0] + Concat(parts[1..])
  }

  lemma {:induction false} ConcatAppend<T>(a: seq<seq<T>>, b: seq<seq<T>>)
    ensures Concat(a + b) == Concat(a) + Concat(b)
  {
    if a == [] {
      assert a + b == b;
    } else {
      assert (a + b)[1..] == a[1..] + b;
      ConcatAppend(a[1..], b);
    }
  }

  lemma ConcatSnoc<T>(a: seq<seq<T>>, last: seq<T>)
    ensures Concat(a + [last]) == Concat(a) + last
  {
    ConcatAppend(a, [last]);
    assert Concat([last]) == last;
  }
}
