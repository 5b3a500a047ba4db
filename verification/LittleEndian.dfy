/** Fixed-width little-endian numbers, as the structures of the protocol hold them. */
module LittleEndian {
  import opened FileContents

  function Power256(n: nat): (p: nat)
    ensures p > 0
  {
    if n == 0 then 1 else 256 * Power256(n - 1)
  }

  function Put(v: nat, n: nat): (r: seq<byte>)
    ensures |r| == n
    decreases n
  {
    if n == 0 then [] else [(v % 256) as byte] + Put(v / 256, n - 1)
  }

  function Get(r: seq<byte>): nat {
    if r == [] then 0 else r[0] as nat + 256 * Get(r[1..])
  }

  lemma {:induction false} GetPut(v: nat, n: nat)
    requires v < Power256(n)
    ensures Get(Put(v, n)) == v
    decreases n
  {
    if n > 0 {
      assert Put(v, n)[1..] == Put(v / 256, n - 1);
      GetPut(v / 256, n - 1);
    }
  }

  lemma Widths()
    ensures Power256(4) == TWO_TO_THE_32 && Power256(8) == TWO_TO_THE_64
  {
  }

  lemma GetPut32(v: nat)
    requires v < TWO_TO_THE_32
    ensures Get(Put(v, 4)) == v
  {
    Widths();
    GetPut(v, 4);
  }

  lemma GetPut64(v: nat)
    requires v < TWO_TO_THE_64
    ensures Get(Put(v, 8)) == v
  {
    Widths();
    GetPut(v, 8);
  }

  // ----- Signed numbers, in two's complement -----

  function Wrapped(v: int, n: nat): nat
    requires v + Power256(n) >= 0
  {
    if v < 0 then v + Power256(n) else v
  }

  function Unwrapped(v: nat, n: nat): int {
    if 2 * v < Power256(n) then v else v - Power256(n)
  }

  function PutSigned(v: int, n: nat): seq<byte>
    requires v + Power256(n) >= 0
  {
    Put(Wrapped(v, n), n)
  }

  function GetSigned(b: seq<byte>): int { Unwrapped(Get(b), |b|) }

  predicate FitsSigned(v: int, n: nat) { 0 - Power256(n) <= 2 * v < Power256(n) }

  lemma UnwrapWrapped(v: int, n: nat)
    requires FitsSigned(v, n)
    ensures Wrapped(v, n) < Power256(n) && Unwrapped(Wrapped(v, n), n) == v
  {
  }

  lemma GetPutSigned(v: int, n: nat)
    requires FitsSigned(v, n)
    ensures GetSigned(PutSigned(v, n)) == v
  {
    UnwrapWrapped(v, n);
    GetPut(Wrapped(v, n), n);
  }

  lemma SignedLength(v: int, n: nat)
    requires FitsSigned(v, n)
    ensures |PutSigned(v, n)| == n
  {
  }

  // ----- Structures, as numbers and the widths they are kept in -----

  function PutAll(values: seq<nat>, widths: seq<nat>): seq<byte>
    requires |values| == |widths|
  {
    if values == [] then [] else Put(values[0], widths[0]) + PutAll(values[1..], widths[1..])
  }

  function GetAll(b: seq<byte>, widths: seq<nat>): seq<nat>
    requires Sum(widths) <= |b|
  {
    if widths == [] then [] else [Get(b[..widths[0]])] + GetAll(b[widths[0]..], widths[1..])
  }

  function Sum(widths: seq<nat>): nat {
    if widths == [] then 0 else widths[0] + Sum(widths[1..])
  }

  function Same(width: nat, count: nat): seq<nat> { seq(count, _ => width) }

  lemma {:induction false} SumSame(width: nat, count: nat)
    ensures Sum(Same(width, count)) == width * count
  {
    if count > 0 {
      assert Same(width, count)[1..] == Same(width, count - 1);
      SumSame(width, count - 1);
    }
  }

  lemma {:induction false} SumAppend(a: seq<nat>, b: seq<nat>)
    ensures Sum(a + b) == Sum(a) + Sum(b)
  {
    if a == [] {
      assert a + b == b;
    } else {
      assert (a + b)[1..] == a[1..] + b;
      SumAppend(a[1..], b);
    }
  }

  predicate AllFit(values: seq<nat>, widths: seq<nat>) {
    |values| == |widths| && forall k | 0 <= k < |values| :: values[k] < Power256(widths[k])
  }

  /** A structure is as long as its widths together, and its numbers are read back. */
  lemma {:induction false} GetPutAll(values: seq<nat>, widths: seq<nat>)
    requires AllFit(values, widths)
    ensures |PutAll(values, widths)| == Sum(widths) && GetAll(PutAll(values, widths), widths) == values
  {
    if values != [] {
      hide Put, Get;
      var first, rest := Put(values[0], widths[0]), PutAll(values[1..], widths[1..]);
      GetPut(values[0], widths[0]);
      GetPutAll(values[1..], widths[1..]);
      assert (first + rest)[..widths[0]] == first && (first + rest)[widths[0]..] == rest;
      assert values == [values[0]] + values[1..];
    }
  }
}
