/** Byte strings, little-endian fields, concatenation and optional values, shared by the models. */
module Bytes {
  datatype Option<T> = None | Some(value: T)

  type Byte = b: int | 0 <= b < 256

  /** The bytes of `parts`, one after another. */
  function Concat<T>(parts: seq<seq<T>>): seq<T> {
    if parts == [] then [] else parts[0] + Concat(parts[1..])
  }

  lemma {:induction false} ConcatSnoc<T>(parts: seq<seq<T>>, last: seq<T>)
    ensures Concat(parts + [last]) == Concat(parts) + last
  {
    if parts == [] {
      assert parts + [last] == [last];
      assert Concat([last]) == last + Concat([last][1..]);
    } else {
      assert (parts + [last])[1..] == parts[1..] + [last];
      ConcatSnoc(parts[1..], last);
    }
  }

  lemma Assoc<T>(a: seq<T>, b: seq<T>, c: seq<T>)
    ensures a + (b + c) == (a + b) + c
  {}

  lemma {:induction false} ConcatJoin<T>(a: seq<seq<T>>, b: seq<seq<T>>)
    ensures Concat(a + b) == Concat(a) + Concat(b)
  {
    if a == [] {
      assert a + b == b;
    } else {
      ConcatJoin(a[1..], b);
      assert (a + b)[1..] == a[1..] + b;
      Assoc(a[0], Concat(a[1..]), Concat(b));
    }
  }

  lemma SliceOfSlice<T>(b: seq<T>, at: nat, n: nat, i: nat, k: nat)
    requires at + n <= |b| && i + k <= n
    ensures b[at..at + n][i..i + k] == b[at + i..at + i + k]
    ensures i == 0 ==> b[at..at + n][..k] == b[at..at + k]
  {
    var s, u := b[at..at + n], b[at + i..at + i + k];
    assert |s[i..i + k]| == |u|;
    assert forall j :: 0 <= j < k ==> s[i..i + k][j] == s[i + j] == b[at + i + j] == u[j];
  }

  lemma SlicesJoin<T>(s: seq<T>, a: nat, b: nat, c: nat)
    requires a <= b <= c <= |s|
    ensures s[..a] + s[a..b] + s[b..c] == s[..c]
  {}

  // Little-endian fields.

  function U16(b: seq<Byte>, i: nat): (v: int)
    requires i + 2 <= |b|
    ensures 0 <= v < 0x1_0000
  {
    var lo: int, hi: int := b[i], b[i + 1];
    lo + 0x100 * hi
  }

  function U32(b: seq<Byte>, i: nat): (v: int)
    requires i + 4 <= |b|
    ensures 0 <= v < 0x1_0000_0000
  {
    U16(b, i) + 0x1_0000 * U16(b, i + 2)
  }

  function U64(b: seq<Byte>, i: nat): (v: int)
    requires i + 8 <= |b|
    ensures 0 <= v < 0x1_0000_0000_0000_0000
  {
    U32(b, i) + 0x1_0000_0000 * U32(b, i + 4)
  }

  /** Fields of a window onto `b` are fields of `b`. */
  lemma FieldsInWindow(b: seq<Byte>, w: seq<Byte>, at: nat, n: nat)
    requires at + n <= |b| && n <= |w| && w[..n] == b[at..at + n]
    ensures forall i :: 0 <= i && i + 2 <= n ==> U16(w, i) == U16(b, at + i)
    ensures forall i :: 0 <= i && i + 4 <= n ==> U32(w, i) == U32(b, at + i)
  {
    assert forall i :: 0 <= i < n ==> w[i] == w[..n][i] == b[at..at + n][i] == b[at + i];
  }
}
