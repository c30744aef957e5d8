/** Values shared by both transfer engines: bytes, results, and the
    arithmetic of cutting a byte count into write units. */
module Common {

  /** One octet of the transferred object. */
  newtype byte = x: int | 0 <= x < 256

  /** A value, or the exception the source would raise instead. */
  datatype Result<T, E> = Ok(value: T) | Err(error: E)

  function Min(a: int, b: int): int
  {
    if a <= b then a else b
  }

  /** The write size both transfer engines hand to the file: the requested
      size, lowered to the server's maximum when it exceeds it. */
  function ClampWriteSize(requested: int, maxWriteSize: int): (size: int)
    ensures size <= requested && size <= maxWriteSize
    ensures size == requested || size == maxWriteSize
    ensures requested > 0 && maxWriteSize > 0 ==> size > 0
  {
    if requested > maxWriteSize then maxWriteSize else requested
  }

  function Max(a: int, b: int): int
  {
    if a <= b then b else a
  }

  /** The number of write units of w bytes needed to carry n bytes. */
  function CeilDiv(n: nat, w: nat): (units: nat)
    requires w > 0
    ensures n <= units * w
    ensures units == 0 || (units - 1) * w < n
  {
    var q := (n + w - 1) / w;
    assert q * w + (n + w - 1) % w == n + w - 1;
    assert (q - 1) * w == q * w - w;
    q
  }

  /** m / w is q exactly when m lies in [q*w, q*w + w). */
  lemma DivideExactly(m: int, w: int, q: int)
    requires w > 0
    requires q * w <= m < q * w + w
    ensures m / w == q
  {
    var d, r := m / w, m % w;
    assert m == d * w + r && 0 <= r < w;
    if d > q {
      assert d * w >= (q + 1) * w by { MultiplyMonotone(q + 1, d, w); }
      assert false;
    } else if d < q {
      assert (d + 1) * w <= q * w by { MultiplyMonotone(d + 1, q, w); }
      assert false;
    }
  }

  lemma MultiplyMonotone(a: int, b: int, w: int)
    requires a <= b && w > 0
    ensures a * w <= b * w
  {
    assert b * w - a * w == (b - a) * w;
  }

  /** k full units plus a remainder b < w need k units, and one more
      exactly when the remainder is not empty. */
  lemma CeilDivSplit(k: nat, b: nat, w: nat)
    requires b < w
    ensures CeilDiv(k * w + b, w) == k + (if b == 0 then 0 else 1)
  {
    var q := k + (if b == 0 then 0 else 1);
    assert q * w <= k * w + b + w - 1 < q * w + w by {
      assert (k + 1) * w == k * w + w;
      assert (k + 2) * w == k * w + w + w;
    }
    DivideExactly(k * w + b + w - 1, w, q);
  }

  /** The bytes of a list of segments laid end to end. */
  function Flatten(segments: seq<seq<byte>>): seq<byte>
  {
    if segments == [] then [] else segments[0] + Flatten(segments[1..])
  }

  lemma {:induction false} FlattenAppend(segments: seq<seq<byte>>, s: seq<byte>)
    ensures Flatten(segments + [s]) == Flatten(segments) + s
  {
    if segments == [] {
      assert [s][1..] == [];
    } else {
      assert (segments + [s])[1..] == segments[1..] + [s];
      FlattenAppend(segments[1..], s);
    }
  }

  /** Segments that all have length w carry exactly |segments| * w bytes. */
  lemma {:induction false} FlattenUniform(segments: seq<seq<byte>>, w: nat)
    requires forall i :: 0 <= i < |segments| ==> |segments[i]| == w
    ensures |Flatten(segments)| == |segments| * w
  {
    if segments != [] {
      FlattenUniform(segments[1..], w);
      assert |segments| * w == w + (|segments| - 1) * w;
    }
  }

  /** The position of the first c in s, or |s| when s holds none
      (the cut that Python's str.split(c, 1) makes). */
  function FirstIndex(s: string, c: char): (i: nat)
    ensures i <= |s|
    ensures i < |s| ==> s[i] == c
    ensures forall k :: 0 <= k < i ==> s[k] != c
  {
    if s == [] then 0
    else if s[0] == c then 0
    else FirstIndex(s[1..], c) + 1
  }

  /** FirstIndex stops short of the end exactly when c occurs in s. */
  lemma FirstIndexFinds(s: string, c: char)
    ensures FirstIndex(s, c) < |s| <==> c in s
    ensures c !in s[..FirstIndex(s, c)]
  {
    var i := FirstIndex(s, c);
    assert forall k :: 0 <= k < i ==> s[..i][k] == s[k];
  }
}
