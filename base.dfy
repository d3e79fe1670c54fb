/** Shared vocabulary: fixed-width integers, bytes, Option/Result, and the
    sequence operations (concatenation of pieces, zero-filled buffers, an
    in-place overwrite) that the contract and the clients are stated in. */
module Base {

  const U64_MOD: int := 0x1_0000_0000_0000_0000

  /** An AVM / ABI uint64. Arithmetic on it is unbounded here; overflow and
      underflow are checked explicitly where the source would fail. */
  type uint64 = x: int | 0 <= x < 0x1_0000_0000_0000_0000

  /** An ABI uint8. */
  type uint8 = x: int | 0 <= x < 256

  type Byte = x: int | 0 <= x < 256

  /** An account address, as its 32-byte public key. */
  type Address = seq<Byte>

  datatype Option<T> = None | Some(value: T) {
    predicate IsFailure() { None? }
    function PropagateFailure<U>(): Option<U> requires None? { None }
    function Extract(): T requires Some? { value }
  }

  datatype Result<T, E> = Ok(value: T) | Err(error: E)

  function Min(a: int, b: int): int
  {
    if a <= b then a else b
  }

  /** Integer ceiling division, the exact value of Math.ceil(a / b). */
  function CeilDiv(a: nat, b: nat): (q: nat)
    requires b > 0
    ensures q * b >= a
    ensures q == 0 || (q - 1) * b < a
  {
    (a + b - 1) / b
  }

  /** The concatenation of a list of byte strings (Buffer.concat). */
  function Flatten<T>(ss: seq<seq<T>>): seq<T>
  {
    if ss == [] then [] else ss[0] + Flatten(ss[1..])
  }

  lemma {:induction false} FlattenAppend<T>(a: seq<seq<T>>, b: seq<seq<T>>)
    ensures Flatten(a + b) == Flatten(a) + Flatten(b)
  {
    if a == [] {
      assert a + b == b;
    } else {
      assert (a + b)[1..] == a[1..] + b;
      FlattenAppend(a[1..], b);
    }
  }

  /** A freshly created box: `n` zero bytes. */
  function Zeros(n: nat): (z: seq<Byte>)
    ensures |z| == n
    ensures forall i :: 0 <= i < n ==> z[i] == 0
  {
    seq(n, _ => 0)
  }

  /** `box` with the bytes [offset, offset + |data|) replaced by `data`
      (box_replace). */
  function Splice(box: seq<Byte>, offset: nat, data: seq<Byte>): (r: seq<Byte>)
    requires offset + |data| <= |box|
    ensures |r| == |box|
    ensures r[offset..offset + |data|] == data
    ensures forall i :: 0 <= i < |box| && !(offset <= i < offset + |data|) ==> r[i] == box[i]
  {
    box[..offset] + data + box[offset + |data|..]
  }

  /** Writing the slice [p, q) of `b` over a buffer that already holds b's
      first p bytes followed by zeros extends the written prefix to q. */
  lemma SpliceExtendsPrefix(b: seq<Byte>, p: nat, q: nat)
    requires p <= q <= |b|
    ensures Splice(b[..p] + Zeros(|b| - p), p, b[p..q]) == b[..q] + Zeros(|b| - q)
  {
    var lhs := Splice(b[..p] + Zeros(|b| - p), p, b[p..q]);
    var rhs := b[..q] + Zeros(|b| - q);
    forall i | 0 <= i < |b| ensures lhs[i] == rhs[i] {
      if i < p {
        assert lhs[i] == (b[..p] + Zeros(|b| - p))[i];
      } else if i < q {
        assert lhs[i] == lhs[p..q][i - p];
      } else {
        assert lhs[i] == (b[..p] + Zeros(|b| - p))[i];
      }
    }
  }

  /** Cut points: ascending and within `d`. */
  ghost predicate Cuts<T>(d: seq<T>, cuts: seq<int>)
  {
    && (forall i :: 0 <= i < |cuts| ==> 0 <= cuts[i] <= |d|)
    && (forall i, j :: 0 <= i <= j < |cuts| ==> cuts[i] <= cuts[j])
  }

  /** Multiples of a positive step, clipped to |d|, are cut points. */
  lemma ClippedCuts<T>(d: seq<T>, step: nat, cuts: seq<int>)
    requires step > 0
    requires forall i :: 0 <= i < |cuts| ==> cuts[i] == Min(i * step, |d|)
    ensures Cuts(d, cuts)
  {
    forall i, j | 0 <= i <= j < |cuts| ensures cuts[i] <= cuts[j] {
      assert i * step <= j * step by {
        assert j * step - i * step == (j - i) * step;
      }
    }
  }

  /** Cutting `d` at ascending cut points and concatenating the slices gives
      back the stretch of `d` between the first and the last cut. */
  lemma {:induction false} FlattenCuts<T>(d: seq<T>, ps: seq<seq<T>>, cuts: seq<int>)
    requires |cuts| == |ps| + 1 && Cuts(d, cuts)
    requires forall i :: 0 <= i < |ps| ==> ps[i] == d[cuts[i]..cuts[i + 1]]
    ensures Flatten(ps) == d[cuts[0]..cuts[|ps|]]
  {
    if ps != [] {
      var ps', cuts' := ps[1..], cuts[1..];
      forall i | 0 <= i < |ps'| ensures ps'[i] == d[cuts'[i]..cuts'[i + 1]] {
        assert ps'[i] == ps[i + 1] && cuts'[i] == cuts[i + 1] && cuts'[i + 1] == cuts[i + 2];
      }
      FlattenCuts(d, ps', cuts');
      assert cuts[0] <= cuts[1] <= cuts[|ps|];
      assert d[cuts[0]..cuts[|ps|]] == d[cuts[0]..cuts[1]] + d[cuts[1]..cuts[|ps|]];
    }
  }

  /** Big-endian encoding of `x` in `n` bytes (the last byte is x mod 256). */
  function BigEndian(x: nat, n: nat): (r: seq<Byte>)
    ensures |r| == n
  {
    if n == 0 then [] else BigEndian(x / 256, n - 1) + [x % 256]
  }

  function FromBigEndian(bs: seq<Byte>): nat
  {
    if bs == [] then 0 else FromBigEndian(bs[..|bs| - 1]) * 256 + bs[|bs| - 1]
  }

  function Pow256(n: nat): (p: nat)
    ensures p > 0
  {
    if n == 0 then 1 else 256 * Pow256(n - 1)
  }

  /** Decoding the n-byte big-endian encoding of a value below 256^n gives
      the value back. */
  lemma {:induction false} BigEndianRoundTrip(x: nat, n: nat)
    requires x < Pow256(n)
    ensures FromBigEndian(BigEndian(x, n)) == x
  {
    if n > 0 {
      var q, r := x / 256, x % 256;
      BigEndianRoundTrip(q, n - 1);
      FromBigEndianSnoc(BigEndian(q, n - 1), r);
    }
  }

  lemma FromBigEndianSnoc(bs: seq<Byte>, b: Byte)
    ensures FromBigEndian(bs + [b]) == FromBigEndian(bs) * 256 + b
  {
    assert (bs + [b])[..|bs|] == bs;
  }

  lemma Pow256Eight()
    ensures Pow256(8) == U64_MOD
  {
  }
}
