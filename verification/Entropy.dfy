/** Unbiased draws from a source of random bytes. */
module Entropy {
  import opened Arithmetic
  import opened Basics
  import opened Framing

  datatype EntropyError = EntropyError

  /** A source of bytes that fails once it runs out, at any time. */
  class Source {
    var stream: Bytes

    constructor (bytes: Bytes)
      ensures stream == bytes
    {
      stream := bytes;
    }

    method Fill(n: nat) returns (r: Result<Bytes, EntropyError>)
      modifies this
      ensures if n <= |old(stream)| then r == Ok(old(stream)[..n]) && stream == old(stream)[n..]
              else r == Err(EntropyError) && stream == old(stream)
    {
      if |stream| < n {
        return Err(EntropyError);
      }
      r := Ok(stream[..n]);
      stream := stream[n..];
    }
  }

  /** The largest multiple of `n` that 32-bit draws reach: draws from it on are discarded. */
  function Limit(n: nat): nat
    requires 0 < n
  {
    U32_LIMIT - U32_LIMIT % n
  }

  /** The first draw below the limit, and what is left of the stream. */
  function FirstAccepted(stream: Bytes, n: nat): (r: Result<(nat, Bytes), Bytes>)
    requires 0 < n
    ensures r.Ok? ==> r.value.0 < n
    decreases |stream|
  {
    if |stream| < 4 then Err(stream)
    else if FromU32(stream[..4]) < Limit(n) then Ok((FromU32(stream[..4]) % n, stream[4..]))
    else FirstAccepted(stream[4..], n)
  }

  /** Rejection sampling over big-endian draws. */
  method UniformBelow(entropy: Source, n: nat) returns (r: Result<nat, EntropyError>)
    requires 0 < n < U32_LIMIT
    modifies entropy
    ensures match FirstAccepted(old(entropy.stream), n)
            case Ok((value, rest)) => r == Ok(value) && entropy.stream == rest
            case Err(rest) => r == Err(EntropyError) && entropy.stream == rest
  {
    var range := U32_LIMIT;
    var limit := range - range % n;
    while true
      invariant FirstAccepted(entropy.stream, n) == FirstAccepted(old(entropy.stream), n)
      decreases |entropy.stream|
    {
      var bytes := entropy.Fill(4);
      if bytes.Err? {
        return Err(EntropyError);
      }
      var value := FromU32(bytes.value);
      if value < limit {
        return Ok(value % n);
      }
    }
  }

  // ---------------------------------------------------------------- uniformity

  /** The draws below `m` that a residue is computed from. */
  ghost function DrawsOf(residue: nat, n: nat, m: nat): set<nat>
    requires 0 < n
  {
    set v: nat | v < m && v % n == residue
  }

  lemma {:induction false} OncePerMultiple(residue: nat, n: nat, k: nat)
    requires residue < n
    ensures |DrawsOf(residue, n, k * n)| == k
    decreases k
  {
    if k == 0 {
      assert DrawsOf(residue, n, 0) == {};
    } else {
      OncePerMultiple(residue, n, k - 1);
      var next := (k - 1) * n + residue;
      RemainderOf(k - 1, n, residue);
      forall v: nat | v < k * n && v % n == residue ensures v < (k - 1) * n || v == next {
        if v >= (k - 1) * n {
          RemainderOf(k - 1, n, v - (k - 1) * n);
        }
      }
      assert (k - 1) * n <= k * n && next < k * n;
      assert DrawsOf(residue, n, k * n) == DrawsOf(residue, n, (k - 1) * n) + {next};
    }
  }

  /** Every residue is given by exactly floor(2^32 / n) of the accepted draws, so none is likelier
      than another; the limit is a multiple of `n`; and fewer than half of all draws are discarded. */
  lemma DrawsAreUniform(n: nat, residue: nat)
    requires 0 < n < U32_LIMIT && residue < n
    ensures |DrawsOf(residue, n, Limit(n))| == U32_LIMIT / n
    ensures Limit(n) == U32_LIMIT / n * n && 0 < Limit(n) <= U32_LIMIT
    ensures 2 * (U32_LIMIT - Limit(n)) < U32_LIMIT
  {
    var q := U32_LIMIT / n;
    assert U32_LIMIT == q * n + U32_LIMIT % n;
    assert q >= 1 && q * n >= n;
    OncePerMultiple(residue, n, q);
  }

  /** Every 32-bit draw is spelled by exactly one group of four bytes. */
  lemma DrawsAreFourBytes(v: nat, bytes: Bytes)
    requires v < U32_LIMIT && |bytes| == 4
    ensures FromU32(bytes) == v <==> bytes == ToU32(v)
  {
    FromU32InvertsToU32(v);
    ToU32InvertsFromU32(bytes);
  }
}
