/** Byte-level vocabulary shared by the EIP-712 encoder and the typed-transaction
    scanner: bytes, fixed-width unsigned integers, 32-byte digests, Option/Result,
    and the streaming hasher both of them feed. */
module Common {

  newtype byte = x: int | 0 <= x < 0x100
  newtype u32 = x: int | 0 <= x < 0x1_0000_0000
  newtype u64 = x: int | 0 <= x < 0x1_0000_0000_0000_0000

  const TWO_TO_THE_64: nat := 0x1_0000_0000_0000_0000

  /** 256 to the power `k`: the number of values a `k`-byte string can hold. */
  function Pow256(k: nat): (p: nat)
    ensures p >= 1
  {
    if k == 0 then 1 else 256 * Pow256(k - 1)
  }

  /** `n` zero bytes. */
  function Zeros(n: nat): (z: seq<byte>)
    ensures |z| == n
    ensures forall k :: 0 <= k < n ==> z[k] == 0
  {
    seq(n, _ => 0)
  }

  lemma AppendAssoc(a: seq<byte>, b: seq<byte>, c: seq<byte>)
    ensures a + b + c == a + (b + c)
  {
  }

  /** The 32-byte output of Keccak256 or of Blake2b-256, and an EIP-712 word. */
  type Bytes32 = s: seq<byte> | |s| == 32 witness Zeros(32)

  datatype Option<+T> = None | Some(value: T)

  datatype Result<+T, +E> = Ok(value: T) | Err(error: E)

  /** A streaming hash function (`Digest::update` / `finalize`). The hash
      algorithm itself is opaque: `digest` maps the bytes fed so far to the
      32-byte result, and only the fed bytes (the preimage) are specified. */
  class Hasher {
    const digest: seq<byte> -> Bytes32
    var input: seq<byte>

    constructor (digest: seq<byte> -> Bytes32)
      ensures this.digest == digest && input == []
    {
      this.digest := digest;
      input := [];
    }

    method Update(data: seq<byte>)
      modifies this
      ensures input == old(input) + data
    {
      input := input + data;
    }

    function Finalize(): Bytes32
      reads this
    {
      digest(input)
    }
  }
}
