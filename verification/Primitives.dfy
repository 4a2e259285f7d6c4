/**
 The library calls the format rests on, as parameters. A theorem that needs a
 hash to be collision free says on which messages: `InjectiveOn(h, M)` speaks
 of the finitely many messages hashed, so it is met by a hash with 32-byte digests.
 */
module Primitives {
  import opened ByteStrings

  const ZERO_DIGEST: seq<Byte> := seq(32, _ => 0)

  type Digest = d: Buffer | |d| == 32 witness seq(32, _ => 0)

  /** SHA-256 as far as the format uses it: a function to 32-byte digests. */
  type Hash = Buffer -> Digest

  /** No two messages of `messages` share a digest. */
  ghost predicate InjectiveOn(h: Hash, messages: iset<Buffer>) {
    forall x, y | x in messages && y in messages && h(x) == h(y) :: x == y
  }

  /** The base64url text form of byte strings, encoder and (lenient) decoder. */
  datatype Base64 = Base64(encode: Buffer -> string, decode: string -> Buffer)
  {
    /** Decoding undoes encoding; a decoder may accept other spellings too. */
    ghost predicate Faithful() {
      forall b :: decode(encode(b)) == b
    }
  }

  /** ES256 under one public key, over a message and a P1363 signature. */
  type Verifier = (Buffer, Buffer) -> bool
}
