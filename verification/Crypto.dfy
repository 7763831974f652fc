/**
 * The cryptography the protocols are built on, left abstract: a primitive is
 * any function, and what is assumed of it is said by a predicate.
 */
module Crypto {
  import opened Chunk

  /**
   * Authenticated encryption under one key.  `encrypt(plain, aad, iv)` yields the
   * ciphertext with the ICV behind it, `decrypt(cipher, aad, iv)` undoes it; either
   * may fail.  `ivGen(seqno)` makes the IV for a sequence number, and may be missing.
   */
  datatype Aead = Aead(
    blockSize: nat, ivSize: nat, icvSize: nat,
    ivGen: Option<uint32 -> Option<seq<byte>>>,
    encrypt: (seq<byte>, seq<byte>, seq<byte>) -> Option<seq<byte>>,
    decrypt: (seq<byte>, seq<byte>, seq<byte>) -> Option<seq<byte>>)
  {
    ghost predicate Works() {
      && blockSize > 0
      && (ivGen.Some? ==> forall s: uint32 :: ivGen.value(s).Some? ==> |ivGen.value(s).value| == ivSize)
      && (forall plain, aad, iv :: encrypt(plain, aad, iv).Some? ==>
            && |encrypt(plain, aad, iv).value| == |plain| + icvSize
            && decrypt(encrypt(plain, aad, iv).value, aad, iv) == Some(plain))
    }
  }

  /** A block cipher in some mode, under one key: `encrypt(data, iv)` keeps the length and `decrypt` undoes it. */
  datatype Cipher = Cipher(
    blockSize: nat, ivSize: nat,
    encrypt: (seq<byte>, seq<byte>) -> Option<seq<byte>>,
    decrypt: (seq<byte>, seq<byte>) -> Option<seq<byte>>)
  {
    ghost predicate Works() {
      && 0 < blockSize < 0x100
      && forall data, iv :: |data| % blockSize == 0 && |iv| == ivSize && encrypt(data, iv).Some? ==>
           |encrypt(data, iv).value| == |data| && decrypt(encrypt(data, iv).value, iv) == Some(data)
    }
  }

  /** A keyed signature of fixed size; computing it may fail. */
  datatype Signer = Signer(size: nat, sign: seq<byte> -> Option<seq<byte>>) {
    ghost predicate Works() {
      forall data :: sign(data).Some? ==> |sign(data).value| == size
    }

    predicate Verifies(data: seq<byte>, signature: seq<byte>) {
      sign(data) == Some(signature)
    }
  }
}
