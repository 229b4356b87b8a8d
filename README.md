# 1-out-of-n oblivious transfer over elliptic-curve ElGamal

A model of a small library that implements the 1-out-of-n oblivious transfer of Boneh and
Shoup over an elliptic-curve group. The Sender offers n items, each under an index. The
Receiver learns exactly the items filed under the one index it chose. The Sender does not
learn which index the Receiver chose.

- The Sender publishes an ephemeral public key V = bG.
- The Receiver hides its choice i in U = aG - iV, where (a, aG) is its own key pair.
- For each offered index j, the Sender derives a key from the encodings of V and of
  b·(jV + U). It encrypts item j under that key with AES-128-CBC and a fresh IV.
- The Receiver derives one key from V and a·V, and decrypts every ciphertext with it.
- Since b·(iV + U) = b·aG = a·V, that one key opens the items at index i. At every other
  index the key material handed to HKDF differs from the Receiver's.

Modules:

- `Ec` (`ec_handler.dfy`) is the elliptic-curve handler. It covers the group operations, the
  point encoding, HKDF key derivation with the application salt and info label, and the
  IV-prefixed symmetric encryption.
- `ElGamalOt` (`elgamal_ot.dfy`) holds the Receiver and the Sender. It also proves
  correctness at the chosen index, separation of the key material at every other index, and
  one full run of the protocol.
- `Bytes`, `ModArith` and `Wrappers` are support modules:
  - `Bytes` covers bytes, `u32`, byte-string literals and hexadecimal decoding.
  - `ModArith` covers arithmetic modulo the group order, including Euclid's lemma.
  - `Wrappers` provides `Option`.

How the model represents the group and the primitives:

- The curve group (secp256k1 in the source) is a cyclic group of order `order`, generated
  by G. A point is given by its discrete logarithm to the base G, so every group law is
  arithmetic modulo `order`.
- The primitives the handler calls are fields of the handler datatype:
  - the SEC 1 compressed point encoding and its decoder;
  - HKDF-SHA256 of RFC 5869;
  - AES-128-CBC with PKCS#7 padding.
- Their `Valid` predicates state the only facts the protocol relies on:
  - decoding inverts encoding;
  - HKDF returns as many bytes as requested;
  - with a 16-byte key and IV, decryption inverts encryption.

How the model handles randomness and failure:

- Randomness is passed in as parameters:
  - the key pairs `gen_key` draws;
  - the IVs `enc_data` draws.
- Where the source panics (`unwrap`, a slice out of range, `assert_eq!`), the model
  returns `None`.

Where the code and its comments or the protocol description disagree, the model follows
the code:

- `APP_SALT` is said to be 8 bytes, but its hexadecimal string decodes to 16 bytes.
- `dec_data` is listed as returning the bytes and panicking on failure, yet `dec_items`
  matches its result as `Ok`/`Err` and substitutes the text "could not decrypt this". The
  model lets `DecData` fail with `None` and has `DecItems` substitute that text, so no
  per-item error is reported.
- `enc_items` panics when it gets fewer or more data items than indexes, instead of
  returning an error.

## Model

| member | source | states |
|---|---|---|
| `Bytes.HexDecode` | src/elgamal_ot/ec_handler.rs:32 | `hex::decode` succeeds exactly when the string has even length and only hexadecimal digits, and then yields half as many bytes |
| `Bytes.HexDecodeAt` | src/elgamal_ot/ec_handler.rs:32 | byte k of the decoding is 16 times the digit at 2k plus the digit at 2k+1 |
| `Bytes.HexDecodeIntro` | src/elgamal_ot/ec_handler.rs:32 | a string whose digit pairs spell a byte sequence decodes to exactly that sequence |
| `Ec.AppInfoIsAscii` | src/elgamal_ot/ec_handler.rs:23-26 | the HKDF info label is the 17 ASCII bytes of "EC ELGAMAL 1-N OT" |
| `Ec.AppSaltIsHexDecoded` | src/elgamal_ot/ec_handler.rs:31-34 | the salt string decodes without failure (the `unwrap` cannot panic) to the 16 salt bytes |
| `Ec.DeriveKey` | src/elgamal_ot/ec_handler.rs:88-95 | the derived key over v ‖ w is 16 bytes long (the `expand` into a 16-byte buffer cannot fail) |
| `Ec.EcHandler.EcMul` | src/elgamal_ot/ec_handler.rs:65-70 | the scalar multiple m·Q is a point of the group |
| `Ec.EcHandler.EcAdd` | src/elgamal_ot/ec_handler.rs:73-78 | the sum P + Q is a point of the group |
| `Ec.EcHandler.Negated` | src/elgamal_ot/ec_handler.rs:80-84 | the inverse -P is a point of the group |
| `Ec.EcHandler.EcInvert` | src/elgamal_ot/ec_handler.rs:81-84 | the point held by the mutable reference is replaced by its inverse, and nothing else changes |
| `Ec.EcHandler.EcAddNegated` | src/elgamal_ot/ec_handler.rs:80-84 | P + (-P) is the point at infinity |
| `Ec.EcHandler.NegatedEcMul` | src/elgamal_ot.rs:49-50 | inverting i·V gives (-i)·V, as the comment of `hide_choice` relies on |
| `Ec.EcHandler.EcMulEcMul` | src/elgamal_ot/ec_handler.rs:65-70 | n·(m·P) = (m n)·P |
| `Ec.EcHandler.EcMulCommutes` | src/elgamal_ot/ec_handler.rs:65-70 | b·(a·P) = a·(b·P), the identity both parties' keys rest on |
| `Ec.EcHandler.PubkeyToBytes` | src/elgamal_ot/ec_handler.rs:58-62 | decoding the encoding of a group point gives the point back |
| `Ec.EcHandler.BytesToPubkey` | src/elgamal_ot/ec_handler.rs:45-49 | whatever decodes is a point of the group; malformed input gives None where the source panics |
| `Ec.EcHandler.PubkeyToBytesInjective` | src/elgamal_ot/ec_handler.rs:58-62 | two group points have the same encoding exactly when they are equal |
| `Ec.EcHandler.EncData` | src/elgamal_ot/ec_handler.rs:99-107 | the ciphertext begins with the 16-byte IV it was made with |
| `Ec.EcHandler.DecData` | src/elgamal_ot/ec_handler.rs:111-116 | a ciphertext shorter than the 16-byte IV fails (the source's slice panics) |
| `Ec.EcHandler.DecDataOfEncData` | src/elgamal_ot/ec_handler.rs:99-116 | decrypting what `enc_data` produced under the same key gives back the data |
| `ElGamalOt.Receiver.HideChoice` | src/elgamal_ot.rs:42-54 | the hidden choice is U = aG - iV (computed as i·V, inverted in place, added to aG) |
| `ElGamalOt.Receiver.GetDecKey` | src/elgamal_ot.rs:56-68 | the decryption key derived from V and a·V is 16 bytes |
| `ElGamalOt.Receiver.DecItems` | src/elgamal_ot.rs:70-89 | one message per ciphertext, in order: its decryption under the one key, or "could not decrypt this" where decryption fails |
| `ElGamalOt.Sender.ItemPoint` | src/elgamal_ot.rs:117-120 | the Sender's point for index j, (U + jV)·b, has the logarithm b(jv + u) mod order |
| `ElGamalOt.Sender.GetItemKey` | src/elgamal_ot.rs:107-123 | the key for one item is 16 bytes |
| `ElGamalOt.Sender.GenItemsEncKey` | src/elgamal_ot.rs:125-140 | one key per index, in order, each the item key of that index widened to `u32` |
| `ElGamalOt.Sender.EncItems` | src/elgamal_ot.rs:142-161 | fails exactly when there are not as many data items as indexes; otherwise ciphertext k is item k encrypted under the key of index k |
| `ElGamalOt.ChosenItemKeyIsDecKey` | src/elgamal_ot.rs:56-68 | at the chosen index the Sender's item key equals the Receiver's decryption key |
| `ElGamalOt.ItemPointOffChoice` | src/elgamal_ot.rs:113-123 | at index j the Sender's point has the logarithm b(a + bj - bi), while the Receiver's a·V has ba |
| `ElGamalOt.OtherItemKeyMaterialDiffers` | src/elgamal_ot.rs:56-58 | for a prime order, at every index other than the choice the Sender's point and its HKDF input differ from the Receiver's |
| `ElGamalOt.Transfer` | src/elgamal_ot.rs:70-71 | in a full run every item offered under the chosen index is decrypted to exactly the data sent |

## Left out

- `Receiver::get_pubkey` and `Receiver::get_privkey` are field accessors; the model reads
  the key pair's fields directly.
- `EcHandler::new`, `EcHandler::gen_key` and the `Default` implementations of `Receiver`
  and `Sender` are left out. They look up the named curve and draw random keys. The model
  takes the group as a parameter, and takes key pairs satisfying `IsKeyPair` (0 < d < order,
  public point d·G).
- The curve's order is a parameter, not the secp256k1 constant.
  `OtherItemKeyMaterialDiffers` assumes the order is prime as a hypothesis, because a
  256-bit primality proof is out of reach.
- The insides of the primitives are out of scope: the SEC 1 point encoding, SHA-256,
  HKDF, AES and PKCS#7. Each one is abstracted to the one property stated above.
- Random IVs are parameters: `enc_data` draws one per call, `EncItems` takes one per item,
  and `DecData` does not depend on them.
- `Ec.EcHandler.EncData` requires a 16-byte key and a 16-byte IV. The source's `unwrap`
  panics on another key length, and every caller passes a derived 16-byte key.
- `ElGamalOt.Receiver.HideChoice` does not keep the encoding of U that the source computes
  and then discards.
- The data handler (`src/elgamal_ot/data_handler.rs`) is not part of this model.
- The networked client and server (`src/bin/client.rs`, `src/bin/server.rs`) are left out:
  they are I/O around the operations above.
- Secrecy is stated only as the inequality of points and key material: at every index
  other than the choice, the point b·(jV + U) and the bytes handed to HKDF differ from the
  Receiver's. That the 16-byte keys then differ too would need HKDF to be collision
  resistant, which the model does not assume (its HKDF is constrained only in output
  length). Computational hardness (decisional Diffie–Hellman, HKDF as a random oracle) is
  not modelled either.
- `EcMul`, `EcAdd` and `EcInvert` always yield the group result. The source ignores the
  status that OpenSSL's `mul`, `add` and `invert` return. If one of them failed, the source
  would carry on with the freshly created point at infinity (for `mul` and `add`) or the
  point unchanged (for `invert`). With points of the group they do not fail.
