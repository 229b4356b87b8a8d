/**
 * The elliptic-curve handler of the oblivious-transfer library: group arithmetic,
 * the compressed point encoding, key derivation and the IV-framed symmetric cipher.
 *
 * The curve group (secp256k1 in the source) is modelled as an abstract cyclic group
 * of order `order`, generated by G: a point is given by its discrete logarithm to
 * the base G, so G is Point(1), the point at infinity is Point(0), P + Q has the
 * logarithm (p + q) mod order, m·P has (m·p) mod order and -P has (-p) mod order.
 * The library primitives the handler calls (SEC 1 point encoding, HKDF-SHA256 of
 * RFC 5869, AES-128-CBC of NIST SP 800-38A with PKCS#7 padding) are function-valued
 * fields; the `Valid` predicates state the only facts about them the protocol uses.
 */
module Ec {
  import opened Wrappers
  import opened Bytes
  import opened ModArith

  /** A point of the group, by its discrete logarithm to the base G. */
  datatype Point = Point(dlog: nat)

  /** The identity element: the point at infinity. */
  const Infinity := Point(0)

  /** The generator G. */
  const Generator := Point(1)

  /** The named curve group: its order and the compressed encoding of its points (SEC 1 section 2.3.3). */
  datatype EcGroup = EcGroup(order: nat, toBytes: Point -> seq<byte>, fromBytes: seq<byte> -> Option<Point>) {

    /** The point lies in the group. */
    predicate Contains(p: Point) {
      p.dlog < order
    }

    /** Decoding undoes encoding, and decodes only to points of the group. */
    ghost predicate Valid() {
      && order > 1
      && (forall p :: Contains(p) ==> fromBytes(toBytes(p)) == Some(p))
      && (forall bs :: fromBytes(bs).Some? ==> Contains(fromBytes(bs).value))
    }
  }

  /**
   * AES-128-CBC with PKCS#7 padding: `encrypt(key, iv, data)` and `decrypt(key, iv, data)`;
   * decryption fails (bad length, bad padding) with None.
   */
  datatype Cipher = Cipher(
    encrypt: (seq<byte>, seq<byte>, seq<byte>) -> seq<byte>,
    decrypt: (seq<byte>, seq<byte>, seq<byte>) -> Option<seq<byte>>)
  {
    /** With a 16-byte key and a 16-byte IV, decryption undoes encryption. */
    ghost predicate Valid() {
      forall key, iv, data :: |key| == 16 && |iv| == 16 ==> decrypt(key, iv, encrypt(key, iv, data)) == Some(data)
    }
  }

  /** HKDF-SHA256 (RFC 5869) as `hkdf(salt, ikm, info, length)`: extract, then expand to `length` bytes. */
  type Hkdf = (seq<byte>, seq<byte>, seq<byte>, nat) -> seq<byte>

  /** The longest output HKDF-SHA256 can expand to: 255 blocks of 32 bytes. */
  const MaxHkdfLength := 255 * 32

  /** HKDF returns as many bytes as asked for, up to its limit. */
  ghost predicate HkdfValid(hkdf: Hkdf) {
    forall salt, ikm, info, n: nat :: n <= MaxHkdfLength ==> |hkdf(salt, ikm, info, n)| == n
  }

  /** The info label given to HKDF's expand step, as the ASCII text the source spells it in. */
  const AppInfoText := "EC ELGAMAL 1-N OT"

  /** The info label given to HKDF's expand step. */
  const AppInfo: seq<byte> := [0x45, 0x43, 0x20, 0x45, 0x4c, 0x47, 0x41, 0x4d, 0x41, 0x4c, 0x20, 0x31, 0x2d, 0x4e, 0x20, 0x4f, 0x54]

  /** The info label is the byte-string literal of its text. */
  lemma AppInfoIsAscii()
    ensures IsAscii(AppInfoText) && AsciiBytes(AppInfoText) == AppInfo
  {
    var s := AppInfoText;
    assert IsAscii(s) by {
      forall k | 0 <= k < |s|
        ensures s[k] as int < 128
      {
        assert k == 0 || k == 1 || k == 2 || k == 3 || k == 4 || k == 5 || k == 6 || k == 7 || k == 8 ||
               k == 9 || k == 10 || k == 11 || k == 12 || k == 13 || k == 14 || k == 15 || k == 16;
      }
    }
    var r := AsciiBytes(s);
    forall k | 0 <= k < |s|
      ensures r[k] == AppInfo[k]
    {
      assert k == 0 || k == 1 || k == 2 || k == 3 || k == 4 || k == 5 || k == 6 || k == 7 || k == 8 ||
             k == 9 || k == 10 || k == 11 || k == 12 || k == 13 || k == 14 || k == 15 || k == 16;
    }
  }

  /** The application salt as the hexadecimal string the source decodes. */
  const AppSaltHex := "19b43144e977bd6823a40287d4406819"

  /** The fixed salt given to HKDF's extract step (16 bytes). */
  const AppSalt: seq<byte> := [0x19, 0xb4, 0x31, 0x44, 0xe9, 0x77, 0xbd, 0x68, 0x23, 0xa4, 0x02, 0x87, 0xd4, 0x40, 0x68, 0x19]

  /** The salt is the hexadecimal decoding of its string: 32 digits, 16 bytes. */
  lemma AppSaltIsHexDecoded()
    ensures HexDecode(AppSaltHex) == Some(AppSalt) && |AppSalt| == 16
  {
    var s := AppSaltHex;
    forall k | 0 <= k < 16
      ensures HexPairIs(s[2 * k], s[2 * k + 1], AppSalt[k])
    {
      assert k == 0 || k == 1 || k == 2 || k == 3 || k == 4 || k == 5 || k == 6 || k == 7 ||
             k == 8 || k == 9 || k == 10 || k == 11 || k == 12 || k == 13 || k == 14 || k == 15;
    }
    HexDecodeIntro(s, AppSalt);
  }

  /**
   * `derive_key`: HKDF-SHA256 with the application salt and info label over the key
   * material v ‖ w, expanded into a 16-byte buffer.
   */
  function DeriveKey(hkdf: Hkdf, v: seq<byte>, w: seq<byte>): (key: seq<byte>)
    requires HkdfValid(hkdf)
    ensures |key| == 16
  {
    var ikm := v + w;
    hkdf(AppSalt, ikm, AppInfo, 16)
  }

  /** An EC key pair: a private scalar and its public point. */
  datatype KeyPair = KeyPair(privateKey: nat, publicKey: Point)

  /** The data of the OT engine: the curve group, the block cipher, and the HKDF the key derivation calls. */
  datatype EcHandler = EcHandler(ecgroup: EcGroup, blockCipher: Cipher, hkdf: Hkdf) {

    ghost predicate Valid() {
      ecgroup.Valid() && blockCipher.Valid() && HkdfValid(hkdf)
    }

    /**
     * A key pair as `gen_key` returns it: a private scalar d with 0 < d < order and the
     * public point d·G.
     */
    ghost predicate IsKeyPair(k: KeyPair)
      requires Valid()
    {
      0 < k.privateKey < ecgroup.order && k.publicKey == EcMul(Generator, k.privateKey)
    }

    /** `ec_mul`: the scalar multiple m·Q. */
    function EcMul(q: Point, m: nat): (r: Point)
      requires Valid()
      ensures ecgroup.Contains(r)
    {
      Point((q.dlog * m) % ecgroup.order)
    }

    /** `ec_add`: the sum P + Q. */
    function EcAdd(p: Point, q: Point): (r: Point)
      requires Valid()
      ensures ecgroup.Contains(r)
    {
      Point((p.dlog + q.dlog) % ecgroup.order)
    }

    /** The inverse -P, which `ec_invert` stores in place of P. */
    function Negated(p: Point): (r: Point)
      requires Valid()
      ensures ecgroup.Contains(r)
    {
      Point((-(p.dlog as int)) % ecgroup.order)
    }

    /** `ec_invert`: replaces the point held by `p` with its inverse. */
    method EcInvert(p: PointCell)
      requires Valid() && ecgroup.Contains(p.point)
      modifies p
      ensures p.point == Negated(old(p.point))
    {
      var d := p.point.dlog;
      if d == 0 {
        // the point at infinity is its own inverse
      } else {
        p.point := Point(ecgroup.order - d);
        ModUnique(-(d as int), ecgroup.order, -1, ecgroup.order - d);
      }
    }

    /** `pubkey_to_bytes`: the compressed encoding of a point; decoding gives the point back. */
    function PubkeyToBytes(p: Point): (bytes: seq<byte>)
      requires Valid()
      ensures ecgroup.Contains(p) ==> BytesToPubkey(bytes) == Some(p)
    {
      ecgroup.toBytes(p)
    }

    /** `bytes_to_pubkey`: the point a byte string encodes; None where the source panics on malformed input. */
    function BytesToPubkey(buf: seq<byte>): (r: Option<Point>)
      requires Valid()
      ensures r.Some? ==> ecgroup.Contains(r.value)
    {
      ecgroup.fromBytes(buf)
    }

    /** `enc_data`: the IV, then the cipher's output under `key` and that IV. */
    function EncData(key: seq<byte>, data: seq<byte>, iv: seq<byte>): (ciphertext: seq<byte>)
      requires Valid() && |key| == 16 && |iv| == 16
      ensures |ciphertext| >= 16 && ciphertext[..16] == iv
    {
      var c := blockCipher.encrypt(key, iv, data);
      iv + c
    }

    /**
     * `dec_data`: the first 16 bytes are the IV, the rest the cipher's output. None where the
     * source panics: input shorter than 16 bytes, or a failed decryption.
     */
    function DecData(key: seq<byte>, ciphertext: seq<byte>): (data: Option<seq<byte>>)
      requires Valid()
      ensures |ciphertext| < 16 ==> data == None
    {
      if |ciphertext| < 16 then None
      else
        var iv := ciphertext[0..16];
        var body := ciphertext[16..];
        blockCipher.decrypt(key, iv, body)
    }

    /** Encoding is injective on the points of the group. */
    lemma PubkeyToBytesInjective(p: Point, q: Point)
      requires Valid() && ecgroup.Contains(p) && ecgroup.Contains(q)
      ensures PubkeyToBytes(p) == PubkeyToBytes(q) <==> p == q
    {
      if PubkeyToBytes(p) == PubkeyToBytes(q) {
        assert Some(p) == BytesToPubkey(PubkeyToBytes(q)) == Some(q);
      }
    }

    /** Decrypting what `enc_data` produced under the same key gives back the data. */
    lemma DecDataOfEncData(key: seq<byte>, data: seq<byte>, iv: seq<byte>)
      requires Valid() && |key| == 16 && |iv| == 16
      ensures DecData(key, EncData(key, data, iv)) == Some(data)
    {
      var c := EncData(key, data, iv);
      assert c[0..16] == iv && c[16..] == blockCipher.encrypt(key, iv, data);
    }

    /** Scalar multiplications compose: n·(m·P) = (m n)·P. */
    lemma EcMulEcMul(p: Point, m: nat, n: nat)
      requires Valid()
      ensures EcMul(EcMul(p, m), n) == EcMul(p, m * n)
    {
      ModMulLeft(p.dlog * m, n, ecgroup.order);
      assert p.dlog * m * n == p.dlog * (m * n);
    }

    /** The order of two scalar multiplications does not matter: b·(a·P) = a·(b·P). */
    lemma EcMulCommutes(p: Point, a: nat, b: nat)
      requires Valid()
      ensures EcMul(EcMul(p, a), b) == EcMul(EcMul(p, b), a)
    {
      EcMulEcMul(p, a, b);
      EcMulEcMul(p, b, a);
      assert a * b == b * a;
    }

    /** Inverting a multiple multiplies by the negated scalar: -(i·V) = (-i)·V. */
    lemma NegatedEcMul(v: Point, i: nat)
      requires Valid()
      ensures Negated(EcMul(v, i)).dlog == (-(i as int) * v.dlog) % ecgroup.order
    {
      var q := ecgroup.order;
      assert -((v.dlog * i) % q) == -(v.dlog * i) + q * ((v.dlog * i) / q);
      ModShift(-(v.dlog * i), q, (v.dlog * i) / q);
      assert -(i as int) * v.dlog == -(v.dlog * i);
    }

    /** A point plus its inverse is the point at infinity. */
    lemma EcAddNegated(p: Point)
      requires Valid()
      ensures EcAdd(p, Negated(p)) == Infinity
    {
      var q := ecgroup.order;
      ModAddRight(p.dlog, -(p.dlog as int), q);
    }
  }

  /** A mutable reference to a point (`&mut EcPointRef`), for the one operation that updates a point in place. */
  class PointCell {
    var point: Point

    constructor (p: Point)
      ensures point == p
    {
      point := p;
    }
  }
}
