/**
 * The 1-out-of-n oblivious transfer of Boneh and Shoup over an elliptic-curve group:
 * the Receiver hides its choice i as U = aG - iV, the Sender derives one key per
 * offered index j from b·(jV + U) and encrypts item j under it, and the Receiver
 * derives the single key from a·V, which matches the Sender's key at index i only.
 */
module ElGamalOt {
  import opened Wrappers
  import opened Bytes
  import opened ModArith
  import opened Ec

  /** What `dec_items` yields for a ciphertext it cannot decrypt. */
  const CouldNotDecrypt := AsciiBytes("could not decrypt this")

  /** The Receiver: the curve handler and its key pair (a, aG). */
  datatype Receiver = Receiver(ecHandler: EcHandler, key: KeyPair) {

    ghost predicate Valid() {
      ecHandler.Valid() && ecHandler.IsKeyPair(key)
    }

    /** The hidden choice as the protocol defines it: aG - iV, by its discrete logarithm. */
    function HiddenChoice(choice: nat, senderPubkey: Point): (u: Point)
      requires Valid()
      ensures ecHandler.ecgroup.Contains(u)
    {
      Point((key.publicKey.dlog - choice * senderPubkey.dlog) % ecHandler.ecgroup.order)
    }

    /** `hide_choice`: i·V, inverted in place, added to the Receiver's public key. */
    method HideChoice(choice: u32, senderPubkey: Point) returns (u: Point)
      requires Valid()
      ensures u == HiddenChoice(choice, senderPubkey)
    {
      var v := new PointCell(ecHandler.EcMul(senderPubkey, choice));
      ecHandler.EcInvert(v);
      u := ecHandler.EcAdd(key.publicKey, v.point);
      ecHandler.NegatedEcMul(senderPubkey, choice);
      ModAddRight(key.publicKey.dlog, -(choice as int) * senderPubkey.dlog, ecHandler.ecgroup.order);
    }

    /** `get_dec_key`: the key derived from the encodings of V and of a·V. */
    function GetDecKey(senderPubkey: Point): (decKey: seq<byte>)
      requires Valid()
      ensures |decKey| == 16
    {
      var w := ecHandler.PubkeyToBytes(ecHandler.EcMul(senderPubkey, key.privateKey));
      var v := ecHandler.PubkeyToBytes(senderPubkey);
      DeriveKey(ecHandler.hkdf, v, w)
    }

    /**
     * `dec_items`: decrypts every ciphertext, in order, under the one key of `get_dec_key`;
     * where decryption fails the output is the placeholder text.
     */
    method DecItems(ciphertexts: seq<seq<byte>>, senderPubkey: Point) returns (messages: seq<seq<byte>>)
      requires Valid()
      ensures |messages| == |ciphertexts|
      ensures forall k :: 0 <= k < |ciphertexts| ==>
                messages[k] == ecHandler.DecData(GetDecKey(senderPubkey), ciphertexts[k]).GetOr(CouldNotDecrypt)
    {
      var decKey := GetDecKey(senderPubkey);
      messages := [];
      var i := 0;
      while i < |ciphertexts|
        invariant 0 <= i <= |ciphertexts| && |messages| == i
        invariant forall k :: 0 <= k < i ==> messages[k] == ecHandler.DecData(decKey, ciphertexts[k]).GetOr(CouldNotDecrypt)
      {
        var message := match ecHandler.DecData(decKey, ciphertexts[i])
          case Some(m) => m
          case None => CouldNotDecrypt;
        messages := messages + [message];
        i := i + 1;
      }
    }
  }

  /** The Sender: only the curve handler; its ephemeral key pair (b, bG) is passed per run. */
  datatype Sender = Sender(ecHandler: EcHandler) {

    ghost predicate Valid() {
      ecHandler.Valid()
    }

    /** The Sender's point for item j, b·(j·V + U), as one reduction of b(jv + u). */
    function ItemPoint(itemIndex: nat, senderEphk: KeyPair, receiverKm: Point): (w: Point)
      requires Valid()
      ensures w.dlog == (senderEphk.privateKey * (itemIndex * senderEphk.publicKey.dlog + receiverKm.dlog))
                        % ecHandler.ecgroup.order
    {
      var q, b, vj := ecHandler.ecgroup.order, senderEphk.privateKey, itemIndex * senderEphk.publicKey.dlog;
      var vPowerJ := ecHandler.EcMul(senderEphk.publicKey, itemIndex);
      var uJ := ecHandler.EcAdd(vPowerJ, receiverKm);
      ModAddLeft(vj, receiverKm.dlog, q);
      ModMulLeft(vj % q + receiverKm.dlog, b, q);
      ModMulLeft(vj + receiverKm.dlog, b, q);
      assert senderEphk.publicKey.dlog * itemIndex == vj;
      assert (vj + receiverKm.dlog) * b == b * (vj + receiverKm.dlog);
      ecHandler.EcMul(uJ, b)
    }

    /** `get_item_key`: the key derived from the given encoding of V and the encoding of b·(j·V + U). */
    function GetItemKey(itemIndex: u32, senderEphk: KeyPair, senderEphkBytes: seq<byte>, receiverKm: Point): (itemKey: seq<byte>)
      requires Valid()
      ensures |itemKey| == 16
    {
      var wJ := ecHandler.PubkeyToBytes(ItemPoint(itemIndex, senderEphk, receiverKm));
      DeriveKey(ecHandler.hkdf, senderEphkBytes, wJ)
    }

    /** `gen_items_enc_key`: one item key per offered index, in the order of the indexes. */
    method GenItemsEncKey(indexes: seq<byte>, senderEphk: KeyPair, senderEphkBytes: seq<byte>, receiverKm: Point)
      returns (keys: seq<seq<byte>>)
      requires Valid()
      ensures |keys| == |indexes|
      ensures forall k :: 0 <= k < |indexes| ==>
                keys[k] == GetItemKey(indexes[k] as u32, senderEphk, senderEphkBytes, receiverKm)
    {
      keys := [];
      var i := 0;
      while i < |indexes|
        invariant 0 <= i <= |indexes| && |keys| == i
        invariant forall k :: 0 <= k < i ==>
                    keys[k] == GetItemKey(indexes[k] as u32, senderEphk, senderEphkBytes, receiverKm)
      {
        var key := GetItemKey(indexes[i] as u32, senderEphk, senderEphkBytes, receiverKm);
        keys := keys + [key];
        i := i + 1;
      }
    }

    /**
     * `enc_items`: encrypts `data[k]` under the key of `indexes[k]`, position by position,
     * with `ivs[k]` as the IV drawn for it. None where the source's length assertion fails.
     */
    method EncItems(indexes: seq<byte>, data: seq<seq<byte>>, senderEphk: KeyPair, senderEphkBytes: seq<byte>,
                    receiverKm: Point, ivs: seq<seq<byte>>)
      returns (ciphertexts: Option<seq<seq<byte>>>)
      requires Valid() && |ivs| == |indexes| && forall k :: 0 <= k < |ivs| ==> |ivs[k]| == 16
      ensures ciphertexts.Some? <==> |indexes| == |data|
      ensures ciphertexts.Some? ==> |ciphertexts.value| == |indexes|
      ensures ciphertexts.Some? ==> forall k :: 0 <= k < |indexes| ==>
                ciphertexts.value[k] ==
                  ecHandler.EncData(GetItemKey(indexes[k] as u32, senderEphk, senderEphkBytes, receiverKm), data[k], ivs[k])
    {
      if |indexes| != |data| {
        return None;
      }
      var length := |indexes|;
      var out: seq<seq<byte>> := [];
      var keys := GenItemsEncKey(indexes, senderEphk, senderEphkBytes, receiverKm);
      for i := 0 to length
        invariant |out| == i
        invariant forall k :: 0 <= k < i ==> out[k] == ecHandler.EncData(keys[k], data[k], ivs[k])
      {
        var ciphertext := ecHandler.EncData(keys[i], data[i], ivs[i]);
        out := out + [ciphertext];
      }
      return Some(out);
    }
  }

  /**
   * Correctness: at the chosen index, with V = bG encoded as the Sender sends it and U the
   * Receiver's hidden choice, the Sender's item key is the Receiver's decryption key.
   */
  lemma ChosenItemKeyIsDecKey(h: EcHandler, receiverKey: KeyPair, senderEphk: KeyPair, choice: u32)
    requires h.Valid() && h.IsKeyPair(receiverKey) && h.IsKeyPair(senderEphk)
    ensures var receiver, v := Receiver(h, receiverKey), senderEphk.publicKey;
            Sender(h).GetItemKey(choice, senderEphk, h.PubkeyToBytes(v), receiver.HiddenChoice(choice, v))
              == receiver.GetDecKey(v)
  {
    var q, a, b := h.ecgroup.order, receiverKey.privateKey, senderEphk.privateKey;
    var receiver, v := Receiver(h, receiverKey), senderEphk.publicKey;
    var u := receiver.HiddenChoice(choice, v);
    ModUnique(1 * a, q, 0, a);
    ModUnique(1 * b, q, 0, b);
    assert u.dlog == (a - choice * b) % q;
    ShiftedProductResidue(q, a, b, choice, choice);
    assert a + b * choice - b * choice == a;
    assert Sender(h).ItemPoint(choice, senderEphk, u) == h.EcMul(v, a) by {
      assert b * a == v.dlog * a;
    }
  }

  /**
   * Sender privacy towards the Receiver: at an index j different from the choice i (modulo
   * the order, which is prime), the Sender's point b·(jV + U) is not the Receiver's a·V, so
   * the key material handed to HKDF differs from the Receiver's.
   */
  lemma OtherItemKeyMaterialDiffers(h: EcHandler, receiverKey: KeyPair, senderEphk: KeyPair, choice: nat, itemIndex: nat)
    requires h.Valid() && IsPrime(h.ecgroup.order) && h.IsKeyPair(receiverKey) && h.IsKeyPair(senderEphk)
    requires itemIndex % h.ecgroup.order != choice % h.ecgroup.order
    ensures var receiver, v := Receiver(h, receiverKey), senderEphk.publicKey;
            var w := Sender(h).ItemPoint(itemIndex, senderEphk, receiver.HiddenChoice(choice, v));
            && w != h.EcMul(v, receiverKey.privateKey)
            && h.PubkeyToBytes(v) + h.PubkeyToBytes(w) != h.PubkeyToBytes(v) + h.PubkeyToBytes(h.EcMul(v, receiverKey.privateKey))
  {
    var q, a, b := h.ecgroup.order, receiverKey.privateKey, senderEphk.privateKey;
    var receiver, v := Receiver(h, receiverKey), senderEphk.publicKey;
    var u := receiver.HiddenChoice(choice, v);
    var w := Sender(h).ItemPoint(itemIndex, senderEphk, u);
    var r := h.EcMul(v, a);
    var y := a + b * itemIndex - b * choice;
    ItemPointOffChoice(h, receiverKey, senderEphk, choice, itemIndex);
    // y and a differ modulo q because b·j and b·i do
    ModUnique(b, q, 0, b);
    MulKeepsResiduesApart(q, b, itemIndex, choice);
    ModEqIffDiffZero(y, a, q);
    ModEqIffDiffZero(b * itemIndex, b * choice, q);
    assert y - a == b * itemIndex - b * choice;
    MulKeepsResiduesApart(q, b, y, a);
    assert w != r;
    h.PubkeyToBytesInjective(w, r);
    var vBytes := h.PubkeyToBytes(v);
    assert (vBytes + h.PubkeyToBytes(w))[|vBytes|..] == h.PubkeyToBytes(w);
    assert (vBytes + h.PubkeyToBytes(r))[|vBytes|..] == h.PubkeyToBytes(r);
  }

  /** Off the choice the Sender's point has the logarithm b(a + bj - bi), against the Receiver's ba. */
  lemma ItemPointOffChoice(h: EcHandler, receiverKey: KeyPair, senderEphk: KeyPair, choice: nat, itemIndex: nat)
    requires h.Valid() && h.IsKeyPair(receiverKey) && h.IsKeyPair(senderEphk)
    ensures var a, b, v := receiverKey.privateKey, senderEphk.privateKey, senderEphk.publicKey;
            && Sender(h).ItemPoint(itemIndex, senderEphk, Receiver(h, receiverKey).HiddenChoice(choice, v)).dlog
                 == (b * (a + b * itemIndex - b * choice)) % h.ecgroup.order
            && h.EcMul(v, a).dlog == (b * a) % h.ecgroup.order
  {
    var q, a, b := h.ecgroup.order, receiverKey.privateKey, senderEphk.privateKey;
    var v := senderEphk.publicKey;
    var u := Receiver(h, receiverKey).HiddenChoice(choice, v);
    ModUnique(1 * a, q, 0, a);
    ModUnique(1 * b, q, 0, b);
    assert u.dlog == (a - choice * b) % q;
    ShiftedProductResidue(q, a, b, choice, itemIndex);
  }

  /** b(jb + ((a - ib) mod q)) and b(a + bj - bi) have the same residue modulo q. */
  lemma ShiftedProductResidue(q: int, a: int, b: int, i: int, j: int)
    requires q > 0
    ensures (b * (j * b + (a - i * b) % q)) % q == (b * (a + b * j - b * i)) % q
  {
    var x, y := j * b + (a - i * b) % q, a + b * j - b * i;
    assert x % q == y % q by {
      ModAddRight(j * b, a - i * b, q);
      assert j * b + (a - i * b) == y;
    }
    ModMulRight(b, x, q);
    ModMulRight(b, y, q);
  }

  /**
   * One run of the protocol as the two parties compose the operations: the Sender publishes
   * V = bG encoded, the Receiver decodes it and sends U = aG - iV encoded, the Sender encrypts
   * every item under its index's key, the Receiver decrypts them all with its one key. Every
   * item offered under the chosen index comes out as it went in.
   */
  method Transfer(h: EcHandler, receiverKey: KeyPair, senderEphk: KeyPair, choice: u32,
                  indexes: seq<byte>, data: seq<seq<byte>>, ivs: seq<seq<byte>>)
    returns (messages: seq<seq<byte>>)
    requires h.Valid() && h.IsKeyPair(receiverKey) && h.IsKeyPair(senderEphk)
    requires |data| == |indexes| && |ivs| == |indexes| && forall k :: 0 <= k < |ivs| ==> |ivs[k]| == 16
    ensures |messages| == |indexes|
    ensures forall k :: 0 <= k < |indexes| && indexes[k] as int == choice ==> messages[k] == data[k]
  {
    var receiver, sender := Receiver(h, receiverKey), Sender(h);
    var senderEphkBytes := h.PubkeyToBytes(senderEphk.publicKey);
    var senderPubkey := h.BytesToPubkey(senderEphkBytes).value;
    var u := receiver.HideChoice(choice, senderPubkey);
    var receiverKm := h.BytesToPubkey(h.PubkeyToBytes(u)).value;
    var ciphertexts := sender.EncItems(indexes, data, senderEphk, senderEphkBytes, receiverKm, ivs);
    messages := receiver.DecItems(ciphertexts.value, senderPubkey);
    forall k | 0 <= k < |indexes| && indexes[k] as int == choice
      ensures messages[k] == data[k]
    {
      ChosenItemKeyIsDecKey(h, receiverKey, senderEphk, choice);
      h.DecDataOfEncData(receiver.GetDecKey(senderPubkey), data[k], ivs[k]);
    }
  }
}
