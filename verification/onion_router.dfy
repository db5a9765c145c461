/** The relay of src/onionRouters/simpleOnionRouter.ts: it peels one layer
    off each envelope it receives and forwards the rest to the port written
    inside that layer. */
module OnionRouter {
  import opened Basics
  import Crypto
  import Base64
  import Address
  import Registry

  /** One relay: its id, its key pair and its three introspection fields. */
  datatype RouterState = RouterState(
    nodeId: int,
    keyPair: Crypto.RsaKeyPair,
    lastReceivedEncryptedMessage: Option<string>,
    lastReceivedDecryptedMessage: Option<string>,
    lastMessageDestination: Option<Address.ParsedInt>
  )

  /** `simpleOnionRouter(nodeId)` before it serves requests: a fresh key pair
      (its randomness is `keySeed`) and all three fields null. */
  function StartRouter(nodeId: int, keySeed: nat): (st: RouterState)
    ensures st.nodeId == nodeId
    ensures Crypto.Matches(st.keyPair.publicKey, st.keyPair.privateKey)
    ensures st.lastReceivedEncryptedMessage.None? && st.lastReceivedDecryptedMessage.None?
    ensures st.lastMessageDestination.None?
  {
    RouterState(nodeId, Crypto.GenerateRsaKeyPair(keySeed), None, None, None)
  }

  /** The registry record the relay registers for itself: its id and its
      exported public key. */
  function AdvertisedNode(p: Crypto.Primitives, st: RouterState): (node: Registry.Node)
    ensures node.nodeId == st.nodeId
  {
    Registry.Node(st.nodeId, Crypto.ExportPubKey(p, st.keyPair.publicKey))
  }

  /** A sender that imports the advertised key gets exactly the relay's public
      key, the one that matches the private key it decrypts with. */
  lemma AdvertisedKeyImports(p: Crypto.Primitives, st: RouterState)
    requires Crypto.Valid(p)
    ensures Crypto.ImportPubKey(p, AdvertisedNode(p, st).pubKey) == Ok(st.keyPair.publicKey)
  {
    Crypto.ImportExportPubKey(p, st.keyPair.publicKey);
  }

  /** Where and what the relay forwards. */
  datatype Forward = Forward(port: Address.ParsedInt, message: string)

  /** The relay after one `/message` request, and the forward it made or the
      exception that ended the request. */
  datatype Handled = Handled(state: RouterState, forward: Result<Forward>)

  /** The `/message` handler. The first 344 characters are the RSA-wrapped
      session key and the rest is the symmetric blob; the decrypted layer's
      first ten characters are the next port and the rest is forwarded. The
      fields are written only after both decryptions have succeeded, so a
      failing request leaves them as they were. */
  function PostMessage(p: Crypto.Primitives, st: RouterState, encryptedBundle: string): (h: Handled)
    ensures h.state.nodeId == st.nodeId && h.state.keyPair == st.keyPair
    ensures h.forward.Err? ==> h.state == st
    ensures h.forward.Ok? ==>
      && h.state.lastReceivedEncryptedMessage == Some(encryptedBundle)
      && h.state.lastReceivedDecryptedMessage == Some(h.forward.value.message)
      && h.state.lastMessageDestination == Some(h.forward.value.port)
  {
    var keyBlock := Prefix(encryptedBundle, Crypto.RsaCiphertextChars);
    var wrapped := Suffix(encryptedBundle, Crypto.RsaCiphertextChars);
    match Crypto.RsaDecrypt(p, keyBlock, st.keyPair.privateKey)
    case Err(e) => Handled(st, Err(e))
    case Ok(decryptedKeyBundle) =>
      match Crypto.SymDecrypt(p, decryptedKeyBundle, wrapped)
      case Err(e) => Handled(st, Err(e))
      case Ok(decryptedContent) =>
        var nextStop := Address.ParseInt(Prefix(decryptedContent, Address.AddressWidth));
        var nextMessage := Suffix(decryptedContent, Address.AddressWidth);
        var st' := st.(lastReceivedEncryptedMessage := Some(encryptedBundle),
                       lastReceivedDecryptedMessage := Some(nextMessage),
                       lastMessageDestination := Some(nextStop));
        Handled(st', Ok(Forward(nextStop, nextMessage)))
  }

  /** A request is forwarded exactly when both decryptions succeed: the
      session key under the relay's private key, then the layer under the
      session key. The address field is never validated, so an unreadable
      address is forwarded as NaN rather than refused. */
  lemma PostMessageForwardsIff(p: Crypto.Primitives, st: RouterState, encryptedBundle: string)
    ensures
      var keyBlock := Prefix(encryptedBundle, Crypto.RsaCiphertextChars);
      var key := Crypto.RsaDecrypt(p, keyBlock, st.keyPair.privateKey);
      PostMessage(p, st, encryptedBundle).forward.Ok? <==>
        key.Ok? && Crypto.SymDecrypt(p, key.value, Suffix(encryptedBundle, Crypto.RsaCiphertextChars)).Ok?
    ensures
      var h := PostMessage(p, st, encryptedBundle);
      h.forward.Ok? ==>
        var content := Crypto.SymDecrypt(p,
          Crypto.RsaDecrypt(p, Prefix(encryptedBundle, Crypto.RsaCiphertextChars), st.keyPair.privateKey).value,
          Suffix(encryptedBundle, Crypto.RsaCiphertextChars)).value;
        && h.forward.value.port == Address.ParseInt(Prefix(content, Address.AddressWidth))
        && h.forward.value.message == Suffix(content, Address.AddressWidth)
  {
  }
}
