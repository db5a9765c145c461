/** The layered-envelope protocol end to end: what the sender of
    src/users/user.ts builds, the relays of
    src/onionRouters/simpleOnionRouter.ts take apart one layer each. */
module Protocol {
  import opened Basics
  import Crypto
  import Base64
  import Address
  import Registry
  import OnionRouter
  import User

  /** A relay whose key pair was generated as one pair (a public key and the
      private key that belongs to it), as every started relay's is. */
  predicate HasKeyPair(st: OnionRouter.RouterState) {
    Crypto.Matches(st.keyPair.publicKey, st.keyPair.privateKey)
  }

  /** Single-layer correctness: a layer the sender builds for a relay's
      registry record, around an address field for `port` and a payload, is
      peeled by that relay into exactly that port and that payload, and the
      relay records the envelope, the payload and the port. */
  lemma PeelLayer(p: Crypto.Primitives, st: OnionRouter.RouterState, rand: User.LayerRandomness,
                  port: int, payload: string)
    requires Crypto.Valid(p) && HasKeyPair(st)
    requires User.WellFormed(rand)
    requires 0 <= port < Address.AddressLimit
    ensures User.WrapLayer(p, OnionRouter.AdvertisedNode(p, st), rand, Address.PaddedAddress(port), payload).Ok?
    ensures
      var envelope := User.WrapLayer(p, OnionRouter.AdvertisedNode(p, st), rand,
                                     Address.PaddedAddress(port), payload).value;
      var h := OnionRouter.PostMessage(p, st, envelope);
      && h.forward == Ok(OnionRouter.Forward(Address.Int(port), payload))
      && h.state == st.(lastReceivedEncryptedMessage := Some(envelope),
                        lastReceivedDecryptedMessage := Some(payload),
                        lastMessageDestination := Some(Address.Int(port)))
  {
    var node := OnionRouter.AdvertisedNode(p, st);
    var key := Crypto.CreateRandomSymmetricKey(rand.keyBytes);
    var keyB64 := Crypto.ExportSymKey(key);
    var content := Address.PaddedAddress(port) + payload;
    var blob := Crypto.SymEncrypt(p, key, content, rand.iv);
    Crypto.ImportExportSymKey(key, keyB64);
    Crypto.RsaRoundTrip(p, st.keyPair, keyB64, rand.oaepSeed);
    var keyBlock := Crypto.RsaEncrypt(p, keyB64, node.pubKey, rand.oaepSeed).value;
    var envelope := keyBlock + blob;
    assert User.WrapLayer(p, node, rand, Address.PaddedAddress(port), payload) == Ok(envelope);
    SplitAtJoin(keyBlock, blob);
    Address.PaddedAddressDigits(port);
    assert content[0] == Address.PaddedAddress(port)[0];
    Crypto.SymRoundTrip(p, key, content, rand.iv);
    Address.AddressRoundTrip(port, payload);
  }

  /** The relays of a circuit handling one envelope in turn: each relay's
      forwarded message is what the next relay receives. The run stops at the
      first request that fails. */
  function RunCircuit(p: Crypto.Primitives, hops: seq<OnionRouter.RouterState>, envelope: string)
    : (hs: seq<OnionRouter.Handled>)
    ensures |hs| <= |hops|
    ensures |hops| > 0 ==> |hs| > 0
    ensures forall i :: 0 <= i < |hs| ==> hs[i].state.nodeId == hops[i].nodeId
    ensures forall i :: 0 <= i < |hs| - 1 ==> hs[i].forward.Ok?
    ensures |hs| < |hops| ==> hs[|hs| - 1].forward.Err?
    decreases |hops|
  {
    if |hops| == 0 then []
    else
      var h := OnionRouter.PostMessage(p, hops[0], envelope);
      if h.forward.Err? then [h]
      else [h] + RunCircuit(p, hops[1..], h.forward.value.message)
  }

  /** The network: every registry record was registered by the relay at the
      same position, each with its own key pair. A relay listens on the port
      its id determines, so two relays with one id cannot both be reached:
      one id, one relay. */
  predicate RegisteredBy(p: Crypto.Primitives, nodes: seq<Registry.Node>, relays: seq<OnionRouter.RouterState>) {
    && |nodes| == |relays|
    && (forall i :: 0 <= i < |relays| ==> nodes[i] == OnionRouter.AdvertisedNode(p, relays[i]))
    && (forall i :: 0 <= i < |relays| ==> HasKeyPair(relays[i]))
    && (forall i, j :: 0 <= i < |relays| && 0 <= j < |relays| && relays[i].nodeId == relays[j].nodeId ==>
          relays[i] == relays[j])
  }

  /** The circuit in selection order (innermost layer first) for relays
      listed in `lastCircuit` order. */
  function CircuitFor(p: Crypto.Primitives, hops: seq<OnionRouter.RouterState>): (circuit: seq<Registry.Node>)
    ensures |circuit| == |hops|
  {
    seq(|hops|, i requires 0 <= i < |hops| => OnionRouter.AdvertisedNode(p, hops[|hops| - 1 - i]))
  }

  /** Relay-side delivery: the envelope the wrapping loop builds for three
      relays is forwarded by the first to the second relay's port, by the
      second to the third relay's port, and by the third to the destination
      port with exactly the original message. */
  lemma CircuitPeels(p: Crypto.Primitives, hops: seq<OnionRouter.RouterState>,
                     rands: seq<User.LayerRandomness>, destinationPort: int, message: string)
    requires Crypto.Valid(p)
    requires |hops| == User.CircuitLength && forall i :: 0 <= i < |hops| ==> HasKeyPair(hops[i])
    requires forall i :: 0 <= i < |hops| ==> 0 <= Address.RouterPort(hops[i].nodeId) < Address.AddressLimit
    requires 0 <= destinationPort < Address.AddressLimit
    requires |rands| == User.CircuitLength && forall i :: 0 <= i < |rands| ==> User.WellFormed(rands[i])
    ensures User.WrapLayers(p, CircuitFor(p, hops), rands, Address.PaddedAddress(destinationPort), message).Ok?
    ensures
      var wrapped := User.WrapLayers(p, CircuitFor(p, hops), rands, Address.PaddedAddress(destinationPort), message).value;
      var hs := RunCircuit(p, hops, wrapped.finalMessage);
      && wrapped.destination == Address.PaddedAddress(Address.RouterPort(hops[0].nodeId))
      && |hs| == User.CircuitLength
      && hs[0].forward.Ok? && hs[0].forward.value.port == Address.Int(Address.RouterPort(hops[1].nodeId))
      && hs[1].forward.Ok? && hs[1].forward.value.port == Address.Int(Address.RouterPort(hops[2].nodeId))
      && hs[2].forward == Ok(OnionRouter.Forward(Address.Int(destinationPort), message))
      && hs[0].state.lastMessageDestination == Some(hs[0].forward.value.port)
      && hs[1].state.lastMessageDestination == Some(hs[1].forward.value.port)
      && hs[2].state.lastMessageDestination == Some(hs[2].forward.value.port)
  {
    var circuit := CircuitFor(p, hops);
    var a0, a1, a2 := OnionRouter.AdvertisedNode(p, hops[2]), OnionRouter.AdvertisedNode(p, hops[1]),
                      OnionRouter.AdvertisedNode(p, hops[0]);
    assert circuit[0] == a0 && circuit[1] == a1 && circuit[2] == a2;
    var port0, port1 := Address.RouterPort(hops[2].nodeId), Address.RouterPort(hops[1].nodeId);
    PeelLayer(p, hops[2], rands[0], destinationPort, message);
    var layer0 := User.WrapLayer(p, a0, rands[0], Address.PaddedAddress(destinationPort), message).value;
    PeelLayer(p, hops[1], rands[1], port0, layer0);
    var layer1 := User.WrapLayer(p, a1, rands[1], Address.PaddedAddress(port0), layer0).value;
    PeelLayer(p, hops[0], rands[2], port1, layer1);
    var layer2 := User.WrapLayer(p, a2, rands[2], Address.PaddedAddress(port1), layer1).value;
    WrapThree(p, circuit, rands, Address.PaddedAddress(destinationPort), message, layer0, layer1, layer2);
    RunThree(p, hops, layer2, OnionRouter.Forward(Address.Int(port1), layer1),
             OnionRouter.Forward(Address.Int(port0), layer0),
             OnionRouter.Forward(Address.Int(destinationPort), message));
    var hs := RunCircuit(p, hops, layer2);
    assert hs[0].forward == Ok(OnionRouter.Forward(Address.Int(port1), layer1));
    assert hs[1].forward == Ok(OnionRouter.Forward(Address.Int(port0), layer0));
    assert hs[2].forward == Ok(OnionRouter.Forward(Address.Int(destinationPort), message));
  }

  /** End-to-end delivery. When the sampling loop ends, `sendMessage` sends
      the envelope to the port of `lastCircuit[0]`; the relays in `lastCircuit`
      order then forward it to the port of `lastCircuit[1]`, to the port of
      `lastCircuit[2]`, and to the destination user's port, which receives
      exactly the original message. Each relay's `lastMessageDestination` is
      the port it forwarded to. The destination port must not be a relay's
      port: the last relay's forward reaches whichever process listens
      there, and only the user's `/message` route records the message. */
  lemma ThreeHopDelivery(p: Crypto.Primitives, g: User.UserGlobals, nodes: seq<Registry.Node>,
                         relays: seq<OnionRouter.RouterState>, picks: seq<nat>,
                         rands: seq<User.LayerRandomness>, message: string, destinationUserId: int)
    requires Crypto.Valid(p)
    requires RegisteredBy(p, nodes, relays)
    requires forall i :: 0 <= i < |nodes| ==> 0 <= Address.RouterPort(nodes[i].nodeId) < Address.AddressLimit
    requires 0 <= Address.UserPort(destinationUserId) < Address.AddressLimit
    requires forall i :: 0 <= i < |nodes| ==>
      Address.RouterPort(nodes[i].nodeId) != Address.UserPort(destinationUserId)
    requires forall i :: 0 <= i < |picks| ==> picks[i] < |nodes|
    requires |rands| == User.CircuitLength && forall i :: 0 <= i < |rands| ==> User.WellFormed(rands[i])
    requires User.SampleCircuit(|nodes|, picks, []).Some?
    ensures User.SendMessage(p, g, nodes, picks, rands, message, destinationUserId).Sent?
    ensures
      var out := User.SendMessage(p, g, nodes, picks, rands, message, destinationUserId);
      var hops := User.Reverse(User.Select(relays, User.SampleCircuit(|nodes|, picks, []).value));
      var c := out.globals.lastCircuit;
      var hs := RunCircuit(p, hops, out.delivery.message);
      && |c| == |hops| == User.CircuitLength
      && (forall i :: 0 <= i < User.CircuitLength ==> c[i] == OnionRouter.AdvertisedNode(p, hops[i]))
      && out.delivery.port == Address.RouterPort(c[0].nodeId)
      && |hs| == User.CircuitLength
      && hs[0].forward.Ok? && hs[0].forward.value.port == Address.Int(Address.RouterPort(c[1].nodeId))
      && hs[1].forward.Ok? && hs[1].forward.value.port == Address.Int(Address.RouterPort(c[2].nodeId))
      && hs[2].forward == Ok(OnionRouter.Forward(Address.Int(Address.UserPort(destinationUserId)), message))
      && hs[0].state.lastMessageDestination == Some(Address.Int(Address.RouterPort(c[1].nodeId)))
      && hs[1].state.lastMessageDestination == Some(Address.Int(Address.RouterPort(c[2].nodeId)))
      && hs[2].state.lastMessageDestination == Some(Address.Int(Address.UserPort(destinationUserId)))
      && User.ReceiveMessage(out.globals, hs[2].forward.value.message).lastReceivedMessage == Some(message)
  {
    var chosen := User.SampleCircuit(|nodes|, picks, []).value;
    var circuit := User.Select(nodes, chosen);
    var hops := User.Reverse(User.Select(relays, chosen));
    CircuitOfRelays(p, nodes, relays, chosen);
    assert circuit == CircuitFor(p, hops);
    CircuitPeels(p, hops, rands, Address.UserPort(destinationUserId), message);
    var wrapped := User.WrapLayers(p, circuit, rands, Address.PaddedAddress(Address.UserPort(destinationUserId)), message).value;
    SendDelivers(p, g, nodes, picks, rands, message, destinationUserId, wrapped);
    var c := User.Reverse(circuit);
    assert c[0].nodeId == hops[0].nodeId && c[1].nodeId == hops[1].nodeId && c[2].nodeId == hops[2].nodeId;
  }

  /** `sendMessage` once the circuit is chosen and every layer builds: it
      records the reversed circuit and the message and sends the outermost
      envelope to the port of the relay that comes first in it. */
  lemma SendDelivers(p: Crypto.Primitives, g: User.UserGlobals, nodes: seq<Registry.Node>,
                     picks: seq<nat>, rands: seq<User.LayerRandomness>, message: string,
                     destinationUserId: int, wrapped: User.Wrapped)
    requires forall i :: 0 <= i < |picks| ==> picks[i] < |nodes|
    requires |rands| == User.CircuitLength && forall i :: 0 <= i < |rands| ==> User.WellFormed(rands[i])
    requires User.SampleCircuit(|nodes|, picks, []).Some?
    requires
      var circuit := User.Select(nodes, User.SampleCircuit(|nodes|, picks, []).value);
      User.WrapLayers(p, circuit, rands, Address.PaddedAddress(Address.UserPort(destinationUserId)), message)
        == Ok(wrapped)
    ensures
      var circuit := User.Select(nodes, User.SampleCircuit(|nodes|, picks, []).value);
      User.SendMessage(p, g, nodes, picks, rands, message, destinationUserId)
        == User.Sent(g.(lastCircuit := User.Reverse(circuit), lastSentMessage := Some(message)),
                     User.Delivery(Address.RouterPort(circuit[User.CircuitLength - 1].nodeId), wrapped.finalMessage))
  {
  }

  /** In a network where every record was registered by its relay, the
      circuit's records in `lastCircuit` order are those the hops advertise. */
  lemma CircuitOfRelays(p: Crypto.Primitives, nodes: seq<Registry.Node>,
                        relays: seq<OnionRouter.RouterState>, chosen: seq<nat>)
    requires RegisteredBy(p, nodes, relays)
    requires forall i :: 0 <= i < |chosen| ==> chosen[i] < |nodes|
    ensures
      var c := User.Reverse(User.Select(nodes, chosen));
      var hops := User.Reverse(User.Select(relays, chosen));
      && |c| == |hops| == |chosen|
      && forall i :: 0 <= i < |c| ==> c[i] == OnionRouter.AdvertisedNode(p, hops[i])
  {
    var c := User.Reverse(User.Select(nodes, chosen));
    var hops := User.Reverse(User.Select(relays, chosen));
    forall i | 0 <= i < |c|
      ensures c[i] == OnionRouter.AdvertisedNode(p, hops[i])
    {
      var k := chosen[|chosen| - 1 - i];
      assert c[i] == nodes[k] && hops[i] == relays[k];
    }
  }

  /** One iteration of the wrapping loop: a layer that builds hands the loop
      on to the next relay with this relay's port as the address. */
  lemma WrapStep(p: Crypto.Primitives, circuit: seq<Registry.Node>, rands: seq<User.LayerRandomness>,
                 i: nat, destination: string, message: string, layer: string)
    requires i < |circuit| <= |rands|
    requires forall k :: 0 <= k < |rands| ==> User.WellFormed(rands[k])
    requires User.WrapLayer(p, circuit[i], rands[i], destination, message) == Ok(layer)
    ensures User.WrapFrom(p, circuit, rands, i, destination, message)
         == User.WrapFrom(p, circuit, rands, i + 1,
                          Address.PaddedAddress(Address.RouterPort(circuit[i].nodeId)), layer)
  {
  }

  /** The wrapping loop over a three-relay circuit, one iteration at a time. */
  lemma WrapThree(p: Crypto.Primitives, circuit: seq<Registry.Node>, rands: seq<User.LayerRandomness>,
                  destination: string, message: string, layer0: string, layer1: string, layer2: string)
    requires |circuit| == 3 && |rands| >= 3
    requires forall i :: 0 <= i < |rands| ==> User.WellFormed(rands[i])
    requires User.WrapLayer(p, circuit[0], rands[0], destination, message) == Ok(layer0)
    requires User.WrapLayer(p, circuit[1], rands[1],
                            Address.PaddedAddress(Address.RouterPort(circuit[0].nodeId)), layer0) == Ok(layer1)
    requires User.WrapLayer(p, circuit[2], rands[2],
                            Address.PaddedAddress(Address.RouterPort(circuit[1].nodeId)), layer1) == Ok(layer2)
    ensures User.WrapLayers(p, circuit, rands, destination, message)
         == Ok(User.Wrapped(Address.PaddedAddress(Address.RouterPort(circuit[2].nodeId)), layer2))
  {
    WrapStep(p, circuit, rands, 0, destination, message, layer0);
    WrapStep(p, circuit, rands, 1, Address.PaddedAddress(Address.RouterPort(circuit[0].nodeId)), layer0, layer1);
    WrapStep(p, circuit, rands, 2, Address.PaddedAddress(Address.RouterPort(circuit[1].nodeId)), layer1, layer2);
  }

  /** Three relays that each forward successfully hand the envelope on in
      turn. */
  lemma RunThree(p: Crypto.Primitives, hops: seq<OnionRouter.RouterState>, envelope: string,
                 f0: OnionRouter.Forward, f1: OnionRouter.Forward, f2: OnionRouter.Forward)
    requires |hops| == 3
    requires OnionRouter.PostMessage(p, hops[0], envelope).forward == Ok(f0)
    requires OnionRouter.PostMessage(p, hops[1], f0.message).forward == Ok(f1)
    requires OnionRouter.PostMessage(p, hops[2], f1.message).forward == Ok(f2)
    ensures RunCircuit(p, hops, envelope)
         == [OnionRouter.PostMessage(p, hops[0], envelope),
             OnionRouter.PostMessage(p, hops[1], f0.message),
             OnionRouter.PostMessage(p, hops[2], f1.message)]
  {
    var h0 := OnionRouter.PostMessage(p, hops[0], envelope);
    var h1 := OnionRouter.PostMessage(p, hops[1], f0.message);
    var h2 := OnionRouter.PostMessage(p, hops[2], f1.message);
    var rest1, rest2 := hops[1..], hops[2..];
    assert rest1[0] == hops[1] && rest1[1..] == rest2 && rest2[0] == hops[2] && |rest2[1..]| == 0;
    assert RunCircuit(p, rest2, f1.message) == [h2] + RunCircuit(p, rest2[1..], f2.message);
    assert RunCircuit(p, rest1, f0.message) == [h1] + RunCircuit(p, rest2, f1.message);
    assert RunCircuit(p, hops, envelope) == [h0] + RunCircuit(p, rest1, f0.message);
  }
}
