/** The sending and receiving user of src/users/user.ts. Its introspection
    fields are module-level variables, shared by every user in the process,
    so they are one `UserGlobals` value here. */
module User {
  import opened Basics
  import Crypto
  import Address
  import Registry

  /** Number of relays in every circuit. */
  const CircuitLength: nat := 3

  /** `lastCircuit`, `lastReceivedMessage` and `lastSentMessage`. */
  datatype UserGlobals = UserGlobals(
    lastCircuit: seq<Registry.Node>,
    lastReceivedMessage: Option<string>,
    lastSentMessage: Option<string>
  )

  /** The fields as the module is loaded. */
  function InitialGlobals(): (g: UserGlobals)
    ensures |g.lastCircuit| == 0 && g.lastReceivedMessage.None? && g.lastSentMessage.None?
  {
    UserGlobals([], None, None)
  }

  /** The `/message` handler: records the body's message and nothing else. */
  function ReceiveMessage(g: UserGlobals, message: string): (g': UserGlobals)
    ensures g'.lastReceivedMessage == Some(message)
    ensures g'.lastCircuit == g.lastCircuit && g'.lastSentMessage == g.lastSentMessage
  {
    g.(lastReceivedMessage := Some(message))
  }

  /** `/getLastCircuit`: the ids of the last circuit, entry hop first. */
  function LastCircuitIds(g: UserGlobals): (ids: seq<int>)
    ensures |ids| == |g.lastCircuit|
    ensures forall i :: 0 <= i < |ids| ==> ids[i] == g.lastCircuit[i].nodeId
  {
    seq(|g.lastCircuit|, i requires 0 <= i < |g.lastCircuit| => g.lastCircuit[i].nodeId)
  }

  // --------------------------------------------------------- circuit choice

  predicate Distinct(s: seq<nat>) {
    forall i, j :: 0 <= i < j < |s| ==> s[i] != s[j]
  }

  /** The rejection-sampling loop of `sendMessage`. Each pick is a draw of
      `Math.floor(Math.random() * nodes.length)`; a drawn entry already in the
      circuit is skipped. Entries are compared by reference, and every entry of
      the fetched list is a distinct object, so the circuit is a list of
      distinct positions. The loop has no other exit: when the draws run out
      before three positions are collected, `None` stands for a loop that has
      not (yet) terminated. */
  function SampleCircuit(count: nat, picks: seq<nat>, chosen: seq<nat>): (r: Option<seq<nat>>)
    requires forall i :: 0 <= i < |picks| ==> picks[i] < count
    requires Distinct(chosen) && |chosen| <= CircuitLength
    requires forall i :: 0 <= i < |chosen| ==> chosen[i] < count
    ensures r.Some? ==> |r.value| == CircuitLength && Distinct(r.value) && chosen <= r.value
    ensures r.Some? ==> forall i :: 0 <= i < |r.value| ==> r.value[i] < count
    decreases |picks|
  {
    if |chosen| >= CircuitLength then Some(chosen)
    else if |picks| == 0 then None
    else if picks[0] in chosen then SampleCircuit(count, picks[1..], chosen)
    else SampleCircuit(count, picks[1..], chosen + [picks[0]])
  }

  /** The sampling loop can only end when the registry has at least three
      entries: with fewer, it never ends, whatever the draws. */
  lemma TooFewEntriesNeverComplete(count: nat, picks: seq<nat>)
    requires forall i :: 0 <= i < |picks| ==> picks[i] < count
    ensures SampleCircuit(count, picks, []).Some? ==> count >= CircuitLength
  {
    var r := SampleCircuit(count, picks, []);
    if r.Some? {
      var c := r.value;
      assert c[0] != c[1] && c[0] != c[2] && c[1] != c[2];
      assert c[0] < count && c[1] < count && c[2] < count;
    }
  }

  /** A draw of an entry already in the circuit is skipped: the loop goes on
      with the same circuit. */
  lemma RepeatedDrawSkipped(count: nat, picks: seq<nat>, chosen: seq<nat>)
    requires forall i :: 0 <= i < |picks| ==> picks[i] < count
    requires Distinct(chosen) && |chosen| < CircuitLength
    requires forall i :: 0 <= i < |chosen| ==> chosen[i] < count
    requires |picks| > 0 && picks[0] in chosen
    ensures SampleCircuit(count, picks, chosen) == SampleCircuit(count, picks[1..], chosen)
  {
  }

  /** A draw of an entry not yet in the circuit is appended to it. */
  lemma NewDrawAppended(count: nat, picks: seq<nat>, chosen: seq<nat>)
    requires forall i :: 0 <= i < |picks| ==> picks[i] < count
    requires Distinct(chosen) && |chosen| < CircuitLength
    requires forall i :: 0 <= i < |chosen| ==> chosen[i] < count
    requires |picks| > 0 && picks[0] !in chosen
    ensures Distinct(chosen + [picks[0]])
    ensures SampleCircuit(count, picks, chosen) == SampleCircuit(count, picks[1..], chosen + [picks[0]])
  {
  }

  /** For example, the draws a, a, b, c give the circuit a, b, c: one instance
      of `CircuitIsFirstThreeDistinct`, worked step by step. */
  lemma RepeatedDrawIsSkipped(count: nat, a: nat, b: nat, c: nat)
    requires a < count && b < count && c < count
    requires a != b && a != c && b != c
    ensures SampleCircuit(count, [a, a, b, c], []) == Some([a, b, c])
  {
    FirstTwoDraws(count, a, b, c);
    LastTwoDraws(count, a, b, c);
  }

  lemma FirstTwoDraws(count: nat, a: nat, b: nat, c: nat)
    requires a < count && b < count && c < count
    ensures SampleCircuit(count, [a, a, b, c], []) == SampleCircuit(count, [b, c], [a])
  {
    var p0 := [a, a, b, c];
    assert p0[1..] == [a, b, c] && p0[1..][1..] == [b, c];
    NewDrawAppended(count, p0, []);
    assert [] + [a] == [a];
    RepeatedDrawSkipped(count, p0[1..], [a]);
  }

  lemma LastTwoDraws(count: nat, a: nat, b: nat, c: nat)
    requires a < count && b < count && c < count
    requires a != b && a != c && b != c
    ensures SampleCircuit(count, [b, c], [a]) == Some([a, b, c])
  {
    var p2 := [b, c];
    assert p2[1..] == [c] && |p2[1..][1..]| == 0;
    NewDrawAppended(count, p2, [a]);
    assert [a] + [b] == [a, b];
    NewDrawAppended(count, p2[1..], [a, b]);
    assert [a, b] + [c] == [a, b, c];
  }

  /** The draws with every repeat removed, each kept where it first
      occurs: a reference for the sampling loop that never stops early. */
  function FirstDistinct(picks: seq<nat>): seq<nat> {
    Collect([], picks)
  }

  /** `seen` followed by the draws not yet seen, in first-occurrence order. */
  function Collect(seen: seq<nat>, picks: seq<nat>): seq<nat>
    decreases |picks|
  {
    if |picks| == 0 then seen
    else Collect(if picks[0] in seen then seen else seen + [picks[0]], picks[1..])
  }

  /** What `Collect` returns: it extends `seen`, repeats nothing, and holds
      exactly the values seen or drawn. */
  lemma {:induction false} CollectContents(seen: seq<nat>, picks: seq<nat>)
    requires Distinct(seen)
    ensures seen <= Collect(seen, picks)
    ensures Distinct(Collect(seen, picks))
    ensures forall x :: x in Collect(seen, picks) <==> x in seen || x in picks
    decreases |picks|
  {
    if |picks| > 0 {
      var next := if picks[0] in seen then seen else seen + [picks[0]];
      assert Distinct(next);
      CollectContents(next, picks[1..]);
      assert picks == [picks[0]] + picks[1..];
    }
  }

  /** The distinct draws: no repeats, and every draw is among them. */
  lemma FirstDistinctContents(picks: seq<nat>)
    ensures Distinct(FirstDistinct(picks))
    ensures forall x :: x in FirstDistinct(picks) <==> x in picks
  {
    CollectContents([], picks);
  }

  /** The sampling loop from any point: it ends with the first three
      distinct values of what it holds followed by the remaining draws, and
      has not ended while there are fewer than three of them. */
  lemma {:induction false} SampleCollects(count: nat, picks: seq<nat>, chosen: seq<nat>)
    requires forall i :: 0 <= i < |picks| ==> picks[i] < count
    requires Distinct(chosen) && |chosen| <= CircuitLength
    requires forall i :: 0 <= i < |chosen| ==> chosen[i] < count
    ensures var all := Collect(chosen, picks);
      SampleCircuit(count, picks, chosen)
        == if |all| >= CircuitLength then Some(all[..CircuitLength]) else None
    decreases |picks|
  {
    CollectContents(chosen, picks);
    if |chosen| >= CircuitLength {
      assert Collect(chosen, picks)[..CircuitLength] == chosen;
    } else if |picks| == 0 {
    } else if picks[0] in chosen {
      SampleCollects(count, picks[1..], chosen);
    } else {
      NewDrawAppended(count, picks, chosen);
      SampleCollects(count, picks[1..], chosen + [picks[0]]);
    }
  }

  /** The circuit the loop settles on is the first three distinct draws, in
      the order they were drawn; while fewer than three distinct values
      have been drawn the loop has not ended. */
  lemma CircuitIsFirstThreeDistinct(count: nat, picks: seq<nat>)
    requires forall i :: 0 <= i < |picks| ==> picks[i] < count
    ensures SampleCircuit(count, picks, [])
      == if |FirstDistinct(picks)| >= CircuitLength then Some(FirstDistinct(picks)[..CircuitLength]) else None
  {
    SampleCollects(count, picks, []);
  }

  // ---------------------------------------------------------- wrapping

  /** The randomness one iteration of the wrapping loop draws: the session key
      from `createRandomSymmetricKey`, the IV inside `symEncrypt` and the
      OAEP padding seed inside `rsaEncrypt`. */
  datatype LayerRandomness = LayerRandomness(keyBytes: seq<Byte>, iv: seq<Byte>, oaepSeed: nat)

  predicate WellFormed(r: LayerRandomness) {
    |r.keyBytes| == Crypto.SymKeyBytes && |r.iv| == Crypto.IvBytes
  }

  /** One iteration of the wrapping loop for relay `node`: the session key,
      RSA-encrypted for the relay, followed by the symmetric encryption of the
      current address field and payload. */
  function WrapLayer(p: Crypto.Primitives, node: Registry.Node, rand: LayerRandomness,
                     destination: string, finalMessage: string): (r: Result<string>)
    requires WellFormed(rand)
    ensures Crypto.Valid(p) && r.Ok? ==> |r.value| >= Crypto.RsaCiphertextChars
  {
    var symKey := Crypto.CreateRandomSymmetricKey(rand.keyBytes);
    var symKeyB64 := Crypto.ExportSymKey(symKey);
    var encryptedMsg := Crypto.SymEncrypt(p, symKey, destination + finalMessage, rand.iv);
    var encryptedSymKey :- Crypto.RsaEncrypt(p, symKeyB64, node.pubKey, rand.oaepSeed);
    Ok(encryptedSymKey + encryptedMsg)
  }

  /** The loop variables `destination` and `finalMessage` when the loop ends. */
  datatype Wrapped = Wrapped(destination: string, finalMessage: string)

  /** The wrapping loop over the circuit in selection order: the first relay's
      layer is innermost, and after each layer the address field becomes that
      relay's padded port. A key that does not import ends the loop with its
      error. */
  function WrapLayers(p: Crypto.Primitives, circuit: seq<Registry.Node>, rands: seq<LayerRandomness>,
                      destination: string, finalMessage: string): Result<Wrapped>
    requires |rands| >= |circuit|
    requires forall i :: 0 <= i < |rands| ==> WellFormed(rands[i])
  {
    WrapFrom(p, circuit, rands, 0, destination, finalMessage)
  }

  /** The loop from iteration `i` on, with the loop variables as they are
      when iteration `i` starts. */
  function WrapFrom(p: Crypto.Primitives, circuit: seq<Registry.Node>, rands: seq<LayerRandomness>,
                    i: nat, destination: string, finalMessage: string): Result<Wrapped>
    requires i <= |circuit| <= |rands|
    requires forall k :: 0 <= k < |rands| ==> WellFormed(rands[k])
    decreases |circuit| - i
  {
    if i == |circuit| then Ok(Wrapped(destination, finalMessage))
    else
      var layer :- WrapLayer(p, circuit[i], rands[i], destination, finalMessage);
      WrapFrom(p, circuit, rands, i + 1, Address.PaddedAddress(Address.RouterPort(circuit[i].nodeId)), layer)
  }

  function Reverse<T>(s: seq<T>): (r: seq<T>)
    ensures |r| == |s|
    ensures forall i :: 0 <= i < |s| ==> r[i] == s[|s| - 1 - i]
  {
    if |s| == 0 then [] else Reverse(s[1..]) + [s[0]]
  }

  // -------------------------------------------------------- sendMessage

  /** The entries at the chosen positions, in the order chosen. */
  function Select<T>(nodes: seq<T>, chosen: seq<nat>): (circuit: seq<T>)
    requires forall i :: 0 <= i < |chosen| ==> chosen[i] < |nodes|
    ensures |circuit| == |chosen|
    ensures forall i :: 0 <= i < |chosen| ==> circuit[i] == nodes[chosen[i]]
  {
    seq(|chosen|, i requires 0 <= i < |chosen| => nodes[chosen[i]])
  }

  /** The envelope on its way to the entry relay's `/message` endpoint. */
  datatype Delivery = Delivery(port: int, message: string)

  /** How a `/sendMessage` request ends: the fields it set and the envelope it
      sent; a sampling loop that does not end; or an exception from the
      wrapping loop, which leaves the fields untouched. */
  datatype SendOutcome =
    | Sent(globals: UserGlobals, delivery: Delivery)
    | SamplingDiverges
    | Failed(error: Error)

  /** `sendMessage` on the registry list `nodes`: choose three distinct
      entries, wrap the message for them, reverse the circuit so the relay
      whose layer is outermost comes first, record the circuit and the
      message, and send the envelope to the first relay's port. */
  function SendMessage(p: Crypto.Primitives, g: UserGlobals, nodes: seq<Registry.Node>,
                       picks: seq<nat>, rands: seq<LayerRandomness>,
                       message: string, destinationUserId: int): (r: SendOutcome)
    requires forall i :: 0 <= i < |picks| ==> picks[i] < |nodes|
    requires |rands| == CircuitLength && forall i :: 0 <= i < |rands| ==> WellFormed(rands[i])
    ensures r.SamplingDiverges? <==> SampleCircuit(|nodes|, picks, []).None?
  {
    match SampleCircuit(|nodes|, picks, [])
    case None =>
      SamplingDiverges
    case Some(chosen) =>
      var circuit := Select(nodes, chosen);
      var destination := Address.PaddedAddress(Address.UserPort(destinationUserId));
      match WrapLayers(p, circuit, rands, destination, message)
      case Err(e) => Failed(e)
      case Ok(wrapped) =>
        var reversed := Reverse(circuit);
        Sent(g.(lastCircuit := reversed, lastSentMessage := Some(message)),
             Delivery(Address.RouterPort(reversed[0].nodeId), wrapped.finalMessage))
  }

  /** What a `/sendMessage` request that completes leaves behind: with fewer
      than three registered nodes it never completes; otherwise `lastCircuit`
      is the chosen entries with the last chosen first, `lastSentMessage` is
      the message, `lastReceivedMessage` is untouched, and the envelope goes to
      the port of `lastCircuit[0]`. */
  lemma SendMessageRecords(p: Crypto.Primitives, g: UserGlobals, nodes: seq<Registry.Node>,
                           picks: seq<nat>, rands: seq<LayerRandomness>,
                           message: string, destinationUserId: int)
    requires forall i :: 0 <= i < |picks| ==> picks[i] < |nodes|
    requires |rands| == CircuitLength && forall i :: 0 <= i < |rands| ==> WellFormed(rands[i])
    ensures |nodes| < CircuitLength ==> SendMessage(p, g, nodes, picks, rands, message, destinationUserId).SamplingDiverges?
    ensures
      var r := SendMessage(p, g, nodes, picks, rands, message, destinationUserId);
      r.Sent? ==>
        var chosen := SampleCircuit(|nodes|, picks, []).value;
        && |r.globals.lastCircuit| == CircuitLength
        && (forall i :: 0 <= i < CircuitLength ==>
              r.globals.lastCircuit[i] == nodes[chosen[CircuitLength - 1 - i]])
        && r.globals.lastSentMessage == Some(message)
        && r.globals.lastReceivedMessage == g.lastReceivedMessage
        && r.delivery.port == Address.RouterPort(r.globals.lastCircuit[0].nodeId)
  {
    TooFewEntriesNeverComplete(|nodes|, picks);
    var r := SendMessage(p, g, nodes, picks, rands, message, destinationUserId);
    if r.Sent? {
      var chosen := SampleCircuit(|nodes|, picks, []).value;
      var reversed := Reverse(Select(nodes, chosen));
      SentShape(p, g, nodes, picks, rands, message, destinationUserId);
      ReverseSelect(nodes, chosen);
    }
  }

  /** The chosen entries reversed: position `i` holds the entry chosen
      `i`-th from last. */
  lemma ReverseSelect<T>(nodes: seq<T>, chosen: seq<nat>)
    requires forall i :: 0 <= i < |chosen| ==> chosen[i] < |nodes|
    ensures |Reverse(Select(nodes, chosen))| == |chosen|
    ensures forall i :: 0 <= i < |chosen| ==> Reverse(Select(nodes, chosen))[i] == nodes[chosen[|chosen| - 1 - i]]
  {
    var reversed := Reverse(Select(nodes, chosen));
    forall i | 0 <= i < |chosen|
      ensures reversed[i] == nodes[chosen[|chosen| - 1 - i]]
    {
    }
  }

  /** The fields and the delivery of a completed request, read off the
      handler. */
  lemma SentShape(p: Crypto.Primitives, g: UserGlobals, nodes: seq<Registry.Node>,
                  picks: seq<nat>, rands: seq<LayerRandomness>,
                  message: string, destinationUserId: int)
    requires forall i :: 0 <= i < |picks| ==> picks[i] < |nodes|
    requires |rands| == CircuitLength && forall i :: 0 <= i < |rands| ==> WellFormed(rands[i])
    ensures
      var r := SendMessage(p, g, nodes, picks, rands, message, destinationUserId);
      r.Sent? ==>
        var reversed := Reverse(Select(nodes, SampleCircuit(|nodes|, picks, []).value));
        && r.globals == g.(lastCircuit := reversed, lastSentMessage := Some(message))
        && r.delivery.port == Address.RouterPort(reversed[0].nodeId)
  {
  }
}
