# Onion routing: sender wrap, relay peel, registry

This project models the message path of a small onion-routing network:

- **The registry** (`Registry`). It keeps a list of `{ nodeId, pubKey }` records. Relays append to the list and senders read it.
- **The sender** (`User.SendMessage`). It picks three distinct registry entries at random; the registry keeps duplicate records, so two entries may name the same relay. It wraps the message once per relay: a fresh AES-256 session key is RSA-OAEP encrypted for the relay, followed by the AES-CBC encryption of a ten-digit next-hop address and the inner payload. It then records the circuit and posts the envelope to the entry relay.
- **The relay** (`OnionRouter.PostMessage`). It splits an envelope at character 344. It decrypts the session key, then the layer. It reads the first ten characters with `parseInt` as the next port, and forwards the rest.
- **The crypto framing** (`Crypto`, `Base64`, `Utf8`). This covers the base64 text, the UTF-8 text and the IV-in-front framing around the webcrypto calls.

The cipher algorithms themselves stay abstract. `Crypto.Primitives` holds the webcrypto operations as function values. `Crypto.Valid` states the only laws the protocol relies on:

- decryption inverts encryption under matching keys;
- every RSA public key is taken to be 2048-bit, so every RSA ciphertext is 256 bytes;
- the SPKI and PKCS #8 formats read back what they wrote.

`Crypto.ValidIsSatisfiable` exhibits an instance, so these laws are consistent.

Randomness is passed in as parameters:

- `Math.random` draws are the `picks`;
- session-key bytes, IVs and OAEP padding seeds are `User.LayerRandomness`;
- RSA key generation takes a `keySeed`.

HTTP requests are modelled as plain data. The envelope a sender posts is a `User.Delivery`, and a relay's forward is an `OnionRouter.Forward`. `Protocol.RunCircuit` feeds each relay's forward to the next relay.

The main results:

- `Protocol.PeelLayer`: a relay peels exactly the layer a sender built for its advertised key.
- `Protocol.CircuitPeels`: three relays peel the three-layer envelope back to the destination user's port and the original message.
- `Protocol.ThreeHopDelivery`: from a `/sendMessage` request to the destination's `/message` handler, the destination records the message that was sent.

Each operation of the source, and the rows below that characterise it:

- `Base64.Encode` / `Base64.Decode` (`arrayBufferToBase64` / `base64ToArrayBuffer`): `Base64.DecodeEncode`, `Base64.EncodeDecode`.
- `Utf8.Encode` / `Utf8.Decode` (`TextEncoder` / `TextDecoder`): `Utf8.DecodeEncode`.
- `Crypto.ImportPubKey` / `Crypto.ImportPrvKey`: `Crypto.ImportExportPubKey`, `Crypto.ImportExportPrvKey`, `OnionRouter.AdvertisedKeyImports`.
- `Crypto.RsaEncrypt` / `Crypto.RsaDecrypt`: `Crypto.RsaEncrypt`, `Crypto.RsaDecryptIsBase64`, `Crypto.RsaRoundTrip`.
- `Crypto.ImportSymKey`: `Crypto.ImportExportSymKey`, `Crypto.FreshKeyExport`.
- `Crypto.SymEncrypt` / `Crypto.SymDecrypt`: `Crypto.SymEncryptFraming`, `Crypto.SymRoundTrip`.
- `Address.PaddedAddress` / `Address.ParseInt` (`padStart` / `parseInt`): `Address.AddressRoundTrip`, `Address.NegativeAddressReadsAsZero`.
- `User.WrapLayers` / `User.WrapFrom` (the wrapping loop): `Protocol.WrapThree`, `Protocol.CircuitPeels`.

## Model

| member | source | states |
|---|---|---|
| Basics.Prefix | src/onionRouters/simpleOnionRouter.ts:56-59 | `slice(0, n)` / `substring(0, n)` never fails: it is the first `n` characters, or the whole string when it is shorter |
| Basics.Suffix | src/onionRouters/simpleOnionRouter.ts:57-60 | `slice(n)` / `substring(n)` is what follows the prefix, so prefix and suffix rejoin to the original string |
| Basics.SplitAtJoin | src/onionRouters/simpleOnionRouter.ts:56-60 | splitting a concatenation at the length of its first part returns both parts; this is how the relay takes apart what the sender joined |
| Base64.Encode | src/crypto.ts:8-10 | `Buffer.toString("base64")` turns n bytes into 4·⌈n/3⌉ characters |
| Base64.DecodeEncode | src/crypto.ts:8-16 | `base64ToArrayBuffer(arrayBufferToBase64(b))` is `b` for every byte string |
| Base64.EncodeDecode | src/crypto.ts:8-16 | text that decodes is canonical: re-encoding the bytes gives the same text, so decode and encode are mutual inverses |
| Utf8.Encode | src/crypto.ts:180 | `TextEncoder` writes between one and four bytes per character |
| Utf8.DecodeEncode | src/crypto.ts:180-225 | `TextDecoder` undoes `TextEncoder`, except that it drops a leading U+FEFF as a byte order mark |
| Crypto.GenerateRsaKeyPair | src/crypto.ts:27-36 | the generated public and private keys belong to each other |
| Crypto.ExportPrvKey | src/crypto.ts:47-53 | a null key exports as null; otherwise the text is base64 that decodes to the PKCS #8 bytes |
| Crypto.ImportExportPubKey | src/crypto.ts:40-71 | an exported public key imports back to the same key |
| Crypto.ImportExportPrvKey | src/crypto.ts:47-92 | an exported private key imports back to the same key |
| Crypto.RsaEncrypt | src/crypto.ts:97-114 | a successful RSA encryption is always 344 base64 characters, the width the relay splits envelopes at |
| Crypto.RsaDecryptIsBase64 | src/crypto.ts:119-130 | decryption succeeds exactly when the input is base64 and the private key accepts the ciphertext; the result is base64 of the recovered bytes |
| Crypto.RsaRoundTrip | src/crypto.ts:97-130 | base64 data of at most 190 bytes, encrypted for an exported public key, decrypts under the matching private key to the same text |
| Crypto.CreateRandomSymmetricKey | src/crypto.ts:138-147 | the fresh key is 256 bits (32 bytes), a size `importKey` accepts |
| Crypto.FreshKeyExport | src/crypto.ts:138-157 | a fresh session key exports as 44 characters that decode to exactly its drawn bytes and import back to the same key |
| Crypto.ExportSymKey | src/crypto.ts:151-157 | a 256-bit key exports as 44 base64 characters |
| Crypto.ImportExportSymKey | src/crypto.ts:151-175 | an exported key decodes to its raw bytes and imports back to itself; text imports exactly when it is base64 of 16, 24 or 32 bytes |
| Crypto.SymEncryptFraming | src/crypto.ts:179-196 | the blob decodes to the 16-byte IV followed by the AES-CBC output for the UTF-8 bytes of the data |
| Crypto.SymRoundTrip | src/crypto.ts:179-226 | `symDecrypt(exportSymKey(k), symEncrypt(k, m))` is `m`, or `m` without its leading U+FEFF |
| Address.PadStart | src/users/user.ts:73 | `padStart(width, fill)` fills on the left up to `width`, keeps the original as the suffix, and never truncates |
| Address.TrimStartRemovesWhiteSpace | src/onionRouters/simpleOnionRouter.ts:59 | `parseInt` first skips leading white space: what is left is a suffix of the input that does not start with white space, and every character removed is white space |
| Address.DigitPrefix | src/onionRouters/simpleOnionRouter.ts:59 | `parseInt` reads the longest run of leading digits: it is a prefix of digits, followed by a non-digit or the end |
| Address.DecimalLength | src/users/user.ts:73-80 | a port is written in at most ten digits exactly when it is below 10^10 |
| Address.AddressRoundTrip | src/onionRouters/simpleOnionRouter.ts:59-60 | the sender's `padStart` field (users/user.ts line 73) read back: for a port in [0, 10^10), `parseInt` of the first ten characters of the padded field plus any payload gives the port, and the remainder is the payload |
| Address.NegativeAddressField | src/onionRouters/simpleOnionRouter.ts:59-60 | the sender's `padStart` field (users/user.ts line 73) for a negative port in (-10^9, 0) is ten characters. `padStart` puts its zeros in front of the minus sign, so `parseInt` of the first ten characters reads 0 for every port above -10^8, and reads back the port itself for a port in (-10^9, -10^8], which fills the field without zeros. The remainder is the payload |
| Address.NegativeAddressReadsAsZero | src/users/user.ts:73 | the port -5 pads to `00000000-5`, which `parseInt` reads as 0 |
| Registry.Launch | src/registry/registry.ts:18 | the registry starts empty |
| Registry.RegisterNode | src/registry/registry.ts:40-44 | registration appends the record at the end, keeps every earlier record, and answers "ok" |
| Registry.GetNodeRegistry | src/registry/registry.ts:30-37 | a read returns the registered list, in order |
| Registry.RegisterAllAppends | src/registry/registry.ts:40-44 | a series of registrations appends its records in request order after the existing ones |
| Registry.RegistryHistory | src/registry/registry.ts:18-44 | from launch, a read returns exactly the records registered so far, oldest first |
| Registry.DuplicateIdsAreKept | src/registry/registry.ts:40-44 | registering an id twice keeps both records |
| User.InitialGlobals | src/users/user.ts:18-20 | `lastCircuit` starts empty and both messages start null |
| User.ReceiveMessage | src/users/user.ts:40-42 | `/message` records the message and changes nothing else |
| User.LastCircuitIds | src/users/user.ts:53-54 | `/getLastCircuit` returns the node ids of the last circuit, in order |
| User.SampleCircuit | src/users/user.ts:65-71 | a completed sampling loop yields three distinct positions inside the registry list |
| User.FirstDistinctContents | src/users/user.ts:66-70 | the reference list of draws with repeats removed has no repeats and holds exactly the drawn values |
| User.CircuitIsFirstThreeDistinct | src/users/user.ts:65-71 | for every sequence of draws, the loop ends with the first three distinct draws in draw order, and has not ended while fewer than three distinct values were drawn |
| User.TooFewEntriesNeverComplete | src/users/user.ts:65-71 | with fewer than three registered nodes the sampling loop never completes |
| User.WrapLayer | src/users/user.ts:76-84 | a successful layer is at least 344 characters long, room for the RSA-wrapped key the relay cuts off |
| User.SendMessage | src/users/user.ts:56-97 | the request hangs exactly when the sampling loop does not complete |
| User.SendMessageRecords | src/users/user.ts:65-95 | with fewer than three nodes the request hangs. A completed request records the circuit last-chosen first and the sent message, leaves `lastReceivedMessage` alone, and posts to `lastCircuit[0]`'s port |
| User.ReverseSelect | src/users/user.ts:88 | after `circuit.reverse()`, position i holds the entry chosen i-th from last |
| OnionRouter.StartRouter | src/onionRouters/simpleOnionRouter.ts:7-23 | a started relay has its id, a matching key pair, and all three fields null |
| OnionRouter.AdvertisedNode | src/onionRouters/simpleOnionRouter.ts:19-39 | the registered record carries the relay's id |
| OnionRouter.AdvertisedKeyImports | src/onionRouters/simpleOnionRouter.ts:19-23 | the advertised key imports to the relay's own public key |
| OnionRouter.PostMessage | src/onionRouters/simpleOnionRouter.ts:54-72 | id and keys never change. A failed request leaves the state as it was. A forwarded request records the envelope, the forwarded message and the port |
| OnionRouter.PostMessageForwardsIff | src/onionRouters/simpleOnionRouter.ts:54-64 | a request is forwarded exactly when both decryptions succeed; the port is `parseInt` of the first ten characters and the message is the rest |
| Protocol.PeelLayer | src/onionRouters/simpleOnionRouter.ts:54-64 | the sender's loop body (src/users/user.ts lines 76-84) against the relay's handler: a layer built for a relay's advertised key around port and payload always wraps. The relay forwards exactly that payload to exactly that port, and records all three |
| Protocol.RunCircuit | src/onionRouters/simpleOnionRouter.ts:66-70 | relays handle an envelope in turn: each keeps its id, all but the last forward, and a run that stops early ends with a failure |
| Protocol.WrapThree | src/users/user.ts:76-84 | three successful layers give the third layer as envelope and the third relay's port as final destination |
| Protocol.RunThree | src/onionRouters/simpleOnionRouter.ts:66-70 | three forwarding relays pass the envelope from one to the next |
| Protocol.CircuitOfRelays | src/users/user.ts:65-88 | the recorded circuit is the reversed selection of the relays' advertised records |
| Protocol.CircuitPeels | src/onionRouters/simpleOnionRouter.ts:54-70 | the sender's wrapping loop (src/users/user.ts lines 73-84) against three relays: the three-layer envelope always wraps. The first relay forwards to the second relay's port, the second to the third's, and the third forwards the original message to the destination port |
| Protocol.ThreeHopDelivery | src/users/user.ts:56-97 | a send over registered relays, to a user whose port is no relay's port, completes. The envelope passes relay 0, 1, 2 of `lastCircuit` in turn, each recording its next hop, and reaches the destination user's port, where `/message` (src/users/user.ts lines 40-42) records the original message |

## Left out

- HTTP transport: Express routing, `fetch`, JSON bodies, status codes and `/status` endpoints. Requests are function calls, and each relay's forward is handed to the next relay directly. This includes the JSON body parsers' default limit of 100 kB: a three-layer envelope is about 2.4 times the message, so in the source a message above roughly 42 kB is accepted by `/sendMessage` but rejected by the entry relay, while the sender still answers "success" because `fetch` does not throw on an error status. The model has no size bound, so `Protocol.ThreeHopDelivery` claims delivery for such messages too.
- Concurrency: `async`/`await` and interleaved requests. Each request runs to completion on the state it is given.
- The `getLast…` introspection endpoints other than `/getLastCircuit`: they only return a field of the state the model already exposes.
- `getPrivateKey` (src/onionRouters/simpleOnionRouter.ts lines 51-52): it only returns `exportPrvKey` of the relay's key, and `Crypto.ExportPrvKey` models that.
- Crypto.Valid: every RSA public key, including one imported from a registry record, is taken to be 2048-bit, so every RSA ciphertext is 256 bytes and 344 base64 characters. The source's `importPubKey` accepts an SPKI key of any modulus size, and `registerNode` stores any `pubKey` text. A relay registered with, say, a 4096-bit key would get 684-character key blocks, and the cut at 344 would misalign; the model does not cover that.
- OnionRouter.PostMessage: the cuts at 344 and at 10 characters count Unicode scalar values, while JavaScript's `slice` and `substring` count UTF-16 code units. The two differ when a character outside the Basic Multilingual Plane comes before the cut. For example, decrypted content `"\u{1F600}123456789rest"` forwards `"9rest"` to NaN in the source and `"rest"` in the model. Envelopes (base64) and address fields (digits) are ASCII, so every envelope a sender builds is unaffected.
- Cipher internals: RSA-OAEP, AES-CBC, SPKI and PKCS #8 are abstract primitives bound only by the laws in `Crypto.Valid`. A tampered ciphertext that still decrypts is therefore not modelled.
- Randomness: `Math.random`, `getRandomValues` and key generation are parameters, not distributions.
- The config module is not part of this model. The base ports are taken as 3000 for users and 4000 for relays, and the registry is reached directly rather than at port 8080.
- Base64.Decode: Node's `Buffer.from(s, "base64")` silently skips invalid characters and accepts missing padding. The model rejects every non-canonical text with `InvalidBase64`. Everything the model itself produces is canonical, so the protocol results are unaffected.
- Address.NegativeAddressField: ports at or below -10^9 and at or above 10^10 are not characterised. Their field is longer than ten characters, and the relay reads only its first ten. No node id or user id in the model leads to such a port.
- Node ids and ports are integers. A non-integer `nodeId` or `destinationUserId` (a JavaScript number in general) is not modelled.
- Strings are sequences of Unicode scalar values. Lone UTF-16 surrogates, which `TextEncoder` replaces with U+FFFD, are not modelled.
- User.SendMessage: `SamplingDiverges` means that the sampling loop has not finished within the supplied draws. With three or more entries the source simply draws again, and it finishes with probability 1; it never finishes only when there are fewer than three entries, which `User.TooFewEntriesNeverComplete` states.
- User.WrapLayers: no contract on the final `destination` loop variable. It is read back only through `Protocol.WrapThree`.
- Crypto.SymRoundTrip: a message that begins with U+FEFF comes back without it, because the default `TextDecoder` strips a byte order mark. `Protocol.PeelLayer` is unaffected, because every layer starts with a digit.
- Protocol.ThreeHopDelivery: stated for ports below 10^10, and for relays that registered their own advertised record and each have an id of their own. In the source a relay listens on `4000 + nodeId` (src/onionRouters/simpleOnionRouter.ts line 33), so of two relays sharing an id only one can receive forwards, and a layer built for the other would fail to decrypt; `Protocol.RegisteredBy` therefore requires distinct ids. For the same reason it requires that the destination user's port (`3000 + userId`, src/users/user.ts line 34) is no registered relay's port: with user 1001 and relay 1 both on port 4001, the last hop's forward would reach a relay, not the user. Negative ports are covered separately by `Address.NegativeAddressField`.
