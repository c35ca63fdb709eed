# Hosta session-security core, modelled in Dafny

Hosta is a peer-to-peer messaging library. Its core is a stack of small, sequential
components that the networking code is built from:

- **Byte codecs.** `Blobs.Combine`/`Split` is the concatenate/slice codec. The
  BitConverter frame is a 4-byte length prefix plus a payload of at most 1000 bytes. The
  double ratchet's envelope is the token length, the token, then the plaintext.
- **Ratchets.**
  - `HashRatchet` is a one-way HMAC chain.
  - `ECDHRatchet` is an ephemeral Diffie-Hellman key pair plus its 64-byte output; its
    `Token` is an imported foreign public key.
  - `DoubleRatchetCrypter` is the Behind/Equal/Ahead protocol that reseeds two hash
    ratchets from the ECDH ratchet.
- **Authenticated package codecs.**
  - `RatchetCrypter`: tag ‖ nonce ‖ ciphertext over AES-GCM (section 7 of NIST SP 800-38D).
  - `AesCrypter`, `SecureConversation`, `SecureMessenger`: IV ‖ AES-CBC ciphertext ‖
    HMAC-SHA256, encrypt-then-MAC. CBC follows section 6.2 of NIST SP 800-38A and HMAC
    follows RFC 2104.
  - `SymmetricEncryptor`: the parameter checks and the PKCS#7 padding of section 6.3 of
    RFC 5652.
- **Small state machines.**
  - `AccessQueue` is a pass counter with an ordered list of conditional waiters.
  - `LocalStream`, `LocalConversation`, `LocalMessenger` and `LocalStreamConnector` are the
    in-memory transports, each a queue-matching machine.
  - `ConversationStreamer` and `StreamMessenger` are the framed messengers over a stream.
- **Routing.** The Kademlia-style routing table of the node-finding experiment.

The cryptographic primitives are one `Primitives.Suite`: a record of functions (SHA-256,
HMAC-SHA256, the AES block cipher and its inverse, AES-GCM seal/open, public-key export,
ECDH agreement, and the double ratchet's inner seal/open). It is constrained only by
output lengths, round-trip laws, and the symmetry of Diffie-Hellman agreement. Nothing is
claimed about secrecy or unforgeability.

Modelling conventions:

- **Randomness** is a parameter: IVs, nonces, generated key pairs and random keys.
- **Errors.** Every exception the code throws is an `Err` of `Wrappers.Error`.
- **Mutable objects** are immutable datatypes. Every call returns the new state.
- **Asynchronous work.** Every call that schedules asynchronous work (a `Task.Run`, a
  completed `TaskCompletionSource`) is one atomic step. The tasks it completes are
  returned as a list of events.
- **Object graphs** (a stream and its contact, a connector registry) are a sequence of
  ends addressed by position.

When `Unpackage` moves from Ahead to Equal, `DoubleRatchetCrypter.cs` line 178 reseeds
the decrypt ratchet, and the model does the same.

## Model

| member | source | states |
|---|---|---|
| Bytes.Int32RoundTrip | Hosta/Net/ConversationStreamer.cs:46-60 | BitConverter's 4-byte little-endian two's-complement encoding of any Int32 reads back as the same integer |
| Bytes.Int32Canonical | Hosta/Net/ConversationStreamer.cs:60 | every 4-byte string is the encoding of the integer it reads as, so the length header has no second spelling |
| HashRatchet.Create | Hosta/Crypto/HashRatchet.cs:40-44 | with no argument the secret is 32 zero bytes, otherwise the given bytes; clicks stay unset |
| HashRatchet.SetClicks | Hosta/Crypto/HashRatchet.cs:21-25 | only clicks change; the secret is kept |
| HashRatchet.Output | Hosta/Crypto/HashRatchet.cs:30-34 | the output is 32 bytes; its value, the HMAC of 32 zero bytes under the secret, is stated in Determinism |
| HashRatchet.Turn | Hosta/Crypto/HashRatchet.cs:49-52 | fails (null key) exactly when clicks are unset; otherwise a 32-byte secret and the clicks unchanged |
| HashRatchet.SetClicksKeepsOutput | Hosta/Crypto/HashRatchet.cs:21-34 | setting clicks never changes the current output |
| HashRatchet.TurnTimes | Hosta/Crypto/HashRatchet.cs:49-52 | n turns succeed exactly when n is 0 or clicks are set |
| HashRatchet.TurnTimesIsChain | Hosta/Crypto/HashRatchet.cs:40-52 | n turns from (secret, clicks) land on the n-th link of the reference chain HMAC(…HMAC(secret, clicks)…, clicks), clicks unchanged |
| HashRatchet.Determinism | Hosta/Crypto/HashRatchet.cs:30-52 | equal secret and clicks give equal outputs after equal numbers of turns, namely HMAC(zeros, n-th link) |
| EcdhRatchet.ImportToken | Hosta/Crypto/ECDHRatchet.cs:110-130 | the import succeeds exactly for public-key bytes, and GetBytes gives the canonical export of the key imported, which need not be the bytes given, so the token is valid (ValidTokens) |
| EcdhRatchet.ImportExport | Hosta/Crypto/ECDHRatchet.cs:25-29 | importing a key pair's export gives that key's token, whose bytes are the export; re-importing a token's bytes gives the same token |
| EcdhRatchet.ValidTokens | Hosta/Crypto/ECDHRatchet.cs:110-130 | every token the import or PublicToken builds holds a canonical public-key export; and a token is valid exactly when the bytes GetBytes exports import back to that same token |
| EcdhRatchet.DifferIsInequality | Hosta/Crypto/ECDHRatchet.cs:127-147 | comparing exports decides token inequality: two tokens differ exactly when they are not the same token |
| EcdhRatchet.IsDifferentTo | Hosta/Crypto/ECDHRatchet.cs:137-147 | true exactly when the exported byte strings differ, in length or at some index |
| EcdhRatchet.DifferIrreflexiveSymmetric | Hosta/Crypto/ECDHRatchet.cs:137-147 | a token never differs from itself, and difference is symmetric |
| EcdhRatchet.Create | Hosta/Crypto/ECDHRatchet.cs:34-37 | a new ratchet holds the generated key pair, no output, not disposed |
| EcdhRatchet.New | Hosta/Crypto/ECDHRatchet.cs:42-46 | refused exactly when disposed; otherwise the key pair is replaced and the output kept |
| EcdhRatchet.Turn | Hosta/Crypto/ECDHRatchet.cs:20-56 | refused exactly when disposed; otherwise the output becomes the 64-byte agreement of the current key pair with the token, and the key pair is kept |
| EcdhRatchet.Output | Hosta/Crypto/ECDHRatchet.cs:14-18 | the stored output, and a null reference before the first Turn |
| EcdhRatchet.PublicToken | Hosta/Crypto/ECDHRatchet.cs:25-29 | ObjectDisposedException exactly when the ratchet is disposed; otherwise the token of the current key pair's public key, which is valid |
| EcdhRatchet.Dispose | Hosta/Crypto/ECDHRatchet.cs:60-83 | sets the flag and keeps key pair and output |
| EcdhRatchet.DisposedRefuses | Hosta/Crypto/ECDHRatchet.cs:42-65 | after Dispose, New and Turn throw ObjectDisposedException |
| EcdhRatchet.NewThenTurn | Hosta/Crypto/ECDHRatchet.cs:42-56 | Turn after New agrees with the new key pair, the two effects not interfering |
| Blobs.Combine | Hosta/Tools/Blobs.cs:16-21 | the length of the combination is the sum of the source lengths |
| Blobs.CombineSlices | Hosta/Tools/Blobs.cs:16-21 | source k sits at offset (sum of the earlier lengths) in the combination, unchanged |
| Blobs.Split | Hosta/Tools/Blobs.cs:28-42 | FormatException exactly when the lengths do not sum to the source length; otherwise parts of exactly those lengths whose combination is the source |
| Blobs.SplitSlices | Hosta/Tools/Blobs.cs:35-41 | destination k receives source[off_k .. off_k + length_k), off_k the prefix sum of earlier lengths |
| Blobs.CombineInjective | Hosta/Tools/Blobs.cs:16-42 | parts are determined by their lengths and their combination |
| Blobs.SplitCombine | Hosta/Tools/Blobs.cs:16-42 | splitting a combination at its sources' lengths gives the sources back |
| Blobs.CombineThree | Hosta/Crypto/RatchetCrypter.cs:74 | a three-part combination is plain concatenation, with the three lengths |
| RatchetCrypter.Create | Hosta/Crypto/RatchetCrypter.cs:22-46 | both ratchets start from the zero secret, with clicks encryptKey and decryptKey |
| RatchetCrypter.SetEncryptClicks | Hosta/Crypto/RatchetCrypter.cs:25-29 | only the encrypt ratchet's clicks change |
| RatchetCrypter.SetDecryptClicks | Hosta/Crypto/RatchetCrypter.cs:31-35 | only the decrypt ratchet's clicks change |
| RatchetCrypter.Combine | Hosta/Crypto/RatchetCrypter.cs:111-116 | the length of the combination is the sum of the source lengths |
| RatchetCrypter.Split | Hosta/Crypto/RatchetCrypter.cs:118-132 | InvalidPackageException exactly when the lengths do not sum to the source length; otherwise the parts combine to the source |
| RatchetCrypter.Encrypt | Hosta/Crypto/RatchetCrypter.cs:54-75 | disposed or unkeyed calls change nothing; otherwise the encrypt ratchet turns once and the package is \|plain\| + 28 bytes with the nonce at bytes 16..28 |
| RatchetCrypter.Decrypt | Hosta/Crypto/RatchetCrypter.cs:84-109 | a package under 28 bytes is refused before the ratchet turns; with the decrypt clicks unset the turn throws NullReferenceException and nothing changes; otherwise the decrypt ratchet turns once and GCM opens (tag, nonce, ciphertext) split in Encrypt's order |
| RatchetCrypter.PartsOfPackage | Hosta/Crypto/RatchetCrypter.cs:96-102 | the split of a package at (16, 12, rest) is its three slices |
| RatchetCrypter.Dispose | Hosta/Crypto/RatchetCrypter.cs:136-160 | sets the flag and keeps both ratchets |
| RatchetCrypter.DisposedRefuses | Hosta/Crypto/RatchetCrypter.cs:54-92 | after Dispose, Encrypt and Decrypt throw ObjectDisposedException and change nothing |
| RatchetCrypter.DeliverRoundTrip | Hosta/Crypto/RatchetCrypter.cs:54-109 | one delivery from a crypter to the one it feeds returns the plaintext and keeps both directions paired |
| RatchetCrypter.Run | Hosta/Crypto/RatchetCrypter.cs:54-109 | one result per message of a script |
| RatchetCrypter.RunFromPaired | Hosta/Crypto/RatchetCrypter.cs:54-109 | crypters paired both ways decrypt every message of any script in either direction |
| RatchetCrypter.PairedCryptersRoundTrip | Hosta/Crypto/RatchetCrypter.cs:42-109 | crypters built as (left, right) and (right, left) decrypt each other's packages for every script, empty plaintexts included |
| RatchetCrypter.SuccessivePackagesDiffer | Hosta/Crypto/RatchetCrypter.cs:59-74 | two successive encryptions with different nonces give different packages; a direct corollary of Encrypt's clause that bytes 16..28 of the package are the nonce |
| Cbc.PadCount | Hosta/Crypto/SymmetricEncryptor.cs:62-83 | between 1 and 16, and it completes the length to a whole number of blocks |
| Cbc.Pad | Hosta/Crypto/SymmetricEncryptor.cs:62-83 | a whole number of blocks, 1 to 16 bytes longer, the plaintext as prefix and every pad byte equal to the pad length |
| Cbc.Unpad | Hosta/Crypto/SymmetricEncryptor.cs:94-121 | succeeds exactly on well-padded input, returning a proper prefix |
| Cbc.UnpadPad | Hosta/Crypto/SymmetricEncryptor.cs:62-121 | unpadding a padding returns the plaintext |
| Cbc.PadUnpad | Hosta/Crypto/SymmetricEncryptor.cs:94-121 | whatever unpads is the padding of its result, so the padding is canonical |
| Cbc.DecryptEncrypt | Hosta/Crypto/SymmetricEncryptor.cs:62-121 | CBC decryption inverts CBC encryption under the same key and IV, for every whole number of blocks |
| Cbc.PaddedEncrypt | Hosta/Crypto/SymmetricEncryptor.cs:62-83 | the ciphertext is a whole number of blocks and 1 to 16 bytes longer than the plaintext |
| Cbc.PaddedDecrypt | Hosta/Crypto/SymmetricEncryptor.cs:94-121 | an empty ciphertext gives the empty plaintext; otherwise it succeeds exactly when the decrypted blocks are well padded, and the result is shorter than the ciphertext; the only failure is CryptographicException |
| Cbc.PaddedRoundTrip | Hosta/Crypto/SymmetricEncryptor.cs:62-121 | decrypting what was encrypted with the same key and IV returns the plaintext |
| SymmetricEncryptor.Create | Hosta/Crypto/SymmetricEncryptor.cs:45-53 | CryptoParameterException exactly for keys not 32 bytes long; otherwise key and its 32-byte SHA-256 hash |
| SymmetricEncryptor.KeyHash | Hosta/Crypto/SymmetricEncryptor.cs:26-29 | for an encryptor built by the constructor, the 32-byte SHA-256 hash of its key |
| SymmetricEncryptor.KeyHashOfCreate | Hosta/Crypto/SymmetricEncryptor.cs:26-53 | the getter on a new encryptor gives the SHA-256 hash of the key it was built from |
| SymmetricEncryptor.Encrypt | Hosta/Crypto/SymmetricEncryptor.cs:62-83 | CryptoParameterException exactly for IVs not 16 bytes long; otherwise 1 to 16 bytes of padding, whole blocks |
| SymmetricEncryptor.Decrypt | Hosta/Crypto/SymmetricEncryptor.cs:94-121 | the IV length is checked first (CryptoParameterException), then whole blocks (FormatException), then the padding (CryptographicException); an empty ciphertext decrypts to the empty array |
| SymmetricEncryptor.RoundTrip | Hosta/Crypto/SymmetricEncryptor.cs:62-121 | Decrypt(Encrypt(p, iv), iv) == p for every p, the empty one included |
| AesCrypter.SetKey | Hosta/Crypto/AesCrypter.cs:29-38 | ObjectDisposedException once disposed, CryptoParameterException for keys not 32 bytes long, otherwise only the key changes |
| AesCrypter.Create | Hosta/Crypto/AesCrypter.cs:44-48 | the given key if 32 bytes long, the random key when none is given, CryptoParameterException otherwise |
| AesCrypter.Encrypt | Hosta/Crypto/AesCrypter.cs:86-110 | disposal first, then the IV length, then whole blocks 1 to 16 bytes longer than the plaintext |
| AesCrypter.Decrypt | Hosta/Crypto/AesCrypter.cs:155-184 | disposal, then the IV length, then FormatException for a partial block; an empty ciphertext decrypts to the empty array, and any other result is shorter than the ciphertext |
| AesCrypter.Package | Hosta/Crypto/AesCrypter.cs:55-77 | IV first, then the body, then a 32-byte tail equal to the HMAC of all that precedes it under the key |
| AesCrypter.Unpackage | Hosta/Crypto/AesCrypter.cs:117-144 | a tail that is not the HMAC of the rest throws TamperedPackageException before anything is decrypted; success means the tail checked and the body was decrypted under the head as IV |
| AesCrypter.Dispose | Hosta/Crypto/AesCrypter.cs:200-217 | sets the flag and overwrites every key byte with zero; a second call changes nothing |
| AesCrypter.PackageRoundTrip | Hosta/Crypto/AesCrypter.cs:55-144 | Unpackage(Package(p)) == p for every IV under the same live key |
| AesCrypter.DisposedRefuses | Hosta/Crypto/AesCrypter.cs:88-216 | after Dispose, Package throws ObjectDisposedException, Unpackage fails and the key setter refuses |
| DoubleRatchet.Create | Hosta/Crypto/DoubleRatchetCrypter.cs:23-47 | both hash ratchets start from 32 zero bytes without clicks, a new ECDH key pair, standing Equal |
| DoubleRatchet.LocalToken | Hosta/Crypto/DoubleRatchetCrypter.cs:16-21 | ObjectDisposedException when the crypter or its ECDH ratchet is disposed; otherwise the exported public key of the current key pair, which imports as a token |
| DoubleRatchet.OutputHalf | Hosta/Crypto/DoubleRatchetCrypter.cs:66-90 | the 32 output bytes at the given start; a null reference before any ECDH turn |
| DoubleRatchet.UpdateEncryptClicks | Hosta/Crypto/DoubleRatchetCrypter.cs:66-75 | the encrypt clicks become output[0..32) for the initiator and output[32..64) for the responder |
| DoubleRatchet.UpdateDecryptClicks | Hosta/Crypto/DoubleRatchetCrypter.cs:81-90 | the decrypt clicks become the other half |
| DoubleRatchet.Establish | Hosta/Crypto/DoubleRatchetCrypter.cs:53-60 | the foreign token is imported (keeping its canonical export), the ECDH ratchet turned with it, and both clicks seeded from the agreement; secrets and standing unchanged |
| DoubleRatchet.Envelope | Hosta/Crypto/DoubleRatchetCrypter.cs:113-116 | 4 + \|token\| + \|plain\| bytes |
| DoubleRatchet.ParseEnvelope | Hosta/Crypto/DoubleRatchetCrypter.cs:161-168 | succeeds exactly when the header is a length between 0 and the bytes that follow; then the box is header ‖ token ‖ plaintext |
| DoubleRatchet.ParseEnvelopeRoundTrip | Hosta/Crypto/DoubleRatchetCrypter.cs:113-168 | parsing an envelope recovers exactly its token and plaintext |
| DoubleRatchet.EnvelopeOfParse | Hosta/Crypto/DoubleRatchetCrypter.cs:113-168 | every box that parses is the envelope of its parts |
| DoubleRatchet.RequireForeign | Hosta/Crypto/DoubleRatchetCrypter.cs:125-172 | the stored foreign token, or a null reference before Establish |
| DoubleRatchet.PackageSteps | Hosta/Crypto/DoubleRatchetCrypter.cs:104-133 | the try block: unset encrypt clicks throw NullReferenceException; success turns the encrypt ratchet once and leaves the decrypt ratchet, the foreign token, the role and the disposed flag alone |
| DoubleRatchet.Package | Hosta/Crypto/DoubleRatchetCrypter.cs:98-142 | refused when disposed; any failure disposes and rethrows; success turns the encrypt ratchet once and keeps the decrypt side |
| DoubleRatchet.PackageTransition | Hosta/Crypto/DoubleRatchetCrypter.cs:104-133 | New exactly when Behind or Equal, the sealed envelope of the local token, and the transitions Behind→Equal (ECDH turn, encrypt reseed), Equal→Ahead (encrypt reseed), Ahead unchanged |
| DoubleRatchet.UnpackageSteps | Hosta/Crypto/DoubleRatchetCrypter.cs:156-186 | the try block: unset decrypt clicks throw NullReferenceException; success turns the decrypt ratchet once and leaves the encrypt ratchet, the role and the disposed flag alone |
| DoubleRatchet.Unpackage | Hosta/Crypto/DoubleRatchetCrypter.cs:151-194 | refused when disposed; a package that does not open disposes and throws TamperedPackageException; success turns the decrypt ratchet once and keeps the encrypt side |
| DoubleRatchet.UnpackageTransition | Hosta/Crypto/DoubleRatchetCrypter.cs:156-186 | a token whose import equals the stored one: nothing else changes; a new token is adopted, then Ahead→Equal (ECDH turn, decrypt reseed), Equal→Behind (decrypt reseed), Behind unchanged |
| DoubleRatchet.Dispose | Hosta/Crypto/DoubleRatchetCrypter.cs:198-222 | sets the flag and keeps every ratchet |
| DoubleRatchet.DisposedRefuses | Hosta/Crypto/DoubleRatchetCrypter.cs:137-141 | after Dispose every public operation throws ObjectDisposedException and changes nothing |
| DoubleRatchetSync.InSyncSymmetric | Hosta/Crypto/DoubleRatchetCrypter.cs:66-90 | being in step is symmetric: the initiator's encrypt half is the responder's decrypt half |
| DoubleRatchetSync.HandshakeInSync | Hosta/Crypto/DoubleRatchetCrypter.cs:41-90 | an initiator and a responder established with each other's local token are in step |
| DoubleRatchetSync.PackageOpens | Hosta/Crypto/DoubleRatchetCrypter.cs:110-159 | a package from a crypter in step opens at its peer to the envelope of the sender's token and the plaintext |
| DoubleRatchetSync.DeliverInSync | Hosta/Crypto/DoubleRatchetCrypter.cs:98-194 | one immediate delivery returns the plaintext and leaves the pair in step |
| DoubleRatchetSync.AheadStep | Hosta/Crypto/DoubleRatchetCrypter.cs:119-172 | a delivery from the Ahead side returns the plaintext, keeps both key pairs and leaves the pair in step |
| DoubleRatchetSync.EqualStep | Hosta/Crypto/DoubleRatchetCrypter.cs:104-184 | a delivery from the Equal side returns the plaintext, replaces the sender's key pair with the new one, keeps the receiver's, and leaves the pair in step |
| DoubleRatchetSync.BehindStep | Hosta/Crypto/DoubleRatchetCrypter.cs:104-180 | a delivery from the Behind side returns the plaintext, replaces the sender's key pair with the new one, keeps the receiver's, and leaves the pair in step |
| DoubleRatchetSync.ExchangeInSync | Hosta/Crypto/DoubleRatchetCrypter.cs:98-194 | one message delivered at once in either direction, with a new key pair, returns its plaintext and leaves the pair in step |
| DoubleRatchetSync.Run | Hosta/Crypto/DoubleRatchetCrypter.cs:98-194 | one result per message of a script |
| DoubleRatchetSync.RunInSync | Hosta/Crypto/DoubleRatchetCrypter.cs:98-194 | every message of any script between crypters in step unpackages to its plaintext, as long as each key pair drawn is new |
| DoubleRatchetSync.ConversationDelivers | Hosta/Crypto/DoubleRatchetCrypter.cs:41-194 | after the handshake, any exchange of immediately delivered messages in either direction delivers every plaintext |
| SecureConversation.Create | Hosta/Net/SecureConversation.cs:31-42 | the given encryptor, no tails seen, not disposed |
| SecureConversation.Construct | Hosta/Net/SecureConversation.cs:100-122 | the IV first, and a 32-byte tail equal to the HMAC of all that precedes it under the key hash |
| SecureConversation.OpenAuthentic | Hosta/Net/SecureConversation.cs:146-163 | a tail that is not the HMAC throws TamperedPackageException and nothing is decrypted |
| SecureConversation.OpenAsWritten | Hosta/Net/SecureConversation.cs:131-164 | the last 32 bytes are the tail; a recorded tail is a duplicate, checked before the MAC; the conversation is returned unchanged |
| SecureConversation.Open | Hosta/Net/SecureConversation.cs:131-164 | corrected: the same checks in the same order as OpenAsWritten, and in addition every authenticated tail is recorded, which the source never does (see Findings) |
| SecureConversation.Send | Hosta/Net/SecureConversation.cs:75-80 | ObjectDisposedException exactly when disposed; otherwise the constructed package |
| SecureConversation.Receive | Hosta/Net/SecureConversation.cs:88-93 | corrected: ObjectDisposedException when disposed, with no change; otherwise the corrected Open, which records the tail |
| SecureConversation.Dispose | Hosta/Net/SecureConversation.cs:175-191 | sets the flag; a second call changes nothing |
| SecureConversation.DisposeIdempotent | Hosta/Net/SecureConversation.cs:75-191 | after Dispose, Send and Receive throw ObjectDisposedException, and Dispose is idempotent |
| SecureConversation.HmacEquals | Hosta/Net/SecureConversation.cs:204-210 | true exactly when the two tails are equal in length and at every index |
| SecureConversation.RoundTrip | Hosta/Net/SecureConversation.cs:100-164 | Open(Construct(p)) == p for the same encryptor while the tail is unrecorded |
| SecureConversation.ReplayAcceptedAsWritten | Hosta/Net/SecureConversation.cs:31-144 | as written, the same package opens twice |
| SecureConversation.ReplayRejected | Hosta/Net/SecureConversation.cs:140-144 | with tails recorded, the first delivery opens and the replay throws DuplicatePackageException |
| SecureMessenger.Seal | Hosta/Net/SecureMessenger.cs:68-99 | the 16-byte IV, then the ciphertext, then a 32-byte HMAC of all preceding bytes |
| SecureMessenger.OpenChecked | Hosta/Net/SecureMessenger.cs:119-142 | any tail byte differing from the HMAC throws TamperedPackageException; decryption consumes exactly package[16 .. \|package\| − 32) |
| SecureMessenger.SealOpens | Hosta/Net/SecureMessenger.cs:68-142 | a sealed package opens to its plaintext under the same key |
| SecureMessenger.FirstUnused | Hosta/Net/SecureMessenger.cs:74-77 | the first candidate IV not in the set, every earlier one being in it |
| SecureMessenger.Construct | Hosta/Net/SecureMessenger.cs:68-99 | corrected: IVs compared by content, where the source compares references; the IV used was not in the set, is then recorded, and heads the sealed package |
| SecureMessenger.Open | Hosta/Net/SecureMessenger.cs:109-143 | corrected: IVs compared by content, where the source compares references; an IV in the set throws DuplicatePackageException before any HMAC work |
| SecureMessenger.RoundTrip | Hosta/Net/SecureMessenger.cs:68-143 | a package from a peer with the same key opens unless its IV is in the receiver's set |
| SecureMessenger.IvsNotReused | Hosta/Net/SecureMessenger.cs:74-117 | successive sends never reuse an IV, and a reflected package of its own throws DuplicatePackageException |
| SecureMessenger.Allocate | Hosta/Net/SecureMessenger.cs:111 | a new array gets an identity no earlier array has |
| SecureMessenger.PickAsWritten | Hosta/Net/SecureMessenger.cs:74-77 | the IV loop as written allocates a new array for every test and never changes the set |
| SecureMessenger.FirstProbeMisses | Hosta/Net/SecureMessenger.cs:17 | as written, the first test never finds the copy, so the loop stops at once |
| SecureMessenger.ConstructAsWritten | Hosta/Net/SecureMessenger.cs:68-99 | as written, the first candidate IV is always used |
| SecureMessenger.OpenAsWritten | Hosta/Net/SecureMessenger.cs:109-117 | as written, the duplicate test can never fire |
| SecureMessenger.IvsReusedAsWritten | Hosta/Net/SecureMessenger.cs:17-85 | as written, two sends reuse one IV and a reflected package of its own opens |
| AccessQueue.Create | Hosta/Tools/AccessQueue.cs:32-37 | available = maximum = n, no waiters |
| AccessQueue.Scan | Hosta/Tools/AccessQueue.cs:87-108 | corrected: the walk goes on past an admission. Every admission uses up one pass, each waiter is either admitted or left, in ordered mode the admitted waiters are a prefix of the list and the rest is the remainder |
| AccessQueue.ScanTakesFirstHolding | Hosta/Tools/AccessQueue.cs:93-104 | corrected walk, unordered mode: blocked waiters are passed over and the first waiters whose condition holds, in list order, are admitted, as many as there are passes |
| AccessQueue.ScanPartitions | Hosta/Tools/AccessQueue.cs:97-101 | admitted and left-behind waiters are together exactly the waiters there were |
| AccessQueue.ScanKeepsOrder | Hosta/Tools/AccessQueue.cs:97-104 | both the admitted waiters and those left keep list order |
| AccessQueue.ScanAdmitsHolding | Hosta/Tools/AccessQueue.cs:94-97 | only waiters whose condition holds are admitted |
| AccessQueue.ScanIsMaximal | Hosta/Tools/AccessQueue.cs:94-104 | corrected walk: the scan stops only with no pass left, or with the front waiter blocked (ordered), or with every waiter blocked (unordered); in ordered mode it admits a prefix of waiters whose conditions hold, and nobody behind a blocked waiter; in unordered mode it admits the first holding waiters in list order |
| AccessQueue.ScanIsFifo | Hosta/Tools/AccessQueue.cs:93-101 | with always-true conditions the admitted waiters are the longest prefix the passes allow |
| AccessQueue.ScanAsWritten | Hosta/Tools/AccessQueue.cs:93-105 | as written, a scan admits at most one waiter |
| AccessQueue.CheckForSpace | Hosta/Tools/AccessQueue.cs:87-108 | corrected: runs the whole-list Scan, not the walk as written; available ≤ maximum is kept, and nothing more can be admitted afterwards |
| AccessQueue.GetPass | Hosta/Tools/AccessQueue.cs:58-67 | corrected: the scan that follows is the whole-list Scan. ObjectDisposedException exactly when disposed; otherwise the waiter joins the back and the scan follows, keeping order and the pass count |
| AccessQueue.GetPassAlways | Hosta/Tools/AccessQueue.cs:43-47 | GetPass with a condition that always holds; with a pass free and nobody waiting it is admitted at once |
| AccessQueue.ReturnPass | Hosta/Tools/AccessQueue.cs:72-80 | corrected: the scan that follows is the whole-list Scan. SemaphoreFullException exactly when every pass is back; otherwise exactly one more pass, then the scan |
| AccessQueue.Dispose | Hosta/Tools/AccessQueue.cs:124-150 | corrected: the whole-list scan and failing loop. Every waiter is admitted by the last scan or failed, the queue is empty, and a second call does nothing |
| AccessQueue.DisposeAsWritten | Hosta/Tools/AccessQueue.cs:134-145 | as written, at most one waiter is failed |
| AccessQueue.DisposedRefuses | Hosta/Tools/AccessQueue.cs:114-117 | after Dispose, GetPass throws and a second Dispose fails nobody |
| AccessQueue.ScanAsWrittenStrands | Hosta/Tools/AccessQueue.cs:100-104 | a concrete queue where the scan as written leaves a pass unused while a waiter waits, and Dispose as written leaves a waiter queued |
| Framing.Encode | Hosta/Net/ConversationStreamer.cs:39-48 | MessageTooLargeException exactly over 1000 bytes; otherwise the 4-byte length, read back as \|data\|, then the data |
| Framing.Decode | Hosta/Net/ConversationStreamer.cs:57-66 | a frame received is at most 1000 bytes and is exactly the bytes after its length header |
| Framing.OversizeRefused | Hosta/Net/ConversationStreamer.cs:60-64 | a header announcing more than 1000 bytes throws MessageTooLargeException and consumes no payload |
| Framing.DecodeEncode | Hosta/Net/ConversationStreamer.cs:39-66 | receiving from what Send wrote returns the data and consumes exactly 4 + \|data\| bytes |
| Framing.PrefixPending | Hosta/Net/ConversationStreamer.cs:60-65 | a frame is not received before all of it has arrived |
| Framing.EncodeAll | Hosta/Net/ConversationStreamer.cs:42-45 | a sequence of sends fails exactly when some message is over 1000 bytes |
| Framing.DecodeAll | Hosta/Net/ConversationStreamer.cs:57-66 | repeated receives stop only at a pending or refused receive |
| Framing.DecodeAllEncodeAll | Hosta/Net/ConversationStreamer.cs:39-66 | frames are received in the order they were sent, and the next receive waits |
| ConversationStreamer.Create | Hosta/Net/ConversationStreamer.cs:26-29 | a new streamer is live |
| ConversationStreamer.Send | Hosta/Net/ConversationStreamer.cs:39-48 | ObjectDisposedException first, then the frame of at most 1000 bytes |
| ConversationStreamer.Receive | Hosta/Net/ConversationStreamer.cs:57-66 | ObjectDisposedException before anything is read, otherwise one frame |
| ConversationStreamer.Dispose | Hosta/Net/ConversationStreamer.cs:82-93 | sets the flag; a second call changes nothing |
| ConversationStreamer.SendReceive | Hosta/Net/ConversationStreamer.cs:39-66 | what one live streamer sends another receives unchanged |
| ConversationStreamer.DisposedRefuses | Hosta/Net/ConversationStreamer.cs:72-93 | after Dispose, Send and Receive throw ObjectDisposedException; Dispose is idempotent |
| StreamMessenger.Send | Hosta/Net/StreamMessenger.cs:63-71 | MessageTooLargeException exactly over 1000 bytes, before writing; otherwise the 4-byte length, then the data |
| StreamMessenger.Receive | Hosta/Net/StreamMessenger.cs:45-53 | a received frame is at most 1000 bytes and is exactly the bytes after its header |
| StreamMessenger.ReceiveSend | Hosta/Net/StreamMessenger.cs:45-71 | Receive after Send returns the data for every payload within the limit |
| LocalStream.ConcatAppend | Hosta/Net/LocalStream.cs:103-111 | the bytes of two runs of deliveries are the bytes of each, in order |
| LocalStream.Serve | Hosta/Net/LocalStream.cs:97-114 | never more deliveries than readers |
| LocalStream.ServeConserves | Hosta/Net/LocalStream.cs:103-111 | delivered bytes followed by pending bytes are the bytes that were pending |
| LocalStream.ServeIsFifo | Hosta/Net/LocalStream.cs:101-111 | a prefix of the reader queue is served, each with exactly its size; the rest of the queue is kept |
| LocalStream.ServeIsMaximal | Hosta/Net/LocalStream.cs:101 | afterwards no reader waits or the front reader needs more bytes than are pending |
| LocalStream.Create | Hosta/Net/LocalStream.cs:29-33 | no contact, nothing pending, no readers |
| LocalStream.Connect | Hosta/Net/LocalStream.cs:39-43 | only this end's contact changes |
| LocalStream.Disconnect | Hosta/Net/LocalStream.cs:48-55 | both ends lose their contact; no other end and no bytes change |
| LocalStream.Write | Hosta/Net/LocalStream.cs:62-78 | StreamDisconnectedException exactly without a contact; otherwise only the contact changes |
| LocalStream.Read | Hosta/Net/LocalStream.cs:85-92 | only this end changes, and its contact is kept |
| LocalStream.WriteConserves | Hosta/Net/LocalStream.cs:69-76 | the contact's delivered then pending bytes are its old pending bytes followed by the blob, and the contact is left settled |
| LocalStream.ReadConserves | Hosta/Net/LocalStream.cs:85-111 | no byte is lost or reordered, and the new reader is served only after every reader before it |
| LocalStream.StepConserves | Hosta/Net/LocalStream.cs:62-111 | one write or read conserves the bytes |
| LocalStream.RunConserves | Hosta/Net/LocalStream.cs:62-111 | over any interleaving of writes and reads, bytes delivered then pending are the bytes written, in order |
| Mailbox.Match | Hosta/Net/LocalConversation.cs:62-71 | never more deliveries than messages or readers |
| Mailbox.MatchPairsOldest | Hosta/Net/LocalConversation.cs:66-69 | pair k joins the k-th oldest reader with the k-th oldest message, as many as the shorter queue allows, and one queue ends empty |
| Mailbox.Messages | Hosta/Net/LocalConversation.cs:68 | the messages of a list of deliveries, in order |
| Mailbox.MatchConserves | Hosta/Net/LocalConversation.cs:66-69 | delivered then queued messages are the messages that were queued |
| Mailbox.StepConserves | Hosta/Net/LocalConversation.cs:44-57 | one send or receive conserves the messages |
| Mailbox.RunConserves | Hosta/Net/LocalConversation.cs:44-71 | over any interleaving, readers receive the messages unmodified and in send order |
| Mailbox.RunSettles | Hosta/Net/LocalConversation.cs:66 | after any event, a message and a reader never both wait |
| LocalConversation.Create | Hosta/Net/LocalConversation.cs:29-33 | both queues empty, no contact |
| LocalConversation.Connect | Hosta/Net/LocalConversation.cs:39-42 | only this end's contact changes |
| LocalConversation.Send | Hosta/Net/LocalConversation.cs:44-49 | NullReferenceException exactly without a contact; otherwise the message joins the contact's queue, which then matches and settles |
| LocalConversation.Receive | Hosta/Net/LocalConversation.cs:51-57 | the reader joins this end's queue, which then matches and settles; a waiting message goes to it at once |
| LocalMessenger.Establish | Hosta/Net/LocalMessenger.cs:23-26 | completes with no change |
| LocalMessenger.Send | Hosta/Net/LocalMessenger.cs:28-33 | NullReferenceException exactly without a contact; otherwise the contact's delivered then queued messages gain the message at the end |
| LocalMessenger.Receive | Hosta/Net/LocalMessenger.cs:35-41 | the reader joins this end's queue, which then matches and settles |
| LocalMessenger.SendReachesWaitingReader | Hosta/Net/LocalMessenger.cs:43-52 | a message sent to a contact with a reader waiting goes, unchanged, to its oldest reader |
| LocalStreamConnector.Create | Hosta/Net/LocalStreamConnector.cs:10-16 | a new connector is unbound and live |
| LocalStreamConnector.Ends | Hosta/Net/LocalStreamConnector.cs:33-36 | a pairing hands out two ends connected to each other, nothing pending |
| LocalStreamConnector.Bind | Hosta/Net/LocalStreamConnector.cs:18-25 | ObjectDisposedException when disposed; a bound address is refused; otherwise it is registered with empty queues |
| LocalStreamConnector.AcceptConnection | Hosta/Net/LocalStreamConnector.cs:27-43 | pairs with the oldest request or waits at the back; accepts and requests never both wait |
| LocalStreamConnector.RequestConnection | Hosta/Net/LocalStreamConnector.cs:45-66 | an unbound address throws; otherwise pairs with the target's oldest accept or waits at the back |
| LocalStreamConnector.FailAll | Hosta/Net/LocalStreamConnector.cs:89-94 | one failure per waiting task, oldest first |
| LocalStreamConnector.Dispose | Hosta/Net/LocalStreamConnector.cs:82-98 | every waiting accept, then every waiting request, fails; both queues empty; a second call does nothing |
| LocalStreamConnector.DisposedRefuses | Hosta/Net/LocalStreamConnector.cs:72-75 | after Dispose, Bind, AcceptConnection and RequestConnection throw ObjectDisposedException |
| LocalStreamConnector.RendezvousEitherOrder | Hosta/Net/LocalStreamConnector.cs:27-66 | at a newly bound address, an accept and a request pair with each other whichever comes first |
| Routing.LittleValueZero | NodeFindingTest/Node.cs:115 | a byte packed from bits is zero exactly when every bit is clear |
| Routing.BigEndianZero | NodeFindingTest/Node.cs:116 | an unsigned big-endian integer is zero exactly when every byte is |
| Routing.PackZero | NodeFindingTest/Node.cs:114-115 | the packed bytes are all zero exactly when every bit is clear |
| Routing.XorBits | NodeFindingTest/Node.cs:112-113 | bit i is set exactly when the two names differ at i |
| Routing.Distance | NodeFindingTest/Node.cs:112-116 | the XOR of the two names, packed into bytes and read as an unsigned big-endian integer; its laws are DistanceZero and DistanceSymmetric |
| Routing.DistanceZero | NodeFindingTest/Node.cs:112-116 | the XOR distance is zero exactly between equal names |
| Routing.DistanceSymmetric | NodeFindingTest/Node.cs:112-116 | the XOR distance is symmetric |
| Routing.EmptyBucket | NodeFindingTest/Node.cs:52-61 | a new bucket is valid and empty |
| Routing.Size | NodeFindingTest/Node.cs:55-57 | never more than 16 in a valid bucket |
| Routing.AddToBucket | NodeFindingTest/Node.cs:77-102 | into main exactly when main has room and no equal entry; otherwise to the back of backup unless already there, dropping the oldest past 16; both lists stay bounded and repeat-free |
| Routing.GetClosest | NodeFindingTest/Node.cs:104-130 | none exactly for an empty main; otherwise a main entry at minimal XOR distance, earlier entries strictly farther |
| Routing.FirstDifference | NodeFindingTest/Node.cs:154-159 | the first index from which the names differ, or none when they agree to the end |
| Routing.Level | NodeFindingTest/Node.cs:152-161 | none exactly for the table's own name; otherwise the names agree before it and differ at it |
| Routing.CreateTable | NodeFindingTest/Node.cs:143-150 | 256 empty buckets, a valid table |
| Routing.AddReference | NodeFindingTest/Node.cs:152-161 | the own name is ignored; any other reference is filed in the bucket of its level, and no other bucket changes |
| Routing.TableGetClosest | NodeFindingTest/Node.cs:163-172 | none for the own name; otherwise the closest main entry of the target's bucket, which shares the target's level |
| Routing.AllMain | NodeFindingTest/Node.cs:174-182 | a reference is in the list exactly when it is in some bucket's main list; order and multiplicity are in AllMainSlices |
| Routing.AllMainSlices | NodeFindingTest/Node.cs:176-180 | the list holds each bucket's main list whole, in its own order, the buckets in order one after another, and nothing else |
| Routing.GetAllReferences | NodeFindingTest/Node.cs:174-182 | the main lists of all 256 buckets, each whole and in order, bucket 0 first; never the own name, at most 256 × 16 entries |
| Routing.AllMainBound | NodeFindingTest/Node.cs:51-57 | at most 16 entries per bucket in the concatenation |

## Left out

- Real cryptography (AES, AES-GCM, SHA-256/512, HMAC, ECDH, the random generator) is
  replaced by the laws of `Primitives.Suite`. No secrecy or forgery claim is made.
- Hasher.cs and Tools/Crypto.cs are not part of this model. They only give the primitives
  their signatures.
- The handshakes `SecureConversation.Establish` and `SecureMessenger.Secure` are left out
  because they are network key exchanges. Each model starts from the established
  encryptor or key.
- StreamMessenger.Establish only returns a completed task, and a StreamMessenger holds no
  state besides its stream, so there is nothing to model.
- The UTF-8 string conversion of `SecureMessenger.Send`/`Receive` is not part of this
  model. Its packages carry bytes.
- PrivateConversation.cs, the socket transports (SocketStream.cs, Server.cs,
  RawMessenger.cs) and the UI and database projects are not part of this model.
- `Task.Run`, locks and awaiting are left out. Each call is one atomic step, and the
  interleavings of concurrent calls are not modelled.
- `LocalStream.Dispose` is left out: it dequeues while enumerating and writes to the
  console. So is the dispose flag of LocalStream.
- LocalStream.Read: a negative size is not modelled, because `Reader.size` is a `nat`. A
  negative length from a frame header is refused by `Framing.Decode` with an
  OverflowException, which is what `new byte[length]` throws.
- LocalStreamConnector: the constructor `new LocalStream(bool)` that AcceptConnection and
  RequestConnection call does not exist in LocalStream.cs. The ends are plain
  LocalStreams. The registry's address field is not kept.
- `Node.Cleanup`, `BuildTable`, `Find` and the network simulation (Network.cs,
  Program.cs) are not part of this model. Cleanup depends on the global network and its
  unconditional `i--` loops.
- Routing: `NodeReference.Equals` compares names with `BitArray.Equals`, which is
  reference identity in .NET. The model compares names by value, so two references
  built from separate arrays with equal bits count as equal here and as different in
  the source.
- DoubleRatchet.Package: a failure after the try block has begun mutating state disposes
  the state from before the call. The source disposes the partially updated crypter.
  Neither can be used afterwards.
- DoubleRatchet.Unpackage: the same simplification as Package applies to partial state
  on failure.
- RatchetCrypter.Dispose: RatchetCrypter.cs lines 155-156 call `Dispose` on both hash
  ratchets, but HashRatchet.cs declares no `Dispose` and is not `IDisposable`. The model's
  Dispose only sets the flag and leaves both ratchets as they are.
- LocalConversation and LocalMessenger hand the sender's `byte[]` to the reader by
  reference. The model passes messages by value, so a sender that changes the array after
  Send, and a reader that sees the change, are not modelled.
- DoubleRatchet: the inner `RatchetCrypter(byte[])` with `Package`/`Unpackage` that the
  commented-out class calls does not exist. It is the suite's `seal`/`open`, and an open
  failure is named TamperedPackageException.
- DoubleRatchetSync.RunInSync covers immediate delivery only. Packages that cross in
  flight, or that arrive late, are not modelled.
- AesCrypter.Dispose zeroes the model's copy of the key. Aliasing of the caller's key
  array is not modelled.
- AccessQueue: a negative number of passes is not modelled, because `available` is a
  `nat`. A condition is `Always` or a guard keyed into the set of guards currently true,
  not an arbitrary callback.
- AccessQueue.Dispose runs its final scan before failing the waiters. In the source that
  scan is scheduled with `Task.Run`, so it may run before or after the failing loop.
- Bytes: `BitConverter.IsLittleEndian` is assumed true; big-endian hosts are not modelled.
- Array sizes above Int32 are not modelled. The only exception is the envelope's token
  length, which is bounded by the suite.
- SymmetricEncryptor.Decrypt and AesCrypter.Decrypt: padding failures are stated as
  CryptographicException. An empty ciphertext passes the block check and decrypts to the
  empty array. .NET's CBC decryptor returns that array at the final block without
  depadding, so an authentic package with an empty body opens to no bytes.
- SecureConversation.Open: the model's Open records every authenticated tail. As written,
  SecureConversation.cs never records one, and that version is OpenAsWritten (see Findings).
- SecureConversation.Receive: runs the corrected Open, so it records tails the source
  never records.
- SecureMessenger.Construct: compares IVs by content. SecureMessenger.cs line 17 compares
  array references, and that version is ConstructAsWritten (see Findings).
- SecureMessenger.Open: its duplicate test compares IVs by content. The reference-compared
  test as written never fires, and that version is OpenAsWritten (see Findings).
- AccessQueue.CheckForSpace: runs the whole-list Scan. The walk as written
  (AccessQueue.cs lines 100-104) admits at most one waiter, and that walk is ScanAsWritten
  (see Findings).
- AccessQueue.GetPass: the scan after the waiter joins is the corrected whole-list Scan.
- AccessQueue.ReturnPass: the scan after the pass comes back is the corrected whole-list
  Scan.
- AccessQueue.Dispose: the whole-list scan and failing loop. As written, Dispose fails at
  most one waiter, and that version is DisposeAsWritten.

## Findings

| source | as written | input that shows it | evidently intended | confidence | as-written member | corrected member |
|---|---|---|---|---|---|---|
| Hosta/Net/SecureConversation.cs:31 | `usedHMACs` is only read (line 141); no tail is ever added, so the duplicate check never fires | any package opened twice by a fresh conversation: both opens return the plaintext | record each authenticated tail, so that a replayed package throws DuplicatePackageException | not executed | SecureConversation.ReplayAcceptedAsWritten | SecureConversation.ReplayRejected |
| Hosta/Net/SecureMessenger.cs:17 | `HashSet<byte[]>` without a comparer tests reference identity, and every IV queried is a new array | two sends whose first candidate IV is the same both use it; a package the messenger sent itself opens when reflected back | compare IVs by content, so that an IV is never reused and a reflected package throws DuplicatePackageException | not executed | SecureMessenger.IvsReusedAsWritten | SecureMessenger.IvsNotReused |
| Hosta/Tools/AccessQueue.cs:100-104 | after `waitingTasks.Remove(currentNode)` the walk follows `currentNode.Next`, which is null, so a scan admits at most one waiter and Dispose (lines 140-143) fails only the first | ordered queue with 2 passes, waiters [guard 7, always], guard 7 opens: one admitted, one pass idle, one waiting. Disposing that queue with guard 7 still closed: if the final scan runs before the failing loop it stops at the blocked front waiter, the loop fails only that one, and the second waiter stays queued forever (if the scan runs after the loop, the second waiter is at the front and is admitted) | continue from the successor taken before removal, admitting while passes remain and failing every waiter on Dispose | not executed | AccessQueue.ScanAsWrittenStrands | AccessQueue.ScanIsMaximal |
