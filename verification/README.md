# Kryoptic in Dafny

A model of the parts of the Kryoptic PKCS#11 soft token that hold logic of their
own, with proofs of what they are for. Each module names the source file it
models; code that changes state step by step is modelled as classes and methods
with loops, and each such method is proved against a specification function
whose own properties are proved as lemmas.

- `RsaKey`, `NumberTheory`: completing an RSA key from d, p and q
  (`ossl/src/pkey.rs`), down to Fermat's little theorem.
- `Hmac`, `Ike`: the HMAC operation over a hash function that is left open
  (`src/native/hmac.rs`) and the four IKE derivations that drive it
  (`src/ike.rs`), against FIPS 198-1, section 2.13 of RFC 7296 and Appendix B of
  RFC 2409.
- `AttributeCodec`, `Template`: the template encoding, the comparison of
  templates and the merging of a stored template into a request
  (`src/attribute.rs`).
- `Hotp`, `HotpProtocol`, `HotpKeys`, `HotpRuns`: one-time passwords
  (`src/hotp.rs`), their decimal text, a key's counter under operations that
  several sessions begin, finish and store (`src/fns/signing.rs`), as steps and
  on the objects, and a signer and a verifier over whole runs (RFC 4226).
- `Config`: merging slot configurations and numbering slots (`src/config.rs`).
- `OpState`: the size promised for a saved operation state against the nested
  DER that is written (`src/session.rs`), lengths as in section 8.1.3 of X.690.
- `Objects`, `Tokens`, `TokenOps`, `TokenCalls`, `Dedup`, `DedupRuns`,
  `HandleRuns`: the token with its handles, session objects, login and
  deduplicated storage (`src/token.rs`, with what it needs of
  `src/storage/format.rs`), what each call on its objects keeps, and
  deduplication and object handles over runs.
- `Sessions`, `Slots`, `Library`, `LibraryOps`: session states, slots and the
  global state (`src/session.rs`, `src/slot.rs`, `src/lib.rs`), and the calls
  made on them (`src/fns/`): `Library` says what each call does to the library
  as a value, and the methods of `LibraryOps.State` do it on the slot, session
  and token objects.
- `LibraryRuns`, `SessionRuns`, `LoginRuns`, `LevelRuns`: what every run of those
  calls keeps. `LibraryAnswers`: how each call answers in every state that a run
  can reach, and what it leaves behind.
- `Bytes`, `Common`: integers as bytes, result types, return codes.

## Where the code differs from what is written about it

- `from_dpq` does not check that p and q differ. `RsaCorrectExactly` shows that
  the completed key then decrypts every message only if d is 1; `SquareKey` is a
  key with equal primes that gets completed.
- `src/lib.rs:94-95` calls session handles never repeating for the life time of
  the program, but `initialize` restarts them at 1. `HandleOneTwice` is a run
  that gives out handle 1 twice. `SameHandleExactly` says of any two calls when
  they get the same handle; within one period none do (`HandlesNeverReused`).
- An HOTP operation reads its key's counter when it begins and stores it when it
  is finished, and nothing keeps a second session from beginning one in between.
  The stored counter can then go back (`OverlapGoesBack`), and a verifier accepts
  the same password twice (`OverlapReplays`). `RunSafeExactly` shows that this
  happens only if an operation is begun while another is open on the key.
- `Session::new` under CKU_SO starts a session in the user's read-write state
  while login moves open sessions to the security officer's.
  `OpenedBelowOfficer` is a run that ends with a session at the user's level
  under the officer's login.
- If the storage fails to log out, the token is logged out but its sessions are
  not told. `LogoutCoherentIfStorageAgrees` says so of one slot and
  `FailedLogoutBlocksOfficer` what follows.
- These are the only two ways in which sessions get off the level of their
  token's login: `RunLevelsExactly` has the exact condition over runs, and
  `RunCoherentExactly` the one for agreement up to sessions opened under the
  officer.
- The comment on deduplication (`src/token.rs:644-647`) says the data of the
  original object is wiped. The code overlays the new attributes on the old
  ones: `OldAttributeSurvives` is a certificate that keeps an old attribute, and
  `OverwriteWipesExactly` says when nothing old is left.
- Copying an object, changing its attributes and making keys store without
  looking for duplicates. `InsertUniqueExactly` and `RunUniqueExactly` say when
  that breaks uniqueness, `CopyBreaksUnique` what follows.
- Merging twice is not always a no-op: with two values of one type in the
  stored template the second merge fails (`MergeTwiceFails`); `MergeTwice` gives
  the exact condition. Callers cannot store such a template, since
  `src/attribute.rs:895` refuses repeated types; one could only come with a
  database.
- A configuration whose numbers run out gets a slot with the number that means
  none: `NumbersRunOut` is one with two slots, and `FixNumbersCompletes` says
  exactly when.

## Model

| member | source | states |
|---|---|---|
| `RsaKey.FromDpq` | ossl/src/pkey.rs:887-1087 | Succeeds exactly when d is invertible modulo lambda; e is then the reduced inverse of d, n is p times q in minimal big-endian bytes, and d, p, q are kept as given. |
| `RsaKey.InversePModQ` | ossl/src/pkey.rs:1091-1144 | Gives p^-1 mod q, strictly between 0 and q, exactly when p and q are present and coprime with q above 1. |
| `RsaKey.InvertibleExactly` | ossl/src/pkey.rs:1067-1070 | The code finds an inverse if and only if some number is one and the modulus is above 1 in magnitude. |
| `RsaKey.CompletableExactly` | ossl/src/pkey.rs:1034-1073 | A key can be completed if and only if some exponent completes it. |
| `RsaKey.LambdaIsLcm` | ossl/src/pkey.rs:1045-1065 | phi divided by the gcd is the least common multiple of p-1 and q-1, and divides phi. |
| `RsaKey.LambdaOfOne` | ossl/src/pkey.rs:1045-1065 | With 1 given as a prime the modulus is 0, which nothing is invertible by, and with 1 twice there is none. |
| `RsaKey.LambdaOfZero` | ossl/src/pkey.rs:1045-1065 | With 0 given as a prime the modulus is one minus the other number. |
| `RsaKey.RsaRoundTrip` | ossl/src/pkey.rs:1034-1073 | For distinct primes, raising any message below n to e and then to d, or the other way round, gives it back (section 5.1 of RFC 8017). |
| `RsaKey.SmallKey` | ossl/src/pkey.rs:1034-1073 | A key that meets the hypotheses exists: primes 3 and 5, exponents 3 and 3. |
| `RsaKey.RsaCorrectExactly` | ossl/src/pkey.rs:1034-1073 | For primes p and q every message is recovered if and only if p and q differ or d is 1. |
| `RsaKey.SquareKey` | ossl/src/pkey.rs:1034-1073 | A key with equal primes does get completed: 5 twice, exponents 3 and 3. |
| `RsaKey.RecoversExponent` | ossl/src/pkey.rs:1045-1070 | If d was made as an inverse of e modulo lambda or modulo phi, completion succeeds and can return no exponent but e (section 3.2 of RFC 8017). |
| `RsaKey.CrtRecombines` | ossl/src/pkey.rs:1091-1144 | The coefficient from InversePModQ rebuilds a message from its residues modulo p and q. |
| `NumberTheory.FermatLittle` | ossl/src/pkey.rs:1058-1070 | a^p is congruent to a modulo a prime p, which the choice of lambda relies on. |
| `NumberTheory.ModInverseCorrect` | ossl/src/pkey.rs:1067-1070 | For coprime arguments the modular inverse lies below the modulus and multiplies to 1. |
| `NumberTheory.GcdExactly` | ossl/src/pkey.rs:1058-1061 | The gcd divides both numbers and every common divisor divides it. |
| `Hmac.HashOperation.Digest` | src/ossl/hash.rs:87-101 | A one-shot digest is refused after any use, and otherwise is the hash of the data if the buffer has the hash's length. |
| `Hmac.HashOperation.DigestUpdate` | src/ossl/hash.rs:103-115 | Data is appended to what was absorbed unless the operation has ended. |
| `Hmac.HashOperation.DigestFinal` | src/ossl/hash.rs:117-130 | Gives the hash of everything absorbed, once. |
| `Hmac.HMACOperation.Internal` | src/native/hmac.rs:100-122 | A fresh, ready operation for every HMAC mechanism; any other is refused. |
| `Hmac.HMACOperation.Init` | src/native/hmac.rs:172-194 | The pads hold the block key mixed with 0x36 and 0x5c, and the inner digest has absorbed the first. |
| `Hmac.HMACOperation.MacUpdate` | src/native/hmac.rs:205-218 | The text grows by the data unless the operation has ended. |
| `Hmac.HMACOperation.MacFinal` | src/native/hmac.rs:221-246 | Outputs the leading bytes of HMAC as FIPS 198-1 defines it over all text given, and ends the operation. |
| `Hmac.HMACOperation.Reset` | src/native/hmac.rs:249-257 | Whatever happened before, the operation is ready again under the same key. |
| `Hmac.HMACOperation.Mac` | src/native/hmac.rs:313-317 | The one-shot MAC equals HMAC of the data and is refused on a used operation. |
| `Hmac.HmacOfBlock` | src/native/hmac.rs:172-246 | HMAC is the hash of the outer pad and of the hash of the inner pad and the text, the pads being block bytes combined bit by bit with 0x5c and 0x36. |
| `Hmac.HmacOfShortKey` | src/native/hmac.rs:174-176 | A key of at most a block is filled up with zeros. |
| `Hmac.HmacOfLongKey` | src/native/hmac.rs:176-179 | A longer key counts as its hash. |
| `Hmac.XorBits` | src/native/hmac.rs:183-188 | Each bit of a mixed byte is set exactly when one of the two bits is. |
| `Hmac.HashOfMechanism` | src/native/hmac.rs:33-51 | Which hash each mechanism uses, and which mechanisms are refused. |
| `Hmac.HashSizes` | src/native/hmac.rs:100-122 | The block and output sizes of every hash. |
| `Ike.Prf` | src/ike.rs:97-109 | Every call gives PRF(K, concatenated parts) regardless of earlier calls on the same object. |
| `Ike.ExpandPrfPlus` | src/ike.rs:804-851 | The loop yields exactly prf+ of RFC 7296 and reports the counter running out exactly beyond 255 blocks. |
| `Ike.Ike2PrfPlusOperation.Derive` | src/ike.rs:774-855 | The derived key is the first keysize bytes of T1, T2, ... as RFC 7296 defines them, or the error of the first check that fails; the operation is spent once its key is accepted. |
| `Ike.PrfPlusBlocks` | src/ike.rs:804-851 | Bytes 0 to len of the derived key are prf(K, S, 1), and each later block is prf(K, previous block, S, its number), read off the key itself. |
| `Ike.Ike2Exactly` | src/ike.rs:774-855 | Every outcome of the derivation: which key and data are used, which check fails first and with which error. |
| `Ike.TStreamBlock` | src/ike.rs:812-851 | The n-th block of the derived key is Tn. |
| `Ike.PrfPlusFromAnyStream` | src/ike.rs:812-851 | The derived key does not depend on how many blocks are generated beyond it. |
| `Ike.PrfPlusPrefix` | src/ike.rs:812-851 | A shorter derived key is a prefix of a longer one from the same inputs. |
| `Ike.ExpandAppendixB` | src/ike.rs:648-689 | The loop yields exactly the chain of Appendix B of RFC 2409, with the zero-byte start when there is neither g^xy nor extra data. |
| `Ike.Ike1ExtendedOperation.Derive` | src/ike.rs:617-693 | The derived key follows Appendix B of RFC 2409, or the error of the first check that fails. |
| `Ike.AppendixBBlocks` | src/ike.rs:648-689 | Which data each block of the extended key is the PRF of: the first of g^xy and the extra data, or one zero byte, each later one of the block before it and the same data. |
| `Ike.Ike1ExtendedExactly` | src/ike.rs:617-693 | Every outcome of this derivation, from the inputs. |
| `Ike.AppendixBPrefix` | src/ike.rs:656-689 | A shorter extended key is a prefix of a longer one. |
| `Ike.AppendixBFromAnyStream` | src/ike.rs:656-689 | The extended key does not depend on surplus blocks. |
| `Ike.Ike1PrfOperation.Derive` | src/ike.rs:482-535 | One block over g^xy, cookies and key number, preceded by the previous key's value when there is one. |
| `Ike.Ike1PrfExactly` | src/ike.rs:482-535 | Every outcome: the block over its parts in their order, with or without the previous key, or the first error. |
| `Ike.IkePrfOperation.Derive` | src/ike.rs:318-376 | Exactly one block of prf(Ni Nr, K), prf(K, Ni Nr) or prf(K, new key Ni Nr), and when the operation is spent. |
| `Ike.IkePrfExactly` | src/ike.rs:318-376 | Which input is the key and which the data in each of the three cases. |
| `Ike.IkePrfRefuses` | src/ike.rs:318-376 | Which inputs are refused, and with which error. |
| `AttributeCodec.TotalLength` | src/attribute.rs:296-302 | The first pass computes the encoding's length, or reports that it overflows. |
| `AttributeCodec.SerializeTemplate` | src/attribute.rs:294-314 | Gives the encoding of a list exactly when every length fits its field. |
| `AttributeCodec.RecordBytes` | src/attribute.rs:305-312 | Where each byte of a record is: eight of the type, four of the length, the least significant first, then the value. |
| `AttributeCodec.CountBytes` | src/attribute.rs:303-305 | The string starts with the number of records in four bytes, the least significant first. |
| `AttributeCodec.ReadRecord` | src/attribute.rs:328-352 | Reads one record inside the data and advances exactly past it. |
| `AttributeCodec.DeserializeTemplate` | src/attribute.rs:317-358 | Every read is in bounds and the result is what decoding record by record gives. |
| `AttributeCodec.DecodedBytes` | src/attribute.rs:324-352 | What decoding reads: from which bytes the count and each record's type, length and value come. |
| `AttributeCodec.DecodeStops` | src/attribute.rs:324-358 | Where decoding stops with an error, and that whatever follows the last record is refused. |
| `AttributeCodec.DecodeShort` | src/attribute.rs:318-323 | No bytes are the empty list, and too few for a count are an error. |
| `AttributeCodec.TypeFieldBytes` | src/attribute.rs:331-333 | A record's type is its first eight bytes, the least significant first. |
| `AttributeCodec.DecodeEncode` | src/attribute.rs:294-358 | Decoding an encoded list over known types gives the list back. |
| `AttributeCodec.EncodeDecode` | src/attribute.rs:294-358 | Any non-empty accepted string is the encoding of what it decodes to. |
| `AttributeCodec.AcceptsExactlyEncodings` | src/attribute.rs:317-358 | The decoder accepts the empty string and the encodings, and nothing else. |
| `Template.BuildTemplate` | src/attribute.rs:860-901 | Converts a caller's nested template member by member, failing exactly when the conversion is not possible. |
| `Template.ScalarAccepts` | src/attribute.rs:828-857 | Which values an attribute of each type can have, and the error for any other. |
| `Template.ScalarValue` | src/attribute.rs:828-857 | What is kept of an accepted value: a truth value as 0 or 1, no date as eight zeros, otherwise the bytes. |
| `Template.InnerOneMore` | src/attribute.rs:876-900 | A member of a nested template is refused for an unknown type, for being a template, for a repeated type or for its value, and appended otherwise; the first error stands. |
| `Template.CkTemplateExactly` | src/attribute.rs:860-901 | Which nested templates become an attribute, which bytes it holds, and why others do not. |
| `Template.TypesCount` | src/attribute.rs:510-524 | A list has as many types as members exactly when no type repeats. |
| `Template.MatchIsMapEquality` | src/attribute.rs:510-524 | Scanning one way and comparing lengths is equality of finite maps, against a list without repeated types. |
| `Template.MatchExactly` | src/attribute.rs:510-524 | In other words, each side has every type and value of the other. |
| `Template.MatchIsEquivalence` | src/attribute.rs:510-524 | On such lists the comparison is reflexive, symmetric, transitive and blind to order. |
| `Template.MatchTurnsRoundExactly` | src/attribute.rs:510-524 | A match against a list without repeated types can be turned round if and only if the other list has none either. |
| `Template.TemplateMatch` | src/attribute.rs:493-530 | Comparing a stored template attribute with a caller's is always equality of finite maps. |
| `Template.Matches` | src/attribute.rs:493-530 | The comparison as called, with both conversions, decides the specification's predicate. |
| `Template.MatchBytesExactly` | src/attribute.rs:493-530 | An attribute that is no template matches when type and bytes are the caller's. |
| `Template.MergeTemplateAttribute` | src/attribute.rs:365-391 | Fails exactly when the request's first attribute of some stored type does not match; otherwise the request is kept and what it lacks is appended. |
| `Template.MergeStored` | src/attribute.rs:371-389 | The same for a stored template already converted. |
| `Template.MissingOneMore` | src/attribute.rs:371-389 | A stored attribute is appended, after those before it, exactly when the request has no entry of its type. |
| `Template.FindCkFirst` | src/attribute.rs:372-376 | The entry a stored attribute is compared with is the first of its type. |
| `Template.FindMerged` | src/attribute.rs:365-391 | The first attribute of each type in the result is the request's, or failing that the stored one. |
| `Template.MergeCoversStored` | src/attribute.rs:365-391 | The request stays a prefix and every stored attribute is present with a matching value. |
| `Template.MergeKeepsDistinct` | src/attribute.rs:365-391 | Merging templates without repeated types gives one without repeated types. |
| `Template.MergeTwice` | src/attribute.rs:365-391 | A second merge succeeds if and only if stored attributes that had to be added agree with the first of their type, and then changes nothing. |
| `Template.MergeTwiceFails` | src/attribute.rs:365-391 | A stored template with two values of one type merges into an empty request but not into the result. |
| `Hotp.OtpTextCorrect` | src/hotp.rs:489-514 | The password is exactly as many ASCII digits as asked for, and their value, leading zeros included, is the 31-bit number at the place the last byte of the MAC says, modulo 10^length. |
| `Hotp.TruncateExactly` | src/hotp.rs:501-503 | Which four bytes of the MAC make the 31-bit number: those from the low four bits of the last byte on, without the top bit (section 5.3 of RFC 4226). |
| `Hotp.OtpDigit` | src/hotp.rs:501-512 | Each digit of the password by its place, from the bytes of the MAC. |
| `Hotp.PublishedExample` | src/hotp.rs:489-514 | The MAC of section 5.4 of RFC 4226 gives 872921. |
| `Hotp.PasswordExactly` | src/hotp.rs:489-499 | The password of a counter is that of the MAC over its eight bytes, the most significant first. |
| `Hotp.AlgForExactly` | src/hotp.rs:469-474 | Keys of 20, 32 and 64 bytes use SHA-1, SHA-256 and SHA-512, and no other length is taken. |
| `Hotp.LengthsSupported` | src/hotp.rs:505-510 | Six, seven and eight digits are supported, and they follow 40 bytes of header. |
| `Hotp.NextExactly` | src/hotp.rs:580-585 | The next counter is one more, in 64 bits. |
| `Bytes.BigEndianByte` | src/hotp.rs:584-637 | Byte i of a counter written in k bytes has the weight 256^(k-1-i). |
| `Bytes.BigEndianWeights` | src/hotp.rs:581-631 | Reading one gives byte i that weight. |
| `Hotp.DecimalCorrect` | src/hotp.rs:504-512 | Writing a number in decimal gives digits that read back as it. |
| `Hotp.LeadingZeros` | src/hotp.rs:504-512 | Padding with zeros does not change the value. |
| `Hotp.TruncateInPlace` | src/hotp.rs:501-503 | Every read is inside the MAC and the value is the dynamic truncation of RFC 4226. |
| `Hotp.HOTPOperation.New` | src/hotp.rs:402-487 | An operation starts exactly for a supported key with an eight-byte counter, and writes back only the key's own counter. |
| `Hotp.HOTPOperation.GenerateOtp` | src/hotp.rs:489-514 | The output is the password for the counter, or an error for an unsupported length. |
| `Hotp.HOTPOperation.SignFinal` | src/hotp.rs:539-588 | Signing writes the password for the current counter after the header, nothing past it, and only then steps the counter; any failure leaves counter and pending update alone. |
| `Hotp.HOTPOperation.TryCounter` | src/hotp.rs:634-640 | The comparison is with the password of that counter, the MAC being reset in between. |
| `Hotp.HOTPOperation.SearchWindow` | src/hotp.rs:632-648 | The loop finds the first counter of the window whose password matches. |
| `Hotp.FirstMatchExactly` | src/hotp.rs:632-648 | The match is the first counter of the window with that password, wherever 64 bits wrap around, and there is none only if no counter of the window has it. |
| `Hotp.HOTPOperation.VerifyFinal` | src/hotp.rs:622-650 | Accepts exactly a password of the next five counters, moving to one past the first match; a rejection changes nothing. |
| `HotpProtocol.KeyObject.Begin` | src/hotp.rs:402-487 | An operation begins exactly on a usable key, with the counter that is stored then. |
| `HotpProtocol.KeyObject.Sign` | src/fns/signing.rs:112-121 | Signing gives the password of the counter the operation began with and stores the next one, whatever is stored by now; a failure stores nothing. |
| `HotpProtocol.KeyObject.Verify` | src/fns/signing.rs:398-408 | Verifying accepts exactly a password of the five counters from where the operation began and stores one past the first match; a failure stores nothing. |
| `HotpProtocol.KeyObject.WriteBack` | src/hotp.rs:596-607 | The key gets the operation's counter exactly when that moved and the store works. |
| `HotpProtocol.FirstMatchSpec` | src/hotp.rs:632-648 | The search returns the least matching counter of the window, or none exists. |
| `HotpProtocol.VerifyStep` | src/hotp.rs:622-650 | An operation that begins at v accepts a password made at p whenever v <= p < v+5, and otherwise exactly when it equals one of the next five; acceptance moves the operation's counter strictly up to one past the first match, rejection not at all. |
| `HotpProtocol.OpenOnesRiseExactly` | src/fns/signing.rs:24-121 | However the operations open on a key get finished, what they store rises, if and only if at most one is open and it began at no less than what is stored. |
| `HotpProtocol.RunSafeExactly` | src/fns/signing.rs:315-408 | In every run from an idle key, finishing what is open always stores higher counters, in every state, if and only if no operation was begun while another was open. |
| `HotpProtocol.CountersUsedOnce` | src/fns/signing.rs:24-121 | In a run without such overlap each counter that is stored is higher than all stored before. |
| `HotpProtocol.SignedAgainExactly` | src/fns/signing.rs:112-121 | In such a run a signer makes the password of one counter twice if and only if no counter was stored in between, as when storing failed. |
| `HotpProtocol.OverlapReplays` | src/fns/signing.rs:315-408 | Two sessions that begin verifying at one counter both accept the same password. |
| `HotpKeys.SharedKey.Begin` | src/fns/signing.rs:24-62 | On the objects: succeeds exactly if the session has no operation open and the key can be used, and is then the step Begin of a run; a refusal changes nothing. |
| `HotpKeys.SharedKey.FinishSigning` | src/fns/signing.rs:112 | On the objects: gives the password of the counter the operation began with and is the step Finish; a buffer too small changes nothing, any other failure gives the operation up. |
| `HotpKeys.SharedKey.FinishVerifying` | src/fns/signing.rs:401 | On the objects: is the step Finish, which matches the first password of the window or ends the operation. |
| `HotpKeys.SharedKey.Store` | src/fns/signing.rs:114-121 | On the objects: is the step Store, whatever other sessions have done to the key meanwhile. |
| `HotpKeys.SharedKey.CancelOperation` | src/fns/signing.rs:31-34 | On the objects: is the step Cancel, and leaves the key alone. |
| `HotpKeys.SharedKey.OthersShow` | src/fns/signing.rs:24-121 | A change inside one session's operation leaves those of all others as they were. |
| `HotpKeys.SharedKey.PartyShown` | src/hotp.rs:391-400 | What the steps are about are the key's stored counter and the counters and flags of the open operations. |
| `HotpRuns.VerifierNeverPassesSigner` | src/hotp.rs:580-650 | Over every run of beginning, finishing, storing, cancelling and losing, in any interleaving of sessions without overlap on a key, where a password is used only once its counter is stored, the verifier's counter never passes the signer's and neither goes back. |
| `HotpRuns.DeliveryResynchronizes` | src/hotp.rs:580-650 | In such a run a password delivered after at most four losses is accepted, and storing the outcome makes the counters agree again exactly when no earlier password of the window collides. |
| `HotpRuns.OutOfReachForever` | src/hotp.rs:622-650 | A verifier five passwords behind never recovers unless a password collides. |
| `HotpRuns.OverlapGoesBack` | src/fns/signing.rs:24-121 | A run in which a signing session begun early and finished late takes the stored counter back, behind the verifier. |
| `Config.Config.FixSlotNumbers` | src/config.rs:379-404 | Numbers every slot that has none, after the highest number in use. |
| `Config.Config.HighestNumber` | src/config.rs:380-395 | The first pass finds one more than the highest number and whether any is missing. |
| `Config.Config.CheckSlot` | src/config.rs:502-532 | One new slot against the loaded ones: found, new or refused. |
| `Config.Config.FromInitArgs` | src/config.rs:497-539 | The slots after a call, successful or refused half-way, and when it succeeds. |
| `Config.ScanMeaning` | src/config.rs:502-532 | A new slot is refused exactly when its number and its storage are not both on one loaded slot, and found when they are. |
| `Config.AddAllOneMore` | src/config.rs:501-536 | What one more slot does after those before it: it is added when its storage is not loaded, refused when it clashes with a loaded one, and nothing once one was refused. |
| `Config.AddAllKeepsConsistent` | src/config.rs:501-536 | Adding slots keeps numbers and storages unique and what was there as it was. |
| `Config.RenumberValues` | src/config.rs:396-403 | Each missing number becomes the next one in order. |
| `Config.FirstFreeExactly` | src/config.rs:380-395 | Numbering starts at 0 when no slot has a number, else at one past the highest. |
| `Config.FixedNumber` | src/config.rs:379-404 | The number each slot ends up with, for any configuration: its own, or the first free one and as many more as slots before it have none, in 32 bits. |
| `Config.WrapExactly` | src/config.rs:396-403 | The next number is one more, in 32 bits. |
| `Config.InitExactly` | src/config.rs:497-539 | Only a call that refuses no slot numbers any. |
| `Config.FixNumbersCompletes` | src/config.rs:379-404 | Numbering succeeds for every slot if and only if the highest number plus the unnumbered slots stays below u32::MAX; no number in use changes. |
| `Config.NumbersRunOut` | src/config.rs:379-404 | With u32::MAX - 1 in use the next slot gets the number that means none. |
| `Config.InitKeeps` | src/config.rs:497-539 | Every call keeps what was loaded, never renumbers, and when refused keeps uniqueness; a successful one leaves every slot numbered if and only if the numbers suffice. |
| `Config.CallsCompleteExactly` | src/config.rs:497-539 | In any run of calls every success leaves every slot numbered if and only if the numbers suffice each time. |
| `Config.RunKeeps` | src/config.rs:497-539 | Over every run all states keep numbers and storages unique and later ones extend earlier ones. |
| `Config.RepeatIsNoOp` | src/config.rs:497-539 | Repeating an earlier successful call succeeds and changes nothing unless a failed call left slots unnumbered. |
| `OpState.Session.StateSize` | src/session.rs:573-612 | The announced size or the reason for there being none, as NotAnnouncedBecause, AnnouncedWhen and AnnouncedSize say from the operations. |
| `OpState.CombineExactly` | src/session.rs:573-606 | Outcomes come to success if and only if one is a success and every error is one of the two that are skipped; otherwise the first other error counts, and without one whether something could not be saved. |
| `OpState.AnnouncedWhen` | src/session.rs:573-612 | A size is announced if and only if an active operation has one and the others are inactive or cannot be saved. |
| `OpState.AnnouncedSize` | src/session.rs:573-612 | It is 172 and, for each operation that has a size, 15 more than that. |
| `OpState.NotAnnouncedBecause` | src/session.rs:583-606 | The first error that is not skipped is the answer. |
| `OpState.NotAnnouncedElse` | src/session.rs:583-610 | Without one and without a success, the answer is whether some operation cannot be saved. |
| `OpState.Session.CollectStates` | src/session.rs:614-662 | The saved states are those of the operations that can be saved, each in its own place. |
| `OpState.SavedWhen` | src/session.rs:614-664 | A state is written if and only if some operation gives its state and the others are inactive or cannot be saved, and otherwise why it is not. |
| `OpState.OutcomesExactly` | src/session.rs:583-651 | What asking one operation gives: its size, its state under its mechanism, or the first error of the three. |
| `OpState.Session.StateSave` | src/session.rs:614-698 | The buffer starts with exactly the wrapped, encrypted encoding and is otherwise as before; a refused call leaves all of it as before. |
| `OpState.OverheadValues` | src/session.rs:189-229 | The three overheads are 15, 129 and 43 bytes. |
| `OpState.AnnouncedSizeSuffices` | src/session.rs:573-698 | For every set of active operations with an announced size below 2^48, what is written fits a buffer of that size, so the too-small branch is unreachable. |
| `OpState.WrittenExactly` | src/session.rs:614-698 | The size of what is written is a function of the saved lengths alone, given in closed form, so that a buffer is big enough exactly when it is not smaller. |
| `OpState.LenOctetsExactly` | src/session.rs:666-687 | Lengths are one octet below 128, else a count and the number without leading zeros (section 8.1.3 of X.690). |
| `OpState.UintContentExactly` | src/session.rs:162-166 | Numbers read back as themselves, are never negative and take no octet too many (section 8.3 of X.690). |
| `OpState.TlvExactly` | src/session.rs:666-687 | An encoding is a tag, the length octets and the content. |
| `OpState.PlainExactly` | src/session.rs:162-187 | What is encrypted, octet by octet: version 1 and the members that are there, tagged 0xa0 to 0xa7 in the order of the operations. |
| `OpState.WrittenBytes` | src/session.rs:666-698 | What is wrapped around it: the identifier of AES-256-GCM with IV and tag, and the encrypted state. |
| `OpState.PlainDetermines` | src/session.rs:162-187 | No two different sets of saved states are encoded alike, so what is encrypted says which operations were saved and all each of them gave. |
| `Sessions.Session.New` | src/session.rs:325-371 | Which sessions can be opened for whom, and their first state. |
| `Sessions.OpenedExactly` | src/session.rs:325-371 | A session can be opened if and only if it is serial and is for nobody, for the user, or for the officer and writable; its first state and the error otherwise. |
| `Sessions.Session.ChangeSessionState` | src/session.rs:427-479 | The state table moves a session to the requested level in the same mode, or refuses for the stated reason and leaves it alone. |
| `Sessions.ChangeTable` | src/session.rs:427-479 | The answer and the state left behind for each of the five states and each user. |
| `Sessions.StatesExactly` | src/session.rs:427-489 | Which states are writable and at which level each is. |
| `Sessions.Session.IsWritable` | src/session.rs:482-489 | A session is writable exactly when it was opened read-write. |
| `Sessions.ChangeMeaning` | src/session.rs:427-479 | An accepted change reaches the level, a refused one changes nothing, and no change alters the mode. |
| `Sessions.LogoutRestores` | src/session.rs:427-479 | Dropping a login gives a public session back its state. |
| `Slots.Slot.AddSession` | src/slot.rs:143-145 | The session is filed under its handle and nothing else changes. |
| `Slots.Slot.HasRoSessions` | src/slot.rs:185-193 | True exactly when some session is read-only and not at the officer's level. |
| `Slots.Slot.ChangeSessionStates` | src/slot.rs:197-205 | In whatever order, the sessions before the first refusal are moved, the others untouched, and the refusal is returned. |
| `Slots.Slot.InvalidateSessionStates` | src/slot.rs:208-215 | Every session is moved to its public state. |
| `Slots.Slot.DropSession` | src/slot.rs:218-220 | Exactly that session goes. |
| `Slots.Slot.DropAllSessions` | src/slot.rs:224-232 | All sessions go and exactly their handles are returned. |
| `Slots.LoginMovesAll` | src/slot.rs:185-215 | For every order of the walk, public sessions all reach a level if and only if it is a session level and, for the officer, none is read-only; invalidating then restores each. |
| `Slots.WalkKeepsModes` | src/slot.rs:197-205 | A walk that stops half-way keeps every session's mode and slot. |
| `Slots.WalkedExactly` | src/slot.rs:197-205 | A walk ends well if and only if no session refuses, and otherwise with the answer of one that does; only sessions that do not refuse have moved. |
| `Tokens.Handles.Insert` | src/token.rs:51-60 | Neither a handle nor a unique id is ever overwritten, so the map stays one-to-one. |
| `Tokens.Handles.GetByUid` | src/token.rs:68-70 | Finds the handle of a unique id exactly when it has one. |
| `Tokens.SessionCleanUp` | src/token.rs:460-475 | Closing a session removes exactly its objects from both structures and never a builtin one, keeping the token's invariant. |
| `Tokens.LogoutCleanUp` | src/token.rs:438-456 | Logging out removes exactly the private objects of sessions from both structures, keeping the token's invariant. |
| `Tokens.LoginExactly` | src/token.rs:357-408 | Who gets in, the error for everyone else, and who is logged in then, for every user, login and answer of the storage. |
| `Tokens.LogoutExactly` | src/token.rs:414-428 | When a logout succeeds and which error it gives otherwise. |
| `Tokens.InsertKeepsInv` | src/token.rs:572-592 | Inserting keeps every session object under its own handle and the handle map one-to-one and below the next handle. |
| `Tokens.InsertAdds` | src/token.rs:572-592 | A new object gets a handle nobody had and nothing already there changes. |
| `Tokens.InsertedExactly` | src/token.rs:572-592 | When an object is taken, where it goes, under which handle, what else changes, and the error otherwise. |
| `Tokens.DestroyedExactly` | src/token.rs:745-772 | When an object goes, why it does not, and what is left of the token. |
| `Tokens.SetUpExactly` | src/token.rs:250-290 | Each place where setting up can stop, with its answer and what it leaves. |
| `Tokens.BuiltinsExactly` | src/token.rs:182-216 | Builtin objects are taken one by one up to the first that is refused. |
| `Tokens.AllNamedExactly` | src/storage/format.rs:447-454 | Of the objects found, one after the other, those without a handle take the next one. |
| `Objects.FlagsExactly` | src/object/mod.rs:204-209 | What an object counts as when it does not say: tied to a session, private, not destroyable. |
| `Tokens.DestroyUndoesInsert` | src/token.rs:745-772 | Destroying a new object restores the token but for the handle, which stays used up. |
| `Tokens.SetUpStartsOver` | src/token.rs:250-290 | Setting a token up, wherever it stops, leaves nobody logged in and only builtin objects, or changes nothing. |
| `TokenOps.Token.AuthUser` | src/token.rs:357-382 | The login changes exactly on a successful authentication that is not a mere check. |
| `TokenOps.Token.Login` | src/token.rs:390-408 | The outcome and the new login for every user type, current login and answer of the storage. |
| `TokenOps.Token.Logout` | src/token.rs:414-428 | The token is logged out and cleaned up even when the storage then fails. |
| `TokenOps.Token.ClearPrivateSessionObjects` | src/token.rs:438-456 | Removes the private session objects and their handles. |
| `TokenOps.Token.ClearSessionObjects` | src/token.rs:460-475 | Removes the objects of one session and their handles. |
| `TokenOps.Token.InsertObject` | src/token.rs:572-592 | Where a new object goes, what handle it gets, and that a handle is used up even if the unique id is taken. |
| `TokenOps.Token.CopyObject` | src/token.rs:880-899 | Whether the source is found and may be read, and that what the factory makes of it is then inserted without a search. |
| `TokenOps.Token.Fetch` | src/storage/format.rs:275-336 | Gives the stored object of a handle, marked with the handle, or the error of the first step that fails. |
| `TokenOps.Token.SetObjectAttrs` | src/token.rs:820-858 | Attributes are set in place on a session object, or on a stored one when somebody is logged in; a refusal changes nothing. |
| `TokenOps.Token.Store` | src/storage/format.rs:338-370 | Stores an object under its unique id, with a new handle if it has none. |
| `TokenOps.Token.DestroyObject` | src/token.rs:745-772 | Only destroyable objects go, and the handle goes even if the storage fails to remove the object. |
| `TokenOps.Token.Search` | src/storage/format.rs:425-459 | Returns as many handles as objects match and are not withheld, each naming a match and every match named; existing handles stay and matches without one get the next ones in the order found. |
| `TokenOps.Token.Update` | src/storage/format.rs:376-418 | Overlays attributes on the object of a handle and touches no other. |
| `TokenOps.Token.IsDuplicate` | src/token.rs:595-605 | None, the one match, or an error for more. |
| `TokenOps.Token.CheckDedup` | src/token.rs:651-711 | Looks exactly for the classes the setting covers; a duplicate is overwritten, or refused when there is no setting. |
| `TokenOps.Token.CreateObject` | src/token.rs:720-738 | Creation does one of: insert, merge into the one duplicate, refuse. |
| `TokenOps.Token.Initialize` | src/token.rs:250-290 | The state after every way setting up can end. |
| `TokenOps.Token.InternalObjectsInit` | src/token.rs:182-216 | Adds the builtin objects in order until one fails. |
| `TokenCalls.CreateKeeps` | src/token.rs:720-738 | A creation, whether it inserts, merges or refuses, keeps the token in order, the login, and every other session's objects. |
| `TokenCalls.CallKeeps` | src/token.rs:572-899 | So does every insertion, creation, copy, removal, search and change of attributes. |
| `TokenCalls.AttributesAnswer` | src/token.rs:820-858 | When attributes can be set and which error is given otherwise. |
| `TokenCalls.AttributesEffect` | src/token.rs:820-858 | Setting them changes that one object, and a refusal nothing. |
| `TokenCalls.WithAttributesExactly` | src/token.rs:820-858 | The attributes given go over those there were; handle and session stay. |
| `TokenCalls.CopiedExactly` | src/token.rs:880-899 | Which sources can be copied, with and without a login, and the error otherwise. |
| `HandleRuns.ObjectHandlesNeverReused` | src/token.rs:46-84 | Over every run of a token's calls, until it is set up again, each object handle given out is larger than all given out before, even if their objects are gone. |
| `Dedup.SearchFindsIdentity` | src/token.rs:607-642 | The search template matches exactly the objects of the same class, issuer and serial number, or class, id and key type. |
| `Dedup.CoveredExactly` | src/token.rs:651-711 | Which classes each of the three settings, and none, looks at. |
| `Dedup.SameExactly` | src/token.rs:607-642 | Two objects are duplicates if and only if they are of one covered class and agree on issuer and serial number, or for keys on id and key type. |
| `Dedup.MatchingExactly` | src/storage/format.rs:425-459 | A search for an object's identity finds exactly its duplicates, but for those that belong to the storage. |
| `Dedup.InternalNumber` | src/storage/format.rs:441-446 | Unique ids of zeros and one digit are withheld. |
| `Dedup.InternalSigned` | src/storage/format.rs:441-446 | So are those with a plus sign before them. |
| `Dedup.InternalOnly` | src/storage/format.rs:441-446 | No others are. |
| `Dedup.AtMostOneMatch` | src/token.rs:595-605 | While identities are unique a search for one finds at most one object, so the error for more is unreachable. |
| `Dedup.CreateKeepsUnique` | src/token.rs:651-738 | Under every setting a creation keeps identities of covered classes unique. |
| `Dedup.DuplicateIsMerged` | src/token.rs:664-703 | A duplicate keeps the original's handle, unique id and identity, the number of objects and every other object; the merged object has every new attribute, overlaid on the old ones. |
| `Dedup.OverwrittenExactly` | src/token.rs:697-704 | For each attribute, whether the merged object has the new one, the old one or none; its place and its unique id stay. |
| `Dedup.NewIsInserted` | src/token.rs:720-738 | An object that is no duplicate is inserted as it is. |
| `Dedup.OverwriteWipesExactly` | src/token.rs:644-703 | After a merge only the new object's attributes remain beside the unique id if and only if the old object had no attribute that the new one lacks. |
| `Dedup.OldAttributeSurvives` | src/token.rs:644-703 | A stored certificate with an id that the new one lacks keeps it. |
| `Dedup.SecondTrustRefused` | src/token.rs:703-711 | Without a setting a second trust object is refused and nothing is stored. |
| `Dedup.InsertUniqueExactly` | src/token.rs:572-592 | Inserting a token object without a search keeps identities unique if and only if no stored object has the same. |
| `Dedup.CopyBreaksUnique` | src/token.rs:880-899 | A copy of a covered token object breaks uniqueness, after which creating that object again fails. |
| `DedupRuns.StepUniqueExactly` | src/token.rs:438-899 | A call keeps identities unique if and only if it does not insert, copy or change an object into one that another stored object has the identity of. |
| `DedupRuns.RunUniqueExactly` | src/token.rs:438-899 | From an empty storage, identities are unique in every state of a run if and only if no call of it does that. |
| `DedupRuns.CreationsKeepUnique` | src/token.rs:651-772 | So they are in every run whose uses of the token are creations, removals and searches, with logins, logouts, closed sessions and new set-ups in between. |
| `LibraryOps.LoginSlot` | src/fns/sessmgmt.rs:310-340 | On the slot's own objects: token login, walk over the sessions, and rollback when the walk is refused. |
| `LibraryOps.LogoutSlot` | src/fns/sessmgmt.rs:368-383 | On the slot's own objects: sessions are told only if the token's logout succeeds. |
| `LibraryOps.MakePublic` | src/fns/sessmgmt.rs:333-334 | The rollback leaves the token logged out and every session public. |
| `LibraryOps.State.OpenSession` | src/fns/sessmgmt.rs:21-48 | On the objects: opens a session at the level of the token's login, or the error of the first check that fails, exactly as Library.OpenSession says. |
| `LibraryOps.State.CloseSession` | src/fns/sessmgmt.rs:78-85 | On the objects: the session's objects go, then the session, and the last one takes the login, as Library.CloseSession says. |
| `LibraryOps.State.CloseAllSessions` | src/fns/sessmgmt.rs:101-113 | On the objects: all sessions of the slot and their objects go, in the order they come, and the login with them, as Library.CloseAllSessions says. |
| `LibraryOps.State.Login` | src/fns/sessmgmt.rs:281-341 | On the objects: the checks in their order, then login, walk and rollback in the one slot, as Library.Login says. |
| `LibraryOps.State.Logout` | src/fns/sessmgmt.rs:368-383 | On the objects: the session's own slot is logged out, as Library.Logout says. |
| `LibraryOps.State.OneSlotChanged` | src/lib.rs:86-98 | A change inside one slot leaves every other slot as it was, since slots share nothing. |
| `LibraryOps.State.SlotShown` | src/lib.rs:86-98 | What the steps are about are the fields of the slot, session and token objects. |
| `LibraryOps.State.Initialize` | src/lib.rs:101-108 | Everything is cleared and handles start at 1. |
| `LibraryOps.State.Finalize` | src/lib.rs:112-131 | Every slot is asked, in any order; nothing is left whatever they answer, and the first error in that order is returned. |
| `LibraryOps.FirstErrorExactly` | src/lib.rs:112-131 | The error returned is that of the first slot asked that refuses. |
| `LibraryOps.State.AddSlot` | src/lib.rs:171-181 | A slot number in use is refused; otherwise a slot that shares nothing with the others is added and the index still agrees. |
| `LibraryOps.State.GetSession` | src/lib.rs:184-193 | Gives the session object filed under the handle; with a valid index it is found exactly when the index has its handle. |
| `LibraryOps.State.NewSession` | src/lib.rs:209-221 | The new session gets the next handle, in slot and index alike. |
| `LibraryOps.State.DropSession` | src/lib.rs:252-264 | The session leaves slot and index; the last one logs the token out. |
| `LibraryOps.State.DropAllSessionsSlot` | src/lib.rs:268-274 | All sessions of the slot leave slot and index and their handles are returned, other slots keep theirs, and the login stays. |
| `LibraryRuns.OpenKeepsInv` | src/fns/sessmgmt.rs:21-48 | Opening a session keeps the library's invariant. |
| `LibraryRuns.CloseKeepsInv` | src/fns/sessmgmt.rs:78-85 | So does closing one. |
| `LibraryRuns.CloseAllKeepsInv` | src/fns/sessmgmt.rs:101-111 | So does closing all of a slot, in any order. |
| `LibraryRuns.LoginKeepsInv` | src/fns/sessmgmt.rs:281-341 | So does every login, accepted, refused or rolled back. |
| `LibraryRuns.LogoutStepKeepsInv` | src/fns/sessmgmt.rs:368-383 | So does a logout, even one the storage fails. |
| `LibraryRuns.SetUpKeepsInv` | src/fns/stmgmt.rs:243-271 | So does setting a token up. |
| `LibraryRuns.SetPinKeepsInv` | src/fns/stmgmt.rs:337-375 | So does changing a PIN, which may log in and out. |
| `LibraryRuns.CallKeepsInv` | src/token.rs:572-899 | So does every call on a token's objects through a session. |
| `LibraryRuns.AllClosedKeepsInv` | src/fns/sessmgmt.rs:101-111 | After closing all sessions only builtin objects remain. |
| `LibraryRuns.StepKeepsInv` | src/fns/sessmgmt.rs:21-383 | Every call, uses of the token's objects included, keeps the invariant: index and slots agree on the sessions, handles lie between 1 and the next one, tokens are in order, session objects belong to open sessions, nobody is logged in without a session. |
| `LibraryRuns.RunKeepsInv` | src/lib.rs:101-274 | Every state that any run reaches satisfies the invariant. |
| `LibraryAnswers.StartExactly` | src/lib.rs:101-131 | Started, the library has no slot and no session and gives out handle 1 next; stopped, it has nothing. |
| `LibraryAnswers.AddSlotExactly` | src/lib.rs:171-181 | A slot number in use is refused, any other is added without sessions. |
| `LibraryAnswers.OpenAnswer` | src/fns/sessmgmt.rs:21-48 | In every reachable state a session can be opened if and only if the library is started, the slot is there with a token set up, the session is serial and, under the officer, writable; the error otherwise. |
| `LibraryAnswers.OpenResultExactly` | src/fns/sessmgmt.rs:21-48 | The new session has the next handle, the mode asked for and the level of the login, or the user's under the officer; nothing else changes. |
| `LibraryAnswers.CloseAnswer` | src/fns/sessmgmt.rs:78-85 | Every open session can be closed, and nothing else. |
| `LibraryAnswers.CloseEffect` | src/fns/sessmgmt.rs:78-85 | Which sessions, objects and handles are left, and whether somebody is still logged in. |
| `LibraryAnswers.CloseAllAnswer` | src/fns/sessmgmt.rs:101-113 | All sessions of a slot can be closed if and only if its token is set up; the error otherwise. |
| `LibraryAnswers.CloseAllEffect` | src/fns/sessmgmt.rs:101-113 | Exactly the builtin session objects are left, with nobody logged in; other slots and the storage are as they were. |
| `LibraryAnswers.LoginAnswer` | src/fns/sessmgmt.rs:281-341 | The answer to a login of the user or the officer in every reachable state: in if and only if nobody is logged in, the storage agrees, no session is at the level of the other and, for the officer, none is read-only. |
| `LibraryAnswers.SlotLoginEffect` | src/fns/sessmgmt.rs:310-340 | After it the user is logged in and every session at its level, or nobody is and every session public, or nothing has changed. |
| `LibraryAnswers.ContextLoginAnswer` | src/fns/sessmgmt.rs:281-341 | The answer to the login that one operation waits for, and to any other user. |
| `LibraryAnswers.LogoutAnswer` | src/fns/sessmgmt.rs:368-383 | The answer to a logout in every reachable state, and that sessions are told exactly when it succeeds. |
| `LibraryAnswers.InitTokenAnswer` | src/fns/stmgmt.rs:243-271 | The answer to setting a token up: refused while sessions are open, and which errors are passed on. |
| `LibraryAnswers.SetPinAnswer` | src/fns/stmgmt.rs:337-375 | The answer to changing a PIN in every reachable state, and that the login is as before. |
| `SessionRuns.HandlesNeverReused` | src/lib.rs:209-221 | Between a start and the next stop each session handle is larger than all before it. |
| `SessionRuns.SameHandleExactly` | src/lib.rs:209-221 | Every handle is one more than the number given out since the last start, so two calls of a run get the same one if and only if these numbers are equal. |
| `SessionRuns.HandleOneTwice` | src/lib.rs:94-108 | A run with a stop and a new start in which handle 1 is given out twice. |
| `SessionRuns.SessionKeepsMode` | src/session.rs:482-489 | Over every run a session keeps its slot and mode, and is writable exactly when it was opened that way. |
| `LoginRuns.LoginNeverRollsBack` | src/fns/sessmgmt.rs:329-338 | When token and sessions agree, a login the token accepts moves every session to its level; the rollback is unreachable. |
| `LoginRuns.LogoutUndoesLogin` | src/fns/sessmgmt.rs:281-383 | Logging in and out gives every session the state it had. |
| `LoginRuns.LogoutCoherentIfStorageAgrees` | src/fns/sessmgmt.rs:368-383 | After a logout token and sessions agree if and only if the storage's part succeeded. |
| `LoginRuns.FailedLogoutBlocksOfficer` | src/fns/sessmgmt.rs:329-338 | After a failed logout of the user, the officer's login is rolled back, and the sessions agree again. |
| `LoginRuns.StepCoherentExactly` | src/fns/sessmgmt.rs:21-383 | A call keeps token and sessions in agreement, where sessions under the security officer may be at the user's level, if and only if it is not a logout that the storage fails. |
| `LoginRuns.RunCoherentExactly` | src/fns/sessmgmt.rs:21-383 | So they agree in every state of a run if and only if the storage never fails a logout in it. |
| `LevelRuns.StepLevelsExactly` | src/fns/sessmgmt.rs:21-383 | A call keeps every session at the level of its token's login if and only if it neither opens a session while the security officer is logged in nor is a logout that the storage fails. |
| `LevelRuns.RunLevelsExactly` | src/fns/sessmgmt.rs:21-383 | In every state of a run the sessions of every slot are at the level of its token's login if and only if no call of the run is one of these two. |
| `LevelRuns.OpenedBelowOfficer` | src/session.rs:353-358 | A run in which the security officer logs in and a session opened after that is at the user's level. |
| `LoginRuns.LastCloseLogsOut` | src/fns/sessmgmt.rs:78-85 | Closing the last session of a slot leaves nobody logged in and no session object; closing another leaves the login; no other slot changes. |
| `LoginRuns.LastDropLogsOut` | src/lib.rs:252-264 | Dropping the last session leaves nobody logged in, and no private session object if and only if somebody was logged in or there was none; dropping another leaves the token as it was. |
| `LoginRuns.CloseUndoesOpen` | src/fns/sessmgmt.rs:21-85 | Opening a session and closing it again changes nothing but the next handle. |

## Left out

- LibraryOps.State: setting a token up and changing a PIN are steps on the library as a value; their parts inside the token are proved on its objects.
- LibraryRuns.StepKeepsInv: runs are over the library as a value, whose steps the methods of LibraryOps.State take on the objects; null output pointers and the checks on them are not modelled.
- OpState.AnnouncedSizeSuffices: assumes, as the operations promise, that a saved state is no longer than its reported size and that the cipher's output is as long as its input.
- DedupRuns.RunUniqueExactly: key generation, unwrapping and derivation are insertions, whose objects have unique ids that no builtin has.
- TokenOps.Token.CheckDedup: with the NSS feature CKO_NSS_TRUST counts as a trust class too; this class is not modelled.
- TokenOps.Token.Search: which matches are withheld because the template names sensitive attributes is a parameter.
- TokenOps.Token.Store: the removal of ephemeral attributes before an object is stored is not modelled.
- TokenOps.Token.Update: the removal of ephemeral attributes and failing conversions are not modelled.
- TokenOps.Token.SetObjectAttrs: the removal of ephemeral attributes is not modelled; what the factory says to the attributes, and whether the object can be modified, is a parameter.
- Hotp.HOTPOperation.New: the parsing of the mechanism's parameters, which refuses unknown ones, is not modelled; a counter parameter is given or not.
- Hotp.HOTPOperation.SignFinal: the contents of the header, which hold pointers into the signature, are not modelled.
- HotpProtocol.KeyObject.WriteBack: the counter of a key can also be set by a caller as an attribute, which runs do not do.
- HotpRuns.VerifierNeverPassesSigner: a password overtaken by a later one counts as lost, and what a failed C_Sign has left in the caller's buffer is not used.
- HotpProtocol.VerifyStep: stated, like the runs, for operations that begin at counters up to 2^64-6; beyond that the window arithmetic wraps, which VerifyFinal follows.
- Config.RunKeeps: for runs in which numbers do not run out; CallsCompleteExactly covers all runs.
- Config.RepeatIsNoOp: likewise for runs in which numbers do not run out.
- Hmac.HMACOperation.Internal: output lengths above the hash's are not modelled; no caller asks for one.
- OpenSSL failures (allocation, contexts) and constant-time flags; BIGNUM calls are exact integer operations.
- The hash function, the cipher and their strength: any functions with the right output lengths.
- Raw pointers: a null pointer where the code would read through it is refused with CKR_ATTRIBUTE_VALUE_INVALID; alignment and zeroization are not modelled.
- Template.MergeCoversStored: a stored template whose own members are templates, which the code reads back as memory, is not modelled.
- Template.MergeTwice: likewise for stored templates with templates in them.
- The table of known attributes and its binary search: a map from type to kind.
- usize is 64 bits, and 32- and 64-bit additions wrap as in a release build; object and session handle counters are unbounded.
- Failures of the storage backend on store, search, fetch and update, and its encryption of sensitive attributes, which no template used here mentions.
- The NSS database backend, which has a storage format of its own.
- Parsing of mechanism parameters and the objects an IKE derivation asks for.
- Restoring a saved operation state: that what is encrypted determines the states is proved, the reading of it is not modelled.
- Configuration files, environment variables and the parsing of init arguments: what they parse to is given.
- Search, attribute access and object size on a token, and mechanism filters.
- PIN counters and the token's information flags other than being initialized.
- Locks: each call is one atomic step, as it holds its lock throughout.
- Mechanism and factory tables, which are finite case lists.
