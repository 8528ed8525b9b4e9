# Mini Vault: verified model

Mini Vault is a small secret store: a vault that is unlocked by a passphrase or by
Shamir shares, a Transit service that encrypts under named, rotatable keys, a KV
engine with versioned histories, an access-control file shared by both, accounts with
a lockout policy, and a hash-chained audit log. This project models these components
in Dafny and proves what they are for.

| files | component |
|---|---|
| `Field`, `Polynomial`, `Interpolation` | GF(257), polynomials over it, Lagrange interpolation |
| `Base64`, `Base64Outcomes`, `ShareCodec` | Base64 in both alphabets (sections 4 and 5 of RFC 4648), the text of a share |
| `Sorting`, `Shamir`, `ShamirTheorems`, `ShamirOutcomes` | splitting and combining; reconstruction, secrecy, tampering; what is refused and answered |
| `AuthenticatedEncryption`, `Passphrases`, `VaultCore`, `VaultOutcomes` | abstract authenticated encryption; the passphrase policy; the locked/unlocked vault, and what it answers after any run |
| `Text`, `Policies`, `PolicyTheorems`, `PolicyOutcomes` | e-mail addresses and string order; the policy file and the relation it stands for |
| `Decimal`, `Versions`, `TransitText`, `TransitTextOutcomes`, `TransitStore`, `Transit`, `TransitTheorems`, `TransitReaders`, `TransitRevocation` | ciphertext text, key records, the service, its runs, who can decrypt, what revocation takes away |
| `TransitModel`, `TransitOutcomes` | the map of keys and relation of grants that the service refines; which version encryption uses and who may use a key, from the calls of a run |
| `CanonicalJson`, `JsonTheorems` | canonical JSON text, which determines its value |
| `Audit`, `AuditTheorems`, `AuditFields`, `AuditAppend`, `AuditOutcomes` | the audit log: chain, event fields, appending, and its text field by field |
| `Authentication`, `AuthTheorems`, `AuthOutcomes` | accounts, lockout, sessions, and what each call answers after any run |
| `Kv`, `KvTheorems` | the KV engine and the map of lists it refines |
| `MiniVault`, `SystemTheorems`, `SystemAudit` | vault, Transit service and KV engine with their shared policy file and audit log, across restarts |

Objects whose methods change fields in the program are classes here. Each such method
is proved equal to a step function on values, errors included, and the theorems about
runs are stated about those step functions. What the steps do is stated once more
without them, in the files named `Outcomes` and in the two machines of `TransitModel`
and `KvTheorems`: these write out every limit, field name and text, test ownership and
grants themselves, and speak of the calls made and their answers, not of stored records.

What is assumed is always an explicit hypothesis or parameter:

- Authenticated encryption is a pair of functions. `Aead.Correct()` says that what is
  sealed opens again under the same key, nonce and associated data and is 16 bytes
  longer. `Aead.Exclusive(...)` says that one given envelope opens under no other key;
  it is used only to show which DEK an unlocked vault holds. `Aead.Sole(...)` also
  excludes other associated data; it is used only to show that a reader is refused,
  together with the assumption that the key's material was not drawn for another key.
  `IdealCipherExists` shows that all of these can be met for any one envelope.
- The canonical JSON printer is modelled. The JSON parser and SHA-256 are functions, and
  `Library.Sound()` says that the parser reads back what is printed and that digests are
  64 hexadecimal digits; `SoundLibraryExists` shows that this can be met. Nothing is
  assumed about collisions: the theorem produces one.
- Random values, clock readings, tokens, fresh password hashes and seeds are parameters
  of the calls, so the theorems hold for every choice. Password and one-time-password
  checks are functions given to the service.
- The caller's identity is the result of the session check, `None` when it fails.

Five promises hold only under a condition, which is proved exactly and with an input that
fails it:

- A ciphertext leads a reader back to its key if and only if the reader names the owner
  and, where the text itself names the owner, that address contains neither `:` nor `/`
  (`PrintedTextLeadsBack`, `DecryptsExactlyWhenNamed`). The address pattern admits both:
  what such an owner encrypts naming himself nobody can decrypt
  (`SeparatedOwnerCannotDecrypt`, `SlashInOwnerCannotDecrypt`).
- An owner can encrypt under the bare name of a key if and only if the name does not
  itself start with an address and a slash (`OwnerRoundTrip`; the admitted name x@y.z/k
  fails, `AddressInNameFails`): such a name is read as a key of that address. Naming the
  owner in front helps if and only if his address has no slash (`OwnKeyIsNameable`), and
  the text then printed can be read again if and only if it has no colon either
  (`OwnKeyIsUsable`). The keys left over can be created and shared and never used.
- An appended audit event is read back if and only if none of its keys and texts holds
  U+0085, U+2028 or U+2029 and the file ended in a line feed, in a lone carriage return
  or in no break at all. The printer leaves the three characters unescaped and the reader
  splits on them (`PrintBreaks`), so the append succeeds and the log never verifies again
  (`AppendReadsBack`, `RunReadsBackExactly`, `LineSeparatorDamages`).
- The audit log holds exactly the denials if and only if no denied caller, key name, owner
  or path holds one of these three characters (`LogReadsBackExactly`). Key names with them
  are admitted, so one request for a key the caller does not have makes the log
  unverifiable, and all later denials are lost (`OneRequestDamagesLog`,
  `SeparatorIsAdmittedInNames`, `DamagedLogStays`).
- Combining shares that are accepted fails if and only if some interpolated value is
  256, which no byte is (`CombinedIsConstantTerms`); for every configuration there are
  such shares (`AcceptedSharesCanFail`).

Where `report/report.md` differs from the code, the code is modelled: key names are
unique per owner, not globally, and the version is printed in a ciphertext only when it
is not 1.

## Model

| member | source | states |
|---|---|---|
| `Field.Prime` | src/shamir.py:11 | 257 has no divisor from 2 to 256, so the shares live in a field |
| `Field.Inverse` | src/shamir.py:132-136 | the modular inverse of every element from 1 to 256 exists: the product is 1 in GF(257) |
| `Field.NoZeroDivisors` | src/shamir.py:127-136 | a product vanishes modulo 257 only if a factor does, so no denominator in the formula is zero |
| `Polynomial.ValueIsPowerSum` | src/shamir.py:143-147 | nested evaluation is the textbook sum of coefficients times powers |
| `Polynomial.TooManyRoots` | src/shamir.py:119-136 | a polynomial with as many distinct roots as coefficients is zero |
| `Polynomial.UniquePolynomial` | src/shamir.py:119-136 | two polynomials of degree below K that agree at K points are equal |
| `Interpolation.ProductAtOwnPoint` | src/shamir.py:123-131 | the denominator built from distinct indexes never vanishes |
| `Interpolation.InterpolantIsUnique` | src/shamir.py:119-136 | through K points with distinct abscissas passes exactly one polynomial of degree below K |
| `Interpolation.InterpolantAtZero` | src/shamir.py:119-136 | the Lagrange sum at 0 is the constant term of that polynomial |
| `Interpolation.OrdinateMatters` | src/shamir.py:119-136 | changing one ordinate always changes the constant term |
| `Base64.DecodeEncode` | src/crypto_utils.py:81-93 | decoding undoes encoding in the standard alphabet |
| `Base64.UrlDecodeEncode` | src/shamir.py:150-175 | decoding undoes unpadded URL-safe encoding |
| `Base64.SextetsOfOctets` | src/shamir.py:167-182 | regrouping into bytes and back is the identity exactly on sequences whose left-over bits are zero (section 3.5 of RFC 4648) |
| `Base64.ReencodingAcceptsCanonical` | src/shamir.py:167-184 | the re-encoding test accepts exactly the canonical texts: URL-safe alphabet only, zero pad bits |
| `Base64Outcomes.SextetsAreSixBits` | src/crypto_utils.py:81-84 | the characters stand for the bits of the bytes, six at a time, in order |
| `Base64Outcomes.EncodeIsTable` | src/crypto_utils.py:81-84 | the padded text of any bytes, character by character, from the table of section 4 of RFC 4648 |
| `Base64Outcomes.UrlEncodeIsTable` | src/shamir.py:161 | the unpadded text of any bytes, character by character, from the table of section 5 of RFC 4648 |
| `Base64Outcomes.DecodesExactly` | src/crypto_utils.py:87-93 | decoding accepts exactly whole groups of table characters with at most two `=` at the end, and gives the bytes their bits make |
| `ShareCodec.EncodeShare` | src/shamir.py:150-161 | the byte-building loop yields the text of the share: header, set identifier, big-endian words |
| `ShareCodec.DecodeShareText` | src/shamir.py:150-208 | every valid share decodes from its text to itself |
| `ShareCodec.DecodedTextIsCanonical` | src/shamir.py:164-208 | any accepted text decodes to a valid share and is that share's only text |
| `ShareCodec.ShareTextIsBijective` | src/shamir.py:150-161 | two valid shares have the same text exactly when they are equal |
| `ShareCodec.AcceptedTextIsStrict` | src/shamir.py:164-184 | an accepted text has no padding, no `+` or `/`, and zero pad bits |
| `ShamirOutcomes.SharesDecodeExactly` | src/shamir.py:150-208 | a text decodes to a share exactly when it is the 118 characters of the layout: "MVSS", 1, K, N, the number, the set identifier, 32 big-endian words below 257 |
| `Shamir.Evaluate` | src/shamir.py:143-147 | Horner's loop computes the polynomial's value modulo 257 |
| `Shamir.SplitSecret` | src/shamir.py:53-84 | refuses exactly the bad configurations and lengths, and otherwise returns shares 1 to N, each holding the value of every byte's polynomial at its index |
| `ShamirOutcomes.SplitsExactly` | src/shamir.py:53-84 | splitting accepts exactly 2 <= K <= N <= 255 with 32 and 16 bytes, and the i-th text decodes to K, N, i, the set and each byte's sum of powers at i |
| `Shamir.DecodeShares` | src/shamir.py:107 | succeeds exactly when every text decodes, and then gives all shares in order |
| `Shamir.CheckShares` | src/shamir.py:108-117 | accepts exactly the share lists in which every threshold, number of shares and set identifier is the asked one and no number occurs twice |
| `Shamir.InterpolateAtZero` | src/shamir.py:122-136 | the double loop computes the constant term of the unique polynomial through the selected points |
| `Shamir.InterpolateSecret` | src/shamir.py:120-140 | the bytes of the 32 constant terms, or failure exactly when one of them is 256 |
| `Shamir.CombineShares` | src/shamir.py:87-140 | the secret that the selected shares encode, or failure; on success every text decodes to a share of the asked threshold, number and set |
| `ShamirOutcomes.AcceptedIsOneSet` | src/shamir.py:93-117 | accepted are exactly K or more share texts whose threshold, number of shares and set identifier are the asked ones and whose numbers differ |
| `ShamirOutcomes.ForeignShareIsRefused` | src/shamir.py:109-117 | a share with another threshold, number of shares or set identifier makes combining fail, wherever it stands |
| `ShamirOutcomes.SharesOfOtherSplitAreRefused` | src/shamir.py:109-117 | in particular every share issued by a split under another identifier, threshold or number of shares |
| `ShamirOutcomes.SelectedIsLowest` | src/shamir.py:119 | interpolation uses exactly the K supplied shares with the lowest numbers |
| `ShamirOutcomes.CombinesExactly` | src/shamir.py:87-140 | combining answers the constant terms of the 32 polynomials through those shares; it fails exactly when the texts are not K shares of the one set or such a term is 256 |
| `ShamirOutcomes.AnswerExists` | src/shamir.py:119-136 | for texts of one set there are such shares and polynomials |
| `ShamirTheorems.SharesReconstruct` | src/shamir.py:68-140 | any K or more distinct shares of one split, in any order, combine to exactly the secret |
| `ShamirTheorems.GenuineValuesReconstruct` | src/shamir.py:68-140 | each secret byte is what interpolating genuine values gives |
| `ShamirTheorems.SecretIsConstantTerms` | src/shamir.py:119-140 | for any selected shares, genuine or not, exactly one family of polynomials fits them and its constant terms are the result |
| `ShamirTheorems.CombinedIsConstantTerms` | src/shamir.py:107-140 | the same about the supplied texts; combining accepted shares fails exactly when a constant term is 256 |
| `ShamirTheorems.AcceptedSharesCanFail` | src/shamir.py:137-138 | for every configuration there are valid, accepted share texts that do not combine, because their interpolated values are 256 |
| `ShamirTheorems.FittingPolynomialsExist` | src/shamir.py:119-136 | such a family exists for all usable shares |
| `ShamirTheorems.TamperedPositionOnly` | src/shamir.py:119-136 | replacing one value of one selected share changes the interpolated value at that position and at no other |
| `ShamirTheorems.TamperedSecret` | src/shamir.py:119-140 | two secrets so obtained differ in exactly that byte |
| `ShamirTheorems.TamperingIsConfined` | src/shamir.py:107-140 | re-encoding one selected share with one changed value makes combining fail or change exactly that byte |
| `ShamirTheorems.ExactlyOneRow` | src/shamir.py:68-74 | for each constant term exactly one choice of the other coefficients matches K-1 given points |
| `ShamirTheorems.ExactlyOneNoise` | src/shamir.py:68-74 | perfect secrecy by counting: given K-1 shares' values, each secret is matched by exactly one choice of all coefficients |
| `ShamirTheorems.CoalitionLearnsNothing` | src/shamir.py:68-84 | whatever K-1 shares were dealt from one secret are dealt from any other by exactly one choice of coefficients |
| `VaultCore.MetadataRepository.Create` | src/storage/repository.py:98-141 | creates only if absent and valid; otherwise names the error and changes nothing |
| `VaultCore.Vault.InitializeVault` | src/core/vault.py:51-78 | the new state and answer of passphrase initialization |
| `VaultCore.Vault.InitializeVaultShamir` | src/core/vault.py:109-149 | the new state and answer of Shamir initialization |
| `VaultCore.Vault.UnlockVault` | src/core/vault.py:80-107 | the new state and answer of unlocking with a passphrase |
| `VaultCore.Vault.UnlockVaultWithShares` | src/core/vault.py:151-175 | the new state and answer of unlocking with shares |
| `VaultCore.GetDekAnswersExactly` | src/core/vault.py:189-192 | after any run asking for the DEK gives the one wrapped at creation if the last unlock or restart was a successful unlock, and VaultLocked otherwise |
| `VaultCore.MetadataIsPermanent` | src/storage/repository.py:98-128 | over every run, metadata once set is never altered or removed |
| `VaultCore.UnlockedHoldsWrappedDek` | src/core/vault.py:51-175 | in every reachable unlocked state the DEK is the one wrapped by the call that created the metadata |
| `VaultCore.FailedUnlockLocks` | src/core/vault.py:80-107 | an unlock of either kind fails exactly when the vault ends up locked, and never touches the metadata |
| `VaultCore.ReturnedSharesUnlock` | src/core/vault.py:109-175 | in every later state any K of the returned shares unlock to the original DEK |
| `VaultCore.PassphraseUnlocks` | src/core/vault.py:51-107 | in every later state the original passphrase unlocks to the original DEK |
| `VaultCore.ModesCannotBeCrossed` | src/core/vault.py:80-175 | metadata of one mode is never unlocked through the other |
| `Passphrases.StrongMeetsPolicy` | src/crypto_utils.py:59-78 | accepted passphrases have at least twelve characters, of all four kinds |
| `VaultOutcomes.MetadataExactly` | src/crypto_utils.py:211-272 | the lengths and ranges the metadata file admits |
| `VaultOutcomes.MetadataIsWritten` | src/core/vault.py:51-149 | after any run there is metadata exactly when a call answered that it initialized, and it is what that call wrote, parameter by parameter |
| `VaultOutcomes.InitializesExactly` | src/core/vault.py:51-149 | after any run initialization succeeds exactly when none did before, the passphrase meets the policy or 2 <= K <= N <= 255, and the file can be written; otherwise the error says which |
| `VaultOutcomes.UnlocksExactly` | src/core/vault.py:80-175 | after any run a passphrase unlocks exactly when the initializing call gave one that derives the same key, and shares exactly when they combine to the key drawn there |
| `VaultOutcomes.NothingToUnlock` | src/core/vault.py:80-175 | a vault never initialized is never unlocked |
| `Policies.NormalizedIsValid` | src/policy.py:40-57 | a normalized list is ascending, non-empty, allowed, and names exactly the given permissions |
| `Text.SpacesExactly` | src/policy.py:24 | the 29 characters that count as white space |
| `Text.StripsExactly` | src/policy.py:34 | stripping removes exactly the outer white space |
| `Text.CasesExactly` | src/policy.py:34-54 | changing case swaps the letters A to Z and a to z and nothing else |
| `Text.AddressesExactly` | src/policy.py:24 | an address is a name, `@`, and two parts with a `.` between, none empty, without white space or another `@` |
| `Text.CanonicalizesExactly` | src/policy.py:31-37 | an address with white space around it and in any case stands for its lower-case form, and nothing else is accepted |
| `Text.LessExactly` | src/policy.py:153-156 | texts are ordered by the first character in which they differ, a text after its own beginning |
| `PolicyOutcomes.AcceptsExactly` | src/policy.py:40-57 | permission lists are accepted exactly when non-empty and each text, stripped and in capitals, is allowed |
| `PolicyOutcomes.NormalizesTo` | src/policy.py:57 | the result holds exactly the mentioned permissions, in alphabetical order |
| `Policies.ValidatePolicyStore` | src/policy.py:60-110 | the validator's loop accepts exactly the documents with valid policies and distinct resources |
| `Policies.ValidateGrants` | src/policy.py:97-109 | the loop over principals accepts exactly valid grant tables |
| `Policies.PolicyRepository.Grant` | src/policy.py:130-157 | the new document and answer of a grant |
| `Policies.PolicyRepository.Revoke` | src/policy.py:159-186 | the new document and answer of a revocation |
| `Policies.PolicyRepository.Allows` | src/policy.py:188-199 | the answer of an access check |
| `Policies.PolicyRepository.DeleteResource` | src/policy.py:223-238 | the new document after deleting a resource |
| `PolicyTheorems.GrantRefines` | src/policy.py:130-157 | a grant adds exactly the named tuples and keeps the canonical form |
| `PolicyTheorems.RevokeRefines` | src/policy.py:159-186 | a revocation removes exactly the named tuples, or all of the principal's |
| `PolicyTheorems.DeleteRefines` | src/policy.py:223-238 | deleting a resource removes exactly its tuples |
| `PolicyTheorems.GrantStepRefines` | src/policy.py:130-157 | a call succeeds exactly when its arguments are acceptable, and means the relation's union |
| `PolicyTheorems.RevokeStepRefines` | src/policy.py:159-186 | the same for revocation |
| `PolicyTheorems.DeleteStepRefines` | src/policy.py:223-238 | deletion always succeeds on a canonical document |
| `PolicyTheorems.GrantReplyIsNewList` | src/policy.py:150-157 | what a grant returns is the principal's new list |
| `PolicyTheorems.RevokeReplyIsNewList` | src/policy.py:175-186 | what a revocation returns is what the principal keeps |
| `PolicyTheorems.RunRefines` | src/policy.py:130-238 | every run of the repository refines the run on relations; the validator accepts every document on the way |
| `PolicyTheorems.DocumentIsDetermined` | src/policy.py:60-110 | a relation has at most one canonical document |
| `PolicyTheorems.OrderDoesNotMatter` | src/policy.py:130-238 | from the empty store, two call sequences with the same resulting grants leave the same document |
| `PolicyTheorems.ListSharedIsTranspose` | src/policy.py:211-221 | an entry is listed for a principal exactly when the resource's access list has it |
| `PolicyTheorems.ListSharedInOrder` | src/policy.py:211-221 | each entry is listed once, in the order of the document |
| `PolicyTheorems.AllowsIsMembership` | src/policy.py:188-199 | an access check asks whether the tuple is in the relation |
| `PolicyOutcomes.GrantsExactly` | src/policy.py:130-157 | a grant is refused exactly for a bad resource, address or permission, or the owner himself; otherwise it adds exactly the mentioned permissions and answers all of the principal's, in order |
| `PolicyOutcomes.RevokesExactly` | src/policy.py:159-186 | the same for a revocation of the mentioned or of all permissions |
| `PolicyOutcomes.AllowsExactly` | src/policy.py:188-199 | a check answers membership in the relation for the permissions there are, and an error for any other text |
| `PolicyOutcomes.CanonicalExactly` | src/policy.py:60-156 | which documents are written: order, addresses, permissions spelled out |
| `PolicyOutcomes.RelationIsWellFormed` | src/policy.py:60-110 | only permissions there are, of addresses other than the owner's, are ever granted |
| `Decimal.ParsePrint` | src/transit/service.py:482-496 | a printed version number parses to itself |
| `Decimal.PrintsDecimally` | src/transit/service.py:462 | version numbers are printed in decimal digits without leading zeros |
| `TransitText.ParsePrinted` | src/transit/service.py:454-508 | printed text whose identifier has no colon splits into the same identifier, version and payload, in both forms |
| `TransitText.QualifiedTextReadsBack` | src/transit/service.py:454-508 | a text that names its owner is read back exactly when the owner's address has neither `:` nor `/` |
| `TransitText.PrintedParses` | src/transit/service.py:454-508 | a printed text parses to what was printed, unless it names an owner with a colon, and then not at all |
| `TransitText.PrintedTextLeadsBack` | src/transit/service.py:454-508 | for every resolved reference, version and payload, the printed text leads a reader back to its key exactly when the reader names the owner |
| `TransitReaders.SeparatedOwnerCannotDecrypt` | src/transit/service.py:454-587 | an owner whose address has a `:` or `/` who names himself gets a ciphertext, exactly when the key's name does not start with an address and a slash, and nobody can decrypt it |
| `TransitReaders.SlashInOwnerCannotDecrypt` | src/policy.py:24 | the admitted address a/b@c.d is such an owner |
| `TransitText.EmbeddedOwnerHasNoSeparators` | src/transit/service.py:630-637 | an owner read out of a text never contains a separator |
| `TransitText.PrintedIdentifierResolves` | src/transit/service.py:621-651 | an identifier without colons resolves to the same owner and key exactly when the reader names the owner |
| `TransitText.CiphertextAadIsInjective` | src/transit/service.py:679-684 | different names or versions never share associated data |
| `TransitTextOutcomes.NamesExactly` | src/transit/service.py:394-397 | a key name is non-empty, without white space at its ends and without a colon |
| `TransitTextOutcomes.ReferencesExactly` | src/transit/service.py:621-651 | what a reference denotes: the owner and name it starts with, else a name of the given owner or the caller; no key for a bad or conflicting owner |
| `TransitTextOutcomes.CiphertextsExactly` | src/transit/service.py:477-502 | exactly the two forms vault:reference:payload and vault:reference:vN:payload are read |
| `TransitTextOutcomes.PrintsExactly` | src/transit/service.py:454-462 | what is printed, character by character |
| `TransitTextOutcomes.AadsExactly` | src/transit/service.py:679-684 | the associated data of a ciphertext, character by character |
| `TransitStore.ValidateTransitKeyStore` | src/storage/repository.py:202-271 | the validator's loop accepts exactly stores of valid records with unique owner and name |
| `TransitStore.RecordsExactly` | src/storage/repository.py:202-271 | the records admitted: envelopes of 60 bytes, versions numbered from 1 without gaps, one signing algorithm, public keys of 32 bytes |
| `TransitStore.MaterialOfIsIndexing` | src/storage/repository.py:217-250 | in both record shapes versions are 1 to latest and look-up by version is indexing in one list |
| `TransitStore.RotationAppends` | src/transit/service.py:159-192 | rotation appends exactly one version and keeps all earlier material, migrating the legacy shape |
| `TransitStore.TransitKeyRepository.CreateKey` | src/storage/repository.py:291-301 | the new store and answer of creating a record |
| `TransitStore.TransitKeyRepository.ReplaceKey` | src/storage/repository.py:303-316 | the new store and answer of replacing a record |
| `TransitStore.TransitKeyRepository.DeleteKey` | src/storage/repository.py:331-341 | the new store and answer of deleting a record |
| `TransitStore.CreateLookup` | src/storage/repository.py:291-301 | creating leaves the look-up of all other keys alone |
| `TransitStore.ReplaceLookup` | src/storage/repository.py:303-316 | replacing changes the look-up of exactly that key |
| `TransitStore.DeleteLookup` | src/storage/repository.py:331-341 | deleting removes the look-up of exactly that key |
| `AuthenticatedEncryption.IdealCipherExists` | src/kv/crypto_utils.py:15-41 | for every envelope a correct cipher exists that opens it in one way only |
| `Transit.UnwrapWrapped` | src/transit/service.py:547-582 | wrapped key material unwraps under the same associated data and is a valid envelope |
| `Transit.TransitService.CreateKey` | src/transit/service.py:91-111 | the new state and answer of creating an encryption key |
| `Transit.TransitService.CreateSigningKey` | src/transit/service.py:686-728 | the new state and answer of creating a signing key |
| `Transit.TransitService.RotateKey` | src/transit/service.py:134-197 | the new state and answer of a rotation, denials logged |
| `Transit.TransitService.RevokeKey` | src/transit/service.py:124-132 | the new state and answer of revoking a key |
| `Transit.TransitService.GrantKeyAccess` | src/transit/service.py:230-263 | the new state and answer of sharing a key |
| `Transit.TransitService.RevokeKeyAccess` | src/transit/service.py:280-318 | the new state and answer of withdrawing access |
| `Transit.TransitService.GetAuthorizedKey` | src/transit/service.py:589-610 | the record, for the owner and for callers the policy allows this use; others are denied and that is logged, also for a missing key |
| `Transit.TransitService.LoadEncryptionKey` | src/transit/service.py:531-587 | the unwrapped key of the asked version, of the latest where none is asked for, or the error |
| `Transit.TransitService.Encrypt` | src/transit/service.py:417-462 | the state and answer of encrypting |
| `Transit.TransitService.Decrypt` | src/transit/service.py:464-529 | the state and answer of decrypting |
| `Transit.TransitService.ListSharedKeys` | src/transit/service.py:359-384 | the sorted list of keys shared with the caller |
| `TransitTheorems.RotateKeeps` | src/transit/service.py:159-192 | rotating a key of a reachable state always succeeds, keeps the invariant and changes the look-up of that key only |
| `TransitTheorems.StepKeepsInvariant` | src/transit/service.py:91-318 | every call keeps: valid stores, every version unwraps under its own associated data, every Transit grant is on an existing key and fits its usage |
| `TransitTheorems.RunKeepsInvariant` | src/transit/service.py:91-318 | so does every run, and a key nobody revokes keeps all its material |
| `TransitTheorems.LoadedStaysLoadable` | src/transit/service.py:531-587 | a version once used for encryption loads as the same key for any authorized reader while it is kept |
| `TransitTheorems.IssuedTextResolves` | src/transit/service.py:454-508 | an issued text leads a reader to the same key, version and envelope exactly when the reader names the owner |
| `TransitTheorems.CiphertextStaysDecryptable` | src/transit/service.py:417-529 | from any reachable state: a ciphertext decrypts to the canonical Base64 of its bytes in every later state until its key is revoked |
| `TransitTheorems.EveryIssuedCiphertextDecrypts` | src/transit/service.py:417-529 | the same over every run from empty stores, however many rotations, grants and other calls come before and after |
| `TransitModel.StepRefines` | src/transit/service.py:91-529 | one call: the service does and answers what a map from owners and names to lists of key material with a relation of grants does, which tests ownership and grants itself and prints its own texts; the records hold exactly the wrapped material |
| `TransitModel.RunRefines` | src/transit/service.py:91-529 | every run of the service represents the run of that machine |
| `TransitModel.AnswersRefine` | src/transit/service.py:91-529 | and every answer in the run is that machine's |
| `TransitOutcomes.VersionsCountRotations` | src/transit/service.py:159-197 | in every run a key has one version more than successful rotations since its creation |
| `TransitOutcomes.EncryptsExactly` | src/transit/service.py:417-462 | after any run: a caller who neither owns the key nor holds ENCRYPT in the relation is denied, with exactly one denial recorded; an entitled one gets the text sealed under the material last drawn by a creation or rotation, with version 1 plus the number of rotations |
| `TransitOutcomes.PrintedVersionCounts` | src/transit/service.py:454-502 | the version read back from an issued text is 1 plus the number of successful rotations before it |
| `TransitOutcomes.DecryptsExactly` | src/transit/service.py:464-529 | after any run: a caller who neither owns the key nor holds DECRYPT is denied, with exactly one denial recorded; an entitled one gets what the material drawn for the printed version opens, or an error |
| `TransitOutcomes.RotationAnswersExactly` | src/transit/service.py:134-197 | a successful rotation answers the number of versions there now are |
| `TransitOutcomes.SharesExactly` | src/transit/service.py:230-263 | sharing succeeds for the key's owner only and adds exactly the mentioned permissions of the named address on that key |
| `TransitOutcomes.WithdrawsExactly` | src/transit/service.py:280-318 | withdrawing takes away exactly these, or all |
| `TransitText.BareNameIsOwn` | src/transit/service.py:621-651 | a bare name denotes the caller's own key of that name exactly when it does not start with an address and a slash |
| `TransitText.OwnKeyIsNameable` | src/transit/service.py:621-651 | some reference denotes an owner's key for himself exactly when its name does not start with an address and a slash or his address has no slash |
| `TransitText.OwnKeyIsUsable` | src/transit/service.py:454-508 | and some reading of the text printed for it leads him back exactly when the name does not start so or his address has neither separator |
| `TransitReaders.OwnerRoundTrip` | src/transit/service.py:91-529 | whoever creates a key can encrypt under its bare name exactly when the name does not start with an address and a slash, and then, whatever calls follow short of revoking it, decrypt the text |
| `TransitReaders.OwnerRoundTripBy` | src/transit/service.py:417-529 | in every reachable state the owner of an encryption key can encrypt by each reference that denotes it and later decrypt by each reading that names him |
| `TransitReaders.AddressInNameFails` | src/transit/service.py:394-397 | the admitted key name x@y.z/k can be created and not used under its name |
| `TransitReaders.MisnamedDecryptFails` | src/transit/service.py:464-529 | a reader who does not name the owner gets an error, given an ideal cipher |
| `TransitReaders.DecryptsExactlyWhenNamed` | src/transit/service.py:417-529 | for an authorized caller, in every later state without revocation, decrypting gives the original bytes exactly when the caller names the owner, and an error otherwise |
| `MiniVault.RunProjects` | src/core/vault.py:51-175 | in every run of the whole store the vault and the Transit service run as alone, among the other component's calls on the one policy file |
| `SystemTheorems.OneDek` | src/core/vault.py:189-192 | at every moment of a run the vault is locked or holds the DEK wrapped when the metadata was created |
| `SystemTheorems.LockedStoreIsStill` | src/transit/service.py:82-89 | until someone tries to unlock it, a locked store changes neither keys, secrets, grants nor log in any run, and answers every Transit call VAULT_LOCKED |
| `SystemTheorems.CiphertextSurvivesRestarts` | src/transit/service.py:417-529 | over every run of the whole store from an empty directory, a ciphertext decrypts whenever the vault is unlocked again, through restarts, failed unlocks, KV calls and other Transit calls |
| `TransitTheorems.RevokedKeyIsDenied` | src/transit/service.py:124-132 | right after revocation nobody gets past authorization for any use of that key, its owner included |
| `TransitRevocation.StepHolds` | src/transit/service.py:91-197 | key material spreads only by being drawn: no call puts it under another owner or name |
| `TransitRevocation.RevokedCiphertextIsLost` | src/transit/service.py:124-132 | over every run from empty stores, a text issued under a key decrypts for nobody in any state after the key's revocation, also after the name is created again |
| `TransitTheorems.AuthorizedEncryptSucceeds` | src/transit/service.py:417-462 | in every reachable state an authorized caller gets a ciphertext |
| `TransitTheorems.NewKeyHasNoGrants` | src/transit/service.py:124-132 | a key created under a free name, also again after revocation, starts without grants |
| `TransitTheorems.SharedEntryIsKept` | src/transit/service.py:364-383 | no entry of the shared list is dropped and no permission removed |
| `Sorting.SortAscending` | src/policy.py:153-156 | sorting pairwise comparable elements gives them strictly ascending |
| `TransitTheorems.SortSharedOrdered` | src/transit/service.py:384 | for any collected keys, the result is sorted by owner and name and holds exactly them |
| `TransitTheorems.SharedListIsComplete` | src/transit/service.py:359-391 | the shared list shows exactly the caller's policy entries, in full, each once, sorted by owner and name |
| `TransitOutcomes.ListsExactly` | src/transit/service.py:359-384 | after any run the list holds a key exactly when the relation grants the caller something on it, with exactly these permissions and its usage, ordered by owner and name |
| `TransitOutcomes.ListRefusals` | src/transit/service.py:82-89 | nothing is listed while the vault is locked or without a session |
| `TransitTheorems.KvPolicyCallKeeps` | src/kv/kv_engine.py:104-110 | calls of the KV engine on the shared policy file keep the Transit invariant |
| `Audit.AuditLog.ReadVerified` | src/audit.py:105-155 | the reading loop returns the verified entries, or fails, as the chain rule says |
| `Audit.AuditLog.Append` | src/audit.py:56-103 | the new text and answer of an append |
| `Audit.AuditLog.Verify` | src/audit.py:157-162 | true exactly when reading succeeds |
| `AuditTheorems.VerifySplits` | src/audit.py:115-155 | verifying a list of lines is verifying its parts one after the other |
| `AuditTheorems.VerifiedIsChain` | src/audit.py:115-155 | verified lines are the canonical texts of entries numbered from 1 and linked by hashes |
| `AuditTheorems.VerifiesExactlyChains` | src/audit.py:115-155 | and, conversely, the canonical texts of every such chain verify |
| `AuditTheorems.SoundLibraryExists` | src/audit.py:29-42 | a parser that reads back every printed entry can exist |
| `CanonicalJson.SortedKeysAscending` | src/audit.py:32 | keys are printed in ascending order, each once |
| `JsonTheorems.PrintUnique` | src/audit.py:29-36 | printed JSON followed by anything that is not a digit is read in one way only, so the text determines the value |
| `AuditTheorems.OnlyPrefixesVerify` | src/audit.py:115-155 | lines drawn in any way from a verified log verify exactly when they are a prefix of it, whatever the hash |
| `AuditTheorems.FindCollision` | src/audit.py:79-89 | two different chains with the same head hash contain two different entry bodies with the same hash |
| `AuditTheorems.FindTextCollision` | src/audit.py:39-42 | it is a collision of SHA-256 itself: two different texts with one digest |
| `AuditTheorems.HeadDeterminesLog` | src/audit.py:79-155 | if the two logs contain no such pair, equal heads mean equal lines |
| `AuditAppend.ExtendedLines` | src/audit.py:92-103 | the lines after an append: the old, one empty line when the text did not end well, the new |
| `AuditAppend.AppendReadsBack` | src/audit.py:67-155 | one append to a verified log reads back as the old entries and the new one when the text ended well and no event field holds U+0085, U+2028 or U+2029; in every other case the log does not verify any more |
| `AuditFields.PrintBreaks` | src/audit.py:29-36 | printed JSON has a line break exactly when some key or text in the value holds U+0085, U+2028 or U+2029 |
| `AuditFields.EntryBreaks` | src/audit.py:79-89 | the text of an appended entry has a line break exactly when the caller's event fields hold one of the three |
| `AuditAppend.LineSeparatorDamages` | src/audit.py:34-117 | an accepted event, named U+2028, after which the log does not verify |
| `AuditAppend.RunSurvivesLostNewline` | src/audit.py:92-155 | the log of a run with clean event fields is a chain, and reads back the same when its final newline is lost |
| `AuditAppend.RunReadsBackExactly` | src/audit.py:67-155 | a run of appends to a verified log reads back as exactly the written entries when the text ended well before it and all event fields are clean; in every other case the log ends up unverifiable |
| `AuditAppend.DamagedChainIsNotExtended` | src/audit.py:67 | no run of appends over a damaged chain changes the text |
| `AuditOutcomes.PrintsExactly` | src/audit.py:29-36 | canonical JSON kind by kind: members in the order of their keys, commas and colons, nothing else |
| `AuditOutcomes.EscapesExactly` | src/audit.py:29-36 | what stands in quoted text for each character |
| `AuditOutcomes.QuotesExactly` | src/audit.py:29-36 | quoted text is quotation marks around what stands for its characters |
| `AuditOutcomes.LinesExactly` | src/audit.py:117 | how a text is split at the ten line breaks, a carriage return and line feed as one |
| `AuditOutcomes.ReadsExactly` | src/audit.py:105-155 | lines verify exactly as the texts of entries that each hold event, time, number, the hash before (zeros first) and the hash of their own text |
| `AuditOutcomes.AppendsExactly` | src/audit.py:56-103 | an append is refused exactly for an event without a name or with one of the four reserved fields, or on a damaged log; else it adds the text of an entry with exactly the caller's fields and these four |
| `SystemAudit.DenialsAreRecorded` | src/transit/service.py:653-677 | the denials of a run are those the two services have recorded, at most one a call |
| `SystemAudit.LogReadsBackExactly` | src/transit/service.py:670-676 | over every run of the whole store the audit log reads back as exactly the denials, in order, when no denied caller, key name, owner or path holds U+0085, U+2028 or U+2029, and does not verify otherwise |
| `SystemAudit.LogNamesDenials` | src/transit/service.py:653-677 | a clean log has one entry for each denial, numbered and timed, that names requester and key, or operation, path, requester and owner, under their field names |
| `SystemAudit.OneRequestDamagesLog` | src/transit/service.py:653-677 | asking to encrypt under a valid name that holds one of the three, of a key one does not have, makes the log unverifiable |
| `SystemAudit.SeparatorIsAdmittedInNames` | src/transit/service.py:394-397 | such a name is admitted |
| `SystemAudit.DamagedLogStays` | src/kv/kv_engine.py:42-54 | a log that does not verify is not changed by any run: later denials are lost |
| `SystemAudit.AddressIsClean` | src/policy.py:24 | an address never holds one of the three, which count as white space |
| `Authentication.UserRepository.CreateAccount` | src/storage/repository.py:171-184 | adds the account exactly when the address is free |
| `Authentication.AuthService.Register` | src/auth/service.py:50-61 | the new state and answer of a registration |
| `Authentication.AuthService.RejectAuthentication` | src/auth/service.py:162-172 | one more failure; locked for five minutes from the fifth on |
| `Authentication.AuthService.Login` | src/auth/service.py:63-99 | the new state and answer of a login; a token only for the stored passphrase and, with MFA, the one-time password |
| `Authentication.AuthService.EnableMfa` | src/auth/service.py:101-134 | the new state and answer of enabling MFA |
| `Authentication.AuthService.ValidateSession` | src/auth/service.py:141-148 | the new state and answer of a session check |
| `AuthTheorems.RunCounts` | src/auth/service.py:70-130 | in every reachable state the stored counter is the number of failures observed since the last reset, and the lock is set exactly from the fifth on |
| `AuthTheorems.FailureRateBound` | src/auth/service.py:162-171 | from the fifth failure since the last reset on, the m-th comes at least (m-n) times 300 seconds after the n-th, whatever the clock does |
| `AuthTheorems.LockedExactlyAfterFailures` | src/auth/service.py:70-73 | an attempt is refused as locked exactly within 300 seconds of the last of at least five observed failures, and then changes nothing |
| `AuthTheorems.OthersUntouched` | src/storage/repository.py:186-196 | a call about other accounts leaves an account as it was |
| `AuthTheorems.SessionHasLogin` | src/auth/service.py:95-99 | in every run each session was made by a successful login of its account |
| `AuthTheorems.IdentityLoggedIn` | src/auth/service.py:141-148 | whoever a token is accepted for logged in with it less than 30 minutes before |
| `AuthTheorems.RunKeepsFactors` | src/auth/service.py:92-130 | in every run password hash and, once set, the second factor stay the same |
| `AuthTheorems.SecondFactorIsPermanent` | src/auth/service.py:77-134 | once MFA is enabled every later successful login gave a valid one-time password for that seed and the registered passphrase |
| `AuthOutcomes.RunShows` | src/auth/service.py:50-134 | stored hash and seed are those given by the calls that registered the address and enabled MFA |
| `AuthOutcomes.LoginsExactly` | src/auth/service.py:63-99 | after any run a login of a registered address that is not locked out answers a token exactly when the passphrase matches the hash of its registration, with MFA enabled the one-time password matches the seed given then, and the token is not empty; rejected credentials are one more failure |
| `AuthOutcomes.EnablesExactly` | src/auth/service.py:101-134 | the same for enabling MFA, which an account can do once |
| `AuthOutcomes.RegistersExactly` | src/auth/service.py:50-61 | registration succeeds exactly for a free address and a confirmed passphrase that meets the policy |
| `AuthOutcomes.SessionsExactly` | src/auth/service.py:141-148 | a token stands for whoever last logged in with it, for half an hour, unless the service was restarted or the token refused since |
| `Kv.OpenedSealed` | src/kv/kv_engine.py:173-179 | a stored version opens to the data it was made from |
| `Kv.KVEngine.Authorize` | src/kv/kv_engine.py:64-81 | owner or granted caller; otherwise the error, denials logged |
| `Kv.KVEngine.Write` | src/kv/kv_engine.py:170-211 | the new state and answer of a write |
| `Kv.KVEngine.Read` | src/kv/kv_engine.py:213-236 | the state and answer of a read |
| `Kv.KVEngine.Delete` | src/kv/kv_engine.py:238-247 | the new state and answer of a deletion |
| `Kv.KVEngine.GrantAccess` | src/kv/kv_engine.py:94-116 | the new state and answer of a grant, which only the path's owner can make |
| `Kv.KVEngine.RevokeAccess` | src/kv/kv_engine.py:118-140 | the new state and answer of a revocation, which only the path's owner can make |
| `Kv.KVEngine.GetAcl` | src/kv/kv_engine.py:142-150 | the access list for the path's owner, or the error |
| `Kv.KVEngine.ListShared` | src/kv/kv_engine.py:152-164 | what is shared with the caller |
| `Versions.FindNumbered` | src/kv/kv_engine.py:223-226 | in a numbered history the search finds exactly the numbered entry |
| `KvTheorems.StepRefines` | src/kv/kv_engine.py:64-247 | one call: the engine does and answers what a map from paths to lists of plaintexts with a relation of grants does, which tests ownership and grants itself |
| `KvTheorems.RunRefines` | src/kv/kv_engine.py:64-247 | every run of the engine represents the run of that machine |
| `KvTheorems.AnswersRefine` | src/kv/kv_engine.py:64-247 | and every answer in the run is that machine's |
| `KvTheorems.ReadGivesWritten` | src/kv/kv_engine.py:213-236 | after any run an authorized read of version v returns the v-th successful write since the last deletion, by default the last; anything else is NOT_FOUND or VERSION_NOT_FOUND |
| `SystemTheorems.KvReadSurvivesRestarts` | src/kv/kv_engine.py:213-236 | over every run of the whole store, whenever the vault is unlocked an authorized read gives the writes since the path's last deletion, through restarts, unlocks and Transit calls |
| `KvTheorems.LatestVersionCountsWrites` | src/kv/kv_engine.py:183-205 | a path exists exactly when written since its last deletion, and its latest version is the length of its history and the number of those writes |
| `KvTheorems.OtherPathsUntouched` | src/kv/kv_engine.py:203-205 | only writing or deleting a path touches what is stored there |
| `KvTheorems.GrantsNameExistingPaths` | src/kv/kv_engine.py:238-247 | in every reachable state each KV grant names an existing path under that path's owner, so none survives a deletion |
| `KvTheorems.OnlyOwnerCreates` | src/kv/kv_engine.py:64-81 | a write to an absent path succeeds exactly for the path's owner |
| `KvTheorems.OwnerCallsExactly` | src/kv/kv_engine.py:83-150 | sharing, withdrawing and reading the access list of a path answer anyone but its owner with the refusal and change nothing; a denial names the operation, the path, the caller and the owner |
| `KvTheorems.OwnerSharesExactly` | src/kv/kv_engine.py:94-140 | for the owner they change exactly the mentioned permissions of the named address on that path |
| `KvTheorems.StoredExactly` | src/kv/kv_engine.py:173-201 | a stored version holds its number, time, nonce and what the cipher returned, cut before the last 16 bytes |
| `KvTheorems.SharedListsRelation` | src/kv/kv_engine.py:152-164 | the shared list shows a grant exactly when the relation has it |
| `KvTheorems.PathOwnerIsSecondSegment` | src/kv/kv_engine.py:56-62 | a path is accepted with an owner exactly when it is "secret", that owner without slashes, and a rest, joined by slashes |

## Left out

- Command line, HTTP interface and demo: prompts, menus and status codes.
- The forwarding branches of the Transit and KV services, and the placeholder service in `src/kv/service.py`.
- `sign` and `verify`, and the inside of AES-GCM, SHA-256, Argon2, Ed25519 and TOTP: foreign calls.
- Listing one's own keys and key versions, one key's access list, and the verify-access variants of grant and revoke: each reads or forwards what is modelled.
- The schema and algorithm names checked in vault metadata, the field checks on stored accounts, and the Base64 form of metadata fields; metadata and accounts are typed values. Lengths and ranges in metadata and the passphrase policy (for ASCII) are modelled.
- Type checks at run time: arguments have the types the program expects.
- Unicode letter case: case folding changes ASCII letters only. String order compares characters.
- KV plaintexts are byte strings; their UTF-8 encoding is not modelled.
- Times are integers; their ISO text form is not modelled.
- Python's Base64 decoder in validating mode accepts some misplaced padding in some versions; the model decodes strictly as RFC 4648 says.
- JSON numbers other than integers, keys that are not strings and text with lone surrogates in audit events. The clock's ISO text is any text of digits and `-:.TZ`.
- Files are values replaced in one step. Temporary files, crashes, concurrent processes and unreadable or hand-edited files are not modelled, nor is a directory that cannot be synchronized after the metadata was linked; a disk failure while creating the metadata leaves none.
- The plain-text access logs that denials are also written to.
- Python's limit on the number of digits it converts to an integer.
