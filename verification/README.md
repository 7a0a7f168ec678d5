# Verified model of the SwornMail Mode-2 verifier

This project models the local verification pipeline of the `swornmail` crate in Dafny and proves
what its verdicts mean. A Mode-2 token is a tagged COSE_Sign1 object over a CBOR payload in which an
operator attests that a connecting IPv6 address lies in a prefix it answers for. The verifier reads
the token, checks it against the connection, authorizes the signed prefix against the operator's
policy record and only then checks the signature.

| file | models |
|---|---|
| `Bits.dfy`, `Address.dfy` | the `u128` mask and prefix arithmetic, and the address sets it stands for |
| `PrefixText.dfy` | prefixes and decimal numbers in presentation form |
| `Text.dfy`, `Names.dfy` | splitting and trimming; operator domains, selectors and record names |
| `AssocLists.dfy` | wire-ordered lists with distinct keys, shared by headers, payload maps and tags |
| `Cbor.dfy`, `Cose.dfy` | CBOR values, the `Sig_structure` octets, COSE_Sign1 and its header rules |
| `Payloads.dfy`, `TaggedFields.dfy` | the two passes over the payload |
| `Tags.dfy`, `Rua.dfy`, `Policies.dfy` | the record grammar, report destinations, policy records |
| `Verifier.dfy` | the staged verifier |
| `Guarantees.dfy`, `Runs.dfy` | what a verdict guarantees, and over whole runs |
| `Reasons.dfy`, `Faults.dfy` | the checks a verification makes and their order; which one a failure reports |
| `Completeness.dfy` | that an honest token passes |

Each loop of the program (`Payload::from_value`, `Headers::from_value`, `parse_tags`, the capped
prefix loop) and each piece of cursor or buffer handling (`CoseSign1::parse`, `to_be_signed`) is a
method proved equal to a function; the theorems are about those functions. The rest of the program
is expressions and is modelled by functions. `Verifier.VerifyExcluding` is the staged flow a receiver
with exclusions of its own follows (`parse_excluding`, `authorize`, `verify_signature`); `verify` is
that flow with no exclusions, so the theorems about verdicts are stated for the staged flow.

`src/reason.rs` calls the order of the reasons advisory; the code has one order, and it is the one
proved (`Faults.VerdictIsFirstFailure`). Neighbouring tests that give the same reason are one check
there, such as the three rules on header buckets.

## Assumptions

Code the crate does not contain is a parameter of the model, so every theorem holds for any
behaviour of it that meets what is said here.

- `Cbor.Library.read` is the CBOR decoder: the item at the front of some octets and the number of
  octets taken, with bignums still tagged. `Cbor.Library.fold` says which tagged byte strings the
  decoder's value type turns into integers; nothing is assumed about which they are.
- The tag-keeping decode of the payload sees the same items, reads a key as an integer when it folds
  to one, and keeps the last entry of a repeated key.
- The encoder writes the `Sig_structure` with definite lengths and shortest heads (RFC 8949,
  section 3.1); `Cbor.Encoded` spells those octets out.
- `Verifier.Backend.strict` is strict Ed25519 verification; nothing is assumed about it.
- `PrefixText.AddressCodec` is the IPv6 text form. Where a policy is published and read back, the
  text is assumed to read back and to consist of letters, digits, colons and dots (`Faithful`).
- An octet string has fewer than 2^64 octets, the most a CBOR head can announce.

## Model

| member | source | states |
|---|---|---|
| Bits.AndIsBitwise | src/address.rs:157-165 | the model's conjunction agrees with the conjunction of bits at every position |
| Address.MaskRoundsDown | src/address.rs:157-165 | the shift-and-complement mask rounds down to a multiple of 2^(128-len), and is the identity from 128 on |
| Address.MaskOfMask | src/address.rs:157-165 | masking twice is masking to the shorter length |
| Address.MaskedIsCanonical | src/address.rs:75-86 | a masked prefix is canonical and has the same address set |
| Address.AddrSetIsInterval | src/address.rs:75-91 | the addresses that share a prefix's top bits are an aligned interval of 2^(128-len) |
| Address.ContainsIsMembership | src/address.rs:88-91 | `contains` is membership in that address set |
| Address.NestedOrDisjoint | src/address.rs:88-97 | any two prefixes are nested or disjoint as address sets |
| Address.OverlapsIsIntersection | src/address.rs:93-97 | `overlaps` holds exactly when the address sets intersect |
| Address.InclusionIsContainment | src/address.rs:88-97 | inclusion of address sets is exactly the length test plus the address test |
| Address.TopBitsAre001 | src/address.rs:17-18 | the global-unicast test is the interval of 2000::/3 |
| Address.TransitionRanges | src/address.rs:19-22 | the Teredo and 6to4 tests are their intervals |
| Address.AttestableMeaning | src/address.rs:99-107 | attestable means aligned, 32 to 64 bits, inside global unicast and disjoint from Teredo and 6to4 |
| Address.EligibleSourceMeaning | src/address.rs:167-176 | the six-range scan means inside 2000::/3 and outside Teredo and 6to4; the first four ranges are redundant |
| Address.AttestableMeansEligible | src/address.rs:99-107 | every address of an attestable prefix is an eligible source |
| Address.SubPrefixAttestable | src/address.rs:99-107 | masking a member to a length up to 64 gives an attestable prefix inside the first |
| PrefixText.DecimalIsCanonical | src/address.rs:139-154 | a record number has exactly one accepted text, its plain decimal form |
| PrefixText.PrefixReadsBack | src/address.rs:110-137 | a displayed prefix parses back to itself |
| PrefixText.PrefixTextIsExact | src/address.rs:131-136 | a text is read as a prefix exactly when it is slash-free address text, one slash and the plain decimal length; any other text is refused |
| Names.DomainIsItsLabels | src/payload.rs:247-260 | a domain is exactly labels that are each valid, 253 octets in all |
| Names.DomainGrammar | src/payload.rs:247-260 | a domain is exactly LDH labels of 1 to 63 octets, given by octet value, with single dots between them, 253 octets in all |
| Names.DomainConcat | src/payload.rs:247-260 | two names joined by a dot form a domain exactly when each is one and the whole fits |
| Names.LowerKeepsDomain | src/payload.rs:171-172 | lower-casing neither breaks nor makes a domain |
| Text.LowerFoldsCase | src/token.rs:155-159 | names lower-case alike exactly when they differ in the case of ASCII letters only, and the form reported has no upper-case letter |
| Names.SelectorIsOneLabelDomain | src/token.rs:523-538 | a key identifier is a selector exactly when it is a dot-free operator domain |
| Names.KeyRecordNameInjective | src/lib.rs:30-33 | the key record name determines selector and operator and is never a policy record name |
| Names.RecordNameLabels | src/lib.rs:30-33 | the labels of the record names: selector, `_sworn` and the operator's own; `_prefixes`, `_sworn` and the operator's own |
| Cbor.FoldedIsPlain | src/payload.rs:95-98 | the decoded value has no foldable bignum at any depth, and is the item itself where there was none |
| Cbor.HeadReadsBack | src/token.rs:494-505 | every head written reads back to its major type and argument, whatever follows |
| Cbor.BigEndianPlaces | src/token.rs:494-505 | lengths are written most significant octet first |
| Cbor.HeadIsShortest | src/token.rs:494-505 | any head that reads as the same type and argument is longer than the one written, or is the one written |
| Cbor.SigStructureReadsBack | src/token.rs:492-505 | the encoder's octets for the signed value read back as the array of "Signature1", protected, empty, payload |
| Cbor.SigStructureIsShortest | src/token.rs:492-505 | any octets that read as the four parts are longer than the signed octets, or are the signed octets |
| Cbor.SigStructureInjective | src/token.rs:492-505 | equal signed octets mean equal protected octets and equal payload octets |
| Payloads.FromValue | src/payload.rs:99-179 | the accumulating loop computes the order-free meaning of the map, reason included |
| Payloads.PayloadIgnoresOrder | src/payload.rs:113-134 | every permutation of the entries gives the same result, reason included |
| Payloads.PayloadIgnoresUnknownKey | src/payload.rs:113-134 | a fresh integer key outside 1..6, put anywhere, never changes the result |
| Payloads.AcceptedIsConforming | src/payload.rs:62-83 | an accepted payload meets every payload-intrinsic rule |
| Payloads.ConformingIsAccepted | src/payload.rs:136-178 | every conforming payload, unit written or defaulted, is accepted and reads back unchanged |
| Payloads.PrefixFormIsUnique | src/payload.rs:234-239 | each prefix has exactly one 17-octet form that decodes to it |
| Payloads.AcceptedIffSpelled | src/payload.rs:99-179 | a map is accepted as a payload exactly when its keys are admissible, its entries 1 to 6 spell the payload, and the payload conforms |
| Payloads.SlotsFailInOrder | src/payload.rs:136-178 | the payload reason is that of the first failing check, in the program's order, and no failing check means acceptance |
| TaggedFields.MapKeepsLast | src/payload.rs:191-193 | decoding fails exactly on a non-integer key; the map holds each key with the tag of its last occurrence |
| TaggedFields.SecondPassIsExact | src/payload.rs:191-209 | on all octets: accepts exactly a map of integer keys whose defined keys are untagged where they occur last |
| TaggedFields.TagsEscapeOnlyByDuplicates | src/payload.rs:182-209 | a tagged defined field escapes the pass exactly when a later duplicate overwrites it |
| TaggedFields.PassesAreCleanOnWire | src/payload.rs:113-134 | the second pass and the first's shape checks hold together exactly when the map is clean on the wire |
| TaggedFields.TwoPassesTogether | src/payload.rs:182-209 | on a payload the first pass accepts, the second accepts exactly when each defined key is unique, untagged and of its CDDL type on the wire |
| TaggedFields.RepeatedKeyDividesPasses | src/payload.rs:191-209 | every map with a repeated key is refused by the first pass, while the second looks at the last occurrences only |
| TaggedFields.FoldingHidesABignum | src/payload.rs:95-98 | the first pass alone accepts a bignum unit |
| Cose.ReadHeaders | src/token.rs:54-72 | the bucket loop accepts exactly distinct labels, in wire order |
| Cose.HeadersRoundTrip | src/token.rs:54-72 | a bucket reads as its labels and values exactly when they are distinct |
| Cose.Items.Next | src/token.rs:424-432 | the element iterator yields each element once, in order, then nothing |
| Cose.ParseCose | src/token.rs:413-448 | the cursor-and-iterator parse computes the object's meaning |
| Cose.CoseShape | src/token.rs:413-448 | an object reads exactly when it is tag 18 around its four parts, each in its place |
| Cose.CoseOnWire | src/token.rs:413-448 | the same from the octets: each item whole, an empty protected part for an empty bucket, no label repeated in a bucket |
| Cose.ToBeSigned | src/token.rs:494-505 | the octets built read back as the four parts the signature binds, and are the one shortest string that does |
| Cose.UnprotectedOnlyRejects | src/token.rs:455-490 | the unprotected bucket can only turn acceptance into confusion, and exactly when it says so |
| Cose.AcceptedBucketsMerge | src/token.rs:455-490 | accepted buckets merge into one single-valued map without label 2; labels 1, 3 and 4 are protected |
| Cose.BucketsAreDistinct | src/token.rs:428-439 | both buckets of an object that parses have distinct labels |
| Cose.HeadersIgnoreOrder | src/token.rs:455-490 | permuting either bucket changes nothing, reason included |
| Cose.HeadersFailInOrder | src/token.rs:450-490 | the header reason is that of the first failing rule, by label number, and no failing rule means acceptance |
| Tags.ParseTags | src/record.rs:173-220 | the segment loop computes the tag list, or the error of the first fault |
| Tags.PieceReadsBack | src/record.rs:196-209 | a padded tag reads as its name and value, a blank segment as nothing |
| Tags.PrintReadsBack | src/record.rs:173-220 | any layout of a tag list reads back to it, or fails by a repeated name or a missing version |
| Tags.AcceptedIffPrinted | src/record.rs:173-220 | accepted texts are exactly the layouts of distinct tags led by the version, with those tags |
| Tags.NotSwornIffPrinted | src/record.rs:216-219 | NotSworn means exactly a well-formed distinct list that does not start with the version |
| Tags.ErrorsNameTheFirstFault | src/record.rs:189-214 | MalformedTag and DuplicateTag, each if and only if the octet gate or the first segment at fault says so |
| Tags.PlainFormIsStable | src/record.rs:173-220 | parse, print, parse is stable |
| Rua.RuaGrammar | src/record.rs:222-240 | accepted destinations are exactly mailto: dot-atom @ operator domain, split in one way only |
| Rua.RuaIsTagValue | src/record.rs:201-209 | every accepted destination can stand as a tag value |
| Policies.ReadPrefixes | src/record.rs:98-118 | the capped loop reads the first 64 non-empty elements, all or nothing |
| Policies.ListRefusedByElement | src/record.rs:111-115 | a list is refused exactly when some element read is the text of no attestable prefix |
| Policies.ParsePolicy | src/record.rs:95-156 | the parse computes the policy, errors included |
| Policies.PolicyIsStated | src/record.rs:95-156 | a record parses as exactly the policy its tags state: list, unit from 1 to 64 or the default, flag, destination |
| Policies.PolicyErrorsInOrder | src/record.rs:112-148 | which of `p`, `u` and `rua` an unusable policy is blamed on, each if and only if, in the program's order |
| Policies.ParsedPolicyIsSound | src/record.rs:95-156 | at most 64 attestable prefixes, none longer than a unit of 1 to 64, valid destination |
| Policies.PolicyIgnoresTagOrder | src/record.rs:242-246 | two texts whose tags are a permutation behind the same first tag give the same policy or the same error |
| Policies.PolicyReadsListedOnly | src/record.rs:99-118 | replacing a record's list by one with the same elements read leaves the parse of the text unchanged |
| Policies.PolicyIgnoresPastCap | src/record.rs:100-110 | anything appended to a list of 64 non-empty elements leaves the parse of the text unchanged |
| Policies.PolicyIgnoresEmptyElement | src/record.rs:102-110 | an empty element put into the list leaves the parse of the text unchanged |
| Policies.ListedIgnoresEmpty | src/record.rs:102-110 | empty elements are skipped and not counted |
| Policies.ListedStopsAtCap | src/record.rs:100-110 | nothing after the 64th element is looked at |
| Policies.ListedReadsBack | src/record.rs:100-110 | without empty elements, the first 64 elements are read, in order |
| Policies.TestingAmongFlags | src/record.rs:132-134 | the testing flag is found among any other flags |
| Policies.PublishedPolicyReadsBack | src/record.rs:95-156 | every sound policy, in any layout, parses back unchanged |
| Policies.PlainPolicyReadsBack | src/record.rs:95-156 | the plain text of a sound policy parses back unchanged |
| Policies.RuaComesBackVerbatim | src/record.rs:136-144 | a destination tag put anywhere behind the first tag comes back verbatim if valid and makes the record unusable if not |
| Policies.RuaCanBeAppended | src/record.rs:136-144 | a valid destination, `=` and all, can be appended to any usable record |
| Policies.AuthorizesIsInclusion | src/record.rs:158-168 | authorization is inclusion of address sets in one enumerated attestable prefix |
| Policies.AuthorizesSubPrefixes | src/record.rs:158-168 | authorization passes to attestable sub-prefixes |
| Policies.AuthorizesGrowsWithList | src/record.rs:158-168 | a longer enumeration authorizes no less |
| Policies.NarrowNeverAuthorizesParent | src/record.rs:158-168 | a narrower enumeration never authorizes its parent |
| Guarantees.VerdictChain | src/token.rs:349-380 | under any exclusions: policy prefix, token prefix, unit, observed /64 and source are nested, attestable and authorized |
| Guarantees.LocalChain | src/token.rs:294-343 | the same chain from token prefix to source for a locally valid token |
| Guarantees.VerdictReportsTheToken | src/token.rs:191-210 | operator, prefix, unit length and role are what the payload's entries spell, the selector is the protected key identifier, flag and destination are the policy's |
| Guarantees.AcceptedPayloadIsClean | src/token.rs:307-309 | an accepted token's defined keys meet the CDDL rule on the wire |
| Guarantees.SignedOctetsDetermineResult | src/token.rs:294-343 | equal signed octets at one source give equal results up to the signature |
| Guarantees.IneligibleIsOffPrefix | src/token.rs:311-325 | without extra exclusions an ineligible source is also off the prefix |
| Guarantees.ExclusionsOnlyRemove | src/token.rs:294-313 | more exclusions keep the result or turn it into IneligibleSource, and exactly when |
| Guarantees.ObservedUnitClearOfExclusions | src/token.rs:311-333 | the observed /64 is disjoint from an exclusion exactly when it is not strictly inside that /64 |
| Guarantees.UnitFollowsObservedUnit | src/token.rs:327-333 | the observed unit ignores the token, determines the declared unit, and an ESP tenant's unit is its prefix |
| Guarantees.KeyLookupsAreInjective | src/lib.rs:30-33 | accepted tokens share a key lookup only with equal selector and operator, both valid names |
| Guarantees.VerifyRefinesSignatureOnly | src/token.rs:353-380 | `verify` succeeds exactly when signature-only does, the policy authorizes the prefix and the units agree |
| Runs.WindowIsExact | src/token.rs:315-321 | the wrapping 128-bit sums never wrap for 64-bit times, so the window test is exact over the integers |
| Runs.VerdictAtTime | src/token.rs:315-321 | time matters only through the window, with 300 seconds of skew at both ends |
| Runs.RunHasPhases | src/token.rs:315-321 | over a forward clock: NotYetValid, then one settled verdict, then Expired; or one settled failure |
| Runs.NeverAcceptedAfterExpiry | src/token.rs:319-321 | once expired, expired for the rest of the run |
| Runs.AcceptanceWindow | src/token.rs:315-321 | acceptances are the times of one window, with one outcome, at most 87000 seconds apart |
| Faults.PayloadFailsInOrder | src/token.rs:307-309 | unusable payload octets fail at the first check that fails on the wire, and no failing check means they are read |
| Faults.TokenFailsInOrder | src/token.rs:300-309 | a token fails at the first of its own checks that fails: length, object, headers, payload |
| Faults.VerdictIsFirstFailure | src/token.rs:294-380 | whatever else is wrong, the verdict is the reason of the first failing check of token, source, time, membership, policy and signature; acceptance is the absence of failing checks |
| Faults.VerdictNamesAFault | src/reason.rs:17-61 | under any exclusions the reason reported is a fault of the attempt, and acceptance is the absence of every fault |
| Faults.SignatureIsCheckedLast | src/token.rs:349-380 | a bad signature is reported only of an attempt with no other fault; a policy fault is reported before it |
| Faults.SignatureOnlyIsFirstFailure | src/token.rs:353-361 | the signature-only form reports the first failing check too, the policy's two left out |
| Completeness.HonestHeadersPass | src/token.rs:455-490 | labels 1, 3 and 4 with the algorithm, the content type and a one-label key identifier give the lower-case selector |
| Completeness.HonestTokenIsRead | src/token.rs:300-309 | a token that carries a conforming payload under valid headers is read as exactly what was signed |
| Completeness.HonestTokenPasses | src/token.rs:349-380 | from a source in the prefix, inside the window, under an authorizing policy and a good signature, it gives exactly the intended outcome |
| Completeness.HonestTokenExists | src/token.rs:413-448 | every honest choice of a signer is carried by some token |
| Completeness.SomeAttemptPasses | src/token.rs:349-380 | for every honest claim, source in its prefix and time in its window, some attempt passes |

## Left out

- CBOR octet decoding and bignum folding: the library's, a parameter here; only the `Sig_structure` encoding is concrete.
- Ed25519 point decoding and strict verification (`src/key.rs`): a parameter; only the 64-octet signature length is modelled.
- IPv6 address text: the standard library's, a parameter with its read-back property stated where it is used.
- `KeyRecord::parse`: the tag grammar it shares is proved; what remains is a Base64 call and a key constructor.
- `Display` texts, reason strings and result tables (`src/reason.rs`): constant tables.
- DNS, SMTP, the vector runner and `src/bin/difftest.rs`: outside the pipeline.
- Allocation sizes and cost.
- TaggedFields.TwoPassesTogether: says nothing about a tag on a key, because neither pass looks at one; a key written as a bignum that folds to 1..6 counts as that key.
