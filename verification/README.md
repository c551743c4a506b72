# Receipt verification, modelled and proved

OpenChainGraph receipts are JSON artifacts. A receipt states an execution hash over its canonical bytes, may carry
signatures over other canonical bytes, may be anchored in a hash tree, and may carry a zero-knowledge seal over a
claim digest. This project models the code that checks all of that and proves what the checks mean. It has four
parts, which meet in `Receipt.dfy`, `Verdict.dfy` and `Seal.dfy`.

* **Canonical bytes.** `Numerals`, `Magnitudes`, `Json`, `JsonReader`, `JsonEquality`, `IJson`, `Text`, `Legacy` and `Python`: the
  RFC 8785 serializer with its guard, a parser that inverts it, the legacy sorter of the record signer and the
  Python canonicalizer. Equal bytes mean equal JSON values; where two canonicalizers disagree, the exact condition
  is proved.
* **Byte codecs.** `Base58` and `Der`: carry loops and offset arithmetic, with round trips.
* **Hash trees and hash state.** `Merkle`, `Session`, `Sha`, `Digest` and `Claim`: the iterative inclusion check against the
  recursive tree, the session fold, the buffered SHA-256 class against the one-shot hash, tagged structs.
* **Arithmetic under the seal.** `Wnaf`, `Inverse`, `PrimeField`, `Rings`, `Extensions`, `Norms` and `Tower`: each fast form
  of the bundled curve library against its definition. `Quant` treats the int8 model whose decisions are proved
  elsewhere in the system.

`Bytes` holds what all parts share, `Objects` the handling of JavaScript objects, and `Signing` and `Records` the two
signers. `Verdict` says what a passed receipt means in terms of the artifact, the hash and the keys alone, and
`Samples` works published samples of the formats out by the definitions.

## How to read it

A JavaScript value is a `Json.Json`; a string is a list of UTF-16 code units, and a number is its shortest decimal
digits with an exponent. A member list is in insertion order, and `JsonEquality.Js` says that no object has two
members of one name. `Json.Normal` is the value a reader of the canonical text gets; `JsonEquality.Same` is equality
without reference to printing.

A hash is any function to 32 bytes. It is never assumed to be injective, since no such function is: a binding lemma
returns two byte strings, and says that the values agree or that those two strings are different and have one
digest. SHA-256 itself is `Sha.Sha256Of`, with its compression function as a parameter, and `Sha.AsHash` makes it
such a hash. Keys, the pairing check, base64 and `String()` of values that are not strings are parameters as well.

Code that works step by step is a method proved against a function or a direct statement; the shared counter of the
I-JSON walk and the SHA-256 instance are classes. Code made of expressions is functions.

## What the proofs found

* Base58 does not round-trip on zero bytes alone: n of them come back as n + 2 (`Base58.DecodeEncode`).
* The document that is verified is not always the one that was signed. For what the kit or the record signer signs on
  an artifact without an audit_signature, the badge hashes a document with an empty one (`Signing.BadgeRestoresKit`,
  `Records.BadgeRestoresRecord`). Signing loses a member of audit_signature named `__proto__`, so the document
  that is verified afterwards is another one (`Signing.ProtoIsLost`). The record signer hashes the legacy text, which
  array-index names disturb (`Records.IndicesBreakRecords`). For both signers and both verifiers the exact condition
  is proved (`Signing.KitRestores`, `Signing.BadgeRestoresKit`, `Records.KitMessageOfRecord`,
  `Records.BadgeMessageOfRecord`).
* The comment at chaingraph/proof-walk-kit.js:22 speaks of code-point order; the code sorts by UTF-16 code unit, which
  is what RFC 8785 asks and what is modelled. ocg-conformance/verify.py sorts by code point, and prints 100.0 as
  "100.0" (`Python.BytesAgreeExactly`).
* The legacy sorter loses `__proto__` and reorders array-index names (`Legacy.LegacyIsCanonical`).
* The index of a Merkle-anchored binding is as true as its stated tree size, which the badge takes from the binding
  itself: the last of five leaves passes as index 2 of 3 (`Receipt.FalseIndexPasses`). The exact condition is that the
  index has one route under the stated and the true size (`Merkle.Located`, `Merkle.IndexIsTrue`).
* A session root does not fix the number of entries, for any two lengths (`Session.AnyLength`), nor entries that are
  not digests (`Session.MovedCharacter`); what it fixes is exactly `Session.RootExactly`.
* The DER reader wraps tag numbers from 2^31 on, the length writer is wrong from 2^32 on, and object identifiers whose
  second arc is 40 or more are read wrongly (`Der.TagNumberExact`, `Der.LengthExact`, `Der.OidExact`).

## Model

| member | source | states |
|---|---|---|
| `Numerals.ReadPrint` | chaingraph/proof-walk-kit.js:69-80 | Printing a number by the four layouts of Number::toString and reading it back gives the same digits and exponent, whatever non-numeric text follows; -0 comes back as 0 |
| `Numerals.PyFormatDenotes` | ocg-conformance/verify.py:40-72 | For every digit string and exponent `_format_number` prints a numeral that denotes exactly digits times 10^exponent |
| `Numerals.PyAgrees` | ocg-conformance/verify.py:40-72 | `_format_number` prints what Number::toString prints if and only if the digits have no trailing zero or all padding lies before the point (exponent >= 0, at most 21 places) |
| `Magnitudes.ExponentExactly` | chaingraph/proof-walk-kit.js:80 | A finite number is printed without an exponent if and only if its real value v has 10^-6 <= abs(v) < 10^21 |
| `Magnitudes.ExponentForm` | chaingraph/proof-walk-kit.js:80 | With an exponent: one nonzero digit, a point exactly when more digits follow, `e`, an explicit sign, and the decimal exponent of the value without leading zeros |
| `Magnitudes.PlainForm` | chaingraph/proof-walk-kit.js:80 | Without: integer digits with no leading zero, and a fraction, with no trailing zero, exactly when the value is not whole; the digits denote the value |
| `Magnitudes.PyExponentExactly` | ocg-conformance/verify.py:40-72 | The Python formatter switches to an exponent at the same two values, trailing zeros or not |
| `Magnitudes.Samples` | chaingraph/proof-walk-kit.js:80 | 10^-7 prints as 1e-7, and -1.25 times 10^21 as -1.25e+21 |
| `Json.JcsStringify` | chaingraph/proof-walk-kit.js:79-100 | The string-building loops compute the canonical text, for every value: members sorted by UTF-16, undefined members dropped, undefined elements null, None for an undefined value |
| `Json.ArrayText` | chaingraph/proof-walk-kit.js:81-89 | The array loop with its commas writes the text of the normal form |
| `Json.ObjectText` | chaingraph/proof-walk-kit.js:90-99 | The member loop over sorted keys, with its `first` flag, writes the text of the normal form |
| `Json.SortIsSorted` | chaingraph/proof-walk-kit.js:90 | Sorting the keys gives the same members in UTF-16 code-unit order |
| `Json.LeqExactly` | chaingraph/proof-walk-kit.js:90 | That order is decided at the first code unit that differs, and a prefix comes first |
| `Json.NormalOfSort` | chaingraph/proof-walk-kit.js:90-98 | Sorting names before dropping and rewriting members, as the loop does, or after gives the same list |
| `JsonReader.ParseEmit` | chaingraph/proof-walk-kit.js:79-100 | A parser recovers every plain value from its text, in front of any text that may follow a value |
| `JsonReader.ParseStringify` | chaingraph/proof-walk-kit.js:79-100 | Parsing the canonical text of any value gives that value up to member order, dropped members, undefined elements, non-finite numbers and -0 |
| `JsonReader.StringifyInjective` | chaingraph/proof-walk-kit.js:79-100 | Two values have one text if and only if they have one normal form |
| `JsonReader.QuoteShortest` | chaingraph/proof-walk-kit.js:80 | Of all literals that section 7 of RFC 8259 allows for a string, none is shorter than the canonical one: what need not be escaped is not |
| `JsonEquality.QuoteIsLawful` | chaingraph/proof-walk-kit.js:80 | And the canonical one is such a literal of that string |
| `Samples.Tokens` | chaingraph/proof-walk-kit.js:79-100 | The tokens of the text are those of RFC 8259, without spaces |
| `JsonEquality.SameIsNormal` | chaingraph/proof-walk-kit.js:79-100 | Order-free equality of JSON values, stated by looking members up, is equality of normal forms |
| `JsonEquality.StringifyDecides` | chaingraph/proof-walk-kit.js:79-100 | Two values print alike if and only if they are the same JSON value |
| `JsonEquality.OrderIrrelevant` | chaingraph/proof-walk-kit.js:90 | Objects with the same members in any order print alike |
| `JsonEquality.BytesDecide` | chaingraph/ocg-verify-badge.js:73-78 | The UTF-8 bytes that are hashed are equal if and only if the values are the same JSON value |
| `JsonEquality.StringifyWellFormed` | chaingraph/proof-walk-kit.js:79-100 | Canonical text never holds a lone surrogate, so TextEncoder loses nothing |
| `IJson.WalkIJson` | chaingraph/proof-walk-kit.js:52-63 | The recursive walk with its shared counter returns the first refusal in visiting order and leaves the exact node count |
| `IJson.WalkExactly` | chaingraph/proof-walk-kit.js:52-63 | The walk passes if and only if depth, node count and numbers are within bounds, and then counts every node once |
| `IJson.AssertIJson` | chaingraph/proof-walk-kit.js:65-67 | The guard accepts exactly the values nested at most 512 deep, of at most 1,000,000 nodes, whose numbers are finite and safe if integral |
| `IJson.IntegerExactly` | chaingraph/proof-walk-kit.js:57 | A finite number counts as an integer if and only if its real value is whole, and its magnitude is the absolute value |
| `IJson.RefusedExactly` | chaingraph/proof-walk-kit.js:55-57 | A finite number is refused if and only if its real value is a whole number above 9007199254740991 in magnitude |
| `IJson.NumbersExactly` | chaingraph/proof-walk-kit.js:55-62 | The guard looks at every number that occurs in the value, at any depth, and passes exactly if each is finite and not such an integer |
| `Text.TextEncodeInjective` | chaingraph/proof-walk-kit.js:124 | UTF-8 encoding is injective on strings without lone surrogates |
| `Text.TextEncodeSpells` | chaingraph/proof-walk-kit.js:124 | A decoder by the bit layout and ranges of section 3 of RFC 3629 reads the bytes back as the code points of the string, U+FFFD for each lone surrogate |
| `Text.Utf8Samples` | chaingraph/proof-walk-kit.js:124 | Two samples of section 7 of RFC 3629, a surrogate pair among them, and a lone surrogate |
| `Text.HexSpells` | chaingraph/ocg-verify-badge.js:86 | Each byte is written as two digits of 0123456789abcdef, high half first |
| `Text.UnhexOfHex` | chaingraph/ocg-verify-badge.js:80-86 | Reading the hex of any bytes gives the bytes |
| `Text.HexOfUnhex` | chaingraph/ocg-verify-badge.js:80-86 | Writing what was read from lowercase hex gives the digits |
| `Text.HexToBytesIsUnhex` | chaingraph/ocg-verify-badge.js:80-85 | The badge's reader, parseInt on two units with all its leniency, is the exact inverse on lowercase hex |
| `Text.HexPairsIsUnhex` | chaingraph/proof-walk-kit.js:275 | So is the kit's reader by regular expression |
| `Text.HexToBytesOfLower` | chaingraph/ocg-verify-badge.js:80-85 | The case of a string never changes what the badge's reader gives |
| `Legacy.AgreesExactly` | chaingraph/kernels/_signverdict.inline.js:15-17 | `canon` followed by enumeration keeps the canonical value if and only if no live member is named `__proto__` and no array-index name follows a name that enumeration puts after it |
| `Legacy.LegacyIsCanonical` | chaingraph/kernels/_signverdict.inline.js:15-18 | The legacy text is the canonical text under exactly that condition |
| `Legacy.OrdinaryIsUndisturbed` | chaingraph/kernels/_signverdict.inline.js:15-18 | Values without array-index names and `__proto__` meet the condition |
| `Legacy.IndicesAreReordered` | chaingraph/kernels/_signverdict.inline.js:15-18 | The object {"10": null, "9": null} is an input on which the two texts differ |
| `Python.OrdersAgree` | ocg-conformance/verify.py:97-98 | Code-point order and UTF-16 order agree on two names if and only if the first difference is not one point in U+E000-U+FFFF against one beyond |
| `Python.PlanesDoNotStraddle` | ocg-conformance/verify.py:97-98 | Names inside the Basic Multilingual Plane, or without U+E000-U+FFFF, never differ so |
| `Python.SortsAgree` | ocg-conformance/verify.py:97-98 | On names that never differ so, both sorts give one order |
| `Python.SortedBothWays` | ocg-conformance/verify.py:97-98 | And only on those |
| `Python.TextsAgreeExactly` | ocg-conformance/verify.py:75-105 | For every I-JSON value the two canonicalizers write one text if and only if every float meets the formatter's condition and no object has two names that the orders disagree on |
| `Python.BytesAgreeExactly` | ocg-conformance/verify.py:75-109 | The same for the bytes that are hashed |
| `Python.HundredDisagrees` | ocg-conformance/verify.py:48-72 | 100.0 is an input that fails the condition |
| `Python.PrivateNamesDisagree` | ocg-conformance/verify.py:97-98 | So is an object with the names U+FFFF and U+10000 |
| `Base58.Round` | chaingraph/proof-walk-kit.js:384-385 | The in-place carry loop and its pushes compute digits * mul + carry; the carry entering each step stays below mul (255 at most when encoding, 57 when decoding) |
| `Base58.CarryBound` | chaingraph/proof-walk-kit.js:384-385 | The carry bound that keeps every sum inside 32 bits |
| `Base58.Encode` | chaingraph/proof-walk-kit.js:384 | `b58e` writes the leading zeros as 1s and the rest as the base-58 numeral of the big-endian value |
| `Base58.Decode` | chaingraph/proof-walk-kit.js:385 | `b58d` refuses exactly strings with a character outside the alphabet, and otherwise writes the base-256 numeral behind the zeros |
| `Base58.MulAddNumeral` | chaingraph/proof-walk-kit.js:384-385 | One round turns the numeral of v into the numeral of v * mul + carry |
| `Base58.DecodeEncode` | chaingraph/ocg-verify-badge.js:88-99 | Decoding an encoding gives the bytes back, for all bytes unless every one is zero; n zero bytes come back as n + 2 |
| `Base58.EncodeDecode` | chaingraph/ocg-verify-badge.js:88-99 | Encoding a decoded string gives it back unless it is all 1s; n of them come back as n + 2 |
| `Samples.Alphabet` | chaingraph/ocg-verify-badge.js:87 | The 58 characters are those of the alphabet, in its order |
| `Der.DerParse` | chaingraph/proof-walk-kit.js:417-424 | Where a definite-length tree stands, anywhere in a buffer, the reader finds its class, tag, constructed bit and exact extent, for both tag forms and all length forms |
| `Der.ReadTagNumber` | chaingraph/proof-walk-kit.js:419 | The high-tag loop stops at the last octet with the tag number, wrapped to 32 bits by the shifts |
| `Der.TagNumberExact` | chaingraph/proof-walk-kit.js:418-419 | The tag number read is the one written if and only if it is below 2^31 |
| `Der.WrapExactly` | chaingraph/proof-walk-kit.js:419 | What is read otherwise differs from it by a multiple of 2^32 |
| `Der.ReadLength` | chaingraph/proof-walk-kit.js:420-421 | The length loop reads short and long forms, leading zeros included |
| `Der.DerChildren` | chaingraph/proof-walk-kit.js:425 | The child loop terminates and yields exactly the children of a constructed node |
| `Der.ChildrenTile` | chaingraph/proof-walk-kit.js:425 | The children tile the content: each starts where the one before ends, the last ends at the end, and each stands there in full |
| `Der.EncodeDerLength` | chaingraph/proof-walk-kit.js:432 | What the length loop writes, its 32-bit shift included |
| `Der.LengthExact` | chaingraph/proof-walk-kit.js:432 | It is the DER length if and only if the length is below 2^32 |
| `Der.OnlyFirstByteInPlace` | chaingraph/proof-walk-kit.js:551-554 | The re-encoded attributes of a node read from a buffer differ from the bytes standing there in the first byte alone if and only if the tag is one octet and the length minimal and below 2^32 |
| `Der.SetIsEncoded` | chaingraph/proof-walk-kit.js:551-554 | And they are the DER encoding of the same content under the SET tag |
| `Der.DerOid` | chaingraph/proof-walk-kit.js:427 | The arc loop computes the recursive reading of the octets |
| `Der.OidExact` | chaingraph/proof-walk-kit.js:427 | Reading back a written object identifier gives its arcs if and only if the second arc is below 40 |
| `Der.FixedValue` | chaingraph/proof-walk-kit.js:474 | The fixed-width form of an integer exists exactly when it fits, one sign octet aside, and keeps the value |
| `Der.EcdsaDerToRaw` | chaingraph/proof-walk-kit.js:472-477 | For a sequence of two integers at the start of the buffer the raw signature is their fixed forms, or the exception |
| `Samples.SmallSequence` | chaingraph/proof-walk-kit.js:417-425 | The octets of SEQUENCE { INTEGER 5 } |
| `Samples.LongForms` | chaingraph/proof-walk-kit.js:417-424 | The octets of a tag above 30 under a long length |
| `Samples.ObjectIdentifier` | chaingraph/proof-walk-kit.js:427 | The octets of the identifier 2.100.3, the sample of section 8.19.5 of X.690 |
| `Merkle.RootFromInclusion` | chaingraph/ocg-verify-badge.js:148-164 | The bit-shifting loop, with the inner loop over right-edge levels, computes the root by recursion on the tree, or null, for every index, size and path |
| `Merkle.FoldIsRebuild` | chaingraph/ocg-verify-badge.js:150-163 | The loop's two shifted indices trace the recursive split at the largest power of two below n |
| `Merkle.FoldLeft` | chaingraph/ocg-verify-badge.js:155-161 | Inside a complete left subtree the loop behaves as on that subtree alone |
| `Merkle.FoldRight` | chaingraph/ocg-verify-badge.js:155-161 | So it does inside a right subtree, the skipped levels included |
| `Merkle.RootShape` | chaingraph/ocg-verify-badge.js:148-164 | It returns a root if and only if the index is below the size and the path has the length of PATH(m, n) (section 2.1.1 of RFC 6962) |
| `Merkle.Complete` | chaingraph/ocg-verify-badge.js:145-164 | Every leaf with its audit path rebuilds MTH(D) (section 2.1 of RFC 6962) |
| `Samples.SevenEntries` | chaingraph/ocg-verify-badge.js:145-164 | The tree of seven entries of section 2.1.3 of RFC 6962, hashed out, with the four audit paths given there |
| `Merkle.Sound` | chaingraph/ocg-verify-badge.js:145-164 | A path that rebuilds MTH(D) at index m is PATH(m, D) of the leaf D[m], whatever lengths its elements have, or a collision is returned |
| `Merkle.Located` | chaingraph/ocg-verify-badge.js:145-164 | A leaf that rebuilds MTH(D) under any stated index and size is D[i] for an i whose route in D is the one they describe, and the path is PATH(i, D), or a collision is returned |
| `Merkle.Accepted` | chaingraph/ocg-verify-badge.js:145-164 | Conversely every index and size that describe the route of D[i] are accepted for it with its audit path |
| `Merkle.IndexIsTrue` | chaingraph/ocg-verify-badge.js:148-164 | The stated index is that i if and only if the index has the same route in D as under the stated size |
| `Merkle.LastOfFive` | chaingraph/ocg-verify-badge.js:148-164 | The last of five leaves passes as index 2 of 3 |
| `Merkle.Binding` | chaingraph/ocg-verify-badge.js:145-164 | Two accepted inclusions under one root, whose index and size describe one route, have the same leaf and path, or a collision is returned |
| `Merkle.RouteInjective` | chaingraph/ocg-verify-badge.js:148-164 | Different leaves of one tree have different routes, the turns from the leaf to the root |
| `Merkle.RebuildByRoute` | chaingraph/ocg-verify-badge.js:148-164 | The check sees the index and the size only through the route they describe |
| `Session.SessionRoot` | chaingraph/proof-walk-kit.js:683-687 | The level-by-level fold terminates and equals the recursive tree in which a missing right child is the last node of its level |
| `Samples.ThreeEntries` | chaingraph/proof-walk-kit.js:683-687 | Three entries a, b, c fold to the hash of the hex digests of ab and of cc |
| `Session.RootUp` | chaingraph/proof-walk-kit.js:684-686 | Folding one level keeps the root |
| `Session.RootExactly` | chaingraph/proof-walk-kit.js:683-687 | Whatever the entries are, two sessions of one length above 1 have one root if and only if their first hash jobs hash the same bytes, or a collision is returned |
| `Session.RootBinding` | chaingraph/proof-walk-kit.js:683-687 | Equal roots of two sessions of one length mean equal sessions, or a collision is returned, for digests and for any entries without lone surrogates whose lengths agree position by position |
| `Session.SessionBinding` | chaingraph/proof-walk-kit.js:683-687 | The same from the hashes as written, with prefixes and in any case |
| `Session.MovedCharacter` | chaingraph/proof-walk-kit.js:683-687 | ["ab", "c"] and ["a", "bc"] have one root |
| `Session.AnyLength` | chaingraph/proof-walk-kit.js:683-687 | For any two lengths there are sessions of digests of those lengths with one root, so the length has to be stated |
| `Session.RepeatedLast` | chaingraph/proof-walk-kit.js:685 | For odd length from 3 on, repeating the last entry keeps the root |
| `Sha.Sha256.Update` | chaingraph/proof-walk-kit.js:14 | After any update the absorbed blocks followed by the buffer are the whole message, with pos below 64; a finished instance refuses and stays as it is |
| `Sha.Sha256.Bulk` | chaingraph/proof-walk-kit.js:14 | The inner loop absorbs whole blocks straight from the input |
| `Sha.Sha256.Fill` | chaingraph/proof-walk-kit.js:14 | A piece goes to the buffer, which is absorbed when it is full |
| `Sha.Sha256.DigestInto` | chaingraph/proof-walk-kit.js:14 | The digest is the padded one-shot hash of the message, in both padding branches |
| `Sha.Sha256.Digest` | chaingraph/proof-walk-kit.js:14 | And the instance is closed afterwards |
| `Sha.Sha256.Clone` | chaingraph/proof-walk-kit.js:14 | A clone carries the message on in a buffer of its own |
| `Sha.PadSplit` | chaingraph/proof-walk-kit.js:14 | Both padding branches write the padding of section 5.1.1 of FIPS 180-4 |
| `Sha.OneShot` | chaingraph/proof-walk-kit.js:14 | Constructing, updating and digesting computes the hash of the concatenated input |
| `Sha.AbsorbAppend` | chaingraph/proof-walk-kit.js:14 | Absorbing blocks one after another is absorbing their concatenation |
| `Digest.PadExactly` | chaingraph/proof-walk-kit.js:14 | The padded message is the message, the byte 128, zeros, and the length in bits as a 64-bit big-endian number, in the fewest blocks of 64 bytes |
| `Digest.DigestSpells` | chaingraph/proof-walk-kit.js:14 | The digest spells, by value and in order, the eight words that absorbing the padded message leaves |
| `Claim.PreimageUnique` | chaingraph/proof-walk-kit.js:283-286 | The tagged-struct layout decodes in one way: equal preimages have the same digests below and the same words |
| `Claim.TaggedStructBinding` | chaingraph/proof-walk-kit.js:283-286 | Equal tagged structs have equal tag, digests and words, or a collision is returned |
| `Claim.ClaimBinding` | chaingraph/proof-walk-kit.js:288-293 | A claim digest fixes image id and journal bytes, or a collision is returned |
| `Claim.ClaimDigestBytes` | chaingraph/proof-walk-kit.js:283-293 | The claim digest written out: the three nested hashes over their tag digests, digests, words and counts, byte by byte |
| `Claim.TagsSpelled` | chaingraph/proof-walk-kit.js:290-292 | The tags are the ASCII bytes of risc0.SystemState, risc0.Output and risc0.ReceiptClaim |
| `Claim.SplitDigestValue` | chaingraph/proof-walk-kit.js:295-299 | low + 2^128 high is the little-endian value of the digest, and both halves are below 2^128 |
| `Claim.SplitDigestInjective` | chaingraph/proof-walk-kit.js:295-299 | The two halves give the digest back |
| `Seal.InputsBounded` | chaingraph/proof-walk-kit.js:328-333 | The four derived public inputs lie below 2^128 |
| `Seal.InputsAre` | chaingraph/proof-walk-kit.js:323-333 | Which number stands at which place: v[0] + 2^128 v[1] is the little-endian control root, v[2] + 2^128 v[3] that of the claim digest, written out down to the hashed bytes, v[4] that of the control id; the four halves are below 2^128 |
| `Seal.InputsExactly` | chaingraph/proof-walk-kit.js:312-327 | There are inputs if and only if the receipt has the shape of one and its image id gives 32 bytes; it throws as delegated exactly for the format stark, and on an image id that gives no byte |
| `Seal.InputsFixClaim` | chaingraph/proof-walk-kit.js:323-333 | Receipts with the same five public inputs have the same image id bytes and the same journal as a JSON value, or a collision is returned |
| `Seal.ImageIdFixed` | chaingraph/proof-walk-kit.js:326 | Image ids of 64 hex digits give the same bytes if and only if they are the same without the prefix and in lower case |
| `Seal.Select` | chaingraph/proof-walk-kit.js:348-352 | vk_x is IC[0] plus the multiples of IC[i + 1] by the inputs, through the window tables, and is refused exactly when an input is zero or not below the group order |
| `Seal.SealFixed` | chaingraph/proof-walk-kit.js:336-346 | No two seals spell the same eight elements |
| `Seal.ParseWritten` | chaingraph/proof-walk-kit.js:336-346 | The seal made of the 32-byte big-endian forms of A.x, A.y, B.x.c1, B.x.c0, B.y.c1, B.y.c0, C.x, C.y parses to those eight numbers |
| `Seal.VerifySeal` | chaingraph/proof-walk-kit.js:312-364 | The staged check returns or throws as its stages say, down to the pairing check on the parsed points and the selected point |
| `Seal.AcceptedExactly` | chaingraph/proof-walk-kit.js:312-364 | It returns true if and only if there are inputs, the seal is 256 bytes, each input is above 0 and below the order, and the check holds of the parsed points with IC[0] + v[0] IC[1] + ... + v[4] IC[5] |
| `Seal.VerdictOfClaim` | chaingraph/proof-walk-kit.js:312-364 | The verdict depends on the image id bytes, the value of the journal and the seal alone |
| `Seal.NormIdStrip` | chaingraph/proof-walk-kit.js:181-183 | Comparing identities with the prefix added is comparing them with the prefix removed |
| `Seal.BoundExactly` | chaingraph/proof-walk-kit.js:202-224 | The binding is accepted if and only if the compute_proof has the shape, journal.output and output_payload are the same JSON value, some published image id is the stated one up to the prefix where ids are given, and likewise a nonempty kernel_digest where digests are given |
| `Seal.CheckBound` | chaingraph/proof-walk-kit.js:202-224 | The refusals in their order, with the two searches, decide exactly that |
| `Seal.Includes` | chaingraph/proof-walk-kit.js:215-221 | The search finds an identity if and only if one of the list equals it without the prefix |
| `Seal.InputsFixOutput` | chaingraph/proof-walk-kit.js:202-224 | Artifacts that `verifyBinding` accepts and whose receipts have the same public inputs have the same output payload, or a collision is returned |
| `Wnaf.PrecomputeWindow` | chaingraph/proof-walk-kit.js:14 | The table holds, for window u, the multiples 1 to 2^(W-1) of 2^(W u) P |
| `Wnaf.TableAt` | chaingraph/proof-walk-kit.js:14 | Every entry of every window lies inside the table |
| `Wnaf.RecodeSplits` | chaingraph/proof-walk-kit.js:14 | A window digit and the carried rest give the scalar back, the digit in (-2^(W-1), 2^(W-1)] |
| `Wnaf.RecodeShrinks` | chaingraph/proof-walk-kit.js:14 | The remaining scalar is at most 2 to the bits left, so it is 0 after ceil(bits/W) + 1 windows |
| `Wnaf.EntryOfDigit` | chaingraph/proof-walk-kit.js:14 | The offsets of a digit are in range, and the signed entry is digit * 2^(W t) times P |
| `Wnaf.WNaf` | chaingraph/proof-walk-kit.js:14 | The constant-time loop returns scalar * P, and never throws for a scalar below the order and 2^bits |
| `Wnaf.WNafUnsafe` | chaingraph/proof-walk-kit.js:14 | The early-stopping loop adds scalar * P to its start |
| `Wnaf.UnsafeLadder` | chaingraph/proof-walk-kit.js:14 | Double-and-add does the same without a table |
| `Wnaf.Cached` | chaingraph/proof-walk-kit.js:14 | Table and loop together: for every window size, scalar multiplication succeeds exactly below the order and is correct in any abelian group |
| `Inverse.Invert` | chaingraph/proof-walk-kit.js:14 | The extended-Euclid loop terminates and returns x in [0, m) with number * x = 1 modulo m exactly when number is nonzero, m positive and the two coprime |
| `Inverse.InvertibleIsCoprime` | chaingraph/proof-walk-kit.js:14 | It never refuses a number that has an inverse |
| `Inverse.Pow` | chaingraph/proof-walk-kit.js:14 | Square-and-multiply is iterated multiplication in any monoid, and refuses exactly negative exponents |
| `Inverse.InvertBatch` | chaingraph/proof-walk-kit.js:14 | Batch inversion inverts every nonzero element with one inversion and leaves the zero slots at the fill value |
| `PrimeField.FieldIsRing` | chaingraph/proof-walk-kit.js:14 | Arithmetic reduced at every step is a commutative ring |
| `PrimeField.Invert` | chaingraph/proof-walk-kit.js:14 | The field inverse is one, exactly where it exists |
| `Tower.Fp2MulIsProduct` | chaingraph/proof-walk-kit.js:14 | Karatsuba in Fp2 is the schoolbook product modulo u^2 + 1 |
| `Tower.Fp2SqrIsSquare` | chaingraph/proof-walk-kit.js:14 | The two-product square in Fp2 is the square |
| `Tower.Fp2InvIsInverse` | chaingraph/proof-walk-kit.js:14 | The Fp2 inverse by the norm is one |
| `Tower.Fp6MulIsProduct` | chaingraph/proof-walk-kit.js:14 | The six-product multiplication in Fp6 is the schoolbook product modulo v^3 - xi |
| `Tower.Fp6SqrIsSquare` | chaingraph/proof-walk-kit.js:14 | The shortened square in Fp6 is the square |
| `Tower.Fp6InvIsInverse` | chaingraph/proof-walk-kit.js:14 | The cofactor inverse in Fp6 is one |
| `Tower.Fp6Mul1IsProduct` | chaingraph/proof-walk-kit.js:14 | `mul1` is the product by a padded element |
| `Tower.Fp6Mul01IsProduct` | chaingraph/proof-walk-kit.js:14 | `mul01` is the product by a padded element |
| `Tower.Fp12MulIsProduct` | chaingraph/proof-walk-kit.js:14 | Karatsuba in Fp12 is the schoolbook product modulo w^2 - v |
| `Tower.Fp12SqrIsSquare` | chaingraph/proof-walk-kit.js:14 | The complex square in Fp12 is the square |
| `Tower.Fp12InvIsInverse` | chaingraph/proof-walk-kit.js:14 | The Fp12 inverse by the norm is one |
| `Tower.Mul014IsProduct` | chaingraph/proof-walk-kit.js:14 | `mul014` is the full product by the padded sparse element |
| `Tower.Mul034IsProduct` | chaingraph/proof-walk-kit.js:14 | `mul034` is the full product by the padded sparse element |
| `Tower.Fp12IsSchoolbook` | chaingraph/proof-walk-kit.js:14 | Over the actual prime the nested fast product and square of all floors are those of the schoolbook ring |
| `Tower.NormIsRegular` | chaingraph/proof-walk-kit.js:14 | The norm of an invertible element, taken down three floors to Fp, divides no zero |
| `Tower.Fp12Invert` | chaingraph/proof-walk-kit.js:14 | One inversion in Fp, carried up three floors, inverts every element that has an inverse, and throws for exactly the others |
| `Extensions.QuadraticIsRing` | chaingraph/proof-walk-kit.js:14 | A quadratic extension of a commutative ring is one |
| `Extensions.CubicIsRing` | chaingraph/proof-walk-kit.js:14 | So is a cubic extension |
| `Norms.QuadNormRegular` | chaingraph/proof-walk-kit.js:14 | In a quadratic extension of any commutative ring, the norm of an element that divides no zero divides none |
| `Norms.CubeNormRegular` | chaingraph/proof-walk-kit.js:14 | So it is in a cubic extension, with the cofactors of the inverse |
| `Signing.SecuredClone` | chaingraph/proof-walk-kit.js:380 | Deleting the proof from the clone, and an audit_signature that this empties, gives the document that is hashed; a primitive audit_signature throws |
| `Signing.WithText` | chaingraph/proof-walk-kit.js:380 | Artifacts that differ at most in audit_signature print alike exactly when they agree there |
| `Signing.KitRestores` | chaingraph/proof-walk-kit.js:380-390 | `secured(sign(a))` prints as `secured(a)` if and only if audit_signature is absent, an empty list, or an object that assigning its members to an empty one keeps: none is named `__proto__` |
| `Signing.ProtoIsLost` | chaingraph/proof-walk-kit.js:389 | {"audit_signature": {"__proto__": {}}} is an input on which neither the kit nor the badge hashes what was signed |
| `Signing.KitVerifySigned` | chaingraph/proof-walk-kit.js:390 | For every artifact, verifying a signed one asks the key about the signature it holds, as base58 gives it back, over the options it was made with and the artifact without the proof |
| `Signing.KitAcceptsExactly` | chaingraph/proof-walk-kit.js:390 | The kit accepts an artifact if and only if its proof has the type, suite and purpose, a value z followed by base58, and the key accepts the decoded signature over the rebuilt options and the artifact without the proof |
| `Signing.ShapeExactly` | chaingraph/proof-walk-kit.js:390 | Every proof of another type, suite, purpose or value form is refused |
| `Signing.MessageBytes` | chaingraph/proof-walk-kit.js:381-382 | The verified bytes are the digest of the canonical options, written out, followed by the digest of the canonical document |
| `Signing.SecuredKeeps` | chaingraph/proof-walk-kit.js:380 | The document that is hashed has every member of the artifact, and every member of its audit_signature but the proof |
| `Signing.SignedKeeps` | chaingraph/proof-walk-kit.js:389 | Signing changes audit_signature.proof alone, beside the loss of `__proto__` |
| `Signing.KitRoundTrip` | chaingraph/proof-walk-kit.js:389-390 | There, verifying what was signed asks the key about the signature as base58 gives it back, the very one unless all its bytes are zero, and the very 64 bytes that were signed |
| `Signing.ProofParts` | chaingraph/proof-walk-kit.js:381-390 | A proof passes the structural checks and rebuilds the options it was made from |
| `Signing.BadgeRestoresKit` | chaingraph/ocg-verify-badge.js:117-121 | The badge restores what the kit signed if and only if audit_signature held something beside a proof and no `__proto__` |
| `Signing.MessageBinding` | chaingraph/proof-walk-kit.js:382 | The 64 signed bytes fix options and document as JSON values, or a collision is returned |
| `Records.KitRestoresRecord` | chaingraph/kernels/_signverdict.inline.js:37-51 | The kit prints the text that `signRecord` hashed, the legacy text of the record, if and only if audit_signature was absent or an object with something beside a proof and `__proto__`, and nothing disturbs the legacy text of the document |
| `Records.BadgeRestoresRecord` | chaingraph/kernels/_signverdict.inline.js:37-51 | The badge prints that text if and only if audit_signature was an object and nothing disturbs the legacy text of the document |
| `Records.KitMessageOfRecord` | chaingraph/kernels/_signverdict.inline.js:37-51 | The 64 bytes the kit verifies are the 64 bytes `signRecord` signed if and only if the first condition holds of the record and nothing disturbs the options, or a collision is returned |
| `Records.BadgeMessageOfRecord` | chaingraph/kernels/_signverdict.inline.js:37-51 | So it is for the badge with the second |
| `Records.RecordRoundTrip` | chaingraph/kernels/_signverdict.inline.js:44-51 | Under its condition the kit asks the key about the very signature and message of `signRecord` |
| `Records.IndicesBreakRecords` | chaingraph/kernels/_signverdict.inline.js:15-51 | {"10": null, "9": null, "audit_signature": {}} is an input whose document the badge restores though `signRecord` hashed another text |
| `Receipt.VerifyArtifactProofs` | chaingraph/ocg-verify-badge.js:133-142 | The proof loop reports whether there are proofs and whether all of them verify |
| `Receipt.VerifyReceipt` | chaingraph/ocg-verify-badge.js:184-214 | The staged check with its early exits returns the first failure in order, or passes |
| `Receipt.PassExactly` | chaingraph/ocg-verify-badge.js:184-214 | It passes if and only if the structure is complete, the recomputed hash is the stated one, every proof verifies and every binding holds |
| `Verdict.EndorsedExactly` | chaingraph/ocg-verify-badge.js:117-142 | The proof check passes if and only if every proof the artifact carries, one or each of a list, has the type, suite, purpose and z-form, names a did:key, and is accepted by that key over its own options and the artifact without the proof; an audit_signature that is neither absent nor null must be true in a condition |
| `Verdict.ProofExactly` | chaingraph/ocg-verify-badge.js:122-132 | One proof is valid if and only if there are such a key and such a signature |
| `Verdict.ProofsAre` | chaingraph/ocg-verify-badge.js:134-136 | Which proofs an artifact carries |
| `Verdict.BindingExactly` | chaingraph/ocg-verify-badge.js:165-211 | A binding holds if and only if it states the payload digest, or its inclusion, of the algorithm rfc6962 with the payload digest as the leaf, rebuilds the hash it states |
| `Verdict.MerkleExactly` | chaingraph/ocg-verify-badge.js:165-181 | The inclusion check gives a root if and only if algorithm, leaf, index, size and path are well-formed and rebuild it |
| `Verdict.PathAsWritten` | chaingraph/ocg-verify-badge.js:176 | A path of digests is read as written, in any case, with or without the prefix |
| `Verdict.PassesExactly` | chaingraph/ocg-verify-badge.js:184-214 | A receipt passes if and only if it has both payload parts with fine numbers, states the digest of their canonical bytes, every proof it carries is accepted, and every binding it carries holds |
| `Verdict.FailsAtExactly` | chaingraph/ocg-verify-badge.js:184-214 | It fails at binding i if and only if everything before holds and that binding does not |
| `Receipt.IndexExactly` | chaingraph/ocg-verify-badge.js:171-172 | A finite index is accepted if and only if its real value is whole and not negative, and below 2^53 that value is the index |
| `Receipt.PayloadBinding` | chaingraph/ocg-verify-badge.js:68-77 | Payloads with one execution hash are the same JSON values, or a collision is returned |
| `Receipt.TamperEvidence` | chaingraph/ocg-verify-badge.js:184-214 | Two receipts that pass under one stated hash carry the same policy_parameters and output_payload, or a collision is returned |
| `Receipt.TamperEvidenceUnderSha256` | chaingraph/ocg-verify-badge.js:184-214 | The same with SHA-256 as the hash: the way out is two byte strings with one SHA-256 digest |
| `Receipt.AnchorsHold` | chaingraph/ocg-verify-badge.js:165-208 | Every Merkle-anchored binding of a passed receipt rebuilds its anchored hash from the payload digest at its index |
| `Receipt.DirectAnchorsHold` | chaingraph/ocg-verify-badge.js:208-211 | Every other binding states the execution hash |
| `Receipt.AnchoredInTree` | chaingraph/ocg-verify-badge.js:145-208 | If the anchored hash is the head of a list, the payload digest is in it at a place whose route the stated index and size describe, and the path is its audit path; the stated index is that place if and only if it has the same route in the list, as when the stated size is true; or a collision is returned |
| `Receipt.OnePlaceOnePayload` | chaingraph/ocg-verify-badge.js:145-214 | One place under one anchored hash holds one payload: two passed receipts anchored there, by indices and sizes that describe one route, carry the same values, or a collision is returned |
| `Receipt.RoutedBinding` | chaingraph/ocg-verify-badge.js:165-208 | The binding of any leaf with its audit path holds, with every index and size that describe its route |
| `Receipt.HonestBinding` | chaingraph/ocg-verify-badge.js:165-208 | So it does with the true index and size |
| `Receipt.FalseIndexPasses` | chaingraph/ocg-verify-badge.js:148-208 | The badge accepts the last of five leaves as index 2 of 3 |
| `Receipt.DidKeyRoundTrip` | chaingraph/ocg-verify-badge.js:100-106 | The key read from a did:key is the key it was made from |
| `Receipt.BadgeVerifySigned` | chaingraph/ocg-verify-badge.js:117-142 | Verifying a signed artifact asks the key of its did:key about the signature, over its options and the artifact without the proof |
| `Receipt.BadgeRoundTrip` | chaingraph/ocg-verify-badge.js:117-142 | What the kit signs the badge verifies with the key of the did:key, for every artifact whose audit_signature holds something beside a proof and no `__proto__` |
| `Receipt.BadgeRecordRoundTrip` | chaingraph/ocg-verify-badge.js:117-142 | What `signRecord` signs it verifies likewise, under the condition of the record signer |
| `Receipt.HonestReceipt` | chaingraph/ocg-verify-badge.js:184-214 | A receipt with the hash of its payload, its digest anchored in any list with the audit path, and the proof of the kit passes if and only if the key accepts the signature over the signed message |
| `Quant.ClipNeverBinds` | chaingraph/kernels/fixtures/zg1_gen_model.py:73-76 | No weight is ever clipped, and some weight is 127 or -127 unless all are zero |
| `Quant.AccumulatorError` | chaingraph/kernels/fixtures/zg1_gen_model.py:80-86 | The integer accumulator is the scaled logit up to 2^15 times the sum of the absolute inputs, 63.5 for each input, and 1/2 |
| `Quant.DecisionsAgree` | chaingraph/kernels/fixtures/zg1_gen_model.py:83-90 | Beyond that margin the quantized decision is the real one, for any number of features |
| `Quant.RoundExactly` | chaingraph/kernels/fixtures/zg1_gen_model.py:76 | Rounding gives n if and only if n is nearer than 1/2, or at 1/2 and even |
| `Quant.BoundaryIsRefused` | chaingraph/kernels/fixtures/zg1_gen_model.py:83-90 | A zero accumulator and a zero logit are both refused |
| `Quant.CountMatches` | chaingraph/kernels/fixtures/zg1_gen_model.py:96-104 | The match counter reaches the number of rows exactly when all decisions agree, and does so when every row clears the margin |

## Left out

- Web pages: badge rendering, buttons, deep links, downloads and timing are user interface.
- Signature schemes and WebCrypto: Ed25519, RSA and ECDSA are predicates on keys, signatures and messages; promises run to completion.
- SHA-256 compression: its rounds are a parameter of `Sha.Core`, and the message length times eight is an exact integer below 2^64.
- Curve formulas, Miller loop and pairing: groups are abstract, and the check on the parsed points is a parameter of `Seal.VerifySeal`.
- Constants: the control root, the control id and the verifying key are parameters; their values play no part in the proofs.
- `Wnaf.WNaf`: the companion point that keeps the running time constant is computed but nothing is said about it.
- `Text.Lower`: toLowerCase is modelled on ASCII letters; no other letter lowers to a hex digit, so no comparison with a digest changes.
- Numbers as doubles: digits and exponent stand for a double, so rounding while parsing is outside; the exact value of an integral double above 2^53 - 1 is the parameter `big` of `Receipt.Env`.
- `Receipt.DidKey`: a verificationMethod that is not a string counts as invalid; an array whose elements spell a did:key would be read by the source.
- Functions, symbols and array holes: they count as undefined, which is how the serializer treats them; artifacts are taken to be JSON data without toJSON methods or other prototypes.
- Which refusal the I-JSON guard reports first: the walk visits members in insertion order, while an engine visits array-index names first; only which refusal comes first depends on it.
- `Der.DerOid`: arcs are exact integers, while the source computes them as doubles, exact below 2^53, and joins them with dots.
- Malformed, truncated or indefinite-length BER, and empty object identifiers: the reader gives them no meaning.
- Certificates, timestamp tokens and OpenTimestamps headers: field picking on top of the DER reader.
- `Quant.DecisionsAgree`: real arithmetic in place of doubles and 64-bit integers; training by gradient descent and the synthetic data are not modelled.
- Vector files, manifests and command lines of the conformance verifier: file handling around the canonicalizer.
- The catalog, the embedded evidence, the site scripts and the upstream test files are not part of this model.
