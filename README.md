# Secret Skill Bloom: the encoding layer and the skill tree

This project models two parts of the Secret Skill Bloom web front end and
proves properties of them.

- **The `FHEUtils` codec** (`src/lib/fhe-utils.ts`). It stands in for real
  homomorphic encryption:
  - A value is written as a 4-byte big-endian word, in hex, behind `0x`.
    This string is the "encrypted data".
  - A "proof" is the value's hex padded with zeros to 64 digits, behind `0x`.
  - Decoding strips the `0x`, cuts the rest into pairs of characters, parses
    each pair as a byte and reads the first four bytes back as a word.
  - Five `encrypt*` wrappers and `decryptValue` delegate to these helpers.
- **The skill tree view** (`src/components/SkillTree.tsx`). This is:
  - the literal table of eleven skills and ten edges;
  - the status of each node (locked, available, unlocked, encrypted) and
    the activity of each edge;
  - the component's state, a set of unlocked ids and a point balance;
  - the two handlers that change that state, unlocking a skill and loading
    the player's data from the ledger.

The model has four modules:

- `Wrappers`: `Option` and `Result`.
- `JsBuiltins`: the JavaScript built-ins the codec relies on, modelled on
  strings of characters. They are `Number.prototype.toString(16)`,
  `String.prototype.padStart`, `parseInt(_, 16)`, `String.prototype.replace`
  with a string pattern, and the match of `/.{2}/g`.
- `FheUtils`: the codec.
- `SkillTree`: the tables, the status functions, the ledger-loading loop and
  the class `SkillTreeState` for the component's state.

Ledger calls are parameters of the handlers:

- whether a wallet and a contract are present (`connected`);
- whether the unlock transaction is confirmed (`confirmed`);
- the balance the ledger returns, or `None` when the query throws (`points`);
- the answer to each `isSkillUnlocked(i)` query, or that it threw (`answer`).

Decoding does not reject a hex string of odd length: the `/.{2}/g` match
silently drops a trailing odd digit, and only fewer than four complete pairs
make `getUint32` throw.

## Model

| member | source | states |
|---|---|---|
| JsBuiltins.ToHex | src/lib/fhe-utils.ts:110 | `toString(16)` of a non-negative integer: at least one lower-case hex digit, no leading zero, and its hex value is the integer |
| JsBuiltins.PadStart | src/lib/fhe-utils.ts:96 | `padStart`: the length is the larger of the target and the original, the original is the suffix, and everything before it is the fill character |
| JsBuiltins.ParseInt16 | src/lib/fhe-utils.ts:120 | `parseInt(s, 16)`: skips leading white space, takes one sign and an optional `0x`/`0X`, then the longest run of hex digits; no digits means NaN (`None`) |
| JsBuiltins.ParsePrefixedHex | src/lib/fhe-utils.ts:120 | `parseInt` of `0x` followed by hex digits is the digits' value |
| JsBuiltins.ReplaceFirst | src/lib/fhe-utils.ts:102 | `replace('0x', '')` with a string pattern: a string without the pattern is returned unchanged; otherwise exactly the first occurrence is replaced |
| JsBuiltins.IndexOf | src/lib/fhe-utils.ts:102 | the search behind `replace('0x', '')` finds the first occurrence of the pattern, or reports none |
| JsBuiltins.ReplaceInHex | src/lib/fhe-utils.ts:102 | `replace('0x', '')` leaves a string of hex digits unchanged, because it has no `x` |
| JsBuiltins.MatchPairs | src/lib/fhe-utils.ts:103 | `/.{2}/g` yields pieces of two characters each, at most half as many as the input has characters |
| JsBuiltins.MatchPairsOfHex | src/lib/fhe-utils.ts:103 | on hex digits the match yields exactly the consecutive pairs, dropping a trailing odd digit |
| JsBuiltins.HexUnique | src/lib/fhe-utils.ts:95-97 | two lower-case hex strings of equal length and equal value are the same string |
| FheUtils.Uint32Bytes | src/lib/fhe-utils.ts:92-94 | `setUint32(0, v, false)` stores four bytes whose big-endian reading is `v` modulo 2^32 |
| FheUtils.Uint32BytesBigEndian | src/lib/fhe-utils.ts:94 | for `v` below 2^32 the first byte is `v / 2^24` and the last is `v % 256` |
| FheUtils.ByteHex | src/lib/fhe-utils.ts:96 | the text of one byte is two lower-case hex digits whose value is the byte |
| FheUtils.ByteHexIsPadded | src/lib/fhe-utils.ts:96 | `b.toString(16).padStart(2, '0')` is exactly those two digits, for every byte |
| FheUtils.HexJoin | src/lib/fhe-utils.ts:95-97 | `.map(...).join('')` yields two characters per byte |
| FheUtils.HexJoinLowerHex | src/lib/fhe-utils.ts:95-97 | the joined text is lower-case hex digits only |
| FheUtils.HexJoinPairs | src/lib/fhe-utils.ts:95-97 | byte `k` of the buffer is exactly characters `2k` and `2k + 1` of the joined text |
| FheUtils.HexJoinValue | src/lib/fhe-utils.ts:95-97 | joining the two-digit hex of each byte gives a string whose hex value is the bytes read big-endian |
| FheUtils.SimulateEncryption | src/lib/fhe-utils.ts:90-98 | the encrypted data is `0x` followed by exactly eight lower-case hex digits |
| FheUtils.EncryptionValue | src/lib/fhe-utils.ts:90-98 | the eight digits spell `v` modulo 2^32 |
| FheUtils.EncryptionDigitPairs | src/lib/fhe-utils.ts:92-97 | the digits come two per byte in buffer order: byte `k` written by `setUint32` is digits `2k + 1` and `2k + 2` after `0x` |
| FheUtils.EncryptionIsBigEndian | src/lib/fhe-utils.ts:94-97 | for `v` below 2^32 the first digit pair spells the top byte `v / 2^24` and the last pair the low byte `v % 256` |
| FheUtils.PairByte | src/lib/fhe-utils.ts:103 | one element of the `Uint8Array` built from `parseInt(byte, 16)`: NaN becomes 0, and a pair of hex digits becomes its value |
| FheUtils.PairBytes | src/lib/fhe-utils.ts:103 | the byte array has one element per matched pair, each converted as above |
| FheUtils.SimulateDecryption | src/lib/fhe-utils.ts:100-106 | a decoded value is below 2^32, since `getUint32` reads one unsigned 32-bit word; the error results are characterised by the two lemmas below |
| FheUtils.DecryptionReadsFirstFourBytes | src/lib/fhe-utils.ts:100-106 | for hex digits behind an optional `0x`, decoding reads exactly the value of the first eight digits; later digits and a trailing odd digit are ignored |
| FheUtils.ShortInputRejected | src/lib/fhe-utils.ts:103-105 | fewer than eight hex digits are rejected: fewer than two by the failed match, two to seven by `getUint32` |
| FheUtils.DecryptEncrypt | src/lib/fhe-utils.ts:90-106 | decoding the encrypted data of any `v` gives back `v` modulo 2^32 |
| FheUtils.DecryptEncryptInRange | src/lib/fhe-utils.ts:90-106 | for `v` below 2^32, decoding the encrypted data gives back exactly `v` |
| FheUtils.GenerateProof | src/lib/fhe-utils.ts:108-111 | the proof is `0x` followed by at least 64 lower-case hex digits whose value is `v`, exactly 64 when `v` is below 16^64 |
| FheUtils.ProofExtendsEncryption | src/lib/fhe-utils.ts:95-97 | for `v` below 2^32 the proof's 64 digits are 56 zeros followed by the encrypted data's eight digits |
| FheUtils.FormatEncryptedValue | src/lib/fhe-utils.ts:113-116 | `formatEncryptedValue` equals `generateProof` on every input |
| FheUtils.ParseEncryptedValue | src/lib/fhe-utils.ts:118-121 | `parseInt(hexValue, 16)` of `0x` followed by hex digits is the digits' value |
| FheUtils.ParseFormatRoundTrip | src/lib/fhe-utils.ts:113-121 | `parseEncryptedValue(formatEncryptedValue(v))` is `v` for every non-negative integer, since `parseInt` accepts the `0x` |
| FheUtils.ParseEncryptedData | src/lib/fhe-utils.ts:90-98 | `parseEncryptedValue` of the encrypted data is `v` modulo 2^32 |
| FheUtils.EncryptValue | src/lib/fhe-utils.ts:8-21 | the pair `{encryptedData, inputProof}` decodes to `v` modulo 2^32 and parses to `v` |
| FheUtils.EncryptSkillPoints | src/lib/fhe-utils.ts:8-21 | `decryptValue` of the returned data gives the value modulo 2^32, and `parseEncryptedValue` of the proof gives the whole value |
| FheUtils.EncryptCost | src/lib/fhe-utils.ts:23-35 | the same promise as `encryptSkillPoints` |
| FheUtils.EncryptEntryFee | src/lib/fhe-utils.ts:37-49 | the same promise as `encryptSkillPoints` |
| FheUtils.EncryptPrizePool | src/lib/fhe-utils.ts:51-63 | the same promise as `encryptSkillPoints` |
| FheUtils.EncryptReputation | src/lib/fhe-utils.ts:65-77 | the same promise as `encryptSkillPoints` |
| FheUtils.DecryptValue | src/lib/fhe-utils.ts:79-87 | a decrypted value is below 2^32, and `0x` followed by eight hex digits decrypts to the value of those digits |
| FheUtils.WrappersAgree | src/lib/fhe-utils.ts:8-87 | the five `encrypt*` methods return the same pair for the same value, and `decryptValue` is `simulateDecryption` |
| SkillTree.FindIndexIn | src/components/SkillTree.tsx:230 | `findIndex`: the first position holding the id, or -1 exactly when no skill has it |
| SkillTree.FindSkill | src/components/SkillTree.tsx:220 | `find`: the skill at the `findIndex` position, carrying the id asked for, or nothing |
| SkillTree.SkillStatus | src/components/SkillTree.tsx:193-212 | unlocked iff the id is in the set; encrypted iff not unlocked, high-tier and all requirements unlocked; available iff not unlocked, low-tier, all requirements unlocked and the balance covers the cost; a high-tier skill is never available |
| SkillTree.StatusIgnoresPoints | src/components/SkillTree.tsx:194-204 | the balance does not affect the status of an unlocked or a high-tier skill |
| SkillTree.ConnectionActive | src/components/SkillTree.tsx:244-246 | `getConnectionStatus`: an edge is active iff both of its ends are in the unlocked set |
| SkillTree.ActiveEdgeJoinsUnlockedNodes | src/components/SkillTree.tsx:244-246 | an edge of the table is drawn active iff both nodes it joins have status unlocked |
| SkillTree.SkillIdsUnique | src/components/SkillTree.tsx:19-137 | no two skills of the table share an id |
| SkillTree.RequirementEdgesSpec | src/components/SkillTree.tsx:19-150 | an edge is in a table's requirement graph iff its target skill lists its source as a requirement |
| SkillTree.ConnectionsAreRequirementEdges | src/components/SkillTree.tsx:139-150 | the edge table is the requirement graph of the skill table, in table order |
| SkillTree.ConnectionsMatchRequirements | src/components/SkillTree.tsx:19-150 | an edge is drawn iff some skill has its target as id and its source among its requirements |
| SkillTree.ConnectionEndpointsExist | src/components/SkillTree.tsx:139-150 | both ends of every edge name a skill of the table |
| SkillTree.LockedPrerequisiteLocksTarget | src/components/SkillTree.tsx:199-211 | while an edge's source is not unlocked, its target is locked unless it is itself unlocked |
| SkillTree.ReportedIdsBelowSpec | src/components/SkillTree.tsx:176-187 | the loaded set holds exactly the ids of the indices the ledger reported unlocked; indices whose query threw are skipped |
| SkillTree.ReportedIdsAligned | src/components/SkillTree.tsx:176-187 | the id at index `k` is loaded iff the ledger reports index `k` unlocked |
| SkillTree.SentIndexReloadsSameId | src/components/SkillTree.tsx:229-231 | the index `handleUnlock` sends for the id of skill `k` is `k`, so that index's answer decides whether loading restores the same id |
| SkillTree.CollectUnlocked | src/components/SkillTree.tsx:176-187 | the loop over all indices builds exactly the reported set |
| SkillTree.GatedUnlockKeepsInvariant | src/components/SkillNode.tsx:36 | unlocking only nodes shown as available passes the balance check, never unlocks an id twice, and keeps every unlocked skill low-tier with its requirements unlocked |
| SkillTree.GateNeverUnlocksHighTier | src/components/SkillNode.tsx:36 | through the node's click gate a high-tier skill is never unlocked locally |
| SkillTree.SkillTreeState.constructor | src/components/SkillTree.tsx:158-159 | the state starts with no skill unlocked and a balance of 5 |
| SkillTree.SkillTreeState.HandleUnlock | src/components/SkillTree.tsx:214-242 | a call is sent iff a wallet is present, the id is known and the balance covers the cost, and it carries the id's `findIndex` position and the current balance; after a confirmed call the set gains exactly the id and the balance drops by exactly the cost; otherwise nothing changes |
| SkillTree.SkillTreeState.LoadPlayerData | src/components/SkillTree.tsx:168-191 | with a wallet and a balance answer, the balance is the ledger's and the set is exactly the reported one; without a wallet, or when the balance query throws, nothing changes |

## Left out

- `ContractUtils` and the contract ABI. Ledger calls are parameters of the handlers, as described above. The encryption `unlockSkill` applies to the balance is `FheUtils.EncryptSkillPoints`, which this model has.
- JavaScript numbers that are negative, fractional, NaN or above 2^53. Codec values are non-negative integers. The modulo-2^32 wrap of `setUint32` is modelled. The rounding of large doubles is not.
- UTF-16: strings are sequences of characters, while JavaScript's `/.{2}/g` and `padStart` count UTF-16 code units. The two agree on hex text.
- The `try`/`catch` blocks that only log and rethrow in the `encrypt*` wrappers. `decryptValue` reports the two decoding failures as `Err`.
- `async` timing, React batching and the `prev =>` functional updates. Each handler runs to completion on the state it starts from. Two overlapping unlocks are not modelled.
- Toasts, `isLoading` and the rendering of nodes and edges, including `SkillNode`'s styling and `SkillConnection`'s geometry.
- `SkillTree.SkillTreeState.HandleUnlock` has no guard against an id already unlocked or against unmet requirements, because `handleUnlock` has none. The node's click gate appears only as the precondition of the gate lemmas.
- The `useEffect` that triggers loading when the wallet changes. `LoadPlayerData` is the handler itself.
