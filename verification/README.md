# A verified model of the money-critical core

LNURLcash notes are bearer money: whoever holds a note's spend holds its value.
This project models the parts of the crate where a wrong branch destroys money
and proves, for every input and every run, what those parts keep.

| file | what it models |
|---|---|
| `Wallet.dfy`, `Safety.dfy`, `Client.dfy`, `Mint.dfy`, `Protocol.dfy`, `Errors.dfy` | rotate, split, merge, melt and settle, re-sent over a transport that may lose either half of an exchange, against any mint, and a wallet over whole runs of them |
| `Worth.dfy` | what notes are worth across each operation, what is sent and how often, and what comes back |
| `Mints.dfy` | a mint that keeps LUD-25's replay rule, one that does not, and exactly when the client needs the rule |
| `Taproot.dfy`, `SpendMessage.dfy`, `Tapscript.dfy`, `Cw1.dfy`, `Spends.dfy` | taproot trees and control blocks, the message a spend signs, the tapscript leaf walk, the `cw1` codec, and what opens a note |
| `Keys.dfy`, `Curve.dfy` | BIP-32 steps, note paths, share keys and x-only tweaks over a cyclic group of odd order |
| `Amounts.dfy`, `Bech32.dfy`, `Certificates.dfy`, `NoteUrl.dfy` | amounts in `cs1` and BOLT-11 prefixes, certificate messages, note URLs as query lists |
| `Fees.dfy` | the fee's overflow-free division and the binary search that inverts it |
| `Wire.dfy` | the client's theorems over the spend layer's own names |
| `NoteCheck.dfy` | a note's spend and certificate verified together, offline |
| `Text.dfy`, `Bytes.dfy`, `Hashing.dfy`, `Wrappers.dfy` | strings, fixed-width integers, hexadecimal, tagged hashes, Option and Result |

## How the outside is treated

SHA-256, HMAC-SHA512, secp256k1's x coordinates, the bech32m checksum, ECDSA
recovery, BIP-340 verification, URL hosts and fresh randomness are parameters.
What is needed of them is a stated hypothesis:

- collision-freeness is assumed only of the finite set of inputs a statement
  hashes (`Hashing.CollisionFree`), never of SHA-256 as a whole;
- `Curve.Group.Valid` gives a cyclic group of odd order in which exactly one of
  a point and its negation has even y and only those two share an x coordinate
  (`Curve.GroupsExist` meets it);
- `Bech32.Codec.Valid` gives BIP-350's prefix separation, lengths and canonicity
  for prefixes of lowercase letters and digits, and asks nothing of the other
  prefixes decoding admits (`Bech32.CodecsExist` meets it);
- a signature is asked only not to pass for another of the at most three messages
  the check in hand tries (`Certificates.SignedFor`, `Spends.SignsOnly`); what
  else it might verify or recover over is left open;
- `Safety.Lawful` and `Mint.HonestInfo` say what is asked of a mint. It may do
  anything else, chosen send by send from everything that has happened:
  refuse, garble, stay silent, apply and lose the answer.
  `Mints.ReplayingMintIsLawful` and `Mints.TruthfulInfoIsHonest` show LUD-25's
  own mint meets both. `Mints.NothingOrphanedIff` and `Mints.SettledIsLiveIff`
  say exactly when the replay rule in `Lawful` is needed at all.

The class `Client.HttpClient` and the methods elsewhere are the imperative
code; each is proved equal to a specification function, and the lemmas speak
about those functions.

## Where the code and its comments part

- The `u64::MAX` fallback of `gross_up_for_mint_fee` is commented as unreachable
  below 10^6 ppm (src/fees.rs:121-123). It is reached at 500001 ppm for 2^62
  msat, where the least gross still fits a u64 (`Fees.FallbackIsReachable`).
  `Fees.SearchSucceedsIff` gives the exact condition.
- A mint that applied a mutation and refuses its re-send with a reason that says
  neither spent nor unknown leaves a live note nobody holds the secret to, and
  makes `settle_note` return a burned k1. lnurl-mint's older wording is such a
  reason (`Errors.OlderWordingIsBare`), and a mint using it is honest
  (`Mints.OlderMintRefusesBarely`). With `mutation_retries` of zero no honest
  mint can do this; with any retry, one can to every mutation that can be sent
  and applied (`Mints.NothingOrphanedIff`, `Mints.SettledIsLiveIff`).
- `decode_amount_suffix` reads pico digits into a u128 and the BOLT-11 decoder
  into a u64. They agree on every other suffix (`Amounts.DecodersAgree`), and an
  amount is out of every invoice's reach exactly when it is no multiple of 100
  msat and ten times it passes a u64 (`Amounts.StatableIff`).

## Model

| member | source | states |
|---|---|---|
| `Wallet.RunKeepsWealth` | src/client.rs:252-433 | over any run of rotates, merges, splits, melts and settles, whatever each send loses and however often it is retried, a wallet that keeps every secret a result or an error hands it opens notes, outstanding or being paid out, worth exactly what it opened before |
| `Wallet.OperationKeepsWealth` | src/client.rs:265-433 | one such operation neither loses nor makes money, whether it ends in a result, a forgiven refusal or an error |
| `Wallet.SettleKeepsWealth` | src/client.rs:392-433 | the same for a settle: what it returns, or what its error carries, is worth what was spent |
| `Wallet.MeltTouchesOneNote` | src/client.rs:252-263 | against any mint at all, a melt changes nothing or moves its one note from outstanding to being paid out at its own value |
| `Safety.RotateAndMergeAreSafe` | src/client.rs:265-313 | over any losses and any number of retries, every outstanding note was outstanding before at the same value or is opened by the secret returned in the result or carried by the error, in output order; only the request's inputs burn; value is conserved; the mutation lands at most once, and exactly once on Ok |
| `Safety.SplitIsSafe` | src/client.rs:279-299 | the same for a split and its two secrets in output order |
| `Safety.PerformIsSafe` | src/client.rs:188-215 | the same for any request that mints, and RequestRefused leaves mint and send count untouched |
| `Safety.AtMostOnceAlways` | src/client.rs:188-215 | with no hypothesis on the mint: re-sending the identical request applies it at most once and conserves value |
| `Safety.MutateReaches` | src/client.rs:188-215 | with none either: every run of the loop leaves the mint as it was or with the request applied once, and believes an honest mint only rightly |
| `Safety.MutateOutcome` | src/client.rs:172-215 | every run of the retry loop leaves the mint as it was or with the request applied once; Ok implies applied; applied without Ok implies an error carrying the request's secrets; at most retries + 1 sends |
| `Safety.AttemptStep` | src/client.rs:128-170 | one exchange keeps all of that, whatever is lost |
| `Safety.FailuresAfterSending` | src/client.rs:131-141 | with no hypothesis on the mint: RequestRefused exactly when nothing can be sent, and any other failure carries the secrets unless it is the mint's own plain refusal or pending |
| `Safety.MeltIsSentAtMostOnce` | src/client.rs:194-198 | a melt is sent at most once whatever the configuration and the mint |
| `Safety.SettledNoteIsLive` | src/client.rs:392-433 | a settled k1 is outstanding at that point; a failure after anything was sent carries the fresh secret; if the mint changed, the caller holds it |
| `Safety.ProbeDecides` | src/client.rs:362-368 | probing an input after an ambiguous mutation: Live means it never landed, Gone means it did |
| `Worth.SplitIsWorthItsParts` | src/client.rs:279-299 | over the arguments of a split: the note of every k1 passed burns, the new secret's note is worth exactly the amount asked for and the change note the rest of what they were, nothing else moves; that or nothing against any mint, and exactly that on Ok from an honest one |
| `Worth.MergedIsWorthItsInputs` | src/client.rs:265-313 | over the arguments of a rotate or merge: the note of every k1 passed burns and the one output is worth their sum; that or nothing against any mint, and exactly that on Ok from an honest one |
| `Worth.MeltSendsItsNote` | src/protocol.rs:545-550 | a melt sends its k1 and its trimmed invoice once, or nothing; confirmed by an honest mint, that k1's note is being paid out at its own value |
| `Worth.SettledAmountIsItsWorth` | src/client.rs:370-433 | where the informational GET states what a note is worth, the amount a settle reports is what the k1 it returns is worth at the mint, rotated or forgiven, whatever the caller expected |
| `Worth.SettledFieldsAreItsOwn` | src/client.rs:401-433 | a settled note's amount and callback are the GET's, and its certificate the rotate's or, where the refusal was forgiven, the caller's |
| `Worth.AlreadyInUseKeepsTheSecrets` | src/errors.rs:228-262 | a mutation refused with "already in use", in any case and outer whitespace, ends in NoteSpent carrying the request's secrets |
| `Worth.LandedThenAlreadyInUse` | src/client.rs:172-215 | a run that landed, lost its answer and is told so on the re-send has applied the request once and ends in NoteSpent carrying its secrets |
| `Worth.SettleForgivesIff` | src/client.rs:398-433 | a failed rotate is forgiven exactly when it was refused unsent, refused by the mint or pending; every other error surfaces as it is, and so does a failed GET |
| `Worth.ProbeIff` | src/client.rs:362-368 | a probe says Gone exactly when the answer says spent or unknown, and Live exactly when it is a note |
| `Worth.MergeReportsItsAnswer` | src/protocol.rs:722-804 | the certificate a rotate or merge returns is its last answer's, under the current name unless that is absent or empty |
| `Worth.SplitReportsItsAnswer` | src/protocol.rs:749-804 | and a split's two are each their own output's |
| `Worth.MeltReportsItsAnswer` | src/protocol.rs:798-803 | a melt's proof and verify link are its answer's |
| `Worth.MergeSendsIff` | src/protocol.rs:640-720 | a rotate or merge is sent exactly when the client may send, has a k1 to burn and a secret whose hash names a note; otherwise nothing changes and the error says which is missing |
| `Worth.SplitSendsIff` | src/protocol.rs:658-711 | a split, exactly when both its secrets do |
| `Worth.UndecidedIsResent` | src/client.rs:188-215 | while no answer decides, the identical request is re-sent until its retries are used up, and what surfaces is Ambiguous with its secrets |
| `Worth.NothingArrives` | src/client.rs:172-215 | a run none of whose sends arrives fails and leaves the mint as it was |
| `Worth.DecidedIsFinal` | src/client.rs:199-213 | the first answer with status OK or ERROR is the last |
| `Worth.RetriesAre` | src/client.rs:194-198 | undecided to the end, a rotate or merge is sent once and mutation_retries times more, and a melt once |
| `Worth.SplitRetriesAre` | src/client.rs:188-215 | and a split the same, its error carrying both secrets in output order |
| `Mints.OrphanedWithoutReplay` | src/errors.rs:146-160 | a mint that applied, lost the answer and then refused plainly orphans the outputs of any rotate, merge or split |
| `Mints.SettledBurnedWithoutReplay` | src/client.rs:418-425 | and settling against it reports a burned k1 as settled |
| `Mints.OlderMintRefusesBarely` | src/errors.rs:236-238 | there is such a mint for every applicable call, and it is honest: it answers with the older wording |
| `Mints.NothingOrphanedIff` | src/client.rs:188-215 | every honest mint leaves nothing orphaned exactly when the client never retries, cannot send the request, or the mint cannot apply it |
| `Mints.SettledIsLiveIff` | src/client.rs:392-433 | every honest mint with a truthful GET leaves a settled k1 live exactly when settling is not at risk: no retry, nothing sendable, an inapplicable rotate, or, over decoders in general, a k1 whose lowercase names another note |
| `Mints.ReplayingMintIsLawful` | src/client.rs:174-183 | a mint that replays a byte-identical mutation, certificates and all, meets what is asked of one that applies mutations: OK only when applied, an ERROR burns nothing, an applied call is never refused but as dead |
| `Mints.ReplayResolves` | src/client.rs:174-178 | against that mint, a run in which any attempt is delivered and answered has applied the request exactly once and ends in success, or in Unverifiable with its secrets where the mint owes a certificate it never issues |
| `Mints.DeliveredRotateSucceeds` | src/client.rs:265-277 | against that mint, issuing certificates, a client that may send and holds an outstanding note and a fresh nameable secret rotates whenever any attempt gets through: the note burns and the secret's is worth what it was |
| `Mints.CertifiedAnswersSucceed` | src/protocol.rs:763-804 | an answer that certifies both outputs succeeds under every policy and for every output |
| `Mints.TruthfulInfoStatesWorth` | src/protocol.rs:352-398 | a mint that answers an informational GET from its own books states what a note is worth |
| `Mints.ProbeIsExact` | src/client.rs:362-368 | asked of such a mint, a probe is Live exactly for an outstanding note, Gone for any other, and Unknown only where nothing may be sent |
| `Client.HttpClient.RunMutation` | src/client.rs:188-215 | the loop over attempts is the recursive specification: the identical request, re-sent only while ambiguous |
| `Client.HttpClient.Run` | src/client.rs:128-170 | offline or a disallowed URL sends nothing; a lost or unreadable answer is ambiguous with the request's secrets |
| `Client.HttpClient.RotateNote` | src/client.rs:265-277 | the specified rotate |
| `Client.HttpClient.Split` | src/client.rs:279-299 | the specified split |
| `Client.HttpClient.MergeAll` | src/client.rs:301-313 | the specified merge |
| `Client.HttpClient.Melt` | src/client.rs:252-263 | the specified melt |
| `Client.HttpClient.Fetch` | src/client.rs:217-220 | the specified informational GET, with the certificate kept off the wire |
| `Client.HttpClient.Probe` | src/client.rs:362-368 | the specified probe |
| `Client.HttpClient.Settle` | src/client.rs:392-433 | the specified settle |
| `Mint.ApplyConserves` | src/client.rs:174-183 | applying a rotate, split or merge leaves the outstanding total unchanged |
| `Mint.ApplicableIff` | src/client.rs:174-183 | a mint can apply a call exactly when its k1s open distinct outstanding notes, its outputs name distinct notes never seen, and a split asks for no more than they are worth |
| `Mint.ApplyKeepsValid` | src/client.rs:180-183 | outstanding, burned and in-flight notes stay disjoint, nothing applied is forgotten and no call is applied twice |
| `Mint.AppliedIsNotApplicable` | src/client.rs:180-183 | an applied call can never apply again |
| `Protocol.OnlyOkIsOk` | src/protocol.rs:749-804 | a confirming answer is success or Unverifiable and nothing else is; neither OK nor ERROR is exactly Ambiguous; an ERROR is its classified reason |
| `Protocol.OkMeansCertified` | src/protocol.rs:763-797 | success means every output a cp1 or the policy demands a certificate for came back with a non-empty one |
| `Protocol.UnverifiableIff` | src/protocol.rs:768-797 | Unverifiable is exactly a confirmed rotate, split or merge whose first output, or a split's second, was owed a certificate and came back with none under either name |
| `Protocol.NoteInfoOkIff` | src/protocol.rs:352-418 | an informational GET is a note exactly when it is a withdrawRequest in order that echoes the queried note and, on demand, publishes a key; what it is then read as |
| `Protocol.CompressedPubkeyIff` | src/protocol.rs:70-75 | a key is accepted exactly when it is, up to case and outer whitespace, the hexadecimal of 33 bytes beginning with 2 or 3 |
| `Client.StrippedOf` | src/protocol.rs:334-350 | what is asked of the mint is the query without its c and sig pairs, wherever they stand |
| `Errors.RefusalCarriesIffDead` | src/errors.rs:135-162 | a refusal keeps the secrets attached to it exactly when it says spent or unknown |
| `Errors.ClassificationIgnoresCase` | src/errors.rs:244-262 | letter case never changes what a refusal means |
| `Errors.DeadWordSaysDead` | src/errors.rs:244-262 | a reason with spent, unknown or not found anywhere in it, in any case, says a k1 is dead |
| `Errors.PendingIff` | src/errors.rs:244-247 | "pending" in any case, and only that, is a note in flight |
| `Errors.AlreadyInUseIsSpent` | src/errors.rs:228-252 | "already in use" in any case and outer whitespace is NoteSpent |
| `Errors.SpentIff` | src/errors.rs:248-252 | NoteSpent is exactly a reason holding "spent" or being "already in use" |
| `Errors.UnknownIff` | src/errors.rs:253-258 | NoteUnknown is exactly one holding "unknown" or "not found" and neither of those |
| `Errors.RejectedIff` | src/errors.rs:244-262 | and the plain refusal, with its reason as sent, is every other |
| `Errors.OlderWordingIsBare` | src/errors.rs:236-238 | lnurl-mint's older wording is a plain refusal and carries nothing |
| `Wire.GeneratedSecretIsWellMade` | src/protocol.rs:689-693 | a generated secret's spend opens the note its disclosed hash names |
| `Wire.RotateToGeneratedNote` | src/client.rs:265-277 | a rotate to a generated secret is safe over the crate's own hash, output and spend decoders |
| `Wire.SettleToGeneratedNoteIff` | src/client.rs:392-433 | over the crate's own decoders, every honest mint leaves a k1 settled to a generated note live exactly when the client never retries or the rotate cannot be sent or applied |
| `Wire.EchoedIff` | src/protocol.rs:425-438 | a GET's echo is taken for the queried note exactly when the two read the same or open one output key with the echo not seen to fail at the queried domain |
| `Wire.BearerEchoes` | src/protocol.rs:418-438 | so a bearer note may be asked for in any spelling and echoed in its full one, and the other way round |
| `Wire.OnlyKeysAreCp1` | src/protocol.rs:630-634 | the outputs owed a certificate whatever the policy are the cp1 strings of a point; a bearer note's hash is none |
| `Taproot.FoldIff` | src/spend.rs:109-123 | folding a script and path to a tree's root is exactly being a leaf of that tree with that path |
| `Taproot.LeafNamesOutputKey` | src/spend.rs:179-195 | every leaf with its control block names the tree's Q, at each depth up to 128 and at none beyond |
| `Taproot.AcceptedControlBlock` | src/spend.rs:184-195 | every accepted control block is rebuilt from its parts and commits to their tweak, parity included |
| `Taproot.OutputKeyOf` | src/spend.rs:184-195 | the in-place fold computes the specified key |
| `Taproot.FoldSiblings` | src/spend.rs:189-192 | the loop over 32-byte siblings is the fold |
| `Taproot.CompactSizePrefixFree` | src/spend.rs:87-106 | nothing after a compact size can be mistaken for part of it |
| `Taproot.LeafMessageInjective` | src/spend.rs:109-114 | a leaf's hashed message determines its version and script |
| `Taproot.SortedInjective` | src/spend.rs:117-123 | a branch's hashed message determines its two children up to order |
| `Taproot.BranchHashesSmallerFirst` | src/spend.rs:117-123 | asked either way round, a branch hashes the TapBranch tag twice, then the child that is the smaller number, then the larger |
| `Taproot.LeafHashIsTagged` | src/spend.rs:109-114 | a leaf hashes the TapLeaf tag twice, its version, its script's length, its script |
| `Taproot.CompactSizeBytes` | src/spend.rs:87-106 | lengths below 253 are one byte; larger ones a marker of 253, 254 or 255 and the 2, 4 or 8 bytes that spell them, least significant first |
| `Taproot.TweakedKeyIs` | src/spend.rs:142-163 | the output key is the point t past the even point of the internal key, t being the TapTweak hash of key and root, with its parity, and none for a t out of range or a sum of zero |
| `SpendMessage.MessageBinds` | src/spend.rs:298-329 | two spend messages are equal exactly for the same Q, lowercased domain, locktime, sequence and leaf |
| `SpendMessage.MessageLength` | src/spend.rs:310-329 | 174 bytes for a key path and 211 for a script path, so none is both |
| `SpendMessage.MessageLayout` | src/spend.rs:310-329 | every field sits at its BIP-341 or BIP-342 offset, key version and code-separator position included |
| `SpendMessage.MessageInBytes` | src/spend.rs:285-329 | the same in bytes: every constant, what each hash is of, and both times least significant byte first |
| `SpendMessage.SighashIsTagged` | src/spend.rs:331-365 | a sighash is the TapSighash tag twice, a zero epoch and the message; a key path claims no time |
| `SpendMessage.SighashBinds` | src/spend.rs:331-365 | sighashes are equal exactly for the same spend |
| `SpendMessage.SpendSigMsg` | src/spend.rs:298-329 | the message grown field by field is the specified one |
| `Tapscript.CheckLeafReadsInstructions` | src/spend.rs:475-502 | on serialised instructions the walk refuses exactly when a non-push opcode is OP_SUCCESSx, whatever is pushed, and a truncated push after them changes nothing |
| `Tapscript.EveryScriptParses` | src/spend.rs:479-501 | every script is an instruction list, then nothing or one truncated push |
| `Tapscript.CheckLeafIff` | src/spend.rs:475-502 | for every version byte and script, refusal is exactly a wrong version or a reserved opcode |
| `Tapscript.OpSuccessIsTheRest` | src/spend.rs:461-467 | the reserved opcodes are every one BIP-342 leaves no meaning |
| `Tapscript.ShortPushesInBytes` | src/spend.rs:486-487 | direct pushes and PUSHDATA1, byte by byte |
| `Tapscript.PushData2InBytes` | src/spend.rs:488-491 | PUSHDATA2, its length least significant byte first |
| `Tapscript.PushData4InBytes` | src/spend.rs:492-495 | PUSHDATA4, the same |
| `Tapscript.CheckLeafBytes` | src/spend.rs:475-502 | the index walk computes the specified verdict |
| `Cw1.PayloadRoundTrip` | src/recoverable.rs:162-209 | decoding undoes encoding for every spend whose items fit 16-bit lengths |
| `Cw1.EncodesWhenItemsFit` | src/recoverable.rs:170-171 | items of at most 65535 bytes always encode |
| `Cw1.EncodesIff` | src/recoverable.rs:166-172 | items encode exactly when none is longer than 65535 bytes |
| `Cw1.PayloadInBytes` | src/recoverable.rs:162-174 | the payload is the two times, most significant byte first, then script, control block and witness in order |
| `Cw1.ItemInBytes` | src/recoverable.rs:166-172 | an item is its length in two bytes, the high one first, then itself |
| `Cw1.PayloadCanonical` | src/recoverable.rs:182-207 | every accepted payload re-encodes to the same bytes |
| `Cw1.StringRoundTrip` | src/recoverable.rs:162-209 | the string comes back exactly when its payload is at most 5114 bytes and its control block commits to a key |
| `Cw1.StringCanonical` | src/recoverable.rs:182-209 | every accepted string is, up to case and outer whitespace, the one its spend encodes to |
| `Cw1.EncodeCw1Payload` | src/recoverable.rs:162-174 | the growing payload is the specified one, refused exactly with a long item |
| `Cw1.DecodeItemList` | src/recoverable.rs:187-196 | the moving index reads the specified items |
| `Cw1.DecodeCw1Payload` | src/recoverable.rs:184-207 | the decoded payload is the specified one |
| `Spends.BearerIsOneSpend` | src/spend.rs:233-257 | every spelling of a 32-byte preimage and its full cw1 decode to the same spend of the same Q and both open it at every domain |
| `Spends.Cw1StringIsItsSpend` | src/spend.rs:428-456 | any encodable script spend is read back as itself, never as a preimage or a ck1 |
| `Spends.BearerLeafPasses` | src/spend.rs:605-608 | a bearer leaf passes the leaf rules whatever its hash contains |
| `Spends.PreimageIsThisSpend` | src/spend.rs:233-257 | a preimage is short for one spend: no time claimed, the hashlock of its hash, the NUMS key's control block with the tweak's parity, and itself alone on the stack |
| `Spends.Ck1IsReadByLength` | src/spend.rs:438-452 | 96 bytes are a point's key and a signature, 65 the recoverable shape, which opens what it recovers to as legacy at every domain, and any other length is no spend |
| `Spends.ScriptVerdicts` | src/spend.rs:605-625 | a script spend is refused by the leaf rules, opened or failed as a hashlock, or left unevaluated exactly when it is no hashlock |
| `Spends.OutputsNameNotes` | src/spend.rs:378-383 | a cp1 names its own key exactly when that is a point, and a hash its bearer note's key |
| `Spends.Hex32Iff` | src/spend.rs:369-374 | a preimage or hash is read exactly from the 64 hex digits of its 32 bytes, in any case, outer whitespace aside |
| `Spends.SignsIff` | src/recoverable.rs:681-694 | signing an ownership succeeds exactly for a scalar, a domain that names one, and a signer that signs that spend's sighash |
| `Spends.BearerHashIff` | src/spend.rs:416-422 | a spend names a bearer hash exactly when its script is that hash's leaf and its key that hash's note |
| `Spends.SecretOpensItsOutput` | src/spend.rs:378-383 | a secret's spend and its disclosed hash name the same note |
| `Spends.OnlyAPreimageOpens` | src/spend.rs:605-625 | under a bearer note's merkle root a spend opens it exactly with a lone preimage of at most 520 bytes |
| `Spends.ScriptOpensIff` | src/spend.rs:577-625 | of every script spend, exactly the version 0xc0 hashlocks of their one witness item of at most 520 bytes are reported open |
| `Spends.KeyPathOpensOneMint` | src/recoverable.rs:730-757 | a signature that opens a note at one domain, and passes for nothing else tried at another, opens it there exactly when the lowercased domains are equal |
| `Spends.SignedCk1Opens` | src/recoverable.rs:730-757 | a ck1 whose signature verifies for a mint's domain, encoded and read back, is the same spend and opens its key's note there |
| `Spends.OwnershipOpensItsMint` | src/recoverable.rs:681-757 | what sign_note_ownership returns reads back as a ck1 of the signer's own key, opens at the domain signed for, and at another exactly when the two are one domain |
| `Spends.PreimageNamesItsHash` | src/spend.rs:416-422 | every 32-byte preimage whose note tweaks names its own hash as the bearer hash |
| `Spends.SpendIgnoresCase` | src/spend.rs:428-456 | whatever decodes as a spend decodes as the same spend in lowercase, the form every note URL carries it in |
| `NoteCheck.BearerNoteVerifiedIff` | src/signature.rs:415-456 | a preimage and its certificate, in any spelling and layout, are a verified note exactly when what the mint signed certifies that preimage's note for that amount |
| `NoteCheck.NoteVerifiedIff` | src/signature.rs:415-474 | whatever the spend and the certificate's spelling, a note is verified exactly when the spend opens it and what the mint signed certifies it |
| `NoteCheck.KeyPathNoteVerifiedIff` | src/signature.rs:415-474 | a ck1 is a verified note exactly when its certificate certifies its key and its signature is of the spend at the note's own domain or of a fixed legacy message |
| `NoteCheck.OwnedNoteVerifiedIff` | src/signature.rs:415-474 | a ck1 signed for one mint is a verified note at another exactly when the two are one domain and the certificate holds there |
| `NoteCheck.WrittenUrlChecksAsItsParts` | src/note.rs:122-146 | check_note_url of the URL with_new_k1 writes is check_note of that k1, the amount the note declares and that certificate, and nothing without a certificate |
| `Keys.PublicAndPrivateAgree` | src/recoverable.rs:463-507 | for every root, account, share and index, the note a SERVICE derives from the share's cx1 is the note at the wallet's own path, and one exists exactly when the other does |
| `Keys.StepsCommute` | src/cash.rs:97-169 | CKDpriv and CKDpub step to the two halves of one child, or neither steps |
| `Keys.PrivateChildIs` | src/cash.rs:97-132 | CKDpriv over HMAC-SHA512 itself: the left half added to the key, the right half the chain code, and a child exactly when the left half is below the order and the sum nonzero |
| `Keys.PublicChildIs` | src/cash.rs:138-169 | CKDpub the same over the point its parity byte and x name, hardened indices refused |
| `Keys.PathsAre` | src/recoverable.rs:405-432 | the indices of a wallet, change and share path, and every number refused |
| `Keys.NoteKeyIsOneKey` | src/recoverable.rs:463-476 | a note key's secret, compressed point and output key are one key's |
| `Keys.LegacyNoteIs` | src/recoverable.rs:577-631 | the superseded tweak over SHA-256 itself, and the point it names |
| `Keys.PathsAreDistinct` | src/recoverable.rs:414-432 | no note's path is another's, nor runs through it |
| `Keys.TweakSidesAgree` | src/spend.rs:142-177 | the tweaked secret key signs for the tweaked output key for either parity, parity bit included, and exists exactly when it does |
| `Keys.LegacySidesAgree` | src/recoverable.rs:586-647 | the superseded secret and public derivations name one note for every purpose and index and fail together |
| `Keys.StepDataIsDistinct` | src/cash.rs:101-112 | equal hashed step inputs mean the same index and the same key, so hardened and public steps never collide |
| `Keys.LegacyTweakMessageInjective` | src/recoverable.rs:586-600 | the superseded tweak's message determines key, chain code, purpose or its absence, and index |
| `Keys.DeriveCashChild` | src/cash.rs:97-132 | the bytes filled in place are the specified step |
| `Keys.Walk` | src/cash.rs:243-249 | the walk updates one node per index and stops at the first failure |
| `Keys.DeriveNoteKey` | src/recoverable.rs:463-476 | the specified note key, or the specified refusal |
| `Amounts.AmountSuffixRoundTrip` | src/recoverable.rs:223-261 | every u64 amount survives its suffix |
| `Amounts.UnitsMean` | src/recoverable.rs:239-261 | what a number means under each multiplier, and when it is no u64 amount |
| `Amounts.CoarsestIsWritten` | src/recoverable.rs:223-237 | the suffix written is in the coarsest unit that states the amount |
| `Amounts.WholeInvoice` | src/bolt11.rs:34-91 | a whole invoice on each of the five networks states the amount its suffix does |
| `Amounts.AmountlessInvoice` | src/bolt11.rs:57-91 | and one without an amount states none |
| `Amounts.InvoiceInAnyCase` | src/bolt11.rs:77-80 | letter case and outer whitespace of an invoice say nothing |
| `Amounts.Cs1RoundTrip` | src/recoverable.rs:281-303 | amount and signature come back for every u64 amount exactly when the recovery id is 0 to 3 |
| `Amounts.Cs1Reads` | src/recoverable.rs:290-303 | a certificate is read in whatever case the codec reads it, outer whitespace aside, and refused exactly for a suffix that states no amount or a last byte that is no recovery id |
| `Amounts.Cs1StatesItsAmount` | src/recoverable.rs:290-303 | a decoded certificate is the encoding of a prefix stating the amount it decodes to |
| `Amounts.DecodersAgree` | src/bolt11.rs:57-91 | the two decoders agree on every suffix but pico digits above u64::MAX, which only the cs1 decoder reads |
| `Amounts.InvoiceAmountIsItsSuffix` | src/bolt11.rs:77-91 | every amount an invoice states is what its suffix states as a cs1 |
| `Amounts.WidePicoAmounts` | src/recoverable.rs:234-261 | an amount out of an invoice's reach is stated by its cs1 suffix and by no invoice of any network |
| `Amounts.StatableIff` | src/bolt11.rs:57-91 | some human-readable part states an amount exactly when it is a multiple of 100 msat or ten times it fits a u64 |
| `Amounts.WidePicoIsRefused` | src/bolt11.rs:57-91 | an invoice whose pico digits pass a u64 states no amount, on any network |
| `Certificates.MessageInjective` | src/signature.rs:180-186 | a current message determines domain, amount and id, whatever colons the domain holds |
| `Certificates.LegacyMessageInjective` | src/signature.rs:204-209 | a legacy message determines amount and id |
| `Certificates.FamiliesDisjoint` | src/signature.rs:180-210 | no legacy message equals a current one |
| `Certificates.MessagesAsText` | src/signature.rs:180-209 | the two messages as text, colon by colon, the amount in decimal and the id in lowercase |
| `Certificates.DigestIsDouble` | src/signature.rs:166-170 | what is signed is two SHA-256s of the Lightning prefix and the message |
| `Certificates.LayoutsRead` | src/signature.rs:270-301 | the recovery id is read last, and for a legacy message first as well |
| `Certificates.CurrentAsIssued` | src/signature.rs:307-372 | a certificate over the current message, in the form it is issued in, is reported as the key's own |
| `Certificates.LegacyAsIssued` | src/signature.rs:331-348 | a legacy one in raw hex passes the legacy check in either layout |
| `Certificates.OtherPrefixIsNoCs1` | src/signature.rs:253-262 | nothing under a prefix that does not begin with cs is a certificate |
| `Certificates.AnyCs1Reads` | src/signature.rs:253-262 | and 65 bytes under one that does are, in whatever case the codec reads them |
| `Certificates.VerifiesOnlyHexIds` | src/signature.rs:229-231 | nothing verifies for an id that is not 32 bytes in hex, and every spelling of one verifies the same |
| `Certificates.OuterSpaceIsNothing` | src/signature.rs:236-250 | outer whitespace of an id or a certificate changes nothing |
| `Certificates.ReportsWhatWasSigned` | src/signature.rs:245-372 | whatever spelling and layout the certificate comes in, each report is given exactly when its message is the one signed, the current message only in LUD-25's current form; a second recovery over a message no check tries is allowed |
| `Certificates.HexIsLegacy` | src/signature.rs:245-262 | 65 bytes in raw hex are read as themselves for a legacy message and refused for a current one |
| `Certificates.OtherCs1IsLegacy` | src/signature.rs:245-276 | so are a fixed-prefix cs1 and an amount-bearing one whose last byte is no recovery id |
| `Certificates.WrongAmountCertifiesNothing` | src/signature.rs:236-243 | an amount-bearing certificate certifies no other amount |
| `NoteUrl.NewNoteReadsBack` | src/note.rs:148-199 | after with_new_k1 the readers return the new k1, the new certificate or none, and the amount given or the one the certificate states; every k1 and amount pair left is the new one and the new certificate is the only one |
| `NoteUrl.TemplateHasNoSecret` | src/note.rs:201-239 | without_k1 leaves no k1 pair at all, no amount pair but the new one and no certificate but the new one, and declares the same amount |
| `NoteUrl.OthersKeepTheirOrder` | src/note.rs:163-186 | every other pair survives in order |
| `NoteUrl.ReplacesInPlace` | src/note.rs:153-199 | each owned pair is replaced where it stands, the certificate under its current name, and what was lacking is appended as k1, amount, c |
| `NoteUrl.ReadersRead` | src/note.rs:10-48 | what is read is the first pair of its key: k1 in lowercase, c before sig, an amount with or without a plus sign up to a u64 |
| `NoteUrl.AmountFromCertificate` | src/note.rs:31-40 | without an amount pair the certificate's own amount is declared, if it states one |
| `NoteUrl.RewriteAbsorbs` | src/note.rs:153-239 | rewriting is idempotent, a later k1 wins, and without_k1 after with_new_k1 is without_k1 on the original |
| `NoteUrl.WithNewK1` | src/note.rs:153-199 | the one-pass rewrite with its three flags is the specified one |
| `NoteUrl.WithoutK1` | src/note.rs:204-239 | the same for the template |
| `Fees.GrossUpForMintFee` | src/fees.rs:113-136 | returns the least gross, netting exactly what was asked, whenever the doubling reaches it and always when it is at most 2^63; u64::MAX exactly otherwise; at most 127 iterations for every input |
| `Fees.SearchSucceedsIff` | src/fees.rs:117-125 | the fallback is not taken exactly when the least gross is within the last doubling |
| `Fees.SearchStops` | src/fees.rs:117-126 | doubling starts at net and base together, kept within 1 and u64::MAX, and stops only where one more doubling would overflow |
| `Fees.ExactWhenAffordable` | src/fees.rs:106-112 | (net + base) * 10^6 <= 2^63 * (10^6 - ppm) keeps the least gross within 2^63 |
| `Fees.FallbackIsReachable` | src/fees.rs:121-123 | the fallback is reached with a fee below 100% whose least gross fits a u64 |
| `Fees.ProportionalFee` | src/fees.rs:91-93 | equals floor(gross * ppm / 10^6) with every intermediate inside a u64 |
| `Fees.NetStep` | src/fees.rs:106-108 | one more msat nets zero or one more |
| `Fees.LeastNetsExactly` | src/fees.rs:104-110 | the least gross nets exactly the amount asked |

## Left out

- HTTP, timeouts, async and the clock: each send is one atomic step with an arbitrary outcome, and a request that lands after the call has returned is not modelled.
- Other holders acting on the same notes during a call: the mint changes only by the modelled client's own sends.
- Fees a SERVICE withholds inside a split or merge: the modelled mint is fee-free.
- A melt's settlement: a melted note moves to an in-flight set and what the Lightning payment then does to it is not modelled.
- JSON parsing: a body is the record of the fields the parsers read.
- URL parsing and serialisation: a note URL is an address and its query pairs, and a callback is its parameters.
- Randomness: fresh secrets are parameters, assumed unseen by the mint.
- Domain normalisation: `spend_domain_of` is an unspecified partial function.
- Error texts: errors keep their variant, reason and secrets, and derivation errors are an absent result.
- SHA-256, HMAC, secp256k1, the bech32m checksum and signature schemes: parameters under the hypotheses above.
- Fee parsing and formatting: `requires` of `feePpm < 1_000_000` in `Fees.dfy` is the refusal the token parser makes (src/fees.rs:51-56).
- check_time_claim, mint addresses, payRequests, verify, internal transfers and address proofs: each would only add easy members.
- src/ffi.rs, the Kotlin bindings and src/bin: conversions of what is modelled here.
- `usize` saturation in the leaf walk: the index is unbounded, and a saturated one ends the walk as an index past the end does.
