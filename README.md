# Airdrop claim-pair derivation, modelled in Dafny

This project models `airdrop_gen.py`, a script that derives one claim identifier per address
for an airdrop. It reads the address file, splits it into lines, and sorts the lines in place.
For each line it hex-decodes the salt's hex text followed by the line without its first two
characters. It hashes those bytes with SHA-256 and keeps the hex digest as the identifier. It
collects the pairs `(address, identifier)` and reports every pair whose identifier is made only
of decimal digits. The pairs are the result of `genWithSalt`.

Files and modules:

- `wrappers.dfy` (`Wrappers`): `Result`, a success value or an error.
- `hex.dfy` (`Hex`): bytes, `bytes.hex()` as `ToHex` and `bytes.fromhex()` as `FromHex`,
  with the two ways decoding fails (`NonHexDigit(position)`, `OddDigitCount`).
- `lex_order.dfy` (`LexOrder`): Python's ordering of strings (`LexLe`), a reference sort
  (`Sort`), and `list.sort()` as the in-place insertion sort `SortInPlace` on an array.
- `lines.dfy` (`Lines`): `str.split('\n')` as `Split`, with `Join` as its inverse.
- `airdrop.dfy` (`Airdrop`): `hashhex`, `charIsDec`, `loadTargetAddresses` on the text
  the file reads as, and `genWithSalt`. The method `GenWithSalt` keeps the source's three steps: the
  in-place sort, the loop that appends pairs, and the validator's nested loop with its `break`.
  It is proved equal to the specification function `Generation`, and the lemmas about
  `Generation` state what the script promises. The loop's specification `DeriveClaims` takes
  the per-address derivation as a function (`ClaimIdOf(salt, hash)`, the script's `hashhex(salt.hex() + address[2:])`), so its
  lemmas hold for any derivation.

SHA-256 is a parameter `hash: seq<byte> -> Digest`, where `Digest` is a 32-byte sequence.
Every result holds for every such function, so nothing depends on how SHA-256 works inside.
The file's text as `f.read()` returns it (line ends already translated to `\n`), the salt
text and the hash function are all parameters.

An empty line, such as the one after a trailing newline, is not an error. `address[2:]` is empty
for it, so its identifier is the digest of the salt alone (`ShortLineHashesSalt`,
`EmptyLinePair`).

## Model

| member | source | states |
|---|---|---|
| `Hex.ToHex` | airdrop_gen.py:36 | `salt.hex()` has two characters per byte, all lower-case hex digits |
| `Hex.FromHex` | airdrop_gen.py:11 | `bytes.fromhex` decodes two hex digits into each byte: a text it accepts is twice as long as its bytes |
| `Hex.FromHexAfterToHex` | airdrop_gen.py:36-37 | decoding `b.hex()` followed by text `t` gives `b` followed by the decoding of `t`; an error in `t` is reported `2*|b|` positions later |
| `Hex.FromHexToHex` | airdrop_gen.py:11 | round trip: `bytes.fromhex(b.hex()) == b` for every byte sequence |
| `Hex.FromHexErrors` | airdrop_gen.py:11 | a non-hex-digit error names a position holding a non-hex character, with only hex digits before it; an odd-count error means every character is a hex digit and there is an odd number of them |
| `Hex.FromHexSucceedsIff` | airdrop_gen.py:23 | `bytes.fromhex(s)` succeeds exactly when `s` has even length and only hex digits (either case) |
| `Hex.ToHexFromHex` | airdrop_gen.py:23 | for an accepted salt text, `bytes.fromhex(s).hex()` is `s` in lower case: the salt's text passes through, lower-cased |
| `LexOrder.LexLe` | airdrop_gen.py:32 | Python's string order: a string is at most any string it is a prefix of |
| `LexOrder.LexLeTotal` | airdrop_gen.py:32 | any two strings are comparable under Python's string order |
| `LexOrder.LexLeTransitive` | airdrop_gen.py:32 | Python's string order is transitive |
| `LexOrder.LexLeAntisymmetric` | airdrop_gen.py:32 | two strings each at most the other are equal |
| `LexOrder.Sort` | airdrop_gen.py:32 | the reference sort returns a permutation of its input (same multiset of strings) |
| `LexOrder.SortSorted` | airdrop_gen.py:32 | the reference sort yields ascending order |
| `LexOrder.SortedUnique` | airdrop_gen.py:32 | two ascending sequences with the same multiset of strings are equal, so a sorted order of given lines is unique |
| `LexOrder.SortPermutationInvariant` | airdrop_gen.py:30-32 | lines with the same multiset sort to the same sequence |
| `LexOrder.SortInPlace` | airdrop_gen.py:32 | `addresses.sort()` leaves the array ascending, a permutation of what it held, and equal to the reference sort of it |
| `Lines.Split` | airdrop_gen.py:8 | `split('\n')` gives one more piece than there are newlines, and no piece contains a newline |
| `Lines.JoinSplit` | airdrop_gen.py:8 | joining the pieces with the separator gives the text back |
| `Lines.SplitJoin` | airdrop_gen.py:8 | splitting newline-free pieces joined by newlines gives the pieces back |
| `Lines.SplitTrailingSeparator` | airdrop_gen.py:8 | a trailing separator adds exactly one empty piece at the end |
| `Airdrop.LoadTargetAddresses` | airdrop_gen.py:5-8 | the lines of the file: one per newline plus one, none holding a newline, joining back to the contents |
| `Airdrop.TrailingNewlineGivesEmptyLine` | airdrop_gen.py:8 | a file ending in a newline has the lines of the rest followed by one empty line |
| `Airdrop.HashHex` | airdrop_gen.py:10-12 | `hashhex` succeeds exactly on even-length hex text, fails with `fromhex`'s error otherwise, and returns 64 lower-case hex digits that decode to the hash of the decoded bytes |
| `Airdrop.StripPrefix` | airdrop_gen.py:36 | `address[2:]` is what follows the first two characters, and empty (not an error) for a line shorter than two |
| `Airdrop.ClaimIdHashesSaltThenBody` | airdrop_gen.py:36-37 | the identifier is the hex digest of the salt bytes followed by the decoded address body; a bad body is reported at its position after the salt's text |
| `Airdrop.ClaimId` | airdrop_gen.py:36-37 | an identifier is derived exactly when the address body is an even number of hex digits, and it is then 64 lower-case hex digits |
| `Airdrop.ShortLineHashesSalt` | airdrop_gen.py:36-37 | a line shorter than two characters gets the digest of the salt alone |
| `Airdrop.PrefixInsensitive` | airdrop_gen.py:36 | addresses that differ only in their first two characters get the same identifier (or the same error) |
| `Airdrop.CharIsDec` | airdrop_gen.py:14-19 | `charIsDec` holds exactly on the hex digits that are not letters, `0`-`9` |
| `Airdrop.AllDecimalDigest` | airdrop_gen.py:14-19 | on a hex digest, `charIsDec` holds for every character exactly when no character is one of `a`-`f` |
| `Airdrop.DeriveClaims` | airdrop_gen.py:34-38 | when the loop of appends completes, it has one pair per address, and the pairs' addresses are the addresses unchanged and in order |
| `Airdrop.DeriveClaimsSucceedsIff` | airdrop_gen.py:34-38 | the pair-building loop completes exactly when every address has an identifier |
| `Airdrop.DeriveClaimsPairs` | airdrop_gen.py:34-38 | when it completes, the loop returns one pair per address, in order, each the address unchanged with its identifier |
| `Airdrop.DeriveClaimsFirstError` | airdrop_gen.py:34-38 | when it fails, the error is that of the first address without an identifier |
| `Airdrop.DeriveFailureSticks` | airdrop_gen.py:34-38 | a failure on a prefix of the addresses is the failure of the whole loop |
| `Airdrop.Problematic` | airdrop_gen.py:43-50 | a pair is flagged exactly when it is among the pairs and all characters of its identifier are decimal digits, and it is flagged as many times as it occurs among the pairs |
| `Airdrop.ProblematicStep` | airdrop_gen.py:43-50 | one more pair adds that pair at the end of the flagged pairs exactly when its identifier is all decimal |
| `Airdrop.ScanForNonDecimal` | airdrop_gen.py:44-48 | the inner scan with its `break` finds a non-decimal character exactly when the identifier is not all decimal |
| `Airdrop.FindProblematic` | airdrop_gen.py:43-50 | the nested loop with its early `break` flags exactly the pairs `Problematic` names, in order |
| `Airdrop.Generation` | airdrop_gen.py:32-52 | a failed run reports the hex error of some line of the file |
| `Airdrop.GenerationOnePairPerLine` | airdrop_gen.py:30-38 | a successful run returns exactly one pair per line, duplicates and empty lines included |
| `Airdrop.GenerationSortedPermutation` | airdrop_gen.py:30-38 | the addresses of the returned pairs are ascending and are a permutation of the lines |
| `Airdrop.GenerationIdentifiers` | airdrop_gen.py:35-38 | every returned pair holds a line of the file and that line's identifier, which is 64 lower-case hex digits |
| `Airdrop.GenerationSucceedsIff` | airdrop_gen.py:34-38 | the run fails exactly when some line's body is not an even number of hex digits |
| `Airdrop.GenerationPermutationInvariant` | airdrop_gen.py:30-32 | reordering the address file does not change the result |
| `Airdrop.GenerationFlagsExactly` | airdrop_gen.py:43-52 | the reported pairs are exactly the returned pairs with an all-decimal identifier; the returned list is the derived list unchanged |
| `Airdrop.EmptyLinePair` | airdrop_gen.py:30-38 | an empty line yields the pair of the empty address and the digest of the salt alone |
| `Airdrop.TwoAddressScenario` | airdrop_gen.py:30-38 | lines `0xBB`, `0xAA` with salt byte 0x01 give the pairs for `0xAA` then `0xBB`, each with the digest of bytes `01 AA` and `01 BB` |
| `Airdrop.BuildClaimPairs` | airdrop_gen.py:34-38 | the `append` loop over the sorted array computes exactly `DeriveClaims` of its contents, stopping at the first hex error |
| `Airdrop.GenWithSalt` | airdrop_gen.py:28-52 | loading, sorting in place, the append loop and the validator loop compute exactly `Generation` of the file's lines |
| `Airdrop.GenerateFromSaltText` | airdrop_gen.py:21-23 | a salt text that is not valid hex ends the run with `fromhex`'s error; otherwise the run is `genWithSalt` on the decoded salt |

## Left out

- File reading (`open`/`read` in `loadTargetAddresses`) and writing `airdrop_pairs.json` with `json.dump`: I/O. The model takes the text `f.read()` returns and returns the pairs.
- The newline translation of text-mode `open`, which turns every `\r\n` and `\r` into `\n` before the split: `LoadTargetAddresses` takes text in which it has already happened, so a file with `\r\n` line ends is not modelled byte for byte.
- The `input` prompt for the salt and every `print`: I/O. The salt text is a parameter; the validator returns the problematic pairs instead of printing them.
- SHA-256 itself (`hashlib.sha256`): a foreign library. It is a parameter whose only known property is its 32-byte result, so salt sensitivity, which rests on collision resistance, is not stated.
- `bytes.fromhex`'s skipping of ASCII whitespace between byte pairs: the model treats whitespace as a non-hex character.
- Older CPython versions report an odd digit count as a non-hex digit at the end of the text; both are `ValueError`, and success or failure is the same either way.
- CPython reports the first non-ASCII character of a non-ASCII text, wherever an earlier bad ASCII character is; the model reports the first bad character in order.
- `int()`'s acceptance of non-ASCII Unicode digits in `charIsDec`: the model takes decimal to mean `0`-`9`, which decides every character a hex digest can hold.
- Stability of `list.sort()`: equal strings cannot be told apart, so the model proves the sorted permutation, which is unique.
- Python strings made of lone surrogate code points: Dafny characters are Unicode scalar values.
