# Vanity-address search engine: a Dafny model

This project models the core of the `vanity` crate of suix, a command-line tool for the
Sui blockchain. The crate searches for Sui addresses that begin or end with a
user-chosen pattern. It has three parts:

- **Pattern parsing** (`parse_pattern`). A pattern is one of three kinds:
  - a hex literal (`0x…`), decoded by `hex_str_to_bytes`;
  - a regular expression, chosen when the text holds one of `^$[]()|{}+*?` and compiles;
  - a "hexspeak" word, whose letters are mapped to look-alike hex digits by
    `string_to_hexspeak`.

  Hex and hexspeak patterns become a byte needle. An odd number of digits leaves one
  "uneven" byte, which is popped off the needle and carries the last digit in its high
  nibble.
- **Matching** (`matches_pattern`). The address is decoded from hex and compared with the
  needle at the start or at the end of the address bytes. An uneven byte is then compared
  with one nibble next to the needle. A candidate must match the starts-with pattern and
  then the ends-with pattern.
- **The search rounds** (`generate_vanity_addresses`).
  - Each round runs `addresses_per_round` parallel attempts.
  - Every attempt generates a key and tests its address.
  - A matching attempt tries to claim an ordinal from a shared counter. It loads the
    counter, gives up if the target is reached, and otherwise makes a weak
    compare-and-swap from the loaded value to that value plus one.
  - An attempt that wins the swap reports its match with that ordinal. When a save
    directory is set, it first writes the key file.

Modules, one per file:

- `Wrappers`: `Option` and `Result`.
- `Hex`: hex digits, nibbles, `hex_str_to_bytes`, and the `hex::decode` the matcher uses.
- `Hexspeak`: the look-alike table and `string_to_hexspeak`.
- `Seqs`: prefix, suffix and distinctness on sequences, and counting facts.
- `Patterns`: the parsed pattern and `parse_pattern`.
- `Matcher`: `matches_pattern` as written, and the per-candidate accept test.
- `Intended`: the digit-exact reading of the command line's promise that the address "should start with" or "should end with" the pattern (bin/suix/src/main.rs:22 and :26); see "## Findings".
- `Search`: the argument checks, the set-up, the claim protocol and the rounds.

The claim protocol is not modelled with threads. It is a sequential state machine:

- Each attempt of a round has a `Phase`. A `Step` of an attempt is one of its atomic
  accesses to the counter: the early-out load, the load of `current`, or the
  compare-and-swap. The last step is its report.
- A schedule (`RoundPlan`) interleaves the steps of the attempts in any order.
- Each step carries a `Choice`: the generated key, or its failure; whether the weak
  compare-and-swap fails spuriously; and whether saving succeeds.
- The regular-expression engine is a parameter: `RegexEngine` is a pair of total
  functions, "compiles" and "is_match".
- Key generation, file writing and printing are abstracted the same way: key generation
  and save success come from the `Choice`, and a report is a `Record` appended to
  `output`.

## Model

| member | source | states |
|---|---|---|
| Hex.TrimHexPrefix | crates/vanity/src/lib.rs:96 | `trim_start_matches("0x")` leaves a suffix of the input that does not start with "0x", having removed an even number of characters |
| Hex.TrimRemovesOnlyHexPrefixes | crates/vanity/src/lib.rs:96 | the removed characters are copies of "0x" and nothing else |
| Hex.ChunkValue | crates/vanity/src/lib.rs:101-112 | a one- or two-character chunk (a lone one padded with '0') parses exactly when its characters are hex digits; its high nibble is the first digit and its low nibble the second, or 0 |
| Hex.DecodeChunks | crates/vanity/src/lib.rs:99-115 | the pair loop succeeds exactly when every character is a hex digit, and the nibbles of its bytes are the digits of the text followed by one 0 when the length is odd |
| Hex.HexStrToBytes | crates/vanity/src/lib.rs:95-116 | succeeds exactly when the text after the leading "0x"s is all hex; it returns ceil(n/2) bytes whose nibbles are those digits, padded with a 0 when n is odd |
| Hex.HexDecode | crates/vanity/src/lib.rs:195-198 | `hex::decode` of the address succeeds exactly for even-length hex text, and its bytes' nibbles are the text's digits |
| Hex.ToHex | crates/vanity/src/lib.rs:166-167 | the lower-case hex rendering of an address, and the specification partner of the decoders: two hex digits per byte, equal to the byte's nibbles |
| Hex.NibblesAppend | crates/vanity/src/lib.rs:200-204 | the nibbles of a concatenation are the concatenation of the nibbles |
| Hex.NibblesInjective | crates/vanity/src/lib.rs:200-204 | byte sequences with the same nibbles are equal, so byte and nibble comparisons agree |
| Hex.DecodeChunksRoundTrip | crates/vanity/src/lib.rs:99-115 | decoding the hex encoding of any bytes gives back those bytes |
| Hex.HexDecodeRoundTrip | crates/vanity/src/lib.rs:195-198 | `hex::decode` inverts the hex encoding |
| Hex.HexStrToBytesRoundTrip | crates/vanity/src/lib.rs:95-116 | `hex_str_to_bytes` inverts the hex encoding |
| Hex.HexStrToBytesEvenExample | crates/vanity/src/lib.rs:421-425 | "0xabcd" decodes to [0xab, 0xcd] |
| Hex.HexStrToBytesOddExample | crates/vanity/src/lib.rs:427-431 | "abc" decodes to [0xab, 0xc0]: the lone last digit is padded with 0 |
| Hexspeak.MapHexspeak | crates/vanity/src/lib.rs:49-89 | the lower-cased word maps through the table exactly when every letter is in it; the result is hex, character by character the table's image; an error names the first lower-cased character outside the table |
| Hexspeak.StringToHexspeak | crates/vanity/src/lib.rs:48-92 | succeeds exactly for mappable words; the result is `hex_str_to_bytes` of the mapped text, ceil(n/2) bytes whose nibbles are the look-alike digits, padded with 0 |
| Hexspeak.HexspeakExample | crates/vanity/src/lib.rs:415-419 | "ace" becomes [0xac, 0xe0] |
| Hexspeak.HexspeakRejectExample | crates/vanity/src/lib.rs:83-88 | "Hi" is refused with the lower-cased 'h' |
| Patterns.SplitUnevenDigits | crates/vanity/src/lib.rs:123-127 | popping the last byte when the digit count is odd leaves a needle plus uneven byte whose digits are exactly the pattern's digits; the uneven byte has a zero low nibble |
| Patterns.Parse | crates/vanity/src/lib.rs:119-158 | a "0x" pattern parses exactly when the rest is hex, into a byte pattern with exactly those digits; a regex is produced exactly when there is no "0x", a special character is present and the regex compiles; otherwise the hexspeak word decides; the uneven byte is present exactly for odd-length text |
| Patterns.ParseOddHexExample | crates/vanity/src/lib.rs:121-128 | "0xabc" parses to the needle [0xab] with the uneven byte 0xc0 |
| Patterns.ParseOneDigitExample | crates/vanity/src/lib.rs:121-128 | "0xa" parses to the empty needle with the uneven byte 0xa0 |
| Patterns.ParseInvalidRegexFallsBack | crates/vanity/src/lib.rs:144-150 | a pattern with a special character that does not compile, such as the unclosed group "ab(", falls back to hexspeak, and then fails on that character ('(') |
| Matcher.HighNibbleMask | crates/vanity/src/lib.rs:219 | `& 0xf0` keeps the high nibble and clears the low one |
| Matcher.LowNibbleMask | crates/vanity/src/lib.rs:221 | `& 0x0f` keeps the low nibble |
| Matcher.MatchesPatternBasics | crates/vanity/src/lib.rs:183-198 | of `Matcher.MatchesPattern`: a regex decides alone; an address that is not even-length hex after one "0x" matches no byte pattern |
| Matcher.PrefixNibbles | crates/vanity/src/lib.rs:200-201 | a byte `starts_with` holds exactly when the nibbles start with the needle's nibbles |
| Matcher.SuffixNibbles | crates/vanity/src/lib.rs:202-203 | a byte `ends_with` holds exactly when the nibbles end with the needle's nibbles |
| Matcher.PrefixMatchAsWritten | crates/vanity/src/lib.rs:200-227 | of `Matcher.MatchesPattern` (through `Matcher.MatchesBytes`): a prefix pattern no longer than the address matches exactly when the address nibbles start with the pattern's digits; a longer one matches exactly when it has an uneven byte and its needle is the whole address |
| Matcher.SuffixMatchAsWritten | crates/vanity/src/lib.rs:200-227 | of `Matcher.MatchesPattern` (through `Matcher.MatchesBytes`): without an uneven byte, a suffix matches exactly when the nibbles end with the needle's; with one, it matches exactly when the needle ends the address, the uneven byte is 0x00 and the nibble before the needle is 0, or when the needle is the whole address |
| Matcher.HexPrefixMatchesDigits | crates/vanity/src/lib.rs:119-129 | for a "0x" pattern and an address of hex digits at least as long, the prefix match holds exactly when the address digits start with the pattern digits |
| Matcher.HexEvenSuffixMatchesDigits | crates/vanity/src/lib.rs:119-129 | for an even-length "0x" pattern, the suffix match holds exactly when the address digits end with the pattern digits |
| Matcher.SuffixOddCounterexample | crates/vanity/src/lib.rs:200-208 | "0x0abc" ends with the digits "abc", yet the suffix pattern "0xabc" is rejected for it |
| Matcher.SuffixMaskCounterexample | crates/vanity/src/lib.rs:210-223 | "0x0a" ends with the digit "a", yet the suffix pattern "0xa" is rejected for it |
| Matcher.PrefixOutOfRangeCounterexample | crates/vanity/src/lib.rs:210-227 | "0xab" does not start with the digits "abc", yet the prefix pattern "0xabc" is accepted for it |
| Matcher.AcceptsEverySupplied | crates/vanity/src/lib.rs:320-337 | of `Matcher.Accepts`: a candidate is accepted exactly when it matches every supplied pattern at its end; with no pattern every candidate is accepted |
| Intended.CorrectedMatchesDigits | crates/vanity/src/lib.rs:176-228 | of `Intended.CorrectedMatches`: a "0x" pattern matches an address exactly when the address digits start (end) with the pattern digits, for every length and parity |
| Intended.CorrectedMatchesHexspeak | crates/vanity/src/lib.rs:150-157 | the same for a hexspeak word and its look-alike digits |
| Intended.CorrectedAgreesWithSource | crates/vanity/src/lib.rs:200-227 | the corrected and the written matcher agree on every regex, every prefix no longer than the address, and every suffix without an uneven byte |
| Intended.CorrectedSuffixCounterexample | crates/vanity/src/lib.rs:200-223 | the corrected matcher accepts "0x0abc" for the suffix "0xabc" |
| Intended.CorrectedMaskCounterexample | crates/vanity/src/lib.rs:210-223 | the corrected matcher accepts "0x0a" for the suffix "0xa" |
| Intended.CorrectedPrefixCounterexample | crates/vanity/src/lib.rs:217-227 | the corrected matcher rejects "0xab" for the prefix "0xabc" |
| Search.CheckArgs | bin/suix/src/main.rs:390-400 | the command line accepts a configuration exactly when some pattern is given, the count is positive and the round size is positive, reporting the first failed check |
| Search.ParsePatterns | crates/vanity/src/lib.rs:259-269 | set-up fails exactly when a supplied pattern fails to parse, naming the starts-with pattern first |
| Search.Prepare | crates/vanity/src/lib.rs:259-269 | the set-up keeps the target, round size and save mode, and a candidate is accepted exactly when `matches_pattern` accepts it for both supplied patterns |
| Search.PrepareCorrected | crates/vanity/src/lib.rs:259-269 | the same set-up with the corrected matcher |
| Search.Step | crates/vanity/src/lib.rs:311-378 | one atomic step of one attempt changes no other attempt and ends in at most four steps. The early-out load skips once the target is reached. A failed key generation or a missed pattern ends the attempt, and a match goes on to load `current`, giving up if the target is reached. The counter moves only by a compare-and-swap that saw the current value and did not fail spuriously, and then by exactly one, giving the ordinal `current + 1`. A failed swap drops the match. A claimed ordinal is reported once, or lost to a failed save without being given back |
| Search.StepKeepsInv | crates/vanity/src/lib.rs:338-378 | every step keeps the protocol invariant: the counter never exceeds the target; each claimed ordinal is held by exactly one attempt, reported exactly once, or (only when saving) lost; every report passed the patterns |
| Search.RunSchedule | crates/vanity/src/lib.rs:308-388 | any interleaving of steps keeps the invariant, and the counter and the reports only grow |
| Search.DrainOne | crates/vanity/src/lib.rs:310-388 | running one attempt to its end keeps the invariant and leaves the other attempts alone |
| Search.DrainFrom | crates/vanity/src/lib.rs:308-388 | every attempt of the round comes to an end |
| Search.Round | crates/vanity/src/lib.rs:307-390 | a round keeps the invariant, ends with every attempt finished, and grows `tried` by exactly `addresses_per_round` |
| Search.OrdinalsDistinct | crates/vanity/src/lib.rs:338-378 | in every reachable state the reported ordinals are distinct and lie in 1..count, within 1..max_addresses |
| Search.EveryClaimEmittedOnce | crates/vanity/src/lib.rs:376-385 | when keys are only printed and the attempts are over, the reports are exactly the ordinals 1..count, each once |
| Search.ReportsAtMostClaims | crates/vanity/src/lib.rs:360-366 | there are never more reports than claimed ordinals, whether or not saves fail |
| Search.RunRounds | crates/vanity/src/lib.rs:306-393 | the outer loop keeps the counter within the target; `tried` is rounds × `addresses_per_round`; the loop stops early only at the target; the reports are distinct ordinals in 1..count (so within 1..max) of accepted addresses, one per claim when printing and never more than the claims |
| Search.GenerateAsWritten | crates/vanity/src/lib.rs:246-409 | the search fails exactly when a pattern fails to parse (starts-with first); otherwise the counter stays within the target, `tried` is rounds × `addresses_per_round`, the loop stops early only at the target and runs at least one round when the target is positive, the reports are distinct ordinals in 1..count, exactly one per claim when printing and never more than the claims when saving, and every report passes `matches_pattern` for both supplied patterns |
| Search.Generate | crates/vanity/src/lib.rs:246-409 | the same guarantees, with every report passing the corrected matcher of `Intended` for both supplied patterns |
| Search.CheckArgsMakeProgress | bin/suix/src/main.rs:390-400 | after the command-line checks pass, a finished search has at least one pattern constraining its candidates, a non-empty schedule runs at least one round so at least `addresses_per_round` > 0 candidates are tried, and a search that stops early has found an address |

## Left out

- Threads and the rayon pool: the pool size (`threads`, `current_num_threads`) and a failure to build the pool are not modelled. Only the interleaving of atomic accesses to the counter is, through the schedule.
- Key generation (`generate_new_key`, ED25519 key derivation) is cryptography. Each step receives the key's address, or the failure, from its `Choice`. The 66-character address format is not assumed: the matcher handles any string.
- Regular expressions: compilation and `is_match` are parameters (`RegexEngine`), not an engine.
- Saving key files, file names and directories: only the outcome, success or failure, comes from the `Choice`.
- Printing: a report is a `Record` of ordinal and address. The message texts, the progress line and the summary are not modelled.
- Private keys and their base64 encoding are not modelled.
- Error messages: every parse failure is one of the three `DecodeError` cases. The `eyre` context texts are dropped.
- Non-ASCII text: `to_lowercase` is modelled for ASCII letters only. Byte slicing of multi-byte characters, which panics in the source, is outside the model.
- Hex.ChunkValue: `u8::from_str_radix` also accepts a leading '+' (so "+a" parses). The model accepts hex digits only.
- Matcher.MatchesBytes: in a debug build, `address_bytes.len() - needle.len() - 1` panics when the needle is the whole address. The model follows the release build, where the index falls out of range and the match holds; that case is a separate branch.
- Termination of the outer loop depends on random matches. `RunRounds` and `Generate` run the rounds of a finite list of round plans, and the loop also stops when the list is exhausted.
- `usize` overflow of the counter and of `tried` is not modelled. The counter never exceeds `max_addresses`, and `tried` is unbounded.
- Search.Generate: it runs the search with the corrected matcher of `Intended`; `Search.GenerateAsWritten` is the same search with the written `matches_pattern`.

## Findings

| source | as written | input that shows it | evidently intended | confidence | as-written member | corrected member |
|---|---|---|---|---|---|---|
| crates/vanity/src/lib.rs:200-204 | for an odd-length suffix, `parse_pattern` (crates/vanity/src/lib.rs:122-127 and 151-155) keeps the pattern's leading digits as a byte-aligned needle and pops the last digit, but in a matching address those digits start in the middle of a byte, so for a suffix of three or more digits `ends_with` compares bytes that are one nibble off | suffix "0xabc" with address "0x0abc" | the address digits end with "abc", so the address should match | not executed | Matcher.SuffixOddCounterexample | Intended.CorrectedMatchesDigits |
| crates/vanity/src/lib.rs:210-223 | for an odd-length suffix whose needle test passes, the uneven byte (the last digit in the high nibble, e.g. 0xa0) is compared with the low nibble (`& 0x0f`) of the byte before the needle, which is below 16, so it can only agree when the last digit is 0 | suffix "0xa" with address "0x0a" | the address digits end with "a", so the address should match | not executed | Matcher.SuffixMaskCounterexample | Intended.CorrectedMatchesDigits |
| crates/vanity/src/lib.rs:217-227 | when the byte that should hold the uneven digit lies past the end of the address, the check is skipped and the match succeeds | prefix "0xabc" with address "0xab" | an address with fewer digits than the pattern should not match | not executed | Matcher.PrefixOutOfRangeCounterexample | Intended.CorrectedMatchesDigits |

The command line describes the pattern as what the address "should start with" (bin/suix/src/main.rs:22) or "should end with" (bin/suix/src/main.rs:26). `Matcher` follows the code as written. `Intended.CorrectedMatches` is the digit-exact reading of those words, the matcher all three findings point to: `Intended.CorrectedMatchesDigits` proves that it compares digit sequences exactly, and `Intended.CorrectedSuffixCounterexample`, `Intended.CorrectedMaskCounterexample` and `Intended.CorrectedPrefixCounterexample` show that it decides the three inputs above as intended. `Search.Generate` uses it.
