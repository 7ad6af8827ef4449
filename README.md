# Unicode email variant engine: a Dafny model

This project models the part of the Unicode attack framework that turns one
email address into a list of look-alike addresses. It also models the small
string and configuration checks that sit in front of it.

- **`VariantEngine`** (modules/variant_engine.py). It splits `local@domain` at
  the first `@` and runs four strategies in a fixed order:
  - homograph substitution from the confusables table;
  - zero-width insertion;
  - mixed (first confusable plus one of two zero-width characters, first
    three positions only);
  - punycode (a confusable in the first domain label, then IDNA encoding).

  Every candidate string goes through the engine's `generated_variants`
  set, so only the first occurrence of a string is kept. The first three
  blocks are cut to `max_variants // 3` entries each. The punycode block is
  appended uncut, and the whole list is cut to `max_variants`.
  `get_variant_stats` aggregates a list of variants.
- **`truncate_string`, `normalize_url`, `validate_email`** (core/utils.py).
  `validate_email` is the command-line gate in front of the engine.
- **`AttackConfig`** with its defaults and `validate` (core/config.py).

Modules, in dependency order:

| file | module | contents |
|---|---|---|
| wrappers.dfy | `Wrappers` | `Option` |
| pystr.dfy | `PyStr` | Python `str.find`, `split`/`join` on one character, `s[:n]` |
| confusables.dfy | `Confusables` | the `HOMOGRAPHS` table (36 entries, by index), `ZERO_WIDTH_CHARS`, the case mapping the lookups need |
| variants.dfy | `Variants` | `EmailVariant`, de-duplication (`Fresh`), each strategy's candidate list as a function, and what each kind of variant is |
| stats.dfy | `Stats` | the aggregates of `get_variant_stats` as functions |
| generation.dfy | `Generation` | `AllVariants`: the whole result of one `generate_all_variants` call, with its properties |
| engine.dfy | `Engine` | class `VariantEngine`: the field `generated`, the strategy methods with their loops, `GetVariantStats` |
| utils.dfy | `Utils` | `TruncateString`, `NormalizeUrl`, `ValidateEmail` |
| config.dfy | `Config` | `AttackConfig`, `Defaults`, `Validate` |

Each method of `VariantEngine` is proved against the functions of
`Variants` and `Generation`. `GenerateAllVariants` ensures its result is
`AllVariants(email, maxVariants, idna)`. It also ensures the new
`generated` set is the set of every candidate string of the call. The
lemmas of `Generation` then state the following for that function:
- the bound and the per-technique quotas;
- the order of the techniques;
- pairwise distinct variant strings;
- what each variant is;
- completeness of the homograph and zero-width blocks.

The IDNA codec is a parameter `idna: string -> Option<string>`, where `None`
stands for an encoding error.

## Model

| member | source | states |
|---|---|---|
| Confusables.FindMeaning | modules/variant_engine.py:28-65 | a table lookup succeeds exactly for the keys of the table and returns the list of that key |
| Confusables.TableShape | modules/variant_engine.py:28-65 | every key is an ASCII letter with at least two candidates; every candidate is non-ASCII and none is one of the three characters whose case mapping reaches a key |
| Confusables.EntriesShape | modules/variant_engine.py:28-65 | each of the 36 entries has that shape |
| Confusables.UppercaseKeysUnreachable | modules/variant_engine.py:132 | lookups by `char.lower()` never reach an upper-case key; a character with confusables is an ASCII letter or the Kelvin sign |
| Confusables.UppercaseBHasNoConfusable | modules/variant_engine.py:131-133 | 'B' has a table entry but `'B'.lower()` is not a key, so 'B' gets no substitution |
| Confusables.UpperRuleNeverFires | modules/variant_engine.py:134-135 | no candidate's upper-case form is a key, so the upper-casing rule never changes a candidate |
| Confusables.CandidateDiffers | modules/variant_engine.py:131-137 | a candidate always differs from the character it replaces |
| PyStr.IndexOf | modules/variant_engine.py:95-99 | `None` exactly when the character is absent; otherwise the index of its first occurrence |
| PyStr.Split | modules/variant_engine.py:206-207 | at least one piece, no piece holds the separator, and two or more pieces exactly when the separator occurs |
| PyStr.JoinSplit | modules/variant_engine.py:206-214 | joining the pieces of a split gives back the string |
| PyStr.SplitJoin | modules/variant_engine.py:206-214 | splitting a join of separator-free pieces gives back the pieces |
| PyStr.Prefix | modules/variant_engine.py:104-125 | `s[:n]` has `min(n, len(s))` elements and is a prefix of `s` |
| Variants.FreshSound | modules/variant_engine.py:140-141 | the kept candidates are candidates, avoid the strings already generated, are pairwise distinct, and together with the earlier strings cover every candidate string |
| Variants.FreshSnoc | modules/variant_engine.py:140-148 | one more candidate is kept exactly when its string is new |
| Variants.FreshFirst | modules/variant_engine.py:140-148 | the first candidate is kept when its string is new |
| Variants.HomographVariantMeaning | modules/variant_engine.py:133-148 | a (position, candidate) pair yields the address with that one character replaced by the candidate, as a homograph variant (only that position changes, domain kept, code point recorded, similarity 0.95) |
| Variants.HomographsAtMeaning | modules/variant_engine.py:131-148 | every candidate of one position is a homograph variant of the address |
| Variants.HomographCandidatesMeaning | modules/variant_engine.py:131-148 | every candidate of the first `n` positions is a homograph variant |
| Variants.ZeroWidthCandidatesMeaning | modules/variant_engine.py:158-171 | every zero-width candidate inserts one of the five characters before a position `0 <= i < len(username)`, adding one character |
| Variants.ZeroWidthCandidates | modules/variant_engine.py:158-159 | exactly five candidates per username position |
| Variants.MixedAt | modules/variant_engine.py:181-185 | two candidates at a position whose lower-case form is a key, none otherwise |
| Variants.MixedCandidatesMeaning | modules/variant_engine.py:181-196 | every mixed candidate replaces one of the first three characters by its first confusable followed by one of the first two zero-width characters, recording both code points |
| Variants.PunycodeCandidates | modules/variant_engine.py:206-210 | at most three punycode candidates, none for a domain without '.' |
| Variants.PunycodeCandidatesMeaning | modules/variant_engine.py:206-229 | every punycode candidate keeps the username and carries the successful encoding of the domain with one of the first three characters of the first label replaced by its first confusable |
| Stats.CountsSumToTotal | modules/variant_engine.py:244-246 | the four technique counts add up to the number of variants |
| Stats.CountPositive | modules/variant_engine.py:246 | a technique is counted exactly when some variant uses it |
| Stats.PointsUnionMeaning | modules/variant_engine.py:249-257 | the union holds exactly the code points some variant introduced |
| Stats.SimilaritySumBounds | modules/variant_engine.py:252-255 | with scores in [0, 1] the sum lies in [0, n], so the average lies in [0, 1] |
| Stats.CountConcat | modules/variant_engine.py:244-246 | counts add over concatenation |
| Generation.SplitEmail | modules/variant_engine.py:95-99 | no split exactly when there is no '@'; otherwise the username has no '@' and `username@domain` is the email |
| Generation.SplitAddress | modules/variant_engine.py:99 | splitting `u@d` with an '@'-free `u` gives back `u` and `d` |
| Generation.AllVariants | modules/variant_engine.py:80-125 | at most `max_variants` entries; none for an email without '@' |
| Generation.AllVariantsDistinct | modules/variant_engine.py:80-233 | the returned variant strings are pairwise distinct |
| Generation.GenerateQuotas | modules/variant_engine.py:104-125 | the techniques appear in the order homograph, zero-width, mixed, punycode; each of the first three keeps `min(block, max_variants // 3)` entries; punycode fills what the bound leaves |
| Generation.AssembleLayout | modules/variant_engine.py:106-125 | the result is the three cut blocks followed by as much of the punycode block as fits |
| Generation.AllVariantsMeaning | modules/variant_engine.py:80-233 | every returned entry is a variant of the split address in the sense of its technique |
| Generation.BlockBounds | modules/variant_engine.py:152-233 | at most six mixed and three punycode variants; no punycode variant for a single-label domain; an empty username gives only punycode variants |
| Generation.HomographBlockComplete | modules/variant_engine.py:131-148 | every (position, candidate) substitution appears among the homograph variants |
| Generation.ZeroWidthBlockComplete | modules/variant_engine.py:158-171 | every (position, zero-width character) insertion appears among the zero-width variants |
| Generation.AllVariantsFirst | modules/variant_engine.py:104-148 | with a bound of at least three, an address whose first username character has confusables starts with that character's first candidate substituted |
| Generation.HomographExample | modules/variant_engine.py:28-148 | `a@<domain>` with bound 10 starts with the Cyrillic a (U+0430), code point 0x430, similarity 0.95 |
| Engine.VariantEngine.constructor | modules/variant_engine.py:76-78 | the generated set starts empty |
| Engine.VariantEngine.GenerateAllVariants | modules/variant_engine.py:80-125 | the result is `AllVariants(email, max_variants)`, whatever earlier calls generated; the generated set is every candidate string of this call (empty for an email without '@') |
| Engine.VariantEngine.GenerateHomographVariants | modules/variant_engine.py:127-150 | returns the homograph candidates whose strings were not generated before, in order; adds every candidate string to the set |
| Engine.VariantEngine.RecordHomographsAt | modules/variant_engine.py:132-148 | the inner loop over one key's list records that position's candidates in order |
| Engine.VariantEngine.GenerateZeroWidthVariants | modules/variant_engine.py:152-173 | the same for the zero-width candidates |
| Engine.VariantEngine.RecordZeroWidthAt | modules/variant_engine.py:159-171 | the inner loop over the five characters records that position's candidates in order |
| Engine.VariantEngine.GenerateMixedVariants | modules/variant_engine.py:175-198 | the same for the mixed candidates of the first three positions |
| Engine.VariantEngine.RecordMixedAt | modules/variant_engine.py:182-196 | the inner loop over the first two zero-width characters records that position's candidates in order |
| Engine.VariantEngine.GeneratePunycodeVariants | modules/variant_engine.py:200-233 | the same for the punycode candidates; nothing for fewer than two labels |
| Engine.VariantEngine.RecordPunycodeAt | modules/variant_engine.py:211-231 | one position of the first label: a successful encoding is recorded, a failed one is skipped without aborting |
| Engine.VariantEngine.Record | modules/variant_engine.py:140-148 | a candidate is kept and its string recorded exactly when the string is new |
| Engine.VariantEngine.GetVariantStats | modules/variant_engine.py:235-259 | total is the list length; a technique has an entry exactly when it occurs, holding its count; unique code points is the size of the union; the average is the sum over the length, 0.0 for an empty list |
| Utils.TruncateString | core/utils.py:61-65 | a text that fits comes back unchanged; otherwise the result ends in "..." after a prefix of the text |
| Utils.TruncateLong | core/utils.py:63-65 | for `len(text) > max_length >= 3` the result has exactly `max_length` characters: `text[:max_length-3] + "..."` |
| Utils.TruncateTinyBound | core/utils.py:65 | for a bound 0, 1 or 2 the slice end `max_length - 3` is negative and counts from the end: the result has `len(text) + max_length` characters (3 when the text is shorter than `3 - max_length`), so it is longer than the bound |
| Utils.TruncateIdempotent | core/utils.py:61-65 | truncating twice with a bound of at least 3 equals truncating once |
| Utils.StripSlashes | core/utils.py:31 | `rstrip('/')`: a prefix not ending in '/', with only '/' removed |
| Utils.NormalizeUrl | core/utils.py:27-31 | the result never ends in '/' |
| Utils.NormalizeKeepsScheme | core/utils.py:29-31 | a URL starting with `http://` or `https://` only loses its trailing slashes |
| Utils.NormalizePrependsHttps | core/utils.py:29-31 | any other URL (unless only slashes) becomes `https://` followed by the URL without trailing slashes |
| Utils.NormalizeIdempotent | core/utils.py:27-31 | normalising again changes nothing when the result kept its scheme |
| Utils.NormalizeBareScheme | core/utils.py:29-31 | `http://` becomes `http:`, which normalises to `https://http:` |
| Utils.FullMatchMeaning | core/utils.py:23-24 | the matcher accepts exactly the strings of the pattern: non-empty local part from `[a-zA-Z0-9._%+-]`, '@', non-empty host from `[a-zA-Z0-9.-]`, '.', two or more letters |
| Utils.ValidatedSplits | core/utils.py:21-24 | an accepted address splits at its '@' into a non-empty username of local characters and a domain holding a '.', so it never takes the engine's invalid-email path |
| Utils.AcceptsOneNewline | core/utils.py:23-24 | `$` lets `a@b.co` followed by one newline through |
| Utils.RejectsTwoNewlines | core/utils.py:23-24 | two trailing newlines are refused |
| Config.Defaults | core/config.py:16-38 | the default configuration carries the given targets, 5 threads and delay 1.0 |
| Config.Validate | core/config.py:40-51 | an empty target, a thread count outside 1..50, or a negative delay each make it false |
| Config.ValidateExactly | core/config.py:40-51 | true exactly when none of the three guards fires |
| Config.ValidateReadsFourFields | core/config.py:40-51 | timeout, bound, proxy, switches and output settings never change the result |
| Config.DefaultsValidate | core/config.py:16-51 | a default configuration validates exactly when both targets are non-empty |

## Left out

- IDNA encoding (`encode('idna')`, modules/variant_engine.py:218) is a parameter `idna`. It is an arbitrary partial function, and `None` stands for the exception. Nameprep, Punycode and label-length rules are not modelled.
- `str.lower`, `str.upper` and `str.isupper` are modelled only as far as table lookups can tell. That covers ASCII letters, the Kelvin sign (lowers to 'k'), and the dotless i and long s (upper to 'I' and 'S'). Every other character is mapped to itself. No other character's case mapping reaches a key, so key membership agrees with Python.
- `visual_similarity`, `avg_similarity` and `delay` are reals, with no rounding and no NaN. A NaN delay (which `validate` accepts) is not representable.
- Engine.VariantEngine.GenerateAllVariants: requires `max_variants >= 0` (a `nat`). Negative bounds fall into Python slice semantics and are not modelled.
- The variant techniques are an enumeration, not the strings "homograph", "zero_width", "mixed" and "punycode".
- Each strategy's inner loop is a helper method of its own (`Record...At`). The set update of each candidate is the helper `Record`. The loops, their order and the set updates are those of the source.
- Logging (modules/variant_engine.py:96,102,107,112,117,122,124,231) is left out.
- `validate_url`, `extract_domain`, `format_duration`, `format_size`, `ProgressTracker` and `RateLimiter` (core/utils.py) are left out. They rely on `urlparse`, floating-point formatting, the clock and printing.
- `output_dir` is a string path; `DEFAULT_USER_AGENTS` and the pattern lists of core/config.py are left out. Nothing in the modelled core reads them.
- main.py, modules/scanner.py, modules/attack_executor.py, modules/reporter.py and core/logger.py are not part of this model. They cover HTTP, concurrency, file output and logging.
