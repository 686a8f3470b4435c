# CSV product ingestion: a Dafny model

This project models the core of the products back end of a CSV price-list reader:

- **`ProductsService.processFile`** reads decoded CSV rows one at a time. It does three things:
  - It cleans each row's name, price and expiration date.
  - It collects usable products, with the caller's exchange rates attached, into a batch. The batch is written once it reaches 500, and it keeps growing past 500 while writes fail.
  - It writes each full batch through `bulkInsertProducts`, and writes the rest at the end of the stream.
  - It counts processed and omitted rows and records one error message per omission.
- **`bulkInsertProducts`** is the fallible write. Its failure becomes the message `Failed to insert batch into the database.`.
- **`cleanProductName`** is modelled from step 1 to step 5:
  - emoji removal;
  - removal of lazy `(...)` groups and trimming;
  - replacement of `../` runs, `/etc/` paths and SQL keywords by `[removed]`;
  - the character allow-list;
  - collapsing white space and trimming.
- **`cleanProductPrice`**: the `[^0-9.]` filter, `parseFloat`, and the fallback to 0.
- **`fileFilter`**: the upload filter. It accepts only a present file whose name ends in `.csv`.

Modules:

- `Wrappers` holds `Option`, `Result` and `Outcome`.
- `Regex` holds the JavaScript string semantics the cleaners use:
  - the `\s` class and `trim`;
  - `s.replace(/re/g, rep)` for each expression involved, through one `ReplaceAll` over a `Pattern` datatype.
- `Cleaners` holds the two field cleaners and the facts about them.
- `Ingestion` states the row loop as a left fold (`Step`, `Scan`, `Run`) and proves the run's properties about it.
- `Service` holds the imperative model:
  - a `ProductRepository` class whose `Insert` may fail;
  - a `ProductsService` class whose `ProcessFile` loop and `BulkInsertProducts` are proved against the fold.
- `FileFilterHelper` holds the upload filter.

Modelling choices:

- Whether the repository's insert number `k` succeeds is given by an oracle, `accepts(k)`. A failed insert stores nothing.
- Strings are sequences of Unicode code points.
- Prices are exact `real` numbers.

Two behaviours of `processFile` and `cleanProductName` are easy to miss:

1. **A failed write of a full batch in the middle of the stream does not abort the run.**
   - It happens inside the per-row `try` (`products.service.ts:70-101`).
   - The failed write counts the row as omitted, with an `Error processing row:` message, and skips `batch.length = 0`.
   - The batch is therefore kept and attempted again at the next usable row or at the end of the stream. Its rows are then counted as processed even though one of them was also counted as omitted (`DoubleCount`).
   - So `processed + omitted` equals the number of rows plus the number of failed writes in the middle of the stream (`RunAccounting`), not the number of rows.
   - Only a failed write at the end of the stream aborts the call.
2. **The `[removed]` placeholder does not survive cleaning.**
   - Step 4's allow-list does not contain `[` or `]`.
   - So a name that is just a keyword comes out as `removed` (`LoneKeyword`).
   - Because that step runs after the keyword filter, a keyword split by one disallowed character is joined back together. Cleaning again removes it (`KeywordReassembled`).

## Model

| member | source | states |
|---|---|---|
| Service.ProductRepository.Insert | reader-backend/src/products/products.service.ts:130 | The insert succeeds exactly when the oracle accepts this call number. It stores all the rows or none, and counts one call. |
| Service.ProductsService.constructor | reader-backend/src/products/products.service.ts:27-31 | The service's name and price cleaners are `cleanProductName` (after the sanitiser) and `cleanProductPrice`, as defined in `Cleaners`. |
| Service.ProductsService.BulkInsertProducts | reader-backend/src/products/products.service.ts:128-135 | Passes exactly when the insert succeeds, otherwise fails with `Failed to insert batch into the database.`. The table grows by the rows only on success. |
| Service.ProductsService.HandleRow | reader-backend/src/products/products.service.ts:70-101 | One loop iteration produces the variables `Step` prescribes. The repository receives exactly the batches `Step` records as written. |
| Service.ProductsService.ProcessFile | reader-backend/src/products/products.service.ts:58-120 | Resolves or rejects exactly as `Run`. Adds exactly `Committed` to the table and makes exactly `Attempts` insert calls. |
| Service.ProductsService.AddToBatch | reader-backend/src/products/products.service.ts:91-101 | Adding a usable product yields the variables `Push` prescribes, and the repository receives exactly the batch `Push` records as written. |
| Service.ProductsService.FinishStream | reader-backend/src/products/products.service.ts:104-118 | The end of the stream resolves or rejects as `Finish` says, and the repository receives the final batch exactly when its write succeeds. |
| Ingestion.CleanRowUsable | reader-backend/src/products/products.service.ts:77-89 | A row yields a product if and only if its cleaned name is non-empty, its price is non-zero and its expiration date parses; an absent column reads as `''`. |
| Ingestion.CleanRowShape | reader-backend/src/products/products.service.ts:81-91 | Every product a row yields has a non-empty allow-listed name, a positive price and the run's rates. |
| Ingestion.ValidProducts | reader-backend/src/products/products.service.ts:85-91 | There are never more usable products than rows. |
| Ingestion.StepAccounted | reader-backend/src/products/products.service.ts:69-101 | One iteration keeps the loop invariant. The invariant has these parts: one error per omission; written batches followed by the pending batch are the usable products; `processed` counts written products; written batches are full; rows plus failed writes equal omissions plus usable rows. |
| Ingestion.ScanInvariant | reader-backend/src/products/products.service.ts:69-102 | The loop invariant holds after any prefix of the rows. |
| Ingestion.AcceptedScan | reader-backend/src/products/products.service.ts:93-97 | While inserts succeed, the batch is below 500 after every row and every write holds exactly 500 products. |
| Ingestion.RunAccounting | reader-backend/src/products/products.service.ts:59-118 | A resolved run has these properties: one error per omission; `success == (processed > 0)`; `processed` is the number of usable rows, all of them stored in order; `processed + omitted` is the row count plus the failed middle writes. A rejected run carries `Stream processing failed: Failed to insert batch into the database.` and has stored all but its non-empty last batch. |
| Ingestion.NoFailureRun | reader-backend/src/products/products.service.ts:59-107 | If no insert fails, the run resolves and `processed + omitted` is the row count. All usable products are stored, using ⌈n/500⌉ writes of 500 except a last one of 1 to 500, and the final write happens only for a non-empty batch. |
| Ingestion.UntilFirstFlush | reader-backend/src/products/products.service.ts:91-97 | Until 500 usable rows are seen, nothing is written and the batch holds them all in order. |
| Ingestion.DoubleCount | reader-backend/src/products/products.service.ts:93-101 | Take 500 usable rows where the first write fails and the second succeeds. The run resolves with 500 processed and 1 omitted, one more than the number of rows. |
| Ingestion.AllUsable | reader-backend/src/products/products.service.ts:85-91 | When every row is usable, every row contributes a product. |
| Ingestion.ValidProductsUsable | reader-backend/src/products/products.service.ts:91 | If every cleaned row is usable with the run's rates, so is every collected product. |
| Ingestion.ServiceProductsUsable | reader-backend/src/products/products.service.ts:81-91 | Every product a run of the service collects has a non-empty allow-listed name, a positive price and exactly the rates passed in. |
| Ingestion.FlattenFull | reader-backend/src/products/products.service.ts:93-96 | Full batches hold 500 products each. |
| Ingestion.CleanRow | reader-backend/src/products/products.service.ts:77-91 | A row yields a product exactly when its cleaned name is non-empty, its cleaned price is non-zero and its date parses; the product carries the cleaned fields and the run's rates. |
| Ingestion.Step | reader-backend/src/products/products.service.ts:70-101 | Errors are only appended, one per omission, at most one per row. An empty row adds `Empty row encountered`, and a row without usable fields adds `Missing required fields: <json>`. The written batches followed by the pending batch grow by exactly the row's product. A row that yields no product changes nothing but the omission count and the errors. |
| Ingestion.Push | reader-backend/src/products/products.service.ts:91-101 | The product joins the written-plus-pending products at the end. Below 500 only the batch grows. When the batch reaches 500 and the write is accepted, the whole batch is stored and the batch emptied, with no omission or error. When the write is rejected, nothing is stored, the batch is kept with the product, `processed` is unchanged, and one omission and the error `Error processing row: <json> - Failed to insert batch into the database.` are added. |
| Ingestion.Scan | reader-backend/src/products/products.service.ts:69-102 | After any rows, there is one error per omission, and at most one write per row. |
| Ingestion.Report | reader-backend/src/products/products.service.ts:111-116 | `success` is reported exactly when something was processed; the counters and the errors are passed through. |
| Ingestion.Finish | reader-backend/src/products/products.service.ts:104-118 | The end of the stream resolves exactly when the batch is empty or its write succeeds, adding the batch to `processed`; otherwise it rejects with `Stream processing failed: Failed to insert batch into the database.`. |
| Ingestion.Run | reader-backend/src/products/products.service.ts:58-120 | A resolved run reports one error per omission and success exactly when something was processed. It rejects exactly when the final write of a non-empty batch fails, with the stream failure message. |
| Ingestion.FinishAccounting | reader-backend/src/products/products.service.ts:104-118 | From the loop invariant: a resolved run has processed and stored every usable product, with the row count plus failed writes split between processed and omitted; a rejected run has stored all but the final batch. |
| Ingestion.FailedFlushesRejected | reader-backend/src/products/products.service.ts:93-100 | The failed writes in the middle of the stream (`FailedFlushes`) are exactly the writes the repository rejected among those the loop asked for. |
| Ingestion.StepRejections | reader-backend/src/products/products.service.ts:93-100 | One row keeps the failed writes equal to the rejected writes. |
| Ingestion.BatchGrowsPastLimit | reader-backend/src/products/products.service.ts:91-100 | A batch of 500 or more whose write is rejected is kept and grows by the next usable product, so a batch can exceed 500. |
| Cleaners.RemoveEmoji | reader-backend/src/products/products.service.ts:150-151 | Keeps exactly the characters outside the four emoji ranges, in their order (the filter `Kept`). |
| Cleaners.RemoveGroups | reader-backend/src/products/products.service.ts:154 | Leaves no `(...)` group that closes on its line, and no surrounding white space. `GroupDropped` shows that a group is removed in place and the text around it kept. |
| Cleaners.Defuse | reader-backend/src/products/products.service.ts:157-160 | Leaves no SQL keyword match in any letter case. `DefuseLeavesNoPath` adds that no `../` run or `/etc/` path is left, and `KeywordReplacedInPlace` that a keyword becomes `[removed]` with the text around it kept. |
| Cleaners.KeepAllowed | reader-backend/src/products/products.service.ts:163 | Keeps exactly the allow-listed characters of its input, in their order (the filter `Kept`). |
| Cleaners.CollapseSpaces | reader-backend/src/products/products.service.ts:166 | The output has no leading or trailing white space and no two adjacent white-space characters. Every character is a space or a non-space character of the input, and the non-space characters are exactly those of the input, in order. |
| Cleaners.CleanNameSteps | reader-backend/src/products/products.service.ts:149-168 | The cleaned name holds only allow-listed characters, does not start or end with a space and has no two spaces in a row. |
| Cleaners.CloseParenExtends | reader-backend/src/products/products.service.ts:154 | A lazy group that closes in a prefix closes at the same place in any extension. |
| Cleaners.GroupExtends | reader-backend/src/products/products.service.ts:154 | A group match at the start survives appended text. |
| Cleaners.TrimIsInfix | reader-backend/src/products/products.service.ts:154 | `trim` returns a contiguous piece of its input. |
| Cleaners.InfixGroupFree | reader-backend/src/products/products.service.ts:154 | A piece of group-free text is group-free. |
| Cleaners.TrimKeepsGroupFree | reader-backend/src/products/products.service.ts:154 | Trimming cannot create a `(...)` group. |
| Cleaners.SpaceRunsCollapsed | reader-backend/src/products/products.service.ts:166 | After `/\s+/g` becomes one space, no two white-space characters are adjacent, and no character but the space is introduced. |
| Cleaners.TrimKeepsSingleSpaced | reader-backend/src/products/products.service.ts:166 | Trimming keeps text free of adjacent white space. |
| Cleaners.CollapseKeepsNameChars | reader-backend/src/products/products.service.ts:163-166 | Step 5 keeps allow-listed text allow-listed and single-spaced, with no space at either end. |
| Cleaners.RemovedIsInert | reader-backend/src/products/products.service.ts:158-160 | No path or keyword match can start inside `[removed]`. |
| Cleaners.PathsDefused | reader-backend/src/products/products.service.ts:158-159 | The two path replacements leave no `../` run and no `/etc/` path. |
| Cleaners.RemoveGroupsIdempotent | reader-backend/src/products/products.service.ts:154 | Step 2 is idempotent. |
| Cleaners.QuietEarlySteps | reader-backend/src/products/products.service.ts:150-154 | Steps 1 and 2 leave trimmed text alone when it has no emoji, `(`, `.` or `/`. |
| Cleaners.QuietPaths | reader-backend/src/products/products.service.ts:158-159 | The path replacements leave such text alone. |
| Cleaners.CapitalsQuiet | reader-backend/src/products/products.service.ts:150-160 | Capitals and spaces trigger none of steps 1-3, and only the space is white space. |
| Cleaners.SpacelessCollapse | reader-backend/src/products/products.service.ts:166 | Step 5 leaves text without white space unchanged. |
| Cleaners.EnclosingDropped | reader-backend/src/products/products.service.ts:163 | The allow-list strips disallowed characters around an allowed word. |
| Cleaners.PlaceholderLosesBrackets | reader-backend/src/products/products.service.ts:158-163 | Step 4 turns `[removed]` into `removed`. |
| Cleaners.RemovedWordSettled | reader-backend/src/products/products.service.ts:166 | Step 5 leaves `removed` unchanged. |
| Cleaners.LoneKeywordDefused | reader-backend/src/products/products.service.ts:150-160 | Steps 1-3 turn a name that is one keyword match into `[removed]`. |
| Cleaners.LoneKeyword | reader-backend/src/products/products.service.ts:149-168 | A name that is one keyword match, of capitals and inner spaces, cleans to `removed`. |
| Cleaners.SplitKeywordDefused | reader-backend/src/products/products.service.ts:150-160 | Steps 1-3 leave alone capitals split by a quiet non-space character when no keyword matches. |
| Cleaners.SplitKeywordJoined | reader-backend/src/products/products.service.ts:163 | The allow-list deletes a disallowed character between two allowed words. |
| Cleaners.SplitKeywordCleaned | reader-backend/src/products/products.service.ts:149-168 | Such a split name cleans to its two halves joined. |
| Cleaners.KeywordReassembled | reader-backend/src/products/products.service.ts:157-163 | A keyword split by one disallowed character comes out whole. Cleaning it again gives `removed`, so the cleaner is not idempotent. |
| Cleaners.PriceText | reader-backend/src/products/products.service.ts:181 | Keeps exactly the digits and dots of the raw price, in their order (the filter `Kept`). |
| Cleaners.Pow10 | reader-backend/src/products/products.service.ts:186 | Powers of ten are at least 1. |
| Cleaners.Decimal | reader-backend/src/products/products.service.ts:186 | The value of a decimal numeral is non-negative. |
| Cleaners.ParseFloat | reader-backend/src/products/products.service.ts:186 | `parseFloat` on digits and dots is NaN exactly when the text is empty or starts with a dot not followed by a digit; otherwise it is non-negative. |
| Cleaners.CleanProductPrice | reader-backend/src/products/products.service.ts:178-192 | The price is never negative. |
| Cleaners.Numeral | reader-backend/src/products/products.service.ts:186 | The decimal numeral of a number is a non-empty run of digits. |
| Cleaners.NumeralValue | reader-backend/src/products/products.service.ts:186 | A numeral denotes the number it was written from. |
| Cleaners.NoDigitsNoPrice | reader-backend/src/products/products.service.ts:179-191 | Text without digits has price 0, the default. |
| Cleaners.PriceTextOfPriceChars | reader-backend/src/products/products.service.ts:181 | The filter is the identity on digits and dots. |
| Cleaners.PriceIgnoresNoise | reader-backend/src/products/products.service.ts:181-189 | Currency signs and units around a price do not change it. |
| Cleaners.ParseWhole | reader-backend/src/products/products.service.ts:186 | All-digit text is all whole part. |
| Cleaners.ParseDigits | reader-backend/src/products/products.service.ts:186 | A run of digits parses to the number it denotes. |
| Cleaners.NumeralPrice | reader-backend/src/products/products.service.ts:178-192 | The numeral of `n` has price `n`. |
| Cleaners.ParseDecimal | reader-backend/src/products/products.service.ts:186 | `w.f` parses to the whole part plus the scaled fraction. |
| Cleaners.DecimalPrice | reader-backend/src/products/products.service.ts:178-192 | A decimal price keeps its fraction. |
| Cleaners.CleanProductName | reader-backend/src/products/products.service.ts:144-168 | Whatever the sanitiser returns, the cleaned name holds only allow-listed characters, has no space at either end and no two spaces in a row. |
| Cleaners.NonSpaceAppend | reader-backend/src/products/products.service.ts:166 | The non-white-space characters of a concatenation are those of its parts. |
| Cleaners.CollapseKeepsNonSpace | reader-backend/src/products/products.service.ts:166 | Turning `\s+` runs into one space keeps every non-white-space character, in order. |
| Cleaners.TrimKeepsNonSpace | reader-backend/src/products/products.service.ts:166 | `trim` keeps every non-white-space character, in order. |
| Cleaners.SpaceBetween | reader-backend/src/products/products.service.ts:166 | A white-space run between two non-space characters becomes exactly one space, and the text on either side is collapsed on its own. |
| Cleaners.GroupDropped | reader-backend/src/products/products.service.ts:154 | A group that closes on its line is removed in place: the text before it, without `(`, is kept, and the scan goes on after it. |
| Cleaners.KeywordReplacedInPlace | reader-backend/src/products/products.service.ts:160 | A keyword match becomes `[removed]` in place, and the text around it is kept. |
| Cleaners.DefusedStaysDefused | reader-backend/src/products/products.service.ts:158-160 | After the three replacements of step 3 no keyword, `../` run or `/etc/` path is left. |
| Cleaners.DefuseLeavesNoPath | reader-backend/src/products/products.service.ts:158-160 | Step 3 leaves no `../` run and no `/etc/` path. |
| Cleaners.CleanNameFixpoint | reader-backend/src/products/products.service.ts:149-168 | An allow-listed name without `(`, `.` or `/`, without a space at either end, without two spaces in a row and without a keyword is its own cleaned form. |
| Cleaners.CleanAgainSettled | reader-backend/src/products/products.service.ts:149-168 | Cleaning a cleaned name again changes nothing unless the first pass left a `(`, `.`, `/` or a keyword in it. |
| Cleaners.SingleSpacedCollapse | reader-backend/src/products/products.service.ts:166 | Step 5 leaves alone allow-listed text with single inner spaces and none at the ends. |
| Cleaners.SettledChain | reader-backend/src/products/products.service.ts:149-168 | Steps that each leave a text alone leave it alone one after the other. |
| Regex.Span | reader-backend/src/products/products.service.ts:158-166 | The longest prefix whose characters satisfy a predicate: the `/+`, `[\w.-]+` and `\s+` runs, and the digit runs `parseFloat` reads (line 186). |
| Regex.TrimStart | reader-backend/src/products/products.service.ts:154 | Only leading white space is dropped, and the result does not start with white space. |
| Regex.TrimEnd | reader-backend/src/products/products.service.ts:154 | Only trailing white space is dropped, and the result does not end with white space. |
| Regex.Trim | reader-backend/src/products/products.service.ts:154 | The result has no white space at either end and only characters of the input. |
| Regex.LettersAreNotSpace | reader-backend/src/products/products.service.ts:166 | Letters are not in `\s`. |
| Regex.TrimUntouched | reader-backend/src/products/products.service.ts:166 | Text without surrounding white space is its own trim. |
| Regex.CloseParen | reader-backend/src/products/products.service.ts:154 | The lazy `.*?\)` closes at the first `)`, provided no line terminator comes first. |
| Regex.KeywordMatch | reader-backend/src/products/products.service.ts:160 | A keyword match begins with one of the seven keywords, compared case-insensitively. |
| Regex.MatchLength | reader-backend/src/products/products.service.ts:150-166 | A match never runs past the text. |
| Regex.ReplaceAllUnmatched | reader-backend/src/products/products.service.ts:150-166 | A global replace without a match returns its input. |
| Regex.CharClassRemoved | reader-backend/src/products/products.service.ts:163 | Deleting a one-character class keeps exactly the other characters. |
| Regex.CharClassDropsAll | reader-backend/src/products/products.service.ts:163 | Text made only of the class vanishes. |
| Regex.CharClassAppend | reader-backend/src/products/products.service.ts:163 | Deleting a class distributes over concatenation. |
| Regex.ReplacedPrefix | reader-backend/src/products/products.service.ts:158-160 | An output starting with a literal unlike the placeholder's `[` comes from an input starting with it. |
| Regex.CharClassFilters | reader-backend/src/products/products.service.ts:163 | Deleting a one-character class is filtering by it. |
| Regex.WholeMatchReplaced | reader-backend/src/products/products.service.ts:158-160 | Text that is one match becomes the replacement. |
| Regex.KeywordPairs | reader-backend/src/products/products.service.ts:160 | Each keyword has one of the six leading letter pairs. |
| Regex.KeywordHead | reader-backend/src/products/products.service.ts:160 | A keyword match begins with such a pair, in either case. |
| Regex.MatchBegins | reader-backend/src/products/products.service.ts:150-166 | A match begins with a character that can start the pattern. |
| Regex.Untouched | reader-backend/src/products/products.service.ts:150-166 | Text in which no character can start a match is left alone. |
| Regex.FirstKeywordFound | reader-backend/src/products/products.service.ts:160 | A keyword match comes from a keyword the text starts with. |
| Regex.KeywordFoundMatches | reader-backend/src/products/products.service.ts:160 | Text starting with a keyword matches. |
| Regex.StartsWithIff | reader-backend/src/products/products.service.ts:160 | Prefix comparison is position-wise comparison. |
| Regex.KeywordChars | reader-backend/src/products/products.service.ts:160 | Keywords are capitals and spaces. |
| Regex.EtcWindowDecides | reader-backend/src/products/products.service.ts:159 | A `/etc/x` prefix decides a path match. |
| Regex.KeywordWindowDecides | reader-backend/src/products/products.service.ts:160 | The keyword a match starts with decides it, and contains no `[`. |
| Regex.BracketUnlikeKeywordChar | reader-backend/src/products/products.service.ts:160 | `[` equals no capital or space, even caselessly. |
| Regex.WindowDecides | reader-backend/src/products/products.service.ts:158-160 | A literal pattern's match is decided by a prefix without `[`. |
| Regex.MatchTransfers | reader-backend/src/products/products.service.ts:158-160 | A match before replaced text comes from a match in the input. |
| Regex.PlaceholderLeavesNoMatch | reader-backend/src/products/products.service.ts:158-160 | Replacing every match by `[removed]` leaves no match behind. |
| Regex.UnclosedStaysUnclosed | reader-backend/src/products/products.service.ts:154 | Removing groups cannot close an unclosed `(`. |
| Regex.ParenGroupsGone | reader-backend/src/products/products.service.ts:154 | After `/\(.*?\)/g` is removed, no group remains. |
| Regex.IsSpace | reader-backend/src/products/products.service.ts:166 | Among the allow-listed characters, only the space is in `\s`. |
| Regex.Fold | reader-backend/src/products/products.service.ts:160 | Case folding for the `i` flag yields no capital, and yields a small letter exactly for letters. |
| Regex.Same | reader-backend/src/products/products.service.ts:160 | Without the `i` flag, characters match when equal; with it, a letter matches only a letter. |
| Regex.StartsWith | reader-backend/src/products/products.service.ts:160 | A text can only start with a word no longer than itself. |
| Regex.ReplaceAll | reader-backend/src/products/products.service.ts:150-166 | `s.replace(/re/g, rep)`: with an empty replacement the output is never longer than the input. |
| Regex.ReplaceAllChars | reader-backend/src/products/products.service.ts:150-166 | Every character of the output comes from the input or from the replacement. |
| Regex.TrimStartSuffix | reader-backend/src/products/products.service.ts:154 | `trimStart` returns a suffix of its input. |
| Regex.TrimEndPrefix | reader-backend/src/products/products.service.ts:154 | `trimEnd` returns a prefix of its input. |
| Regex.TrimStartAppend | reader-backend/src/products/products.service.ts:166 | Leading white space is trimmed within the first part when it ends in a non-space character. |
| Regex.TrimEndPrepend | reader-backend/src/products/products.service.ts:166 | Trailing white space is trimmed within the last part when it starts with a non-space character. |
| Regex.TrimAroundSpace | reader-backend/src/products/products.service.ts:166 | Trimming two pieces joined by one space trims each piece on its own. |
| Regex.SpaceRunSplit | reader-backend/src/products/products.service.ts:166 | `\s+` replacement distributes over a split that does not cut a white-space run. |
| Regex.SingleSpacedSettled | reader-backend/src/products/products.service.ts:166 | Text whose white space is single spaces, never adjacent, is left alone by `\s+` replacement. |
| Regex.CloseParenAt | reader-backend/src/products/products.service.ts:154 | The lazy `.*?\)` closes at the first `)` when no line terminator comes before it. |
| Regex.GroupAtStart | reader-backend/src/products/products.service.ts:154 | A group at the start is removed and the scan goes on after it. |
| Regex.GroupRemovedInPlace | reader-backend/src/products/products.service.ts:154 | A group after text without `(` is removed in place, and the text before it is kept. |
| Regex.ReplaceAllCopies | reader-backend/src/products/products.service.ts:150-166 | Text in which no match starts is copied through unchanged ahead of the rest. |
| Regex.MatchReplacedInPlace | reader-backend/src/products/products.service.ts:158-160 | A whole match between unmatched text and match-free text is replaced in place. |
| Regex.MatchFreeSuffix | reader-backend/src/products/products.service.ts:158-160 | Every suffix of match-free text is match-free. |
| Regex.PlaceholderKeepsFree | reader-backend/src/products/products.service.ts:158-160 | Replacing matches of one pattern by `[removed]` keeps text free of a literal pattern that `[removed]` cannot start or complete. |
| Regex.SpanAppend | reader-backend/src/products/products.service.ts:158-166 | The run at the start of a concatenation continues into the second part exactly when it covers the first. |
| FileFilterHelper.Search | reader-backend/src/products/helpers/fileFilter.helper.ts:8 | Returns the leftmost position where `/\.(csv)$/` matches: it matches there and at no earlier position. `None` is returned only when it matches nowhere. |
| FileFilterHelper.FileFilter | reader-backend/src/products/helpers/fileFilter.helper.ts:1-12 | The callback is invoked exactly once, and it accepts exactly when it passes no error. |
| FileFilterHelper.CsvRegexIsSuffix | reader-backend/src/products/helpers/fileFilter.helper.ts:8 | The expression matches exactly the names ending in `.csv`. |
| FileFilterHelper.FileFilterDecides | reader-backend/src/products/helpers/fileFilter.helper.ts:6-11 | A missing file is refused with `No file provided`. A present file is accepted exactly when its name exists and ends in `.csv`; otherwise it is refused with `Only csv files are allowed!`. |
| FileFilterHelper.UpperCaseRefused | reader-backend/src/products/helpers/fileFilter.helper.ts:8-10 | The match is case-sensitive: `.CSV` is refused. |

## Left out

- **The HTML sanitiser and NFC normalisation of names** (`products.service.ts:145-147`) are foreign library code and Unicode tables. They are a function parameter `markup`, and the name facts hold whatever it returns.
- **The HTML sanitiser on the price string** (`products.service.ts:182-185`) is taken as the identity: its input holds only digits and dots, which carry no markup.
- **`cleanProductExpirationDate`** (`products.service.ts:201-208`) uses the sanitiser and `date-fns`. It is a parameter returning an optional date.
- **`JSON.stringify` of a row** in the error messages is a parameter, `render`.
- **Floating point.** `parseFloat` yields the exact decimal value as a real. IEEE rounding, overflow to `Infinity` and exponent notation are not modelled: the price filter removes `e` and signs.
- **The stream and CSV plumbing** (`products.service.ts:65-69`) is replaced by the sequence of decoded rows. Failures of the stream itself, other than a failed final write, are not modelled.
- **The TypeORM insert** is an all-or-nothing oracle on the call number. Exceptions thrown by the cleaners themselves are not modelled, since the cleaners are total functions here.
- **Logging** in `bulkInsertProducts` is left out.
- **The `typeof rawPrice === 'string'` test** always holds for the strings the loop passes, so its else branch is not modelled.
- **Lone UTF-16 surrogates** are not modelled, since characters are code points.
- **Out of scope:**
  - `createProductWithRates`;
  - the controller, module and `main.ts` wiring;
  - the exchange-rate client;
  - the DTOs and the entity;
  - the upload page.

  These are framework wiring, an HTTP client and UI.
- **`fileFilter`'s `req` argument** is unused. The value returned from the callback is left out: only the callback's arguments are modelled.
