# takya notifier: a Dafny model of its scan and reconciliation core

The notifier fetches one shop page and reads it as a list of text lines. Items
are marked on the page with a `★` line, followed by a name line, a blank line
and a price line. The notifier turns every such block into an `ItemSection`,
then brings its MySQL table `item` in line with what it read. Every stored row
seen again with a detail item is overwritten with the scanned item, whether or
not its price changed; only a price change is notified. A row whose item now
shows as sold is marked sold. New items are inserted in one batch. Rows the page no longer lists are
deleted. Every change queues one push notification, and the notifications are
sent together at the end of a run.

This project models that core as pure Dafny functions and states its
behaviour as contracts and lemmas:

- `wrappers.dfy`: `Option`.
- `text.dfy`: the `str` operations the parser uses.
  - `trim`, with `char::is_whitespace`.
  - `split(" | ")`.
  - `replace(',', "")`.
- `numbers.dfy`: `str::parse::<i32>`, with its `Empty` and `PosOverflow` errors, and decimal rendering.
- `matchers.dfy`: one function per regular expression of `src/parsers.rs`, plus `Regex::captures` as a leftmost search.
  - The sold, vanilla, item and price matchers are each given with a shape predicate.
  - Each also has a lemma saying the matcher finds exactly the matches of that shape, with the captures the regex takes.
- `models.dfy`: `Item` and `Exterior`.
  - `Exterior`'s strum names, the `Display` and `LowerExp` renderings.
  - The table, as a map from `order_id` to row, and diesel's whole-row update.
- `parsers.dfy`:
  - `parse_item_section` as `ExtractSection`. Its outcome is a parsed section, a `ParseError`, or the price line's `unwrap` panic.
  - `parse_items`, both as the function `ScanPage` and as the imperative `ParseItems`.
- `extractor_lemmas.dfy`: every error case of `parse_item_section`, the fields it extracts, and round trips from an item's rendered lines back to the item.
- `scanner_lemmas.dfy`: what `parse_items` takes as blocks and what it keeps.
  - When it panics.
  - That it never reads the line between the name line and the price line.
- `reconciler.dfy`: the loop and deletion pass of `main`, plus a whole run over a page (`RunOnce`).
  - It is a function (`Reconcile`) and an imperative method (`ReconcileSteps`).
  - The result is a `Run`: either the final table and notification list, or the failure and the table as it was left.
- `reconciler_lemmas.dfy`: reference definitions for the run's result.
  - The notifications each section is owed (`SectionEvents`), the new items (`NewItems`) and the row each section leaves (`Expected`).
  - Theorems that a run meets them, removes exactly the unseen rows, and that a second run over the same page changes nothing.

## Model

| member | source | states |
|---|---|---|
| Text.Split | src/parsers.rs:97 | the parts glue back to the line; one part iff the separator never occurs; the first cut is the leftmost occurrence; no part holds the separator |
| Text.SplitInTwo | src/parsers.rs:97 | two halves joined by the separator split back into exactly those halves when neither holds a bar character |
| Text.Trim | src/parsers.rs:134-136 | the result has no whitespace at either end |
| Text.TrimInfix | src/parsers.rs:134-136 | what `trim` keeps is an infix of the input with only whitespace cut off on either side |
| Text.TrimOfPadded | src/parsers.rs:134-136 | whitespace padding around a trimmed non-empty string is exactly what `trim` removes |
| Text.RemoveAll | src/parsers.rs:156 | the result holds no comma, only characters of the input, and equals the input when it had no comma |
| Text.RemoveAllAppend | src/parsers.rs:156 | removing a character from a concatenation removes it from each part and concatenates, in order |
| Text.RemoveAllOne | src/parsers.rs:156 | on a single character, the removed character disappears and any other is kept |
| Text.FindFrom | src/parsers.rs:97 | the position returned holds the separator and no earlier position at or after the start does |
| Numbers.ParseI32 | src/parsers.rs:102 | an accepted number fits in `i32`; the empty string is exactly the `Empty` error |
| Numbers.ParseDigits | src/parsers.rs:102 | a digit string parses to its decimal value when that fits in `i32`, otherwise to `PosOverflow` |
| Numbers.Decimal | src/parsers.rs:102 | the rendering is a non-empty digit string whose decimal value is the number |
| Numbers.ParseDecimal | src/parsers.rs:102 | parsing the decimal rendering of any `i32`-sized natural gives the number back |
| Numbers.DecimalValueConcat | src/parsers.rs:156 | the value of two digit strings written one after the other is the first shifted by the second's length plus the second |
| Matchers.RunEnd | src/parsers.rs:12-13 | a greedy character-class run ends at the first character outside the class |
| Matchers.DigitsAt | src/parsers.rs:11-14 | `\d+` matches at a position iff a digit is there, and captures only digits |
| Matchers.SoldAtMeaning | src/parsers.rs:11 | the sold matcher succeeds at a position iff the text there has the `(売約済み) #digits` shape, and it captures the whole digit run |
| Matchers.VanillaAtMeaning | src/parsers.rs:12 | the vanilla matcher succeeds iff the text has the `name (Vanilla) #digits` shape; the captures are that name and digit run |
| Matchers.VanillaAtCaptures | src/parsers.rs:12 | any instance of the vanilla shape followed by a non-digit is matched with exactly its name and digits |
| Matchers.ItemAtSound | src/parsers.rs:13 | an item match is an instance of the `kind (exterior) #digits` shape, with those captures |
| Matchers.ItemAtComplete | src/parsers.rs:13 | every instance of the item shape at a position is found by the matcher |
| Matchers.ItemAtMeaning | src/parsers.rs:13 | the item matcher succeeds iff the item shape occurs, and its captures are kind, exterior and id of that occurrence |
| Matchers.PriceAtMeaning | src/parsers.rs:14 | the price matcher succeeds iff the `販売価格: [0-9,]+円` shape occurs, capturing the digits-and-commas run |
| Matchers.Leftmost | src/parsers.rs:101 | the position found matches and no earlier position does |
| Matchers.Captures | src/parsers.rs:101 | no capture iff the pattern matches nowhere; a capture is the match at the leftmost position where the pattern matches |
| Matchers.CapturesAtStart | src/parsers.rs:101 | a pattern that matches at the start is captured there |
| Models.ParseExterior | src/models.rs:48-61 | an accepted string is that grade's name; a rejected one is no grade's name |
| Models.ExteriorRoundTrip | src/models.rs:48-61 | parsing a grade's name gives the grade back, and names are distinct |
| Models.DisplaySplits | src/models.rs:22-30 | the `Display` title splits back into name and kind label; a vanilla item displays as kind `Vanilla` |
| Models.LowerExpExtendsDisplay | src/models.rs:32-46 | `LowerExp` extends `Display`, equals it iff there is no kind, and otherwise appends ` (exterior)` |
| Models.UpdateRow | src/models.rs:7-20 | the update by primary key replaces the row with that key whole, keeps every other row and the key set |
| Parsers.WithOrderId | src/parsers.rs:102 | the name line is accepted iff its id digits parse; a parse error becomes `InvalidNumber` with that error |
| Parsers.OnePart | src/parsers.rs:99-110 | an accepted one-part line gives a non-negative `i32` id and no kind or exterior |
| Parsers.TwoParts | src/parsers.rs:111-128 | an accepted two-part line gives the first part as name, a kind, an exterior and a non-negative `i32` id |
| Parsers.ParseNameLine | src/parsers.rs:97-132 | kind and exterior come together, a kind comes with a name, and the id is a non-negative `i32` |
| Parsers.StripStattrak | src/parsers.rs:138-150 | the flag is set iff the name starts with `StatTrak `, and then exactly that prefix is removed |
| Parsers.Assemble | src/parsers.rs:134-179 | a parsed section keeps the id and has an item iff there was a name; panics iff the price matcher fails |
| Parsers.ExtractSection | src/parsers.rs:87-180 | name-line errors come first; a panic happens iff the name line is accepted and the price line does not match; a parsed item carries the section's id and price, is unsold, and has kind iff exterior |
| Parsers.MarkerFlagAt | src/parsers.rs:44 | a line is a block marker iff it trims to `★` |
| Parsers.ParseItems | src/parsers.rs:40-85 | the line-by-line scan computes the same result as the functional `ScanPage` |
| ExtractorLemmas.OnePartCases | src/parsers.rs:99-110 | a one-part line is `InvalidItemFormat` iff neither sold nor vanilla matcher matches; it has no name iff the sold matcher matches |
| ExtractorLemmas.TwoPartsCases | src/parsers.rs:111-128 | a two-part line is `InvalidItemFormat` iff the item matcher fails on the second part, `InvalidExterior` (with the captured text) iff the exterior is not a grade name |
| ExtractorLemmas.InvalidItemFormatCases | src/parsers.rs:97-131 | `InvalidItemFormat` (carrying the whole line) iff three or more parts, an unmatched one-part line, or an unmatched second part |
| ExtractorLemmas.InvalidExteriorCases | src/parsers.rs:119-126 | `InvalidExterior` iff two parts whose exterior capture is no grade name, and the error carries that capture |
| ExtractorLemmas.NameLineId | src/parsers.rs:102-127 | the order id is the decimal value of the digits the matchers capture; too many digits give `PosOverflow` |
| ExtractorLemmas.OrderIdFromDigits | src/parsers.rs:102-127 | a parsed section's order id is the decimal value of the captured id digits |
| ExtractorLemmas.AssemblePrice | src/parsers.rs:152-157 | with commas removed the price is empty (error), too large (overflow) or its decimal value |
| ExtractorLemmas.PriceFromDigits | src/parsers.rs:152-157 | a section's price is the decimal value of the price capture without its commas, with the empty and overflow errors |
| ExtractorLemmas.AssembleItem | src/parsers.rs:134-169 | an item's kind is the trimmed kind, its exterior the parsed one, and its name the trimmed name without `StatTrak ` |
| ExtractorLemmas.SoldLineHasNoItem | src/parsers.rs:99-103 | a parsed section has no item iff its line is one part on which the sold matcher matches |
| ExtractorLemmas.ItemFields | src/parsers.rs:111-150 | an item has kind and exterior iff its line had two parts, with the trimmed kind capture, the parsed exterior and the trimmed name |
| ExtractorLemmas.PriceLineRoundTrip | src/parsers.rs:152-157 | the price line shown for an `i32` price, digits grouped by thousands with commas, parses back to that price once the commas are removed |
| ExtractorLemmas.GroupedDigits | src/parsers.rs:156 | removing the commas from a grouped rendering leaves a non-empty digit string whose value is the number |
| ExtractorLemmas.GroupedExample | src/parsers.rs:14 | 1234567 is shown with thousands separators as `1,234,567` |
| ExtractorLemmas.StripRoundTrip | src/parsers.rs:138-150 | prefixing `StatTrak ` by the flag and stripping it again gives back name and flag |
| ExtractorLemmas.AssembleRoundTrip | src/parsers.rs:134-179 | a trimmed name and kind with the flag's prefix and the rendered price assemble back into the same item |
| ExtractorLemmas.ItemTextMatches | src/parsers.rs:13 | `kind (exterior) #digits` is captured by the item matcher as exactly those three parts |
| ExtractorLemmas.TwoPartsRoundTrip | src/parsers.rs:111-128 | a rendered item part gives back kind, exterior and id |
| ExtractorLemmas.FullItemRoundTrip | src/parsers.rs:87-180 | the two lines shown for an item with kind and exterior parse back to exactly that item |
| ExtractorLemmas.VanillaItemRoundTrip | src/parsers.rs:87-180 | the two lines shown for a vanilla item parse back to exactly that item |
| ExtractorLemmas.SoldRoundTrip | src/parsers.rs:99-102 | a sold line and a price line parse to a section with no item, that id and that price |
| ScannerLemmas.MarkersAreMarkers | src/parsers.rs:43-44 | every block start the scan uses is a marker line |
| ScannerLemmas.MarkersSpaced | src/parsers.rs:49-70 | a block consumes its three following lines, so block starts are at least four lines apart |
| ScannerLemmas.MarkersCover | src/parsers.rs:43-70 | a marker line is either a block start or one of the three lines of an earlier block |
| ScannerLemmas.HarvestCrash | src/parsers.rs:154 | the scan panics iff some complete block panics, and then at the first such block |
| ScannerLemmas.HarvestSections | src/parsers.rs:40-85 | no more sections than markers; every section comes from a parsed block and every parsed block yields its section |
| ScannerLemmas.HarvestAppend | src/parsers.rs:40-85 | sections come out in page order: the scan of two runs of blocks is the first's sections before the second's |
| ScannerLemmas.HarvestFrame | src/parsers.rs:49-72 | the scan depends only on each block's name and price lines |
| ScannerLemmas.ScannedSections | src/parsers.rs:159-179 | every item a scanned section carries has the section's id, ids and prices are non-negative `i32`, and items are unsold at the section price |
| ScannerLemmas.BlankLineIgnored | src/parsers.rs:57-61 | replacing the line after a block's name line changes neither the block starts nor the outcome |
| ScannerLemmas.BlankLineIgnoredByScan | src/parsers.rs:57-61 | the page scan is the same whatever stands between a block's name and price lines |
| ScannerLemmas.LineKinds | src/parsers.rs:44 | the name, blank and price lines shown for a sold item are not markers, and `★` is no price line |
| ScannerLemmas.TwoParsedBlocks | src/parsers.rs:40-85 | two complete blocks that parse yield their two sections in order |
| ScannerLemmas.FirstBlockPanics | src/parsers.rs:154 | a first block whose price line does not match ends the scan at marker 0 |
| ScannerLemmas.MissingBlankLinePanics | src/parsers.rs:49-70 | two sold blocks scan to two sections; with the first block's blank line missing, the next `★` is taken as its price line and the scan panics |
| Reconciler.Visit | src/main.rs:90-130 | the id is recorded; keys never change; at most one notification is added; an unknown id leaves the table alone; only a new detail item is staged |
| Reconciler.InsertBatch | src/main.rs:133-137 | a successful batch adds exactly the staged keys and keeps old rows; a failure names a staged key |
| Reconciler.Unseen | src/main.rs:139-141 | the listed keys the scan did not see, and nothing else |
| ReconcilerLemmas.UnseenAppend | src/main.rs:139-141 | `retain` on a concatenation retains in each part and keeps their order |
| ReconcilerLemmas.UnseenOne | src/main.rs:139-141 | a single listed key is kept exactly when the scan did not see it |
| Reconciler.DeleteAll | src/main.rs:143-158 | a completed pass removes exactly the ids, keeps the other rows and adds one notification per id; an aborted one is `ItemNotFound` |
| Reconciler.ReconcileSteps | src/main.rs:85-158 | the statement-by-statement loop, insert and deletion pass compute the functional `Reconcile` |
| Reconciler.RunOnce | src/main.rs:90 | a run aborts on a price panic iff the page scan panics, and then the table is untouched |
| ReconcilerLemmas.Ids | src/main.rs:91 | the recorded ids are the sections' ids in scan order |
| ReconcilerLemmas.VisitEffect | src/main.rs:98-130 | one iteration settles the section's row, adds that section's notifications and stages its new item |
| ReconcilerLemmas.WalkSeen | src/main.rs:87-91 | after the loop the recorded ids are exactly the scanned ids, in order |
| ReconcilerLemmas.WalkKeyed | src/main.rs:98-119 | the loop keeps every row stored under its own `order_id` |
| ReconcilerLemmas.WalkUntouched | src/main.rs:93-119 | a row whose id the scan does not mention is left as it was |
| ReconcilerLemmas.WalkEvents | src/main.rs:98-130 | with distinct ids the loop queues each section's notifications judged against the table before the run |
| ReconcilerLemmas.WalkStaged | src/main.rs:120-130 | with distinct ids the loop stages exactly the detail items whose id was not stored, in order |
| ReconcilerLemmas.WalkRows | src/main.rs:98-119 | a stored row that a section mentions ends the loop settled by that section |
| ReconcilerLemmas.InsertBatchSucceeds | src/main.rs:133-137 | the batch insert succeeds iff no staged key is taken and the staged keys are distinct |
| ReconcilerLemmas.InsertBatchRows | src/main.rs:133-137 | each staged item is stored under its key, keeping rows keyed |
| ReconcilerLemmas.DeleteAllCompletes | src/main.rs:143-158 | the deletion pass completes iff every id has a row and no id repeats |
| ReconcilerLemmas.DeleteAllEvents | src/main.rs:143-158 | the deletion pass queues one removal per id, naming the deleted row, in listing order |
| ReconcilerLemmas.DeleteAllAborted | src/main.rs:143-158 | an aborted pass stopped at the first id without a row: every earlier id still had its row when its turn came, and the deletes up to and including the failing id were issued |
| ReconcilerLemmas.NewItemsFrom | src/main.rs:120-126 | every new item is the detail item of a scanned section with an unknown id |
| ReconcilerLemmas.NewItemsCover | src/main.rs:120-126 | every detail item with an unknown id is among the new items |
| ReconcilerLemmas.NewItemsDistinct | src/main.rs:120-137 | with distinct section ids the new items have distinct keys |
| ReconcilerLemmas.AfterInsertIs | src/main.rs:133-137 | with distinct ids the insert never fails and adds exactly the new items |
| ReconcilerLemmas.AfterInsertSeenRow | src/main.rs:98-137 | after the insert a scanned id has a row iff it was stored or has an item, and that row is the expected one |
| ReconcilerLemmas.AfterInsertUnseenRow | src/main.rs:93-137 | after the insert an id the scan never mentions has its stored row, or none |
| ReconcilerLemmas.AfterInsertKeyed | src/main.rs:98-137 | after the insert every row is stored under its own `order_id` |
| ReconcilerLemmas.UnseenDistinct | src/main.rs:139-141 | `retain` keeps a listing of distinct keys distinct |
| ReconcilerLemmas.ReconcileUnfolds | src/main.rs:133-144 | a run whose insert succeeds is the deletion pass over the unseen listed keys |
| ReconcilerLemmas.ReconcileDeletes | src/main.rs:139-158 | when the listing enumerates the table, the run completes, keeps exactly the scanned ids, and queues one removal per unseen row |
| ReconcilerLemmas.ReconcileItemNotFound | src/main.rs:145-156 | a listed, unseen key with no row aborts the run with `ItemNotFound` |
| ReconcilerLemmas.NewItemTwiceIsDuplicate | src/main.rs:120-137 | the same new item scanned twice is staged twice and the insert fails on its key, leaving the table untouched |
| ReconcilerLemmas.ReconcileRow | src/main.rs:85-158 | a scanned id has a row after the run iff it was stored or came with an item, and the row is the expected one |
| ReconcilerLemmas.ReconcileRows | src/main.rs:85-158 | after a run only scanned ids remain, each with its expected row, all keyed by `order_id` |
| ReconcilerLemmas.ReconcileEvents | src/main.rs:85-158 | the notifications are each section's, judged against the table before the run, then one removal per unseen stored row |
| ReconcilerLemmas.ReflectsQuiet | src/main.rs:98-130 | a table that already reflects every section owes no notification and no new item |
| ReconcilerLemmas.RunReflects | src/main.rs:85-158 | after a run the table reflects every scanned section |
| ReconcilerLemmas.QuietEvents | src/main.rs:85-158 | a run over a table that reflects the scan and holds only scanned ids queues no notification |
| ReconcilerLemmas.QuietStore | src/main.rs:85-158 | such a run leaves the table unchanged |
| ReconcilerLemmas.SecondPassQuiet | src/main.rs:85-158 | running the same scan a second time changes nothing and notifies nothing |
| ReconcilerLemmas.PageRunCompletes | src/main.rs:85-158 | a page that scans without panic and has distinct ids completes, with each section's notifications followed by one per removed row |

## Left out

- Fetching the page over HTTP and selecting the `section` element (src/main.rs:51-75) are I/O. The model starts from the element's text lines.
- Connecting to MySQL, and every database error that `?` propagates, are I/O. schema.rs is not part of this model beyond the table it implies: a map from `order_id` to `Item`.
- The database's answer to the key listing (src/main.rs:140) is the parameter `listed`. The environment supplies it, so a listed key without a row stays reachable.
- Building and sending notifications are network calls (src/main.rs:80-83, 160-164, and src/fcm/):
  - The FCM client, the `join_all` of the queued sends, and whether a send fails are left out.
  - An `Event` records which notification is queued and which item and prices it names.
  - The Japanese title and body wording is not modelled.
- Reading the environment, `dotenv` and Sentry reporting (src/main.rs:30-49) are left out, as are timing printouts.
- The warnings `warn_corrupted_section` prints to stderr (src/parsers.rs:34-37) are output only. A dropped block is modelled as dropped, and the message is not modelled.
- Reconciler.InsertBatch: that a primary-key clash fails the whole multi-row `INSERT` and keeps none of its rows (src/main.rs:133-137) is the storage engine's statement atomicity (InnoDB), which the model assumes rather than derives from the program.
- Concurrency and the `async` runtime are left out. The queued sends are lazy futures, so a run that fails before `join_all` sends nothing; `Run.Aborted` carries no notifications.
- Matchers.DigitsAt: `\d` is taken as the ASCII digits. Rust's `regex` also accepts other Unicode decimal digits, and `str::parse` would then reject them as `InvalidDigit`. The model does not produce that error.
- A general regular-expression engine is left out. Each of the four patterns is written as its own leftmost, greedy matcher, and a lemma ties each matcher to the pattern's shape.
- The theorems about whole runs (ReconcilerLemmas.ReconcileRows, ReconcilerLemmas.ReconcileEvents, ReconcilerLemmas.SecondPassQuiet) assume the scanned ids are distinct. A page that repeats an id is covered only by Reconciler.Visit, Reconciler.Reconcile and ReconcilerLemmas.NewItemTwiceIsDuplicate.

Behaviour of the code that a reader might not expect:

- Exterior grades are parsed from their long names (`Factory New`, …, src/models.rs:51-60), not from the codes `FN`, `MW`, … that the `InvalidExterior` message mentions (src/parsers.rs:30).
- The matchers are not anchored. A line holding the sold tag anywhere is a sold line, but only when it has no ` | `, because the sold matcher runs only on one-part lines (src/parsers.rs:99-102).
- A block whose name line is accepted but whose price line the price matcher rejects panics through `unwrap` (src/parsers.rs:154) and ends the whole run before the table is touched. It does not drop only that block.
- The line after the name line is consumed without being looked at (src/parsers.rs:58). So a block missing its blank line takes the next line as its price line. ScannerLemmas.MissingBlankLinePanics shows a page where that is the next block's `★` and the run panics.
- Every stored row seen again with a detail item is overwritten whole with the scanned item (`treat_none_as_null`, src/models.rs:9; src/main.rs:108-110), including name, kind, exterior and the StatTrak flag, whether or not its price changed. Only a price change is notified.
