# OCR evaluation engine, modelled in Dafny

This project models the evaluation engine of an OCR comparison tool. The
engine reads two trees for each page:

- a **reference** tree (ABBYY XML): PAGE > (P | TABLE > T_ROW > P) > LINE > WORD > CHAR;
- a **candidate** tree (Tesseract hOCR): `ocr_page` > ... > `ocrx_word`.

It normalises every box to a 0-1000 space. It then pairs each reference word
with the overlapping candidate word of highest intersection-over-union (IOU),
and tallies a per-page report: word count, average IOU, average character
error rate, and the number of words at or below the IOU threshold (0.3).

Modules, one per part of the program:

| file | module | what it covers |
|---|---|---|
| `utils.dfy` | `Utils` | `THRESHOLD`, `AbbyType`, the error kinds, `Result`, and `MapAll` (a loop that stops at the first exception) |
| `geometry.dfy` | `Geometry` | `get_bounds` normalisation, `Map.overlap`, `Map.get_IOU` |
| `tess.dfy` | `TessTree` | the `Tess` node (a value: it is built once and only read), `get_bounds`, `get_words` |
| `abby.dfy` | `AbbyTree` | the `Abby` node as a class whose fields `pass_page_dim`, `process` and `add_child` update in place, plus the value `Node` of a subtree |
| `map.dfy` | `Map` | `filter_word`, `pair_words`, `get_page_info`, `compare` |
| `tess_parser.dfy` | `TessParser` | `TessParser.parse_page` and its `helper`, `parse_pages` |
| `abby_parser.dfy` | `AbbyParser` | `parse_text_block` (the line, word and character state machine), `parse_table`, `parse_page`, `parse_pages` |

Each loop of the source is a method with loop invariants. Each method is
proved against a function that states the same computation on values. The
properties the program relies on are lemmas about those functions.

Each `Abby` object keeps a ghost `model: Node`, the value of its subtree.
`Valid()` ties the fields to `model` and gives the children disjoint
footprints (`Repr`). The scoring engine only reads trees, so it works on
these values.

The code is followed wherever the documented behaviour of the tool differs
from it:

- A reference word that overlaps no candidate is not a key of `pair_words`,
  so it is counted nowhere. It does not go into the below-threshold count
  (`Map.PairWordsCovers`).
- A page whose word count or considered count is zero raises a division by
  zero. That exception aborts the whole `compare` run; no per-page "undefined"
  value is produced (`Map.PageInfoFailures`, `Map.CompareFirstFailure`).
- A reference word is paired once for every candidate block that overlaps its
  own block, so it can be counted several times (`Map.PageJobsExactly`).
- The "+1" pixel convention of `get_IOU` is applied to normalised real
  coordinates. Two boxes less than one unit apart therefore get a positive
  IOU even though they do not overlap (`Geometry.NearMissPositiveIou`).
  Pairing filters candidates by `overlap` first, so such a pair is never
  scored.

## Model

| member | source | states |
|---|---|---|
| `Geometry.Normalize` | Evaluation/classes.py:29-36 | each normalised coordinate, multiplied by the page side, equals 1000 times the raw coordinate |
| `Geometry.ScaleMonotone` | Evaluation/classes.py:29-36 | normalisation keeps the order of two coordinates, in both directions |
| `Geometry.NormalizeWellFormed` | Evaluation/classes.py:29-36 | a normalised box is well formed (min <= max on both axes) exactly when the raw box is |
| `Geometry.NormalizeInPage` | Evaluation/classes.py:29-36 | a box inside the page lands inside [0, 1000] x [0, 1000]; the whole page becomes (0, 0, 1000, 1000) |
| `Geometry.OverlapSymmetric` | Evaluation/classes.py:257-271 | overlap does not depend on the order of the two boxes |
| `Geometry.OverlapIffCommonPoint` | Evaluation/classes.py:257-271 | two well-formed boxes overlap exactly when they share a point, edges included |
| `Geometry.EdgeSharingOverlap` | Evaluation/classes.py:232-271 | boxes that only touch, along a vertical or a horizontal edge, overlap and have a positive IOU |
| `Geometry.GetIOU` | Evaluation/classes.py:232-254 | the only failure is a division by zero; for well-formed boxes the IOU exists and lies in [0, 1] |
| `Geometry.AreaAtLeastOne` | Evaluation/classes.py:245-246 | with the "+1" convention a well-formed box has area at least 1 |
| `Geometry.InterAreaBounded` | Evaluation/classes.py:241-246 | the intersection area is non-negative and at most the area of each box |
| `Geometry.IouInUnitRange` | Evaluation/classes.py:241-251 | for well-formed boxes the union area is at least 1 and the ratio lies in [0, 1] |
| `Geometry.IouSymmetric` | Evaluation/classes.py:232-254 | IOU(a, b) = IOU(b, a) |
| `Geometry.IouSelf` | Evaluation/classes.py:232-254 | a well-formed box has IOU exactly 1 with itself |
| `Geometry.OverlapPositiveIou` | Evaluation/classes.py:232-271 | overlapping well-formed boxes have intersection area at least 1, so a positive IOU |
| `Geometry.SeparatedZeroIou` | Evaluation/classes.py:232-271 | boxes at least one unit apart on an axis do not overlap and have IOU 0 |
| `Geometry.NearMissPositiveIou` | Evaluation/classes.py:241-251 | two boxes half a unit apart do not overlap, yet their IOU is positive |
| `Geometry.ShiftedWordIou` | Evaluation/classes.py:232-254 | a word box shifted right by 5 units overlaps the original with IOU 48/53, above THRESHOLD |
| `TessTree.BoundsFromAttrs` | Evaluation/classes.py:24-27 | the node's bounds are the first bbox of its title; a title without a bbox raises IndexError, and only then |
| `TessTree.PageDims` | Evaluation/classes.py:11 | the page size is the far corner (x1, y1) of the page's first bbox; there is none without a bbox or with a zero side |
| `TessTree.MakeTess` | Evaluation/classes.py:9-19 | construction succeeds exactly when the page size and the own bbox can be read; the node then has the element's class, text and first bbox, the page size, and no children |
| `TessTree.Bounds` | Evaluation/classes.py:29-36 | the normalised box is well formed exactly when the raw bbox is, and its corners are the raw corners scaled by the page size |
| `TessTree.WordsExactly` | Evaluation/classes.py:38-50 | a node is collected exactly when it is an `ocrx_word` reachable from the root without passing through another word |
| `TessTree.WordIsLeaf` | Evaluation/classes.py:43-45 | a word node yields itself only; nothing below it is visited |
| `TessTree.CollectWords` | Evaluation/classes.py:43-48 | the recursive helper appends the subtree's words, in depth-first left-to-right order, to the list built so far |
| `TessTree.GetWords` | Evaluation/classes.py:38-50 | the result is that depth-first word list, so it holds exactly the reachable word nodes |
| `AbbyTree.Initial` | Evaluation/classes.py:55-85 | a CHAR or P has bounds exactly when l, t, r and b are all readable integers; only a CHAR reads its text; a PAGE reads its page number and size; no node starts with children |
| `AbbyTree.Bounds` | Evaluation/classes.py:117-124 | the normalised box is well formed exactly when l <= r and t <= b, and its corners are the raw ones scaled by the page size |
| `AbbyTree.PassPageDimReachesAll` | Evaluation/classes.py:87-94 | after `pass_page_dim` every node of the subtree carries the page size, and nothing else changed |
| `AbbyTree.HullIsTight` | Evaluation/classes.py:101-109 | the running min/max covers the seed and every child, and each side comes from the seed or from some child |
| `AbbyTree.KeepsOwnBounds` | Evaluation/classes.py:101-109 | `process` leaves the bounds of a node that has its own unchanged |
| `AbbyTree.BoundlessTakesUnion` | Evaluation/classes.py:101-109 | a boundless node ends with the union of its processed children, seeded with (page_width, page_height, 0, 0): it covers the seed and every child, and each of its four sides comes from the seed or from some child |
| `AbbyTree.ChildlessBoundlessIsInverted` | Evaluation/classes.py:101-102 | a childless boundless node, such as an empty WORD, ends with l = page_width > r = 0, an ill-formed box |
| `AbbyTree.WordTextFromChildren` | Evaluation/classes.py:111-112 | a processed WORD's text is its children's texts, concatenated in order |
| `AbbyTree.KeepsTextOfNonWord` | Evaluation/classes.py:111-112 | `process` changes no text except that of a WORD |
| `AbbyTree.KeepsShape` | Evaluation/classes.py:96-112 | `process` keeps each node's kind, bounds flag, page size and number of children |
| `AbbyTree.ProcessedIdempotent` | Evaluation/classes.py:96-112 | processing a processed tree changes nothing |
| `AbbyTree.WordsExactly` | Evaluation/classes.py:126-138 | a node is collected exactly when it is a WORD reachable from the root without passing through another WORD |
| `AbbyTree.WordIsLeaf` | Evaluation/classes.py:131-133 | a WORD yields itself only; its CHAR children are never listed |
| `AbbyTree.CollectWords` | Evaluation/classes.py:131-136 | the recursive helper appends the subtree's WORDs, depth-first and left to right, to the list built so far |
| `AbbyTree.GetWords` | Evaluation/classes.py:126-138 | the result is that word list, so it holds exactly the reachable WORDs |
| `AbbyTree.Abby.constructor` | Evaluation/classes.py:55-85 | a new valid object whose value is the node that `parse_attrs` reads from its attributes |
| `AbbyTree.Abby.AddChild` | Evaluation/classes.py:114-115 | the subtree becomes the last child, and the footprint grows by the child's footprint |
| `AbbyTree.Abby.PassPageDim` | Evaluation/classes.py:87-94 | updates the objects in place so that the subtree's value becomes the value with the page size on every node |
| `AbbyTree.Abby.PassPageDimToChildren` | Evaluation/classes.py:93-94 | after the loop, every child's subtree carries the page size |
| `AbbyTree.Abby.PassPageDimToChild` | Evaluation/classes.py:94 | the call on child i sizes that subtree and leaves the other children unchanged |
| `AbbyTree.Abby.Process` | Evaluation/classes.py:96-112 | updates the objects in place so that the subtree's value becomes its processed value, whose properties are the lemmas above |
| `AbbyTree.Abby.ProcessChildren` | Evaluation/classes.py:103-109 | after the loop every child is processed; the box is the seed when the node has bounds, otherwise the union over the processed children |
| `AbbyTree.Abby.ProcessChild` | Evaluation/classes.py:104 | the call on child i processes that subtree and leaves the other children unchanged |
| `AbbyTree.Abby.SetOwn` | Evaluation/classes.py:105-112 | stores the widened box and the text, leaving the children unchanged |
| `AbbyTree.Abby.ChildrenText` | Evaluation/classes.py:112 | the join yields the children's texts concatenated in order |
| `Map.BestFailsIff` | Evaluation/classes.py:222-227 | the running maximum fails exactly when the IOU of some candidate cannot be computed |
| `Map.BestIsFirstMax` | Evaluation/classes.py:219-228 | the kept IOU is non-negative and no candidate exceeds it; it belongs to the first candidate that reaches it; with no positive IOU the choice stays on candidate 0 with 0.0 |
| `Map.FilterPicksBest` | Evaluation/classes.py:213-228 | `filter_word` returns a candidate of the list whose IOU no candidate exceeds; with no positive IOU it returns the first candidate and 0.0 |
| `Map.FilterWellFormed` | Evaluation/classes.py:213-228 | on a non-empty list of well-formed boxes `filter_word` succeeds with an IOU in [0, 1] |
| `Map.FilterWord` | Evaluation/classes.py:213-228 | the loop with its running maximum returns the result of `filter_word`, or IndexError on an empty list |
| `Map.CandidatesExactly` | Evaluation/classes.py:200-203 | a word's candidates are exactly the candidate words that overlap it |
| `Map.CandidatesNonEmpty` | Evaluation/classes.py:200-203 | a reference word gets a dictionary entry exactly when some candidate overlaps it |
| `Map.PendingEntries` | Evaluation/classes.py:198-203 | each dictionary entry holds a reference word with its own non-empty list of overlapping candidates |
| `Map.PendingSorted` | Evaluation/classes.py:198-203 | dictionary entries are in the order of the reference words, each word at most once |
| `Map.PendingCovers` | Evaluation/classes.py:198-203 | a reference word has an entry exactly when one of the candidates overlaps it |
| `Map.ChooseShape` | Evaluation/classes.py:205-208 | `single_paired` has one pairing per entry, in order, each the `filter_word` result of its entry |
| `Map.PairWordsKeys` | Evaluation/classes.py:197-210 | `pair_words` lists each reference word at most once, in input order, under its own position |
| `Map.PairWordsCovers` | Evaluation/classes.py:197-210 | a reference word is listed exactly when some candidate overlaps it; words overlapping nothing are absent |
| `Map.PairWordsChoice` | Evaluation/classes.py:197-210 | each chosen word is a candidate overlapping the reference word, and no overlapping candidate has a larger IOU |
| `Map.SharedCandidate` | Evaluation/classes.py:197-210 | one candidate can be chosen for several reference words: a lone candidate overlapping them all is chosen for each |
| `Map.PairWordsWellFormed` | Evaluation/classes.py:197-210 | on well-formed boxes `pair_words` never fails, and every IOU lies in [0, 1] |
| `Map.OverlappingWords` | Evaluation/classes.py:201-203 | the inner loop collects the overlapping candidates in order |
| `Map.AddEntry` | Evaluation/classes.py:200-203 | one iteration of the outer loop adds the word's entry when it has candidates, and nothing otherwise |
| `Map.CollectPending` | Evaluation/classes.py:198-203 | the first loop builds the dictionary of candidates |
| `Map.ChooseAll` | Evaluation/classes.py:205-208 | the second loop runs `filter_word` on each entry; the first failure aborts |
| `Map.PairWords` | Evaluation/classes.py:197-210 | both loops together return the result of `pair_words` |
| `Map.ChildJobs` | Evaluation/classes.py:161-164 | there is one `pair_words` call for each candidate block that overlaps the reference block |
| `Map.ChildJobsExactly` | Evaluation/classes.py:159-164 | the calls for a reference block pair its words with the words of each overlapping candidate block |
| `Map.PageJobsExactly` | Evaluation/classes.py:159-164 | a page's calls are those of its reference blocks, so a word is paired once per candidate block overlapping its block |
| `Map.TallyCounts` | Evaluation/classes.py:167-190 | every pairing is counted once, as considered (IOU above THRESHOLD) or as below; the IOU total is the sum of all IOUs; the error total is the sum of `ed(candidate, reference) / len(reference)` over the considered pairings, and is non-negative |
| `Map.TallyFailure` | Evaluation/classes.py:172-181 | tallying fails, by a division by zero, exactly when a considered pairing has an empty reference text |
| `Map.TallyFailurePrefix` | Evaluation/classes.py:172-181 | a pairing that fails to tally decides the result whatever follows |
| `Map.SumIouBounded` | Evaluation/classes.py:178 | with every IOU in [0, 1] the IOU total lies between 0 and the number of pairings |
| `Map.PageInfoReport` | Evaluation/classes.py:153-194 | a report counts all pairings (at least one, and at least one above THRESHOLD), gives the below-threshold count, the mean IOU over all pairings, and the mean error rate: the sum of the considered pairings' error rates divided by their number, non-negative |
| `Map.PageInfoFailures` | Evaluation/classes.py:153-194 | a non-PAGE node fails the assertion; a page with no pairing above THRESHOLD fails with a division by zero |
| `Map.PageAverageIouInRange` | Evaluation/classes.py:153-194 | on well-formed word boxes the pairing never fails and the mean IOU lies in [0, 1]; a page holding an empty WORD, whose box is inverted, is outside this hypothesis |
| `Map.OverlappingBlocks` | Evaluation/classes.py:161 | the filter keeps exactly the overlapping candidate blocks, in order |
| `Map.PairChild` | Evaluation/classes.py:160-164 | one iteration of the first loop yields the `pair_words` results for the reference block, one per overlapping block |
| `Map.PairPage` | Evaluation/classes.py:157-164 | the first loop yields `all_paired`; the first failing `pair_words` aborts |
| `Map.TallyBlock` | Evaluation/classes.py:173-190 | the inner loop adds the pairings of one block to the running totals, in order, or fails like tallying them does |
| `Map.PairingFailure` | Evaluation/classes.py:173-181 | a pairing that fails to count makes its block's loop fail the same way |
| `Map.TallyPairs` | Evaluation/classes.py:167-190 | the nested second loop computes the totals over all pairings in order |
| `Map.BlockFailure` | Evaluation/classes.py:172-181 | a block that fails to count makes the whole nested loop fail the same way |
| `Map.GetPageInfo` | Evaluation/classes.py:153-194 | returns the page report, or the exception `get_page_info` raises |
| `Map.Zip` | Evaluation/classes.py:148 | pair i is page i of each document, up to the shorter document |
| `Map.CompareReports` | Evaluation/classes.py:146-151 | `compare` yields one report per pair of pages, each that of `get_page_info` |
| `Map.CompareFirstFailure` | Evaluation/classes.py:146-151 | a failing `compare` fails with the error of the first failing page, all earlier pages succeeding |
| `Map.CompareIgnoresExtraPages` | Evaluation/classes.py:146-151 | pages beyond the shorter document do not affect `compare` |
| `Map.Compare` | Evaluation/classes.py:146-151 | the loop over paired pages returns the result of `compare` |
| `TessParser.AttrsOf` | Evaluation/parsers.py:39-51 | `get_attrs` fails with the missing-attribute error exactly when the element lacks its `title`, `class` or `id`; otherwise it yields the class, the bbox entries of the title and the text |
| `TessParser.HelperChildrenShape` | Evaluation/parsers.py:31-33 | the children loop yields one node per sub-element, each the `helper` result for it |
| `TessParser.HelperChildrenFails` | Evaluation/parsers.py:31-33 | the children loop fails exactly when `helper` fails on one of the sub-elements |
| `TessParser.HelperSucceedsIff` | Evaluation/parsers.py:22-35 | `helper` succeeds exactly when the page size is usable and every element it visits has its `title`, `class` and `id` and a bbox; an element missing one of the three raises the missing-attribute error |
| `TessParser.HelperMirrors` | Evaluation/parsers.py:22-35 | a parsed tree mirrors the element tree: a word is a leaf carrying its first sub-element's text, other nodes have one child per sub-element in order, every node has its element's class and first bbox, and all share the page size |
| `TessParser.PageMirrors` | Evaluation/parsers.py:18-36 | a parsed page comes from an `ocr_page` element and mirrors it on the size of its own first bbox |
| `TessParser.PageFails` | Evaluation/parsers.py:18-36 | parsing a page fails exactly on a non-page element, a visited element missing its `title`, `class`, `id` or a bbox, or an unusable page size; a missing class or a page missing its attributes raises the missing-attribute error, another class fails the assertion |
| `TessParser.ParseNode` | Evaluation/parsers.py:22-35 | the recursive `helper`, with its loop over the sub-elements, returns the tree described above |
| `TessParser.ParsePage` | Evaluation/parsers.py:18-36 | asserts the page class, reads the page's attributes for its bboxes, then runs `helper` with them; returns the result of `parse_page` |
| `TessParser.ParsePages` | Evaluation/parsers.py:15-16 | every page is parsed in order; the first failure aborts |
| `AbbyParser.CharOf` | Evaluation/parsers.py:134-137 | a span becomes a CHAR carrying the element's text, with no children |
| `AbbyParser.Step` | Evaluation/parsers.py:126-140 | one element fails, with the "cannot parse" error, exactly when it is neither a line break, a separator nor a span |
| `AbbyParser.ScanFailsIff` | Evaluation/parsers.py:124-140 | the loop fails exactly when some element is of unknown kind |
| `AbbyParser.ScanFailureSticks` | Evaluation/parsers.py:124-140 | once the loop has failed, later elements do not change the outcome |
| `AbbyParser.ScanCounts` | Evaluation/parsers.py:124-133 | there is exactly one closed line per line break, and one closed word per separator or line break |
| `AbbyParser.BreakKeepsChars` | Evaluation/parsers.py:126-130 | a line break moves the open word into the line and the line into the block without changing the characters held |
| `AbbyParser.SeparatorKeepsChars` | Evaluation/parsers.py:131-133 | a separator moves the open word into the line without changing the characters held |
| `AbbyParser.StepKeepsChars` | Evaluation/parsers.py:126-138 | one element adds its character, if it is a span, at the end of the builder's characters |
| `AbbyParser.ScanKeepsChars` | Evaluation/parsers.py:124-138 | no character is lost, duplicated or reordered while the block is read |
| `AbbyParser.ScanLayered` | Evaluation/parsers.py:124-138 | lines are LINEs of WORDs of CHARs |
| `AbbyParser.TrailingDropped` | Evaluation/parsers.py:124-142 | elements after the last line break never reach the block's lines |
| `AbbyParser.ConsecutiveSeparators` | Evaluation/parsers.py:131-133 | two separators in a row close the open word and then an empty WORD |
| `AbbyParser.TextBlockChars` | Evaluation/parsers.py:115-142 | a parsed block is a P with one LINE per line break; its characters are a prefix of the spans' characters, and all of them when the block ends with a line break |
| `AbbyParser.TextBlockFails` | Evaluation/parsers.py:117-140 | a block fails exactly on a `p` that is not of type Text, a tag other than `p` or `td`, or an unknown element; a `p` without a blocktype raises a missing-attribute error |
| `AbbyParser.RowShape` | Evaluation/parsers.py:106-110 | a row holds one text block per child element, in order |
| `AbbyParser.TableShape` | Evaluation/parsers.py:102-112 | a table holds one row per row element of its first child, in order |
| `AbbyParser.TableFails` | Evaluation/parsers.py:102-112 | a table fails exactly when it has no child or one of its text blocks fails |
| `AbbyParser.KeptExactly` | Evaluation/parsers.py:91-95 | the page reads exactly its `p` and `table` children |
| `AbbyParser.KeptIdempotent` | Evaluation/parsers.py:91-95 | selecting the page's children a second time changes nothing |
| `AbbyParser.PageChildKind` | Evaluation/parsers.py:92-95 | a `p` child yields a P block and a `table` child a TABLE |
| `AbbyParser.ProcessedKeepsDims` | Evaluation/parsers.py:97-98 | processing keeps the page size on every node |
| `AbbyParser.FinishKeepsKinds` | Evaluation/parsers.py:97-98 | sizing and processing work block by block, each block sized and processed on its own, and keep the kinds of the page and of its blocks |
| `AbbyParser.FinishSetsDims` | Evaluation/parsers.py:97-98 | after sizing and processing every node carries the page size |
| `AbbyParser.PageShape` | Evaluation/parsers.py:85-99 | a parsed page holds one block per `p` or `table` child, in order and of the matching kind, block k being the parse of kept child k with the page's size passed down and processed; every node carries the page's size |
| `AbbyParser.PageFails` | Evaluation/parsers.py:85-99 | a page fails exactly on a wrong tag, an unreadable page number or size, or a failing block; a wrong tag fails the assertion, an unreadable attribute raises the missing-attribute error |
| `AbbyParser.PageIgnoresOtherChildren` | Evaluation/parsers.py:91-95 | children other than `p` and `table` do not change the parsed page |
| `AbbyParser.BreakLine` | Evaluation/parsers.py:126-130 | on a line break the objects hold the builder with the word closed into the line and the line closed into the block, from fresh objects |
| `AbbyParser.EndWord` | Evaluation/parsers.py:131-133 | on a separator the objects hold the builder with the word closed into the line |
| `AbbyParser.AddChar` | Evaluation/parsers.py:134-138 | on a span the objects hold the builder with a new CHAR at the end of the word |
| `AbbyParser.StartBlock` | Evaluation/parsers.py:119-123 | the block, an empty line and an empty word, all fresh, hold the initial builder |
| `AbbyParser.Advance` | Evaluation/parsers.py:125-138 | one loop iteration on the objects takes the step the state machine takes on the builder |
| `AbbyParser.ParseTextBlock` | Evaluation/parsers.py:115-142 | fails exactly when the block fails to parse, with the same error; otherwise returns fresh, valid objects whose value is the parsed block |
| `AbbyParser.ParseRow` | Evaluation/parsers.py:107-110 | builds a valid T_ROW whose value is the parsed row, or fails like it |
| `AbbyParser.ParseTable` | Evaluation/parsers.py:102-112 | builds a valid TABLE whose value is the parsed table, or fails like it |
| `AbbyParser.AddBlock` | Evaluation/parsers.py:92-95 | a `p` or `table` child is parsed and becomes the page's last block, or its error is returned |
| `AbbyParser.KeptMapStep` | Evaluation/parsers.py:91-95 | a child that is not `p` or `table` changes nothing; a kept child adds its result or fails |
| `AbbyParser.KeptMapFailureSticks` | Evaluation/parsers.py:91-95 | once a kept child has failed, later children do not change the outcome |
| `AbbyParser.BlockStep` | Evaluation/parsers.py:91-95 | one iteration parses and adds child i when it is a `p` or a `table`, and otherwise changes nothing; a failure is that of all the children |
| `AbbyParser.ParseBlocks` | Evaluation/parsers.py:90-95 | the loop gives the page its blocks in order, or fails with the first failing block's error |
| `AbbyParser.ParsePage` | Evaluation/parsers.py:85-99 | builds the page's objects, sizes and processes them in place, and ends with the parsed page as its value, or fails like it |
| `AbbyParser.ParsePages` | Evaluation/parsers.py:81-82 | parses every page in order into valid objects, or fails with the first failing page's error |

## Left out

- Console output is not modelled: the `print` calls of `get_page_info` and both `pretty_print` methods. `get_page_info` returns its figures as a `PageReport` value instead.
- File loading and the XML libraries are not modelled. Parser inputs are element trees: for ABBYY, tag name, text, readable attributes, `blocktype` and children; for hOCR, the class, the bbox entries of the title, whether an `id` is present, the text and the sub-elements. The regular expressions of `TessParser.get_attrs` are not modelled.
- The values of the `id`, `page_num` and `confidence` attributes of `Tess` and the ABBYY page number are not kept, since nothing in the engine uses them. Reading them is modelled: a missing `title`, `class` or `id`, and a page number that is missing or not an integer, each fail with `BadAttribute`. The `TessType` enumeration is unused and is also left out.
- `editdistance.eval` is a foreign library. It is the parameter `ed`, an arbitrary function returning a natural number.
- Coordinates and IOU are exact reals, not floating-point numbers.
- Reference words are keyed by their position in the word list instead of by object identity.
- `raise` with a string is the error `CannotParse`.
- Absent attributes (a KeyError) and non-integer attributes (a ValueError) are merged into one error, `BadAttribute`.
- An element text of `None` is the empty string.
- Page sizes must be positive integers (`Dim`), so a page with a zero side is refused when it is parsed: the hOCR page fails in `TessTree.PageDims` with `ZeroDivision`, the ABBYY page with `BadAttribute`. The source parses such a page without error, since parsing never divides. It raises ZeroDivisionError only if `compare` scores the page: in `get_bounds` when a box is normalised, or in the averages of `get_page_info` when nothing is paired. `compare` scores only the pages up to the end of the shorter document, so a zero-sized page beyond it is never scored; for such a document the model's `parse_pages` fails where the source processes it completely.
- AbbyParser.PageFails: a page whose width or height is zero or negative fails with `BadAttribute` in the model. The source parses such a page without error. With a negative size its boxes scale to negative coordinates and the page can be scored; a zero size is described on the line above. An hOCR size cannot be negative, since the bbox pattern matches digits only.
- The model gives zeros, an empty text and the placeholder size 1 x 1 to fields the source never sets on a node. A PAGE sets its size at once; every other node receives it from `pass_page_dim` before it is read.
- `AbbyParser.ParsePages` does not state that the returned objects have disjoint footprints from one another.
- `Map.PairWords` adds an entry to `paired` once the word's candidates are all known, not at the first append. The dictionary's contents and order are the same.
- The scoring engine works on value snapshots of the `Abby` objects and does not follow object aliasing.
