# geojson-cli-difference in Dafny

A model of the core of `geojson-cli-difference`, the command-line tool that
subtracts the polygons of one or more GeoJSON files from a GeoJSON document
read on stdin. Everything modelled lives in `src/index.js`:

- `bboxOverlap`: the antimeridian-aware box overlap test (module `Bbox`).
- `bboxRegex` / `numRegex` and `isBboxPresentWithOverlap`: finding a
  `[xmin,ymin,xmax,ymax]` literal in a filename and reading it (module
  `BboxPattern`). The regular expression is modelled as a matcher that
  backtracks in the order the JavaScript engine does. It is proved to find
  the leftmost start at which the pattern's meaning (stated separately as
  predicates) matches, and there the match whose number ends are
  lexicographically greatest, which is what greedy quantifiers tried
  longest first give. `JSON.parse` on the matched text is modelled for
  arrays of numbers.
- `subtractGeojsons` with its helper `checkSimpleType`: the recursive
  difference walk. Module `Difference` holds it as specification functions
  with their properties. Module `DifferenceWalk` holds it as the source runs
  it: methods with the `some` loop and the member-by-member rebuilding of
  collections, each proved equal to the specification.
- `DifferenceTransform.operate` and `GeojsonNullTransform`: the pre-filter,
  the driver's file loop and the chunk buffer (module `Transforms`).

A GeoJSON node is the tagged union `GeoJson.Node`. The walk's behaviour is
decided by whichever of `coordinates` (a truthy value), `geometry`,
`geometries` or `features` a node has, so the node is one of:

- a `Geometry`, which has coordinates; a missing `type` is the kind `"undefined"`;
- a `Feature`, whose geometry may be null;
- a `GeometryCollection`;
- a `FeatureCollection`;
- `Opaque`, which has none of these fields.

The geometry library is the parameter `Difference.Turf`:

- `difference` is `turfDifference` followed by taking `.geometry`, with null as `None`.
- `rewind` is `turfRewind` applied to that geometry. The source (src/index.js:136) rewinds the Feature that `turfDifference` returns and takes `.geometry` afterwards. The model assumes that `turfRewind(F).geometry` equals `turfRewind` applied to `F.geometry`.

Reading and parsing a file is the parameter `load`, and `turfBbox` is the parameter `bboxOf`.

Warnings from `this.warn` are returned, in order, as a sequence of strings
next to each result.

Notes on the source:

- `turfRewind` (src/index.js:136) normalises the winding of each non-null difference. The model keeps `rewind` uninterpreted and proves that it is applied exactly once per non-null difference (`Difference.SubtractOnePolygon`).
- The constructor (src/index.js:98-107) reads the options `filesToSubtract` and `respectBboxesInFilenames`, and the model has those two fields. test/test.js:83 passes `subtractFiles`, which the constructor ignores, so `filesToSubtract` is undefined there and `operate` throws (see the `Transforms.DifferenceTransform.Operate` line under "## Left out"). src/cli.js:30-33 never sets `respectBboxesInFilenames`.

## Model

| member | source | states |
|---|---|---|
| Bbox.BboxOverlap | src/index.js:34-46 | after a crossing box has 360 subtracted from its west edge, the boxes overlap iff neither lies strictly east or north of the other |
| Bbox.BboxOverlapSymmetric | src/index.js:40-45 | the overlap test gives the same answer with its arguments swapped |
| Bbox.BboxOverlapReflexive | src/index.js:40-45 | a box whose south edge is not north of its north edge overlaps itself; a crossing box needs its edges to be longitudes in [-180, 180] |
| Bbox.OverlapOnSphere | src/index.js:38-41 | corrected overlap; it agrees with `bboxOverlap` whenever neither box crosses the antimeridian |
| Bbox.OverlapOnSphereIffCommonPoint | src/index.js:38-45 | the corrected test holds iff some point of the globe lies in both boxes (section 5.2 of RFC 7946 semantics) |
| Bbox.BboxOverlapSound | src/index.js:34-46 | for well-formed boxes an overlap reported by `bboxOverlap` is real |
| Bbox.BboxOverlapMissesEastOfAntimeridian | src/index.js:40-44 | boxes sharing the point (176, 3) for which `bboxOverlap` returns false |
| BboxPattern.DigitRun | src/index.js:29 | the length of the maximal run of digits at a position |
| BboxPattern.StarEnds | src/index.js:29 | the ends `[0-9]*` can reach from a position all lie between that position and the end of the string; `StarEndsLongestFirst` gives their order, `StarEndsDigits` and `StarEndsComplete` their meaning |
| BboxPattern.DotStarEnds | src/index.js:29 | the ends `.?[0-9]*` can reach all lie at or after the position; `DotStarEndsLargerFirst` gives their order, `DotStarEndsShape`, `DotStarEndsHasDigits` and `DotStarEndsHasDot` their meaning |
| BboxPattern.PlusPieces | src/index.js:29 | one list of continuations per length of `[0-9]+`, longest run first: the k-th list is the ends of `.?[0-9]*` after a run k digits shorter than the given one |
| BboxPattern.PlusEnds | src/index.js:29 | the ends `[0-9]+.?[0-9]*` can reach lie past the first digit; `PlusEndsSound` and `PlusEndsContains` give their meaning |
| BboxPattern.NumEnds | src/index.js:29 | the ends `num` can reach lie past its start; `NumEndsSound` and `NumEndsComplete` show they are exactly the ends of a `num` |
| BboxPattern.Groups | src/index.js:29-32 | the backtracking search for `num(,num){n-1}]` returns n increasing number ends inside the string |
| BboxPattern.MatchAt | src/index.js:30-32 | a match starting at a position has four increasing number ends after its `[`, each at least two past the one before, the last inside the string |
| BboxPattern.TryEnds | src/index.js:30-32 | trying the ends of a number in order yields n spaced ends inside the string, the first past the number's start |
| BboxPattern.After | src/index.js:30-32 | the rest of the pattern after a number that ends at e yields n spaced ends starting with e |
| BboxPattern.ExecFrom | src/index.js:178 | a match found by the scan starts at or after the scan's start, and its ends are the matcher's ends at that position |
| BboxPattern.Exec | src/index.js:30-32 | `bboxRegex.exec` returns a start holding `[` and four ends, each number non-empty, the last inside the string |
| BboxPattern.DigitRunMaximal | src/index.js:29 | every run of digits from a position is no longer than the greedy run |
| BboxPattern.StarEndsComplete | src/index.js:29 | every digit run `[0-9]*` can end is tried |
| BboxPattern.StarEndsDigits | src/index.js:29 | every end tried for `[0-9]*` closes a stretch of digits |
| BboxPattern.DotStarEndsShape | src/index.js:29 | every end tried for `.?[0-9]*` closes digits, or one character the dot accepts followed by digits |
| BboxPattern.DotStarEndsHasDigits | src/index.js:29 | `.?[0-9]*` tries every end reached by digits alone |
| BboxPattern.DotStarEndsHasDot | src/index.js:29 | `.?[0-9]*` tries every end reached by an accepted character and digits |
| BboxPattern.PlusEndsSound | src/index.js:29 | every end tried for `[0-9]+.?[0-9]*` closes a text that the pattern matches |
| BboxPattern.PlusEndsContains | src/index.js:29 | every end of `.?[0-9]*` after a digit run of any length up to the greedy one is among the ends tried |
| BboxPattern.NumEndsSound | src/index.js:29 | every end tried for `num` closes a number the pattern matches |
| BboxPattern.UnsignedEndsComplete | src/index.js:29 | every end at which `[0-9]+.?[0-9]*` can close is tried |
| BboxPattern.NumEndsComplete | src/index.js:29 | every end at which a number can close is tried |
| BboxPattern.GroupsSound | src/index.js:30-32 | a found group list is a correct parse of `num,...,num]` |
| BboxPattern.TryEndsSound | src/index.js:30-32 | trying number ends in order yields only correct parses |
| BboxPattern.AfterSound | src/index.js:30-32 | continuing after a number's end yields only correct parses |
| BboxPattern.TryEndsComplete | src/index.js:30-32 | if any tried end leads to a parse, the backtracking search finds one |
| BboxPattern.GroupsComplete | src/index.js:30-32 | if the text from a position has a parse, the search succeeds there |
| BboxPattern.AfterComplete | src/index.js:30-32 | after a number that ends where a parse says, the rest of the pattern is found |
| BboxPattern.MatchAtExact | src/index.js:30-32 | the matcher at a position succeeds iff the pattern matches there, and what it returns is a match |
| BboxPattern.ExecFromExact | src/index.js:178 | the scan from a position returns the first position at which a match starts |
| BboxPattern.ExecFindsLeftmostMatch | src/index.js:178-179 | `exec` returns a match with no match starting earlier, and null iff no match exists anywhere |
| BboxPattern.LexAtMostAntisymmetric | src/index.js:29-32 | two end lists of one length, each lexicographically at most the other, are equal, so the greatest match at a start is unique |
| BboxPattern.StarEndsLongestFirst | src/index.js:29 | greedy `[0-9]*` tries the whole digit run first, then one digit fewer at a time down to the empty run |
| BboxPattern.StarEndsLargerFirst | src/index.js:29 | `[0-9]*` never tries an end before a larger one it has not yet tried |
| BboxPattern.StarEndsHas | src/index.js:29 | every position from the start up to the end of the digit run is an end of `[0-9]*` |
| BboxPattern.LargerFirstAppend | src/index.js:29 | two end lists tried one after the other keep trying larger ends first when every end of the second that beats one of the first was already in the first |
| BboxPattern.DotStarEndsHasRun | src/index.js:29 | `.?[0-9]*` tries every position from its start up to the end of the digit run there |
| BboxPattern.DotStarEndsWithinRun | src/index.js:29 | when a digit stands at the start, `.?[0-9]*` tries no end past the digit run |
| BboxPattern.DotStarEndsLargerFirst | src/index.js:29 | greedy `.?[0-9]*`, taking the optional character first, never tries an end before a larger one it has not yet tried |
| BboxPattern.DigitRunSuffix | src/index.js:29 | the digit run seen from m digits into a run is m shorter |
| BboxPattern.PlusEndsLargerFirst | src/index.js:29 | greedy `[0-9]+.?[0-9]*` never tries an end before a larger one it has not yet tried; below the whole run its ends stay within the run |
| BboxPattern.NumEndsLargerFirst | src/index.js:29 | greedy `num` never tries an end before a larger one it has not yet tried |
| BboxPattern.TryEndsFirst | src/index.js:30-32 | backtracking over a number's ends returns the continuation of the first end, in trying order, after which the rest of the pattern matches |
| BboxPattern.FirstWorkingIsGreatest | src/index.js:30-32 | when a number's ends are tried larger first, the end the search settles on is at least every end after which the rest of the pattern matches |
| BboxPattern.GroupsGreatest | src/index.js:30-32 | from a position, the search returns the lexicographically greatest end list among all parses of `num(,num){n-1}]` there |
| BboxPattern.AfterGreatest | src/index.js:30-32 | after a parse's first number, the search's rest is lexicographically at least the parse's own |
| BboxPattern.MatchAtGreatest | src/index.js:30-32 | at a start where the pattern matches, the matcher returns the match with lexicographically greatest number ends |
| BboxPattern.ExecPicksGreatestEnds | src/index.js:178 | `exec` returns, at the leftmost start, the lexicographically greatest match there |
| BboxPattern.GreedyLiteralMatches | src/index.js:29-32 | `[1,2,3,4]5]` matches at 0 with its last number `4]5` ending at the second `]` |
| BboxPattern.GreedyLiteralGreatest | src/index.js:29-32 | no match at 0 of `[1,2,3,4]5]` has greater ends than that one |
| BboxPattern.GreedyLiteralFound | src/index.js:178 | `exec` on `[1,2,3,4]5]` returns the whole text, not `[1,2,3,4]` |
| BboxPattern.GreedyLiteralPieces | src/index.js:180 | between its brackets `[1,2,3,4]5]` splits into `1`, `2`, `3` and `4]5` |
| BboxPattern.FourBracketFiveIsNoNumber | src/index.js:180 | `4]5` is not a JSON number |
| BboxPattern.GreedyLiteralJson | src/index.js:180 | `JSON.parse` rejects `[1,2,3,4]5]` |
| BboxPattern.GreedyLiteralRejected | src/index.js:178-181 | as written, the filename `[1,2,3,4]5]` holds a literal that `JSON.parse` rejects, so the filter throws |
| BboxPattern.Pow10 | src/index.js:180 | powers of ten used to read decimals are at least 1 |
| BboxPattern.SplitOn | src/index.js:180 | splitting array text at commas yields at least one piece |
| BboxPattern.SplitOnJoinsBack | src/index.js:180 | the pieces joined with the separator give the text back, and no piece holds the separator |
| BboxPattern.SplitOnJoin | src/index.js:180 | splitting pieces joined by the separator gives those pieces back when none of them holds it |
| BboxPattern.SplitOnPlain | src/index.js:180 | a text without the separator is a single piece |
| BboxPattern.SplitOnPiece | src/index.js:180 | a separator-free piece followed by the separator splits off as exactly that piece |
| BboxPattern.TrimJson | src/index.js:180 | trimming leaves no JSON whitespace at either end, removes everything from an all-whitespace text, and never lengthens the text |
| BboxPattern.TrimJsonIgnoresLeading | src/index.js:180 | whitespace before a text does not change what trimming leaves |
| BboxPattern.TrimJsonIgnoresTrailing | src/index.js:180 | whitespace after a text does not change what trimming leaves |
| BboxPattern.TrimJsonIgnoresPadding | src/index.js:180 | whitespace on both sides does not change what trimming leaves |
| BboxPattern.JsonExponent | src/index.js:180 | a number's tail is accepted iff it is empty (exponent 0) or `e`/`E`, an optional sign and one or more digits up to the end |
| BboxPattern.ElementValue | src/index.js:180 | an array element of whitespace only is not a number |
| BboxPattern.ElementValueIgnoresPadding | src/index.js:180 | `JSON.parse` gives an element the same value whatever whitespace surrounds it |
| BboxPattern.ParseEach | src/index.js:180 | for any element reader: the values are each element's reading, in order, and there is no result iff some element cannot be read |
| BboxPattern.JsonNumber | src/index.js:180 | a number `JSON.parse` accepts has an integer part that begins with a digit and has no leading zero |
| BboxPattern.JsonNumberGrammar | src/index.js:180 | `JSON.parse` accepts a number iff it follows the grammar of section 6 of RFC 8259, and its value is sign, integer part, fraction and exponent as that split denotes |
| BboxPattern.JsonNumberAtIsRead | src/index.js:180 | a text split by the number grammar reads as the value of that split |
| BboxPattern.JsonNumberPositions | src/index.js:180 | the reader's integer part and fraction end where the grammar's split says |
| BboxPattern.JsonNumberReads | src/index.js:180 | a grammatical number reads as its integer part, fraction and exponent combined |
| BboxPattern.JsonExponentValue | src/index.js:180 | the exponent reader accepts a grammatical exponent with the power of ten it denotes |
| BboxPattern.DigitRunExact | src/index.js:180 | a run of digits followed by a non-digit or the end is the whole greedy run |
| BboxPattern.JsonNumberIsDecimal | src/index.js:180 | on a number without an exponent, the value `JSON.parse` gives is the decimal value the corrected reader computes |
| BboxPattern.ReadNumbers | src/index.js:180 | the values are, in order, `JSON.parse` of each trimmed element; there is no result iff some element is not a JSON number |
| BboxPattern.ReadNumberArray | src/index.js:180 | a parsed text is bracketed, and a non-empty array's values are those of the comma-separated elements in order; the empty array has only whitespace inside |
| BboxPattern.ReadNumberArrayCount | src/index.js:180 | an array text with two or more pieces parses to one value per piece |
| BboxPattern.MatchedTextSplitsInFour | src/index.js:180-181 | the text of a match, between its brackets, splits at commas into at least four pieces |
| BboxPattern.SplitOnAround | src/index.js:180 | a separator between two texts adds their piece counts |
| BboxPattern.SplitCount | src/index.js:180 | text with k commas splits into at least k+1 pieces |
| BboxPattern.MatchedTextHasFourNumbers | src/index.js:180-181 | when `JSON.parse` accepts a matched literal it yields at least the four numbers that `[xmin, ymin, xmax, ymax]` destructures |
| BboxPattern.ReadMatch | src/index.js:180-181 | a match's text is either rejected by `JSON.parse`, or its first four values are the box |
| BboxPattern.ReadLiteralAsWritten | src/index.js:178-181 | as written, a filename yields no literal iff the pattern matches nowhere |
| BboxPattern.ReadLiteralAsWrittenFindsLeftmost | src/index.js:178-181 | a rejected literal is the text of the leftmost match, with the ends the matcher picks there; a declared box is the first four values `JSON.parse` reads from that text |
| BboxPattern.ReadLiteral | src/index.js:178-181 | corrected, a filename yields no box iff the escaped-dot pattern matches nowhere |
| BboxPattern.ReadLiteralFindsLeftmost | src/index.js:178-181 | the corrected box is the four numbers of a leftmost match of the escaped pattern, each read as a decimal |
| BboxPattern.EscapedMatchIsMatch | src/index.js:29-32 | every match of the pattern with its dot escaped is a match of the pattern as written |
| BboxPattern.NoLiteralEitherWay | src/index.js:178-179 | a filename holding no literal as written holds none for the corrected reader either |
| BboxPattern.AsWrittenRejectsLetterLiteral | src/index.js:29 | `[1a,2,3,4]` is matched because of the unescaped dot, and `JSON.parse` rejects it |
| BboxPattern.CorrectedIgnoresLetterLiteral | src/index.js:29 | with the dot escaped `[1a,2,3,4]` holds no literal |
| BboxPattern.SeparatedCloses | src/index.js:31 | every match closes with `]` at its last number's end |
| Transforms.KeepFileAsWritten | src/index.js:177-182 | as written, a filename without a literal is kept; the call throws iff `JSON.parse` rejects the literal, with its text; a declared box is kept iff `bboxOverlap` accepts it |
| Transforms.KeepFileAsWrittenMeaning | src/index.js:177-182 | the test as written keeps a file iff its name has no literal or declares a box that `bboxOverlap` accepts, and throws iff the literal is rejected, with the literal's text as the error |
| Transforms.TryFilter | src/index.js:187-189 | a `filter` whose callback may throw keeps, when it succeeds, no more entries than it is given |
| Transforms.TryFilterOutcome | src/index.js:187-189 | such a `filter` succeeds iff no entry's callback throws, and then equals the plain filter; otherwise its error is that of the first entry whose callback throws, every earlier entry having passed |
| Transforms.PrefilterAsWritten | src/index.js:185-190 | the pre-filter as written, when it does not throw, keeps no more files than it is given |
| Transforms.PrefilterAsWrittenAborts | src/index.js:177-190 | the pre-filter as written throws iff some filename holds a literal that `JSON.parse` rejects |
| Transforms.PrefilterAsWrittenFirstRejected | src/index.js:177-190 | its error is the first rejected literal in list order |
| Transforms.PrefilterAsWrittenKeeps | src/index.js:177-190 | otherwise it keeps, in order, exactly the listed files whose name has no literal or declares a box that `bboxOverlap` accepts |
| Transforms.NoLiteralsKeptByBoth | src/index.js:177-190 | on filenames without literals the pre-filter as written and the corrected one both keep every file |
| Transforms.KeepFile | src/index.js:177-182 | corrected test: a filename with no literal, for either pattern, is kept; a dropped file holds a match |
| Transforms.LetterLiteralAtThePrefilter | src/index.js:177-182 | the as-written pre-filter throws on `[1a,2,3,4]`, the corrected one keeps the file |
| Transforms.Prefilter | src/index.js:185-190 | the corrected pre-filter keeps no more files than it is given |
| Transforms.Filter | src/index.js:187-189 | `filter` keeps no more entries than it is given |
| Transforms.FilterPicksKeptPositions | src/index.js:187-189 | the filtered list is the subsequence at the passing positions, in increasing order |
| Transforms.KeptPositionsPass | src/index.js:187-189 | a position is kept iff its entry passes the test |
| Transforms.FilterMembers | src/index.js:187-189 | an entry survives `filter` iff it is listed and passes |
| Transforms.KeepFileMeaning | src/index.js:177-182 | the corrected test keeps a filename iff it declares no box or one that meets the minuend's box on the sphere |
| Transforms.PrefilterIsOrderedSelection | src/index.js:187-189 | the filtered list is the subsequence of `filesToSubtract` at exactly the positions whose file passes, in order |
| Transforms.PrefilterKeeps | src/index.js:177-189 | a file is kept iff it is listed and its name declares no box or one that overlaps the minuend's box |
| Difference.IgnoredWarning | src/index.js:114-116 | the warning begins with the name and holds the ignored type at a fixed offset |
| Difference.IgnoredWarningNamesKind | src/index.js:114-116 | two warnings for the same name are equal only for the same type |
| Difference.Subtract | src/index.js:123-174 | only a polygon can become null; a non-polygonal geometry is returned unchanged after exactly one warning; no subtrahends changes nothing; Features and collections keep their kind, collections never grow; a Feature without geometry comes back unchanged with no warning |
| Difference.Step | src/index.js:127-153 | a simple-type subtrahend geometry is skipped after one warning naming its type; a polygon is subtracted without warning and gives null iff the library difference is null; a Feature without geometry, or an object with none of the fields, changes nothing |
| Difference.FeatureKeepsWrapper | src/index.js:157-158 | a Feature's geometry is reduced in place and its properties are kept |
| Difference.Fold | src/index.js:127-153 | with no subtrahends the polygon comes back unchanged and without warnings |
| Difference.Survive | src/index.js:161-171 | survivors are at most the members, and all of them when nothing is subtracted |
| Difference.FoldAppend | src/index.js:127-153 | subtrahends are applied in list order, each to the already-reduced minuend, and nothing after an annihilation counts |
| Difference.AnnihilationStops | src/index.js:152 | once the minuend is null, later subtrahends change nothing |
| Difference.NonPolygonalSubtrahendSkipped | src/index.js:128-131 | a non-polygonal subtrahend leaves the minuend as it was and adds one warning |
| Difference.SubtractOnePolygon | src/index.js:132-137 | a polygon minus a polygon is the library difference, rewound once when non-null and never when null |
| Difference.FoldOfPolygonsIsChain | src/index.js:127-153 | with only polygon subtrahends the walk is the chain difference-then-rewind, stopping at the first null, with no warnings |
| Difference.ContainerSubtrahendFlattens | src/index.js:140-150 | a Feature, GeometryCollection or FeatureCollection subtrahend is subtracted through its contents |
| Difference.FoldKeepsPolygon | src/index.js:132-137 | if the library keeps polygons polygonal, a polygon minuend stays a polygon or becomes null |
| Difference.StepKeepsPolygon | src/index.js:127-153 | under the same assumption, one subtrahend, however nested, leaves a polygon minuend a polygon or null |
| Difference.Results | src/index.js:162-163 | each member is reduced on its own against the same subtrahends, one result per member |
| Difference.Present | src/index.js:164 | the filter keeps at most as many entries as it is given |
| Difference.SurviveIsFilterOfMap | src/index.js:161-171 | a collection's new members are the non-null results of reducing each member, in order |
| Difference.NonOperandMembersSurvive | src/index.js:164-171 | members that are not polygons, such as Features, are never dropped |
| Difference.AllAnnihilatedLeavesEmptyCollection | src/index.js:161-173 | a collection whose members are all annihilated becomes an empty collection, never null |
| Difference.PresentOfNulls | src/index.js:164 | filtering only nulls leaves nothing |
| DifferenceWalk.SubtractGeojsons | src/index.js:123-174 | the loop with early exit computes the specification `Subtract` |
| DifferenceWalk.ApplySubtrahend | src/index.js:127-153 | the `some` callback on one subtrahend computes the specification `Step` |
| DifferenceWalk.ReduceMembers | src/index.js:161-171 | rebuilding a collection member by member computes `Survive` |
| Transforms.Output | src/index.js:205-213 | an annihilated run outputs the empty FeatureCollection; the output is an error iff a file could not be read or a filename literal was rejected |
| Transforms.Walk | src/index.js:199-211 | the loop never reads more files than are listed, and never ends with a rejected literal |
| Transforms.Drive | src/index.js:192-199 | with no file the minuend is passed once against no subtrahends and returned with that pass's warnings; otherwise the file loop runs |
| Transforms.WalkAppend | src/index.js:199-211 | files are subtracted strictly in order, each from the result of the ones before, and nothing follows a stop |
| Transforms.WalkReadsPrefix | src/index.js:199-211 | the loop reads a prefix of the files, all of them when it finishes, ending with the file that stopped it |
| Transforms.WalkReadsOnlyPrefix | src/index.js:199-211 | the files read are a prefix of the list, all of it when the loop finishes |
| Transforms.WalkStopsAfterRead | src/index.js:199-211 | a stopped loop has read at least one file, the unreadable one last |
| Transforms.WalkFrom | src/index.js:199-211 | one turn of `every`: an unreadable file or an annihilation stops the loop after that file, otherwise it continues from the reduced minuend |
| Transforms.WalkStopsAtAnnihilation | src/index.js:204-209 | when the k-th file annihilates the minuend the output is the empty FeatureCollection and no later file is read |
| Transforms.LoadAll | src/index.js:199-203 | loading succeeds with one document per file |
| Transforms.WalkOfPolygonIsOneSubtraction | src/index.js:199-211 | for a polygon minuend, subtracting the files one at a time equals subtracting all their documents at once: same result, same annihilation, same warnings |
| Transforms.NonPolygonMinuendReadsEveryFile | src/index.js:204-210 | any other minuend is never annihilated and every file is read |
| Transforms.SubtractFiles | src/index.js:192-213 | the driver loop computes `Drive` |
| Transforms.GeojsonNullTransform.constructor | src/index.js:56 | the buffer starts empty |
| Transforms.GeojsonNullTransform.Transform | src/index.js:60-63 | each chunk is appended to the buffer, so the buffer is the in-order concatenation of the chunks |
| Transforms.GeojsonNullTransform.Flush | src/index.js:65-73 | the parsed buffer is passed through unchanged, or the parse error is reported |
| Transforms.GeojsonNullTransform.Operate | src/index.js:91-94 | the null transform returns its document unchanged |
| Transforms.DifferenceTransform.constructor | src/index.js:98-107 | the file list and the filename-box option are stored |
| Transforms.DifferenceTransform.Operate | src/index.js:184-213 | with the option set the pre-filter as written runs: if it throws, the run ends with the rejected literal, no file read and the list unchanged; otherwise the list is narrowed and the run is the driver's. Without the option the list is unchanged and the run is the driver's |

## Left out

- `flattenPath`, `fs.readFileSync` and src/cli.js: file-system access and argument parsing. A file is reached only through the parameter `load`.
- `JSON.parse` of stdin and of the subtrahend files, and `geojsonhint.hint`: external parsers. They are the parameters `parse` and `load`, and the schema warnings are not modelled.
- `JSON.stringify` of the result and the stream machinery (`decodeStrings`, callbacks, error propagation): I/O plumbing.
- `turfDifference`, `turfRewind`, `turfBbox`: external computational geometry, kept uninterpreted.
- Floating point: coordinates and parsed numbers are `real`.
- JSON `null` and other non-object documents: a `null` minuend or subtrahend makes the source throw on a property access. `Node` has no null document.
- A node carrying more than one of `coordinates`, `geometry`, `geometries` and `features`: the tagged union gives each node exactly one of them.
- In-place updates: the source overwrites `geometry`, `geometries` and `features` of the minuend objects. The model returns new values, so aliasing between the input and the output is not captured.
- Transforms.DifferenceTransform: it inherits buffering and flushing from `GeojsonNullTransform` in the source. The model keeps only its own two fields, because inheritance between classes is not modelled.
- Transforms.Output and Transforms.GeojsonNullTransform.Flush: the model's errors are tags standing for the errors the source throws, not their messages. A filename stands for the error of `fs.readFileSync` on an unreadable file (src/index.js:201) or for `Unable to parse JSON from <file>: …` on bad content (src/index.js:80). A rejected literal's text stands for the raw SyntaxError that `JSON.parse` throws inside the filter (src/index.js:180), which never passes through `parse`. "Unable to parse JSON from stdin" stands for the same message from `parse` on the buffered input, without the `: ${err.message}` suffix.
- Transforms.DifferenceTransform.Operate: both constructor options are optional in the source (src/index.js:49-57, 98-107), while the model's fields always hold a list and a flag. A transform built without `filesToSubtract` (as test/test.js:82-83 and :101-102 do, passing `subtractFiles`) throws a TypeError at `this.filesToSubtract.filter` (src/index.js:187) or `this.filesToSubtract.length` (src/index.js:194), and `_flush` reports it as a stream error. A missing `respectBboxesInFilenames` is falsy, which the model's `false` covers.
- Difference.Subtract and Difference.IgnoredWarning: a transform built without a `warn` option throws a TypeError at the first warning (src/index.js:85 or :114), which `_flush` reports as a stream error. The model always returns the warnings as a sequence.
- BboxPattern.ReadLiteralAsWritten: numbers are read exactly as reals, not rounded to doubles. The result also keeps only the first four elements of the parsed array, as the destructuring does.
- BboxPattern.ReadLiteralAsWritten: strings are sequences of Unicode code points, and the dot accepts one code point. A JavaScript pattern without the `u` flag matches the dot against one UTF-16 code unit. So for a filename holding `[1😀,2,3,4]` the model finds a literal, which `JSON.parse` then rejects, while the source finds no match and keeps the file.
- Transforms.WalkOfPolygonIsOneSubtraction: it assumes the library returns Polygon or MultiPolygon geometries (`Difference.KeepsPolygons`).

## Findings

| source | as written | input that shows it | evidently intended | confidence | as-written member | corrected member |
|---|---|---|---|---|---|---|
| src/index.js:40-44 | only a crossing box is moved 360 degrees west, so a non-crossing box east of the antimeridian is compared against the wrong copy | minuend box `[175,2,178,5]`, filename box `[170,0,-170,10]`: both contain (176, 3), `bboxOverlap` returns false, and the pre-filter drops a file that overlaps | boxes overlap iff they share a point on the globe | high, not executed | Bbox.BboxOverlapMissesEastOfAntimeridian | Bbox.OverlapOnSphereIffCommonPoint |
| src/index.js:29 | the `.` in `numRegex` is unescaped and matches any character | filename containing `[1a,2,3,4]`: the pattern matches it, `JSON.parse` throws, and `operate` aborts the whole run | only decimal numbers are recognised, and a filename without a box literal is kept | high, not executed | BboxPattern.AsWrittenRejectsLetterLiteral | BboxPattern.CorrectedIgnoresLetterLiteral |

The driver, `Transforms.DifferenceTransform.Operate`, runs the pre-filter as written (`Transforms.PrefilterAsWritten`), so a rejected literal ends the run as it does in the source. The corrected pre-filter is `Transforms.Prefilter`. Its test, `Transforms.KeepFile`, reads the literal with `BboxPattern.ReadLiteral`, which uses the escaped dot and reads each number as a decimal, and tests overlap with `Bbox.OverlapOnSphere`. `Transforms.NoLiteralsKeptByBoth` shows that the two pre-filters agree on filenames that hold no literal.
