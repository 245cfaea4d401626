# Verified models of the repository's algorithmic cores

A Dafny model of five programs of this repository and proofs about it. `dafny verify dfyconfig.toml` checks everything.

- **cpplint's bracket matchers** (`BracketGrammar.dfy`, `BracketScanner.dfy`). The forward and the backward scanner keep a
  stack across lines and mix guesses about `<` and `>` into it. Started on a round, square or curly bracket, each is proved
  to find the partner in the lines laid end to end, where "partner" is defined by a grammar of balanced text that does not
  mention `<`, `>`, `;` or `operator` at all; it gives up exactly when there is no partner. So the two scanners undo each
  other, and both agree with the third matcher, `_GetTextInside`.
- **cpplint's preprocessor checkpoints** (`Preprocessor.dfy`). The flat, line-at-a-time machine for `#if/#else/#endif`
  computes the first-branch reading of every nesting of conditionals, and restores its checkpoint stack.
- **The resmoke suite splitter** (`SuiteSplit.dfy`, `SuiteConfig.dfy`). The greedy packer conserves the tests, meets its
  limits, deals the overflow evenly and uses the fewest suites possible; the rendered configs select every test of the
  source config exactly once if and only if the source config does not override its own excludes.
- **The error-code checker and fixer** (`ErrorCodes.dfy`, `CodeFixer.dfy`). The scan reports exactly the repeated,
  excessive and zero codes; editing offsets from right to left equals substituting all zero codes at once, by codes that
  are pairwise different and above all others.
- **bottle** (`Chunked.dfy`, `Router.dfy`, `ConfigDict.dfy`, `HtmlEscape.dfy`, `PathShift.dfy`, `RangeStream.dfy`): the
  chunked-body decoder, the router's index, nested configuration loading, HTML escaping, path shifting and range requests.
- **SCons cache pruning** (`CachePrune.dfy`): least-recently-used eviction under arbitrary failures of file operations.

`Common.dfy`, `Numerals.dfy`, `NumeralForms.dfy`, `Strings.dfy` and `Stream.dfy` hold what these share: flattening, Python's
integer parsing and printing, splitting and joining, and byte streams with short reads.

The small definitions that the models and their specifications both rest on (which brackets belong together, which lines
are directives, what a code spells, which methods are tried, what a suite may hold) have theorems of their own that state
them in the literal terms of the source.

## How the code is modelled

- Code that updates things stays imperative: `NestingState`, `Suite`, `Config`, `CodeScan`, `Router`, `ConfigDict` and the
  body file are classes, and the scanners, the packer, the decoder and the eviction are methods with loops.
- Regular expressions of cpplint are written out; the class `\w`, on which only word boundaries depend, is an arbitrary
  predicate. A router pattern is an arbitrary relation `matches(pattern, path)`, and a combined pattern answers with its
  lowest matching alternative. The glob expansion and the file system of the test selector are a parameter.
- What a read delivers is an arbitrary function of the position and the size asked for. Which renames and removals fail in
  the cache is an arbitrary function of the attempt. Bytes are characters. Runtimes, times and ratios are reals.
- `reversed(sorted(set(...)))` of error locations is insertion into a list kept free of repetitions and ordered by Python's
  comparison of tuples.

## Where the code does not do what one might expect

- A sub-suite split moves tests out of the misc suite by adding them to `exclude_files`, but the selector applies
  `include_files` last and lets it override the excludes, and the selector of C++ tests filters nothing if the config names
  roots itself instead of leaving them to a root file. With such a source config every split test is selected twice
  (`SuiteConfig.SelectedOnce`, `SuiteConfig.SelectedOnceIff`, with instances in `SuiteConfig.IncludedTestIsSelectedTwice`
  and `SuiteConfig.RootTestIsSelectedTwice`).
- The chunk decoder reads the line end behind a chunk with a single read of two bytes and refuses the body if that read is
  short, although it copes with short reads everywhere else. Decoding inverts encoding exactly when no such read is split
  (`Chunked.RoundTrip`, with an instance in `Chunked.SplitLineEndIsRefused`).
- `get_next_code` adds one to a string when there is exactly one code; `CodeFixer.GetNextCode` returns the type error.
- The splitter's comment says that the tests beyond the suite cap are added randomly; the code deals them round-robin.
- A shift that cuts next to an empty segment loses it; it keeps every segment exactly when neither segment at the cut is
  empty (`PathShift.ShiftConservesIff`, with an instance in `PathShift.EmptySegmentIsLost`). Nothing else is ever lost
  (`PathShift.OnlyEmptySegmentsAreLost`).
- `load_dict` means to raise a TypeError for a source that is no dictionary, but formats its message with a variable that
  is not bound yet, so an UnboundLocalError comes out (`ConfigDict.Config.LoadDict`).
- A zero code spelled "00" is edited only if that spelling is repeated (`CodeFixer.LoneLongZeroStays`). Only its first
  character is replaced, so the file then reads the new number exactly for the spelling "0" (`CodeFixer.FixedFilesRead`),
  and longer spellings can end up with the same code; when they do is an equation between the numbers and the lengths, with
  an instance in `CodeFixer.LongZerosCollide`.
- `load_dict` writes a dictionary's own entries before those nested in it, and nested dictionaries from last to first; if
  keys hold dots, that order decides which of two colliding values stays (`ConfigDict.Config.LoadDict`).

## Model

| member | source | states |
|---|---|---|
| `BracketScanner.FindEndOfExpressionInLine` | buildscripts/cpplint.py:1379-1454 | from a round, square or curly bottom of the stack, scanning a line finds, fails or carries on exactly as bracket tracking that ignores every angle bracket, shift, arrow, `operator` and semicolon |
| `BracketScanner.CloseExpression` | buildscripts/cpplint.py:1457-1498 | from `(`, `[` or `{` the result is just past the grammatical partner in the lines laid end to end; a failure means that no partner exists; other starts are refused |
| `BracketScanner.FindStartOfExpressionInLine` | buildscripts/cpplint.py:1501-1575 | the same for scanning a line backwards, although `->`, `>=`, `operator>` and `<<` make it skip characters |
| `BracketScanner.ReverseCloseExpression` | buildscripts/cpplint.py:1578-1613 | from `)`, `]` or `}` the result is the grammatical partner before it; a failure means that there is none |
| `BracketScanner.CloseThenReverse` | buildscripts/cpplint.py:1457-1613 | closing from an opener and scanning back returns to exactly that line and column whenever a partner exists |
| `BracketScanner.ReverseThenClose` | buildscripts/cpplint.py:1457-1613 | the converse from a closer |
| `BracketScanner.IgnoredAfterPlain` | buildscripts/cpplint.py:1523-1533 | a character that the backward scan skips before `>` is never a round, square or curly bracket |
| `BracketScanner.SamePosition` | buildscripts/cpplint.py:1484-1495 | positions by line and column correspond one to one to offsets in the joined text |
| `BracketScanner.FindCloser` | buildscripts/cpplint.py:4713-4729 | the extractor's own stack of awaited closers finds the grammatical partner, or there is none |
| `BracketScanner.GetTextInside` | buildscripts/cpplint.py:4700-4729 | the text strictly between the opener and its partner, nothing exactly when there is no partner, an assertion failure exactly for a bad start |
| `BracketScanner.MatchersAgree` | buildscripts/cpplint.py:4700-4729 | the extractor returns the text before the position that the forward scanner finds, and nothing exactly when that one fails |
| `BracketGrammar.TrackFindsPair` | buildscripts/cpplint.py:1391-1454 | the stack machine stops at a position if and only if the grammar pairs it with the opener |
| `BracketGrammar.TrackFindsOpener` | buildscripts/cpplint.py:1517-1575 | the same read from the other end |
| `BracketGrammar.MirrorPair` | buildscripts/cpplint.py:1501-1515 | partners stay partners when the text is read backwards with brackets turned round |
| `BracketGrammar.PartnerIsUnique` | buildscripts/cpplint.py:1457-1476 | an opener has at most one partner |
| `BracketGrammar.OpenerIsUnique` | buildscripts/cpplint.py:1578-1594 | a closer has at most one partner |
| `BracketGrammar.TrackGivesUp` | buildscripts/cpplint.py:1411-1428 | an opener has no partner exactly when tracking meets a wrong closer or the text ends |
| `BracketGrammar.PairIs` | buildscripts/cpplint.py:1420-1425 | partners are a round, square or curly opener and the closer of the same kind around balanced text |
| `BracketGrammar.BalancedIs` | buildscripts/cpplint.py:1411-1428 | text is balanced if and only if it is empty, or a non-bracket and balanced text, or brackets of a kind around balanced text and balanced text behind |
| `BracketGrammar.BracketsAreKept` | buildscripts/cpplint.py:4700-4729 | balanced text in ( ), [ ] or { } makes those two brackets partners, whatever stands around |
| `BracketScanner.PatternsAre` | buildscripts/cpplint.py:1523-1567 | which texts the patterns for operator, spaced >= and << or <= match |
| `Preprocessor.NestingState.UpdatePreprocessor` | buildscripts/cpplint.py:2399-2453 | the whole new nesting stack and checkpoint stack for each kind of directive, stray ones included |
| `Preprocessor.NestingState.Update` | buildscripts/cpplint.py:2456-2476 | the directive acts first, then the rest of the line changes the nesting stack |
| `Preprocessor.NestingState.UpdateAll` | buildscripts/cpplint.py:2456-2476 | a file is its lines one after another |
| `Preprocessor.FlatMachineFollowsFirstBranches` | buildscripts/cpplint.py:2410-2453 | for every nesting of conditionals and any effect of the lines, the machine ends with the stack of the first branches alone and its checkpoint stack restored |
| `Preprocessor.BranchesThenEndif` | buildscripts/cpplint.py:2424-2450 | after any number of else branches, `#endif` brings back what the first branch left |
| `Preprocessor.ClosedLinesFollowFirstBranches` | buildscripts/cpplint.py:2399-2453 | every line sequence whose conditionals close has such a reading, and the machine computes it |
| `Preprocessor.StructuredCodeCloses` | buildscripts/cpplint.py:2399-2453 | conversely every nesting lays out as lines whose conditionals close |
| `Preprocessor.DirectiveIs` | buildscripts/cpplint.py:2420-2437 | a line is taken for if, else or endif if and only if it is a hash between blanks and one of the keywords up to a word boundary |
| `Preprocessor.StrayDirectiveIsPlain` | buildscripts/cpplint.py:2436-2453 | an else, elif or endif with no conditional open changes nothing by itself |
| `SuiteSplit.Suite.constructor` | buildscripts/evergreen_generate_resmoke_tasks.py:600-613 | a new suite holds no tests and all its figures are zero |
| `SuiteSplit.Suite.AddTest` | buildscripts/evergreen_generate_resmoke_tasks.py:615-625 | total, maximum and count of known runtimes stay those recomputed from the tests |
| `SuiteSplit.DivideRemainingTestsAmongSuites` | buildscripts/evergreen_generate_resmoke_tasks.py:249-257 | suite j gets every n-th remaining test starting with number j |
| `SuiteSplit.DivideTestsIntoSuites` | buildscripts/evergreen_generate_resmoke_tasks.py:281-328 | the new suites hold exactly the groups of the split, with correct figures and consecutive indices |
| `SuiteSplit.SplitConserves` | buildscripts/evergreen_generate_resmoke_tasks.py:283-303 | every test occurrence lands in exactly one non-empty suite and there are never more suites than the given number |
| `SuiteSplit.SplitMeetsLimits` | buildscripts/evergreen_generate_resmoke_tasks.py:260-278 | unless greedy packing needs more suites than the cap, every suite is within the time and the number of tests or is a single test |
| `SuiteSplit.OverflowIsEven` | buildscripts/evergreen_generate_resmoke_tasks.py:249-257 | past a cap of n suites the extra tests of two suites differ by at most one, and come on top of the greedy suites |
| `SuiteSplit.OverflowGoesRound` | buildscripts/evergreen_generate_resmoke_tasks.py:249-257 | the k-th remaining test is number k / n of the extras of suite k mod n |
| `SuiteSplit.SplitWithinCap` | buildscripts/evergreen_generate_resmoke_tasks.py:313-317 | a cap of n is met and is reached if greedy packing needs more; none and zero mean no cap, a negative one means one suite |
| `SuiteSplit.FiguresAre` | buildscripts/evergreen_generate_resmoke_tasks.py:615-625 | the total adds up the runtimes, the maximum bounds and is one of them, the count is of the non-zero ones, the names are in order |
| `SuiteSplit.LimitsAre` | buildscripts/evergreen_generate_resmoke_tasks.py:260-278 | a suite is allowed if it is a single test or within the time and, if a number other than zero is given, within that number |
| `SuiteSplit.SplitIsOptimal` | buildscripts/evergreen_generate_resmoke_tasks.py:260-328 | with non-negative runtimes and any cap, no order-preserving split into parts within the limits or single tests has fewer parts; a cap of n is exceeded by greedy packing only if every such split exceeds it |
| `SuiteSplit.GreedyStaysAhead` | buildscripts/evergreen_generate_resmoke_tasks.py:307-319 | the greedy split needs no more suites than any legal split, even one of more tests |
| `SuiteSplit.NeighboursExceedLimit` | buildscripts/evergreen_generate_resmoke_tasks.py:270-272 | with no count limit two neighbouring suites together exceed the time limit, whatever the cap |
| `SuiteConfig.UpdateSuiteConfig` | buildscripts/evergreen_generate_resmoke_tasks.py:331-356 | new roots replace the old, excludes are extended or created, no excludes drop the entry, every other entry stays |
| `SuiteConfig.UpdatedEntries` | buildscripts/evergreen_generate_resmoke_tasks.py:340-354 | the roots are replaced if given, the excludes extended or dropped, and every other entry is as before |
| `SuiteConfig.GenerateConfig` | buildscripts/evergreen_generate_resmoke_tasks.py:359-375 | the config is written from an updated deep copy; the source config is not changed |
| `SuiteConfig.RenderSuiteFiles` | buildscripts/evergreen_generate_resmoke_tasks.py:378-402 | one file per suite with its tests as roots and a misc file with all of them excluded, under pairwise different names |
| `SuiteConfig.FilesAreDistinct` | buildscripts/util/taskname.py:6-22 | zero-padded indices give different file names, none of them the misc file |
| `SuiteConfig.SuiteFileIs` | buildscripts/util/taskname.py:6-22 | the file of a sub-suite is the last component of the source name, an underscore and the index with leading zeros up to the width of the number of suites; the misc file ends in _misc |
| `SuiteConfig.SubSuiteSelects` | buildscripts/evergreen_generate_resmoke_tasks.py:650-660 | a sub-suite's config selects exactly its tests |
| `SuiteConfig.MiscSelects` | buildscripts/resmokelib/selector.py:413-442 | the misc config selects the source selection minus the split tests, or all of it if the source config overrides its excludes |
| `SuiteConfig.SelectedIs` | buildscripts/resmokelib/selector.py:413-442 | a test is selected if it is a root and, unless roots are taken unfiltered, is included if there are include_files, and otherwise neither excluded nor rejected by tags |
| `SuiteConfig.ExpandMembers` | buildscripts/resmokelib/selector.py:158-167 | the files of a list of paths are the matches of its globs and its other paths normalised |
| `SuiteConfig.UnknownFilesAreRefused` | buildscripts/resmokelib/selector.py:200-213 | a root that is no file or an excluded file outside the roots makes the selection fail |
| `SuiteConfig.SelectedOnce` | buildscripts/evergreen_generate_resmoke_tasks.py:378-402 | how many rendered configs select a test: one, or two for a split test if the source config overrides its excludes |
| `SuiteConfig.SelectedOnceIff` | buildscripts/resmokelib/selector.py:169-187 | every selected test is selected exactly once if and only if there are no include_files and no roots beside a root file |
| `SuiteConfig.IncludedTestIsSelectedTwice` | buildscripts/resmokelib/selector.py:436-438 | a config with one included root has that test selected by its sub-suite and by misc |
| `SuiteConfig.RootTestIsSelectedTwice` | buildscripts/resmokelib/selector.py:574-581 | a C++ test config with one root of its own has that test selected twice |
| `SuiteConfig.SplitAndRender` | buildscripts/evergreen_generate_resmoke_tasks.py:707-717 | the count holds for the configs rendered from the split of any statistics, and all of them are valid |
| `ErrorCodes.CodeScan.CheckDups` | buildscripts/errorcodes.py:131-152 | the maps hold the first location of each code and all locations of repeated ones, the list the repeated and excessive ones |
| `ErrorCodes.ReadErrorCodes` | buildscripts/errorcodes.py:123-159 | the error list holds exactly the locations with a repeated, excessive or zero code; each repeated code lists its locations once, in scan order |
| `ErrorCodes.NoErrorsIff` | buildscripts/errorcodes.py:117-120 | no errors exactly when code texts are distinct, at most the maximum and not "0" |
| `ErrorCodes.NoErrorsIffCanonical` | buildscripts/errorcodes.py:117-159 | if each code is the numeral of a number: no errors exactly when the numbers are distinct, positive and at most 51999 |
| `ErrorCodes.ReportedIs` | buildscripts/errorcodes.py:131-159 | a location is reported if and only if its code occurs twice, spells more than 51999 or is "0" |
| `ErrorCodes.SpelledNumber` | buildscripts/errorcodes.py:139 | the number of a code is n if and only if the code is the decimal numeral of n, perhaps behind zeros |
| `ErrorCodes.WithFilters` | buildscripts/errorcodes.py:144-152 | the locations of a code are all of them in scan order |
| `CodeFixer.GetNextCode` | buildscripts/errorcodes.py:104-114 | one more than the highest number that a code spells, a type error exactly for fewer than two codes |
| `CodeFixer.EditOrderIs` | buildscripts/errorcodes.py:187-198 | each location with a zero code once, in descending order, so the offsets of each file from last to first |
| `CodeFixer.AboveIs` | buildscripts/errorcodes.py:37 | locations are ordered by file, offset, matched text and code, texts by their first difference |
| `CodeFixer.ReplaceBadCodes` | buildscripts/errorcodes.py:178-215 | all edits succeed exactly when the offsets are pairwise different and point at '0'; then every file is the simultaneous substitution of its original text, and otherwise the edits before the first bad location were made and the error is the one of that location |
| `CodeFixer.SubstituteBefore` | buildscripts/errorcodes.py:206-211 | an edit before all others changes just its own character of the edited text |
| `CodeFixer.NextEdit` | buildscripts/errorcodes.py:206-207 | in the text edited so far the offset still reads '0' exactly if the original did and no other location had it |
| `CodeFixer.InsertedIs` | buildscripts/errorcodes.py:209-215 | the i-th edited location gets the code number next + i, and no other edit takes its place |
| `CodeFixer.InsertedCodesAreNew` | buildscripts/errorcodes.py:113-114 | the codes that the edits insert are pairwise different canonical numerals above every existing code |
| `CodeFixer.FixZeroCodes` | buildscripts/errorcodes.py:230-246 | scanning and fixing edits exactly the codes "0" and repeated other spellings of zero, and substitutes pairwise different codes above all others; if the locations are those of numerals in the files, it succeeds and what every location reads afterwards is given |
| `CodeFixer.RecordedIsEditable` | buildscripts/errorcodes.py:206-207 | if each code stands at its recorded offset and no two overlap, the offset assertion never fails |
| `CodeFixer.CodeAfterIs` | buildscripts/errorcodes.py:208-211 | in the edited file the place of an edited code reads the inserted code followed by the old digits behind the first; every other code reads as before |
| `CodeFixer.FixedFilesRead` | buildscripts/errorcodes.py:199-215 | an edited location reads exactly its new number if and only if its code was "0"; it differs from every code there was; two edited locations read the same if and only if their numbers agree after a factor of ten for each further digit |
| `CodeFixer.CanonicalCodesAfter` | buildscripts/errorcodes.py:178-215 | for canonical codes the fixed files read no zero code, and two locations share a code exactly if they did before and it was not zero |
| `CodeFixer.LoneLongZeroStays` | buildscripts/errorcodes.py:138-151 | an unrepeated "00" is not among the edited codes |
| `CodeFixer.LongZerosCollide` | buildscripts/errorcodes.py:208-211 | a file of eleven zero codes in which two edited ones come to read "100" |
| `CodeFixer.CanonicalZeroErrors` | buildscripts/errorcodes.py:187 | for canonical codes the edited locations are exactly those of the code "0" |
| `Chunked.ReadHeader` | Scripts/bottle.py:1138-1143 | the bytes up to the first line end, an error if the stream ends or the buffer size is exceeded first |
| `Chunked.ReadChunkData` | Scripts/bottle.py:1150-1157 | exactly the announced number of bytes in non-empty parts within the buffer size, an error exactly if the stream ends early |
| `Chunked.IterChunked` | Scripts/bottle.py:1134-1159 | the parts concatenate to the decoded payload and reading stops at the decoded end, an error exactly for malformed input, after yielding the data up to the failing point |
| `Chunked.CompleteYieldsPayload` | Scripts/bottle.py:1149-1157 | what a complete decoding yields is its payload |
| `Chunked.RoundTrip` | Scripts/bottle.py:1134-1159 | decoding an encoding with anything behind it gives the payload and stops after the zero-size line, exactly when no line end behind a chunk is split by a short read |
| `Chunked.ProperPrefixFails` | Scripts/bottle.py:1141-1155 | every proper prefix of an encoding is refused, whatever the reads deliver |
| `Chunked.ProperPrefixYields` | Scripts/bottle.py:1149-1157 | before it is refused, a proper prefix yields a prefix of the payload |
| `Chunked.HexLine` | Scripts/bottle.py:1144-1148 | a hexadecimal size in any mix of cases, with any leading zeros, with or without extensions, is a header line stating that size |
| `Chunked.WireRoundTrip` | Scripts/bottle.py:1134-1159 | chunks written as hexadecimal size, line end, data, line end, closed by 0 and a line end, decode to their data under whole reads |
| `Chunked.HeaderLengthIs` | Scripts/bottle.py:1138-1143 | from the bytes read so far, a header line reaches to the first carriage return and line feed, which must lie within the buffer size |
| `NumeralForms.FormsAreRead` | Scripts/bottle.py:1146 | blanks, a sign, in base 16 a prefix, and digit groups joined by single underscores are read as the value of the digits |
| `NumeralForms.OnlyFormsAreRead` | Scripts/bottle.py:1145-1148 | whatever is read as a number has that form and that value |
| `NumeralForms.DigitsSpelled` | Scripts/bottle.py:1146 | the digits are 0-9 and a-f in either case, each with its value, and no other character |
| `NumeralForms.LoweredKeepsValue` | Scripts/bottle.py:1146 | upper-case digits count like lower-case ones |
| `NumeralForms.BlanksSpelled` | Scripts/bottle.py:1146 | which ASCII characters count as blanks |
| `Chunked.SplitLineEndIsRefused` | Scripts/bottle.py:1158-1159 | a correct encoding is refused by a reader that delivers single bytes |
| `Chunked.IterBody` | Scripts/bottle.py:1126-1132 | as many bytes as announced or available, in non-empty parts within the buffer size |
| `Chunked.StoreBody` | Scripts/bottle.py:1165-1173 | the stored bytes are the parts in order, in a temporary file exactly if they exceed the limit |
| `Chunked.Body` | Scripts/bottle.py:1161-1176 | the stored body is the decoded payload or the announced bytes; malformed chunks store nothing |
| `Stream.Input.Read` | Scripts/bottle.py:1165-1166 | the next bytes of the stream, at least one and at most as many as asked for until it ends |
| `Router.Router.Add` | Scripts/bottle.py:348-386 | the four dictionaries stay those of everything added so far |
| `Router.Router.Compile` | Scripts/bottle.py:388-398 | the blocks of a method are its routes cut into groups of at most 99 |
| `Router.Router.MatchMethod` | Scripts/bottle.py:421-430 | static before dynamic, then the earliest-registered matching pattern with its latest target |
| `Router.Router.Match` | Scripts/bottle.py:411-448 | the first tried method with a match; otherwise 405 exactly if some untried method matches, else 404 |
| `Router.Router.OtherMethodsAllow` | Scripts/bottle.py:432-443 | whether an untried method has a static or dynamic match |
| `Router.LookupIs` | Scripts/bottle.py:411-448 | PROXY is tried first, then the request method, then GET for HEAD, then ANY; without a hit it is 405 exactly if any method has one |
| `Router.StaticRouteAnswers` | Scripts/bottle.py:421-424 | the static target added last for a method and path answers, whatever dynamic routes match |
| `Router.DynamicRouteAnswers` | Scripts/bottle.py:425-429 | without one, the pattern added first among the matching ones answers, with the target added to it last |
| `Router.NoRouteAnswers` | Scripts/bottle.py:421-430 | with neither, nothing answers |
| `Router.HeadUsesGetRoute` | Scripts/bottle.py:415-419 | HEAD on a path with only a GET route answers with that route |
| `Router.BlocksOf99` | Scripts/bottle.py:388-398 | every block but the last combines 99 patterns, the last at most as many |
| `Router.TableScan` | Scripts/bottle.py:377-384 | scanning the route table gives the earliest-registered matching pattern of the history with its latest target |
| `Router.BlocksScan` | Scripts/bottle.py:388-398 | trying combined blocks equals scanning the routes one by one |
| `Router.OldGroup` | Scripts/bottle.py:377-381 | overwriting at the recorded position replaces the target of that pattern and nothing else |
| `ConfigDict.Config.LoadDict` | Scripts/bottle.py:2097-2119 | the stack loop ends, with an unbound variable exactly for a source that is no dictionary and a TypeError exactly for a key that is no string; the store is that of the writes in traversal order up to the error, for any keys |
| `ConfigDict.TracePuts` | Scripts/bottle.py:2105-2118 | if all keys are strings, the writes of the traversal are the entries of recursive flattening |
| `ConfigDict.ItemStep` | Scripts/bottle.py:2110-2118 | reading one item writes its own entry and leaves the nested dictionary to the stack, without changing the outcome |
| `ConfigDict.EntryHasPath` | Scripts/bottle.py:2105-2118 | every entry is that of a path of keys |
| `ConfigDict.PathHasEntry` | Scripts/bottle.py:2105-2118 | every path to a leaf, and to an inner dictionary when namespaces are made, has its entry |
| `ConfigDict.DottedInjective` | Scripts/bottle.py:2112 | paths of non-empty dot-free keys never share a dotted name |
| `ConfigDict.DottedIsJoin` | Scripts/bottle.py:2112 | the name of an entry is the keys joined by dots, behind the namespace and a dot if there is one |
| `ConfigDict.CollidingWrites` | Scripts/bottle.py:2105-2118 | a nested value wins over one written beside it, and one in an earlier dictionary over one in a later dictionary |
| `ConfigDict.LoadedByPath` | Scripts/bottle.py:2097-2119 | the loaded configuration name by name: what the path leads to, or what was there before |
| `HtmlEscape.EscapeIsOnePass` | Scripts/bottle.py:2607-2610 | five consecutive replacements equal one substitution per character |
| `HtmlEscape.EscapedHasNoMarkup` | Scripts/bottle.py:2607-2610 | the output has no raw angle bracket or quote |
| `HtmlEscape.EscapeRoundTrip` | Scripts/bottle.py:2607-2610 | a one-pass decoder recovers every text |
| `HtmlEscape.QuoteIsOnePass` | Scripts/bottle.py:2613-2616 | the same for the eight replacements of quoting |
| `HtmlEscape.QuoteRoundTrip` | Scripts/bottle.py:2613-2616 | the text between the quotation marks decodes to the input |
| `PathShift.ShiftMovesBoundary` | Scripts/bottle.py:2639-2667 | for any two paths a shift succeeds exactly if enough segments are there; both new segment lists are the parts of the old list around the new cut, without empty segments at their ends |
| `PathShift.ShiftConservesIff` | Scripts/bottle.py:2649-2667 | for any two paths a shift keeps the whole segment list if and only if neither segment at the cut is empty |
| `PathShift.ShiftsConserve` | Scripts/bottle.py:2639-2667 | for any two paths a run of shifts succeeds and keeps the whole segment list if and only if every cut it comes to is within the list and next to no empty segment |
| `PathShift.CleanPathsConserve` | Scripts/bottle.py:2639-2667 | on paths without empty segments a run succeeds if and only if every partial sum of the shifts stays within the two lists, and it never loses a segment |
| `PathShift.OnlyEmptySegmentsAreLost` | Scripts/bottle.py:2649-2667 | no run of shifts loses, adds or reorders a segment that is not empty |
| `PathShift.ShiftBackRestoresSegments` | Scripts/bottle.py:670-687 | for any two paths shifting n and then -n succeeds and restores both segment lists if and only if the first shift cut next to no empty segment |
| `PathShift.ForthAndBackExactly` | Scripts/bottle.py:2664-2666 | for any two paths shifting to the script and back restores the strings if and only if the cut is clean, the script is canonical and the path ended in one slash or was not emptied |
| `PathShift.BackAndForthExactly` | Scripts/bottle.py:2664-2666 | the exact condition for the other direction |
| `PathShift.ShiftedSpelling` | Scripts/bottle.py:2664-2667 | in either direction the new paths are a slash and the segments before and behind the cut joined by slashes, the path keeping its last slash if segments are left |
| `PathShift.EmptySegmentIsLost` | Scripts/bottle.py:2649-2652 | an instance of a shift that loses an empty segment at its cut |
| `RangeStream.ParseRangeHeader` | Scripts/bottle.py:2550-2566 | the satisfiable ranges of the header's parts in order, none without the bytes unit |
| `RangeStream.RangeIsWhatWasAsked` | Scripts/bottle.py:2556-2564 | a part yields a range exactly if it asks for some byte of the file, and then exactly those bytes |
| `RangeStream.HeaderRoundTrip` | Scripts/bottle.py:2553-2555 | a header listing specs parses to the satisfiable ones in order |
| `RangeStream.FileIterRange` | Scripts/bottle.py:2425-2432 | whatever the reads deliver, the parts are the requested bytes, none empty or over the limit |
| `RangeStream.ServeRange` | Scripts/bottle.py:2491-2503 | the body is exactly the first range and its length is the announced content length; 416 exactly without a range |
| `CachePrune.CollectCacheContents` | buildscripts/scons_cache_prune.py:27-56 | the readable files, and the sum of their sizes |
| `CachePrune.PruneCache` | buildscripts/scons_cache_prune.py:59-104 | whatever fails, items go oldest first, the tracked size is the total minus what was deleted, True after trimming means below the target and False that all were tried |
| `CachePrune.TriedOldestFirst` | buildscripts/scons_cache_prune.py:74-84 | the order of deletion is the contents, least recently used first |
| `CachePrune.SortIsStable` | buildscripts/scons_cache_prune.py:73-74 | items used at the same time keep their order |
| `CachePrune.CollectedAre` | buildscripts/scons_cache_prune.py:33-56 | of a directory the readable files are collected in order, files beside the directories, nested directories and unreadable files are not |
| `CachePrune.PrunesShortestPrefix` | buildscripts/scons_cache_prune.py:78-102 | without failures the deleted items are the shortest oldest-first prefix reaching the target, and success means a positive target |

## Left out

- BracketScanner.CloseExpression: started on `<` only the shape of the result is stated, because what those guesses should find has no specification.
- BracketScanner.ReverseCloseExpression: started on `>` only the shape of the result is stated, for the same reason.
- Preprocessor.NestingState.Update: what the rest of the line does to the nesting stack is an arbitrary function; namespaces, classes, access specifiers and the saved previous top are not modelled, and blocks are values because the source deep-copies its checkpoints.
- Router.Router.Match: the contents of the Allow header and the extraction of URL arguments, with the 400 that a wildcard filter may raise, are not modelled.
- Chunked.IterChunked: chunk sizes written with non-ASCII digits, which Python would accept, count as malformed.
- SuiteConfig.RenderSuiteFiles: YAML text, the header comment and the callback that may edit the source config first are not modelled; a file's contents are its selector and the untouched rest.
- SuiteConfig.SelectedOnce: stated for non-empty splits and for plain existing files; fallback suites with no tests keep the original roots in the source.
- SuiteConfig.SelectedOnceIff: has the same limits.
- CodeFixer.ReplaceBadCodes: printed reports and line numbers are not modelled.
- ConfigDict.Config.LoadDict: per-key filters and change listeners of the configuration are not modelled.
- The source scanner of the error codes, route-rule tokenising, template parsing and cpplint's style checks: large regular expressions.
- Server adapters, cookies, form parsing, static-file headers other than ranges, and all network, process and file-system plumbing of the build scripts.
- Timeouts, job counts, tag combinations and other one-function arithmetic of the build scripts: each is a single expression or a small finite table with no state or loop behind it.
- Rounding of floating-point runtimes and ratios.
