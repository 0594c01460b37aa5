# Requirement inference from source code, modelled in Dafny

The code inference tool reads a unit of Python source and extracts a feature
set: the functions with the first line of their docstrings, the names assigned
to, the string literals and the comments. It then applies three heuristic rules
and a fuzzy-matched domain glossary to infer requirement statements. Each
statement has a confidence and the evidence it came from. A second script
scaffolds a starter glossary out of a feature set.

This project models that core and proves what it promises:

- `strings.dfy` (`Strings`): the parts of Python's `str` the core relies on.
  These are `isspace`, the line boundaries of `splitlines`, `strip`, `lower`,
  `in` and `<`.
- `extraction.dfy` (`Extraction`): `extract_features_from_code`.
  - The parser and tokenizer are outside the model. Their output is the input:
    either a syntax error or the nodes of `ast.walk` in order, and a token
    stream that may stop with a `TokenError`.
  - `ExtractFeatures` is a method with the source's loops: the token loop
    (`CollectComments`), the node loop and, inside it, the loop over an
    assignment's targets. It is proved
    equal to the specification function `Extract`, and the lemmas state the
    properties of `Extract`.
- `matching.dfy` (`Matching`): `fuzzy_match`.
  - The similarity is difflib's block-matching ratio 2M/T. The matched count M
    comes from a parameter; T is the total length.
  - The cutoff is 0.6.
  - The best candidate is the one `heapq.nlargest(1, ...)` picks among
    `(ratio, key)` pairs.
- `inference.dfy` (`Inference`): `infer_requirements` and `score_confidence`.
  - Confidences are in integer hundredths.
  - `InferRequirements` keeps the three loops and is proved equal to `Infer`.
    The second and third loops gather their findings in a list of their own,
    which is then appended. This gives the same list as appending each
    finding directly.
- `scaffolding.dfy` (`Scaffolding`): the term set and the dictionary
  comprehension of `scaffold_glossary`.
- `wrappers.dfy` (`Wrappers`): an option type.

## Model

| member | source | states |
|---|---|---|
| Extraction.ExtractFeatures | run.py:9-46 | The extracted features are exactly `Extract(parse, tokens)`; a syntax error gives four empty lists and raises nothing |
| Extraction.CollectComments | run.py:22-28 | The comment loop yields exactly the stripped COMMENT tokens in order, up to the first tokenizer error |
| Extraction.DocSummary | run.py:31-36 | A function's `doc` is `""` for an absent or empty docstring; otherwise it is a prefix of the docstring with no line break, ending at the first line boundary |
| Strings.FirstLine | run.py:35 | `splitlines()[0]`: the longest line-break-free prefix, followed by a line break or the end of the string |
| Extraction.NameIdsSnoc | run.py:38-40 | One more assignment target adds its id at the end exactly when it is a `Name` |
| Extraction.NameIdsOnlyNames | run.py:37-40 | An assignment records at most one id per target; an id is recorded exactly when some target is that `Name` |
| Extraction.NodeStep | run.py:30-44 | One more node changes at most one list, at its end: a FunctionDef adds exactly its entry, an Assign its Name ids, a string statement or string constant its string, anything else nothing |
| Extraction.FunctionsConcat | run.py:30-36 | The functions of a walk made of two parts are those of the first part followed by those of the second |
| Extraction.VariablesConcat | run.py:37-40 | The same for the variables |
| Extraction.StringsConcat | run.py:41-44 | The same for the strings |
| Extraction.WalkConcat | run.py:30-44 | Extracting a walk made of two parts gives each node list as the two parts' lists in order; comments do not depend on the walk |
| Extraction.StandaloneStringTwice | run.py:41-44 | A string expression statement followed later by its constant puts the string into `strings` twice |
| Extraction.CommentsStopAtError | run.py:22-28 | Nothing after a tokenizer error reaches `comments` |
| Extraction.TokenErrorKeepsWalk | run.py:22-30 | A tokenizer error keeps the comments gathered before it and still yields every function, variable and string of the walk |
| Extraction.NoCommentTokens | run.py:22-28 | A token stream without COMMENT tokens yields no comments, whether or not it stops at a tokenizer error |
| Extraction.CommentsStrippedWithMarker | run.py:25-26 | Every collected comment keeps its leading `#` and does not end in whitespace |
| Strings.StripLeadingSuffix | run.py:26 | Left stripping leaves a suffix of the input; only whitespace precedes it, and it is empty or starts with a non-space character |
| Strings.StripTrailingPrefix | run.py:26 | Right stripping leaves a prefix of the input; only whitespace follows it, and it is empty or ends with a non-space character |
| Strings.StripKeeps | run.py:26 | A string that neither starts nor ends with whitespace is left as it is by `strip` |
| Strings.StripSlice | run.py:26 | `strip` leaves a slice of its input with only whitespace outside it |
| Strings.StripEdges | run.py:26 | What `strip` leaves neither starts nor ends with whitespace, and a leading non-space character is kept |
| Extraction.TestProgramFunctions | tests/test_inference.py:5-11 | On the walk of the test program, whatever its names, `functions` is exactly its one function, with an empty `doc` |
| Extraction.TestProgramVariables | tests/test_inference.py:5-12 | On that walk `variables` is exactly the assigned name |
| Extraction.TestProgramStrings | tests/test_inference.py:5-13 | On that walk `strings` is exactly the assigned literal |
| Extraction.TestProgramComments | tests/test_inference.py:5-14 | On the program's tokens, `comments` is exactly its comment line, for any comment without surrounding whitespace |
| Extraction.TestProgramFeatures | tests/test_inference.py:4-14 | The whole feature set of the program: its function, its variable, its literal and its comment |
| Extraction.TestCommentValidates | tests/test_inference.py:6-14 | The test's comment `# validate something` needs no stripping and contains "validate" |
| Extraction.StringsAsWritten | run.py:41-44 | As written, the string loop raises exactly when the walk holds a string constant, and otherwise agrees with `StringsOf` |
| Extraction.ExtractAsWritten | run.py:17-46 | As written, extraction raises `AttributeError` exactly on a parsed walk with a string constant, and otherwise returns `Extract` |
| Extraction.TestProgramRaisesAsWritten | tests/test_inference.py:4-13 | The test program, whatever its literal, makes the code as written raise, while the corrected extraction has the literal among its strings |
| Matching.Matched | run.py:56 | The matched count never exceeds either string, and it covers both strings entirely exactly when they are equal |
| Matching.Ratio | run.py:56 | The ratio lies in [0, 1] and is 1 for a key equal to the query |
| Matching.CutoffInIntegers | run.py:56 | Ratio ≥ 0.6 exactly when 10·M ≥ 3·(|key| + |query|) |
| Matching.Best | run.py:56 | None exactly when no entry passes the cutoff; otherwise an entry that passes and that no passing entry outranks by (ratio, key) |
| Matching.FuzzyMatch | run.py:55-59 | No match exactly when no key passes against the lower-cased term; otherwise a glossary entry, with its own description, that passes and is best ranked |
| Matching.RatioOneOnlyEqual | run.py:56 | Only a key equal to the lower-cased term reaches ratio 1 |
| Matching.ExactKeyMatches | run.py:55-59 | A key equal to the lower-cased term is the key returned; with distinct keys, as in a dictionary, its description is returned with it |
| Matching.EmptyGlossaryNoMatch | run.py:55-59 | An empty glossary never matches |
| Matching.PassingLengths | run.py:56 | A key passing the cutoff has 7·|key| ≥ 3·|query| and 7·|query| ≥ 3·|key|, the length bound difflib's `real_quick_ratio` filter applies |
| Matching.MatchLengths | run.py:55-59 | The returned key's length is within those bounds of the term's |
| Matching.ShortTermNoMatch | run.py:55-59 | `"xyz"` never matches a glossary holding only `customer_id`, whatever the matching blocks |
| Matching.MisspelledTermMatches | run.py:55-59 | `"custmer_id"` matches `customer_id`, with its description, given difflib's ten matched characters (`cust` and `mer_id`) |
| Matching.MatchPassesCutoff | run.py:56-58 | A returned key meets the cutoff in whole numbers |
| Matching.DivAtLeast | run.py:56 | Helper of `CutoffInIntegers` and `RatioOneOnlyEqual`: a quotient by a positive divisor reaches a bound exactly when the dividend reaches the bound times the divisor |
| Matching.DivAtMostOne | run.py:56 | Helper of `Ratio`: a non-negative quotient by a larger divisor lies in [0, 1] |
| Matching.OutranksIrreflexive | run.py:56 | No glossary entry outranks itself |
| Matching.OutranksTransitive | run.py:56 | The `(ratio, key)` ranking is transitive |
| Matching.NewLeaderUnbeaten | run.py:56 | An entry that outranks one no passing entry outranks is itself not outranked by any passing entry |
| Strings.Lower | run.py:56 | `lower` keeps the length and lower-cases each character on its own (ASCII only; see below) |
| Strings.ContainsLowered | run.py:69-86 | A lower-case piece of a string is still found after lower-casing it, as the fee (run.py:69) and validation (run.py:86) tests need |
| Strings.ContainsInfix | run.py:73-90 | Helper of `EvidenceCitesTrigger` and `Template`: the middle of three pieces occurs in their concatenation |
| Strings.ContainsPieces | run.py:80-82 | Helper of `GlossaryRequirementCites`: the second and fourth of five pieces occur in their concatenation |
| Strings.BelowTransitive | run.py:56 | Python's string order, used to break ties between equal ratios, is transitive |
| Strings.BelowIrreflexive | run.py:56 | No string is below itself in that order, so an entry never outranks itself |
| Inference.ScoreConfidence | run.py:65-66 | The confidence lies in [50, 100] hundredths, is 100 exactly from five pieces of evidence, and is 50 + 10n below that |
| Inference.ScoreConfidenceMonotone | run.py:65-66 | More evidence never lowers the confidence |
| Inference.InferRequirements | run.py:61-93 | The three loops yield exactly `Infer`: fee findings, then glossary findings, then validation findings |
| Inference.CollectMembership | run.py:68-91 | A rule's loop yields a requirement exactly when the rule yields it for some item |
| Inference.FeeRuleExactly | run.py:68-74 | The fee rule reports exactly the functions whose lower-cased name contains "fee" or "penalt" |
| Inference.GlossaryRuleExactly | run.py:76-83 | The glossary rule reports exactly the variables whose match has a non-empty key, with that key and its description |
| Inference.ValidationRuleExactly | run.py:85-91 | The validation rule reports exactly the comments whose lower case contains "validate" |
| Inference.CollectCount | run.py:68-91 | A rule with at most one finding per item yields as many findings as items it fires on |
| Inference.FeeCount | run.py:68-74 | One fee finding per fee-named function |
| Inference.GlossaryCount | run.py:76-83 | One glossary finding per variable with a non-empty match |
| Inference.ValidationCount | run.py:85-91 | One validation finding per comment mentioning "validate" |
| Inference.InferCount | run.py:61-93 | The number of requirements is the sum of the three trigger counts |
| Inference.CollectSnoc | run.py:68-91 | One more item adds that item's findings at the end |
| Inference.FeeFindingsKind | run.py:68-74 | Every fee finding has confidence 0.7 and fee evidence |
| Inference.GlossaryFindingsKind | run.py:76-83 | Every glossary finding has confidence 0.7 and variable evidence |
| Inference.ValidationFindingsKind | run.py:85-91 | Every validation finding has confidence 0.6 and comment evidence |
| Inference.InferredConfidenceAndOrder | run.py:61-93 | Every confidence is in [50, 100]: 70 for fee and glossary findings, 60 for validation ones; the list holds all fee findings first, then glossary ones, then validation ones |
| Inference.EvidenceCitesTrigger | run.py:73 | Fee evidence names the function, and validation evidence (run.py:90) quotes the comment |
| Inference.GlossaryRequirementCites | run.py:80-82 | The glossary statement names the matched key and its description; its evidence names the variable and the key |
| Inference.EmptyKeyNeverReported | run.py:77-78 | A glossary whose only key is `""` never yields a glossary finding, because `if match:` treats it as false |
| Inference.MockFunctionFinding | tests/test_inference.py:18 | `charge_late_fee` yields exactly one fee finding |
| Inference.MockVariableFinding | tests/test_inference.py:19-23 | `customer_id` against the one-entry glossary yields exactly one glossary finding, for any similarity |
| Inference.MockCommentFinding | tests/test_inference.py:21 | `# validate input` yields exactly one validation finding |
| Inference.MockGlossaryScenario | tests/test_inference.py:16-26 | The test's input yields exactly three findings in rule order, with confidences 0.7, 0.7 and 0.6, one naming `customer_id` |
| Scaffolding.Get | glossary_scaffolder.py:5 | A missing list counts as empty |
| Scaffolding.Template | glossary_scaffolder.py:6 | The placeholder contains the term and is 28 characters longer than it |
| Scaffolding.TemplateInjective | glossary_scaffolder.py:6 | Different terms get different placeholders |
| Scaffolding.Terms | glossary_scaffolder.py:5-6 | The term set holds exactly the strings among the items |
| Scaffolding.ScaffoldGlossary | glossary_scaffolder.py:4-6 | The keys are exactly the strings found in `variables` and `strings`; each value is that key's placeholder |
| Scaffolding.TermsBound | glossary_scaffolder.py:5 | There are no more distinct strings than items |
| Scaffolding.ScaffoldSize | glossary_scaffolder.py:5-6 | The scaffold has at most one entry per listed item |
| Scaffolding.ScaffoldIgnoresRepeats | glossary_scaffolder.py:5 | Listing an item that is already present again leaves the scaffold unchanged |
| Scaffolding.ScaffoldOfExtracted | glossary_scaffolder.py:5-6 | For extracted features, the keys are exactly the variables and strings found |
| Scaffolding.ScaffoldOfEmpty | glossary_scaffolder.py:5 | `{}` scaffolds an empty glossary |

## Left out

- `ast.parse`, `ast.walk` and `ast.get_docstring` (run.py:18, 30, 32). The parse result is an input: a syntax error, or the walk order of nodes with each docstring already cleaned.
- `tokenize.generate_tokens` (run.py:23). The token stream is an input.
- `Matching.Matched`: the matching-block search of `difflib.SequenceMatcher` is not modelled. The matched count is a parameter `BlockCount`, clamped to both lengths, and below the common length for two different strings of the same length. A string compared with itself matches fully at every length: with no junk function, the characters the autojunk heuristic marks as popular are not junk, and the extension loops of `find_longest_match` absorb them.
- `Matching.Ratio`: computed exactly as a rational. Python compares a float with 0.6, which differs only for lengths near 2^50. The `(ratio, key)` ranking of `Outranks` and `Best` also compares exact ratios, where Python compares floats: once total lengths reach about 2^27, two different ratios can round to the same float (totals 214230347 and 220932381 with matched counts 77732777 and 80164588 differ by one part in their product), and Python then breaks the tie by the larger key while the model keeps the larger exact ratio. The `real_quick_ratio` and `quick_ratio` pre-filters are not modelled; both are upper bounds of the ratio, so they never reject an entry the ratio accepts.
- `Matching.Glossary`: a sequence of entries can repeat a key, which a dictionary cannot. With a repeated key, `FuzzyMatch` returns the description of the first entry with that key, while the dictionary would hold the last one written; `DistinctKeys` states the dictionary's guarantee, and `ExactKeyMatches` assumes it for the description.
- `Strings.Lower`: maps only the ASCII capitals. Python's `str.lower` covers all of Unicode.
- `Inference.IsFeeName`: the regular expression `fee|penalt` with `IGNORECASE` is replaced by a substring test on the ASCII lower case.
- `Inference.ScoreConfidence`: works in integer hundredths on counts of zero or more. It stands in for Python's float arithmetic and `round`.
- `load_glossary`, `explain_and_write_output`, `main` and the default code and glossary (run.py:48-53, 95-149): file and command-line I/O and report rendering.
- The JSON write and the `print` of `scaffold_glossary` (glossary_scaffolder.py:8-10).
- The `TypeError` that `set(...)` raises on an unhashable list item (glossary_scaffolder.py:5). The model only has string items and other hashable items.
- The unused `glossary_keys` variable (run.py:63).

## Findings

| source | as written | input that shows it | evidently intended | confidence | as-written member | corrected member |
|---|---|---|---|---|---|---|
| run.py:43-44 | For a string `ast.Constant` it appends `node.value.value`. `node.value` is already the `str`, so this raises `AttributeError` | `bar = "test"`, the program of tests/test_inference.py:5-9 | Append the constant's string, as tests/test_inference.py:13 expects | not executed | Extraction.ExtractAsWritten, Extraction.TestProgramRaisesAsWritten | Extraction.ExtractFeatures, Extraction.TestProgramFeatures |
