# A verified model of the Prolog-subset parser and term encoder

This project models the code generator's `Parser` object (`Parser.kt`) and its
AST (`model.kt`) in Dafny.

The parser turns Prolog source text into `Clause` trees in three stages:

- `preprocessPrologCode` strips `%` comments and merges the lines into clause
  strings, each ending at a line that ends in `.`.
- `parseClause` cuts a clause string at `:-`. `splitPredicates` cuts the body
  at the commas that lie outside `(...)` and `[...]`.
- `parsePredicate` dispatches each piece to one of three parsers:
  - `parseTerms` and `parseListTerm` handle argument lists and `[...]` lists,
    which become right-nested `"."` cells;
  - `parseSpecialPredicate` handles infix operators found through the fixed
    `SPECIAL_TERMS` table;
  - `parseTerm` classifies a single token as an Atom or a Variable.

`encode` flattens a term tree, parent before children, into the integer codes
of its names under a caller-supplied mapping.

Modules:

- `Results`: `Result` (a Kotlin exception becomes an `Err`) and `MapAll`
  (Kotlin `map` with a throwing function: the first failure wins).
- `KotlinStrings`: the Kotlin `String` operations the parser uses, each with
  Kotlin's semantics:
  - `split`, which cuts at every occurrence;
  - `substringBefore` and `substringAfter`, which use the first occurrence;
  - `trim`, `trimEnd(chars)`, `indexOfFirst`, `lines()` and `replace`;
  - `joinToString`, used only as a proof partner of `Split`.
- `Model`: the `Term` and `Clause` datatypes.
  - The hand-written `equals` is written out as functions and proved equal
    to structural equality.
  - `encode` is a method with a loop, proved against the function
    `Encoding`, which is in turn proved to be a pre-order walk.
- `Parser`: the pure parsing functions. The imperative ones are methods
  proved against specification functions:
  - `SplitPredicates` against `TopLevelPieces`;
  - `PreprocessPrologCode` against `Preprocess`;
  - `ParseProlog` against `MapAll(Preprocess(code), ParseClause)`.
- `ParserProperties`: properties that hold for whole families of inputs.
- `ParserExamples`, `ArithmeticExamples`: the unit-test fixtures, replayed as
  lemmas.

Every exception the source can throw is an `Err` value:

- `EmptyTerm`: `first()` on an empty term.
- `UnclosedList`: `substring(1, -1)` when a `[` has no `]`.
- `NotAPredicate`: the "is not a predicate" error.
- `UnknownTerm` and `UnknownPredicate`: a name missing from the mapping.

Where the source and its design description disagree, the model follows the
source:

- There is no tuple sugar: `p((a,b))` parses to `p` over the Atoms `(a` and
  `b`.
- A list whose last element is plain ends in a one-argument cell `.(x)`, not
  in `.(x, .())`.
- A `[` without `]` fails, as `substring(1, -1)` throws.
- The empty cell `.()` is not only `[]`. It also ends the chain after a
  trailing comma (`a, ` is `.(a, .())`). And the rest of the content is
  re-sliced by the length of the cleaned first element rather than of the raw
  text before the comma. So a blank after `[` loses every later element:
  `[ a, b]` is `.(a, .())`.

## Model

| member | source | states |
|---|---|---|
| Results.MapAll | code-generator/common/src/main/kotlin/app/Parser.kt:50 | the map succeeds iff every element succeeds, then holds each element's value in order; otherwise its error is that of the first failing element |
| KotlinStrings.Split | code-generator/common/src/main/kotlin/app/Parser.kt:46 | at least one piece; the first piece is the text before the first delimiter; one piece exactly when the delimiter is absent |
| KotlinStrings.JoinSplit | code-generator/common/src/main/kotlin/app/Parser.kt:146 | joining the pieces of `split(d)` with `d` rebuilds the text, so `split` loses nothing |
| KotlinStrings.SplitPiecesAreFree | code-generator/common/src/main/kotlin/app/Parser.kt:146 | no piece of `split(d)` contains `d` |
| KotlinStrings.Lines | code-generator/common/src/main/kotlin/app/Parser.kt:22 | at least one line, and no line holds a line-break character |
| KotlinStrings.LinesRebuild | code-generator/common/src/main/kotlin/app/Parser.kt:22 | putting the line breaks back between the lines rebuilds the text, and a lone carriage return is never followed by a line feed, as CR LF is one break |
| KotlinStrings.LineBreaks | code-generator/common/src/main/kotlin/app/Parser.kt:22 | one break fewer than lines, each a line feed, a carriage return or CR LF |
| KotlinStrings.SubstringBefore | code-generator/common/src/main/kotlin/app/Parser.kt:81 | the text before the first occurrence, which is itself free of the delimiter; the whole text when the delimiter is absent |
| KotlinStrings.SubstringAfter | code-generator/common/src/main/kotlin/app/Parser.kt:87 | before + delimiter + after rebuilds the text; the whole text when the delimiter is absent |
| KotlinStrings.IndexOfFirst | code-generator/common/src/main/kotlin/app/Parser.kt:97 | the first position holding one of the characters, or -1 when none does |
| KotlinStrings.ContainsIffOccurs | code-generator/common/src/main/kotlin/app/Parser.kt:83 | `contains` holds exactly when the text occurs at some position |
| KotlinStrings.IndexOf | code-generator/common/src/main/kotlin/app/Parser.kt:83 | the first position where the text occurs, or -1 when it occurs nowhere |
| KotlinStrings.StartsWithIffPrefix | code-generator/common/src/main/kotlin/app/Parser.kt:95 | `startsWith` holds exactly when the text is the prefix followed by more text |
| KotlinStrings.TrimEnd | code-generator/common/src/main/kotlin/app/Parser.kt:47 | a prefix of the text that does not end in a stripped character, with only stripped characters removed |
| KotlinStrings.TrimEmptyIffBlank | code-generator/common/src/main/kotlin/app/Parser.kt:27-28 | trimming yields the empty string exactly on blank text |
| KotlinStrings.TrimEnds | code-generator/common/src/main/kotlin/app/Parser.kt:27 | a non-empty trimmed text has no whitespace at either end |
| KotlinStrings.TrimIdempotent | code-generator/common/src/main/kotlin/app/Parser.kt:50 | trimming an already trimmed text changes nothing |
| KotlinStrings.TrimIsSlice | code-generator/common/src/main/kotlin/app/Parser.kt:27 | `trim` keeps a middle slice of the text, dropping a blank prefix and a blank suffix, and the slice has no whitespace at either end |
| KotlinStrings.TrimEndThenTrim | code-generator/common/src/main/kotlin/app/Parser.kt:160 | `trimEnd(cs)` then `trim` keeps a slice of the text, dropping a blank prefix and a suffix of whitespace and characters of `cs` |
| KotlinStrings.RemoveChar | code-generator/common/src/main/kotlin/app/Parser.kt:117 | `replace(c, "")` keeps exactly the characters other than `c` |
| KotlinStrings.RemoveCharByChar | code-generator/common/src/main/kotlin/app/Parser.kt:117 | `replace(c, "")` works character by character: it distributes over concatenation, drops a lone `c` and keeps any other character, so the other characters stay in order |
| KotlinStrings.RemoveCharCounts | code-generator/common/src/main/kotlin/app/Parser.kt:117 | every character other than `c` is kept as often as it occurs, and no `c` is |
| Model.TermEqualsIsStructural | code-generator/common/src/main/kotlin/app/model/model.kt:8-15 | the hand-written `equals` (same class, same name, and for predicates equal arguments) holds exactly when the terms are identical |
| Model.ListEqualsIsStructural | code-generator/common/src/main/kotlin/app/model/model.kt:53-61 | two argument lists are equal element-wise, in order, exactly when the sequences are identical |
| Model.ClauseEqualsIsStructural | code-generator/common/src/main/kotlin/app/model/model.kt:74-82 | clauses are equal iff their heads are equal and their bodies have the same length and equal predicates position by position, i.e. iff they are identical |
| Model.AtomIsNotVariable | code-generator/common/src/main/kotlin/app/model/model.kt:10 | an Atom never equals a Variable or a Predicate with the same name |
| Model.Encode | code-generator/common/src/main/kotlin/app/model/model.kt:40-47 | the loop that adds the name's code and appends each argument's encoding computes `Encoding`; a missing key is an error |
| Model.EncodingIsPreOrder | code-generator/common/src/main/kotlin/app/model/model.kt:40-47 | encoding succeeds exactly when every name of the pre-order walk is a key; then it is the walk's codes; otherwise the error names the first unknown name of the walk |
| Model.EncodingAllIsPreOrder | code-generator/common/src/main/kotlin/app/model/model.kt:43-45 | the same for an argument list: success iff every name is known, the codes of the walk, or the first unknown name |
| Model.EncodingLength | code-generator/common/src/main/kotlin/app/model/model.kt:40-47 | a successful encoding has one integer per node of the tree and starts with the code of the root's name |
| Model.EncodingOfPredicate | code-generator/common/src/main/kotlin/app/model/model.kt:40-47 | when all arguments encode, a predicate encodes to its name's code followed by the arguments' encodings concatenated in order |
| Model.EncodingAllKeepsFirstError | code-generator/common/src/main/kotlin/app/model/model.kt:42-45 | once a prefix of the arguments fails, the remaining arguments do not change the error |
| Model.EncodingForgetsArity | code-generator/common/src/main/kotlin/app/model/model.kt:4-6 | `Atom(n)` and `Predicate(n, [])` differ but encode to the same `[mapping[n]]`, so the encoding cannot be decoded |
| Model.PreOrderSize | code-generator/common/src/main/kotlin/app/model/model.kt:40-47 | the pre-order walk visits each node of the tree once |
| Model.Codes | code-generator/common/src/main/kotlin/app/model/model.kt:5 | when every name is known, the codes are the mapping's value for each name, position by position |
| Parser.ParseTerm | code-generator/common/src/main/kotlin/app/Parser.kt:159-171 | fails (EmptyTerm) iff the text is empty once trailing dots and blanks are stripped; otherwise a non-predicate named by that text, a Variable exactly when its first character is upper-case |
| Parser.SpecialTermIndex | code-generator/common/src/main/kotlin/app/Parser.kt:143 | the first operator in table order that occurs in the text, no earlier operator occurring; -1 when none does |
| Parser.ParseSpecialPredicate | code-generator/common/src/main/kotlin/app/Parser.kt:139-156 | `""` gives `Predicate("", [])`; text with no operator (or that is the operator) is `parseTerm`; otherwise it succeeds iff the left piece parses as a term and the second piece as an operator expression, then the operator's name over the two; a failing left piece is the error, else a failing right piece |
| Parser.ListHead | code-generator/common/src/main/kotlin/app/Parser.kt:117 | the cleaned first element is no longer than the first comma piece, which is why the recursion on the rest shrinks |
| Parser.ParseConsCell | code-generator/common/src/main/kotlin/app/Parser.kt:122 | succeeds iff every bar-separated piece, trimmed, parses; then a `"."` cell whose argument `k` is the term of piece `k`; it fails only with an empty term |
| Parser.ParseListTerm | code-generator/common/src/main/kotlin/app/Parser.kt:114-136 | an empty cleaned first element gives `.()`; a failing first element is the error; with a comma, the cell of the element over `parseListTerm` of the re-sliced rest, whose failure is the error; without one, a cons-cell element as it is and any other element `x` as `.(x)` |
| Parser.AfterList | code-generator/common/src/main/kotlin/app/Parser.kt:99-100 | the text after the `]`, trimmed and without one leading comma, is shorter than what follows the `]` |
| Parser.ParseTerms | code-generator/common/src/main/kotlin/app/Parser.kt:93-112 | `""` gives `[]`; text not starting with `[` is one `parseTerm` per comma piece; with `[` but no `]` it fails; otherwise `parseListTerm` of the text up to the first `]`, then `parseTerms` of what follows when that is not empty, the first failure being the error |
| Parser.ParsePredicate | code-generator/common/src/main/kotlin/app/Parser.kt:80-91 | without an operator: the name before the first `(`, trimmed, over `parseTerms` of the argument text, and no `(` means no arguments; with an operator: the operator parse of the text before `(`, an error when that is not a predicate |
| Parser.TopLevelCommasExact | code-generator/common/src/main/kotlin/app/Parser.kt:64-69 | the cut positions are exactly the commas seen while both the bracket and the list depth are zero, in increasing order |
| Parser.TopLevelPieces | code-generator/common/src/main/kotlin/app/Parser.kt:58-78 | one piece more than there are top-level commas |
| Parser.SplitPredicates | code-generator/common/src/main/kotlin/app/Parser.kt:58-78 | the scan with the two depth counters returns the trimmed slices between consecutive top-level commas |
| Parser.ParseClause | code-generator/common/src/main/kotlin/app/Parser.kt:45-56 | without `:-`: the predicate of the text trimmed and stripped of trailing dots, with an empty body; with `:-`: a failing head is the error; otherwise it succeeds iff every top-level piece of the text after the first `:-` parses, then the body holds one predicate per piece, in order, and on failure the error is that of the first failing piece |
| Parser.CommentFreeLines | code-generator/common/src/main/kotlin/app/Parser.kt:22 | no line keeps a `%`, and no line is added |
| Parser.PreprocessPrologCode | code-generator/common/src/main/kotlin/app/Parser.kt:21-42 | the loop over the comment-free lines returns `Preprocess` of the code, including the unterminated pending text |
| Parser.ParseProlog | code-generator/common/src/main/kotlin/app/Parser.kt:7-18 | every preprocessed clause string is parsed, in order; the first failure is the result |
| ParserProperties.CompoundComparisonsNeverChosen | code-generator/common/src/main/kotlin/app/Parser.kt:4-5 | `>=` and `=<` are never the chosen operator, as `>` and `<` come earlier in the table |
| ParserProperties.HasSpecialTermIff | code-generator/common/src/main/kotlin/app/Parser.kt:83 | the operator branch is taken exactly when some operator of the table occurs in the text |
| ParserProperties.OperatorNames | code-generator/common/src/main/kotlin/app/Parser.kt:149-150 | each operator of the table gets its name in `TREE_NAMES`: the operator without its spaces, and `/` for ` div ` |
| ParserProperties.DivisionSharesName | code-generator/common/src/main/kotlin/app/Parser.kt:4-5 | ` div ` and `/` build the same tree, and no other two operators of the table share a name |
| ParserProperties.NoOperator | code-generator/common/src/main/kotlin/app/Parser.kt:83 | text without any operator character takes the plain predicate branch |
| ParserProperties.PlainCall | code-generator/common/src/main/kotlin/app/Parser.kt:83 | `name(args)` holds no operator when neither the name nor the arguments have an operator character |
| ParserProperties.PlainTerms | code-generator/common/src/main/kotlin/app/Parser.kt:105-107 | arguments `e0, e1, ...` without brackets, bars or commas give exactly one `parseTerm` per element |
| ParserProperties.PlainPredicate | code-generator/common/src/main/kotlin/app/Parser.kt:80-91 | `name(args)` that holds no operator of the table is the predicate `name` over `parseTerms(args)`, or fails with its error |
| ParserProperties.MergeLinesConcat | code-generator/common/src/main/kotlin/app/Parser.kt:26-39 | the merged strings, put together, are the pending text followed by every non-blank trimmed line plus a space: merging only regroups the text |
| ParserProperties.MergeLinesShape | code-generator/common/src/main/kotlin/app/Parser.kt:26-39 | every merged string is non-blank, free of `%` and line breaks, ends in a space, and every one but the last ends in `". "` |
| ParserProperties.CommentFreeLinesClean | code-generator/common/src/main/kotlin/app/Parser.kt:22 | the comment-free lines hold no `%` and no line break |
| ParserProperties.CommentFreeLinesByLine | code-generator/common/src/main/kotlin/app/Parser.kt:22 | the comment filter works line by line: it distributes over concatenation, drops a line starting with `%` and cuts any other at its first `%`, so the kept lines stay in order |
| ParserProperties.PreprocessShape | code-generator/common/src/main/kotlin/app/Parser.kt:21-42 | no clause string is blank or holds `%` or a line break; all but the last end in `". "`; together they are the comment-free trimmed non-blank lines, each plus a space, in order |
| ParserProperties.ParseClauseIgnoresSecondNeck | code-generator/common/src/main/kotlin/app/Parser.kt:46-50 | the text after a second `:-` plays no part in the clause |
| ParserProperties.NoTopLevelCommaOnePiece | code-generator/common/src/main/kotlin/app/Parser.kt:58-78 | a body without a comma outside brackets is one predicate, its trimmed text |
| ParserProperties.ListPlainStep | code-generator/common/src/main/kotlin/app/Parser.kt:116-130 | a plain first element is the head of a two-argument cell over the rest of the content parsed as a list |
| ParserProperties.ListElements | code-generator/common/src/main/kotlin/app/Parser.kt:114-136 | `n` plain elements before a last element give the right-nested chain of their terms ending in the last element's list; the first failing element decides the error |
| ParserProperties.ListLastPlain | code-generator/common/src/main/kotlin/app/Parser.kt:132-135 | a final plain element `x` is wrapped in the one-argument cell `.(x)` |
| ParserProperties.ListLastCons | code-generator/common/src/main/kotlin/app/Parser.kt:119-134 | a final element `H`, bar, `T` is the two-argument cell `.(H, T)` itself, not wrapped again |
| ParserProperties.LeadingBlankDropsRest | code-generator/common/src/main/kotlin/app/Parser.kt:128 | with one blank before a plain first element, the re-slice by the cleaned length starts at the comma, so the rest is lost and the chain ends in `.()` |
| ParserProperties.LeadingCommaIsEmpty | code-generator/common/src/main/kotlin/app/Parser.kt:116-118 | a content that starts with a comma is the empty cell `.()` |
| ParserProperties.ParseTrimmedText | code-generator/common/src/main/kotlin/app/Parser.kt:159-171 | a trimmed text without a trailing dot is a Variable if it starts upper-case and an Atom otherwise |
| ParserProperties.UnderscoreIsAtom | code-generator/common/src/main/kotlin/app/Parser.kt:168 | `_` is not upper-case, so `parseTerm("_")` is an Atom |
| ParserProperties.TermTextShape | code-generator/common/src/main/kotlin/app/Parser.kt:160 | the text `parseTerm` classifies is a slice of its input, dropping a blank prefix and a tail of blanks and dots, with no whitespace at either end |
| ParserProperties.ArgumentTextShape | code-generator/common/src/main/kotlin/app/Parser.kt:87 | the argument text is empty without `(`, else a slice of the text after the first `(` that drops a blank prefix and a tail of blanks, `)`, `.` and `,` |
| ParserExamples.AtomExample | code-generator/common/src/test/java/ParserTest.kt:7-10 | `parseTerm("a")` is the Atom `a` |
| ParserExamples.VariableExample | code-generator/common/src/test/java/ParserTest.kt:12-15 | `parseTerm("X")` is the Variable `X` |
| ParserExamples.PredicateExample | code-generator/common/src/test/java/ParserTest.kt:17-20 | `parsePredicate("p(a, X)")` is `p` over the Atom `a` and the Variable `X` |
| ParserExamples.TwoArgumentPredicate | code-generator/common/src/main/kotlin/app/Parser.kt:80-91 | `name(x, y)` with plain arguments, none holding an operator character, is `name` over the terms of `x` and `y` |
| ParserExamples.OneArgumentPredicate | code-generator/common/src/main/kotlin/app/Parser.kt:80-91 | `name(x)` with a plain argument, neither part holding an operator character, is `name` over the term of `x` |
| ParserExamples.PlainTwoArgumentCall | code-generator/common/src/main/kotlin/app/Parser.kt:83 | `name(x, y)` holds no operator when none of its parts has an operator character |
| ParserExamples.SplitExample | code-generator/common/src/test/java/ParserTest.kt:22-31 | `splitPredicates` keeps `q(X, Y)` whole in `q(X, Y), r(Y)` |
| ParserExamples.ClauseExample | code-generator/common/src/test/java/ParserTest.kt:22-32 | `parseClause("p(a, X) :- q(X, Y), r(Y)")` is the clause of the fixture |
| ParserExamples.TwoAtomFactExample | code-generator/common/src/test/java/ParserTest.kt:39 | `parsePredicate("s(a, b)")` is `s` over the Atoms `a` and `b` |
| ParserExamples.OneAtomFactExample | code-generator/common/src/test/java/ParserTest.kt:40 | `parsePredicate("t(b)")` is `t` over the Atom `b` |
| ParserExamples.PlainListExample | code-generator/common/src/test/java/ParserTest.kt:179 | the content `a, b, c` is `.(a, .(b, .(c)))` |
| ParserExamples.ConsListExample | code-generator/common/src/test/java/ParserTest.kt:183 | the content `a, b, c`, bar, `X` is `.(a, .(b, .(c, X)))` |
| ParserExamples.ThreePlainElements | code-generator/common/src/main/kotlin/app/Parser.kt:114-136 | any three plain elements give `.(a, .(b, .(c)))` |
| ParserExamples.TwoPlainElementsAndCons | code-generator/common/src/main/kotlin/app/Parser.kt:114-136 | plain texts `a, b, h`, bar, `t` give `.(a, .(b, .(h, t)))` |
| ParserExamples.PlainElementAndCons | code-generator/common/src/main/kotlin/app/Parser.kt:114-136 | plain texts `a, h`, bar, `t` give `.(a, .(h, t))` |
| ParserExamples.ShortConsListExample | code-generator/common/src/test/java/ParserTest.kt:201 | the content `a, b`, bar, `X` is `.(a, .(b, X))` |
| ParserExamples.EmptyListExample | code-generator/common/src/test/java/ParserTest.kt:207 | the argument `[]` is the one term `.()` |
| ParserExamples.LeadingBlankListExample | code-generator/common/src/main/kotlin/app/Parser.kt:128 | `[ a, b]` is `.(a, .())`: the blank after `[` loses `b` |
| ParserExamples.TrailingCommaExample | code-generator/common/src/main/kotlin/app/Parser.kt:126-129 | the content `a, ` is `.(a, .())` |
| ArithmeticExamples.IsExample | code-generator/common/src/test/java/ParserTest.kt:76-119 | `X is 1 + 2.` is `is(X, +(1, 2))` |
| ArithmeticExamples.SumExample | code-generator/common/src/test/java/ParserTest.kt:76-119 | `1 + 2.` is `+(1, 2)`, the trailing dot stripped |
| ArithmeticExamples.ArithmeticPredicateExample | code-generator/common/src/test/java/ParserTest.kt:76-119 | as a body predicate without `(`, the whole text `X is 1 + 2.` goes to the operator parser |
| ArithmeticExamples.DivExample | code-generator/common/src/test/java/ParserTest.kt:112-114 | ` div ` is renamed to `/` |
| ArithmeticExamples.SecondOperandOnly | code-generator/common/src/main/kotlin/app/Parser.kt:146-148 | `1 + 2 + 3` is `+(1, 2)`: only the text between the first and the second operator is kept |
| ArithmeticExamples.GreaterOrEqualExample | code-generator/common/src/main/kotlin/app/Parser.kt:143-148 | `X >= Y` splits at `>`, leaving the Atom `= Y` on the right |

## Left out

- `toString` and `hashCode`: string formatting and JVM hash arithmetic, with no behaviour the parser relies on.
- The tuple test (`ParserTest.kt:214-242`): `Parser.kt` has no tuple handling, so there is nothing to model; the model follows the code.
- The multi-clause `parseProlog` fixtures (`ParserTest.kt:34-211`) are not replayed whole; `PreprocessShape` and `ParseProlog` state the general behaviour of the pipeline. Replayed as lemmas are:
  - the clause `p(a, X) :- q(X, Y), r(Y)`;
  - the predicates `q(X, Y)`, `r(Y)`, `s(a, b)` and `t(b)`;
  - the body `X is 1 + 2.` and the operand `1 div 2`;
  - the list contents `a, b, c`, `a, b, c` bar `X` and `a, b` bar `X`, and the argument `[]`.
- Not replayed, for the same reason:
  - the clauses `q(X, Y) :- s(X, Y).` and `r(Y) :- t(Y).` as wholes;
  - the bodies with `-`, the inequality operator and `/`;
  - the arguments with several lists, `s([a, b, c],d)` and `t([a, b], [c, d])`.
- The comment fixture (`ParserTest.kt:122-162`) is covered by `Parser.CommentFreeLines` and `ParserProperties.PreprocessShape` rather than a literal replay.
- Unicode: `Char.isWhitespace`, `trim` and `Char.isUpperCase` are restricted to ASCII (whitespace 9-13, 28-32; upper case `A`-`Z`).
- Integer width: codes are unbounded integers, as the encoder only copies the caller's values and does no arithmetic.
- A decoder and a decode-after-encode lemma: the source has none, and `Model.EncodingForgetsArity` shows that the encoding is not injective.
- Kotlin exceptions are `Err` values, not thrown; the error messages' text is not modelled, only which error occurs and the offending text.
- Object identity (`this === other`) in `equals`: it is a shortcut, and in the model equality of values covers it.
- `StringBuilder` and the mutable lists are sequences that the methods reassign; there is no aliasing between them in the source.
