# Dudu compiler core: a verified model

Dudu compiles to C++. This project models the parts of the compiler whose correctness is an argument
rather than a habit, and proves the argument:

- **Array views** (`MachineInt`, `RowMajor`, `AxisOps`, `ArrayViews`, `ViewChains`, `SliceMeaning`,
  `StridedSpans`, `ArrayShapes`): n-dimensional views with offset, shape and strides on 64-bit words,
  slicing with indices, ranges, an ellipsis and new axes, flat indexing, and the shapes of nested
  literals. A view is modelled twice, with exact numbers and with the wrapped words that are stored;
  methods compute on the words and are proved against the exact view.
- **Shape-value expressions** (`ShapeLexer`, `ShapeParser`, `ShapeGrammar`, `ShapePrinter`, `ShapeEval`,
  `ShapeSubstitution`, `ShapeArithmetic`, `ShapeComposition`) and **type references** (`TypeRefs`,
  `TypeTheorems`, `TypeSubstitution`, `TypeComposition`, `TypeTexts`): lexer, parser, printer, evaluator,
  substitution with constant folding, and the equivalence relations built on them.
- **Control flow** (`Statements`, `ReturnAnalysis`, `ReturnSoundness`, `MatchCheck`,
  `ReturnExact`): a statement language with branch chains, loops and guarded matches, its meaning under
  any interpretation of expressions and simple statements, and the analysis that says a block returns.
- **Match lowering** (`MatchNames`, `CppTarget`, `MatchLowering`, `LoweringShape`, `DeclaredNames`,
  `PatternNames`, `PatternFields`, `LoweringCorrect`, `LoweringExact`): the emitted C++ as a small language
  with flat if chains, blocks that declare C++ names, match variables and an unreachable mark, the three
  shapes of emitted matches, the proof that they mean what the match means, and when exactly.
- **Definition order** (`DefinitionOrder`, `OrderPrefixes`, `DependencyGraph`): the depth-first ordering of
  classes and payload enumerations by what they need complete.
- **Text interner** (`Interner`): the shared table and the per-thread caches as a machine of
  interleaved steps.
- **Macro protocol** (`Wire`, `WireStreams`, `Schema`, `Codec`, `CodecRoundTrip`, `UnknownFields`,
  `FieldTrees`, `FieldMeaning`, `WireBytes`, `CodecStreams`): the byte format, the schema rules, and
  the encoder and decoder generated for any schema.
- **Local names** (`LocalNames`): escaping and discard names in emitted code.

`dafny verify dfyconfig.toml` checks the whole project.

What the proofs say about the code beyond its documentation:

- A match on plain values is never checked for exhaustiveness, but when all its cases return the
  emitted code ends in `__builtin_unreachable()`. Such a match is compiled correctly only if it has
  an unguarded `_` case or, on a type with finitely many values, an unguarded literal for each of them
  (`LoweringExact.ReturningMatchRightIff`, `MatchCheck.AcceptedPlainMatchNeedNotCover`).
- The body of a catch-all can be emitted without a block of its own. Its declarations then clash with
  those of the block around the match, hide outer names from what follows, and reuse discard names
  (`LoweringExact.ReturningMatchRightIff`, `LoweringExact.InlinedNameIsRedeclared`,
  `LoweringExact.HiddenNameRightIff`, `LoweringExact.DiscardIsRedeclared`). So do declarations in an
  unguarded case with the names of its pattern (`LoweringExact.PatternNameRedeclaredIff`).
- An initializer that mentions an outer variable of the name it declares reads the new variable
  (`LoweringExact.DeclarationRightIff`).
- A payload pattern declares its names as they are written, without the check of other locals, while uses
  of them are emitted like those of other locals. A pattern with a C++ keyword, a name with the prefix
  `dudu_local_`, a repeated name (also `_` twice), the variable its payload is read from or the flag of
  its match is accepted but compiled wrongly, and for a case that returns what it binds these are the
  only ones (`LoweringExact.CorrectIffNamesFit`, `PatternNames.DeclaredRightIffNamesFit`).
- The emitted count of a strided span overflows for large steps, where the array view of the same slice
  does not, and an unsigned step past 2^63 is an error of the view only
  (`StridedSpans.SpanAgreesWithViewIff`, `StridedSpans.LargestStepOverflows`).
- Folding an expression of value -2^63 produces a text that has no value
  (`ShapeSubstitution.FoldOfSmallestIntegerIsNotReadBack`); it is the only such value.
- Substituting for a number literal breaks the equivalence of shape values unless the literal is replaced
  by its own value (`ShapeSubstitution.EquivalenceKeptIffHarmless`).
- The return analysis does not see dead cases, such as a guarded `_` after cases for all constructors, and
  does not count `raise` as an end; apart from these it is exact (`ReturnExact.DeadCaseIsRejected`,
  `ReturnExact.EndingIsNotReturning`, `ReturnExact.AnalysisIsExact`).
- Constant folding makes substitution depend on its steps: two texts that have the same value for all names
  need not be equivalent (`ShapeComposition.SubstituteTwice`, `ShapeComposition.FoldedBindingIsNotEquivalent`).
- The text of a type keeps a path whose owner is substituted in the type itself
  (`TypeTexts.OwnerIsKeptInText`).
- `load_schema` accepts tags that the writer refuses (`UnknownFields.AcceptedTagCannotBeWritten`).
- An escaped local and an unbound name spelled like its escaped form are emitted alike
  (`LocalNames.UsesStayDifferent`).

## Model

| member | source | states |
|---|---|---|
| ViewChains.ReadThrough | src/dudu/codegen/cpp_emit_runtime_support.cpp:106-230 | for every chain of slices of an array, iterating the result reads as many elements as `size()` says, each at an address inside the array, no address twice, and every element of every coordinate of the result |
| ViewChains.ChainAddress | src/dudu/codegen/cpp_emit_runtime_support.cpp:111-121 | after any chain, the wrapped 64-bit address of each flat index is exactly the row-major rank of in-range coordinates of the source array, so it is inside the buffer |
| ViewChains.ChainDistinct | src/dudu/codegen/cpp_emit_runtime_support.cpp:111-121 | after any chain, two flat indices below `size()` never read the same address, also with 64-bit wrap-around |
| ViewChains.ChainRefines | src/dudu/codegen/cpp_emit_runtime_support.cpp:174-226 | an element of a chain of slices is the element of the source at coordinates that are in range |
| ViewChains.ChainInjective | src/dudu/codegen/cpp_emit_runtime_support.cpp:174-226 | different coordinates of a chain of slices stand for different coordinates of the source |
| ViewChains.ChainIsNoLarger | src/dudu/codegen/cpp_emit_runtime_support.cpp:174-226 | no chain of slices has more elements than what it slices, whatever axes it inserts |
| ViewChains.SliceRefines | src/dudu/codegen/cpp_emit_runtime_support.cpp:122-226 | `at` on a slice reads the address `at` on the source reads at mapped coordinates, which are in range and which the specs select |
| SliceMeaning.SliceReads | src/dudu/codegen/cpp_emit_runtime_support.cpp:174-226 | an array sliced with an ellipsis reads exactly the elements whose coordinates are wanted: an index wants its own, a range those between its bounds, where a negative bound counts from the end of the axis, that are a whole number of steps from the first one, and the axes at the ellipsis want all |
| SliceMeaning.PlainSliceReads | src/dudu/codegen/cpp_emit_runtime_support.cpp:174-226 | the same without an ellipsis, where the specs are for the first axes |
| SliceMeaning.SliceShape | src/dudu/codegen/cpp_emit_runtime_support.cpp:183-224 | the axes of a slice in order: none for an index, extent 1 for a new axis, for a range the number of coordinates it wants, and the axes at the ellipsis as they were |
| SliceMeaning.PlainSliceShape | src/dudu/codegen/cpp_emit_runtime_support.cpp:183-224 | the same without an ellipsis |
| SliceMeaning.RangeHits | src/dudu/codegen/cpp_emit_runtime_support.cpp:201-218 | a range is an error exactly when its step is not positive, and otherwise takes a coordinate of an axis exactly when it wants it, for every start and end |
| SliceMeaning.SlicesIff | src/dudu/codegen/cpp_emit_runtime_support.cpp:201-204 | a slice without surplus specs fails exactly when a step is not positive |
| ViewChains.OpsAddress | src/dudu/codegen/cpp_emit_runtime_support.cpp:199-219 | new offset plus new strides give the old address of the mapped coordinates, for any list of axis operations |
| ViewChains.FlatIsRowMajor | src/dudu/codegen/cpp_emit_runtime_support.cpp:111-130 | flat indexing at the row-major rank of coordinates reads what `at` reads at the coordinates, for any strides |
| ViewChains.ContiguousFlatIsIdentity | src/dudu/codegen/cpp_emit_runtime_support.cpp:111-168 | with contiguous strides and no offset, flat indexing is the identity on addresses |
| ViewChains.ContiguousPosition | src/dudu/codegen/cpp_emit_runtime_support.cpp:122-168 | with contiguous strides, `at` reads at the row-major rank |
| ViewChains.ChosenInRange | src/dudu/codegen/cpp_emit_runtime_support.cpp:111-121 | the exact address of each flat index of a chain is the rank of in-range source coordinates |
| ViewChains.SliceChain | src/dudu/codegen/cpp_emit_runtime_support.cpp:227-230 | slicing step by step on 64-bit fields gives the wrapped fields of the exact chain |
| ArrayViews.ArrayViewSlice | src/dudu/codegen/cpp_emit_runtime_support.cpp:174-226 | the loop over specs fails exactly when the plan of the specs does, and otherwise uses every source axis once and stores offset, shape and strides of the planned operations modulo 2^64 |
| ArrayViews.ApplySpecs | src/dudu/codegen/cpp_emit_runtime_support.cpp:185-221 | what the loop has built when it ends or breaks, with the axes that are left to be copied |
| ArrayViews.RangeAxis | src/dudu/codegen/cpp_emit_runtime_support.cpp:201-218 | the clamped range of an axis, as `SliceMeaning.RangeHits` describes it |
| ArrayViews.ComputeFill | src/dudu/codegen/cpp_emit_runtime_support.cpp:177-184 | how many axes an ellipsis stands for |
| ArrayViews.ArrayView.FlatIndex | src/dudu/codegen/cpp_emit_runtime_support.cpp:111-121 | the div/mod loop on wrapping words gives the wrapped address of the mixed-radix digits |
| ArrayViews.ArrayView.At | src/dudu/codegen/cpp_emit_runtime_support.cpp:122-130 | the multiply-add loop on wrapping words gives the wrapped exact address |
| ArrayViews.ArrayView.Size | src/dudu/codegen/cpp_emit_runtime_support.cpp:106-110 | the wrapped product of the shape, and 0 for rank 0 |
| ArrayViews.ArrayView.Iterate | src/dudu/codegen/cpp_emit_runtime_support.cpp:131-139 | iterating visits each flat index below the size once, in order |
| ArrayViews.ContiguousStrides | src/dudu/codegen/cpp_emit_runtime_support.cpp:156-162 | the loop from the last axis gives each axis the wrapped product of the extents after it |
| ArrayViews.MakeArrayView | src/dudu/codegen/cpp_emit_runtime_support.cpp:163-168 | a view of a whole array has its shape, contiguous strides and no offset |
| AxisOps.ExtentCounts | src/dudu/codegen/cpp_emit_runtime_support.cpp:211-217 | the extent formula counts exactly the k with start + k * step < end, and its 64-bit sum never wraps for int64 steps |
| AxisOps.MapSelects | src/dudu/codegen/cpp_emit_runtime_support.cpp:186-221 | mapped coordinates are ones the axis operations select |
| AxisOps.MapInjective | src/dudu/codegen/cpp_emit_runtime_support.cpp:186-221 | axis operations map different coordinates to different coordinates |
| AxisOps.MapOnto | src/dudu/codegen/cpp_emit_runtime_support.cpp:186-221 | every selected source coordinate is the image of some coordinate of the slice |
| AxisOps.SelectedInRange | src/dudu/codegen/cpp_emit_runtime_support.cpp:186-221 | selected source coordinates are in range |
| AxisOps.PlanFits | src/dudu/codegen/cpp_emit_runtime_support.cpp:183-224 | a plan whose indices are in range fits the axes of the source, one operation to an axis |
| AxisOps.EllipsisBindsTrailingAxes | src/dudu/codegen/cpp_emit_runtime_support.cpp:183-224 | with one ellipsis, specs before it bind to the first axes, specs after it to the last, and the axes between are kept whole |
| AxisOps.NoEllipsisBindsLeadingAxes | src/dudu/codegen/cpp_emit_runtime_support.cpp:186-224 | without an ellipsis, specs bind to the first axes and the others are kept whole |
| AxisOps.EllipsisSliceRank | src/dudu/codegen/cpp_emit_runtime_support.cpp:183-224 | with one ellipsis, rank of the result + indices = rank of the source + new axes |
| AxisOps.PlainSliceRank | src/dudu/codegen/cpp_emit_runtime_support.cpp:186-224 | the same without an ellipsis |
| AxisOps.SliceIsNoLarger | src/dudu/codegen/cpp_emit_runtime_support.cpp:199-219 | axis operations never enlarge an array |
| RowMajor.UnrankInRange | src/dudu/codegen/cpp_emit_runtime_support.cpp:111-121 | the digits of a flat index below the size are in-range coordinates |
| RowMajor.RankOfUnrank | src/dudu/codegen/cpp_emit_runtime_support.cpp:111-121 | rank inverts the digits of a flat index |
| RowMajor.UnrankOfRank | src/dudu/codegen/cpp_emit_runtime_support.cpp:111-121 | the digits invert the rank of in-range coordinates, so flat indices and coordinates correspond one to one |
| RowMajor.RankBelowProduct | src/dudu/codegen/cpp_emit_runtime_support.cpp:111-121 | ranks of in-range coordinates are below the number of elements |
| RowMajor.DotContiguous | src/dudu/codegen/cpp_emit_runtime_support.cpp:156-162 | contiguous strides weigh coordinates to their row-major rank |
| StridedSpans.SpanAgreesWithViewIff | src/dudu/codegen/cpp_expr_index.cpp:58-76 | for a slice expression with bounds 0 <= start <= end <= n of any C++ integer types, the emitted count is defined, the view path does not fail, and the span has the length and the addresses of the rank-1 view of the same slice, exactly when end - start + step fits the type the operands are converted to and the step fits 64 signed bits |
| StridedSpans.CountIsRightIffSumFits | src/dudu/codegen/cpp_expr_index.cpp:72-73 | computed operation by operation in the types of its operands, the emitted count is defined and counts the elements before the end exactly when that sum fits |
| StridedSpans.SizeEndAlwaysFits | src/dudu/codegen/cpp_expr_index.cpp:63-66 | with the unsigned `.size()` as end the sum fits for every step that 64 signed bits hold |
| StridedSpans.LargestStepOverflows | src/dudu/codegen/cpp_expr_index.cpp:72-73 | failing inputs: the largest value of a signed type as step overflows the count of every non-empty slice, and the largest of an unsigned type wraps it from two elements on |
| StridedSpans.LowerSpan | src/dudu/codegen/cpp_expr_index.cpp:58-76 | the expression emitted for a slice expression: undefined exactly where a signed sum does not fit, and otherwise right exactly when the sum fits |
| StridedSpans.PartsReadAlike | src/dudu/codegen/cpp_expr_slices.cpp:129-141 | both paths read the same bounds and step from a slice expression |
| StridedSpans.PartsResolve | src/dudu/codegen/cpp_expr_slices.cpp:129-155 | the slice expression resolves to the span's start, end and step on the view path, or is an error there when the step is past 64 signed bits |
| StridedSpans.CountIsUnique | src/dudu/codegen/cpp_emit_runtime_support.cpp:217 | only one count agrees with the elements before the end |
| StridedSpans.StridedSpan.Iterate | src/dudu/codegen/cpp_emit_runtime_support.cpp:241-249 | the `!=` loop stops exactly at its end after the counted elements |
| StridedSpans.StridedSpan.SameElement | src/dudu/codegen/cpp_emit_runtime_support.cpp:239-246 | positions of a span are compared by address without confusion |
| ArrayShapes.AcceptedIffRectangular | src/dudu/core/array_shape.cpp:66-90 | a literal is given a shape exactly when it is rectangular with that shape; with an empty list the extents below it are not determined and the shape is [0] |
| ArrayShapes.LiteralShape | src/dudu/core/array_shape.cpp:66-90 | the loop finds the shape, or the first child whose shape differs or is ragged |
| ArrayShapes.RaggedItem | src/dudu/core/array_shape.cpp:66-90 | the location of a ragged literal is that of an item, at some depth, that is the first of its list to differ in shape from the items before it |
| ArrayShapes.LeafCount | src/dudu/core/array_shape.cpp:66-90 | a rectangular literal has as many leaves as the product of its shape |
| ArrayShapes.LeafAtRank | src/dudu/core/array_shape.cpp:66-90 | walking the literal along coordinates reaches the leaf at their row-major rank |
| ArrayShapes.ViewReadsLeaf | src/dudu/codegen/cpp_emit_runtime_support.cpp:122-168 | a view with contiguous strides over the flattened literal reads the leaf found by walking |
| ArrayShapes.InferArrayLiteral | src/dudu/core/array_shape.cpp:128-157 | which of the four outcomes a literal has, and the inferred type and shape |
| ArrayShapes.InferredShapeIsExplicit | src/dudu/core/array_shape.cpp:103-124 | the explicit shape read from an inferred type is the inferred shape: its extents print and evaluate back |
| ArrayShapes.ChildType | src/dudu/core/array_shape.cpp:206-231 | the loop builds the child type, extents and text, that the recursion describes |
| ArrayShapes.PeelOnce | src/dudu/core/array_shape.cpp:206-231 | peeling an inferred type gives the inferred type of one less axis, and the element at the end |
| ArrayShapes.PeelingFollowsLiteral | src/dudu/core/array_shape.cpp:206-231 | peeling along any path into a literal gives the nested literal the extents it really has |
| ShapePrinter.RoundTrip | src/dudu/core/shape_value_expr.cpp:34-245 | printing with the fewest parentheses, then lexing and parsing gives the same tree, for every tree with number and identifier leaves |
| ShapeGrammar.ParsedIffWritten | src/dudu/core/shape_value_expr.cpp:99-197 | the parser accepts exactly the token lists that the grammar of signs, parentheses and left-associative operators of two levels allows, and builds the tree they stand for |
| ShapePrinter.PrintedIsShortest | src/dudu/core/shape_value_expr.cpp:234-245 | no way to write a tree without signs takes fewer tokens, so that every printed pair of parentheses is needed |
| ShapePrinter.NormalTextsAreDistinct | src/dudu/core/shape_value_expr.cpp:234-245 | equal normal texts are texts of equal trees |
| ShapePrinter.NormalTextIdempotent | src/dudu/core/shape_value_expr.cpp:343-346 | normalizing twice is normalizing once, on all texts |
| ShapePrinter.NormalTextDecidesTree | src/dudu/core/shape_value_expr.cpp:343-346 | valid texts have the same normal text exactly when they parse to the same tree |
| ShapePrinter.NormalTextEmptyIffInvalid | src/dudu/core/shape_value_expr.cpp:343-346 | the empty normal text means invalid and nothing else |
| ShapePrinter.LexPrint | src/dudu/core/shape_value_expr.cpp:34-245 | the tokens of a printed tree in any context |
| ShapeLexer.LexText | src/dudu/core/shape_value_expr.cpp:34-90 | the scanning loop gives the tokens of the recursive lexer |
| ShapeLexer.LexGood | src/dudu/core/shape_value_expr.cpp:34-90 | number and identifier tokens carry number and identifier texts, for any input |
| ShapeLexer.LexTrim | src/dudu/core/text.cpp:20-28 | trimming does not change the tokens |
| ShapeParser.Parser.ParseSum | src/dudu/core/shape_value_expr.cpp:125-141 | the loop over + and - consumes and builds what the grammar says, left to right |
| ShapeParser.Parser.ParseProduct | src/dudu/core/shape_value_expr.cpp:143-160 | the same for *, / and % |
| ShapeParser.Parser.ParseUnary | src/dudu/core/shape_value_expr.cpp:162-180 | signs: a plus is dropped, a minus subtracts from 0 |
| ShapeParser.Parser.ParsePrimary | src/dudu/core/shape_value_expr.cpp:182-197 | leaves and parentheses |
| ShapeParser.Parser.Match | src/dudu/core/shape_value_expr.cpp:117-123 | the cursor moves exactly when the kind matches |
| ShapeParser.ParseText | src/dudu/core/shape_value_expr.cpp:99-110 | the parser object gives the tree of the recursive grammar, or rejects |
| ShapeEval.ParseInteger | src/dudu/core/shape_value_expr.cpp:258-274 | a decimal text is read exactly when it is all digits and its value fits; the overflow test never misjudges a prefix |
| ShapeEval.EvalClosed | src/dudu/core/shape_value_expr.cpp:276-313 | a value found without bindings is the value under any bindings |
| ShapeArithmetic.OperatorMeans | src/dudu/core/shape_value_expr.cpp:276-313 | operands of values x and y give x + y, x - y and x * y where these fit 64 bits and overflow elsewhere, and no quotient or remainder by 0 |
| ShapeArithmetic.DivisionMeans | src/dudu/core/shape_value_expr.cpp:304-309 | if x == q * y + r with a remainder smaller than y and with the sign of x, the quotient is q and the remainder r, unless q does not fit |
| ShapeArithmetic.QuotientAndRemainder | src/dudu/core/shape_value_expr.cpp:298-309 | x / y * y + x % y is x for all 64-bit x and y other than 0, except that INT64_MIN / -1 overflows |
| ShapeArithmetic.AddThenSubtract | src/dudu/core/shape_value_expr.cpp:294-297 | x + y - y is x exactly where x + y does not overflow |
| ShapeArithmetic.TextSum | src/dudu/core/shape_value_expr.cpp:332-341 | the texts of the sum and the difference of two decimal numbers evaluate to these |
| ShapeArithmetic.TextProduct | src/dudu/core/shape_value_expr.cpp:332-341 | the text of the product of two decimal numbers evaluates to it, or overflows |
| ShapeArithmetic.TextQuotient | src/dudu/core/shape_value_expr.cpp:332-341 | the text of a quotient evaluates to the quotient, and to nothing by 0 |
| ShapeArithmetic.TextRemainder | src/dudu/core/shape_value_expr.cpp:332-341 | the text of a remainder evaluates to the remainder, and to nothing by 0 |
| ShapeArithmetic.ExtentsProduct | src/dudu/core/shape_value_expr.cpp:332-341 | the text of a product of extents evaluates to the number of elements exactly when no product on the way is too large |
| ShapeArithmetic.NameText | src/dudu/core/shape_value_expr.cpp:276-286 | a name evaluates to what it is bound to, and to nothing when it is not bound |
| ShapeArithmetic.UndefinedOperand | src/dudu/core/shape_value_expr.cpp:287-291 | an operand without a value leaves an operation without one |
| ShapeSubstitution.SubstituteEval | src/dudu/core/shape_value_expr.cpp:366-378 | substitution lemma: evaluating the substituted and perhaps folded text is evaluating the original where bound names have their values, undefined results included, exactly when the original with the bindings alone does not evaluate to -2^63; only names that occur in the text have to be bound to valid expressions |
| ShapeSubstitution.SubstituteNodeEval | src/dudu/core/shape_value_expr.cpp:315-330 | substitution lemma on trees, for every environment and any bindings of names that do not occur |
| ShapeArithmetic.ProductFolds | src/dudu/core/shape_value_expr.cpp:366-378 | substituting numbers for both names of a product gives the text of the number they multiply to |
| ShapeComposition.NamesAfterSubstitution | src/dudu/core/shape_value_expr.cpp:315-378 | a name occurs in the substituted text exactly when it is an unbound name of the text or one in the binding of a bound name, and the whole is not a constant |
| ShapeComposition.SubstituteTwice | src/dudu/core/shape_value_expr.cpp:366-378 | substituting by one set of bindings and then by another is substituting by the bindings of both, up to equivalence, exactly when the whole becomes a constant, or no bound name becomes a constant that is not written as one |
| ShapeComposition.SubstituteTwiceEval | src/dudu/core/shape_value_expr.cpp:366-378 | both ways have the same value under every binding of names, when no bound name becomes -2^63 |
| ShapeComposition.FoldedBindingIsNotEquivalent | src/dudu/core/shape_value_expr.cpp:366-378 | failing input: with N bound to A + y and then A to x, the sum N + M becomes x + y + M, but the sum of the numbers plus M with both at once |
| ShapeComposition.SubstituteNothing | src/dudu/core/shape_value_expr.cpp:366-378 | substituting nothing gives an equivalent text exactly when the text does not evaluate to -2^63 |
| ShapeSubstitution.FoldOfSmallestIntegerIsNotReadBack | src/dudu/core/shape_value_expr.cpp:374-376 | the exception: an expression of value -2^63 is folded to a text that has no value |
| ShapeSubstitution.IntegerTextEval | src/dudu/core/shape_value_expr.cpp:374-376 | the text of a folded value is read back for every 64-bit value but -2^63 |
| ShapeSubstitution.IntegerTextParses | src/dudu/core/shape_value_expr.cpp:374-376 | the tree the text of an integer parses to, negative ones as a subtraction |
| ShapeSubstitution.DigitsRoundTrip | src/dudu/core/shape_value_expr.cpp:258-274 | decimal digits are read back as the number, without bound |
| ShapeSubstitution.EquivalentMeans | src/dudu/core/shape_value_expr.cpp:380-392 | equivalence is decided by the trees and their closed values when both texts are valid, and by the trimmed texts otherwise |
| ShapeSubstitution.EquivalentIsEquivalence | src/dudu/core/shape_value_expr.cpp:380-392 | reflexive, symmetric and transitive on all texts, valid or not |
| ShapeSubstitution.EquivalentValidity | src/dudu/core/shape_value_expr.cpp:380-392 | a valid text is never equivalent to an invalid one |
| ShapeSubstitution.EquivalentSound | src/dudu/core/shape_value_expr.cpp:380-392 | equivalent texts have the same value, or both none, under every binding |
| ShapeSubstitution.EquivalentSubstitute | src/dudu/core/shape_value_expr.cpp:366-392 | equivalent texts become the same text under every substitution that is harmless: of names, and of number literals by expressions of their own values |
| ShapeSubstitution.EquivalenceKeptIffHarmless | src/dudu/core/shape_value_expr.cpp:366-392 | a substitution keeps all equivalent texts equivalent exactly when it is harmless |
| ShapeSubstitution.ConstantSubstitute | src/dudu/core/shape_value_expr.cpp:366-378 | a text with a closed value becomes that value's text under every harmless substitution |
| ShapeSubstitution.NamesAreHarmless | src/dudu/core/shape_value_expr.cpp:315-330 | a substitution of names is harmless |
| ShapeSubstitution.HarmfulKeyBreaksEquivalence | src/dudu/core/shape_value_expr.cpp:315-330 | any harmful binding of a number literal breaks equivalence: of two spellings of the number only one is replaced |
| TypeTheorems.TypeReflexive | src/dudu/core/ast_type.cpp:394-441 | a type is equivalent to itself exactly when it has no Unknown node |
| TypeTheorems.TypeSymmetric | src/dudu/core/ast_type.cpp:394-441 | equivalence is symmetric |
| TypeTheorems.TypeTransitive | src/dudu/core/ast_type.cpp:394-441 | equivalence is transitive |
| TypeTheorems.SubstituteCongruent | src/dudu/core/ast_type.cpp:524-569 | equivalent types stay equivalent, or both fail alike, under two substitutions of equivalent types with equal head names whose texts are harmless, through template heads, associated paths, values and malformed nodes |
| TypeTheorems.SubstituteKeepsEquivalence | src/dudu/core/ast_type.cpp:524-569 | the same for one substitution without Unknown nodes whose texts are harmless |
| TypeTheorems.InstancesStayEquivalent | src/dudu/core/ast_type.cpp:524-569 | instantiating parameters that are names, with types without Unknown nodes, keeps types equivalent, or fails alike on both |
| TypeTheorems.EquivalentTypesPrintAlike | src/dudu/core/ast_type.cpp:209-320 | equivalent types have the same substituted text, or the same error |
| TypeTheorems.SameTexts | src/dudu/core/ast_type.cpp:73-79 | equivalent substitutions have the same texts |
| TypeTheorems.ScopeOfTrimmed | src/dudu/core/ast_type.cpp:209-320 | whether a template prints with angle brackets does not depend on surrounding spaces |
| TypeSubstitution.BoundNameAlone | src/dudu/core/ast_type.cpp:524-541 | a bound name on its own becomes exactly what it is bound to |
| TypeSubstitution.BoundHead | src/dudu/core/ast_type.cpp:527-537 | a template with a bound head gets the head name of its binding, and keeps its arguments in order, each substituted |
| TypeSubstitution.BoundOwner | src/dudu/core/ast_type.cpp:543-551 | a path whose owner is bound becomes the member of what the owner is bound to |
| TypeSubstitution.SplitIff | src/dudu/core/ast_type.cpp:47-70 | a path is split into owner and member exactly at its last `.` or `::`, with neither side empty |
| TypeSubstitution.NamesAfter | src/dudu/core/ast_type.cpp:524-569 | a name occurs in the substituted type exactly when a name of the type becomes it: an unbound one stays, a bound one or the bound owner of a path becomes the names of its binding, and a bound template head the head name of its binding |
| TypeSubstitution.NothingSubstituted | src/dudu/core/ast_type.cpp:524-569 | the empty substitution gives an equivalent type exactly when no node is unknown and no value evaluates to -2^63 |
| TypeComposition.SubstituteTypeTwice | src/dudu/core/ast_type.cpp:524-569 | for types without Unknown nodes, substituting by s and then by u is substituting by s with u applied to its types, up to equivalence, exactly when every bound template head gets the same name both ways and every value composes as `ShapeComposition.SubstituteTwice` says |
| TypeComposition.NamedHeadAgrees | src/dudu/core/ast_type.cpp:527-537 | a template head that is bound to a name or to a template gets the same name both ways |
| TypeComposition.BoundToValue | src/dudu/core/ast_type.cpp:72-79 | a name of a value that is bound to a value is composed alike as a type and as a text |
| TypeComposition.BoundToName | src/dudu/core/ast_type.cpp:72-79 | so is one that is bound to a name, which the second substitution leaves or binds to a value |
| TypeTexts.SubstitutedTypeText | src/dudu/core/ast_type.cpp:209-320 | substituting in a type and printing it is substituting in its text, where no path has a bound owner, bound template heads are bound to plain names, and values keep their substituted text |
| TypeTexts.OwnerIsKeptInText | src/dudu/core/ast_type.cpp:209-320 | failing input: of a path with a bound owner only the type is substituted, and its text stays the path |
| TypeTexts.ResultSpelled | src/dudu/core/ast_type.cpp:556-567 | after substituting, every array shape has the texts of its new extents as its value, whatever it had before |
| TypeTexts.WrappersDiffer | src/dudu/core/ast_type.cpp:209-320 | pointers, the two kinds of references, the qualifiers and pack expansions of one type have different texts |
| TypeRefs.CompareTypes | src/dudu/core/ast_type.cpp:394-441 | the comparison with its loop over children decides equivalence |
| TypeRefs.ReplaceType | src/dudu/core/ast_type.cpp:524-569 | rewriting a copy node by node gives the substituted type of the laws above, or the error |
| TypeRefs.SubstituteChildren | src/dudu/core/ast_type.cpp:524-569 | the loop over children substitutes each, and stops at the first error |
| TypeRefs.AssociatedPath | src/dudu/core/ast_type.cpp:47-70 | only names with a bound owner are split into owner and member |
| ReturnAnalysis.BlockGuaranteesReturn | src/dudu/core/control_flow.cpp:38-51 | the loop with its by-reference index decides the recursive analysis |
| ReturnAnalysis.BranchChainGuaranteesReturn | src/dudu/core/control_flow.cpp:6-23 | a chain counts only if it ends in `else` and every branch returns, and the index is left on its last branch |
| ReturnAnalysis.MatchGuaranteesReturn | src/dudu/core/control_flow.cpp:25-35 | a match counts only if it has cases and every one returns |
| ReturnSoundness.AcceptedBlockNeverFallsThrough | src/dudu/core/control_flow.cpp:38-51 | no run of an accepted block completes normally, for every meaning of its parts, if its returning matches are exhaustive |
| ReturnSoundness.AcceptedCasesNeverFallThrough | src/dudu/core/control_flow.cpp:25-35 | the same for the cases of a match, when an unguarded case takes the value |
| ReturnSoundness.NeverFallsThroughIffCovers | src/dudu/core/control_flow.cpp:25-35 | a match whose cases all return never falls through, under all meanings and for all values of its subject's type, exactly when it is exhaustive: a catch-all, or an unguarded case for each constructor, or an unguarded literal for each value of a finite type; on a type without bound exactly when it has a catch-all |
| ReturnExact.NeverCompletesIff | src/dudu/core/control_flow.cpp:6-51 | for all blocks, also ones that raise, break or continue: no run of the block completes normally, under any typed meaning of its parts, exactly when its statements, chains and matches say so, where a match does if no value of its subject's type can get past its cases |
| ReturnExact.AnalysisIsExact | src/dudu/core/control_flow.cpp:6-51 | the analysis accepts a block exactly when no run of it completes normally, for all blocks that do not raise, break or continue outside of loops, where every case of a match has a value that arrives at it and returning matches are exhaustive |
| ReturnExact.LiveIff | src/dudu/core/control_flow.cpp:25-35 | on a wrapper or an enumeration some value arrives at a case exactly when it takes a constructor that no unguarded case before it takes |
| ReturnExact.AcceptedConstructorIsLive | src/dudu/sema/sema_match.cpp:102-246 | some value arrives at every constructor's case of a match that is accepted |
| ReturnExact.DeadCaseIsRejected | src/dudu/core/control_flow.cpp:25-35 | failing input: after returning cases for all constructors a guarded `_` is accepted, and no run completes normally, but the analysis rejects the block |
| ReturnExact.EndingIsNotReturning | src/dudu/core/control_flow.cpp:38-51 | failing input: a block that raises, breaks or continues never completes normally, but does not count as returning |
| MatchCheck.CheckMatch | src/dudu/sema/sema_match.cpp:102-313 | the loops over cases with their sets accept exactly what the recursive check accepts |
| MatchCheck.AcceptsIff | src/dudu/sema/sema_match.cpp:102-313 | a match is accepted exactly when nothing follows a catch-all, a catch-all has something left to take, every constructor is one of the type that no unguarded case before takes, and in the end there is a catch-all or every constructor is taken; of plain values only the first is asked |
| MatchCheck.AcceptedMatchCovers | src/dudu/sema/sema_match.cpp:102-246 | an accepted match on a wrapper or an enumeration is exhaustive, although cases are only counted |
| MatchCheck.AcceptedPlainMatchNeedNotCover | src/dudu/sema/sema_match.cpp:248-289 | a match whose only case is a returning literal is accepted on every plain type, but exhaustive only when the type has no other value |
| LoweringCorrect.BlockCorrect | src/dudu/codegen/cpp_match_emit.cpp:74-366 | a block is compiled to well-formed code that does what the block does under every meaning and in every scope: same case, bindings, declarations, guard order, effects, results and exceptions, for nested matches, loops and branches; provided no C++ block declares a name twice once catch-alls are inlined, no declaration hides a name that is still meant, the names of payload patterns fit, and matches whose cases all return are exhaustive |
| LoweringCorrect.BlockRuns | src/dudu/codegen/cpp_stmt_emit.cpp:531-543 | the runs of a lowered block are those of the block, also where a declaration shadows a name of an outer block |
| LoweringCorrect.DeclarationRuns | src/dudu/codegen/cpp_stmt_emit.cpp:172-232 | a declaration gives its value to its name: its initializer reads what the source reads unless it mentions an outer variable of that name, and a discarded value disturbs no name |
| LoweringExact.ReturningMatchRightIff | src/dudu/codegen/cpp_match_emit.cpp:74-100 | the code of a match whose cases all return is well-formed where it stands and behaves like the match under every meaning and in every scope, exactly when the match is exhaustive, no block in it declares a name twice, and neither its own variables nor what its inlined catch-all declares are declared in the block around it; on a type without bound only a catch-all makes it exhaustive |
| LoweringExact.UncoveredIsStuck | src/dudu/codegen/cpp_match_emit.cpp:99 | where such a match does not cover a value, there is a run with the program's own literals in which the source goes on and the code reaches its unreachable mark |
| LoweringExact.InlinedNameIsRedeclared | src/dudu/codegen/cpp_match_emit.cpp:84-88 | failing input: an exhaustive match in a block that returns, whose catch-all declares a name of the block around it, is emitted to a block that declares the name twice |
| LoweringExact.HiddenNameRightIff | src/dudu/codegen/cpp_match_emit.cpp:121-124 | a lone catch-all that declares a name and goes on is right exactly when the name is not bound around the match, as what follows reads the inner variable |
| LoweringExact.InlinedNameTakesGlobal | src/dudu/codegen/cpp_match_emit.cpp:121-124 | failing input: what an inlined catch-all declares is still in scope for a later use of a global of that name |
| LoweringExact.DiscardIsRedeclared | src/dudu/codegen/cpp_emit_context.hpp:41-48 | failing input: discarded values of an inlined catch-all and of what follows it are declared under one name |
| LoweringExact.DeclarationRightIff | src/dudu/codegen/cpp_stmt_emit.cpp:172-232 | a declaration is compiled right exactly when its initializer does not mention an outer variable of the name it declares |
| LoweringExact.PatternNameRedeclaredIff | src/dudu/codegen/cpp_match_emit.cpp:239-254 | a case that declares a name of its pattern is emitted to well-formed code exactly when it has a guard |
| LoweringExact.CorrectIffNamesFit | src/dudu/codegen/cpp_match_emit.cpp:218-329 | a case that returns something of what its pattern binds is compiled right, under every meaning, exactly when the names of the pattern are emitted as written, differ, and are neither the variable they are read from nor the flag of the match |
| LoweringCorrect.LoweredNeverStuck | src/dudu/codegen/cpp_match_emit.cpp:74-366 | no run of lowered code reaches an unreachable mark, reads a match variable that is missing or hidden, or takes a payload the subject does not hold |
| LoweringCorrect.FlagCorrect | src/dudu/codegen/cpp_match_emit.cpp:190-260 | the flag shape runs the first case whose pattern and guard hold, with the names its pattern binds |
| LoweringCorrect.OrderedCorrect | src/dudu/codegen/cpp_match_emit.cpp:102-170 | the else-if shape does, with the catch-all as `else` or inlined |
| LoweringCorrect.ReturningCorrect | src/dudu/codegen/cpp_match_emit.cpp:74-100 | the shape of separate ifs does, as taken bodies never fall through, and is stuck exactly where the source falls through |
| LoweringCorrect.MatchBodyCorrect | src/dudu/codegen/cpp_match_emit.cpp:182-366 | the same for whichever shape a match gets |
| LoweringCorrect.FlagTaken | src/dudu/codegen/cpp_match_emit.cpp:239-254 | after a taken case nothing else of the match runs, whatever the body did |
| LoweringCorrect.LoopCorrect | src/dudu/codegen/cpp_stmt_emit.cpp:440-448 | loops around matches run as in the source |
| DeclaredNames.BlockCompiles | src/dudu/codegen/cpp_match_emit.cpp:74-366 | for every block, the C++ names its code declares in its own block are the ones its declarations, matches and inlined catch-alls declare, and the code is well-formed exactly when no block declares a name twice |
| DeclaredNames.DeclarationsCompile | src/dudu/codegen/cpp_match_emit.cpp:218-238 | the declarations of a pattern are well-formed exactly when no name is a reserved word, the variable it is read from, or repeated |
| DeclaredNames.DeclaredKinds | src/dudu/codegen/cpp_match_emit.cpp:193-195 | of match variables, a block declares only subjects and flags of its own matches |
| MatchNames.MatchNamesDiffer | src/dudu/codegen/cpp_match_emit.cpp:193-195 | variables of matches at different places have different names, and so have the subject, the flag and the payload |
| MatchNames.InternalIsNotLocal | src/dudu/sema/sema_bindings.cpp:16-20 | no name that a program may declare, and no discard name, is spelled like a match variable; only pattern names, which are not checked, can be |
| PatternNames.DeclaredRightIffNamesFit | src/dudu/codegen/cpp_match_emit.cpp:218-329 | the declarations of a pattern and the setting of the flag are well-formed, leave the flag set and let the names read what the source binds, for every payload and scope, exactly when each name is emitted as it is written, no two are equal, and none is the variable they are read from or the flag |
| PatternNames.EscapedNameReadsOuter | src/dudu/codegen/cpp_expr_emit.cpp:71-77 | failing input: a pattern name with the escape prefix reads the outer local of that name instead of the payload |
| PatternNames.FlagNameIsOverwritten | src/dudu/codegen/cpp_match_emit.cpp:239-254 | failing input: a pattern name that is the flag of its match is overwritten, and the flag stays clear |
| PatternNames.FittingNamesBind | src/dudu/codegen/cpp_match_emit.cpp:218-238 | names emitted as written are read as the source binds them, in any scope |
| PatternNames.PatternBindingsCorrect | src/dudu/core/match_patterns.cpp:62-85 | the emitted bindings are the ones the pattern makes, positional and labelled ones with the right fields, in order |
| PatternFields.NameStandsForField | src/dudu/core/match_patterns.cpp:62-85 | in the case of a constructor pattern of an enumeration, the name in position i stands for the payload of the i-th field that the constructor declares, and a labelled name for the field of its label |
| PatternFields.WrapperNames | src/dudu/codegen/cpp_match_emit.cpp:218-238 | the name of `Some` and `Ok` stands for the value, and the name of `Err` for the error |
| PatternFields.OtherNamesStay | src/dudu/core/match_patterns.cpp:62-85 | names that the pattern does not have keep their meaning |
| PatternFields.DiscardStays | src/dudu/core/match_patterns.cpp:62-85 | `_` in a pattern stands for nothing, also when it is repeated |
| PatternFields.EmittedFieldStands | src/dudu/codegen/cpp_match_emit.cpp:313-329 | the i-th declaration that is emitted for a pattern declares its i-th name, from the i-th field or the field of the label |
| PatternNames.DeclarationsRun | src/dudu/codegen/cpp_match_emit.cpp:218-238 | running the declarations leaves the scope they build |
| LoweringShape.FlagConditionCorrect | src/dudu/codegen/cpp_match_emit.cpp:206-217 | the flag shape's condition is the pattern's, also where a wrapper only asks for its other constructor |
| LoweringShape.CaseConditionCorrect | src/dudu/codegen/cpp_match_emit.cpp:37-72 | a chain's condition is the pattern's and then the guard's |
| LoweringShape.AssignedByLowered | src/dudu/codegen/cpp_match_emit.cpp:193-200 | lowered code sets only the flags of its own matches |
| MatchLowering.EmitMatchBody | src/dudu/codegen/cpp_match_emit.cpp:182-366 | the choice between the shapes |
| MatchLowering.EmitFlagCases | src/dudu/codegen/cpp_match_emit.cpp:201-255 | the flag shape, case by case |
| MatchLowering.CollectBindings | src/dudu/core/match_patterns.cpp:62-85 | the loop over the arguments of a pattern collects its bindings in order, without labels of fields that do not exist |
| MatchLowering.EmitOrderedCases | src/dudu/codegen/cpp_match_emit.cpp:102-170 | one if chain up to the first catch-all |
| MatchLowering.EmitReturningCases | src/dudu/codegen/cpp_match_emit.cpp:74-100 | separate ifs up to the first catch-all, then the unreachable mark |
| MatchLowering.EmitStatement | src/dudu/codegen/cpp_stmt_emit.cpp:375-448 | branches, loops and matches statement by statement |
| MatchLowering.EmitBlock | src/dudu/codegen/cpp_stmt_emit.cpp:531-543 | statements in order |
| CppTarget.ExecKeeps | src/dudu/codegen/cpp_match_emit.cpp:193-200 | running code leaves the flags of other matches alone |
| CppTarget.ExecLeaves | src/dudu/codegen/cpp_match_emit.cpp:74-366 | running code leaves the variables of its block alone that it neither declares nor sets as a flag |
| CppTarget.ExecJoined | src/dudu/codegen/cpp_match_emit.cpp:102-170 | code that does not begin with an `else` runs after the code before it |
| DefinitionOrder.OrderIsSettled | src/dudu/codegen/cpp_emit_type_definitions.cpp:104-131 | on every graph the order is a permutation, and whatever a definition depends on comes before it or depends on it in turn |
| DefinitionOrder.OrderIsTopologicalIffAcyclic | src/dudu/codegen/cpp_emit_type_definitions.cpp:104-131 | dependencies come first exactly when no definition depends on itself through others, and so whenever any order can do it |
| DefinitionOrder.VisitKeeps | src/dudu/codegen/cpp_emit_type_definitions.cpp:104-120 | a visit keeps the invariant of emitted nodes, leaves the nodes being visited as they are, and begins its node |
| DefinitionOrder.PathsLeadBack | src/dudu/codegen/cpp_emit_type_definitions.cpp:104-131 | along dependencies a topological order only leads back |
| OrderPrefixes.FirstNeededFirst | src/dudu/codegen/cpp_emit_type_definitions.cpp:122-131 | on every graph and for every k, the first k definitions and all they depend on are emitted before anything else |
| OrderPrefixes.OrderedStays | src/dudu/codegen/cpp_emit_type_definitions.cpp:122-131 | definitions that are declared after all they depend on stay in their order |
| DefinitionOrder.Sorter.VisitDefinition | src/dudu/codegen/cpp_emit_type_definitions.cpp:104-120 | the recursive visit on the state vector, which terminates on cycles |
| DefinitionOrder.EmitOrder | src/dudu/codegen/cpp_emit_type_definitions.cpp:122-131 | visiting every definition in turn |
| DependencyGraph.DefinitionsInOrder | src/dudu/codegen/cpp_emit_classes.cpp:70-98 | every definition is emitted once, after every definition it needs complete, except those that need it in turn; for both variants of the ordering |
| DependencyGraph.GraphEdges | src/dudu/codegen/cpp_emit_type_definitions.cpp:69-102 | the edges of a definition are, in increasing order, the first definitions of the names it needs complete |
| DependencyGraph.CollectedAreMentions | src/dudu/codegen/cpp_emit_type_definitions.cpp:39-51 | collecting finds exactly the indexed names that a type mentions outside pointers and references |
| DependencyGraph.IndexIsFirst | src/dudu/codegen/cpp_emit_type_definitions.cpp:70-74 | the index of a name is its first definition |
| DependencyGraph.CollectDependencies | src/dudu/codegen/cpp_emit_classes.cpp:39-51 | the recursive collection appends to the list it is given |
| DependencyGraph.BuildGraph | src/dudu/codegen/cpp_emit_type_definitions.cpp:69-102 | the index and the dependency lists, sorted and without repeats |
| DependencyGraph.EmissionOrder | src/dudu/codegen/cpp_emit_classes.cpp:70-98 | the order of definitions, from their types |
| Interner.IdsAreTexts | src/dudu/core/source.cpp:81-98 | in every run of any number of threads, two issued ids are equal exactly when their texts are, so atoms may be compared by id |
| Interner.LookupsAnswer | src/dudu/core/source.cpp:100-119 | every lookup, from the cache or the table, answers the text the id was issued for, and the empty text for ids not issued by then |
| Interner.IssuedStays | src/dudu/core/source.cpp:81-98 | an issued id keeps its text for the rest of the run |
| Interner.LookupsFinish | src/dudu/core/source.cpp:100-119 | no cached pointer dangles, and a lookup that misses is answered when it has the lock |
| Interner.SecondLookupHits | src/dudu/core/source.cpp:100-119 | a text that was looked up with the lock is found without it the next time, also when other threads interned more texts in between |
| Interner.TableGrows | src/dudu/core/source.cpp:81-98 | the table of a run only grows at its end |
| Interner.TableWasIssued | src/dudu/core/source.cpp:81-98 | every id in the table was issued by some step before |
| Interner.StepKeeps | src/dudu/core/source.cpp:81-119 | every step of every thread keeps the table and all caches consistent |
| Interner.InternKeeps | src/dudu/core/source.cpp:81-98 | interning keeps ids, and fails exactly for a new text in a full table |
| Interner.SourceTextInterner.InternSourceText | src/dudu/core/source.cpp:81-98 | the method on the growing table, with its limit of 2^32 - 1 entries |
| Interner.ThreadCache.SourceTextFromId | src/dudu/core/source.cpp:100-119 | the method on the 64-slot arrays answers as the table does and keeps the cache valid |
| CodecRoundTrip.RoundTrip | scripts/generate_macro_ast.py:215-289 | for every accepted schema and encodable value, decoding the bytes gives the value back if the limits on frame, strings, nodes and depth are met, and fails if not; omitted empty strings and bytes come back |
| CodecRoundTrip.ItemRoundTrip | scripts/generate_macro_ast.py:172-212 | each field type is read back from what is written for it, with the nodes it costs |
| CodecRoundTrip.SlotRoundTrip | scripts/generate_macro_ast.py:230-272 | single, optional, repeated and omitted fields are read back |
| CodecRoundTrip.SmallTagsFit | src/dudu/macro/macro_wire.cpp:29-34 | with tags below 2^29 every value of a schema can be encoded |
| CodecRoundTrip.TagsFindFields | scripts/generate_macro_ast.py:256-262 | every tag finds its own field exactly when no two fields share one |
| FieldTrees.DecodesTree | scripts/generate_macro_ast.py:252-289 | decoding is the fold of the fields that were written, for every sequence of fields in any order with unknown ones anywhere: later items of a single field replace earlier ones, items of a repeated field are collected; it fails exactly past the limits |
| FieldTrees.UnknownFieldsDoNotMatter | scripts/generate_macro_ast.py:256-268 | any number of unknown fields, anywhere and also inside nested messages, do not change the decoded value or whether there is one |
| FieldTrees.PaddedRoundTrip | scripts/generate_macro_ast.py:215-289 | an encoded value with any number of unknown fields before, between and after its fields and the items of repeated ones, also inside nested messages, is decoded to the value exactly within the limits |
| FieldTrees.TreeIsEncoding | scripts/generate_macro_ast.py:230-250 | the fields of a value, written one by one, are its encoding |
| FieldMeaning.DecodedSlot | scripts/generate_macro_ast.py:252-272 | each slot of a decoded message holds all the items written for a repeated field, the last one of any other, and without items what the field is initialized to: nothing, 0 for a single scalar, an empty text for a single text |
| FieldMeaning.NothingWritten | scripts/generate_macro_ast.py:230-250 | nothing is written for a field exactly when it has no items or is a single text that is empty |
| WireBytes.TruncatedIsRejected | scripts/generate_macro_ast.py:252-289 | a message that is cut off is rejected, unless it is cut between two fields, when it is decoded to the fields before |
| WireBytes.LastByteMatters | scripts/generate_macro_ast.py:252-289 | a message without its last byte is rejected |
| UnknownFields.AcceptedTagCannotBeWritten | scripts/generate_macro_ast.py:62-67 | tags have no upper bound in an accepted schema: for each tag of 2^29 or more, an accepted schema and a value of it that cannot be written; in general that is `LargeTagUnfit` with `CodecStreams.EncodeInto` |
| UnknownFields.LargeTagUnfit | src/dudu/macro/macro_wire.cpp:29-34 | in any schema, a slot with such a tag can be encoded exactly when it is left out |
| UnknownFields.UnknownFieldIgnored | scripts/generate_macro_ast.py:256-268 | a field with an unknown tag after whole fields of a message does not change what that message is decoded to, or that it fails |
| UnknownFields.WrittenIsUnknown | src/dudu/macro/macro_wire.cpp:200-218 | whatever a writer writes for another tag is skipped whole |
| UnknownFields.RunLocal | scripts/generate_macro_ast.py:252-272 | decoding whole fields does not look at what follows them |
| CodecStreams.EncodeInto | scripts/generate_macro_ast.py:230-250 | encoding with a writer fails exactly when a tag that must be written does not fit a key, and otherwise appends the encoding |
| CodecStreams.EncodeItem | scripts/generate_macro_ast.py:172-187 | the write for a field type, nested messages with a writer of their own |
| CodecStreams.DecodeFrom | scripts/generate_macro_ast.py:252-272 | the generated loop, with the node count shared between nested readers |
| CodecStreams.DecodeItemFrom | scripts/generate_macro_ast.py:190-212 | the read for a field type |
| CodecStreams.DecodeRoot | scripts/generate_macro_ast.py:284-287 | decoding bytes within the frame limit |
| Schema.LoadSchema | scripts/generate_macro_ast.py:39-68 | the checks with growing sets accept exactly the well-formed schemas |
| Schema.FieldTypesExist | scripts/generate_macro_ast.py:56-58 | every field of an accepted schema has a type, and a message type is the one of its name |
| Wire.VarintRoundTrip | src/dudu/macro/macro_wire.cpp:36-118 | every 64-bit integer is read back, and the bytes after it are left |
| Wire.KeyRoundTrip | src/dudu/macro/macro_wire.cpp:29-131 | every tag and field type a writer accepts is read back |
| Wire.ZigZagRoundTrip | src/dudu/macro/macro_wire.cpp:53-155 | every signed 64-bit integer is read back from its zigzag form, which is small for small magnitudes |
| Wire.DelimitedRoundTrip | src/dudu/macro/macro_wire.cpp:69-175 | delimited bytes are read back |
| Wire.FixedRoundTrip | src/dudu/macro/macro_wire.cpp:59-163 | eight-byte words are read back |
| Wire.FrameRoundTrip | src/dudu/macro/macro_wire.cpp:220-258 | a frame can be written exactly up to 2^32 - 1 payload bytes, and is read back exactly within the reader's limit |
| WireBytes.FrameIff | src/dudu/macro/macro_wire.cpp:220-258 | a reader accepts exactly the bytes of frames that a writer can write and that are within its limit |
| WireBytes.VarintBytes | src/dudu/macro/macro_wire.cpp:36-42 | byte i of a variable-length integer has the seven bits from 7i on and says whether more follow, and no byte is wasted |
| WireBytes.LittleEndianBytes | src/dudu/macro/macro_wire.cpp:10-14 | byte i of a fixed word has the eight bits from 8i on |
| WireBytes.KeyIs | src/dudu/macro/macro_wire.cpp:29-34 | a key holds the tag above three bits, 0 for scalars, 1 for doubles and 2 for texts and messages |
| WireBytes.KeyRead | src/dudu/macro/macro_wire.cpp:120-131 | what a key is read as from any variable-length integer: 32 bits of the tag are kept, and 0 is an error |
| WireBytes.OtherTypes | src/dudu/macro/macro_wire.cpp:200-218 | of the field types that no writer writes, four bytes are skipped for 5, and the others are errors |
| WireBytes.ScalarRead | src/dudu/macro/macro_wire.cpp:133-155 | what a scalar is read as from any variable-length integer: a bool is true for all but 0, a u32 fails past 32 bits, an enumeration keeps 32 bits, and an i64 is unfolded from its zigzag form |
| WireStreams.Writer.WriteRawVarint | src/dudu/macro/macro_wire.cpp:36-42 | the shift loop appends the variable-length form |
| WireStreams.Writer.WriteKey | src/dudu/macro/macro_wire.cpp:29-34 | fails with nothing written exactly for unfit tags |
| WireStreams.Reader.ReadRawVarint | src/dudu/macro/macro_wire.cpp:107-118 | the shift-and-or loop on 64 bits reads the integer, or fails on truncation and after ten bytes |
| WireStreams.Reader.Next | src/dudu/macro/macro_wire.cpp:120-131 | the next key, the end, or an error |
| WireStreams.Reader.Skip | src/dudu/macro/macro_wire.cpp:200-218 | skipping moves past one field of each wire type |
| WireStreams.ReaderState.Enter | src/dudu/macro/macro_wire.cpp:81-90 | the depth and node limits of nested readers |
| LocalNames.EmittedNames | src/dudu/codegen/cpp_emit_options.hpp:103-109 | emitted names are never reserved words, and are equal only for equal names |
| LocalNames.UsesStayDifferent | src/dudu/codegen/cpp_emit_context.hpp:29-31 | when two uses of different names are emitted alike: only a bound, escaped name and its escaped form used unbound |
| LocalNames.CppLocalContext.Bind | src/dudu/codegen/cpp_emit_context.hpp:19-23 | a bound name is emitted as before exactly when it was bound before |
| LocalNames.CppLocalContext.BindDiscard | src/dudu/codegen/cpp_emit_context.hpp:41-48 | the search ends with the first free name from the counter on, which differs from every name the context emitted so far |
| LocalNames.BindEmitsNew | src/dudu/codegen/cpp_emit_context.hpp:19-23 | an emitted name is new to a context exactly when the name is |
| LocalNames.DiscardNames | src/dudu/codegen/cpp_emit_context.hpp:44 | discard names differ and are emitted unchanged |

## Left out

- Element values and aliasing of views: a view is its shape, strides and offset, and reading is the address it reads. The `data` pointer, `std::array` layout and writes through views are not modelled.
- Negative scalar indices and indices past an axis: `ViewChains.CanSlice` excludes them, as the code neither checks them nor gives them a meaning. Surplus specs and several ellipses are covered by the theorems on chains, while `AxisOps.EllipsisBindsTrailingAxes` and `AxisOps.NoEllipsisBindsLeadingAxes` say which axes specs bind to where there is at most one ellipsis and no surplus.
- `ArrayViews.ArrayView.Size`: rank 0 has size 0 as in the code, so the bijection of flat indices is about non-empty shapes.
- Extents of 2^63 or more: they do not fit the `int64_t` the slicing code converts them to.
- `ViewChains.ReadThrough`: arrays of 2^64 or more elements are excluded.
- `StridedSpans.SpanAgreesWithViewIff`: bounds outside 0 <= start <= end <= n are excluded, where the emitted pointer arithmetic is undefined; the `std::span` form without a step is the span with step 1. Operands narrower than `int` are promoted to it before any arithmetic. That a count of a wider type is narrowed in the braced initializer, and that the end pointer of a stepped span may lie past the buffer, are not modelled.
- Signed overflow in shape-value expressions: evaluation has an outcome `Overflow`, which the substitution lemma excludes, as the C++ arithmetic is undefined there.
- Hooks that print or compare types in other ways: they would add only easy members.
- Source locations, diagnostics texts and notes: errors are modelled by their presence, and by their message where a function returns it.
- `TypeComposition.SubstituteTypeTwice`: types with Unknown nodes are excluded, which are not equivalent to themselves, and so are keys of the second substitution that are no identifiers. The names of a value must be bound to valid expressions, and composed alike as types and as texts, as names and values are unless they evaluate to -2^63.
- `TypeTexts.SubstitutedTypeText`: template heads that are bound to other than plain names are excluded, whose text puts the arguments behind the whole text of the binding.
- `LoweringCorrect.BlockCorrect`: `for`, `try` and `except` statements, with the names they declare, are not modelled; `while` stands for loops. Other assignments and expressions are simple statements: any functions of bound names and state. A destructuring stands for several declarations.
- `LoweringCorrect.BlockCorrect`: a match subject is a value, and a bound name stands for a value or the place of a variable. That guards and bodies could change the subject through the emitted reference, or a payload through its binding, is not modelled, except where a flag takes the name.
- `LoweringCorrect.BlockCorrect`: blocks are as the parser and semantic analysis leave them, with branches after an `if`, wrapper patterns with one name, constants only on plain values, and locations that identify matches.
- `LoweringCorrect.BlockCorrect`: globals are part of the state. That one is spelled like an escaped local (`LocalNames.UsesStayDifferent`) or like a name that an inlined catch-all declared before its use (`LoweringExact.InlinedNameTakesGlobal`) is not part of its condition. A pattern name that a match inside the case uses for its own variables is excluded even where nothing reads it.
- Names of types in a context of locals.
- `ReturnSoundness.NeverFallsThroughIffCovers`: guards and compared expressions that are not literals may have any outcome, so a match that is exhaustive only because of what its guards say is not counted as such.
- `if constexpr` conditions and the text of emitted conditions: lowering produces a tree with a meaning, not C++ text.
- Generic wrapper types: references and `const` around a subject type, and `Result` with one argument.
- The sorting of dependency lists is a function; `std::sort` itself is not modelled.
- Emission of the text of definitions, modules, prelude, tests and headers.
- File name interning, which is text interning without a cache.
- Mutexes: a locked section is one step. That references into the table stay valid while it grows is modelled by positions in it.
- `UnknownFields.AcceptedTagCannotBeWritten`: a tag of 2^32 or more does not fit the 32 bits of the generated calls and `case` labels, so that the generated code is refused or converts it; that C++ rule is not modelled.
- The recursion of default values of nested messages: a message field nothing was decoded into is an empty slot. Encoded values always fill it.
- `Codec.Value` keeps a double as its 64 bits, so not-a-number patterns are read back unchanged.
- Schema versions and identity beyond the checks of `load_schema`, JSON parsing, generated Dudu code and SDK bridges.
- The parser, native header scanning, the macro host, the formatter, the language server, build scripts and extensions.
