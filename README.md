# brackit query engine core, modelled in Dafny

This project models the sequential core of brackit, an XQuery/JSONiq query
engine: the tuple algebra and the operators of its tuple pipeline (let
binding pulled through cursors and pushed through sinks, the debugging print
operator, grouping and the sequence aggregator), the optimizer's stage order
and its join recognition decision, the expression and function semantics
over sequences (the comma operator, cardinality helpers, `fn:deep-equal`,
the switch expression, `fn:empty`/`fn:exists`, the computed attribute,
text and comment constructors, `fn:codepoints-to-string`, the duration
component extractors, `jn:keys`, `bit:array-values`, `rename json`), the
ordering labels ("divisions") and document order of the in-memory d2linked
nodes, and the static and dynamic contexts (namespaces, variables, the
query context, the node store, function signatures, counters, `xs:gDay`).

Each Java source file of the core is one Dafny module. Value-like entities
(tuples, sequences, items, AST nodes, signatures) are datatypes; entities
whose fields the source updates in place (cursors, sinks, aggregators, the
grouping accumulator, iterators, node stores, contexts, d2linked nodes) are
classes whose methods say exactly what they change. Loops of the source are
methods with loop invariants, proved against specification functions, and
the properties the source promises are lemmas about those functions.

Semantics that live outside the core — atomic comparison and equality,
atomization, casts, string values, expression evaluation, a walker's AST
rewrite, the wall clock — are function-typed parameters. Shared modules:
`Base` (Option, Result, the engine's error codes, string helpers), `Jdm`
(names, atomics, nodes, items, sequences and their iterators), `Tuples`,
`Cursors` (the cursor protocol and the print stream) and `XQ` (AST node
types and comparison operators).

## Model

| member | source | states |
|---|---|---|
| Counter.Compare | src/main/java/org/brackit/query/atomic/Counter.java:58-67 | a three-valued comparison whose sign agrees with the order of the two values, as Long.compare and BigDecimal.compareTo answer |
| Counter.Counter.constructor | src/main/java/org/brackit/query/atomic/Counter.java:35-38 | a new counter holds 0 in long mode |
| Counter.Counter.Inc | src/main/java/org/brackit/query/atomic/Counter.java:44-56 | the value grows by exactly one and the counter itself is returned; below Long.MAX_VALUE it stays in long mode, at Long.MAX_VALUE it switches to BigDecimal mode (lv = -1) and never switches back |
| Counter.Counter.AsIntNumeric | src/main/java/org/brackit/query/atomic/Counter.java:40-42 | the numeric carries the counter's value; it is an Int64 exactly in long mode and an Int exactly in BigDecimal mode |
| Counter.Counter.Cmp | src/main/java/org/brackit/query/atomic/Counter.java:58-67 | the sign of the counter's value minus the argument's, in either mode and for either kind of numeric |
| Counter.CountTo | src/main/java/org/brackit/query/atomic/Counter.java:44-56 | n increments of a fresh counter give n, and the counter is in BigDecimal mode exactly when n exceeds Long.MAX_VALUE |
| GDay.DigitRunEnd | src/main/java/org/brackit/xquery/atomic/GDay.java:63-66 | the scan stops at the first non-digit or at the end, and every character it passed is a digit |
| GDay.Parse | src/main/java/org/brackit/xquery/atomic/GDay.java:48-79 | the cursor loop over the collapsed string gives the same result or error as the specification ParseGDay |
| GDay.ParseShape | src/main/java/org/brackit/xquery/atomic/GDay.java:58-75 | an accepted string is "---" and two digits that denote a day in 1..31; the timezone is present exactly when text follows, and is then what the timezone parser reads at position 5 |
| GDay.StringValue | src/main/java/org/brackit/xquery/atomic/GDay.java:147-152 | a day in 1..31 prints as "---", its two decimal digits (zero-padded) and the timezone string |
| GDay.StringValueRoundTrip | src/main/java/org/brackit/xquery/atomic/GDay.java:147-152 | parsing the printed form of a day without timezone gives that value back |
| GDay.ParseIsCanonical | src/main/java/org/brackit/xquery/atomic/GDay.java:48-79 | a string accepted without timezone is the canonical form: printing the parsed value gives the string back |
| GDay.ComponentsOf | src/main/java/org/brackit/xquery/atomic/GDay.java:92-125 | year, month, hours, minutes and micros are 0; day and timezone are the value's own |
| GDay.Cmp | src/main/java/org/brackit/xquery/atomic/GDay.java:127-133 | comparing a gDay is always a type error (err:XPTY0004) |
| GDay.Eq | src/main/java/org/brackit/xquery/atomic/GDay.java:135-144 | eq is a type error (err:XPTY0004) for a non-gDay operand, and for a gDay operand succeeds with true exactly when the instant comparison the type inherits answers 0 |
| GDay.EqSymmetric | src/main/java/org/brackit/xquery/atomic/GDay.java:135-144 | with an antisymmetric instant comparison, eq between two gDays gives the same answer either way round, and a gDay equals itself |
| CodepointsToString.IsLegal | src/main/java/org/brackit/xquery/function/fn/CodepointsToString.java:73-74 | a code point is accepted exactly when it is a legal XML character: tab, newline, carriage return, or in 0x20-0xD7FF, 0xE000-0xFFFD or 0x10000-0x10FFFF |
| CodepointsToString.Units | src/main/java/org/brackit/xquery/function/fn/CodepointsToString.java:80 | a code point takes one UTF-16 unit, or two exactly when it is 0x10000 or above |
| CodepointsToString.DecodeEncode | src/main/java/org/brackit/xquery/function/fn/CodepointsToString.java:68-84 | the assembled UTF-16 string reads back as exactly the code points given |
| CodepointsToString.CodepointsToString | src/main/java/org/brackit/xquery/function/fn/CodepointsToString.java:55-85 | the empty string for a null or empty argument; err:FOCH0001 exactly when some code point is illegal; otherwise a string that reads back as the code points |
| CodepointsToString.Execute | src/main/java/org/brackit/xquery/function/fn/CodepointsToString.java:55-85 | the corrected iterator loop gives the result of CodepointsToString |
| CodepointsToString.ExecuteAsWritten | src/main/java/org/brackit/xquery/function/fn/CodepointsToString.java:55-85 | the loop as written: empty for null or empty input, the error for an illegal code point, otherwise the first UTF-16 unit of each code point |
| CodepointsToString.AsWrittenAgreesOnBmp | src/main/java/org/brackit/xquery/function/fn/CodepointsToString.java:80 | below 0x10000 the first-unit result is the correct encoding |
| CodepointsToString.SupplementaryCounterexample | src/main/java/org/brackit/xquery/function/fn/CodepointsToString.java:80 | U+1F600 comes out as the lone unit 0xD83D, which does not read back as U+1F600; the corrected result is 0xD83D 0xDE00 |
| ExtractFromDuration.Extract | src/main/java/org/brackit/query/function/fn/ExtractFromDuration.java:67-137 | the empty sequence exactly when there is no argument or it is empty; 0 when the duration's type has no such component (years and months of a dayTimeDuration, days to minutes of a yearMonthDuration); otherwise the component, negated for a negative duration |
| ExtractFromDuration.ExtractNegation | src/main/java/org/brackit/query/function/fn/ExtractFromDuration.java:131-135 | flipping a duration's sign flips the sign of every extracted component |
| ExtractFromDuration.ExtractFirstArgument | src/main/java/org/brackit/query/function/fn/ExtractFromDuration.java:69-72 | only the first argument decides the result |
| Namespaces.IsPredefined | src/main/java/org/brackit/query/module/Namespaces.java:159-161 | exactly the predefined prefixes xml, xs, xsi, fn, local and err are predefined |
| Namespaces.Namespaces.constructor | src/main/java/org/brackit/query/module/Namespaces.java:106-108 | an outermost scope has no parent, no declarations, the JSONiq default function namespace and no default element namespace |
| Namespaces.Namespaces.Nested | src/main/java/org/brackit/query/module/Namespaces.java:110-114 | a nested scope has no declarations of its own and inherits the parent's default function and element namespaces |
| Namespaces.Namespaces.SetDefaultFunctionNamespace | src/main/java/org/brackit/query/module/Namespaces.java:124-126 | the default function namespace is replaced |
| Namespaces.Namespaces.SetDefaultElementNamespace | src/main/java/org/brackit/query/module/Namespaces.java:132-134 | the default element namespace is replaced |
| Namespaces.Namespaces.Declare | src/main/java/org/brackit/query/module/Namespaces.java:136-138 | the prefix now resolves to the new URI, replacing a local binding, and every other prefix resolves as before |
| Namespaces.Namespaces.ResolveUndeclared | src/main/java/org/brackit/query/module/Namespaces.java:140-157 | a prefix declared in no scope of the chain resolves through the predefined table, or to nothing |
| Namespaces.Namespaces.ResolveDeclared | src/main/java/org/brackit/query/module/Namespaces.java:140-151 | a prefix declared somewhere in the chain resolves to the binding of the nearest declaring scope (no declaring scope is deeper), never to the predefined table |
| Namespaces.Namespaces.Resolve | src/main/java/org/brackit/query/module/Namespaces.java:140-157 | a null or empty prefix resolves to nothing; a local declaration wins; an outermost scope without one falls back to the predefined table, else nothing |
| Variables.Variables.constructor | src/main/java/org/brackit/query/module/Variables.java:52-53 | a new table declares no variables and imports no tables |
| Variables.Variables.Resolve | src/main/java/org/brackit/query/module/Variables.java:71-91 | resolve answers the local declaration first, then the default context item for the focus and the default position, nothing for an undeclared last position, and otherwise the answer of the imports |
| Variables.Variables.LookupImportsFirst | src/main/java/org/brackit/query/module/Variables.java:83-90 | the imports are searched in import order: the answer is that of the first import knowing the name, and nothing exactly when no import knows it |
| Variables.Variables.ImportVariables | src/main/java/org/brackit/query/module/Variables.java:93-95 | the imported table is searched after all earlier imports; declarations are untouched |
| Variables.Variables.Declare | src/main/java/org/brackit/query/module/Variables.java:97-101 | the new variable replaces any earlier declaration of the name and is what the name now resolves to |
| Variables.Variables.DeclaredVariables | src/main/java/org/brackit/query/module/Variables.java:103-105 | exactly the variables declared in this table |
| QueryContext.BrackitQueryContext.constructor | src/main/java/org/brackit/query/BrackitQueryContext.java:89-93 | a new context has no external bindings, no pending update list, no context item or type, and no date or time fixed yet |
| QueryContext.BrackitQueryContext.AddPendingUpdate | src/main/java/org/brackit/query/BrackitQueryContext.java:114-119 | the update list is created on first use and updates are appended in order |
| QueryContext.BrackitQueryContext.ApplyUpdates | src/main/java/org/brackit/query/BrackitQueryContext.java:122-126 | the pending list, when there is one, is applied once; without one nothing happens |
| QueryContext.BrackitQueryContext.SetUpdateList | src/main/java/org/brackit/query/BrackitQueryContext.java:134-136 | the update list is replaced |
| QueryContext.BrackitQueryContext.Bind | src/main/java/org/brackit/query/BrackitQueryContext.java:139-144 | the name is bound to the sequence, replacing an earlier binding; every other name keeps its binding |
| QueryContext.BrackitQueryContext.Resolve | src/main/java/org/brackit/query/BrackitQueryContext.java:147-149 | an unbound name resolves to null |
| QueryContext.BrackitQueryContext.SetContextItem | src/main/java/org/brackit/query/BrackitQueryContext.java:157-162 | the context item is replaced; its type is recorded for a non-null item and kept for a null one |
| QueryContext.BrackitQueryContext.GetDateTime | src/main/java/org/brackit/query/BrackitQueryContext.java:205-207 | the clock is read on the first call only; later calls return the fixed dateTime |
| QueryContext.BrackitQueryContext.GetDate | src/main/java/org/brackit/query/BrackitQueryContext.java:210-212 | the date is computed once from the query's dateTime and kept |
| QueryContext.BrackitQueryContext.GetTime | src/main/java/org/brackit/query/BrackitQueryContext.java:215-217 | the time is computed once from the query's dateTime and kept |
| QueryContext.DateAndTimeAgree | src/main/java/org/brackit/query/BrackitQueryContext.java:205-217 | the dateTime, date and time a query sees all derive from the first clock reading |
| SimpleNodeStore.SimpleNodeStore.constructor | src/main/java/org/brackit/query/node/SimpleNodeStore.java:51-52 | a new store has no collections registered |
| SimpleNodeStore.SimpleNodeStore.Create | src/main/java/org/brackit/query/node/SimpleNodeStore.java:54-59 | a new collection of that name is registered under the name, replacing any earlier one |
| SimpleNodeStore.SimpleNodeStore.Drop | src/main/java/org/brackit/query/node/SimpleNodeStore.java:75-80 | an unregistered name fails with a document error and changes nothing; a registered name is removed and nothing else is |
| SimpleNodeStore.SimpleNodeStore.Lookup | src/main/java/org/brackit/query/node/SimpleNodeStore.java:82-98 | a registered collection is returned unchanged; otherwise a document loaded from the name is registered and returned, and a failed load is a document error that changes nothing |
| SimpleNodeStore.SimpleNodeStore.MakeDir | src/main/java/org/brackit/query/node/SimpleNodeStore.java:104-107 | always fails as unsupported |
| SimpleNodeStore.CreateThenLookup | src/main/java/org/brackit/query/node/SimpleNodeStore.java:54-98 | looking up a name just created finds the created collection, without loading anything |
| SimpleNodeStore.CreateThenDrop | src/main/java/org/brackit/query/node/SimpleNodeStore.java:54-80 | dropping a name just created succeeds and leaves the registry without that name |
| Keys.DistinctIsFirstOccurrences | src/main/java/io/brackit/query/function/json/Keys.java:81-96 | the names keys hands out are exactly the names at the first position of each string, in increasing position order |
| Keys.DistinctKeepsEachStringOnce | src/main/java/io/brackit/query/function/json/Keys.java:86-88 | no two names handed out have the same string, and every field name's string is among them |
| Keys.KeysIter.constructor | src/main/java/io/brackit/query/function/json/Keys.java:66-73 | a fresh iterator has not opened its argument and has collected no names |
| Keys.KeysIter.Next | src/main/java/io/brackit/query/function/json/Keys.java:74-99 | each next hands out the next distinct field name of the argument's objects, in order first seen, and null after the last |
| Keys.KeysIter.Drain | src/main/java/io/brackit/query/function/json/Keys.java:80-92 | the argument's iterator is read to its end and the names of every object among its items are collected |
| Keys.KeysIter.AddNames | src/main/java/io/brackit/query/function/json/Keys.java:83-90 | each name whose string was not seen before is collected, and its string recorded |
| Keys.KeysIter.Close | src/main/java/io/brackit/query/function/json/Keys.java:101-106 | the argument's iterator is closed if it was opened |
| ArrayValues.OutputLength | src/main/java/org/brackit/query/function/bit/ArrayValues.java:95-105 | over an array of items and flattening sequences, the iterator hands out one item per item and as many as a flattening sequence has |
| ArrayValues.OutputUpToPrefix | src/main/java/org/brackit/query/function/bit/ArrayValues.java:95-105 | what the first n values produce is what the array cut to n values produces |
| ArrayValues.ArrayValuesIter.constructor | src/main/java/org/brackit/query/function/bit/ArrayValues.java:81-85 | a fresh iterator has not fetched the values, has an empty deque and has handed out nothing |
| ArrayValues.ArrayValuesIter.Fill | src/main/java/org/brackit/query/function/bit/ArrayValues.java:98-102 | the evaluated items of a flattening value are added to the back of the deque, in order |
| ArrayValues.ArrayValuesIter.Pop | src/main/java/org/brackit/query/function/bit/ArrayValues.java:91-92 | removing the head of a non-empty deque hands out the next item of the array's output |
| ArrayValues.ArrayValuesIter.Take | src/main/java/org/brackit/query/function/bit/ArrayValues.java:95-105 | the value at the index is consumed: an item is handed out as it is, a flattening value hands out its first item, and an empty flattening value hands out nothing |
| ArrayValues.ArrayValuesIter.AllEmitted | src/main/java/org/brackit/query/function/bit/ArrayValues.java:95-108 | once every value is taken and the deque is empty, the whole output has been handed out |
| ArrayValues.ArrayValuesIter.NextAsWritten | src/main/java/org/brackit/query/function/bit/ArrayValues.java:88-109 | next as written: the next item of the output or null at its end, except that taking an empty flattening value with an empty deque fails on removeFirst |
| ArrayValues.ArrayValuesIter.Next | src/main/java/org/brackit/query/function/bit/ArrayValues.java:88-109 | next as intended: always the next item of the output, in array order, or null after the last |
| ArrayValues.ArrayValuesIter.PrefixOfOutput | src/main/java/org/brackit/query/function/bit/ArrayValues.java:95-105 | what the first k values produce is a prefix of the whole output |
| ArrayValues.Execute | src/main/java/org/brackit/query/function/bit/ArrayValues.java:72-78 | corrected: a null array gives null; any other array a sequence whose items are the array's output with empty flattening values passed over (see Findings) |
| ArrayValues.EmptyFlatteningCounterexample | src/main/java/org/brackit/query/function/bit/ArrayValues.java:95-104 | for the array [empty flattening sequence, x] the first next fails as written, while the corrected next hands out x |
| Signature.Make | src/main/java/org/brackit/xquery/jdm/Signature.java:45-50 | the short constructor keeps the result and parameter types, is not variadic and has no default context item type |
| Signature.MakeFull | src/main/java/org/brackit/xquery/jdm/Signature.java:52-57 | the full constructor keeps every argument |
| Signature.ParamsEqualFrom | src/main/java/org/brackit/xquery/jdm/Signature.java:106-111 | the parameter loop succeeds exactly when every remaining parameter pair is equal |
| Signature.Equals | src/main/java/org/brackit/xquery/jdm/Signature.java:90-112 | the same object is equal; a non-signature is not; otherwise equal exactly when the parameter counts, result types, variadic flags, default context item types (both absent or both present and equal) and all parameter types agree |
| Signature.EqualsReflexive | src/main/java/org/brackit/xquery/jdm/Signature.java:90-112 | equals is reflexive when the component equals are |
| Signature.EqualsSymmetric | src/main/java/org/brackit/xquery/jdm/Signature.java:90-112 | equals is symmetric when the component equals are |
| Signature.RestTextJoins | src/main/java/org/brackit/xquery/jdm/Signature.java:79-84 | the toString loop writes the parameters joined by ", " |
| Signature.ToString | src/main/java/org/brackit/xquery/jdm/Signature.java:75-88 | the text is "(", the parameter types joined by ", ", ") : " and the result type; "() : R" without parameters |
| SequenceAggregator.Aggregate | src/main/java/io/brackit/query/util/aggregator/SequenceAggregator.java:57-68 | the aggregate of non-null sequences is null exactly when none was added |
| SequenceAggregator.AggregateItems | src/main/java/io/brackit/query/util/aggregator/SequenceAggregator.java:57-68 | the aggregate's items are the concatenation of the added sequences' items |
| SequenceAggregator.CopyOf | src/main/java/io/brackit/query/util/aggregator/SequenceAggregator.java:51 | the copy has the new length, holds the old entries and pads with null |
| SequenceAggregator.SequenceAggregator.constructor | src/main/java/io/brackit/query/util/aggregator/SequenceAggregator.java:42-43 | a new aggregator holds nothing in a five-slot buffer |
| SequenceAggregator.SequenceAggregator.Add | src/main/java/io/brackit/query/util/aggregator/SequenceAggregator.java:46-54 | null is ignored; any other sequence is appended, a full buffer first growing to length*3/2+1 |
| SequenceAggregator.SequenceAggregator.GetAggregate | src/main/java/io/brackit/query/util/aggregator/SequenceAggregator.java:57-68 | the aggregate of the contents, which stay as they were; for two or more the buffer is cut to exactly their number |
| SequenceAggregator.SequenceAggregator.Clear | src/main/java/io/brackit/query/util/aggregator/SequenceAggregator.java:71-76 | the aggregator is emptied; a new five-slot buffer replaces the old one only when more than one sequence was held |
| SequenceAggregator.AddAllThenAggregate | src/main/java/io/brackit/query/util/aggregator/SequenceAggregator.java:46-68 | adding sequences then asking for the aggregate concatenates the non-null ones, and asking again gives the same answer |
| RenameJsonField.TargetObject | src/main/java/org/brackit/query/update/json/RenameJsonField.java:67-90 | the target is accepted exactly when it has one item and that item is an object; no items is the empty-target error, anything else the not-a-valid-target error |
| RenameJsonField.Evaluate | src/main/java/org/brackit/query/update/json/RenameJsonField.java:66-98 | with a valid target one rename of the old name to a name made from the new name's string is appended to the pending updates and null is returned; an invalid target raises its error and leaves the pending updates as they were |
| RenameJsonField.IsUpdating | src/main/java/org/brackit/query/update/json/RenameJsonField.java:101-103 | the expression is updating |
| RenameJsonField.IsVacuous | src/main/java/org/brackit/query/update/json/RenameJsonField.java:106-108 | the expression is not vacuous |
| Grouping.KeyOf | src/main/java/org/brackit/xquery/util/aggregator/Grouping.java:112-120 | a key column is null exactly when the column has no items and an error exactly when it has two or more; a single item is atomized, an untyped-atomic value cast to xs:string, so no key entry is untyped |
| Grouping.KeysOf | src/main/java/org/brackit/xquery/util/aggregator/Grouping.java:108-124 | the grouping key succeeds exactly when every grouping column does, with one entry per grouping position, each that column's key |
| Grouping.KeysOfFirstError | src/main/java/org/brackit/xquery/util/aggregator/Grouping.java:110-122 | a failing grouping key fails with the error of a grouping column that fails |
| Grouping.KeysOfErrPropagates | src/main/java/org/brackit/xquery/util/aggregator/Grouping.java:110-122 | once an earlier grouping column fails, the later columns do not change the error |
| Grouping.GroupingKeys | src/main/java/org/brackit/xquery/util/aggregator/Grouping.java:108-124 | the loop computes the grouping key of the tuple |
| Grouping.Cmp | src/main/java/org/brackit/xquery/util/aggregator/Grouping.java:126-137 | two keys match exactly when, at every grouping position, both are null or both are present and compare equal |
| Grouping.OnlyFirstIffSingle | src/main/java/org/brackit/xquery/util/aggregator/Grouping.java:85-98 | a position takes only a group's first tuple exactly when its aggregation is SINGLE |
| Grouping.LayoutSpecs | src/main/java/org/brackit/xquery/util/aggregator/Grouping.java:82-84 | the input positions take the default aggregation, the grouping positions SINGLE and the extra positions their own aggregation |
| Grouping.LayoutOnlyFirst | src/main/java/org/brackit/xquery/util/aggregator/Grouping.java:85-98 | the positions that take only the first tuple are the grouping positions, every input position under a SINGLE default, and the SINGLE extra positions |
| Grouping.Grouping.constructor | src/main/java/org/brackit/xquery/util/aggregator/Grouping.java:56-62 | the grouping keeps its specification and lays out nothing until the first tuple |
| Grouping.Grouping.WithSize | src/main/java/org/brackit/xquery/util/aggregator/Grouping.java:64-71 | the grouping is laid out at once for tuples of the given width, all aggregators empty |
| Grouping.Grouping.Init | src/main/java/org/brackit/xquery/util/aggregator/Grouping.java:73-102 | init takes effect only once: it lays out one aggregator per input and extra position, all empty, with an empty group |
| Grouping.Grouping.GetSize | src/main/java/org/brackit/xquery/util/aggregator/Grouping.java:104-106 | the number of tuples in the current group |
| Grouping.Grouping.Clear | src/main/java/org/brackit/xquery/util/aggregator/Grouping.java:139-148 | every aggregator is emptied and the group size reset; the held key stays |
| Grouping.Grouping.AddInternal | src/main/java/org/brackit/xquery/util/aggregator/Grouping.java:176-202 | every aggregator is fed its column of the tuple, except null columns and, after the group's first tuple, the positions that take only the first; the group grows by one |
| Grouping.Grouping.Add | src/main/java/org/brackit/xquery/util/aggregator/Grouping.java:150-161 | the held key is replaced by the tuple's key even when it does not match; a tuple whose key does not match the previous one is not fed and changes no aggregator; otherwise it is fed; a failing key is raised with nothing changed |
| Grouping.Grouping.AddWithKey | src/main/java/org/brackit/xquery/util/aggregator/Grouping.java:163-174 | a key that does not match the held one changes nothing; otherwise the key is held and the tuple fed |
| Grouping.Grouping.Emit | src/main/java/org/brackit/xquery/util/aggregator/Grouping.java:204-210 | one slot per aggregator, each that aggregator's aggregate |
| Grouping.Grouping.SingleEmit | src/main/java/org/brackit/xquery/util/aggregator/Grouping.java:212-224 | the tuple unchanged, followed by the aggregate of each extra position |
| XQ.Swap | src/main/java/org/brackit/query/compiler/optimizer/walker/topdown/JoinRewriter.java:98-110 | swapping the sides of a comparison keeps = and != and exchanges < with > and <= with >= |
| XQ.SwapInvolutive | src/main/java/org/brackit/query/compiler/optimizer/walker/topdown/JoinRewriter.java:98-110 | swapping twice restores the operator |
| CmpUtil.CmpOf | src/main/java/org/brackit/xquery/compiler/optimizer/walker/topdown/CmpUtil.java:51-61 | every value and general comparison node type has its operator; any other node type is an illegal argument |
| CmpUtil.CmpTypeRoundTrip | src/main/java/org/brackit/xquery/compiler/optimizer/walker/topdown/CmpUtil.java:51-72 | an operator survives the trip through its node type, and every comparison node type survives the trip through its operator |
| CmpUtil.IsGCmpOfType | src/main/java/org/brackit/xquery/compiler/optimizer/walker/topdown/CmpUtil.java:63-79 | a node type counts as a general comparison exactly when it is general and its operator is not != |
| JoinRewriter.Trim | src/main/java/org/brackit/query/compiler/optimizer/walker/topdown/JoinRewriter.java:114-137 | where the trimming loop stops, both positions are still inside their scope lists |
| JoinRewriter.TrimSeparates | src/main/java/org/brackit/query/compiler/optimizer/walker/topdown/JoinRewriter.java:119-137 | where trimming stops, the remaining left scopes begin strictly before the remaining right scopes |
| JoinRewriter.DisjointNeedsNoTrim | src/main/java/org/brackit/query/compiler/optimizer/walker/topdown/JoinRewriter.java:119-137 | when every left scope precedes every right scope, trimming stops at once |
| JoinRewriter.LeftAfterRightNeverJoins | src/main/java/org/brackit/query/compiler/optimizer/walker/topdown/JoinRewriter.java:119-124 | a left side beginning at or after the right side's last scope runs out, and the selection stays |
| JoinRewriter.TrimOverlap | src/main/java/org/brackit/query/compiler/optimizer/walker/topdown/JoinRewriter.java:114-137 | the trimming loop computes the trimmed positions, or that one side ran out |
| JoinRewriter.FindRightInRoot | src/main/java/org/brackit/query/compiler/optimizer/walker/topdown/JoinRewriter.java:143-152 | the walk up finds the first ancestor opening the right side before any pipeline boundary; a boundary first leaves the selection; walking past the root is a null pointer error |
| JoinRewriter.WithLast | src/main/java/org/brackit/query/compiler/optimizer/walker/topdown/JoinRewriter.java:168-173 | the copy keeps the node's type, properties and all children but the last, which is replaced |
| JoinRewriter.CopyDownFollowsPath | src/main/java/org/brackit/query/compiler/optimizer/walker/topdown/JoinRewriter.java:163-178 | the copied right pipeline passes copies of the nodes from the right side's root down to the selection and ends in End over the right expression |
| JoinRewriter.JoinShape | src/main/java/org/brackit/query/compiler/optimizer/walker/topdown/JoinRewriter.java:155-191 | the join has the left input Start(End(left)), the copied right input, an empty post pipeline and the selection's continuation, with properties cmp and GCmp, and skipSort exactly when ordering is not ordered |
| JoinRewriter.Visit | src/main/java/org/brackit/query/compiler/optimizer/walker/topdown/JoinRewriter.java:59-153 | the outcome in every case: non-selections, non-comparison predicates, excluded operators, static operands, sides that trim to nothing and a pipeline boundary met first leave the node unchanged; a selection without children or with fewer than three predicate children is an illegal-state error, an unknown operator an illegal-argument error, walking past the root a null pointer error; when the walk reaches the ancestor opening the right side the result is the join built there (or a null pointer error off the last-child spine), and conversely every rewrite is of this kind |
| JoinRewriter.Oriented | src/main/java/org/brackit/query/compiler/optimizer/walker/topdown/JoinRewriter.java:98-137 | after the sides are oriented the left side's last scope is not after the right side's, and where trimming stops the left scope comes strictly first |
| JoinRewriter.SpineCheck | src/main/java/org/brackit/query/compiler/optimizer/walker/topdown/JoinRewriter.java:167-175 | decides whether the nodes from the right side's root down to the selection follow each other as last children |
| JoinRewriter.LastBefore | src/main/java/org/brackit/query/compiler/optimizer/walker/topdown/JoinRewriter.java:213-220 | the right reference scope picked is the last one preceding the join's scope; none is picked exactly when none precedes it |
| JoinRewriter.AdjustTarget | src/main/java/org/brackit/query/compiler/optimizer/walker/topdown/JoinRewriter.java:230-237 | the target moves to the parent of the last left reference scope after the target scope when there is one, and stays at the target scope's node otherwise |
| JoinRewriter.PushRightInput | src/main/java/org/brackit/query/compiler/optimizer/walker/topdown/JoinRewriter.java:206-257 | the left input's root is the first ancestor of the join that is a Start or the target; the join stays when that root is its parent and it is the last child, else the section above it is relocated; it is a null pointer error exactly when no ancestor is a Start or the target |
| Tuples.ToArray | src/main/java/io/brackit/query/Tuple.java:53-58 | the array holds the tuple's columns in order |
| Tuples.Project | src/main/java/io/brackit/query/Tuple.java:60-65 | the projection has one column per given position, each the tuple's column at that position |
| Tuples.ProjectRange | src/main/java/io/brackit/query/Tuple.java:67-72 | the range projection holds the columns from start up to end, in order |
| Tuples.Replace | src/main/java/io/brackit/query/Tuple.java:74-80 | the copy has the sequence at the position and every other column unchanged |
| Tuples.Concat | src/main/java/io/brackit/query/Tuple.java:82-87 | the copy has the tuple's columns followed by the sequence |
| Tuples.ConcatAll | src/main/java/io/brackit/query/Tuple.java:89-94 | the copy has the tuple's columns followed by the given sequences, in order |
| Tuples.Conreplace | src/main/java/io/brackit/query/Tuple.java:96-102 | the copy has the appended sequence at the end, the replacing sequence at the position and every other column unchanged |
| Tuples.ConreplaceAll | src/main/java/io/brackit/query/Tuple.java:104-110 | the copy has the appended sequences after the tuple's columns, the replacing sequence at the position and every other column unchanged |
| Tuples.ProjectRangeIsProject | src/main/java/io/brackit/query/Tuple.java:60-72 | projecting a range is projecting the positions of that range |
| Tuples.ConcatProjectRoundTrip | src/main/java/io/brackit/query/Tuple.java:67-87 | projecting an extended tuple back to its old width restores the tuple, and the appended column is the sequence |
| Tuples.ConcatAllIsConcats | src/main/java/io/brackit/query/Tuple.java:82-94 | appending several sequences is appending them one at a time |
| Tuples.ReplaceLaws | src/main/java/io/brackit/query/Tuple.java:74-80 | replacing a column by itself changes nothing, and a second replace at the same position overrides the first |
| ExprUtil.AsItemOf | src/main/java/org/brackit/xquery/util/ExprUtil.java:48-65 | null for a sequence without items, the item for a single item, and an inappropriate-type error exactly for two or more items |
| ExprUtil.AsItem | src/main/java/org/brackit/xquery/util/ExprUtil.java:48-65 | the iterator loop yields what AsItemOf says; no iterator is opened for null or an item, and an opened one is closed on every exit |
| ExprUtil.MaterializedOf | src/main/java/org/brackit/xquery/util/ExprUtil.java:67-94 | materializing keeps the items: null and items are returned as they are, no items give null, one item the item, more an item sequence |
| ExprUtil.Materialize | src/main/java/org/brackit/xquery/util/ExprUtil.java:67-94 | the buffering loop yields what MaterializedOf says; an opened iterator is closed on every exit |
| EmptySequence.Answer | src/main/java/org/brackit/xquery/function/fn/EmptySequence.java:53-70 | fn:empty answers true exactly when the argument has no items, fn:exists exactly when it has some |
| EmptySequence.EmptyIsNotExists | src/main/java/org/brackit/xquery/function/fn/EmptySequence.java:53-70 | fn:empty is the negation of fn:exists on every argument |
| EmptySequence.Execute | src/main/java/org/brackit/xquery/function/fn/EmptySequence.java:53-70 | one iterator step decides the answer and the iterator is closed afterwards; none is opened for null or an item |
| SwitchExpr.Atomized | src/main/java/org/brackit/query/expr/SwitchExpr.java:56-61 | an evaluateToItem error (err:XPTY0004 for two or more items) is raised; a null result stays null; an item is atomized, and an atomization error is raised |
| SwitchExpr.TestMatches | src/main/java/org/brackit/query/expr/SwitchExpr.java:60-62 | a test whose evaluateToItem fails raises that error before any comparison, err:XPTY0004 when the test has two or more items |
| SwitchExpr.FirstMatchIsFirst | src/main/java/org/brackit/query/expr/SwitchExpr.java:58-66 | the case selected is that of a test that matched with every earlier test compared unequal; no case is selected exactly when every test compared unequal |
| SwitchExpr.TestsFromCases | src/main/java/org/brackit/query/expr/SwitchExpr.java:58-60 | the tests scanned are every expression of a case but its last, each tagged with a case that has a return expression |
| SwitchExpr.Evaluate | src/main/java/org/brackit/query/expr/SwitchExpr.java:55-68 | the operand's evaluateToItem error is raised, err:XPTY0004 when the operand has two or more items; an atomization error of the operand is raised; any other result is the default's or the return expression of some case |
| SwitchExpr.FirstMatchError | src/main/java/org/brackit/query/expr/SwitchExpr.java:58-66 | a test that fails to evaluate or compare, reached after every earlier test compared unequal, makes the scan fail with its error |
| SwitchExpr.EvaluateTestError | src/main/java/org/brackit/query/expr/SwitchExpr.java:55-68 | such a failing test makes the whole switch fail with its error |
| SwitchExpr.EvaluateSelects | src/main/java/org/brackit/query/expr/SwitchExpr.java:55-68 | the switch gives the return expression of the first case with a matching test, and the default when no test matches |
| SwitchExpr.EmptyMatchesEmpty | src/main/java/org/brackit/query/expr/SwitchExpr.java:56-62 | an empty operand matches a test whose evaluateToItem gives null |
| SwitchExpr.EvaluateToItem | src/main/java/org/brackit/query/expr/SwitchExpr.java:71-73 | the switch's result as at most one item: null for none, the item for one, an inappropriate-type error for more, and errors propagate |
| SwitchExpr.AnyUpdating | src/main/java/org/brackit/query/expr/SwitchExpr.java:80-86 | some expression of some case is updating |
| SwitchExpr.AnyVacuous | src/main/java/org/brackit/query/expr/SwitchExpr.java:95-101 | some expression of some case is vacuous |
| SwitchExpr.IsUpdating | src/main/java/org/brackit/query/expr/SwitchExpr.java:76-88 | the switch is updating exactly when its operand, its default or an expression of a case is |
| SwitchExpr.IsVacuous | src/main/java/org/brackit/query/expr/SwitchExpr.java:91-103 | the switch is vacuous exactly when its operand, its default or an expression of a case is |
| SequenceExpr.NonNulls | src/main/java/io/brackit/query/expr/SequenceExpr.java:66-70 | the operand results kept are non-empty and no more than there are operands |
| SequenceExpr.NonNullsAppend | src/main/java/io/brackit/query/expr/SequenceExpr.java:66-70 | keeping the non-empty results of two runs of operands is keeping them run by run |
| SequenceExpr.NonNullsKeepItems | src/main/java/io/brackit/query/expr/SequenceExpr.java:45-72 | leaving out the empty operand results does not change the items of the sequence |
| SequenceExpr.EvalSequence.constructor | src/main/java/io/brackit/query/expr/SequenceExpr.java:51-55 | the cache has one empty slot per operand and no operand is evaluated yet |
| SequenceExpr.EvalSequence.Sequence | src/main/java/io/brackit/query/expr/SequenceExpr.java:57-72 | a position past the operands gives null; a cached slot is returned as it is; otherwise operands are evaluated from the next one on, each result stored at the position, until a non-empty one or the end, and only the slot at the position changes |
| SequenceExpr.EvalSequence.ReadInOrder | src/main/java/io/brackit/query/expr/SequenceExpr.java:45-72 | reading positions 0, 1, 2, ... until one gives null yields exactly the non-empty operand results in order, cached in slots 0, 1, 2, ..., with the items of all operands |
| SequenceExpr.AllNullsVanish | src/main/java/io/brackit/query/expr/SequenceExpr.java:66-70 | operands that all evaluate to the empty sequence contribute no results |
| SequenceExpr.NullTail | src/main/java/io/brackit/query/expr/SequenceExpr.java:66-70 | empty results after the last evaluated operand add nothing |
| SequenceExpr.NextNonNull | src/main/java/io/brackit/query/expr/SequenceExpr.java:66-70 | skipping empty results up to a non-empty one adds just that one |
| SequenceExpr.EmptyOperandSkipped | src/main/java/io/brackit/query/expr/SequenceExpr.java:45-72 | (1, (), 2, 3) has the items 1, 2, 3 and caches the three non-empty results |
| SequenceExpr.MembersOk | src/main/java/io/brackit/query/expr/SequenceExpr.java:102-108 | without errors the array's members are the operands' items in order, a null item as the empty sequence |
| SequenceExpr.MembersFirstError | src/main/java/io/brackit/query/expr/SequenceExpr.java:102-108 | building the array raises the error of the first operand whose evaluateToItem fails |
| SequenceExpr.ToItemCases | src/main/java/io/brackit/query/expr/SequenceExpr.java:86-110 | the item is null exactly when every operand's item is null; it is the last operand's item or error when all before it are null; without errors a non-null operand before the last gives the array of all items |
| SequenceExpr.ToItemError | src/main/java/io/brackit/query/expr/SequenceExpr.java:86-110 | the item is an error exactly when some operand's evaluateToItem fails |
| SequenceExpr.ToItemFirstError | src/main/java/io/brackit/query/expr/SequenceExpr.java:86-110 | the error raised is that of the first failing operand |
| SequenceExpr.ToItemTooMany | src/main/java/io/brackit/query/expr/SequenceExpr.java:86-110 | when each operand's evaluateToItem agrees with its evaluate, the item is err:XPTY0004 exactly when some operand has two or more items |
| SequenceExpr.EvaluateToItem | src/main/java/io/brackit/query/expr/SequenceExpr.java:86-110 | the scan loop and the array loop give what ToItem specifies: no operand gives null, one is delegated to; several give the last operand's item when every earlier one is null, and otherwise an array of every operand's item, null ones included; an operand's evaluateToItem error, in either loop, is raised |
| SequenceExpr.IsUpdating | src/main/java/io/brackit/query/expr/SequenceExpr.java:112-120 | the expression is updating exactly when some operand is |
| SequenceExpr.IsVacuous | src/main/java/io/brackit/query/expr/SequenceExpr.java:122-130 | the expression is vacuous exactly when every operand is, so also without operands |
| SequenceExpr.ToString | src/main/java/io/brackit/query/expr/SequenceExpr.java:132-147 | the operands' texts, separated by ", ", between parentheses |
| Constructed.NonEmptyStrings | src/main/java/io/brackit/query/expr/CommentExpr.java:74-84 | only non-empty string values are kept, in item order |
| Constructed.ContentEmptyIff | src/main/java/io/brackit/query/expr/CommentExpr.java:63-91 | the content is empty exactly when every item's string value is empty |
| Constructed.OneItemContent | src/main/java/io/brackit/query/expr/CommentExpr.java:63-91 | a sequence of one item gives the same content as the item itself |
| Constructed.BuildContent | src/main/java/io/brackit/query/expr/CommentExpr.java:63-91 | the content loop yields null as "", an item's string value, and otherwise the non-empty string values separated by single spaces; an opened iterator is closed |
| Constructed.IllegalCommentTextIff | src/main/java/io/brackit/query/expr/CommentExpr.java:93-97 | a comment text is illegal exactly when some hyphen is followed by another hyphen or ends the text |
| Constructed.MutableNode.constructor | src/main/java/io/brackit/query/expr/CommentExpr.java:100 | a node keeps the given attributes and children |
| Constructed.MutableNode.Append | src/main/java/io/brackit/query/expr/CommentExpr.java:100 | append adds a new last child of the given kind, name and value |
| Constructed.MutableNode.SetAttribute | src/main/java/org/brackit/xquery/expr/AttributeExpr.java:101 | setAttribute replaces the attribute of that name, or adds it |
| Constructed.WithAttribute | src/main/java/org/brackit/xquery/expr/AttributeExpr.java:101 | the new attribute is present; the list keeps its length (a replacement) or grows by the new attribute at the end; attributes of other names stay |
| CommentExpr.EvaluateToItem | src/main/java/io/brackit/query/expr/CommentExpr.java:60-106 | content with "--" or a trailing "-" is the illegal-hyphens error; otherwise an append-only constructor appends a comment child to the node in the tuple's last slot and returns null, and any other returns a new comment node holding the content; nothing else changes |
| CommentExpr.IsUpdating | src/main/java/io/brackit/query/expr/CommentExpr.java:109-111 | updating exactly when the content expression is |
| CommentExpr.IsVacuous | src/main/java/io/brackit/query/expr/CommentExpr.java:114-116 | never vacuous |
| TextExpr.EvaluateToItem | src/main/java/org/brackit/query/expr/TextExpr.java:55-91 | every content is accepted: an append-only constructor appends a text child to the node in the tuple's last slot and returns null, and any other returns a new untyped text node holding the content; nothing else changes |
| TextExpr.IsUpdating | src/main/java/org/brackit/query/expr/TextExpr.java:94-96 | updating exactly when the content expression is |
| TextExpr.IsVacuous | src/main/java/org/brackit/query/expr/TextExpr.java:99-101 | never vacuous |
| AttributeExpr.CheckName | src/main/java/org/brackit/xquery/expr/AttributeExpr.java:71-93 | an accepted name is the name itself; any rejection is the illegal-attribute-name error |
| AttributeExpr.CheckNameRejects | src/main/java/org/brackit/xquery/expr/AttributeExpr.java:71-93 | a name is rejected exactly when its prefix is xmlns, it is the bare name xmlns, its namespace is the xmlns namespace, or the xml prefix and the XML namespace do not go together |
| AttributeExpr.AttributeName | src/main/java/org/brackit/xquery/expr/AttributeExpr.java:58-69 | the literal name, or the name built from the name expression's item, is checked; the name expression's evaluateToItem error and a failing build are raised |
| AttributeExpr.AttributeValueAppend | src/main/java/org/brackit/xquery/expr/AttributeExpr.java:94-98 | the value of a split list of value expressions is the value of the first part followed by that of the second |
| AttributeExpr.BuildValue | src/main/java/org/brackit/xquery/expr/AttributeExpr.java:94-98 | the value is the content strings of the value expressions concatenated in order |
| AttributeExpr.EvaluateToItem | src/main/java/org/brackit/xquery/expr/AttributeExpr.java:66-107 | a bad name is raised; otherwise an append-only constructor sets the untyped attribute on the node in the tuple's last slot and returns null, and any other returns a new attribute node with the value; children are never touched |
| AttributeExpr.AnyUpdating | src/main/java/org/brackit/xquery/expr/AttributeExpr.java:114-119 | some value expression is updating |
| AttributeExpr.IsUpdatingAsWrittenNeverAnswers | src/main/java/org/brackit/xquery/expr/AttributeExpr.java:110-113 | with an updating name expression isUpdating calls itself on the same object and never returns, however deep calls nest |
| AttributeExpr.IsUpdating | src/main/java/org/brackit/xquery/expr/AttributeExpr.java:109-120 | corrected isUpdating: updating exactly when the name expression or some value expression is |
| AttributeExpr.IsUpdatingAgrees | src/main/java/org/brackit/xquery/expr/AttributeExpr.java:109-120 | wherever the source's isUpdating answers, it agrees with the corrected one |
| CommentD2Node.CheckValue | src/main/java/org/brackit/query/node/d2linked/CommentD2Node.java:51-60 | a value is rejected with a document error exactly when its string contains "--" or ends in "-"; an accepted value is kept as its string |
| CommentD2Node.CheckValueRejects | src/main/java/org/brackit/query/node/d2linked/CommentD2Node.java:51-60 | a value is rejected exactly when some hyphen in it is followed by another hyphen or ends it |
| CommentD2Node.CommentNode.constructor | src/main/java/org/brackit/query/node/d2linked/CommentD2Node.java:46-49 | a comment node holds a checked value and is of kind COMMENT |
| CommentD2Node.CommentNode.SetValue | src/main/java/org/brackit/query/node/d2linked/CommentD2Node.java:76-79 | an accepted value replaces the old one as a string; a rejected one raises a document error and leaves the old value in place |
| CommentD2Node.NewCommentNode | src/main/java/org/brackit/query/node/d2linked/CommentD2Node.java:46-49 | the node part is built first, so a parentless comment draws a fresh fragment id even when its value is then rejected; the comment exists exactly when the value is accepted |
| CommentD2Node.NewRootComment | src/main/java/org/brackit/query/node/d2linked/CommentD2Node.java:42-44 | the public constructor makes a parentless comment with the first division and a checked value |
| D2Linked.LexLessWitness | src/main/java/org/brackit/xquery/node/d2linked/D2Node.java:276-292 | divisions that agree below k and at k where the first ends or is smaller are ordered first-before-second |
| D2Linked.FirstDifference | src/main/java/org/brackit/xquery/node/d2linked/D2Node.java:279-289 | the loop's stopping index: the divisions agree below it, and there they differ unless one of them has ended |
| D2Linked.FirstDifferenceIs | src/main/java/org/brackit/xquery/node/d2linked/D2Node.java:279-289 | any index with agreement below and a difference or an end at it is the first difference |
| D2Linked.CompareOrder | src/main/java/org/brackit/xquery/node/d2linked/D2Node.java:276-292 | compare is negative exactly when the first division comes first in lexicographic order, zero exactly for equal divisions, and antisymmetric |
| D2Linked.Compare | src/main/java/org/brackit/xquery/node/d2linked/D2Node.java:276-292 | the loop over the common length returns -1/1 at the first differing component and the length difference otherwise; its sign is the lexicographic order |
| D2Linked.GetDivision | src/main/java/org/brackit/xquery/node/d2linked/D2Node.java:176-178 | values up to 129 come from the static table of [3], [5], ..., [129] (an even value giving the odd one above it), larger values a fresh one-component division; values below 2 index outside the table |
| D2Linked.SiblingAfter | src/main/java/org/brackit/xquery/node/d2linked/D2Node.java:172-174 | the division after p is one odd component above p's first, at most two higher; it fails only where getDivision does |
| D2Linked.SiblingAfterFollows | src/main/java/org/brackit/xquery/node/d2linked/D2Node.java:172-174 | the division after p compares after p |
| D2Linked.Bumped | src/main/java/org/brackit/xquery/node/d2linked/D2Node.java:201-230 | the raised component is odd and lies above the old one by one to three |
| D2Linked.ComputeSiblingBetween | src/main/java/org/brackit/xquery/node/d2linked/D2Node.java:180-256 | the loop over the common prefix returns the case at the first differing component, the division after p when there is no next sibling or room before it, and IllegalArgumentException when no component differs (as written) |
| D2Linked.SiblingBetweenDiffersOnlyOnPrefix | src/main/java/org/brackit/xquery/node/d2linked/D2Node.java:180-256 | the source and the corrected version differ only when p is a proper prefix of n, where the source throws |
| D2Linked.LexLessAtFirstDifference | src/main/java/org/brackit/xquery/node/d2linked/D2Node.java:276-292 | p comes before n exactly when at the first difference n's component is larger or p has ended |
| D2Linked.RaisedIsBetween | src/main/java/org/brackit/xquery/node/d2linked/D2Node.java:193-240 | raising p's component at the first difference to a value below n's gives a division strictly between p and n |
| D2Linked.ExtendedIsBetween | src/main/java/org/brackit/xquery/node/d2linked/D2Node.java:201-249 | keeping p's prefix through the first difference and adding a raised component after it gives a division strictly between p and n |
| D2Linked.BetweenAtIsBetween | src/main/java/org/brackit/xquery/node/d2linked/D2Node.java:185-251 | every case at the first difference succeeds and lies strictly between p and n when n's component is larger |
| D2Linked.SiblingBetweenIsBetween | src/main/java/org/brackit/xquery/node/d2linked/D2Node.java:180-256 | for p before n (or no n) the corrected siblingBetween succeeds and returns a division strictly after p and strictly before n |
| D2Linked.SiblingBetweenRejects | src/main/java/org/brackit/xquery/node/d2linked/D2Node.java:186-190 | both versions throw IllegalArgumentException when n does not come after p |
| D2Linked.SiblingBetweenPrefixCounterexample | src/main/java/org/brackit/xquery/node/d2linked/D2Node.java:180-256 | [3] comes before [3, 3], yet the source throws for the pair; the corrected version returns [3, 2, 3] |
| D2Linked.FirstAbove3 | src/main/java/org/brackit/xquery/node/d2linked/D2Node.java:262-268 | the first component above 3 from i on, all components before it being at most 3 |
| D2Linked.FirstAbove3Is | src/main/java/org/brackit/xquery/node/d2linked/D2Node.java:262-268 | any index with only components up to 3 before it and a component above 3 (or the end) at it is that first index |
| D2Linked.SiblingBefore | src/main/java/org/brackit/xquery/node/d2linked/D2Node.java:258-274 | the loop returns the one-component case, the first component above 3 lowered to the value of the other parity below it, or a new level under the last component lowered by one |
| D2Linked.SiblingBeforePrecedes | src/main/java/org/brackit/xquery/node/d2linked/D2Node.java:258-274 | the division before n compares before n whenever n has several components or a first component of at least 3 |
| D2Linked.IdSequence.constructor | src/main/java/org/brackit/xquery/node/d2linked/D2Node.java:53 | the id sequence starts at 0 |
| D2Linked.IdSequence.LocalFragmentId | src/main/java/org/brackit/xquery/node/d2linked/D2Node.java:107-117 | incrementAndGet with 32-bit wrap-around; a wrapped (negative) id is replaced by 1, so ids are always positive |
| D2Linked.D2Node.constructor | src/main/java/org/brackit/xquery/node/d2linked/D2Node.java:83-87 | a root draws a fresh fragment id from the id sequence; any other node shares its parent's fragment id and leaves the sequence unchanged |
| D2Linked.D2Node.IsChildOf | src/main/java/org/brackit/xquery/node/d2linked/D2Node.java:327-330 | true exactly when the node is the next one on this node's parent chain |
| D2Linked.D2Node.IsDescendantOf | src/main/java/org/brackit/xquery/node/d2linked/D2Node.java:333-336 | true exactly when the node lies on the parent chain strictly above this node |
| D2Linked.D2Node.IsDescendantOrSelfOf | src/main/java/org/brackit/xquery/node/d2linked/D2Node.java:339-343 | true exactly when the node lies on the parent chain, this node included |
| D2Linked.D2Node.IsSiblingOf | src/main/java/org/brackit/xquery/node/d2linked/D2Node.java:416-421 | true exactly for another node with the same (non-null) parent |
| D2Linked.D2Node.IsFollowingSiblingOf | src/main/java/org/brackit/xquery/node/d2linked/D2Node.java:370-378 | true exactly for a different non-attribute node with the same parent whose division comes before this node's |
| D2Linked.D2Node.IsPrecedingSiblingOf | src/main/java/org/brackit/xquery/node/d2linked/D2Node.java:400-408 | true exactly for a different non-attribute node with the same parent whose division comes after this node's |
| D2Linked.D2Node.IsInSubtreeOf | src/main/java/org/brackit/xquery/node/d2linked/D2Node.java:161-170 | the walk up from the parent answers whether the node is a proper ancestor |
| D2Linked.D2Node.GetRoot | src/main/java/org/brackit/xquery/node/d2linked/D2Node.java:89-95 | the walk up the parent chain ends at its last node |
| D2Linked.D2Node.CmpInternal | src/main/java/org/brackit/xquery/node/d2linked/D2Node.java:120-159 | the nested walks return the document order: 0 for the node itself, fragment ids first, then the ancestor first, attributes before other children, and divisions at the least common ancestor |
| D2Linked.D2Node.IsFollowingOf | src/main/java/org/brackit/xquery/node/d2linked/D2Node.java:351-367 | true exactly when this node is not an attribute, comes after the node in document order and is not below it |
| D2Linked.D2Node.IsPrecedingOf | src/main/java/org/brackit/xquery/node/d2linked/D2Node.java:381-397 | true exactly when this node is not an attribute, comes before the node in document order and is not above it |
| D2Linked.Chain | src/main/java/org/brackit/xquery/node/d2linked/D2Node.java:89-95 | the parent chain starts at the node, links each entry to its parent, ends at a root and never repeats a node |
| D2Linked.FirstShared | src/main/java/org/brackit/xquery/node/d2linked/D2Node.java:129-157 | the first node on one chain that also lies on the other (the least common ancestor), with none before it |
| D2Linked.IndexOf | src/main/java/org/brackit/xquery/node/d2linked/D2Node.java:132-154 | the first position of a node on a chain |
| D2Linked.AncestorFirst | src/main/java/org/brackit/xquery/node/d2linked/D2Node.java:137-141 | an ancestor comes before each of its descendants in document order, and they after it |
| D2Linked.AttributeFirst | src/main/java/org/brackit/xquery/node/d2linked/D2Node.java:143-147 | an attribute comes before a non-attribute child of the same node, and that child after it |
| D2Linked.FirstSharedSymmetric | src/main/java/org/brackit/xquery/node/d2linked/D2Node.java:129-157 | the least common ancestor found from either side is the same node |
| D2Linked.LcaOrderAntisymmetric | src/main/java/org/brackit/xquery/node/d2linked/D2Node.java:137-150 | the order at the least common ancestor is antisymmetric when the chains meet |
| D2Linked.DocOrderAntisymmetric | src/main/java/org/brackit/xquery/node/d2linked/D2Node.java:120-159 | cmpInternal is antisymmetric for nodes of different fragments and for nodes of one tree |
| D2Linked.DocOrderZeroOnlySelf | src/main/java/org/brackit/xquery/node/d2linked/D2Node.java:120-159 | with distinct sibling divisions, cmpInternal returns 0 only for the node itself |
| DeepEqual.AtomicDeepEquals | src/main/java/org/brackit/xquery/function/fn/DeepEqual.java:240-249 | the atomic eq's answer, except that an inappropriate-type error counts as not equal; any other error propagates |
| DeepEqual.NextContent | src/main/java/org/brackit/xquery/function/fn/DeepEqual.java:166-177 | the skip loop stops at the next element or text child, passing over only other kinds, or runs out |
| DeepEqual.ContentOf | src/main/java/org/brackit/xquery/function/fn/DeepEqual.java:161-188 | the element and text children, in order, each taken from the children |
| DeepEqual.ContentFrom | src/main/java/org/brackit/xquery/function/fn/DeepEqual.java:166-177 | the content children from a position on are the next content child followed by the content after it |
| DeepEqual.ChildrenDeepEqualPairwise | src/main/java/org/brackit/xquery/function/fn/DeepEqual.java:161-188 | the corrected children comparison succeeds exactly when both sides have as many element and text children and these are pairwise deep-equal |
| DeepEqual.ChildrenStep | src/main/java/org/brackit/xquery/function/fn/DeepEqual.java:165-185 | one round of the loop: a side without content decides by whether both ran out; otherwise the pair must be deep-equal and the rest must compare equal |
| DeepEqual.AsWrittenImpliesCorrected | src/main/java/org/brackit/xquery/function/fn/DeepEqual.java:161-188 | whatever the children loop as written accepts, the corrected comparison accepts |
| DeepEqual.NodeDeepEquals | src/main/java/org/brackit/xquery/function/fn/DeepEqual.java:125-159 | nodes of different kinds are unequal; equal nodes have one kind, elements, attributes and processing instructions the same name, attributes, text, comments and processing instructions the same value, elements matching attributes; an error arises only from an element, a document or a namespace node |
| DeepEqual.NodeAsWrittenImpliesCorrected | src/main/java/org/brackit/xquery/function/fn/DeepEqual.java:125-159 | node comparison with the loop as written accepting implies the corrected one accepts |
| DeepEqual.TrailingCommentCounterexample | src/main/java/org/brackit/xquery/function/fn/DeepEqual.java:161-188 | an element with one text child against an equal element that also ends in a comment: the loop as written answers false, the corrected comparison true |
| DeepEqual.NodeDeepEqualsReflexive | src/main/java/org/brackit/xquery/function/fn/DeepEqual.java:125-159 | a node without namespace nodes is deep-equal to itself, with either children comparison |
| DeepEqual.ChildrenReflexive | src/main/java/org/brackit/xquery/function/fn/DeepEqual.java:161-188 | a child list compares equal to itself from any position |
| DeepEqual.ItemDeepEquals | src/main/java/org/brackit/xquery/function/fn/DeepEqual.java:101-123 | corrected: a missing b item is unequal; atomics equal only atomics, through atomicDeepEquals; a node equals only a node, by nodeDeepEquals with the corrected children comparison (see Findings); a JSON item against a node fails the cast |
| DeepEqual.SequenceDeepEqualsPairwise | src/main/java/org/brackit/xquery/function/fn/DeepEqual.java:88-98 | two item sequences are deep-equal exactly when they have the same length and are pairwise deep-equal in order |
| DeepEqual.EmptyAgainstAny | src/main/java/org/brackit/xquery/function/fn/DeepEqual.java:75-86 | null against a sequence is true exactly when the sequence has no items, in either order |
| DeepEqual.SequenceStep | src/main/java/org/brackit/xquery/function/fn/DeepEqual.java:91-96 | one round of the item loop: a difference or an error ends the comparison, otherwise the rest of both sides decide |
| DeepEqual.DeepEquals | src/main/java/org/brackit/xquery/function/fn/DeepEqual.java:74-99 | corrected (node items compared as in ItemDeepEquals): the sequence comparison, with its two null cases, returns the item-by-item deep equality of the two sides |
| DeepEqual.FirstIsNull | src/main/java/org/brackit/xquery/function/fn/DeepEqual.java:79-85 | one step of an iterator finds nothing exactly when the sequence is empty |
| DeepEqual.DeepEqualsInStep | src/main/java/org/brackit/xquery/function/fn/DeepEqual.java:88-98 | the two iterators advance in step; the first difference or error ends the loop, and then b must be exhausted too |
| DeepEqual.Execute | src/main/java/org/brackit/xquery/function/fn/DeepEqual.java:59-72 | corrected (node items compared as in ItemDeepEquals): a third argument other than the codepoint collation URI raises unsupported-collation; otherwise the deep equality of the two arguments |
| DeepEqual.AttributesDeepEqual | src/main/java/org/brackit/xquery/function/fn/DeepEqual.java:190-238 | true exactly when both nodes have as many attributes and each attribute of b has one in a with the same name and value |
| TopDownOptimizer.RunWalkersAppend | src/main/java/org/brackit/query/compiler/optimizer/TopDownOptimizer.java:74-114 | a stage's walkers run one after the other, each on the previous one's result, so two walker lists in a row run as their concatenation |
| TopDownOptimizer.StageRewrites | src/main/java/org/brackit/query/compiler/optimizer/TopDownOptimizer.java:73-115 | each of the optimizer's own stages runs its walkers in the source's order: pipelining; predicate split then select pull-up; join rewriting; the five unnesting walkers; the five final pipeline walkers |
| TopDownOptimizer.Optimizer.constructor | src/main/java/org/brackit/query/compiler/optimizer/TopDownOptimizer.java:58-71 | the stages are simplification, pipelining, reordering, join recognition only with join detection on, unnesting only with unnesting on, then the final pipeline and finalize, each once |
| PrintOperator.Spaces | src/main/java/org/brackit/xquery/operator/Print.java:108-115 | a run of n spaces |
| PrintOperator.Fit | src/main/java/org/brackit/xquery/operator/Print.java:94-118 | every cell text is exactly MAX_SIZE (20) characters long |
| PrintOperator.FitCentres | src/main/java/org/brackit/xquery/operator/Print.java:94-118 | a text of 20 or more characters keeps its first 20; a shorter one sits unchanged in the middle between spaces, with at most one more space on the right than on the left |
| PrintOperator.ShrinkOrPad | src/main/java/org/brackit/xquery/operator/Print.java:94-118 | the char-buffer construction (left padding loop, copy, right padding loop) yields the fitted cell text |
| PrintOperator.CellsSnoc | src/main/java/org/brackit/xquery/operator/Print.java:81-88 | the cells of one more slot are the earlier cells followed by that slot's cell |
| PrintOperator.RowWidth | src/main/java/org/brackit/xquery/operator/Print.java:79-89 | a printed row has width 2 + 23 per slot, so rows of tuples of one size line up |
| PrintOperator.CellsWidth | src/main/java/org/brackit/xquery/operator/Print.java:81-88 | each cell takes 23 characters |
| PrintOperator.PrintCell | src/main/java/org/brackit/xquery/operator/Print.java:82-87 | one slot prints as a space, its fitted text ("()" for a null slot) and " \|" |
| PrintOperator.PrintRow | src/main/java/org/brackit/xquery/operator/Print.java:79-89 | a tuple prints as "\|", one cell per slot in order, and a line break |
| PrintOperator.PrintRowStep | src/main/java/org/brackit/xquery/operator/Print.java:81-88 | one round of the slot loop appends that slot's cell to the row |
| PrintOperator.PrintCursor.constructor | src/main/java/org/brackit/xquery/operator/Print.java:59-63 | the cursor keeps its upstream cursor, header tuples and stream, with a zero count |
| PrintOperator.PrintCursor.Open | src/main/java/org/brackit/xquery/operator/Print.java:121-126 | opens upstream, resets the count and prints "--- " followed by the header tuples and a line break |
| PrintOperator.PrintCursor.Next | src/main/java/org/brackit/xquery/operator/Print.java:75-92 | returns the upstream tuple unchanged; a tuple is counted and printed as one row, an exhausted upstream prints nothing |
| PrintOperator.PrintCursor.Close | src/main/java/org/brackit/xquery/operator/Print.java:66-72 | closes upstream and prints "---", the number of tuples passed and " results" |
| PrintOperator.Print.constructor | src/main/java/org/brackit/xquery/operator/Print.java:45-48 | the operator keeps its input operator and output stream |
| PrintOperator.Print.Create | src/main/java/org/brackit/xquery/operator/Print.java:130-132 | a fresh print cursor over the input's cursor for the tuple, with that one tuple as header and a zero count |
| PrintOperator.Print.CreateBuffered | src/main/java/org/brackit/xquery/operator/Print.java:135-137 | a fresh print cursor over the input's cursor for the buffer, with the whole buffer as header |
| PrintOperator.Print.TupleWidth | src/main/java/org/brackit/xquery/operator/Print.java:140-142 | printing leaves the tuple width of the input unchanged |
| Cursors.TupleCursor.constructor | src/main/java/org/brackit/xquery/operator/Print.java:53 | an upstream cursor replays its tuples from the start |
| Cursors.TupleCursor.Open | src/main/java/org/brackit/xquery/operator/Print.java:122 | opening marks the upstream cursor open |
| Cursors.TupleCursor.Next | src/main/java/org/brackit/xquery/operator/Print.java:76 | the upstream yields its tuples in order, then null |
| Cursors.TupleCursor.Close | src/main/java/org/brackit/xquery/operator/Print.java:67 | closing marks the upstream cursor closed |
| Cursors.OutStream.constructor | src/main/java/org/brackit/xquery/operator/Print.java:43 | a stream starts with no text |
| Cursors.OutStream.Print | src/main/java/org/brackit/xquery/operator/Print.java:80 | printing appends the text to what the stream holds |
| OperatorLetBind.ExtendedShape | src/main/java/io/brackit/query/operator/LetBind.java:57-69 | the yielded tuple is the upstream tuple plus one slot holding the bound value, or null for a tuple the check marks dead |
| OperatorLetBind.LetBindCursor.constructor | src/main/java/io/brackit/query/operator/LetBind.java:47-49 | the cursor wraps its upstream cursor |
| OperatorLetBind.LetBindCursor.Open | src/main/java/io/brackit/query/operator/LetBind.java:71-74 | opening opens upstream |
| OperatorLetBind.LetBindCursor.Next | src/main/java/io/brackit/query/operator/LetBind.java:56-69 | null when upstream is exhausted, otherwise the upstream tuple extended by the bound value (null for a dead tuple) |
| OperatorLetBind.LetBindCursor.Close | src/main/java/io/brackit/query/operator/LetBind.java:51-54 | closing closes upstream |
| OperatorLetBind.LetBind.constructor | src/main/java/io/brackit/query/operator/LetBind.java:77-80 | the operator keeps its input and source expression and starts with binding on |
| OperatorLetBind.LetBind.Bind | src/main/java/io/brackit/query/operator/LetBind.java:82-84 | switches binding on or off |
| OperatorLetBind.LetBind.TupleWidth | src/main/java/io/brackit/query/operator/LetBind.java:96-99 | one slot more than the input's width while binding, the same width otherwise |
| OperatorLetBind.LetBind.Create | src/main/java/io/brackit/query/operator/LetBind.java:86-89 | while binding, a let-bind cursor wrapping the input's fresh cursor for the tuple; otherwise that input cursor itself |
| OperatorLetBind.LetBind.CreateBuffered | src/main/java/io/brackit/query/operator/LetBind.java:91-94 | the same choice for the input's cursor over a tuple buffer |
| OperatorLetBind.YieldedWidth | src/main/java/io/brackit/query/operator/LetBind.java:96-99 | every tuple a binding cursor yields has the width tupleWidth announces |
| BlockLetBind.RecordingSink.constructor | src/main/java/org/brackit/xquery/block/LetBind.java:57 | a downstream sink starts having been told nothing |
| BlockLetBind.RecordingSink.Output | src/main/java/org/brackit/xquery/block/LetBind.java:70 | the downstream sink records the batch it receives |
| BlockLetBind.RecordingSink.Begin | src/main/java/org/brackit/xquery/block/LetBind.java:90 | the downstream sink records a begin |
| BlockLetBind.RecordingSink.End | src/main/java/org/brackit/xquery/block/LetBind.java:85 | the downstream sink records an end |
| BlockLetBind.RecordingSink.Fail | src/main/java/org/brackit/xquery/block/LetBind.java:95 | the downstream sink records a failure |
| BlockLetBind.RecordingSink.Fork | src/main/java/org/brackit/xquery/block/LetBind.java:75 | the downstream sink hands out a fresh child sink and records the fork |
| BlockLetBind.RecordingSink.Partition | src/main/java/org/brackit/xquery/block/LetBind.java:80 | the downstream sink hands out a fresh child sink and records the partition with its stop sink |
| BlockLetBind.OutputWidth | src/main/java/org/brackit/xquery/block/LetBind.java:50-53 | the output is one slot wider than the input |
| BlockLetBind.Bound | src/main/java/org/brackit/xquery/block/LetBind.java:67-68 | a bound entry keeps the input tuple's slots and adds the expression's value in one new last slot, so its width is outputWidth of the input's |
| BlockLetBind.LetBindSink.constructor | src/main/java/org/brackit/xquery/block/LetBind.java:59-62 | the sink keeps the expression and its downstream sink |
| BlockLetBind.LetBindSink.Output | src/main/java/org/brackit/xquery/block/LetBind.java:64-71 | the first len entries of the buffer are replaced in place by their bound tuples, the rest stay, and then the same buffer and length go downstream once |
| BlockLetBind.LetBindSink.Fork | src/main/java/org/brackit/xquery/block/LetBind.java:73-76 | a fresh let-bind sink with the same expression in front of a fork of the downstream sink |
| BlockLetBind.LetBindSink.Partition | src/main/java/org/brackit/xquery/block/LetBind.java:78-81 | a fresh let-bind sink with the same expression in front of a partition of the downstream sink |
| BlockLetBind.LetBindSink.End | src/main/java/org/brackit/xquery/block/LetBind.java:83-86 | end is passed on downstream |
| BlockLetBind.LetBindSink.Begin | src/main/java/org/brackit/xquery/block/LetBind.java:88-91 | begin is passed on downstream |
| BlockLetBind.LetBindSink.Fail | src/main/java/org/brackit/xquery/block/LetBind.java:93-96 | fail is passed on downstream |
| BlockLetBind.Create | src/main/java/org/brackit/xquery/block/LetBind.java:45-48 | a fresh let-bind sink with the block's expression in front of the given sink |

## Left out

- Concurrency: `synchronized`/`volatile` in Grouping, the synchronized operand cache of SequenceExpr and the compare-and-set loop behind D2Node fragment ids are modelled as sequential code.
- Print's stream is modelled as the text written to it; println's line separator is modelled as "\n" (the platform's separator is not modelled), and flushing and the character encoding of the stream are not modelled.
- ExtractFromDuration: the seconds component (a decimal built from floating point) is not modelled.
- SimpleNodeStore: the parser-based variants of create and the URI loading inside lookup are I/O; the loaded collection comes in as a parameter.
- Namespaces: the predefined bit, io and json prefixes are not modelled, because their URI constants are defined in files that are not part of this model.
- QueryContext: the node and JSON stores, the default document and collection, the implicit timezone and the base URI are not modelled; the wall clock is a parameter read once.
- ArrayValues: a null value (which ends the iteration early) and other non-item values (which fail the cast to Item) are not modelled; the theorems assume every value is an item or a flattening sequence.
- RenameJsonField: the casts of the new name to QNm or Str and a null name item are not modelled; the name comes in as a string.
- Grouping.Grouping.Add: grouping and aggregate positions outside the tuple (an ArrayIndexOutOfBoundsException in the source) are excluded by requires, and so for AddWithKey and AddInternal.
- Grouping.Grouping.constructor: requires as many additional aggregate positions as additional aggregates, which the source assumes without checking.
- Grouping.Grouping.Clear: clear before init (a NullPointerException in the source) is excluded by requires.
- Grouping.Grouping.Emit: each aggregator is modelled by the log of sequences fed to it, and its aggregate by a parameter; exceptions of atomicCmp are not modelled; the arrays before init are empty rather than null.
- Tuples.Get: positions outside the tuple (an exception in the source) are excluded by requires, and so for Replace, Project and Conreplace.
- Signature: the equals and toString of sequence and item types are parameters, and reference identity is a flag.
- SequenceAggregator.SequenceAggregator.GetAggregate: the nested sequence shares the buffer; the model shows that the buffer is cut to its fill before that, so later adds never write into it.
- CommentD2Node: getName (always null), the sibling navigation and toString are not modelled; the node's kind is Comment.
- Variables.Variables.ImportVariables: requires that the imported table does not reach back to this one (`this !in variables.Repr`), so cyclic imports are excluded. The source accepts any table (Variables.java:93-95), but its resolve (Variables.java:83-89) would not terminate on a cycle of imports.
- GDay.Eq: the comparison of two gDays is inherited from the time-instant base class, which is not part of this model; it is a parameter.
- Variables: the default context item, position and size getters are plain field reads and not modelled separately.
- JoinRewriter: apart from the rewrite decision, the join node's shape and the set-up of pushRightInput, the tree surgery is not modelled, nor are snapshot and refreshScopes; the scope and variable-reference helpers are replaced by their results (scopes ranked by pipeline position).
- TopDownOptimizer: the walkers themselves and the inherited Simplification and Finalize stages are parameters or defined elsewhere; only the stage order and each stage's walker order are modelled.
- Expression evaluation, atomization, string values and node construction inside the constructors are parameters or datatypes, not the engine's node factory.
- ArrayValues.Execute: yields the corrected output, which passes over an empty flattening value where the source throws NoSuchElementException (see Findings).
- DeepEqual.ItemDeepEquals: compares nodes with the corrected children comparison, not the loop as written (see Findings); the loop as written is DeepEqual.NodeDeepEquals with fixed false, and DeepEqual.NodeAsWrittenImpliesCorrected relates the two.
- DeepEqual.DeepEquals: built on DeepEqual.ItemDeepEquals, so it is the corrected comparison; so are DeepEqual.DeepEqualsInStep and DeepEqual.SequenceDeepEqualsPairwise.
- DeepEqual.Execute: built on DeepEqual.DeepEquals, so it is the corrected comparison.
- D2Linked.SiblingAfter: division components are unbounded integers; Java's 32-bit int overflow of a component near 2^31 is not modelled, and the same holds for D2Linked.BetweenAt and D2Linked.SiblingBeforeOf.
- D2Linked.D2Node.constructor: the shared sibling pointer and getScope/getCollection are not modelled; node fields are immutable here.

## Findings

| source | as written | input that shows it | evidently intended | confidence | as-written member | corrected member |
|---|---|---|---|---|---|---|
| src/main/java/org/brackit/xquery/node/d2linked/D2Node.java:184-255 | when p is a proper prefix of n, the loop finds no differing component and throws IllegalArgumentException | p = [3], n = [3, 3] (p comes before n) | a division strictly between p and n, here [3, 2, 3] | not executed | D2Linked.SiblingBetweenPrefixCounterexample | D2Linked.SiblingBetweenIsBetween |
| src/main/java/org/brackit/xquery/function/fn/DeepEqual.java:165-187 | the children loop stops as soon as one side runs out, without skipping the other side's trailing comments and processing instructions | an element with one text child against an equal element whose text child is followed by a comment | comments and processing instructions are ignored, so the two elements are deep-equal | not executed | DeepEqual.TrailingCommentCounterexample | DeepEqual.ChildrenDeepEqualPairwise |
| src/main/java/org/brackit/xquery/expr/AttributeExpr.java:110-113 | isUpdating calls itself on the same object when the name expression is updating | any attribute constructor whose name expression is updating | true, since the name expression is updating | not executed | AttributeExpr.IsUpdatingAsWrittenNeverAnswers | AttributeExpr.IsUpdating |
| src/main/java/org/brackit/query/function/bit/ArrayValues.java:95-104 | an empty flattening value leaves the deque empty and removeFirst throws NoSuchElementException | the array [an empty flattening sequence, x] | the empty value is passed over and x is handed out | not executed | ArrayValues.EmptyFlatteningCounterexample | ArrayValues.ArrayValuesIter.Next |
| src/main/java/org/brackit/xquery/function/fn/CodepointsToString.java:80 | a code point above 0xFFFF is appended as a single char, keeping only its high surrogate | the code point 0x1F600 | the surrogate pair 0xD83D 0xDE00 | not executed | CodepointsToString.SupplementaryCounterexample | CodepointsToString.DecodeEncode |
