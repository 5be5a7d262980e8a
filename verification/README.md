# Peloton optimizer and index-key core, in Dafny

This project models four pieces of sequential logic from the Peloton database
system and proves properties about them.

- **IntsKey** (`ints_key.dfy`, `ints_key_layout.dfy`) is the compact integer
  index key. It is a fixed array of `KeySize * 8` bytes. Each signed integer
  has its most significant bit flipped and is then stored big-endian, so a
  plain `memcmp` over the bytes orders keys the way the integers are ordered.
  `SetFromKey` and `SetFromTuple` zero the key, then lay the key columns out
  one after another in schema order.
- **Memo** (`memo.dfy`) is the deduplicating store of the cascades-style
  optimizer. It holds a dense list of groups and a structural index of group
  expressions. `InsertExpression` has three branches:
  - leaf: resolve the expression to its origin group;
  - hit: return the known representative;
  - miss: register the expression in a new group or in the target group.
- **OperatorToPlanTransformer** (`plan_transformer.dfy`) lowers a chosen
  physical operator tree to a plan tree. It threads the output-column lists
  through the visit, as the visitor's fields do in the source.
- **FunctionExpression** (`function_expression.dfy`) is a function-call
  expression. It checks the children's types against the declared argument
  types. Its `Evaluate` checks the result type on both the built-in path and
  the UDF path. The module also models the copy constructor.

Shared definitions:
- `results.dfy` holds `Option`, `Result` and `Outcome`. Null pointers become
  `None`. Thrown exceptions and failed assertions become `Err`/`Fail`.
- `types.dfy` holds the SQL type ids the model distinguishes.

The modelling choices:
- **Widths.** Integers are unbounded. The C++ integer widths are explicit: the
  `Width` datatype gives 1, 2, 4 or 8 bytes.
- **Signed values** are stored as their two's-complement bit pattern.
  `SignFlip` of that pattern is proved equal to `v + 2^(n-1)`.
  The header's comment calls this format "sign-magnitude". The code does
  not produce sign-magnitude: flipping the top bit of the two's-complement
  pattern gives an offset-binary encoding. That is what the model and its
  lemmas describe, and it is the encoding under which memcmp orders keys
  as their values.
- **memcmp** is modelled by its sign: -1, 0 or 1.
- **The memo** is a value. Each insertion returns the new memo, the
  representative it returned and the group the caller's expression belongs
  to afterwards.
- **The transformer's visitor state** is passed in and returned explicitly.
- **Children, the built-in function and the UDF catalog** are parameters of
  `Evaluate`.

Where the code is incomplete, the model follows the code as written:
- The leaf branch of `InsertExpression` returns a null expression (`return
  false`, memo.cpp:41), not the leaf. The model returns `None`.
- The Filter visitor builds a table-less sequential scan that carries the
  predicate. It does not build a dedicated filter plan.
- All join visitors are empty. The inner nested-loop join only asserts its
  arity.
- ComputeExprs never fills its projected-column list. The projection's
  schema and output columns are therefore empty.
- Predicate conversion always yields null.
- On the UDF path no function body runs. The result stays a default value
  of type INVALID, so a UDF call succeeds only when the catalog's declared
  return type is INVALID.

## Model

| member | source | states |
|---|---|---|
| IntsKey.SignFlip | src/include/index/ints_key.h:186-195 | flipping changes exactly the top bit: the result stays in range, is on the other side of 2^(n-1), and agrees with the input below the top bit |
| IntsKey.SignFlipInvolution | src/include/index/ints_key.h:186-195 | flipping the most significant bit twice gives the input back |
| IntsKey.SignFlipIsExcessEncoding | src/include/index/ints_key.h:26-32 | the sign-flipped two's-complement pattern of a signed v is v + 2^(n-1), an order-preserving offset encoding |
| IntsKey.ToUnsigned | src/include/index/ints_key.h:112-137 | static_cast to the unsigned type: the result is in the unsigned range, congruent to the input modulo 2^n, and equal to it for non-negative inputs |
| IntsKey.ToSigned | src/include/index/ints_key.h:268-276 | static_cast back to the signed type: the result is in the signed range, congruent to the pattern modulo 2^n, and equal to it below 2^(n-1) |
| IntsKey.SignedUnsignedInverse | src/include/index/ints_key.h:112-137 | the signed-to-unsigned casts used before byte swapping and after reading back are mutually inverse |
| IntsKey.ToBigEndian | src/include/index/ints_key.h:105-138 | an n-byte value becomes exactly n bytes |
| IntsKey.ToHostEndian | src/include/index/ints_key.h:140-174 | n bytes read back as a value of the n-byte unsigned range |
| IntsKey.BigEndianRoundTrip | src/include/index/ints_key.h:57-101 | converting to big-endian and back to host order is the identity on values |
| IntsKey.FromBigEndianRoundTrip | src/include/index/ints_key.h:84-101 | converting to host order and back to big-endian is the identity on byte strings |
| IntsKey.BigEndianDigits | src/include/index/ints_key.h:26-29 | byte i of the encoding is digit n-1-i in base 256, so the most significant byte comes first |
| IntsKey.LexCompare | src/include/index/ints_key.h:296-299 | the memcmp sign is -1, 0 or 1, and 0 exactly for equal byte strings |
| IntsKey.LexCompareAntisymmetric | src/include/index/ints_key.h:296-299 | swapping the operands negates the comparison |
| IntsKey.LexCompareIsNumericOrder | src/include/index/ints_key.h:26-32 | on equal-length big-endian strings, byte order is exactly the order of the encoded numbers, in both directions |
| IntsKey.Splice | src/include/index/ints_key.h:236-240 | the memcpy into the key: the length is kept, the bytes before the offset and after the copied bytes are untouched, and the copied bytes sit at the offset |
| IntsKey.Field | src/include/index/ints_key.h:268-271 | the reinterpret_cast read: the width-w bytes of the key starting at the offset, byte i being key byte offset+i |
| IntsKey.ZeroOut | src/include/index/ints_key.h:209-215 | every one of the KeySize*8 bytes is zero and the key size is kept |
| IntsKey.New | src/include/index/ints_key.h:202-206 | a fresh key has KeySize*8 bytes, all zero |
| IntsKey.AddInteger | src/include/index/ints_key.h:232-243 | exactly the bytes [offset, offset+width) change, and they hold the big-endian form of v + 2^(n-1) |
| IntsKey.AddUnsignedInteger | src/include/index/ints_key.h:252-261 | exactly the bytes [offset, offset+width) change, and they hold the big-endian form of the value |
| IntsKey.GetInteger | src/include/index/ints_key.h:269-276 | the result is in the signed range and is the big-endian field minus 2^(n-1) |
| IntsKey.GetUnsignedInteger | src/include/index/ints_key.h:284-288 | the result is the unsigned value whose big-endian form is the field |
| IntsKey.AddGetInteger | src/include/index/ints_key.h:232-276 | reading a signed integer back at the offset it was written to gives the written value |
| IntsKey.AddGetUnsignedInteger | src/include/index/ints_key.h:252-288 | reading an unsigned integer back at the offset it was written to gives the written value |
| IntsKey.Compare | src/include/index/ints_key.h:296-299 | the result is -1, 0 or 1, and 0 exactly when the keys are equal |
| IntsKey.LessThan | src/include/index/ints_key.h:304-307 | a is less than b exactly when b compares greater than a, and never for equal keys |
| IntsKey.Equals | src/include/index/ints_key.h:312-315 | true exactly for equal keys |
| IntsKey.AddIntegerPreservesOrder | src/include/index/ints_key.h:26-32 | writing a < b into keys with equal prefixes makes the first key less than the second, for every width and offset |
| IntsKey.AddUnsignedIntegerPreservesOrder | src/include/index/ints_key.h:252-261 | the same order preservation for unsigned values |
| IntsKey.FieldsOrdered | src/include/index/ints_key.h:26-29 | when keys agree before a field, the order of the big-endian numbers in that field decides the key order, in both directions |
| IntsKey.FieldsOrderedLess | src/include/index/ints_key.h:26-29 | when keys agree before a field and the first field holds the smaller big-endian number, memcmp puts the first key first |
| IntsKeyLayout.ColumnOffsetMonotone | src/include/index/ints_key.h:457-463 | column offsets never decrease along the schema |
| IntsKeyLayout.SetFromColumn | src/include/index/ints_key.h:368-419 | succeeds exactly for BIGINT/INTEGER/SMALLINT/TINYINT, with an unsupported-type error otherwise; returns the offset advanced by the column width; the value reads back and bytes outside the column are untouched |
| IntsKeyLayout.LaidOutReadsBack | src/include/index/ints_key.h:457-463 | once every column is laid out, each reads back at its offset and the key past the last column is zero |
| IntsKeyLayout.ColumnReadsBack | src/include/index/ints_key.h:459 | a laid-out column reads back its value at the sum of the earlier column widths |
| IntsKeyLayout.WriteColumn | src/include/index/ints_key.h:459 | writing column i after columns 0..i-1 keeps those columns, stores column i at the next offset and leaves the rest of the key zero |
| IntsKeyLayout.WriteColumnLaysOut | src/include/index/ints_key.h:459 | the same step as a fact about AddInteger: after the write, columns 0..i are laid out |
| IntsKeyLayout.StopsEarly | src/include/index/ints_key.h:458-463 | a column that is not integral, or does not fit, rules out that the whole schema is integral and fits |
| IntsKeyLayout.SetFromColumnWritesColumn | src/include/index/ints_key.h:368-419 | on an integral column that fits, SetFromColumn writes exactly the step WriteColumn describes and returns the next column's offset |
| IntsKeyLayout.LayOutColumns | src/include/index/ints_key.h:446-463 | the column loop over a zeroed key, calling SetFromColumn for each column, succeeds exactly when every column is integral and the columns fit; an integral schema fails only by overflow; on success every column is laid out |
| IntsKeyLayout.SetFromKey | src/include/index/ints_key.h:432-466 | succeeds exactly when every column is integral and the columns fit in KeySize*8 bytes; then every column reads back its value at the sum of the earlier widths and the remaining bytes are zero |
| IntsKeyLayout.SetFromTuple | src/include/index/ints_key.h:478-504 | the same as SetFromKey, with key column i taken from tuple column indices[i] |
| IntsKeyLayout.SetFromColumnAsWritten | src/include/index/ints_key.h:418 | writes the column but hands back an indeterminate offset instead of the advanced one |
| IntsKeyLayout.LayOutAsWritten | src/include/index/ints_key.h:458-463 | the column loop run on the as-written SetFromColumn, with the offset each column hands back checked against the key size: keeps the key size and validity, fails on any schema with a non-integral column, and fails on an integral schema only by overflow |
| IntsKeyLayout.AsWrittenChecksReturnedOffset | src/include/index/ints_key.h:462 | an indeterminate offset past the end of the key fails the loop's assertion even after the last column |
| IntsKeyLayout.AsWrittenTwoIntegers | src/include/index/ints_key.h:458-463 | with the indeterminate offset 0, two INTEGER columns are both written at offset 0, the second over the first |
| IntsKeyLayout.SetFromKeyAsWritten | src/include/index/ints_key.h:432-466 | SetFromKey as written, zeroing first and then running that loop: the same guarantees, which say nothing about where each column lands |
| IntsKeyLayout.SetFromKeyAsWrittenOverwrites | src/include/index/ints_key.h:458-463 | with the as-written offset, a second INTEGER column overwrites the first, so the first column reads b, not a |
| Memo.EmptyMemo | src/optimizer/memo.cpp:25 | a new memo has no groups, an empty index, and satisfies the memo invariant |
| Memo.AddNewGroup | src/optimizer/memo.cpp:72-76 | the new id is the previous group count; exactly one empty group with that id is appended; earlier groups and the index are unchanged; the invariant is kept |
| Memo.AddNewGroups | src/optimizer/memo.cpp:72-76 | n successive calls hand out the ids count, count+1, ... in call order and add exactly n groups |
| Memo.GetGroupByID | src/optimizer/memo.cpp:70 | the id must name an existing group; in a valid memo the group has that id and all its expressions are indexed to it |
| Memo.Groups | src/optimizer/memo.cpp:68 | group i sits at position i and is the group GetGroupByID(i) returns |
| Memo.InsertExpressionInto | src/optimizer/memo.cpp:32-66 | only a miss needs the target to be undefined or an existing group; leaf: no allocation, origin group returned, conflicting target is an assertion error; hit: representative and its group returned, memo untouched, conflicting target an error; miss: expression indexed and added, as alternative or enforcer, to a brand-new group or to the target, all other groups unchanged; the memo invariant is kept |
| Memo.MissKeepsValid | src/optimizer/memo.cpp:52-64 | the miss branch keeps the group ids dense and the index consistent with the groups |
| Memo.MissKeepsIndexSound | src/optimizer/memo.cpp:52-64 | after a miss every indexed expression is a non-leaf that sits in the group the index names |
| Memo.MissKeepsGroupsIndexed | src/optimizer/memo.cpp:52-64 | after a miss every expression of every group is indexed with that group |
| Memo.InsertExpression | src/optimizer/memo.cpp:27-30 | the overload never fails and behaves as insertion with an undefined target |
| Memo.IndexedInExactlyOneGroup | src/optimizer/memo.cpp:53-63 | an indexed expression is contained in its indexed group and in no other |
| Memo.InsertTwiceIsIdempotent | src/optimizer/memo.cpp:45-64 | inserting the same non-leaf expression twice yields the same group id, and the second insertion leaves the memo unchanged |
| Memo.ConflictingTargetFails | src/optimizer/memo.cpp:48-49 | re-inserting a known expression with any explicit target other than its own group fails, whether or not that target is an existing group |
| Memo.LeafNeverAllocates | src/optimizer/memo.cpp:36-41 | a leaf insertion leaves the memo unchanged and yields the leaf's origin group |
| OperatorToPlanTransformer.InitialState | src/optimizer/operator_to_plan_transformer.cpp:26 | a freshly constructed transformer has no output plan and empty output, left and right column lists |
| OperatorToPlanTransformer.ConvertToAbstractExpression | src/optimizer/operator_to_plan_transformer.cpp:179-184 | the conversion stub yields null for every operator tree |
| OperatorToPlanTransformer.BuildSchemaFromColumns | src/optimizer/operator_to_plan_transformer.cpp:186-193 | one schema column per optimizer column, in the same order |
| OperatorToPlanTransformer.BuildProjectInfoFromExprs | src/optimizer/operator_to_plan_transformer.cpp:195-202 | one target per expression; target i puts expression i at output position i |
| OperatorToPlanTransformer.ConcatLeftAndRightColumns | src/optimizer/operator_to_plan_transformer.cpp:204-208 | the left columns followed by the right columns; the length is the sum |
| OperatorToPlanTransformer.ColumnIndexOids | src/optimizer/operator_to_plan_transformer.cpp:36-41 | succeeds exactly when every column is a table column, and then yields their index oids in order |
| OperatorToPlanTransformer.VisitOpExpression | src/optimizer/operator_to_plan_transformer.cpp:164-177 | after any successful visit the left and right column lists are as they were before it |
| OperatorToPlanTransformer.VisitScan | src/optimizer/operator_to_plan_transformer.cpp:34-49 | every column must be a table column; the plan is a scan of the table with the columns' index oids in order and the converted predicate; the scan's columns become the output and left columns |
| OperatorToPlanTransformer.VisitComputeExprs | src/optimizer/operator_to_plan_transformer.cpp:53-90 | exactly 2 children; child 0 is lowered first and its errors win; the plan is a projection whose only child is the lowered child, with one target per target entry at positions 0..n-1, an empty schema and no output columns |
| OperatorToPlanTransformer.VisitFilter | src/optimizer/operator_to_plan_transformer.cpp:92-105 | exactly 2 children; child 0 is lowered first; the plan is a table-less scan with the converted predicate over the lowered child; the child's output columns pass through unchanged |
| OperatorToPlanTransformer.VisitInnerNLJoin | src/optimizer/operator_to_plan_transformer.cpp:107-134 | exactly 3 children, and otherwise the state is unchanged |
| OperatorToPlanTransformer.VisitNothing | src/optimizer/operator_to_plan_transformer.cpp:136-162 | the joins other than the inner nested-loop join leave the state unchanged |
| OperatorToPlanTransformer.VisitProject | src/optimizer/operator_to_plan_transformer.cpp:51 | the empty Project visitor leaves the state unchanged |
| OperatorToPlanTransformer.ConvertOpExpression | src/optimizer/operator_to_plan_transformer.cpp:28-32 | lowering from a fresh transformer yields a plan for Scan, ComputeExprs and Filter roots and none for any other root |
| OperatorToPlanTransformer.LoweringIgnoresLeftRight | src/optimizer/operator_to_plan_transformer.cpp:164-177 | the outcome of a visit, its plan and its output columns do not depend on the incoming left/right column lists |
| OperatorToPlanTransformer.OutputColumnsComeFromScans | src/optimizer/operator_to_plan_transformer.cpp:34-105 | every output column after lowering was an output column before or is listed by a scan in the tree |
| OperatorToPlanTransformer.ProjectFilterScanScenario | src/optimizer/operator_to_plan_transformer.cpp:28-105 | a projection over a filter over a scan lowers to projection, then table-less scan, then table scan with the column oids in order |
| FunctionExpression.DefaultValue | src/include/expression/function_expression.h:75 | a default value has the INVALID type |
| FunctionExpression.FirstTypeMismatch | src/include/expression/function_expression.h:157-169 | finds the first position whose child type differs from the declared type, or reports that all match |
| FunctionExpression.CheckChildrenTypes | src/include/expression/function_expression.h:145-170 | passes exactly when the counts agree and every type matches pointwise; otherwise a count error, or a type error at the first mismatching position naming both types |
| FunctionExpression.NewByName | src/include/expression/function_expression.h:29-38 | named, with no function pointer, not a UDF, return type INVALID |
| FunctionExpression.NewWithPointer | src/include/expression/function_expression.h:40-51 | built exactly when the children's types match the argument types, with an empty name; otherwise the type check's error |
| FunctionExpression.SetFunctionExpressionParameters | src/include/expression/function_expression.h:54-61 | pointer and return type are set even when the check fails; the UDF flag is left alone; the check passes exactly when the types match |
| FunctionExpression.SetUDFType | src/include/expression/function_expression.h:63-65 | only the UDF flag changes |
| FunctionExpression.ChildValues | src/include/expression/function_expression.h:71-74 | all children evaluated, left to right, value i from child i; the first failing child's error stops the evaluation |
| FunctionExpression.Evaluate | src/include/expression/function_expression.h:67-123 | a successful call has the declared return type; child errors come first; a built-in call needs its pointer, passes on any error the built-in raises, and rejects a result of another type; a UDF must be in the catalog and pass its argument check |
| FunctionExpression.CheckedCallGetsTypedArguments | src/include/expression/function_expression.h:54-61 | after a passing parameter check, the built-in gets one value per argument, each from the child of that argument's type |
| FunctionExpression.CopyAsWritten | src/include/expression/function_expression.h:132-136 | name, pointer, return type and children are copied; the UDF flag is always false |
| FunctionExpression.CopyAsWrittenLosesUdf | src/include/expression/function_expression.h:132-136 | a by-name UDF call whose arguments match the catalog evaluates to the default value (catalog return type INVALID) or to the unexpected-return-type error (any other type), while its as-written copy takes the built-in path and fails on the missing function pointer |
| FunctionExpression.Copy | src/include/expression/function_expression.h:125-136 | the copy as evidently intended, with `is_udf_(other.is_udf_)`: every field, the UDF flag included, is carried over (the source's Copy() goes through the constructor that resets the flag) |
| FunctionExpression.CopyEvaluatesAlike | src/include/expression/function_expression.h:125 | the copy evaluates exactly like the original under any children, catalog and built-ins |

## Left out

- Byte-swap intrinsics, `memcpy`, `memset` and pointer reinterpretation are pure functions over byte sequences. Unaligned access and the host's byte order are not modelled.
- `PrintRawData`: it only formats to stderr.
- `IntsHasher`: it relies on a foreign hash library (`boost::hash_combine`).
- `IntsComparator` and `IntsEqualityChecker` only wrap `LessThan` and `Equals`, which are modelled; the wrappers add nothing.
- Reading column values out of a tuple: `SetFromKey` and `SetFromTuple` take the column types and values as given sequences.
- IntsKeyLayout.SetFromKey: the source updates the key in place. After an unsupported column type it has already zeroed the key and written the earlier columns. The model's error carries no key, so it does not describe the key left behind by a failure.
- IntsKeyLayout.SetFromTuple: the same holds; after a failure the key is zeroed and partly written in the source, and the model returns no key.
- IntsKeyLayout.SetFromKey: the source writes past the key before it asserts `offset <= key_size_byte`. The model refuses the overflowing column with `KeyOverflow` instead, so it does not model writing beyond the array.
- IntsKeyLayout.LayOutAsWritten: a column whose bytes would run past the key is refused with `KeyOverflow` before it is written, while the source writes past the array and its assertion then checks only the offset handed back. Writing beyond the array is not modelled.
- The source of `Group::AddExpression` is not part of this model. `Group.AddExpression` assumes it appends to the alternatives or to the enforcers, with no deduplication of its own.
- On a miss, InsertExpression never calls `SetGroupID` itself. The model assumes `Group::AddExpression` records the group on the expression, so `Insertion.groupId` is the group the expression joined.
- Operator payloads and hashing are kept abstract. Two group expressions are equal when operator and child groups agree.
- `shared_ptr`/`unique_ptr` ownership and the visitor's double dispatch: these are replaced by datatypes and a match.
- Plan-node classes and `catalog::Schema` are abstract datatypes holding only what the transformer sets.
- The base class `AbstractExpression` is not part of this model. Its copy constructor is assumed to copy the return type and the children. Its one-argument constructor, which FunctionExpression's by-name constructor calls, is assumed to leave the return type INVALID.
- Scalar operators have no visitor of their own in the transformer. Visiting one is modelled as doing nothing.
- `ConvertToAbstractExpression` is modelled as it is, a stub that returns null.
- OperatorToPlanTransformer.VisitScan: the source reads `children[1]` without a check. The model reports `MissingChild` for fewer than two children instead of reading out of bounds.
- OperatorToPlanTransformer.VisitComputeExprs: the same applies to the first child of each target entry.
- FunctionExpression.Evaluate: both return-type checks compare `ret.GetElementType()` with the declared type. The model takes that as the value's own type, `Value.typ`. The definition of `type::Value` is not part of this model.
- FunctionExpression.DefaultValue: the model assumes a default-constructed `type::Value` has the INVALID type.
- The UDF catalog lookup takes the transaction from the executor context. The catalog here is a function from names to catalog entries, and transactions are not modelled.
- Exception message texts are not modelled. Errors carry the function name and the numbers or types the message would print.

## Findings

| source | as written | input that shows it | evidently intended | confidence | as-written member | corrected member |
|---|---|---|---|---|---|---|
| src/include/index/ints_key.h:418 | `SetFromColumn` is declared to return `size_t`, and its doc comment promises the next offset, but it ends in a bare `return;` | a key schema of two INTEGER columns holding a and b with a != b: callers assign the returned offset, so the second column need not land after the first; when the value happens to be 0 it overwrites the first and the key reads b in column 0 | `return offset;`, the offset advanced by the column width | high, not executed | IntsKeyLayout.SetFromKeyAsWrittenOverwrites | IntsKeyLayout.SetFromKey |
| src/include/expression/function_expression.h:136 | the copy constructor sets `is_udf_(false)` | a UDF call built by name and marked as a UDF, present in the catalog with matching argument types: the original consults the catalog, yielding the default value for a declared return type of INVALID and the unexpected-return-type error otherwise, while its copy takes the built-in path with a null function pointer and trips `PL_ASSERT(func_ptr_ != nullptr)` (h:109) | `is_udf_(other.is_udf_)`, so a copy evaluates like the original | medium, not executed | FunctionExpression.CopyAsWrittenLosesUdf | FunctionExpression.CopyEvaluatesAlike |
