# Constant folding, propagation, widths and addresses of the Verilog front end

This project models the part of the Icarus Verilog front end (`qflow-org/iverilog`) that
computes with constants: the expression folder, the strength reductions, the width inference
that decides how wide an expression is evaluated, constant propagation over the netlist, bit
addressing, l-value concatenations and enumeration values. It states what each of them is for
and proves it. `dafny verify dfyconfig.toml` checks everything.

- `FourState`, `TwosComplement`, `Verinum`: four-valued bits, vectors as integers, and the number
  class with its ripple adder, shift-and-add multiplier, comparison scans and trimming.
- `Division`: the long-division loops behind `/` and `%`, and `$clog2`.
- `NetExpr`: elaborated expressions and what they mean in an environment that gives every signal
  a vector, after sections 5.1, 5.2.1, 5.4 and 5.5 of IEEE 1364-2005. A select outside its vector is
  x there, for two-state vectors too; section 11.5.1 of IEEE 1800-2012 would give them 0.
- `OperatorMeaning`: what each operator means on integers and on single bits, stated without the
  functions that compute it.
- `Folding`, `FoldComplete`, `FoldExact`, `FoldMonotone`: the folder as a function on trees; it
  preserves the meaning, it never takes back a known bit; exactly which trees it turns into
  constants; and the exact conditions where it is wrong.
- `EvalLoops`, `NetNode`: the loops of the folder over bits, and the folder in place over
  expression objects that replace their operands; both refine `Folding`.
- `StrengthReduction`: the rewrites made while multiplications and shifts are elaborated.
- `WidthTest`, `WidthModes`, `WidthSound`: the mode machine of `test_width`, as a function and in
  place, what the operands of a tree make of its width, sign and mode, and what the widths guarantee.
- `Netlist`, `Rewrites`, `PartBlend`, `Cprop`, `SecondRun`: netlists with a relational meaning
  (section 4.6.1 of IEEE 1364-2005), the rewrites of constant propagation, its fixpoint loop over
  a mutable design whose nexuses remember answers, and what one run leaves for a second.
- `NexusDrivers`: the link list of a nexus, the questions asked of it, the answer it remembers,
  and what joining and parting does to that answer.
- `Addressing`: constant and run-time bit and part selects in both range directions.
- `LvalChain`: the linked chain of a procedural l-value and the part selects of the net form.
- `Enumeration`: the loop that gives enumeration names their values.

A number is a vector of bits, least significant first, with a length flag and a sign flag, as in
the number class. `Value` reads a vector continued with a pad bit as an integer and `Encode` keeps
the low bits of an integer; almost every arithmetic claim is an equation between the two.

## Where the code does not do what one would expect

For each item the first lemma named is the exact condition and the second a concrete input.

- A comparison decided from the range of a two-state operand is wrong when that operand is an
  out-of-range select, read as x (`FoldExact.RangeDecisionExact`,
  `FoldExact.RangeDecisionOnWildSelect`).
- The zero rules for `*` and shifts trust two-state typing in the same way
  (`StrengthReduction.ElabMultExact`, `StrengthReduction.ZeroProductTrustsTwoState`;
  `StrengthReduction.ElabShiftExact`, `StrengthReduction.ZeroShiftTrustsTwoState`).
- A variable shift may get a width below its left operand's (`WidthTest.ShiftNarrowsExactly`,
  `WidthTest.VariableShiftMayNarrow`).
- A single-bit literal `'1` fills the width of its place, so widths tested to lose nothing do not
  make it the integer 1 (`WidthSound.LiteralExactness`, `WidthSound.SingleBitIsNotOne`; for `<`
  also `WidthSound.SingleBitCompare`).
- A unary minus gets no extra bit (`WidthSound.NegationExactness`, `WidthSound.MinusMostNegative`).
- `abs()` does not disable pruning (`WidthSound.AbsLowPart`; `WidthSound.AbsNeedsTheSign` with
  `WidthSound.AbsIsPruned`).
- A root port with a pull counts as constant though the outside may drive it
  (`Netlist.ConstDrivenExactness`, `Netlist.PulledPortIsNotConstant`).
- One run of constant propagation may leave work for a second (`SecondRun.WorkLeft`,
  `SecondRun.SecondRunFindsMore`).
- Joining nexuses can leave a remembered answer that a fresh look would not give
  (`NexusDrivers.JoinExactness`, `NexusDrivers.JoinMayKeepAStaleAnswer`), and so can linking the
  enable of a tran (`NexusDrivers.Nexus.ConnectLink`, `NexusDrivers.EnableKeepsAStaleAnswer`).
- The procedural l-value `[b-:w]` on a vector declared `[n:n]` starts at another bit than the
  other forms (`Addressing.AddressesCoincide`, `Addressing.OneBitRangeDiffers`).
- A run-time `[b+:w]` on a reversed range may be calculated unsigned and wrap, and a negative
  address constant is not sign-extended beyond 64 bits (`Addressing.NormalizedExactness`;
  `Addressing.UnsignedAddressWraps` and `Addressing.NegativeOffsetWraps`).
- In an enumeration of one signed bit the increment is -1 and the wrap limit is 2, so a wrap goes
  unnoticed (`Enumeration.InferredExactness`, `Enumeration.OneSignedBitWraps`).

INTEGER signals are linked passively, so the branch for them in the driven mask is dead
(`NexusDrivers.IntegersCoverNothing`). Three more facts hold of a loop or a fold taken by itself, on
inputs that elaboration does not give it: `===` with a wider right operand looks at its first extra
bit only (`EvalLoops.CaseEqExactness`), `==` on unequal widths can turn a mismatch into x
(`EvalLoops.EqExactness`), and a constant select with an undefined position reads bit 0
(`FoldExact.SelectFoldExact`). Elaboration resizes the operands of a comparison to one width
(`qflow-org/iverilog/elab_expr.cc:645-653`) and answers undefined constant indices of parameters
itself (`qflow-org/iverilog/elab_expr.cc:4069-4084`, `qflow-org/iverilog/elab_expr.cc:4288-4301`).

## Model

| member | source | states |
|---|---|---|
| `Verinum.RippleSum` | `qflow-org/iverilog/verinum.cc:1029-1081` | the carry loop gives the low bits of the sum of the two padded integers and the carry |
| `Verinum.Plus` | `qflow-org/iverilog/verinum.cc:1029-1081` | x for an undefined operand; otherwise the low bits of the integer sum, the sum itself when unsized |
| `Verinum.Minus` | `qflow-org/iverilog/verinum.cc:1083-1131` | low bits of the integer difference; for unsized operands of one sign the difference itself exactly when it is signed or not negative |
| `Verinum.Negate` | `qflow-org/iverilog/verinum.cc:1133-1173` | low bits of the negated integer; the negated integer itself for a signed unsized operand |
| `Verinum.Times` | `qflow-org/iverilog/verinum.cc:1175-1214` | low bits of the integer product, the product itself when unsized; x for an undefined operand |
| `Verinum.ShiftAndAdd` | `qflow-org/iverilog/verinum.cc:1175-1214` | the shift-and-add loop gives the low bits of the product of the two padded integers |
| `Verinum.ScanOrder` | `qflow-org/iverilog/verinum.cc:854-953` | the three scans from the top decide < or <= of the padded integers |
| `Verinum.Compare` | `qflow-org/iverilog/verinum.cc:854-953` | on defined operands < and <= are those of the integers, signed only when both operands are |
| `Verinum.Trim` | `qflow-org/iverilog/verinum.cc:687-743` | trimming shortens only unsized numbers: it keeps the integer, cuts off only copies of the pad that stays on top, and leaves at most one sign bit or one leading zero |
| `Verinum.CastKeepsValue` | `qflow-org/iverilog/verinum.cc:646-685` | widening keeps the integer of a defined number, narrowing keeps its low bits |
| `Verinum.FromLongExact` | `qflow-org/iverilog/verinum.cc:317-337` | the number made from a native integer has that integer as its value |
| `FoldExact.AsLongExact` | `qflow-org/iverilog/verinum.cc:449-500` | conversion to a native integer is exact for every number within a long |
| `Division.SignificantBits` | `qflow-org/iverilog/verinum.cc:1354-1360` | the scan finds the least power of two above the number |
| `Division.LongDivision` | `qflow-org/iverilog/verinum.cc:1373-1384` | the restoring loop gives quotient and remainder of the integers |
| `Division.UnsignedDivide` | `qflow-org/iverilog/verinum.cc:1347-1384` | the integer quotient, at whatever lengths |
| `Division.UnsignedModulus` | `qflow-org/iverilog/verinum.cc:1386-1417` | the integer remainder, at whatever lengths |
| `Division.DivideWide` | `qflow-org/iverilog/verinum.cc:1453-1470` | dividing magnitudes and restoring signs and width truncates towards zero; the remainder has the sign of the dividend |
| `Division.Divide` | `qflow-org/iverilog/eval_tree.cc:799-832` | / and % of two sized constants, through the native and the long-division branches alike: on integers a quotient leaves a remainder smaller than the divisor and zero or of the sign of the dividend, and a remainder is such a one and leaves a multiple of the divisor, except for the most negative number over -1; x for an undefined operand or a zero divisor |
| `Division.UnsignedLog2` | `qflow-org/iverilog/eval_tree.cc:1671-1677` | the halving loop returns the least exponent whose power of two reaches the argument |
| `Division.CeilLog2` | `qflow-org/iverilog/eval_tree.cc:1639-1695` | $clog2: x for an undefined argument; a negative one is read without its sign at the least width that holds it when unsized, at its own when sized, and counts at least integer_width |
| `EvalLoops.EvalAdd` | `qflow-org/iverilog/eval_tree.cc:198-238` | constant + and - of equal-width operands are the low bits of the integer result, x if undefined |
| `EvalLoops.EvalMult` | `qflow-org/iverilog/eval_tree.cc:1014-1036` | constant * is the low bits of the product |
| `EvalLoops.EvalBits` | `qflow-org/iverilog/eval_tree.cc:240-316` | the bit loops of & | ^ ~^ follow the single-bit tables on padded operands |
| `EvalLoops.ConstLogical` | `qflow-org/iverilog/netmisc.cc:1231-1269` | 1 if some bit is 1, x if none is but some bit is unknown, 0 otherwise |
| `EvalLoops.EvalLogic` | `qflow-org/iverilog/eval_tree.cc:868-933` | && and || of the two truth values |
| `EvalLoops.MustBeLeeq` | `qflow-org/iverilog/eval_tree.cc:359-382` | the range test answers yes exactly when the largest value of a two-state operand of its width and sign satisfies the bound |
| `EvalLoops.EvalOrder` | `qflow-org/iverilog/eval_tree.cc:318-538` | the four order comparisons: of two defined constants of one sign 1 exactly when a < b, a <= b, a > b, a >= b on the integers; otherwise decided from one constant and the range of the other operand, or left alone |
| `EvalLoops.EvalEqEq` | `qflow-org/iverilog/eval_tree.cc:556-671` | the early-exit scans of == and != compute the coded verdict |
| `EvalLoops.EqExactness` | `qflow-org/iverilog/eval_tree.cc:556-671` | the coded == agrees with "0 on a mismatch, else x if undefined" exactly when no definite mismatch is masked by an unknown extra bit (or unknown common bit); always on equal widths, which are all that elaboration makes |
| `EvalLoops.EvalEqEqEq` | `qflow-org/iverilog/eval_tree.cc:673-727` | the scans of === and !== compute the coded verdict |
| `EvalLoops.CaseEqExactness` | `qflow-org/iverilog/eval_tree.cc:673-727` | the coded === differs from bitwise equality of the padded operands exactly when the common bits are equal, the first extra bit of a longer right operand is the pad and some higher one is not; never on equal widths, which are all that elaboration makes |
| `EvalLoops.CaseEqMissesHighBits` | `qflow-org/iverilog/eval_tree.cc:712-716` | a concrete pair that the scan taken by itself gets wrong; elaboration never makes it |
| `EvalLoops.ShiftBits` | `qflow-org/iverilog/verinum.cc:1306-1345` | sized shifts move bits and fill with 0 or the sign |
| `EvalLoops.EvalShift` | `qflow-org/iverilog/eval_tree.cc:1075-1114` | constant shifts: x for an undefined amount, otherwise the shifted bits, for amounts beyond the width too |
| `EvalLoops.EvalConcat` | `qflow-org/iverilog/eval_tree.cc:1166-1209` | the two-level fill loop builds the replicated concatenation, last operand least significant, or nothing when an operand is not constant |
| `EvalLoops.EvalSelect` | `qflow-org/iverilog/eval_tree.cc:1211-1258` | a constant select reads x outside the vector, below it too |
| `EvalLoops.EvalExtend` | `qflow-org/iverilog/eval_tree.cc:1225-1247` | an extension fills with the sign bit when signed and with 0 otherwise |
| `EvalLoops.EvalBlend` | `qflow-org/iverilog/eval_tree.cc:1346-1400` | the blend keeps agreeing bits, z included, and makes the others x |
| `EvalLoops.EvalUnary` | `qflow-org/iverilog/eval_tree.cc:1435-1492` | unary + - ~ and absolute value of a constant |
| `EvalLoops.EvalReduce` | `qflow-org/iverilog/eval_tree.cc:1510-1600` | the counting loop of the reductions gives the reduction of all bits |
| `OperatorMeaning.ArithmeticMeaning` | `qflow-org/iverilog/eval_tree.cc:198-238` | +, - and * of defined operands are the sum, the difference and the product modulo 2^w, and any unknown bit makes the result x |
| `OperatorMeaning.DivisionMeaning` | `qflow-org/iverilog/eval_tree.cc:799-832` | for a quotient q and a remainder m of one node width and sign: a = q b + m, m is smaller than b and zero or of the sign of a; the equation fails exactly for the most negative number over -1 |
| `OperatorMeaning.DivisionUnknown` | `qflow-org/iverilog/eval_tree.cc:799-832` | a zero divisor or an unknown bit gives x |
| `OperatorMeaning.UnaryMeaning` | `qflow-org/iverilog/eval_tree.cc:1435-1492` | on a defined operand: + keeps it, - is its negative and ~ its complement modulo 2^w, the absolute value is its magnitude but for the most negative number |
| `OperatorMeaning.UnaryUnknown` | `qflow-org/iverilog/eval_tree.cc:1435-1492` | with an unknown bit + keeps the operand, - and the absolute value are x, and ~ inverts the bits that are known |
| `OperatorMeaning.OrderMeaning` | `qflow-org/iverilog/eval_tree.cc:318-538` | < <= > >= of defined operands of one sign are those of the integers |
| `OperatorMeaning.OrderUnknown` | `qflow-org/iverilog/eval_tree.cc:318-538` | and x when either holds an unknown bit |
| `OperatorMeaning.EqualityMeaning` | `qflow-org/iverilog/eval_tree.cc:556-727` | the equalities of defined operands compare integers; with unknown bits === compares bit for bit and == is 0 on a definite mismatch and x otherwise |
| `OperatorMeaning.BitsMeaning` | `qflow-org/iverilog/eval_tree.cc:240-316` | at each bit and is 1 when both are 1 and 0 when one is 0, or likewise, xor of known bits is inequality, anything else is x, and the negated forms are their complements |
| `OperatorMeaning.ReductionMeaning` | `qflow-org/iverilog/eval_tree.cc:1510-1600` | each reduction by counting the zeros and ones of the vector |
| `OperatorMeaning.LogicMeaning` | `qflow-org/iverilog/eval_tree.cc:868-933` | && and || by which bits the operands hold |
| `OperatorMeaning.ShiftMeaning` | `qflow-org/iverilog/eval_tree.cc:1075-1114` | << multiplies by 2^n modulo 2^w, >> divides the unsigned number and >>> the signed one by 2^n, rounding down, for every amount |
| `OperatorMeaning.ShiftUnknown` | `qflow-org/iverilog/eval_tree.cc:1075-1114` | an unknown amount gives x; by a known one each bit, unknown ones included, moves by the amount, and 0 or the sign comes in |
| `OperatorMeaning.ConcatMeaning` | `qflow-org/iverilog/eval_tree.cc:1166-1209` | the last operand is the low part of a concatenation, and every replica is the same |
| `OperatorMeaning.ExtendMeaning` | `qflow-org/iverilog/eval_tree.cc:1225-1247` | an extension to no less than the width keeps the integer, a cut keeps it modulo 2^w |
| `OperatorMeaning.SelectMeaning` | `qflow-org/iverilog/eval_tree.cc:1211-1258` | a select inside its vector is the integer divided by 2^p, modulo 2^w; outside it is x |
| `OperatorMeaning.TernaryMeaning` | `qflow-org/iverilog/eval_tree.cc:1280-1400` | a condition holding a 1 picks the first branch, one of zeros the second, and any other keeps the bits on which both agree |
| `Folding.OrderConstSound` | `qflow-org/iverilog/eval_tree.cc:318-538` | a folded order comparison is the comparison of any defined values the operands may have |
| `Folding.Reassociate` | `qflow-org/iverilog/eval_tree.cc:134-196` | (a op1 c1) op2 c2 and the rewritten form with one constant have the same value for every a, defined or not |
| `Folding.FoldShape` | `qflow-org/iverilog/eval_tree.cc:92-98` | folding keeps width, sign and well-formedness, and yields sized constants where it must |
| `Folding.FoldSound` | `qflow-org/iverilog/eval_tree.cc:134-1600` | the folded tree, divisions and remainders included, evaluates to the same vector, in every environment where no range-decided operand holds x or z and constant select positions fit a long |
| `FoldComplete.FoldsExactly` | `qflow-org/iverilog/eval_tree.cc:92-1600` | exactly which trees become constants: those without signals, nand and nor, outside the branch that a known condition does not pick and the operand of an order comparison that its constant bound already decides |
| `FoldComplete.ClosedBecomesConst` | `qflow-org/iverilog/eval_tree.cc:92-1600` | every tree without signals, nand and nor becomes a constant |
| `FoldComplete.FoldComputes` | `qflow-org/iverilog/eval_tree.cc:92-1600` | a tree that folds becomes the constant of its value, with its width and sign |
| `FoldComplete.FoldedTernary` | `qflow-org/iverilog/eval_tree.cc:1280-1344` | a condition that folds leaves its picked branch, folded, whatever that is; any other leaves both branches as they were |
| `FoldComplete.RangeMeaning` | `qflow-org/iverilog/eval_tree.cc:359-382` | a range decides exactly when the operand is typed two-state and every value of its width and sign meets the bound |
| `FoldComplete.TwoStateByCarriers` | `qflow-org/iverilog/net_expr.cc:62-245` | a tree is typed two-state exactly when the parts that carry its type are defined constants, two-state signals or concatenations, or case comparisons; arithmetic never is |
| `FoldComplete.FoldedDivision` | `qflow-org/iverilog/eval_tree.cc:799-832` | / and % of two constants both fold, and to the integer quotient and remainder, except for the one overflow |
| `FoldComplete.FoldedOrder` | `qflow-org/iverilog/eval_tree.cc:318-538` | the four comparisons of two constants fold to 1 exactly when the integers compare so |
| `FoldComplete.FoldCombinesSums` | `qflow-org/iverilog/eval_tree.cc:134-196` | after folding no chain of sums and differences ends in two constants |
| `FoldExact.BoundedSafe` | `qflow-org/iverilog/eval_tree.cc:359-382` | if every select stays inside its vector and two-state concatenations have two-state parts, nothing typed two-state is x or z and folding is safe |
| `FoldExact.FoldPreservesMeaning` | `qflow-org/iverilog/eval_tree.cc:134-1600` | the same theorem under the bounds condition alone, with width and sign kept |
| `FoldExact.SelectFoldExact` | `qflow-org/iverilog/eval_tree.cc:1211-1258` | folding a constant select is right exactly when the position is defined and within a long, or every bit of the vector at the position read instead is x |
| `FoldExact.UndefinedPositionReadsBitZero` | `qflow-org/iverilog/eval_tree.cc:1236-1247` | a concrete undefined position that the fold taken by itself answers with bit 0; elaboration answers such an index of a parameter before it builds a select |
| `FoldExact.RangeDecisionExact` | `qflow-org/iverilog/eval_tree.cc:359-382` | a comparison decided from a range is right exactly when the operands hold no x or z |
| `FoldExact.RangeDecisionOnWildSelect` | `qflow-org/iverilog/net_expr.cc:432-443` | an out-of-range variable select of a two-state vector is typed two-state, is x by section 5.2.1 of IEEE 1364-2005, and is decided wrongly |
| `FoldMonotone.EvalMonotone` | `qflow-org/iverilog/eval_tree.cc:240-1600` | without === and !==, making x and z bits known anywhere in the tree or its signals never changes a known result bit |
| `FoldMonotone.FoldedBitsAreFinal` | `qflow-org/iverilog/eval_tree.cc:240-1600` | the 0 and 1 bits of a folded constant are those of every refinement of the original tree, its signals included |
| `FoldMonotone.CaseEqualityIsNotMonotone` | `qflow-org/iverilog/eval_tree.cc:673-727` | why === is excluded: a concrete pair |
| `NetNode.Node.EvalTree` | `qflow-org/iverilog/eval_tree.cc:92-98` | in place: the node, or the replacement it returns, has the folded tree, and operands share nothing |
| `NetNode.Node.EvalKid` | `qflow-org/iverilog/eval_tree.cc:92-98` | an operand is replaced by its folded form, without a context |
| `NetNode.Node.EvalExpr` | `qflow-org/iverilog/netmisc.cc:1035-1062` | the replacement is the folded tree, a constant being padded or cut to the context width |
| `NetNode.FoldedInContext` | `qflow-org/iverilog/netmisc.cc:1035-1062` | folding for a context keeps the meaning: a constant has the integer of the tree to as many bits as the context gives, all of it when they are enough |
| `NetNode.Node.CombineConstants` | `qflow-org/iverilog/eval_tree.cc:134-196` | the left operand is replaced by a copy of its own left operand and the right one by the combined constant |
| `NetNode.Node.EvalConcatNode` | `qflow-org/iverilog/eval_tree.cc:1116-1164` | operands that are constant already are left alone, the rest are folded, and constants are joined |
| `NetNode.Node.EvalTernaryNode` | `qflow-org/iverilog/eval_tree.cc:1280-1344` | the condition is folded first; a known one picks a copy of one folded branch, an unknown one folds both and blends constants |
| `NetNode.EvalDouble` | `qflow-org/iverilog/eval_tree.cc:92-98` | the constant of a two-operand node; nothing exactly when folding leaves the node or, for + and -, combines two constants below it |
| `NetNode.EvalSingle` | `qflow-org/iverilog/eval_tree.cc:1402-1406` | the constant of a one-operand node; nothing exactly when the operand is no constant |
| `NetNode.Node.Dup` | `qflow-org/iverilog/eval_tree.cc:168-190` | the copy of a subtree equals it and shares no object with it |
| `StrengthReduction.ElabMultExact` | `qflow-org/iverilog/elab_expr.cc:528-564` | swapping constants to the right, an undefined and a zero constant factor keep the value exactly when a factor assumed two-state by the zero rule holds no x or z |
| `StrengthReduction.ElabShiftExact` | `qflow-org/iverilog/elab_expr.cc:932-1072` | zero operand, undefined amount, shift by zero, over-shift to zero and signed over-shift keep the value at every width and sign exactly when the amount assumed two-state by the zero rule is defined |
| `StrengthReduction.ElabMultShape` | `qflow-org/iverilog/elab_expr.cc:528-564` | which products are simplified: exactly those with an unknown constant and a four-state factor, or a zero constant and a two-state one; any other stays, its constant on the right |
| `StrengthReduction.ElabShiftShape` | `qflow-org/iverilog/elab_expr.cc:932-1072` | which shifts are left as they are: a constant unless it is zero and the amount two-state, and anything else by an amount that is not constant or lies from 1 to w - 1 |
| `StrengthReduction.ZeroProductTrustsTwoState` | `qflow-org/iverilog/elab_expr.cc:528-564` | a concrete select that is typed two-state and is x: zero times it becomes zero |
| `StrengthReduction.ZeroShiftTrustsTwoState` | `qflow-org/iverilog/elab_expr.cc:932-1072` | and zero shifted by it |
| `WidthTest.TestMeans` | `qflow-org/iverilog/elab_expr.cc:259-343` | from any mode: sign and pruning width do not depend on the mode, the mode never falls, the width is the standard one or, when the mode ends wide, the lossless one |
| `WidthTest.RetestStable` | `qflow-org/iverilog/elab_expr.cc:259-343` | a test that ends lossless or upsized returns what a test started lossless returns |
| `WidthTest.StrictModeMayFall` | `qflow-org/iverilog/elab_expr.cc:5549-5579` | with strict widths an unsized literal lowers the mode |
| `WidthTest.VariableShiftMayNarrow` | `qflow-org/iverilog/elab_expr.cc:725-880` | the guess for a variable shift of a wide literal is narrower than the literal |
| `WidthTest.ShiftNarrowsExactly` | `qflow-org/iverilog/elab_expr.cc:725-880` | that happens exactly in the expanding modes, for a variable left shift of an operand with a mode of its own that is wider than an integer, by an amount that may exceed 0 |
| `WidthTest.TestCompareMeans` | `qflow-org/iverilog/elab_expr.cc:566-627` | both operands of a comparison get one width: no less than either lossless width when the mode ends wide, and the larger of the two standard widths when it does not expand |
| `WidthTest.CompareWidths` | `qflow-org/iverilog/elab_expr.cc:566-627` | in every configuration both widths are the larger of the widths that the operands return, the right one tested again when the left one widened the mode, plus one in an expanding mode below the integer width |
| `WidthTest.ExpandMeans` | `qflow-org/iverilog/netmisc.cc:809-813` | a test that starts in EXPAND and does not end wide returns one bit more than the wider operand for + and -, the sum of both widths for *, and the wider one elsewhere |
| `WidthTest.KnownShiftGrows` | `qflow-org/iverilog/elab_expr.cc:725-880` | in an expanding mode a left shift of an operand with a mode of its own grows by a known amount |
| `WidthModes.WidestOperand` | `qflow-org/iverilog/elab_expr.cc:259-343` | the standard width is that of the widest context-determined operand, and the tree is signed when all of them are |
| `WidthModes.LongestOperand` | `qflow-org/iverilog/elab_expr.cc:298-323` | where pruning is not disabled the pruning width is that of the longest operand |
| `WidthModes.ModeMeans` | `qflow-org/iverilog/elab_expr.cc:5549-5579` | without shifts the mode ends wide exactly when it starts so or some operand has no bounded width; otherwise an unsized literal makes a sized mode unsized and nothing else changes it |
| `WidthModes.LosslessMode` | `qflow-org/iverilog/elab_expr.cc:301-306` | a lossless mode becomes upsizing exactly when somewhere signs are mixed or a signed value is shifted right |
| `WidthTest.PNode.TestWidth` | `qflow-org/iverilog/elab_expr.cc:259-343` | in place: the fields and the mode left behind are those of the functional test |
| `WidthTest.PNode.TestCond` | `qflow-org/iverilog/elab_expr.cc:5658-5717` | the same for ?:, whose first branch is tested again when the second widens the mode |
| `WidthTest.PNode.TestUnary` | `qflow-org/iverilog/elab_expr.cc:5880-5917` | the same for unary and reduction operators |
| `WidthTest.PNode.TestShift` | `qflow-org/iverilog/elab_expr.cc:725-880` | the same for shifts, which test their left operand from the sized mode |
| `WidthSound.FieldWidthIsExact` | `qflow-org/iverilog/elab_expr.cc:146-154` | the width field that fix_width_ leaves is wide enough for the exact integer whenever the mode ends wide |
| `WidthSound.LosslessIsExact` | `qflow-org/iverilog/elab_expr.cc:296-343` | at the lossless width or wider, arithmetic modulo 2^W gives the exact integer, for signed trees of + - * and unsigned trees of + *, in which an unsigned single-bit literal 1 is no integer |
| `WidthSound.LosslessIsTight` | `qflow-org/iverilog/elab_expr.cc:307-317` | and for a sum and a product of variables that are all ones every bit of that width is needed |
| `WidthSound.DividedAt` | `qflow-org/iverilog/elab_expr.cc:319-322` | / and % at a width, on the integers of the operands there |
| `WidthSound.LosslessCompareIsExact` | `qflow-org/iverilog/elab_expr.cc:566-627` | a comparison by any of the eight operators whose mode ends wide compares exact integers |
| `WidthSound.SimpleCompareIsExact` | `qflow-org/iverilog/elab_expr.cc:566-627` | a comparison of two variables or sized literals is made at the larger width and compares their integers |
| `WidthSound.ExpandIsExact` | `qflow-org/iverilog/netmisc.cc:809-813` | the width that a test from EXPAND returns loses nothing |
| `WidthSound.KnownShiftIsExact` | `qflow-org/iverilog/elab_expr.cc:725-880` | nor does a left shift by a known amount at the width found for it |
| `WidthSound.GuessMeans` | `qflow-org/iverilog/elab_expr.cc:767-776` | the guess for an unknown amount is the largest number of its width, within the cap |
| `WidthSound.LiteralExactness` | `qflow-org/iverilog/elab_expr.cc:5611-5624` | a literal is read as its own integer at every width that holds it, exactly unless it is an unsigned single-bit literal 1 and the width is not its own |
| `WidthSound.SingleBitCompare` | `qflow-org/iverilog/elab_expr.cc:566-627` | '1 < r for an unsigned literal as wide as an integer is tested lossless, and compared as integers exactly when r is at most 1 |
| `WidthSound.SingleBitIsNotOne` | `qflow-org/iverilog/verinum.cc:661-667` | '1 < 'h1_0000_0000 is 0, where the integers 1 and 2^32 give 1 |
| `WidthSound.NegationExactness` | `qflow-org/iverilog/elab_expr.cc:5911-5917` | unary minus at the lossless width or wider is exact except on the most negative value of that width, and always at a greater width than the lossless one |
| `WidthSound.MinusMostNegative` | `qflow-org/iverilog/elab_expr.cc:5911-5917` | a concrete most negative value that unary minus keeps |
| `WidthSound.PruningDisabled` | `qflow-org/iverilog/elab_expr.cc:298-323` | the pruning width disables pruning exactly for / % >> >>> |
| `WidthSound.PruningSafe` | `qflow-org/iverilog/elab_expr.cc:298-323` | where pruning is not disabled, any two widths agree on the low bits of fully defined values, provided that every abs() agrees on its sign at the two |
| `WidthSound.AbsLowPart` | `qflow-org/iverilog/elab_expr.cc:5911-5914` | two widths of an absolute value agree on the low bits exactly when the signs agree or the value is its own negation at the smaller one |
| `WidthSound.PruningKeepsAssignedBits` | `qflow-org/iverilog/netmisc.cc:842-848` | under that condition, evaluating at the pruned width gives the assigned bits of evaluating at the full width |
| `WidthSound.AbsFreePruning` | `qflow-org/iverilog/netmisc.cc:842-848` | without abs() both hold with no condition on signs |
| `WidthSound.RightShiftNeedsTheCarry` | `qflow-org/iverilog/elab_expr.cc:868-871` | why >> disables pruning: a concrete sum |
| `WidthSound.AbsNeedsTheSign` | `qflow-org/iverilog/elab_expr.cc:5911-5914` | abs() does not disable pruning though its low bits depend on the sign: a concrete sum |
| `WidthSound.AbsIsPruned` | `qflow-org/iverilog/netmisc.cc:842-848` | and that sum, tested at the width of an integer, is pruned to the three bits of its target |
| `Netlist.ConstDrivenSettles` | `qflow-org/iverilog/link_const.cc:30-124` | a nexus with at most one constant driver settles to its driven vector and to nothing else |
| `Netlist.UndrivenMeaning` | `qflow-org/iverilog/link_const.cc:87-107` | a nexus that nothing drives settles to z, to zeros under tri0 and supply0, to ones under tri1 and supply1, and to nothing else |
| `Netlist.OpenPortSettles` | `qflow-org/iverilog/link_const.cc:60-71` | a plain port of a root module that nothing drives can settle to every vector |
| `Netlist.DriveMeaning` | `qflow-org/iverilog/vvp/resolv.cc:124-178` | drivers resolve to z, 0 or 1 exactly when all put that or z and, unless it is z, one does put it |
| `Netlist.JoinMeaning` | `qflow-org/iverilog/vvp/concat.cc:44-65` | bit k of an input of a concatenation comes above all bits of the inputs before it |
| `Netlist.MuxMeaning` | `qflow-org/iverilog/cprop.cc:151-194` | a select of 0 passes the first data input and of 1 the second |
| `Netlist.PartMeaning` | `qflow-org/iverilog/vvp/resolv.cc:53-71` | a part select puts its input at its base and z everywhere else |
| `Netlist.ConstDrivenExactness` | `qflow-org/iverilog/link_const.cc:72-85` | that is so exactly when the nexus is not an input or inout root port with a pull, since the port test is made on plain nets only |
| `Netlist.PulledPortIsNotConstant` | `qflow-org/iverilog/link_const.cc:72-85` | a concrete tri0 root port that counts as constant 0 and settles to 1 |
| `Netlist.SurvivorsKeepTheirValues` | `qflow-org/iverilog/cprop.cc:212-330` | equivalent netlists have exactly the same consistent values on the nexuses of the first, whatever nets were added |
| `Rewrites.ConcatEquivalent` | `qflow-org/iverilog/cprop.cc:81-123` | a concatenation of constants and the constant in its place have the same consistent valuations, unless an input is a pulled root port |
| `Rewrites.MuxEquivalent` | `qflow-org/iverilog/cprop.cc:151-194` | likewise for a two-way mux with a known constant select and the buffer in its place |
| `Rewrites.FloatingEquivalent` | `qflow-org/iverilog/cprop.cc:349-366` | an all-z constant can go, on any net and beside any drivers |
| `Rewrites.OnlyFloatingMayGo` | `qflow-org/iverilog/cprop.cc:354-366` | one bit that is not z makes the deletion visible on a wire it drives alone |
| `Rewrites.DanglingMayGo` | `qflow-org/iverilog/cprop.cc:368-425` | a constant on a nexus that no node reads and whose signals nobody sees can go: every value that is read or seen stays possible, and no new one appears |
| `Rewrites.ObservedAfter` | `qflow-org/iverilog/cprop.cc:429-452` | an equivalent netlist from which such constants then go keeps the values of all original nexuses that are still read or seen |
| `PartBlend.SortByBase` | `qflow-org/iverilog/cprop.cc:249-250` | a permutation of the part selects by increasing base |
| `PartBlend.BlendExact` | `qflow-org/iverilog/cprop.cc:283-323` | the laid-out bits fill the signal; bit i is that of the one part select covering i, or z in a gap |
| `PartBlend.LayoutWidth` | `qflow-org/iverilog/cprop.cc:283-296` | the widths of parts and gaps add up to the width of the signal |
| `PartBlend.SplicedEquivalent` | `qflow-org/iverilog/cprop.cc:298-329` | replacing the drivers of a nexus by a concatenation that carries what they resolve to keeps the consistent valuations; the new nets settle to z |
| `PartBlend.BlendEquivalent` | `qflow-org/iverilog/cprop.cc:212-330` | blending the part selects of a nexus keeps the consistent valuations and the netlist well formed |
| `Cprop.RunApart` | `qflow-org/iverilog/cprop.cc:252-281` | the two give-up tests pass exactly when the sorted parts do not overlap and fit the target |
| `Cprop.CountComponents` | `qflow-org/iverilog/cprop.cc:283-296` | the counting loop counts the slots of the layout |
| `Cprop.FillConcat` | `qflow-org/iverilog/cprop.cc:304-323` | the filling loop makes as many pins as were counted, one z net and constant per gap |
| `Cprop.CollectParts` | `qflow-org/iverilog/cprop.cc:219-243` | the drivers of the nexus if all are part selects, otherwise give up |
| `Cprop.CollectConstants` | `qflow-org/iverilog/cprop.cc:88-101` | asking each input in turn, with what its nexus remembers: the joined constants of the inputs, or give up at the first that is not constant |
| `Cprop.Design.DriversConstant` | `qflow-org/iverilog/link_const.cc:30-124` | the remembered or fresh answer about a nexus of the design is that of the netlist semantics, whatever rewrites came before |
| `Cprop.Design.DrivenValue` | `qflow-org/iverilog/link_const.cc:126-194` | and the remembered bit is bit 0 of the driven vector |
| `Cprop.AddForgets` | `qflow-org/iverilog/net_link.cc:56-73` | when an output pin is connected, its own nexus forgets and every other remembered answer stays right |
| `Cprop.DeleteForgets` | `qflow-org/iverilog/net_link.cc:372-416` | and so it is when a node is deleted |
| `Cprop.CpropFunctor.LpmConcat` | `qflow-org/iverilog/cprop.cc:81-123` | in place: the concatenation becomes a constant and is counted, exactly when its inputs are constant |
| `Cprop.CpropFunctor.LpmMux` | `qflow-org/iverilog/cprop.cc:151-194` | in place: the mux becomes a buffer and is counted, exactly when its select is a known constant |
| `Cprop.CpropFunctor.LpmPartSelect` | `qflow-org/iverilog/cprop.cc:212-330` | in place: the part selects become one concatenation and one is counted, exactly when they can be blended |
| `Cprop.BlendedWeight` | `qflow-org/iverilog/cprop.cc:298-329` | blending n part selects lowers muxes plus concatenations plus part selects by n - 1 |
| `Cprop.RewrittenEquivalent` | `qflow-org/iverilog/cprop.cc:81-330` | on a netlist without pulled root ports, every rewrite keeps the consistent valuations and lowers that number |
| `Cprop.CpropFunctor.Scan` | `qflow-org/iverilog/cprop.cc:429-441` | a scan in any order keeps the consistent valuations and the remembered answers right, lowers the number by at least its count, and a count of zero means nothing was left to do |
| `Cprop.Propagate` | `qflow-org/iverilog/cprop.cc:429-441` | the loop ends after at most that number plus one scans, in an equivalent netlist where no rewrite applies |
| `Cprop.CpropDcFunctor.LpmConst` | `qflow-org/iverilog/cprop.cc:349-425` | the counting loops delete a constant exactly when all its bits are z, or its nexus takes no input and is not seen |
| `Cprop.LoneConstantExactness` | `qflow-org/iverilog/cprop.cc:349-425` | the only driver of a plain nexus goes exactly when taking it out changes nothing that anybody reads or sees |
| `Cprop.Cprop` | `qflow-org/iverilog/cprop.cc:429-452` | the whole pass first reaches an equivalent netlist where no rewrite applies, then takes out exactly the floating and the dangling constants; the values of all nexuses still read or seen are kept, and the remembered answers are right |
| `SecondRun.BlendableMeans` | `qflow-org/iverilog/cprop.cc:212-281` | part selects are blended exactly where two or more of them and nothing else drive a plain wire, no two overlap, and each lies within the wire |
| `SecondRun.WorkLeft` | `qflow-org/iverilog/cprop.cc:429-452` | one run leaves work for a second exactly when a concatenation or mux tests nexuses that are constant but for z constants beside their driver, or part selects lie apart and only constants that go drive beside them |
| `SecondRun.NothingLeft` | `qflow-org/iverilog/cprop.cc:429-452` | none is left when no constant that goes shares its nexus with another driver or a pull |
| `SecondRun.SecondRunFindsMore` | `qflow-org/iverilog/cprop.cc:429-452` | a concrete netlist on which a second run would still rewrite |
| `NexusDrivers.Nexus.DriversConstant` | `qflow-org/iverilog/link_const.cc:30-124` | true exactly when a fresh scan would find nothing that blocks and at most one constant driver, whatever was remembered; never with an input or inout port of a root module on a plain net |
| `NexusDrivers.Nexus.DrivenValue` | `qflow-org/iverilog/link_const.cc:126-194` | after a yes: never reaches its VAR assertion nor a second driver, and returns and remembers the bit of the only driver |
| `NexusDrivers.Nexus.DrivenVector` | `qflow-org/iverilog/link_const.cc:197-242` | after a yes: the vector of the only driver, z of the signal width without one |
| `NexusDrivers.BitIsBitZero` | `qflow-org/iverilog/link_const.cc:126-242` | the one-bit answer is bit 0 of the vector answer, so the two agree on one-bit nets |
| `NexusDrivers.CountOne` | `qflow-org/iverilog/link_const.cc:112-121` | at most one driver is counted exactly when no two links drive |
| `NexusDrivers.Nexus.DrivenMask` | `qflow-org/iverilog/link_const.cc:248-303` | bit i is set exactly when some driving link covers it, early returns included |
| `NexusDrivers.CoverageIgnoresOrder` | `qflow-org/iverilog/link_const.cc:248-303` | the order of the links does not matter to the mask |
| `NexusDrivers.IntegersCoverNothing` | `qflow-org/iverilog/netlist.cc:487-512` | links of INTEGER signals are passive, so the INTEGER branch of the mask never sets a bit |
| `NexusDrivers.UncoveredFloats` | `qflow-org/iverilog/link_const.cc:248-303` | at a bit outside the mask every driver of the netlist nexus puts z, and no variable stands by |
| `NexusDrivers.PartSelectMarks` | `qflow-org/iverilog/link_const.cc:283-296` | a part select is marked exactly at the bits where it can put something other than z |
| `NexusDrivers.Nexus.ConnectLink` | `qflow-org/iverilog/net_link.cc:56-73` | after connecting a link the remembered answer is right exactly unless the enable pin of a tran joins a nexus that had answered a value |
| `NexusDrivers.Nexus.ConnectNexus` | `qflow-org/iverilog/net_link.cc:75-88` | after joining two nexuses the remembered answer is right exactly when it was dropped, was no value, or the two have at most one driver together |
| `NexusDrivers.Nexus.Unlink` | `qflow-org/iverilog/net_link.cc:372-416` | after unlinking, only a remembered "not constant" can be out of date, after the enable pin of a tran |
| `NexusDrivers.JoinExactness` | `qflow-org/iverilog/net_link.cc:75-76` | the exact condition under which the kept guess is still what a fresh scan finds |
| `NexusDrivers.JoinMayKeepAStaleAnswer` | `qflow-org/iverilog/net_link.cc:75-76` | a pulled-up net joined to a constant with a low z bit keeps a stale answer |
| `NexusDrivers.EnableKeepsAStaleAnswer` | `qflow-org/iverilog/net_link.cc:56-73` | a pulled-up net that has answered keeps a stale answer when the enable of a tran is linked to it |
| `NexusDrivers.LinksAgree` | `qflow-org/iverilog/link_const.cc:30-124` | the scan of any list of links that stands for a nexus, in any order, with inputs and further signals, and with the signal declared in any way that fits, and the notion of a constant nexus in the netlist semantics are the same |
| `NexusDrivers.VectorsAgree` | `qflow-org/iverilog/link_const.cc:197-242` | and so are the vectors and the bits they find |
| `NexusDrivers.PlainRootSignal` | `qflow-org/iverilog/link_const.cc:60-86` | a plain signal of a root module alone on its nexus is constant exactly when it is no port or an output; as an input or inout it stands for a nexus that can settle to every vector |
| `Addressing.ParamPartSelectBits` | `qflow-org/iverilog/elab_expr.cc:4011-4036` | the loop gives x below the vector and above a sized one, the pad above an unsized one |
| `Addressing.DeclaredBits` | `qflow-org/iverilog/elab_expr.cc:4088-4103` | indices count from the bit at the lsb towards the msb; one on the other side reads x, and one past the stored bits x, or the sign of an unsized parameter |
| `Addressing.PartIsItsBits` | `qflow-org/iverilog/elab_expr.cc:4183-4222` | P[m:l] is refused exactly when it runs against the range; otherwise its bits are the bit selects of the indices from l to m |
| `Addressing.IndexedIsItsBits` | `qflow-org/iverilog/elab_expr.cc:4302-4326` | each bit of P[b+:w] and P[b-:w] is the bit select of its index, and the indices are b to b+w-1 or b-w+1 to b |
| `Addressing.SpellingsAgree` | `qflow-org/iverilog/elab_expr.cc:4386-4411` | the part-select spelling of an indexed select gives the same vector |
| `Addressing.OneBitSpellings` | `qflow-org/iverilog/elab_expr.cc:4088-4103` | selects of one bit agree in all spellings, undefined indices included |
| `Addressing.NetInterval` | `qflow-org/iverilog/elab_net.cc:264-277` | the two endpoints of a net l-value, swapped when needed, span the interval of the parameter form |
| `Addressing.AddressesCoincide` | `qflow-org/iverilog/elab_lval.cc:983-1002` | the procedural l-value starts where the other two forms do, except exactly for [b-:w], w > 1, on a vector declared [n:n]; the interval holds just the selected indices |
| `Addressing.OneBitRangeDiffers` | `qflow-org/iverilog/elab_lval.cc:983-1002` | [0-:2] on a vector declared [0:0], concretely |
| `Addressing.CountBits` | `qflow-org/iverilog/netmisc.cc:280-297` | the bit-counting loop |
| `Addressing.NormalizedExactness` | `qflow-org/iverilog/netmisc.cc:307-380` | the run-time address equals the constant-index address for every base value exactly when it is calculated signed or cannot go below zero, and a negative constant does not meet an address wider than 64 bits |
| `Addressing.VariableSelectAgrees` | `qflow-org/iverilog/elab_expr.cc:4334-4343` | under that condition a run-time select of a parameter is its constant select exactly when the parameter is sized, no selected position lies above its bits, or its pad is x |
| `Addressing.DownIsSigned` | `qflow-org/iverilog/netmisc.cc:332-342` | on a reversed range a [b-:w] base is always made signed |
| `Addressing.UnsignedAddressWraps` | `qflow-org/iverilog/netmisc.cc:332-343` | a concrete [b+:w] on a reversed range whose unsigned address wraps |
| `Addressing.NegativeOffsetWraps` | `qflow-org/iverilog/netmisc.cc:307-380` | a concrete negative constant in an address of 65 bits |
| `LvalChain.ElaborateLval` | `qflow-org/iverilog/elab_lval.cc:101-150` | the chain lists the accepted leaves of nested concatenations from least to most significant, each once, without a cycle; a leaf is one object of the width of its part select, or of its signal without one; no error is counted exactly when no operand is refused |
| `LvalChain.Link` | `qflow-org/iverilog/elab_lval.cc:138-144` | walking to the end and relinking splices two chains |
| `LvalChain.CountLvalWidth` | `qflow-org/iverilog/net_assign.cc:32-40` | the walk adds up the widths of all leaves |
| `LvalChain.NetAssignBase.LVal` | `qflow-org/iverilog/net_assign.cc:288-301` | the idx-th leaf, or nothing beyond the end |
| `LvalChain.NetAssignBase.LValCount` | `qflow-org/iverilog/net_assign.cc:318-328` | the number of leaves |
| `LvalChain.NetAssignBase.LWidth` | `qflow-org/iverilog/net_assign.cc:330-336` | the sum of the widths |
| `LvalChain.NetAssignBase.Release` | `qflow-org/iverilog/net_assign.cc:261-270` | every object is let go with its link cleared |
| `LvalChain.SplitOffsets` | `qflow-org/iverilog/elab_net.cc:142-155` | the split loop gives each operand the total width of those after it, and ends at zero |
| `LvalChain.SplitThenCat` | `qflow-org/iverilog/elab_net.cc:142-155` | concatenating the part selects of a vector gives the vector |
| `LvalChain.CatThenSplit` | `qflow-org/iverilog/elab_net.cc:142-155` | splitting a concatenation gives its operands |
| `LvalChain.SplitCoversOnce` | `qflow-org/iverilog/elab_net.cc:142-155` | every bit goes to exactly one operand, the first operand being most significant |
| `LvalChain.FormsAgree` | `qflow-org/iverilog/elab_net.cc:142-155` | walking the procedural chain and nesting part selects give every leaf the same bits |
| `LvalChain.RoutedBySplit` | `qflow-org/iverilog/elab_net.cc:142-155` | the nested part selects hand the k-th part of the split loop to the k-th operand, for every k |
| `LvalChain.NetAssign.SetPart` | `qflow-org/iverilog/net_assign.cc:235-241` | a part select on an l-value anywhere on a chain changes the total width of the chain by the difference, and nothing else on it |
| `LvalChain.DealtAt` | `qflow-org/iverilog/net_assign.cc:330-336` | the offset of a leaf is the sum of the widths before it on the chain |
| `Enumeration.MaxValue` | `qflow-org/iverilog/elab_scope.cc:197-204` | the wrap limit as computed, which is 2 for one signed bit |
| `Enumeration.EqualNumbers` | `qflow-org/iverilog/verinum.cc:826-852` | the comparison loop is bitwise equality of the padded numbers |
| `Enumeration.SameNumberIsSameInt` | `qflow-org/iverilog/verinum.cc:826-852` | for defined numbers of one sign it is equality of integers |
| `Enumeration.CheckTrim` | `qflow-org/iverilog/elab_scope.cc:267-318` | the scan of the cut bits counts no error exactly when they repeat the top bit (or are 0 in an unsigned enumeration) and no 1 is cut from a value without sign |
| `Enumeration.CheckGiven` | `qflow-org/iverilog/elab_scope.cc:221-325` | no error is counted exactly for a legal explicit value, where a literal written with a length must have that of the enumeration |
| `Enumeration.GivenExactness` | `qflow-org/iverilog/elab_scope.cc:248-318` | a defined value of another width is legal exactly when its integer fits the enumeration |
| `Enumeration.FittedKeepsInteger` | `qflow-org/iverilog/elab_scope.cc:259-325` | padding or cutting a legal value keeps its integer |
| `Enumeration.ElaborateEnumeration` | `qflow-org/iverilog/elab_scope.cc:164-376` | no error is counted exactly when every name is legal, and then the table holds just the names with the values they should get |
| `Enumeration.ValuesDistinct` | `qflow-org/iverilog/elab_scope.cc:344-352` | without errors, defined values are different integers within range |
| `Enumeration.InferredExactness` | `qflow-org/iverilog/elab_scope.cc:326-341` | without errors, an inferred value is its predecessor plus one as an integer, exactly unless the predecessor is the 0 of one signed bit |
| `Enumeration.OneSignedBitWraps` | `qflow-org/iverilog/elab_scope.cc:192-204` | two inferred names in one signed bit get 0 and -1 without an error |
| `Enumeration.ExplicitKeepsInteger` | `qflow-org/iverilog/elab_scope.cc:248-325` | without errors, an explicit value of another width keeps its integer |

## Left out

- Verinum.Compare: specified on defined operands only, because the folder asks it nothing else.
- EvalLoops.ShiftBits: specified on sized numbers only, which is what elaboration makes of constants in context-determined places (`qflow-org/iverilog/elab_expr.cc:5611-5624`); `Division` models the unsized shifts it needs.
- WidthSound.LosslessIsExact: conditions of `?:` must be known, because an unknown one blends bits and has no integer.
- Division.Divide: operands have the node's width and one sign, as the folder asserts; the native remainder of the most negative 64-bit number by -1, which C++ leaves undefined, is the mathematical one here.
- Addressing.NormalizedExactness: one packed dimension, so no slice offset; native integers are unbounded apart from the 64-bit number constructor.
- Rewrites.ConcatEquivalent: excludes inputs that are input or inout ports of root modules with a tri0 or tri1 pull, as `Rewrites.MuxEquivalent` does for the select and `Cprop` for the whole netlist; `Netlist.ConstDrivenExactness` shows that this is exactly where the code is wrong.
- Cprop.Cprop: `seen` sums up what the second functor asks of the signals of a nexus (named in the source, read by an expression, root port); the far side of a tran is not an observer, in the code as in the model.
- Cprop.CpropFunctor.Scan: visits nodes in a given order that may be any order; the circular list and its cursor in `qflow-org/iverilog/functor.cc` are not modelled.
- NexusDrivers.Nexus.DriversConstant: the reference counts of a signal do not change while an answer is remembered.
- Folding.FoldSound: minimum and maximum (`NetEBMinMax`), casts (`NetECast`), power and system functions are folded in `qflow-org/iverilog/eval_tree.cc` too and are no nodes here.
- NexusDrivers.LinksAgree: a nexus of `Netlist` has one pull and one outside, so a list with two signals that block or pull (a plain root port joined to a tri0 net) stands for none.
- Reals, strings, the single-bit-literal flag outside `PENumber`, and power; `pow(2, n)` enters `Enumeration` as the trimmed unsized number of that value.
- Widths are unbounded except where the code itself uses the largest unsigned number as a marker.
- Error and warning text; errors are counted where the code counts them.
- Deletion of self-looped flip-flops (`qflow-org/iverilog/cprop.cc:125-140`), delays and drive strengths: they are not value-preserving in this semantics.
- wand, wor and the other resolved net types: nexuses resolve as plain wires, with pulls and supplies.
- Net (non-parameter) indexed reads, multi-dimensional packed slices, arrays, classes and structs.
- Binding of names and everything before elaboration.
