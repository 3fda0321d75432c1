# Maxima: models and proofs of nine cores

The project models nine self-contained parts of the Maxima repository and proves what they compute:
the polynomials of the rational function package, the translated Cantor routines and the variable frames they run on, shallow binding of Lisp specials, the
stack machine of the plotting evaluator, the builder for the bug tracker's records, template filling in the
Lisp-only configuration, modular and overflow-repaired fixnum arithmetic, and the signal word in shared memory.

| module | what it holds |
|---|---|
| `Wrappers` | values that may be missing |
| `Polynomials` | sums, differences, products and exact quotients of recursive polynomials in canonical form |
| `CantorSet` | end point lists: the recursive subdivision, the self-similar loop, membership in the union of the intervals |
| `CantorFunction` | the Cantor function and both indicators as recurrences over exact reals |
| `ScopedFrames` | the chain of mutable dictionaries (`Stack`) and the flat dictionary it stands for |
| `CantorOnFrames` | the Cantor routines run on those frames |
| `ShallowBinding` | bind stack and frame stack, and the deep binding they simulate |
| `MachineInts`, `Values`, `Expressions` | 32-bit integers, INT/CMPLX values, expressions and their postfix code |
| `Evaluator` | the value stack in memory, its operations, runs of code on it, and the spherical Bessel stack programs |
| `Records`, `RecordBuilder` | parser events, documents, and the builder as a state machine and in memory |
| `Template` | search and replace, placeholders, and one pass per key |
| `FixnumArithmetic` | balanced residues, 64/32 division, sums and differences repaired from flags |
| `SignalMailbox` | the signal word, run alone and with loads and stores interleaved |

How the sources are read:

- Python fractions and C doubles are exact reals, so 1/3 is one third.
- `cantorseq` divides a list by 3 and subtracts a list from 1. Python has no such operations on lists and the
  function table has no `reverse`; the operations are read element by element, as the comment on line 143 of
  `cantorr.py` and the Maxima original mean them.
- Polynomials have integer coefficients; `modulus` is nil, `$algebraic` is false, and a variable is its number in the
  order of `pointergp`. The operations get canonical polynomials, as they are stored everywhere, and give such.
- C `int` is 32 bits wide and wraps around; division and `%` round toward zero.
- Jumps in expression code are relative to the jump itself, and every other instruction is followed by the next
  one. The code layout puts `BOOL` at the target of the short-circuit jumps. Stack overflow and underflow are
  reported, as in the `DEBUG` build.
- Element names of the bug tracker's XML are an enumeration, as are the variable names the Cantor routines use.
- Exceptions and `int_error` become results of the operation; the overflow handlers of the Lisp stacks are not
  part of this model, and the operation stops where they are called.

What came out different from what one might expect:

- `cantorrd` answers 0 for integers other than 0 and 1 when it has levels left, although their fractional part is
  in the Cantor set; `cantorri` answers 1 there. `DigitIndicatorVersusIndicator` says exactly when the two differ.
- `plusrem` and `subrem` return -1 instead of 0 for modulus 1 when the sum or difference is below the least
  fixnum, because the quotient does not fit; they are right everywhere else.
- A mixed INT/CMPLX quotient agrees with promoting the integer first unless the integer is the least word and the
  divisor is not real; then it is the quotient by the conjugate of the divisor (`LeastOver`).
- `f_besj1` and `f_besy1` square an integer argument in machine words. They agree with the complex value exactly up to
  46340 in absolute value, and beyond that only where the square does not become 0 and is divided into 0
  (`BesselOfInteger`); the argument counts as undefined exactly when it is a multiple of 65536 (`BesselUndefined`).
- Text between a placeholder and the next `@` can be taken for a key. For one key the pass is right exactly when that
  does not happen (`ReplaceIsFillExactly`); for all keys every pass is right in every order exactly when no run of
  text spells a key, with filled-in placeholders counted as text (`EveryOrderFillsExactly`). A `@` without a partner,
  as in `"$@"`, is text.
- A signal that was sent does not stay readable, and a cleared one does not stay cleared, when an update that had loaded
  the word before is stored after. `StaysExactly` says that this is the only way, in any run at all.

## Model

| member | source | states |
|---|---|---|
| Polynomials.PSimp | src/rat3a.lisp:776-803 | terms are made a polynomial in canonical form, which is 0 exactly for no terms |
| Polynomials.PPlus | src/rat3a.lisp:218-226 | a sum of canonical polynomials is canonical, in variables that occur in one of them |
| Polynomials.PlusValue | src/rat3a.lisp:218-269 | at every point the value of a sum is the sum of the values |
| Polynomials.PDifference | src/rat3a.lisp:274-289 | a difference of canonical polynomials is canonical, in variables that occur in one of them |
| Polynomials.DifferenceValue | src/rat3a.lisp:274-357 | at every point the value of a difference is the difference of the values |
| Polynomials.MinusValue | src/rat3a.lisp:623-632 | at every point the value of the negation is the negated value |
| Polynomials.PTimes | src/rat3a.lisp:834-841 | a product of canonical polynomials is canonical, in variables that occur in one of them |
| Polynomials.TimesValue | src/rat3a.lisp:834-893 | at every point the value of a product is the product of the values |
| Polynomials.MultiplyTerms | src/rat3a.lisp:843-879 | the loop, which puts every product of two terms where it belongs, adds up the rows of the product |
| Polynomials.NonzeroTogether | src/rat3a.lisp:776-803 | any two canonical polynomials other than 0 have a point where neither has the value 0 |
| Polynomials.Unique | src/rat3a.lisp:776-803 | canonical polynomials with the same value at every point are the same |
| Polynomials.SumLaws | src/rat3a.lisp:218-357 | sums commute and associate, a difference is the sum with the negation and is undone by adding |
| Polynomials.TimesCommutes | src/rat3a.lisp:834-893 | products commute, as stored |
| Polynomials.TimesAssociates | src/rat3a.lisp:834-893 | products associate, as stored |
| Polynomials.TimesDistributes | src/rat3a.lisp:218-893 | products distribute over sums, as stored |
| Polynomials.NoZeroDivisors | src/rat3a.lisp:834-893 | a product is 0 exactly when a factor is |
| Polynomials.ProductHead | src/rat3a.lisp:704-712 | the leading term of a product is the product of the leading terms |
| Polynomials.QuotientFound | src/rat3a.lisp:648-757 | a product divided by a factor other than 0 gives the other factor |
| Polynomials.QuotientExactly | src/rat3a.lisp:648-757 | for a divisor other than 0 the quotient is q exactly when q times the divisor is the dividend |
| Polynomials.QuotientFails | src/rat3a.lisp:648-757 | the division stops with an error exactly when no polynomial is the quotient |
| Polynomials.QuotientByZero | src/rat3a.lisp:648-657 | 0 by 0 gives 0, anything else by 0 stops with an error |
| Polynomials.DivideTerms | src/rat3a.lisp:704-727 | the loop that collects the quotient backwards is long division |
| Polynomials.SubtractProductValue | src/rat3a.lisp:734-761 | at every point the terms have the value u - q x^k y |
| CantorSet.EndpointsShape | share/pytranslate/cantorr.py:117-130 | gcantorseq on any [u, w] with middle thirds: 2^n strictly increasing points from u to w, every interval of width (w-u)/3^(n-1), total length (w-u)(2/3)^(n-1) |
| CantorSet.EndpointsGap | share/pytranslate/cantorr.py:117-130 | gcantorseq for any gap p and ratio r: from u to w, a gap of width p around the middle, and on both sides the same construction with gap p r |
| CantorSet.EndpointsIsThirds | share/pytranslate/cantorr.py:117-130 | with gap and ratio one third, each level is the next lower level built on the two outer thirds |
| CantorSet.ThirdsShrink | share/pytranslate/cantorr.py:117-130 | subdividing the image of an interval under x -> x/3 + c gives the image of the subdivision |
| CantorSet.StandardSymmetric | share/pytranslate/cantorr.py:132-147 | the end points on [0, 1] are mapped onto themselves, in reverse order, by x -> 1 - x |
| CantorSet.ShrinkAt | share/pytranslate/cantorr.py:144 | dividing the list by 3 divides each point |
| CantorSet.MirrorAt | share/pytranslate/cantorr.py:145 | reversing one minus the list puts one minus the i-th point from the end at place i |
| CantorSet.SelfSimilarIsEndpoints | share/pytranslate/cantorr.py:132-147 | for every n the self-similar list of cantorseq equals gcantorseq(0, 1, 1/3, 1/3, n) |
| CantorSet.UnionDoubled | share/pytranslate/cantorr.py:117-130 | membership in the intervals of a doubled list is membership of 3x or of 3x - 2 in those of the list |
| CantorFunction.IndicatorIsInUnion | share/pytranslate/cantorr.py:59-84 | on [0, 1] cantorrd(x, n) is 1 exactly on the closed intervals of gcantorseq(0, 1, 1/3, 1/3, n+1), else 0 |
| CantorFunction.DigitIndicatorIsInHalfOpenUnion | share/pytranslate/cantorr.py:33-54 | on [0, 1] cantorri(x, n) is 1 exactly at 1 and on the same intervals with their right ends left out, else 0 |
| CantorFunction.DigitLoopMeansNoOne | share/pytranslate/cantorr.py:46-52 | the digit loop answers 1 exactly when none of the first n ternary digits, read off the fractional parts of 3^k x, is 1 |
| CantorFunction.DigitLoopVersusIndicator | share/pytranslate/cantorr.py:33-83 | on [0, 1) the loop never exceeds the recursion, and they differ exactly when the first iterate with digit 1 among the first n is 1/3 |
| CantorFunction.DigitIndicatorVersusIndicator | share/pytranslate/cantorr.py:33-83 | for all reals: the loop is greater exactly at integers other than 0 and 1, and smaller exactly when the first iterate with digit 1 is 1/3 |
| CantorFunction.CantorAtEndpoint | share/pytranslate/cantorr.py:6-26 | at the j-th end point of level n every cut-off N >= n-1 gives exactly ceil(j/2) / 2^(n-1) |
| CantorFunction.CantorOnGap | share/pytranslate/cantorr.py:6-26 | on the gap after the i-th interval of level n every such cut-off gives the constant (i+1) / 2^(n-1) |
| CantorFunction.CantorRange | share/pytranslate/cantorr.py:6-26 | [0, 1] is mapped into [0, 1] |
| CantorFunction.CantorMonotone | share/pytranslate/cantorr.py:6-26 | the function is nondecreasing on [0, 1] |
| CantorFunction.CantorSymmetric | share/pytranslate/cantorr.py:6-26 | c(1 - x) = 1 - c(x) on [0, 1] |
| CantorFunction.CantorLipschitz | share/pytranslate/cantorr.py:6-26 | cut off after n levels the function has Lipschitz constant (3/2)^n on [0, 1] |
| CantorFunction.CantorConverges | share/pytranslate/cantorr.py:6-26 | any number of further levels moves a value by at most 1 / (6 * 2^n) |
| CantorFunction.CantorConvergenceIsTight | share/pytranslate/cantorr.py:6-26 | one further level moves the value at 3^-(n+1) by exactly that much |
| ScopedFrames.SizesCountVisibleKeys | share/pytranslate/pytranslate.py:42-46 | `__len__` is at least the number of iterated keys, and equal exactly when no key is bound twice in the chain |
| ScopedFrames.SumSizesCountsPlaces | share/pytranslate/pytranslate.py:45-46 | `__len__` is the number of places, frame and key, where a key is bound |
| ScopedFrames.FlatIsInnermost | share/pytranslate/pytranslate.py:23-27 | in the flat dictionary a key has the value of the innermost frame that binds it |
| ScopedFrames.Frame.Get | share/pytranslate/pytranslate.py:23-27 | reading a key reads the flat dictionary {**sub, **mapping} of the whole chain, None being the KeyError |
| ScopedFrames.Frame.Set | share/pytranslate/pytranslate.py:35-40 | only the innermost frame that binds the key, else the base, is written, and the flat dictionary changes at that key only |
| ScopedFrames.Frame.Delete | share/pytranslate/pytranslate.py:29-33 | the innermost binding goes, the one it shadowed becomes visible, all else stays; an unbound key is reported and nothing changes |
| ScopedFrames.Frame.Ins | share/pytranslate/pytranslate.py:51-52 | new bindings go into this frame only and override what is below |
| ScopedFrames.Frame.Len | share/pytranslate/pytranslate.py:45-46 | the sizes of all frames of the chain added up |
| ScopedFrames.Frame.Keys | share/pytranslate/pytranslate.py:42-43 | iteration yields the keys of the flat dictionary |
| ScopedFrames.Frame.OneBelow | share/pytranslate/pytranslate.py:23-40 | a key bound one frame below, and not here, is read from that frame and written to it |
| CantorOnFrames.Cantorr2 | share/pytranslate/cantorr.py:15-26 | run on any frames cantorr2 returns the recurrence and changes no dictionary that existed before |
| CantorOnFrames.Block17340 | share/pytranslate/cantorr.py:6-14 | the block changes only the frame of the routine it belongs to and returns the recurrence |
| CantorOnFrames.Cantorrd | share/pytranslate/cantorr.py:68-83 | cantorrd returns the recurrence for its argument or else for fpprec, and changes no dictionary that existed before |
| CantorOnFrames.Block47665 | share/pytranslate/cantorr.py:59-67 | the block changes only the frame of the routine it belongs to and returns the recurrence |
| CantorOnFrames.Gcantorseq | share/pytranslate/cantorr.py:121-130 | gcantorseq returns the subdivision for every u, w, p, r, n and changes no dictionary that existed before |
| CantorOnFrames.Block85290 | share/pytranslate/cantorr.py:117-120 | the block changes only the frame of the routine it belongs to and returns the subdivision |
| CantorOnFrames.CantorriLoop | share/pytranslate/cantorr.py:46-53 | the loop returns the digit loop's answer and leaves in x what is left of the start after that many digits, a number in [0, 1), times 3 if the next digit is a 1; the number of started rounds ends up in i outside |
| CantorOnFrames.RoundsMeaning | share/pytranslate/cantorr.py:46-53 | the number of started rounds is n if no digit 1 is met, else the place of the first one |
| CantorOnFrames.Cantorri | share/pytranslate/cantorr.py:37-53 | cantorri returns the digit indicator; the only dictionary changed is the owner of i, which holds the number of started rounds |
| CantorOnFrames.Cantorseq | share/pytranslate/cantorr.py:135-147 | cantorseq returns the self-similar list; the only dictionary changed is the owner of k, which holds the last round |
| ShallowBinding.VisibleIsNewest | archive/src/system-init.c:391-408 | deep binding: a bound symbol has the value of its newest binding |
| ShallowBinding.VisibleIsGlobal | archive/src/system-init.c:391-408 | deep binding: a symbol without a binding has its global value |
| ShallowBinding.AssignChangesNewest | archive/src/system-init.c:391-408 | deep assignment changes exactly the newest binding of the symbol |
| ShallowBinding.AssignChangesGlobal | archive/src/system-init.c:391-408 | deep assignment to a symbol without a binding changes exactly its global value |
| ShallowBinding.AgreeAfterAssign | archive/src/system-init.c:391-408 | overwriting the cell is assigning the newest deep binding, at every depth of the stack |
| ShallowBinding.StepSimulates | archive/src/system-init.c:403-453 | every bind, assign, unwind and frame step keeps the value cells and the bind stack in agreement with deep binding |
| ShallowBinding.ShallowIsDeep | archive/src/system-init.c:403-453 | after every run the cells show each symbol's newest binding, and unwinding one by one to any depth, so to any saved frs_bds_top, shows the deep bindings of that depth |
| ShallowBinding.UnwindRestores | archive/src/system-init.c:403-408 | a run without assignments that never digs below a height is undone by unwinding to that height |
| ShallowBinding.ExitUndoes | archive/src/system-init.c:407-453 | leaving to a frame after a run without assignments that kept the frame and the bindings below it undoes every binding made since the frame was pushed |
| ShallowBinding.Stacks.Bind | archive/src/system-init.c:400-406 | bds_check and bds_bind: overflow leaves everything as it was, else the old value is saved and the cell holds the new one |
| ShallowBinding.Stacks.UnwindOne | archive/src/system-init.c:407-408 | bds_unwind1 restores the cell of the topmost entry and pops it |
| ShallowBinding.Stacks.PushFrame | archive/src/system-init.c:444-452 | frs_push records the height of the bind stack; on overflow only the frame counter has moved |
| ShallowBinding.Stacks.PopFrame | archive/src/system-init.c:453 | frs_pop drops the top frame and nothing else |
| ShallowBinding.Stacks.ExitTo | archive/src/system-init.c:407-453 | unwinding one by one to a frame's saved height is the exit step of the machine |
| MachineInts.WrapTimes | archive/o/internal.c:576-578 | wrapping before a multiplication does not change the wrapped product |
| MachineInts.ProductExactly | archive/o/internal.c:576-578 | the product of two words is the one word that differs from the exact product by a multiple of 2^32 |
| MachineInts.DivisionLaw | archive/o/internal.c:694-708 | the dividend is the divisor times the quotient plus the remainder |
| MachineInts.RemainderSign | archive/o/internal.c:694-708 | the C remainder is smaller than the divisor and has the sign of the dividend |
| MachineInts.QuotientFits | archive/o/internal.c:624-627 | only the least word divided by -1 has a quotient that is no word |
| Values.DivInvertsMul | archive/o/internal.c:667-681 | the computed complex quotient times the divisor is the dividend |
| Values.SquareZero | archive/o/internal.c:635-647 | the divisor test is zero exactly for the complex number 0 |
| Expressions.MixedDivision | archive/o/internal.c:619-688 | a mixed quotient equals the quotient of the promoted operands exactly when the dividend is not the least word or the divisor is real |
| Expressions.LeastOver | archive/o/internal.c:628-650 | the least word divided by a complex number gives the quotient by its conjugate |
| Expressions.CodeRuns | archive/o/internal.c:807-857 | code of any expression, anywhere in a program and on any stack with room, goes on behind itself with the old stack plus the value, or stops with the expression's error; skipped branches have no effect |
| Expressions.AndRuns | archive/o/internal.c:815-827 | the code of &&, laid out with JUMPZ to BOOL, goes on behind itself with 0 or 1 on top and skips the right operand after a 0 |
| Expressions.OrRuns | archive/o/internal.c:831-843 | the code of the short-circuit or, laid out with JUMPNZ to BOOL, goes on behind itself with 0 or 1 on top and skips the right operand after a nonzero |
| Expressions.CondRuns | archive/o/internal.c:847-857 | the code of the ternary, laid out with JTERN and JUMP, runs the test and then only the chosen branch |
| Expressions.ProgramRuns | archive/o/internal.c:44-65 | a whole program ends with the old stack plus one cell holding the expression's value |
| Expressions.NeedIsExact | archive/o/internal.c:57-65 | a program without jumps that has a value overflows the stack exactly when there is less room than it is said to need |
| Expressions.JumpCases | archive/o/internal.c:815-857 | JUMPZ and JUMPNZ leave the cell they look at for a jump and pop it otherwise, JTERN pops it in any case |
| Expressions.LogicIsNormal | archive/o/internal.c:180-184 | results of the logical operators are 0 or 1 |
| Expressions.LogicOfWords | archive/o/internal.c:162-204 | f_land, f_lor, f_lnot and f_bool on integers, in numbers |
| Expressions.SkipsRight | archive/o/internal.c:815-843 | after a 0 the right operand of && is left out whatever it is, after anything else that of the short-circuit or |
| Expressions.CondChooses | archive/o/internal.c:847-857 | the ternary has the value of its first branch for a test other than 0, else of the second |
| Expressions.ModOfWords | archive/o/internal.c:694-708 | on integers f_mod gives the remainder, and 0 with `undefined` for a zero divisor |
| Expressions.UndefinedStays | archive/o/internal.c:612-708 | no instruction takes `undefined` back, and only division and remainder raise it |
| Expressions.UndefinedOfParts | archive/o/internal.c:612-708 | an operation's flag is up exactly if an operand raises it or the operation on their values does |
| Expressions.DeMorgan | archive/o/internal.c:162-204 | negation carries over && and the short-circuit or, with the same value, flag and error |
| Expressions.ShortCircuitAgrees | archive/o/internal.c:188-204 | f_land and f_lor on integer operands give what the short-circuit code gives, which raises the flag no more often |
| Expressions.ComparisonLaws | archive/o/internal.c:257-481 | the six comparisons are complements and mirror images of each other |
| Expressions.ComparisonDirection | archive/o/internal.c:257-481 | moving a number by d makes it greater exactly for d with positive real part, and leaves it equal exactly for d = 0 |
| Expressions.ComparisonOfWords | archive/o/internal.c:257-481 | on integers each of the six comparisons leaves 1 where the numbers compare that way, else 0 |
| Evaluator.PlusCases | archive/o/internal.c:485-521 | the four cases of f_plus are the sum of the promoted operands, and the wrapped sum for two integers |
| Evaluator.MinusCases | archive/o/internal.c:525-561 | the four cases of f_minus are the difference of the promoted operands, and the wrapped difference for two integers |
| Evaluator.MultCases | archive/o/internal.c:565-608 | the four cases of f_mult are the product of the promoted operands in real and imaginary parts, and the wrapped product for two integers |
| Evaluator.DivCases | archive/o/internal.c:612-690 | the four cases of f_div with their zero tests are one division of values |
| Evaluator.Machine.FPlus | archive/o/internal.c:485-521 | in memory: the two top cells give way to the sum, the cells below stay |
| Evaluator.Machine.FMinus | archive/o/internal.c:525-561 | in memory: the two top cells give way to the difference, the cells below stay |
| Evaluator.Machine.FMult | archive/o/internal.c:565-608 | in memory: the two top cells give way to the product, the cells below stay |
| Evaluator.Machine.FDiv | archive/o/internal.c:612-690 | in memory: the two top cells give way to the quotient, the cells below stay, and `undefined` is raised exactly for a zero divisor |
| Evaluator.Machine.FMod | archive/o/internal.c:694-708 | in memory: two integers give way to their remainder, with 0 and `undefined` for a zero divisor; other types stop with the error |
| Evaluator.Machine.FEq | archive/o/internal.c:257-292 | equality of the promoted operands, as 0 or 1 |
| Evaluator.Machine.FNe | archive/o/internal.c:296-333 | inequality of the promoted operands, as 0 or 1 |
| Evaluator.Machine.FGt | archive/o/internal.c:337-370 | greater-than on real parts of the promoted operands, as 0 or 1 |
| Evaluator.Machine.FLt | archive/o/internal.c:374-407 | less-than on real parts of the promoted operands, as 0 or 1 |
| Evaluator.Machine.FGe | archive/o/internal.c:411-444 | at-least on real parts of the promoted operands, as 0 or 1 |
| Evaluator.Machine.FLe | archive/o/internal.c:448-481 | at-most on real parts of the promoted operands, as 0 or 1 |
| Evaluator.Machine.FLnot | archive/o/internal.c:162-167 | 1 for the integer 0, 0 for any other; other types stop with the error |
| Evaluator.Machine.FLor | archive/o/internal.c:188-194 | two integers give way to their disjunction as 0 or 1; other types stop with the error |
| Evaluator.Machine.FLand | archive/o/internal.c:198-204 | two integers give way to their conjunction as 0 or 1; other types stop with the error |
| Evaluator.Machine.FUminus | archive/o/internal.c:238-253 | negation, wrapped for an integer |
| Evaluator.Machine.FBool | archive/o/internal.c:180-184 | the top cell becomes 0 or 1 where it is; other types stop with the error |
| Evaluator.Machine.FJumpz | archive/o/internal.c:815-827 | a jump leaves the cell it looks at, no jump pops it |
| Evaluator.Machine.FJumpnz | archive/o/internal.c:831-843 | a jump on nonzero leaves the cell it looks at, no jump pops it |
| Evaluator.Machine.FJtern | archive/o/internal.c:847-857 | the cell it looks at is popped in any case |
| Evaluator.Machine.Execute | archive/o/plot.h:25 | running code on the stack in memory, each instruction by its operation and jumps relative to themselves, ends as the machine on values does |
| Evaluator.Machine.Evaluate | archive/o/internal.c:44-65 | the code of any expression with room for it puts the expression's value on the stack in memory and leaves the cells below, or stops with its error |
| Evaluator.Machine.FPowerInt | archive/o/internal.c:723-734 | two integers give way to the exact power, wrapped, or for a negative exponent to one over it, which for 0 is the library's 1.0/0 and for the least word 1 |
| Evaluator.IntPowerSum | archive/o/internal.c:723-731 | powers of words multiply as f_mult does, from 1 and the base on |
| Evaluator.IntPowerInverse | archive/o/internal.c:732-734 | a negative power times the positive one is 1, unless that is 0 as a word, where it is the library's 1.0/0 |
| Evaluator.Machine.FFactorial | archive/o/internal.c:782-803 | the loop leaves n! as a complex number, 1 for n <= 1; a complex argument stops with the error |
| Evaluator.FactorialIsProduct | archive/o/internal.c:793-797 | the factorial is the product of the numbers from 1 on, and 1 below that |
| Evaluator.ComplexPythagoras | archive/o/standard.c:54-66 | if the real functions satisfy their identities, f_sin and f_cos satisfy sin^2 + cos^2 = 1 for every complex argument |
| Evaluator.Euler | archive/o/standard.c:54-66 | cos z + i sin z = e^-y (cos x + i sin x) and cos z - i sin z = e^y (cos x - i sin x), with e^-y and e^y the difference and sum of cosh y and sinh y |
| Evaluator.BesselFormulas | archive/o/standard.c:247-301 | for complex a other than 0 the four results satisfy j0 a = sin a, j1 a^2 = sin a - a cos a, y0 a = -cos a, y1 a^2 = -(cos a + a sin a), and `undefined` stays down |
| Evaluator.BesselOfInteger | archive/o/standard.c:247-301 | for an integer j0 and y0 give what they give for its complex value; j1 and y1 do exactly when it is at most 46340 in absolute value, or its square in machine words is not 0 and the sine (for y1 the cosine) is 0 |
| Evaluator.BesselUndefined | archive/o/standard.c:257-301 | an integer argument counts as undefined exactly when it is a multiple of 65536 |
| Evaluator.Machine.FBesJ0 | archive/o/standard.c:247-254 | the stack program replaces the top cell by j0 of it and leaves all lower cells |
| Evaluator.Machine.FBesJ1 | archive/o/standard.c:257-271 | the stack program replaces the top cell by j1 of it and leaves all lower cells |
| Evaluator.Machine.FBesY0 | archive/o/standard.c:274-282 | the stack program replaces the top cell by y0 of it and leaves all lower cells |
| Evaluator.Machine.FBesY1 | archive/o/standard.c:285-301 | the stack program replaces the top cell by y1 of it and leaves all lower cells |
| Records.FeedElem | admin/sfquery.py:177-215 | the events of any well-nested element append the record it stands for to the open record around it |
| Records.FeedDocument | admin/sfquery.py:170-219 | the events of any well-nested document leave exactly its record, however text is cut into chunks, with unknown elements anywhere, and whatever stands outside fields |
| Records.WithTextIs | admin/sfquery.py:77-81 | any number of chunks adds up to their concatenation; no chunk at all adds no field |
| Records.SingleFieldText | admin/sfquery.py:77-81 | a field name given once keeps just that field's text |
| Records.ConcatInOrder | admin/sfquery.py:77-81 | the text of two runs of chunks is the text of the first, then that of the second |
| Records.FieldTextInOrder | admin/sfquery.py:77-81 | so is the text of a field given in two places of a record |
| Records.ChildrenInOrder | admin/sfquery.py:198-209 | the record of each child comes behind those of the children of its kind before it |
| Records.HoldsExactly | admin/sfquery.py:111-168 | trackers hold artifacts, artifacts hold histories and messages, histories hold messages, and that is all |
| Records.SearchIsComplete | admin/sfquery.py:88-147 | searching a rebuilt artifact, history or message finds a match exactly if some text in its part of the document matches |
| Records.TextMatchesExactly | admin/sfquery.py:88-147 | an element's text matches exactly if a field of its own or a child's text does |
| RecordBuilder.Node.Add | admin/sfquery.py:77-81 | a record object shows its old record with the text appended to the field |
| RecordBuilder.Node.AppendChild | admin/sfquery.py:198-209 | a record object shows its old record with the child's record at the end of one list |
| RecordBuilder.Node.Contains | admin/sfquery.py:58-147 | the loops over messages, histories and fields find a match exactly if the record has one |
| RecordBuilder.Builder.StartElement | admin/sfquery.py:177-193 | the handler in memory is the step of the state machine |
| RecordBuilder.Builder.EndElement | admin/sfquery.py:195-211 | the handler in memory is the step of the state machine, and fails exactly where that crashes |
| Records.CrashesExactly | admin/sfquery.py:195-215 | the handlers end in an exception exactly for a record to close that is not open or has no list in its parent, or for text in a field of no record |
| Records.Ignored | admin/sfquery.py:187-211 | a field outside all records and the tags of unknown elements change nothing |
| RecordBuilder.Builder.Characters | admin/sfquery.py:213-215 | the handler in memory is the step of the state machine: text goes to the open named field of the innermost record |
| RecordBuilder.Builder.HandleAll | admin/sfquery.py:170-215 | the handlers called for one event after the other do to the objects in memory what the state machine does, and fail exactly where that crashes |
| RecordBuilder.Grab | admin/sfquery.py:170-215 | the events of any well-nested document build, object by object, the record it stands for |
| RecordBuilder.GetArtifacts | admin/sfquery.py:217-225 | the list taken at the end of the document holds the artifacts of the document, in order |
| Template.SearchFindsFirst | configure.lisp:3-5 | before the place the search returns, or anywhere if it returns none, the key does not occur |
| Template.ReplaceSubstring | configure.lisp:1-16 | the loop replaces every occurrence from left to right without overlaps |
| Template.ProcessLine | configure.lisp:22-30 | a line goes through one pass for every key, in list order |
| Template.ReplaceAllInOrder | configure.lisp:25-29 | the passes of a list in two parts are those of the first part, then those of the second |
| Template.ParseThenRender | configure.lisp:154-174 | any string, taken apart into text, placeholders and perhaps one last `@` without a partner, is put together again |
| Template.RenderThenParse | configure.lisp:154-174 | every line of text, placeholders and a last lone `@` is taken apart in just that way |
| Template.ReplaceIsFillExactly | configure.lisp:25-29 | for one key, unless both its name and its value are empty, the pass fills in the key's placeholders and does nothing else exactly when no text between a placeholder of another name and the next `@` spells the key |
| Template.SequentialIsSimultaneous | configure.lisp:22-30 | if no run of text behind a placeholder ever spells a key, the passes equal one simultaneous substitution |
| Template.EveryOrderFillsExactly | configure.lisp:22-30 | for every string every pass fills in just its key's placeholders, in whatever order the keys come, exactly when no run of text behind a placeholder spells a key |
| Template.PassesGiveFillAll | configure.lisp:22-30 | passes that only fill in placeholders give the simultaneous substitution |
| Template.OrderIndependent | configure.lisp:154-174 | for every string under that condition any two orders of the same keys give the same line |
| Template.FalseKeyIsReplaced | configure.lisp:22-30 | a family of lines that break the condition: text between two placeholders is replaced and their delimiters are lost |
| FixnumArithmetic.FixModBalances | archive/src/rat3f-hc.c:16-21 | FIX_MOD turns a remainder into a balanced residue of it, half an even modulus keeping the sign of the remainder |
| FixnumArithmetic.BalancedUnique | archive/src/rat3f-hc.c:16-21 | for an odd modulus balanced residues are unique |
| FixnumArithmetic.RepresentsUnique | archive/src/rat3f-hc.c:16-21 | with that sign rule residues are unique for every modulus, even or odd |
| FixnumArithmetic.McModBalances | archive/src/rat3f-hc.c:150-155 | the fixnum branch of mcmod gives the balanced residue of any fixnum, half an even modulus with the sign of the fixnum |
| FixnumArithmetic.OperationsBalance | archive/src/rat3f-hc.c:133-256 | on balanced residues cplus, cdifference and ctimes overflow nowhere and give the balanced residue of the exact result, half an even modulus with the sign of that result |
| FixnumArithmetic.ComputeIsExact | archive/src/rat3f-hc.c:133-256 | any tree of +, -, * over reduced operands overflows nowhere and gives a balanced residue of the exact value, the only one for an odd modulus |
| FixnumArithmetic.EveryNodeRepresents | archive/src/rat3f-hc.c:133-256 | for even moduli too, the result at every node of a tree is the one residue that stands for the exact operation on its computed operands |
| FixnumArithmetic.TimesExactly | archive/src/rat3f-hc.c:32-38 | over arbitrary fixnums a modular product is congruent to the exact one exactly when the 64/32 quotient fits a word or the high word of the product is congruent to it, and balanced exactly when the quotient fits or the high word is within three halves of the modulus |
| FixnumArithmetic.SumsExactly | archive/src/rat3f-hc.c:232-256 | over arbitrary fixnums a modular sum or difference is right exactly when it does not overflow or the modulus divides 2^32 |
| FixnumArithmetic.BalancedQuotientFits | archive/src/rat3f-hc.c:32-38 | the 64/32 quotient of a product of balanced residues fits a word |
| FixnumArithmetic.FPlus | archive/src/rat3f-hc.c:172-189 | the result is the exact sum, a bignum exactly on overflow |
| FixnumArithmetic.FMinus | archive/src/rat3f-hc.c:198-215 | the result is the exact difference, a bignum exactly on overflow |
| FixnumArithmetic.PlusRem | archive/src/rat3f-hc.c:42-58 | the carry chooses the right high word, and the result is the remainder of the exact sum except for modulus 1 with a sum below the least word |
| FixnumArithmetic.SubRem | archive/src/rat3f-hc.c:63-79 | the borrow chooses the right high word, and the result is the remainder of the exact difference except for modulus 1 with a difference below the least word |
| FixnumArithmetic.LongQuotient | archive/src/rat3f-hc.c:56-77 | after an overflow the 64/32 quotient fits exactly when the modulus is not 1 |
| SignalMailbox.UpdatedBits | interfaces/xmaxima/win32/winkill_lib.c:266-288 | sending or resetting a signal changes the readability of that signal and of no other |
| SignalMailbox.ReadableIsBit | interfaces/xmaxima/win32/winkill_lib.c:32 | signal n is the bit of the word with n bits below it |
| SignalMailbox.ReadableWasSent | interfaces/xmaxima/win32/winkill.c:219-258 | in every interleaving of loads and stores a signal is readable only if some sender stored it before |
| SignalMailbox.SentStaysReadable | interfaces/xmaxima/win32/winkill_lib.c:208-288 | if updates do not overlap, a sent signal stays readable until a reset naming it or the full reset |
| SignalMailbox.ReadableExactly | interfaces/xmaxima/win32/winkill_lib.c:208-288 | if updates do not overlap, a signal is readable exactly when it was sent and not reset since |
| SignalMailbox.StaysExactly | interfaces/xmaxima/win32/winkill.c:257-258 | in every interleaving, while nobody changes a signal on purpose it stays as it is at every moment exactly when no update that had loaded the word before with the signal the other way is stored |
| SignalMailbox.SentStaysExactly | interfaces/xmaxima/win32/winkill_lib.c:208-288 | in every interleaving a sent signal stays readable until it is reset exactly when no update of another signal that had loaded a word without it is stored |
| SignalMailbox.ClearedStaysExactly | interfaces/xmaxima/win32/winkill_lib.c:254-288 | in every interleaving a cleared signal stays cleared until it is sent exactly when no update of another signal that had loaded a word with it is stored |
| SignalMailbox.OverlapLosesSignal | interfaces/xmaxima/win32/winkill.c:257-258 | two senders of any two signals reach a state in which that condition fails, and the store that breaks it loses the signal |
| SignalMailbox.OverlapRevivesSignal | interfaces/xmaxima/win32/winkill_lib.c:254-264 | a sender of any other signal and the full reset reach a state in which that condition fails, and the store that breaks it brings the signal back |
| SignalMailbox.SharedMemory.SendSignal | interfaces/xmaxima/win32/winkill.c:257-258 | the signal becomes readable and no other signal changes |
| SignalMailbox.SharedMemory.ReadSharedMemory | interfaces/xmaxima/win32/winkill_lib.c:208-222 | 1 for an interrupt, which is bit 2, 2 for a termination, bit 15, without an interrupt, else 0 |
| SignalMailbox.SharedMemory.ReadSmSigterm | interfaces/xmaxima/win32/winkill_lib.c:224-237 | 1 exactly when mapped and a termination is readable |
| SignalMailbox.SharedMemory.ReadSmSigint | interfaces/xmaxima/win32/winkill_lib.c:239-252 | 1 exactly when mapped and an interrupt is readable |
| SignalMailbox.SharedMemory.ResetSharedMemory | interfaces/xmaxima/win32/winkill_lib.c:254-264 | nothing is readable afterwards; an unmapped word is left alone |
| SignalMailbox.SharedMemory.ResetSmSigint | interfaces/xmaxima/win32/winkill_lib.c:266-276 | the interrupt is cleared and no other signal changes |
| SignalMailbox.SharedMemory.ResetSmSigterm | interfaces/xmaxima/win32/winkill_lib.c:278-288 | the termination is cleared and no other signal changes |

## Left out

- Floating-point rounding, infinities and not-a-number values; reals are exact.
- `cantorr_p`, plotting, printing and the tests for numbers and integers at the head of the Cantor routines.
- CantorOnFrames.Cantorrd: requires a level count or an integer `fpprec` in the frames it is given, as the base dictionary has; the KeyError without one is not modelled.
- ScopedFrames.Frame.Keys: the order of iteration is not modelled, and two frames never share one mapping object.
- Expressions.CodeRuns: the program around the code may only jump forward, as all code laid out here does.
- Evaluator.Machine.FPowerInt: only two integers; the polar cases are left out, and the double 1.0/0 is an uninterpreted value.
- The bitwise operators, `f_call` and variable pushes are not modelled.
- Evaluator.Machine.Execute: `execute_at` is not part of this model; the loop follows the rule that jumps are relative and all else goes on to the next instruction. The parser that lays out the code is left out.
- Transcendental functions other than sine and cosine, which are built from uninterpreted library functions.
- ShallowBinding.Stacks.PushFrame: of a frame only the saved height is kept, not the jump buffer, lexical environment, class, value and invocation history.
- ShallowBinding.Stacks.ExitTo: the loop over `bds_unwind1` and the choice of the frame are the use the saved height is for; the code that jumps is not among the macros.
- `ftimes`, `fmod` and the bignum branch of `mcmod`.
- FixnumArithmetic.FPlus: the table of preallocated small fixnums is not modelled.
- Polynomials.MultiplyTerms: `ptimes1` changes the list of its result in place; here every term goes into a new list, and the place the original goes on searching from is not modelled.
- Polynomials with a modulus, floating-point coefficients or algebraic numbers; substitution, powers, derivatives, division with remainder and rational functions.
- Regular expressions: a pattern is any predicate on strings; character encodings and printing of records are left out.
- Template.ReplaceSubstring: requires a non-empty key; with an empty one the loop of the original does not end on a non-empty string.
- Template.SequentialIsSimultaneous: the condition on runs is sufficient; later passes can undo the damage of a false key by coincidence; it is exact for every pass to be right in every order (`EveryOrderFillsExactly`).
- File handling, prompts, `get-version`, and the Windows handles and argument parsing of winkill.
