# Verified models of the inline code in the CE headers

The headers under `ce/include` (and `ce/plugins/luaconf.h`, `ce/tcclib/lib/libtcc1.c`) contain a small amount of
real code whose correctness is not obvious. This project models that code in Dafny and proves what it is for.
`dafny verify dfyconfig.toml` checks everything.

## What is modelled

**Interlocked operations** (`Interlocked`, `Linearization`, `LockFreedom`, `BitSet`, `InterlockedLoops`).
`Interlocked.Step` is a step machine: a shared array of cells, any number of threads, one step for each access to
shared memory (a whole read, each half of a torn read, a compare-exchange) and the locals each thread carries
between them. The word width is a parameter. `Loop` tells the two loop shapes apart: And, Or and Xor on LONG reuse the
value a failed compare-exchange returned; the 64-bit loops read the cell again. A `Misread` step lets a plain read
yield any value whatsoever, so the atomicity results do not depend on reads at all; the progress results do, and
say so (`RealReads`). The specification is an atomic object (`ActStep`) on which a call is started, performed in
one step, and finished; what performing means (`Means`) is stated without reference to the loops, digit by digit for the
bitwise operations and with explicit wrap-around for the others. `InterlockedLoops` writes the two loop shapes as loops and proves each to be
a single update while other threads keep storing to the cell; every completed call of the step machine is shown to
keep that same contract.

**Floating point** (`Float`, `Round`, `Libm`, `Convert`, `Classify`, `MinMax`). `Float` defines an IEEE 754-2008
binary format by the sizes of its fields. A number is its bit pattern; its value is an exact integer count of the
format's smallest subnormal, so nothing is approximated. Addition is the exact sum followed by a rounding that is
proved to be the one of section 4.3, in four rounding directions. The `round` trick is proved for every format
with room for it, and `Libm.RoundDouble` instantiates it with binary64.

**Variadic arguments** (`VarArgs`). The macros are address arithmetic modulo 2^32 or 2^64 over a byte memory.
`Placed` and `LaidOut` state the calling convention; the walkers are proved to recover every argument from it, and
every list is shown to have a layout.

**Allocation** (`Malloca`). Byte memory, a heap, a log of the blocks handed out. Blocks die when they are freed or when
their function returns, and their memory may then be handed out again, with whatever was left in it; the class invariant
says what `free` has received.

**Arithmetic** (`PowInt`, `LuaNumber`, `LuaFloat`, `LuaDivision`, `LongDivision`): binary powering, Lua's range test, Lua's floor
division and modulus, over exact reals as a specification and on floating-point patterns as the code runs, and the 64-bit division routines of the 32-bit runtime, with the machine's divide instruction and its overflow condition.

`Bits` holds powers of two, the C bitwise operators on natural numbers, and what they do to each binary digit.

## What the proofs found

- *Winner of a bit.* Among the bit-test-and-set calls that took effect on a bit that was clear, exactly one finds it
  clear. Among the completed calls at most one returns 0, and one does exactly when the thread of the winning
  compare-exchange has returned since; it may not have (`BitSet.WinnerMayBePending` is such a run of two threads).
- *Reads.* Atomicity needs nothing of the plain reads. Lock-freedom does: with arbitrary misreads a single
  thread can fail any number of times (`LockFreedom.MisreadsStarve`).
- *Win64 variadic arguments.* The size test dereferences exactly when the size is none of 0, 1, 2, 4 and 8; size 0,
  an empty structure in GNU C, is read from the slot.
- *round.* The branch `y > 0.5` runs only in the mode that rounds upward, for operands with a fraction below one half.
- *lua_numbertointeger.* The test agrees with "the truncated value fits" on every number exactly when the integer type has
  at least as many value bits as the float has fraction bits. `long long` with `double` qualifies; a 32-bit integer with
  `double` does not: -2147483648.5 truncates to the least integer and is rejected. Numbers with an integral value are
  always judged correctly.
- *luai_nummod.* On floating-point numbers the result is the exact floor modulus rounded once, unless the product in the
  test m*b < 0 underflows to zero: then the correction is skipped and the wrong sign kept, as for -1e-200 modulo
  2e-200. The result equals the divisor, out of range, when the corrected sum rounds to it, as for -1e-20 modulo 1.0.
  Both conditions are exact, for each rounding direction.
- *luai_numidiv.* The result is the exact floor if and only if, for a quotient below 2^52, the quotient does not round up
  to an integer it does not reach, and, for a larger one, the floor is a finite number of the format and the quotient
  rounds to it. The law a = idiv * b + mod holds exactly when no correction was inexact and the quotient is the floor, or
  one more where the correction was skipped. It fails for -1e-200 and 2e-200 (skipped), for -1e-20 and 1.0 (inexact) and
  for 2^56 and 3.0 (the quotient is rounded to a multiple of four), all in double.
- *Counting completed calls.* Sums and parities hold at every moment for the calls that took effect; in terms of completed
  calls they hold when all threads are idle, and otherwise with the pending calls added.
- *_malloca.* The block holds the requested size exactly when size plus marker does not wrap.
- *__udivmoddi4.* When the estimated quotient is one too large, the code subtracts the divisor from the product
  and the difference that follows can wrap below zero modulo 2^64; the remainder is right all the same.
- *__divdi3.* The quotient is the one C asks for on all operands except the least value divided by -1.

## Model

| member | source | states |
|---|---|---|
| Interlocked.ApplyMeans | ce/include/winapi/winbase.h:818-1036 | what each loop offers to the compare-exchange, and what it answers, is the operation: conjunction, disjunction or difference of every digit of cell and argument; the argument itself for exchange; sum, successor or predecessor with wrap-around at the word width; the new value answered by increment and decrement, the old one by the others |
| Interlocked.MeansOneThing | ce/include/winapi/winbase.h:818-1036 | that specification leaves one new value and one answer for each old value |
| Interlocked.StepRefines | ce/include/winapi/winbase.h:818-1036 | every step of every thread is, seen through the abstraction, either invisible or one legal step of the atomic object |
| Interlocked.RefinesAtomicObject | ce/include/winapi/winbase.h:818-1036 | linearizability: every run, with whole, torn or arbitrary reads, any number of threads and any mix of operations on any cells, is a run of the atomic object, whose steps do what the operations mean, with the same invocations and the same results |
| Interlocked.CellsStayWords | ce/include/winapi/winbase.h:820-1036 | no reachable state holds a value that does not fit the cell, whatever was misread |
| Linearization.SequentialHistory | ce/include/winapi/winbase.h:820-860 | at every reachable state memory is the result of executing, one after the other, the calls in the order of their successful compare-exchange, and each found what its predecessors left |
| Linearization.EveryReturn | ce/include/winapi/winbase.h:981-1036 | every return has exactly one successful compare-exchange of its own between its invocation and itself, and returns what the atomic operation answers there: the old value, or old plus or minus one wrapped |
| Linearization.EveryEffectReturns | ce/include/winapi/winbase.h:981-1036 | conversely a call that took effect returns that answer, if its thread finished |
| Linearization.EffectMeans | ce/include/winapi/winbase.h:818-1036 | in every run the step at which a call takes effect changes its cell, and no other, to what the operation means for the value found there |
| Linearization.ReturnMeans | ce/include/winapi/winbase.h:818-1036 | every completed call did so at one moment between its invocation and its return, and returned what the operation means: for exchange and ExchangeAdd the value the cell held, for increment and decrement that value plus or minus one wrapped |
| Linearization.ReturnsHaveTheirOwnEffect | ce/include/winapi/winbase.h:818-1036 | no two returns share a successful compare-exchange |
| Linearization.Conservation | ce/include/winapi/winbase.h:1006-1036 | a cell touched only by ExchangeAdd64, Increment64 and Decrement64 holds its initial value plus the sum of the completed deltas modulo 2^w at every reachable state |
| Linearization.EffectsReturnOrPend | ce/include/winapi/winbase.h:818-1036 | counted by any weight, the calls that took effect are the calls that returned plus those between their compare-exchange and their return |
| Linearization.ReturnsConserve | ce/include/winapi/winbase.h:1006-1036 | conservation in terms of completed calls: initial value plus the deltas returned plus those pending, at every reachable state |
| Linearization.QuiescentConservation | ce/include/winapi/winbase.h:1006-1036 | when all threads are idle the cell holds its initial value plus the deltas of the completed calls modulo 2^w |
| Linearization.ReplayConserves | ce/include/winapi/winbase.h:1006-1036 | the same of any sequential history of additions |
| Linearization.TicketsDiffer | ce/include/winapi/winbase.h:1006-1012 | in a history of at most 2^w increments of a cell no two answers coincide |
| Linearization.TicketsAreUnique | ce/include/winapi/winbase.h:1006-1012 | in every run with only increments on a cell, at most 2^w of them, any two completed calls return different values |
| LockFreedom.StepStale | ce/include/winapi/winbase.h:820-860 | a thread's sample of its cell goes stale only through a value-changing success of another thread, and a failed compare-exchange had a stale sample |
| LockFreedom.FailureHasCause | ce/include/winapi/winbase.h:818-1036 | each failed compare-exchange is preceded, after the read it relies on, by a value-changing success of another thread on the same cell |
| LockFreedom.FailuresOfOne | ce/include/winapi/winbase.h:818-1036 | a thread fails at most as often as the other threads change values |
| LockFreedom.FailureBound | ce/include/winapi/winbase.h:818-1036 | a run of n threads with S value-changing successes has at most (n-1)*S failed attempts |
| LockFreedom.RunLengthBound | ce/include/winapi/winbase.h:818-1036 | the number of steps of a run is bounded by its completed calls, its value-changing successes and the number of threads |
| LockFreedom.LockFree | ce/include/winapi/winbase.h:818-1036 | lock-freedom with a bound: a run of n threads in which E calls took effect has at most (4n+1)E + 4n steps |
| LockFreedom.MisreadsStarve | ce/include/winapi/winbase.h:1006-1012 | the bound needs real reads: with reads that return anything, one thread alone can fail any number of times with no success |
| LockFreedom.NeverBlocked | ce/include/winapi/winbase.h:818-1036 | in every state each thread inside a call has a step it can take with an honest read |
| BitSet.AddressInjective | ce/include/winapi/winbase.h:901-925 | word index and mask together determine the bit number |
| BitSet.WordOpIsSetOp | ce/include/winapi/winbase.h:901-925 | the word operation adds, removes or toggles exactly one element of the set the array stands for; every other bit stays |
| BitSet.ResultIsMembership | ce/include/winapi/winbase.h:905-925 | the masked old word is non-zero exactly when the bit was a member |
| BitSet.BitArray.BitTest | ce/include/winapi/winbase.h:901-925 | in place on the word array: the new array stands for the updated set, and the result is prior membership |
| BitSet.ArrayIsSet | ce/include/winapi/winbase.h:898-926 | at every reachable state of concurrent bit operations the array stands for the set that the same operations, in the order of their compare-exchange, make of the initial set |
| BitSet.ReturnIsMembership | ce/include/winapi/winbase.h:898-926 | every completed bit operation returns membership at its own place in that order |
| BitSet.OneWinner | ce/include/winapi/winbase.h:901-905 | among the operations that took effect on a bit that starts clear and is only ever set, exactly one found it clear |
| BitSet.WinnersDoNotRepeat | ce/include/winapi/winbase.h:901-905 | among completed calls at most one returns 0 |
| BitSet.WinnerCompleted | ce/include/winapi/winbase.h:901-905 | a completed call returned 0 if and only if the thread of the winning compare-exchange has returned since |
| BitSet.WinnerMayBePending | ce/include/winapi/winbase.h:901-905 | a run of two threads in which a call has completed and none of the completed calls returned 0 |
| BitSet.QuiescentWinner | ce/include/winapi/winbase.h:901-905 | when all threads are idle and some call completed, a completed call returned 0 |
| BitSet.FlipParity | ce/include/winapi/winbase.h:921-925 | in a history that only complements a bit, it differs from its start exactly when the number of operations on it is odd |
| BitSet.FlippedWhenOdd | ce/include/winapi/winbase.h:921-925 | the same at every reachable state of concurrent calls, counting the calls that took effect |
| BitSet.FlippedByCalls | ce/include/winapi/winbase.h:921-925 | the same counting completed calls and those that took effect without having returned |
| BitSet.QuiescentFlip | ce/include/winapi/winbase.h:921-925 | when all threads are idle, the bit differs from its start exactly when the number of completed calls is odd |
| BitSet.FlipMayBePending | ce/include/winapi/winbase.h:921-925 | a run in which the bit has flipped and no call has completed |
| InterlockedLoops.SharedCell.UpdateReusing | ce/include/winapi/winbase.h:820-858 | the And, Or and Xor loops add exactly one store to the history of the cell, lose none that the other threads make, whatever they store, and return the value replaced |
| InterlockedLoops.SharedCell.TornRead | ce/include/winapi/winbase.h:981-985 | a read in two halves, in either order, loses no store of the others, and is the true value if nothing was stored meanwhile |
| InterlockedLoops.SharedCell.UpdateRereading | ce/include/winapi/winbase.h:981-1036 | the same for the 64-bit loops with torn reads; increment and decrement return the new value |
| InterlockedLoops.CallTakesEffect | ce/include/winapi/winbase.h:818-1036 | in every run of the step machine each completed call keeps the contract of the loops, the stores of the other threads being those between its invocation and its effect |
| Float.MagByFields | ce/include/tcc/tcc_libm.h:48-54 | the value of a pattern is the one IEEE 754-2008 gives its exponent and fraction fields, subnormals included |
| Float.Fields | ce/include/tcc/tcc_libm.h:50-83 | the shifts and masks of the code extract exactly the exponent field and the sign bit |
| Float.RoundingIsCorrect | ce/include/tcc/tcc_libm.h:152-158 | the rounding used in additions is correct in each direction: none of the numbers on the required side is closer, and ties to nearest go to the even one |
| Float.RoundBetween | ce/include/tcc/tcc_libm.h:152-158 | rounding never passes a number of the format; in particular it fixes each of them, in every mode |
| Float.AddExact | ce/include/tcc/tcc_libm.h:152-158 | a sum that is a number of the format is computed exactly in every rounding mode |
| Float.AddSpecialCases | ce/include/tcc/tcc_libm.h:149-158 | sums with NaNs and infinities, and the sign of an exact zero sum in each rounding direction, are those of IEEE 754-2008, sections 6.1 to 6.3 |
| Float.Comparisons | ce/include/tcc/tcc_libm.h:153-155 | comparisons are by value, and nothing compares with a NaN |
| Round.FloatConstants | ce/include/tcc/tcc_libm.h:56-62 | binade size, bias, sign bit and infinity of the float format |
| Round.FirstSum | ce/include/tcc/tcc_libm.h:152 | adding 2^52 rounds the operand to an integer in the mode in force |
| Round.FirstSumExact | ce/include/tcc/tcc_libm.h:152 | that addition is exact just when the operand is an integer |
| Round.ExactAfterFirstSum | ce/include/tcc/tcc_libm.h:152-158 | every later operation, the two subtractions, y + x and the correction by one, is exact in every rounding mode |
| Round.BranchReached | ce/include/tcc/tcc_libm.h:153-158 | exactly when each of the two correction branches runs, by mode and fraction; y > 0.5 needs the upward mode |
| Round.TrickRounds | ce/include/tcc/tcc_libm.h:152-158 | from 1/2 up to 2^52 the branches leave the nearest integer, halfway cases away from zero, in every rounding mode |
| Round.RoundCases | ce/include/tcc/tcc_libm.h:143-161 | the exponent tests and the sign handling around them select a correct result for every pattern |
| Libm.RoundDouble | ce/include/tcc/tcc_libm.h:138-162 | round returns the nearest integer, halfway cases away from zero, with the sign of its argument even when the result is zero, for every finite double in every rounding mode; infinities and NaNs come back unchanged |
| Libm.NoneNearer | ce/include/math.h:577-579 | the relation RoundDouble is proved to satisfy means: no integer is nearer, and none as near is larger in magnitude |
| Libm.RoundedUnique | ce/include/math.h:577-579 | one argument has one result pattern, so the result does not depend on the control word |
| Libm.RoundedOdd | ce/include/tcc/tcc_libm.h:145-161 | rounding -x gives the negated pattern |
| Libm.RoundedIdempotent | ce/include/tcc/tcc_libm.h:138-162 | a result rounds to itself |
| Libm.RoundedWithinHalf | ce/include/tcc/tcc_libm.h:138-162 | the result is within 1/2 of the argument |
| Libm.RoundedMonotone | ce/include/tcc/tcc_libm.h:138-162 | rounding preserves <= on all numbers and infinities |
| Convert.WidenExact | ce/include/tcc/tcc_libm.h:172-174 | converting a float to double keeps sign and value |
| Convert.NarrowedRounding | ce/include/tcc/tcc_libm.h:172-174 | no double rounding: the rounded double is a float, so converting back in any mode keeps it and gives the rounding of the float |
| Convert.RoundFloat | ce/include/tcc/tcc_libm.h:172-174 | roundf meets the contract of round on every float; NaN gives NaN |
| Convert.TruncateRounded | ce/include/tcc/tcc_libm.h:164-170 | the cast of a rounded value is defined exactly strictly between -t - 1/2 and t - 1/2, and is then the nearest integer |
| Convert.RoundToInteger | ce/include/tcc/tcc_libm.h:164-170 | the same for the composed functions, in every rounding mode |
| Convert.TruncateMeans | ce/include/tcc/tcc_libm.h:164-170 | the cast to an integer type is defined exactly when the number without its fraction is in range, and is that integer: the integer part of the magnitude, with the sign of the number |
| Convert.FitsByPattern | ce/include/tcc/tcc_libm.h:164-170 | that interval as patterns: the limits are 2^k - 1/2 and 2^k + 1/2 where the format has them, and the neighbouring numbers where not |
| Convert.LRound | ce/include/tcc/tcc_libm.h:164-166 | lround gives the nearest integer exactly for doubles strictly between -2147483648.5 and 2147483647.5, in every rounding mode |
| Convert.LLRound | ce/include/tcc/tcc_libm.h:168-170 | llround gives it exactly from -2^63 up to, not including, 2^63 |
| Classify.ClassOfCode | ce/include/tcc/tcc_libm.h:48-62 | the five classes are the five consecutive ranges of magnitude patterns |
| Classify.ClassOfValue | ce/include/tcc/tcc_libm.h:48-62 | the class computed by shifts is the class of the value: zero, subnormal, normal, infinite or NaN, each if and only if |
| Classify.MacrosAgree | ce/include/math.h:299-335 | isfinite, isinf, isnan and isnormal, as tests on the overlapping class constants, hold exactly of the values they name |
| MinMax.PickedByKey | ce/include/tcc/tcc_libm.h:88-112 | on numbers fmin and fmax are the lower and the upper argument of a total order with -0 below +0, and together return both arguments bit for bit |
| MinMax.NaNIsMissing | ce/include/math.h:639-642 | with one NaN argument the other argument comes back |
| MinMax.EvalMinIsLeast | ce/include/tcc/tcc_libm.h:88-95 | any nest of fmin calls yields the least number among its arguments, and NaN only if all are NaN |
| MinMax.EvalMaxIsGreatest | ce/include/tcc/tcc_libm.h:105-112 | any nest of fmax calls yields the greatest |
| MinMax.OrderDoesNotMatter | ce/include/tcc/tcc_libm.h:88-112 | order, grouping, repetition and added NaNs do not change the bits of the result |
| VarArgs.MaskUpIsRoundUp | ce/include/stdarg.h:45-49 | the mask expression, in wrapping address arithmetic, is the next multiple whenever that multiple is an address |
| VarArgs.StepIsRounded | ce/include/tccdefs.h:188-205 | the masked size added to an aligned start is the end rounded up to a slot |
| VarArgs.Win64Test | ce/include/stdarg.h:36 | the size test is true exactly for sizes other than 0, 1, 2, 4 and 8 |
| VarArgs.RiscVTest | ce/include/tccdefs.h:202-205 | the test against twice the register size is true exactly above 8 bytes on RISC-V 32 and above 16 on RISC-V 64 |
| VarArgs.VaList.Start | ce/include/stdarg.h:69 | va_start leaves the pointer at the first slot after the last named parameter |
| VarArgs.VaList.ArgInSlots | ce/include/stdarg.h:70 | i386: the bytes read are the argument the caller placed at the pointer, and the pointer moves to the next argument |
| VarArgs.VaList.ArgAligned | ce/include/stdarg.h:48-49 | the same on ARM, and on RISC-V for small arguments, where slots are skipped for alignment |
| VarArgs.VaList.ArgByReference | ce/include/tccdefs.h:205 | the same for arguments passed as a pointer to a copy |
| VarArgs.VaList.ArgWin64 | ce/include/tccdefs.h:181-182 | the same on Win64, whichever way the argument was passed |
| VarArgs.VaList.VaArg | ce/include/tccdefs.h:179-210 | va_arg on each target returns the argument at the pointer and advances to the next |
| VarArgs.VaList.Walk | ce/include/tccdefs.h:179-210 | over any argument list of any sizes and alignments the k-th va_arg reads the k-th argument at the address the caller put it, and the pointer ends at the end of the list on a slot boundary |
| VarArgs.PlacementsApart | ce/include/stdarg.h:45-49 | for any i < j of any laid-out list, the bytes read from the argument area for the i-th and the j-th argument, pointer slots included, are disjoint and inside the area |
| VarArgs.ReadAligned | ce/include/stdarg.h:45-49 | on ARM and RISC-V the address of an argument passed by value is a multiple of its type's alignment |
| VarArgs.PlacesUnique | ce/include/tccdefs.h:188-205 | memory and the types determine where each argument is |
| VarArgs.LayoutExists | ce/include/tccdefs.h:179-210 | every argument list that fits below the top of the address space has a layout from every slot boundary |
| PowInt.PowInt | ce/include/math.h:713-721 | X^Y for every Y above the least int, division by zero exactly for X = 0 and Y < 0; floor(log2 of the magnitude of Y) squarings and none for Y = 0; every value _X and _Z ever have is a known power of X, and for X of magnitude at least 1 none exceeds that magnitude to the max(1, magnitude of Y) |
| PowInt.ExponentLaws | ce/include/math.h:713-721 | the result of _Pow_int is the power: 1 for the exponent 0, one factor X more for each step of the exponent, negative ones included; for X = 0 it is 0 above and a division by zero exactly below the exponent 0 |
| LuaNumber.CorrectionNeeded | ce/plugins/luaconf.h:483-489 | the argument of the comment, over exact reals: the test m*b < 0 holds exactly when the quotient is negative and not an integer, and exactly then truncation and floor differ, by one |
| LuaNumber.NumMod | ce/plugins/luaconf.h:483-489 | over exact reals the corrected remainder is the a - floor(a/b)*b of the comment, which is zero or between zero and b |
| LuaNumber.DivModDetermined | ce/plugins/luaconf.h:480-489 | over exact reals the floor quotient and modulus the comments define make up a, and no other integer and remainder in the divisor's range do |
| LuaFloat.FloorAgrees | ce/plugins/luaconf.h:481-491 | the integer floor quotient and modulus used for floating-point values are those of the reals |
| LuaFloat.FModExact | ce/plugins/luaconf.h:490-491 | fmod of two numbers of a format is a number of the format: it makes no rounding error |
| LuaFloat.CorrectionRuns | ce/plugins/luaconf.h:483-491 | on floating-point numbers the test m*b < 0 holds exactly when the correction is needed and the product does not round to zero; the condition on the exact product is given for each rounding direction |
| LuaFloat.ModIsRoundedFloor | ce/plugins/luaconf.h:490-491 | the result is the exact floor modulus correctly rounded, or, exactly when the correction is wrongly skipped, the modulus less the divisor |
| LuaFloat.ModInRange | ce/plugins/luaconf.h:490-491 | the result is zero or strictly between zero and the divisor if and only if the correction is neither skipped nor swallowed by the rounding of the sum |
| LuaFloat.SwallowedGivesDivisor | ce/plugins/luaconf.h:490-491 | in the swallowed case the result is the divisor itself |
| LuaFloat.ModInfinite | ce/plugins/luaconf.h:490-491 | an infinite divisor gives the dividend, or the divisor when the dividend is not zero and has the other sign |
| LuaFloat.ModOfMultiple | ce/plugins/luaconf.h:490-491 | the modulus of a multiple of the divisor is zero with the sign of the dividend |
| LuaFloat.ModNaN | ce/plugins/luaconf.h:490-491 | NaN arguments, infinite dividends and zero divisors give NaN |
| LuaFloat.NumMod | ce/plugins/luaconf.h:490-491 | the macro on any two patterns: for a finite dividend and a finite divisor other than zero the exact floor modulus rounded once, or less by the divisor when the correction is skipped, in range if and only if the correction is neither skipped nor swallowed, a zero with the dividend's sign; for an infinite divisor the dividend or the divisor, by sign; NaN otherwise |
| LuaFloat.SkippedExample | ce/plugins/luaconf.h:483-491 | -1e-200 modulo 2e-200 is -1e-200 in double |
| LuaFloat.SwallowedExample | ce/plugins/luaconf.h:483-491 | -1e-20 modulo 1.0 is 1.0 in double |
| LuaDivision.IDivIsFloor | ce/plugins/luaconf.h:481 | for quotients below 2^frac the floor of the rounded quotient is the exact floor, or one more exactly when the quotient rounds up to an integer above it |
| LuaDivision.ReachesCode | ce/plugins/luaconf.h:481 | the rounded quotient is one of the two integers around the exact one if and only if that integer is a finite number of the format and the remainder, or what is missing to the next multiple, is small enough against the gap there, in each rounding direction |
| LuaDivision.IDivExact | ce/plugins/luaconf.h:481 | for operands of any size luai_numidiv gives the exact floor, or one more, if and only if those conditions on the operands hold; its sign, of zero too, is that of the quotient |
| LuaDivision.IDivNearest | ce/plugins/luaconf.h:481 | from 2^frac on, short of overflow, the result is the exact quotient correctly rounded: no number of the precision is closer on the side the rounding direction asks for |
| LuaDivision.IDivOverflow | ce/plugins/luaconf.h:481 | on overflow it gives an infinity or the largest finite number, never the floor |
| LuaDivision.OverflowCode | ce/plugins/luaconf.h:481 | the quotient rounds beyond the finite numbers exactly when it is at least the power of two after them or close enough below it |
| LuaDivision.IDivSpecial | ce/plugins/luaconf.h:481 | NaN, infinite and zero operands: NaN, a signed infinity or a signed zero; a finite number over an infinity of the other sign gives -0 where the modulus is the infinity |
| LuaDivision.CrossesExample | ce/plugins/luaconf.h:481 | the least negative number divided by 2.0 gives zero, where the exact floor is -1 |
| LuaDivision.QuotientAndModulus | ce/plugins/luaconf.h:481-491 | for operands of any size the dividend is idiv times the divisor plus the modulus if and only if the exact modulus is representable where a correction ran, and the quotient is the exact floor, or one more where the correction was skipped |
| LuaDivision.LawFailsSkipped | ce/plugins/luaconf.h:481-491 | the law fails for -1e-200 and 2e-200 in double |
| LuaDivision.LawFailsSwallowed | ce/plugins/luaconf.h:481-491 | the law fails for -1e-20 and 1.0 in double |
| LuaDivision.LawFailsBig | ce/plugins/luaconf.h:481-491 | the law fails for 2^56 and 3.0 in double, with an exact modulus |
| LuaNumber.RangeTest | ce/plugins/luaconf.h:458-468 | the range test accepts exactly the numbers whose truncation fits, except those strictly between MININTEGER - 1 and MININTEGER |
| LuaNumber.RangeTestExact | ce/plugins/luaconf.h:458-468 | that exception is empty if and only if the integer type has at least as many value bits as the fraction field |
| LuaNumber.RejectedByInt32 | ce/plugins/luaconf.h:465-468 | the rejected double of a 32-bit integer is the pattern of -2147483648.5 |
| LuaNumber.RejectedHalf | ce/plugins/luaconf.h:465-468 | with fewer value bits MININTEGER - 1/2 truncates into range and is rejected |
| LuaNumber.IntegralRange | ce/plugins/luaconf.h:458-468 | an integral number is accepted exactly when it is in the range of the integer type |
| LuaNumber.NumberToInteger | ce/plugins/luaconf.h:465-468 | it succeeds exactly for the numbers from MININTEGER up to, not including, -MININTEGER; then the target receives the number without its fraction; on failure the target is untouched |
| Malloca.Program.Mark | ce/include/malloc.h:115-123 | storing the marker keeps every live block's marker, whatever was at the address before, and hands out the address behind it; NULL stays NULL |
| Malloca.Program.Allocate | ce/include/malloc.h:125-129 | one block with room for exactly the size asked for is handed out, on the heap exactly when size plus marker exceeds 1024, in memory that may have belonged to dead blocks, and the invariant holds |
| Malloca.Program.Write | ce/include/malloc.h:116-129 | no write inside a live block can disturb a live marker |
| Malloca.Program.WriteOutside | ce/include/malloc.h:116-129 | neither can any use of memory outside the live blocks |
| Malloca.Program.EndFrame | ce/include/malloc.h:125-129 | functions may return, with or without _freea of their stack blocks, and the invariant holds |
| Malloca.Program.Freea | ce/include/malloc.h:135-148 | free is called exactly for a heap block, with the pointer malloc returned, which has not been freed; never for a stack block, nor for a pointer that does not carry the heap marker |
| Malloca.LaterActivation | ce/include/malloc.h:116-148 | after any run, a stack block of any size up to the threshold handed out at the address of any dead stack block is told to be on the stack, whatever marker was left there |
| Malloca.FreedExactly | ce/include/malloc.h:135-148 | the pointers free has received are exactly the bases of the heap blocks passed to _freea |
| Malloca.Released | ce/include/malloc.h:135-142 | for every live block the marker read back is 0xDDDD for the heap and 0xCCCC for the stack, and a heap block's base is still allocated |
| Malloca.UsableCoversRequest | ce/include/malloc.h:126-129 | the usable size is the size asked for, or 2^width less when size plus marker wraps, so it covers the request if and only if that sum does not wrap |
| LongDivision.EstimateCorrect | ce/tcclib/lib/libtcc1.c:336-342 | the quotient estimated from the leading words is right or one too large, and comparing the products tells which |
| LongDivision.ShiftedWords | ce/tcclib/lib/libtcc1.c:329-334 | the three shifted words are the dividend times the normalizing power of two |
| LongDivision.DivEstimated | ce/tcclib/lib/libtcc1.c:336-350 | estimate, comparison and correction give quotient and remainder of the normalized operands, with the divide instruction never overflowing |
| LongDivision.UDivMod | ce/tcclib/lib/libtcc1.c:148-362 | for all 64-bit operands quotient times divisor plus remainder is the dividend with a remainder below the divisor, and a zero divisor is reported exactly when there is one |
| LongDivision.DivSigned | ce/tcclib/lib/libtcc1.c:366-387 | the truncated quotient on two's complement operands, the least value divided by -1 giving the least value |
| LongDivision.ModSigned | ce/tcclib/lib/libtcc1.c:389-409 | the truncated remainder on all two's complement operands with a divisor other than zero |
| LongDivision.TruncParts | ce/tcclib/lib/libtcc1.c:366-409 | truncated quotient and remainder make up the dividend, the remainder being smaller than the divisor and of the dividend's sign |
| LongDivision.TwosComplement | ce/tcclib/lib/libtcc1.c:364-387 | a pattern stands for the number in the signed range congruent to it, and the negation macro gives the pattern of its negative modulo 2^64 |
| LongDivision.OnlyOneOverflow | ce/tcclib/lib/libtcc1.c:366-387 | the exact quotient is a 64-bit number except for the least value divided by -1 |

## Left out

- Weak memory ordering: compare-exchange is sequentially consistent, and the Acquire and Release variants are not told apart.
- Overflow of signed C arithmetic: the 64-bit increments, decrements and additions wrap, as the compiler makes them.
- Negative bit numbers in the bit-test functions, and lists of bit operations mixed with other word operations on the same array.
- InterlockedLoops.SharedCell.UpdateReusing: the other threads store whatever they like but only finitely often, without which the loop need not end; runs of any length are the matter of `Interlocked`, and `InterlockedLoops.CallTakesEffect` connects the two.
- InterlockedLoops.SharedCell.UpdateRereading: the same.
- BitSet.BitArray.BitTest: one call without interference; concurrent calls are covered by the step machine.
- Floating-point exception flags (the forced evaluation in `round`) and x87 excess precision.
- Convert.RoundFloat: does not say which NaN a NaN becomes.
- The long double variants, and `lroundf` and `llroundf`, which compose a conversion with the same code.
- The register-save areas and `__va_arg` of x86_64 System V and aarch64, which are not macros; `va_start` of Win64 and RISC-V, which the compiler provides.
- VarArgs.VaList.Walk: the caller's layout is the assumed calling convention, for lists that end below the top of the address space.
- LuaNumber.CorrectionNeeded: over exact reals and a divisor other than zero, as the specification; `LuaFloat.CorrectionRuns` has the floating-point test.
- LuaNumber.NumMod: the same; `LuaFloat.NumMod` has the floating-point result.
- LuaNumber.DivModDetermined: the same; `LuaDivision.QuotientAndModulus` has the floating-point law.
- LuaFloat.ModNaN: does not say which NaN.
- LuaNumber.NumberToInteger: MININTEGER is minus a power of two, as the source assumes.
- PowInt.PowInt: over exact reals; the least int as exponent, whose negation overflows, is excluded.
- Malloca.Program.Allocate: sizes whose sum with the marker wraps are excluded; `Malloca.UsableCoversRequest` says what happens to them. The debug assertion of `_freea` is not modelled.
- LongDivision.UDivMod: the variant for processors that need a normalized divisor throughout, which the i386 build does not compile.
- The shift and float-conversion routines of `libtcc1.c`.
- Inline assembly in `math.h` and `conio.h`, the prototypes and constants of the other headers, `libmem.h` (no bodies), the pipe class, the plugin examples and the Lua API, whose implementations are not part of this model.
