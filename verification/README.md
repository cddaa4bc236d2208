# Arrakis: the Arrakeener resource-exchange engine in Dafny

This project models the account object of the Arrakis out-of-process server.
An Arrakeener holds four texts: first name, last name, affiliation and occupation.
It also holds three 64-bit counters: energy, solaris and spice.
Three economic operations exchange the counters:

- `EatSpice` turns spice into energy.
- `SellSpice` turns spice into solaris.
- `MineSpice` spends energy and solaris on harvesters that yield spice.

Each operation works in the same order:

1. It validates its argument.
2. It checks that the account can pay.
3. It computes its deltas with checked 64-bit arithmetic.
4. Only then does it commit.

On every failure the output is 0 and the account is left as it was.

The model is purely functional:

- `Accounts.Account` is an immutable record.
- Each operation maps an account, an argument and its random draws to a `Step`: a status, the output value and the account afterwards.
- The random draws of `randrange` are parameters constrained to their intervals (`Exchange`). Alternatively they are raw `rand()` values reduced by `RandomDraw.RandRange` (`Traces`).
- Every call is atomic; the per-instance critical section is not modelled.

Modules:

- `Options`: optional values. A null `BSTR` is `None`.
- `CheckedArith`: `safe_add` and `safe_multiply`, C's truncating division, and two's-complement wrap-around used as the reference for what the checks prevent.
- `RandomDraw`: `randrange`.
- `Errors`: one error per string resource the operations report, with its message, error record and `HRESULT`.
- `Accounts`: the record, its seeding, the text setters and getters, the counter getters, and the invariant `Valid` (no counter negative).
- `Exchange`: `EatSpice`, `SellSpice`, `MineSpice`.
- `ExchangeProperties`: properties relating several calls or fields.
- `Traces`: sequences of calls. It proves that the invariant holds on every reachable account and that spice can be tracked from the returned values.

Notes on the code's behaviour:

- The getters only `assert` a non-null output slot (arrakis/arrakeener.cpp:213, 356). The rejection of a null slot that the tests observe comes from the marshaling layer (arrakis/arrakeener.cpp:125-128), so the getters are total here.
- The two argument errors carry different messages: `IDS_NONPOSSPICE` for eat/sell and `IDS_NOHARVESTER` for mine. They are therefore two errors (`NonPositiveSpice`, `NoHarvester`), both returning `E_INVALIDARG`.
- All other failures return `E_FAIL`.
- `MineSpice(INT64_MAX - 1)` is refused with `Overflow` only when energy covers the energy draw. An account with less energy than the draw is refused earlier with `NoEnergy`. `ExchangeProperties.MineWithHugeHarvesterCountOverflows` therefore requires energy of at least 10.
- A setter assigns a C string to a `std::wstring`, which keeps only the characters before the first NUL. A `BSTR` with an embedded NUL is therefore stored cut short (`Accounts.UpToNul`).
- `randrange` reduces one `rand()` value, so no draw exceeds `lower + RAND_MAX`. Under the Microsoft C runtime's `RAND_MAX` of 32767:
  - a new account's solaris never exceeds 232767;
  - a sell rate never exceeds 232767;
  - a mining cost never exceeds 132767.
  The operations accept any draw in the full intervals, which covers these narrower ones.

## Model

| member | source | states |
|---|---|---|
| CheckedArith.TruncDiv | arrakis/arrakeener.cpp:39 | C's `/` truncates toward zero: abs(q)*abs(b) <= abs(a) < abs(q)*abs(b) + abs(b), and a non-zero quotient is positive exactly when the operands have the same sign. For a non-negative dividend and positive divisor, q*b <= a < q*b + b. |
| CheckedArith.SafeAdd | arrakis/arrakeener.cpp:24-30 | For b >= 0 the sum is refused exactly when a + b exceeds INT64_MAX. Otherwise it is a + b, and it never wraps. |
| CheckedArith.MultiplyGuardIsExact | arrakis/arrakeener.cpp:39 | For positive operands, the guard `a > INT64_MAX / b` with truncating division holds exactly when a*b > INT64_MAX. |
| CheckedArith.SafeMultiply | arrakis/arrakeener.cpp:35-42 | For positive operands the product is refused exactly when a*b exceeds INT64_MAX. Otherwise it is a*b. |
| CheckedArith.SafeAddRefusesExactlyWrapping | arrakis/arrakeener.cpp:22-30 | The addition is refused exactly when the two's-complement sum would differ from the true sum. |
| CheckedArith.SafeMultiplyRefusesExactlyWrapping | arrakis/arrakeener.cpp:33-42 | The multiplication is refused exactly when the two's-complement product would differ from the true product. |
| RandomDraw.RandRange | arrakis/arrakeener.cpp:14-19 | For lower < upper, `rand() % (upper - lower + 1) + lower` lies in [lower, upper] for every non-negative `rand()` value. |
| RandomDraw.RandRangeCoversInterval | arrakis/arrakeener.cpp:17 | With `rand()` bounded by RAND_MAX, every value of [lower, min(upper, lower + RAND_MAX)] is produced by some `rand()` value no larger than RAND_MAX. |
| RandomDraw.RandRangeBelowRandMax | arrakis/arrakeener.cpp:17 | With `rand()` bounded by RAND_MAX the draw stays in [lower, min(upper, lower + RAND_MAX)]. With the previous row, these are exactly the values a draw can take. |
| RandomDraw.WindowsDrawsStayNearLower | arrakis/arrakeener.cpp:14-19 | Under the Windows RAND_MAX of 32767, no draw exceeds lower + 32767. |
| Errors.Record | arrakis/arrakeener.cpp:89-98 | Every error record has source "Arrakis.Arrakeener.1", and its description identifies the error uniquely. |
| Errors.Code | arrakis/arrakeener.cpp:391-399 | Argument errors return E_INVALIDARG, every other failure returns E_FAIL, and no failure returns S_OK. |
| Accounts.Seeded | arrakis/arrakeener.cpp:49-50 | A new account is valid, with energy in [1,100], solaris in [200000,400000], spice 0 and all four texts empty. |
| Accounts.SeedingCoversIntervals | arrakis/arrakeener.cpp:49-50 | With `rand()` bounded by RAND_MAX, every energy in [1, min(100, 1 + RAND_MAX)] and every solaris in [200000, min(400000, 200000 + RAND_MAX)] starts some new account. |
| Accounts.WindowsSeeding | arrakis/arrakeener.cpp:49-50 | Under the Windows RAND_MAX of 32767, the whole energy interval is reachable, but a new account's solaris never exceeds 232767. |
| Accounts.Read | arrakis/arrakeener.cpp:354-381 | A counter getter on a valid account never returns a negative value. |
| Accounts.UpToNul | arrakis/arrakeener.cpp:229 | Assigning a C string to a `std::wstring` keeps the longest NUL-free prefix of the argument. |
| Accounts.UpToNulKeepsNulFree | arrakis/arrakeener.cpp:229 | A text without NUL is kept whole. |
| Accounts.Put | arrakis/arrakeener.cpp:222-351 | A setter stores the empty text for null and otherwise the argument up to its first NUL, so a NUL-free argument is stored whole. The other three texts and all three counters are unchanged. |
| Accounts.GetAfterPut | arrakis/arrakeener.cpp:210-219 | A text getter (`get_FirstName` here, the other three alike at lines 246-255, 282-291, 318-327) returns what the last setter on that field stored, which holds no NUL. The other texts read as before. |
| Accounts.PutNullIsPutEmpty | arrakis/arrakeener.cpp:229 | Storing null and storing the empty text give the same account. |
| Accounts.PutOverwrites | arrakis/arrakeener.cpp:222-243 | Two stores to the same field equal the last one alone. |
| Accounts.PutCommutes | arrakis/arrakeener.cpp:222-351 | Stores to different fields commute. |
| Exchange.Convert | arrakis/arrakeener.cpp:391-425 | The checks shared by eat and sell, in order: fewer than one unit gives NonPositiveSpice; more units than spice gives NoSpice; any later refusal is Overflow. Success holds exactly when rate*units and balance + rate*units both fit. |
| Exchange.ConvertOnNonNegativeBalance | arrakis/arrakeener.cpp:403-416 | With a non-negative balance, success holds exactly when the new balance fits. The product check never refuses alone. |
| Exchange.EatSpice | arrakis/arrakeener.cpp:384-430 | Validation order NonPositiveSpice, NoSpice, Overflow. Any failure gives output 0 and an unchanged account. Success holds exactly when units is in [1, spice] and energy + rate*units fits. Then spice drops by units, energy rises by the output (between units and 100*units), and nothing else changes. Validity is preserved. |
| Exchange.SellSpice | arrakis/arrakeener.cpp:433-479 | The same order and all-or-nothing behaviour as EatSpice. On success spice drops by units, solaris rises by the output (between 200000*units and 700000*units), and energy and the texts are unchanged. |
| Exchange.MineSpice | arrakis/arrakeener.cpp:482-542 | Validation order NoHarvester, NoEnergy, Overflow of the cost product, NoSolaris, Overflow of the spice sum. Any failure gives output 0 and an unchanged account. On success energy drops by the energy draw, solaris drops by cost*harvesters, and spice rises by the output gain*harvesters. Energy and solaris strictly decrease. |
| Exchange.YieldOverflowImpliesCostOverflow | arrakis/arrakeener.cpp:505-506 | The spice-gain product overflows only if the solaris-cost product does, so the second multiply check never refuses on its own. |
| ExchangeProperties.FreshAccountCannotTrade | TestArrakis/TestArrakis.cpp:331-347 | On a new account, eating or selling any positive amount is refused with NoSpice, with output 0 and the account unchanged. |
| ExchangeProperties.MineWithHugeHarvesterCountOverflows | TestArrakis/TestArrakis.cpp:402-409 | Mining with INT64_MAX - 1 harvesters, when energy is at least 10, is refused with Overflow and changes nothing. |
| ExchangeProperties.SellThenOversell | TestArrakis/TestArrakis.cpp:384-400 | With 100 spice, selling 50 succeeds, earns between 50*200000 and 50*700000 solaris, and leaves 50 spice. Then selling 51 is refused with NoSpice and the account is unchanged. |
| ExchangeProperties.EatIgnoresText | arrakis/arrakeener.cpp:384-430 | Setting a text before EatSpice or after it gives the same status, output and account. |
| ExchangeProperties.SellIgnoresText | arrakis/arrakeener.cpp:433-479 | Setting a text before SellSpice or after it gives the same status, output and account. |
| ExchangeProperties.MineIgnoresText | arrakis/arrakeener.cpp:482-542 | Setting a text before MineSpice or after it gives the same status, output and account. |
| Traces.Apply | arrakis/arrakeener.cpp:222-542 | One call with draws from raw `rand()` values: setters always succeed with output 0, a refused call leaves the account unchanged, and validity is preserved. |
| Traces.RunKeepsValid | arrakis/arrakeener.cpp:384-542 | No sequence of calls drives a counter of a valid account negative or past INT64_MAX. |
| Traces.ReachableIsValid | arrakis/arrakeener.cpp:49-50 | Every account reachable from a new account by any calls has no negative counter. |
| Traces.SpiceLedger | TestArrakis/TestArrakis.cpp:349-391 | After any sequence of calls, spice equals the initial spice plus mined outputs minus units eaten or sold in successful calls. This is the bookkeeping the tests do from returned values. |
| Traces.FailedCallIsNoOp | arrakis/arrakeener.cpp:384-542 | A refused call can be removed from a sequence without changing the final account. |

## Left out

- Clone: the tests call a `Clone` method, but the Arrakeener class neither declares nor implements one, so there is nothing to model.
- COM identity and dispatch (`QueryInterface`, `GetTypeInfoCount`, `GetTypeInfo`, `GetIDsOfNames`, `Invoke`, `InterfaceSupportsErrorInfo`): runtime plumbing with no logic of its own.
- `SetError`: loading the string resource and publishing it through `SetErrorInfo` are I/O. Its effect is modelled as the returned error and `Errors.Record`.
- Errors.Message: the string table is not part of this model. The texts of `IDS_NOENERGY` and `IDS_NOSOLARIS` ("No energy", "No solaris") are descriptive placeholders. The other four texts are the ones the tests check.
- Reference counting (`AddRef`/`Release`), the module lock and shutdown event (`LockModule`, `UnlockModule`, `g_done`), and the class factory (`CreateInstance`, `LockServer`): these are interlocked concurrency and OS events.
- The per-instance critical section (`Lock`/`Unlock`): each operation is treated as atomic.
- Registration and `wWinMain`: process hosting and registry I/O.
- Accounts.Put: `std::wstring` holds UTF-16 code units, including unpaired surrogates, while a Dafny `char` is a Unicode scalar value. Texts are modelled as sequences of Dafny characters, so texts that hold unpaired surrogates are not modelled.
- Allocation failure: `SysAllocString` in the text getters and `std::bad_alloc` in the setters (`E_OUTOFMEMORY`, `E_FAIL`) are not modelled. Getters and setters always succeed.
- The null output-slot asserts of every getter and operation: they are debug-build checks. The marshaling layer rejects null slots before the call arrives.
- The seeding and distribution of `rand()`: only the interval bound of `randrange` is modelled. The raw value is a parameter.
- The conversion of `randrange`'s result through a 32-bit `int`: every interval used here lies far inside the 32-bit range, so it never truncates.
