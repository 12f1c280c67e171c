# Kotlin beginner exercises, modelled in Dafny

This project models `src/main/kotlin/fr/xebia/xke/1_Beginner.kt` from a Kotlin hands-on kata. Each exercise in that file shows one language feature and is a small pure function or value:

- the `host`, `port` and `url` properties and the `isSecured` check;
- the recursive `factorial`;
- the `remainingTime` `when` expression;
- the `pair` and `product` lambdas;
- the `Price` hierarchy and `computePrice`;
- the nullable `convertURLParam` and the Elvis-operator `convertPriceToLong`;
- the range exercises `generateIntegerList` and `sumSequenceNumbers`;
- `computeTotalPrice`.

Everything in this file is pure, so every exercise is a Dafny function. The properties are proved as lemmas and `ensures` clauses.

The project has three modules besides the exercises:

- `Wrappers` has `Option`, which stands for Kotlin's nullable types, and `Result`, which carries either a returned value or a thrown exception.
- `KotlinInt` models Kotlin's `Int`: 32 bits, two's complement, wrapping on overflow. Every `Int` result is the exact mathematical result truncated to 32 bits (`Wrap`). Proofs move between the two through congruence modulo 2^32. The module also has Kotlin's truncating `%` (`Rem`), `IntRange(lo, hi).toList()` (`Range`) and `Iterable<Int>.sum()` (`Sum`).
- `KotlinText` models the parts of the `String` API the exercises call:
  - `split` on a one-character delimiter, which keeps empty pieces;
  - `Int.toString()`, which is what a string template inserts;
  - `toIntOrNull()` in radix 10.

Each of these library functions is related to an independent description:

- the pieces of `split` are described by `Before`, `After` and `AfterLast`, and a split is undone by `Join`;
- `toIntOrNull` reads back what `toString` writes.

## Model

| member | source | states |
|---|---|---|
| Beginner.Url | src/main/kotlin/fr/xebia/xke/1_Beginner.kt:17-33 | the template `"https://blog.$host:${port}"` with host "xebia.fr" and port 443 is "https://blog.xebia.fr:443" |
| Beginner.UrlIsSecured | src/main/kotlin/fr/xebia/xke/1_Beginner.kt:33-45 | `isSecured` accepts the blog url |
| Beginner.PortText | src/main/kotlin/fr/xebia/xke/1_Beginner.kt:25-33 | port 443 is inserted into the template as the text "443" |
| Beginner.IsSecured | src/main/kotlin/fr/xebia/xke/1_Beginner.kt:45 | true exactly when the url is "https" followed by some rest, i.e. starts with "https" |
| Beginner.MathFactorial | src/main/kotlin/fr/xebia/xke/1_Beginner.kt:53 | the exact factorial the exercise means is at least 1, also for n <= 1 |
| Beginner.Factorial | src/main/kotlin/fr/xebia/xke/1_Beginner.kt:53 | the `Int` result of the recursion is the exact factorial truncated to 32 bits |
| Beginner.FactorialIsIteratedProduct | src/main/kotlin/fr/xebia/xke/1_Beginner.kt:53 | for n > 1, `factorial(n)` is `product(factorial(n-1), n)` |
| Beginner.MathFactorialMonotone | src/main/kotlin/fr/xebia/xke/1_Beginner.kt:53 | the exact factorial never decreases from 1 on |
| Beginner.FactorialExactUpTo12 | src/main/kotlin/fr/xebia/xke/1_Beginner.kt:53 | for every n <= 12 the `Int` result equals the exact factorial |
| Beginner.FactorialWrapsAt13 | src/main/kotlin/fr/xebia/xke/1_Beginner.kt:53 | 13! = 6227020800 does not fit, and `factorial(13)` returns 1932053504 |
| Beginner.RemainingTime | src/main/kotlin/fr/xebia/xke/1_Beginner.kt:65-70 | the message is "q u", where u is the largest unit the duration reaches (seconds below a minute, negatives included) and q is the duration in whole units of u |
| Beginner.RemainingTimeOfReading | src/main/kotlin/fr/xebia/xke/1_Beginner.kt:65-70 | any reading of the duration in those terms is exactly the message returned |
| Beginner.ReadingIsUnique | src/main/kotlin/fr/xebia/xke/1_Beginner.kt:65-70 | a duration has only one such reading (unit and count) |
| Beginner.IsPair | src/main/kotlin/fr/xebia/xke/1_Beginner.kt:85 | the test with Kotlin's sign-of-dividend `%` holds exactly when n is even, negative n included |
| Beginner.PairIsEven | src/main/kotlin/fr/xebia/xke/1_Beginner.kt:85 | `pair` holds for every even `Int` and fails for every odd one, negative ones included |
| Beginner.Product | src/main/kotlin/fr/xebia/xke/1_Beginner.kt:95 | exact product while it fits in `Int`, and always congruent to it modulo 2^32 |
| Beginner.ComputePrice | src/main/kotlin/fr/xebia/xke/1_Beginner.kt:106-113 | over the hierarchy `Price`, `StandardPrice`, `PromotionalPrice`: value less discount for a promotional price, the value for a standard price, 0 for any other price; truncated to 32 bits and exact when it fits |
| Beginner.ItemAmount | src/main/kotlin/fr/xebia/xke/1_Beginner.kt:185-187 | the rule repeated inside `computeTotalPrice` agrees with `computePrice` |
| Beginner.Amounts | src/main/kotlin/fr/xebia/xke/1_Beginner.kt:185-187 | the mapped list has one amount per price, each equal to `computePrice` of that price |
| Beginner.Promotionals | src/main/kotlin/fr/xebia/xke/1_Beginner.kt:190 | the filter keeps only promotional prices and never more than the input |
| Beginner.PromotionalsMultiset | src/main/kotlin/fr/xebia/xke/1_Beginner.kt:190 | the filter keeps every promotional price as many times as it occurs, and nothing else |
| Beginner.AmountsTrackWorth | src/main/kotlin/fr/xebia/xke/1_Beginner.kt:185-188 | the exact sum of the `Int` amounts is congruent modulo 2^32 to the exact sum of the worths |
| Beginner.AmountSumTracksWorth | src/main/kotlin/fr/xebia/xke/1_Beginner.kt:185-188 | the `Int` result of `.sum()` is congruent modulo 2^32 to the exact sum of the worths |
| Beginner.ComputeTotalPrice | src/main/kotlin/fr/xebia/xke/1_Beginner.kt:184-193 | the total is the exact sum of the worths, less 5 when at least two prices are promotional, truncated to 32 bits |
| Beginner.ComputeTotalPriceExact | src/main/kotlin/fr/xebia/xke/1_Beginner.kt:184-193 | while that exact amount fits in `Int`, the total equals it; the empty list costs 0 |
| Beginner.TotalWorthAppend | src/main/kotlin/fr/xebia/xke/1_Beginner.kt:185-188 | the exact total of two concatenated lists is the sum of their totals |
| Beginner.TotalWorthRemove | src/main/kotlin/fr/xebia/xke/1_Beginner.kt:185-188 | removing one price from a list removes exactly its worth from the exact total |
| Beginner.TotalWorthPermutation | src/main/kotlin/fr/xebia/xke/1_Beginner.kt:185-188 | lists with the same prices in any order have the same exact total |
| Beginner.DiscountIgnoresOrder | src/main/kotlin/fr/xebia/xke/1_Beginner.kt:190-192 | reordering changes neither the number of promotional prices nor the discount |
| Beginner.ComputeTotalPriceIgnoresOrder | src/main/kotlin/fr/xebia/xke/1_Beginner.kt:184-193 | the total does not depend on the order of the prices |
| Beginner.ComputeTotalPriceExample | src/main/kotlin/fr/xebia/xke/1_Beginner.kt:183-193 | 10 + (20 - 5) + (30 - 10) with two promotions costs 45 - 5 = 40 |
| Beginner.ConvertURLParam | src/main/kotlin/fr/xebia/xke/1_Beginner.kt:128-135 | without a `?` the result is null, and the only exception ever thrown is `IndexOutOfBounds(1, 1)`: index 1 of a one-piece split |
| Beginner.ConvertURLParamReadsLastValue | src/main/kotlin/fr/xebia/xke/1_Beginner.kt:128-135 | no `?` gives null; a last parameter without `=` throws `IndexOutOfBounds(1, 1)`; otherwise the result is `toIntOrNull` of the text between the first and a second `=` of the last `&`-parameter of the query. The query is the text between the first and a second `?`. All pieces are described without `split` |
| Beginner.ConvertURLParamRoundTrip | src/main/kotlin/fr/xebia/xke/1_Beginner.kt:128-135 | any `Int` written as the value of the last query parameter, after any earlier parameters, is read back unchanged |
| Beginner.ConvertURLParamThrowsOnBareParameter | src/main/kotlin/fr/xebia/xke/1_Beginner.kt:127-134 | on "x?a" and "x?" the code as written throws `IndexOutOfBounds(1, 1)`, where the corrected function returns null |
| Beginner.ConvertURLParamOrNull | src/main/kotlin/fr/xebia/xke/1_Beginner.kt:127-135 | the corrected parser returns `toIntOrNull` of the last parameter's value, and null when there is no query or no value |
| Beginner.ConvertURLParamOrNullAgrees | src/main/kotlin/fr/xebia/xke/1_Beginner.kt:127-135 | the corrected parser returns what the code as written returns wherever that returns, and null wherever it throws |
| Beginner.ConvertPriceToLong | src/main/kotlin/fr/xebia/xke/1_Beginner.kt:145-147 | a present price converts to its value; null converts to 0 |
| Beginner.GenerateIntegerList | src/main/kotlin/fr/xebia/xke/1_Beginner.kt:160 | the list has max elements (none when max < 1), and element i is i + 1 |
| Beginner.GenerateIntegerListMembers | src/main/kotlin/fr/xebia/xke/1_Beginner.kt:160 | x is in the list exactly when 1 <= x <= max, and the list is strictly increasing |
| Beginner.MultiplesOfThree | src/main/kotlin/fr/xebia/xke/1_Beginner.kt:168 | the filter keeps exactly the elements divisible by 3 |
| Beginner.MultiplesOfThreeSnoc | src/main/kotlin/fr/xebia/xke/1_Beginner.kt:168 | filtering a list extended by x keeps x exactly when it is divisible by 3 |
| Beginner.MultiplesOfThreeStep | src/main/kotlin/fr/xebia/xke/1_Beginner.kt:168 | raising max by one adds max to the exact sum when max is a multiple of 3, and nothing otherwise |
| Beginner.MultiplesOfThreeSum | src/main/kotlin/fr/xebia/xke/1_Beginner.kt:168 | the exact sum of the filtered range 0..max equals the reference sum of the multiples of 3 up to max |
| Beginner.TriangleClosedForm | src/main/kotlin/fr/xebia/xke/1_Beginner.kt:168 | twice 0 + 1 + ... + m is m(m+1) |
| Beginner.MultiplesSumUpToThirds | src/main/kotlin/fr/xebia/xke/1_Beginner.kt:168 | the multiples of 3 up to n sum to 3 (0 + 1 + ... + m), where m = n / 3 |
| Beginner.SumSequenceNumbers | src/main/kotlin/fr/xebia/xke/1_Beginner.kt:168 | for max >= 0 the result is the reference sum of the multiples of 3 up to max, truncated to 32 bits; for a negative max it is 0 |
| Beginner.SumSequenceNumbersClosedForm | src/main/kotlin/fr/xebia/xke/1_Beginner.kt:168 | `sumSequenceNumbers(max)` is 3m(m+1)/2 for m = max / 3, truncated to 32 bits, and it is 0 for every max below 3 |
| KotlinInt.Wrap | src/main/kotlin/fr/xebia/xke/1_Beginner.kt:95 | an `Int` result is an `Int` congruent to the exact result modulo 2^32, and equals it when it fits |
| KotlinInt.WrapCongruent | src/main/kotlin/fr/xebia/xke/1_Beginner.kt:53 | exact results that agree modulo 2^32 give the same `Int`, so truncating after every step equals truncating once |
| KotlinInt.Rem | src/main/kotlin/fr/xebia/xke/1_Beginner.kt:85 | Kotlin's `%` has the sign of the dividend and magnitude below the divisor, and it differs from the dividend by a multiple of the divisor; together these fix its value as the remainder of division rounded toward zero. It is zero exactly when the mathematical remainder is |
| KotlinInt.Range | src/main/kotlin/fr/xebia/xke/1_Beginner.kt:160 | `IntRange(lo, hi).toList()` has hi - lo + 1 elements (none when hi < lo), and element i is lo + i |
| KotlinInt.Sum | src/main/kotlin/fr/xebia/xke/1_Beginner.kt:168 | `.sum()` is the exact sum truncated to 32 bits |
| KotlinText.Split | src/main/kotlin/fr/xebia/xke/1_Beginner.kt:129 | a split has at least one piece, and it has exactly one piece when the delimiter does not occur |
| KotlinText.SplitPiecesAreFree | src/main/kotlin/fr/xebia/xke/1_Beginner.kt:129 | no piece contains the delimiter |
| KotlinText.JoinSplit | src/main/kotlin/fr/xebia/xke/1_Beginner.kt:129 | joining the pieces with the delimiter gives back the string |
| KotlinText.SplitJoin | src/main/kotlin/fr/xebia/xke/1_Beginner.kt:129 | splitting a join of delimiter-free pieces gives back the pieces, empty ones included |
| KotlinText.SplitFreePrefix | src/main/kotlin/fr/xebia/xke/1_Beginner.kt:129 | a delimiter-free prefix joins the first piece of the rest |
| KotlinText.BeforeIsFirstPiece | src/main/kotlin/fr/xebia/xke/1_Beginner.kt:129 | `Before` is the longest delimiter-free prefix |
| KotlinText.AfterFirst | src/main/kotlin/fr/xebia/xke/1_Beginner.kt:129 | a string is its text before the first delimiter, that delimiter, and the text after it |
| KotlinText.AfterLastIsLastPiece | src/main/kotlin/fr/xebia/xke/1_Beginner.kt:133 | `AfterLast` is the longest delimiter-free suffix |
| KotlinText.SplitHead | src/main/kotlin/fr/xebia/xke/1_Beginner.kt:129 | the first piece is the text before the first delimiter |
| KotlinText.SplitTail | src/main/kotlin/fr/xebia/xke/1_Beginner.kt:129 | after the first piece, the pieces are the split of the text after the first delimiter |
| KotlinText.SplitSecond | src/main/kotlin/fr/xebia/xke/1_Beginner.kt:132 | with a delimiter present there are at least two pieces, and `split[1]` is the text between the first and second delimiter |
| KotlinText.SplitLast | src/main/kotlin/fr/xebia/xke/1_Beginner.kt:133 | the last piece (`last()`) is the text after the last delimiter |
| KotlinText.BeforeWithout | src/main/kotlin/fr/xebia/xke/1_Beginner.kt:129 | without a delimiter the whole string comes before it |
| KotlinText.FirstDelimiter | src/main/kotlin/fr/xebia/xke/1_Beginner.kt:129 | in s + d + t with s free of d, the text before the first d is s and the text after it is t |
| KotlinText.AfterLastOfSuffix | src/main/kotlin/fr/xebia/xke/1_Beginner.kt:133 | after a prefix that is empty or ends in d, a delimiter-free tail is the text after the last d |
| KotlinText.NatToString | src/main/kotlin/fr/xebia/xke/1_Beginner.kt:33 | the decimal numeral of n is a non-empty digit string without leading zeros, and it denotes n |
| KotlinText.IntToString | src/main/kotlin/fr/xebia/xke/1_Beginner.kt:66-69 | an `Int` prints as digits with a leading `-` exactly when it is negative |
| KotlinText.ToIntOrNull | src/main/kotlin/fr/xebia/xke/1_Beginner.kt:134 | not null exactly for an optionally signed, non-empty digit run whose value fits in `Int`, and then it is that value |
| KotlinText.ToIntOrNullReadsToString | src/main/kotlin/fr/xebia/xke/1_Beginner.kt:134 | `toIntOrNull` reads back every `Int` that `toString` writes |
| KotlinText.ToIntOrNullPlusSign | src/main/kotlin/fr/xebia/xke/1_Beginner.kt:134 | a leading `+` does not change the result |
| KotlinText.ToIntOrNullRejectsOverflow | src/main/kotlin/fr/xebia/xke/1_Beginner.kt:134 | digit runs beyond the `Int` range give null rather than a wrapped value, positive or negative |

## Left out

- The `@file:Suppress` annotation, the package declaration and the teaching comments carry no behaviour.
- `interface Price` is open: any other implementation is represented by the single constructor `Other`, which `computePrice` prices at 0.
- The `pair` and `product` lambdas are plain functions (`IsPair`, `Product`), because a lambda value adds nothing to their behaviour.
- Beginner.Factorial: does not model the `StackOverflowError` that very deep recursion throws on the JVM for large n. The model returns the value that unbounded recursion would compute.
- Beginner.ComputeTotalPrice: the count of promotional prices is not truncated to 32 bits. A list with more than 2^31 - 1 elements cannot be built on the JVM.
- `computeTotalPrice`'s comment mentions a "5.0" discount; the code subtracts the `Int` 5, and the model follows the code.
- `convertURLParam`'s comment promises null when the parameter is not found. The code as written throws `IndexOutOfBoundsException` when the last parameter has no `=`, and the model follows the code (see Findings). The exception's message text is not modelled, only its index and the list size.
- KotlinText.ToIntOrNull: accepts only the ASCII digits `0`-`9`. Kotlin's `String.toIntOrNull` reads each digit with the standard library's internal `digitOf`, which on the JVM is `Character.digit`; that also accepts other Unicode decimal digits, such as Arabic-Indic digits, and the model does not cover them.
- Strings are sequences of Dafny `char`, which are Unicode scalar values, while a Kotlin `String` is a sequence of UTF-16 code units. A string holding a lone surrogate code unit has no counterpart in the model. Every delimiter and digit the exercises read is ASCII, so no modelled behaviour depends on the difference.
- KotlinText.Split: models only the one-character delimiters that `1_Beginner.kt` uses (`?`, `&`, `=`), not multi-character delimiters, `ignoreCase` or `limit`.
- `remainingTime` uses Dafny's `/` for Kotlin's `/`. The two differ only for negative dividends, and every division in that function has a dividend of at least 60.
- `convertPriceToLong` takes a `StandardPrice?`, whose `value` is never null. The `?.value?.` chain therefore reduces to a single null test, and `toLong` widening is exact.

## Findings

| source | as written | input that shows it | evidently intended | confidence | as-written member | corrected member |
|---|---|---|---|---|---|---|
| src/main/kotlin/fr/xebia/xke/1_Beginner.kt:127-134 | `str[1]` is read even when the last parameter has no `=`, so `split("=")` returned one piece | `convertURLParam("x?a")` and `convertURLParam("x?")` throw `IndexOutOfBoundsException` | null, as the comment says: "or null if param is not found" | not executed; follows from the proved model | Beginner.ConvertURLParamThrowsOnBareParameter | Beginner.ConvertURLParamOrNull |
