/**
 The beginner exercises of the Kotlin hands-on kata (file `1_Beginner.kt`):
 a handful of independent, pure functions and values, each showing one
 language feature. Kotlin `Int` arithmetic is modelled with its 32-bit
 wrap-around (see module KotlinInt); every exercise is related to the exact
 mathematical value it computes.
 */
module Beginner {
  import opened KotlinInt
  import opened KotlinText
  import opened Wrappers

  // ---------------------------------------------------------------------------
  // Properties and string templates

  const Host: string := "xebia.fr"
  const Port: Int32 := 443

  /** `url`: the string template `"https://blog.$host:${port}"`. */
  function Url(): (r: string)
    ensures r == "https://blog.xebia.fr:443"
  {
    PortText();
    "https://blog." + Host + ":" + IntToString(Port)
  }

  /** `isSecured`: whether the url starts with the scheme prefix "https". */
  function IsSecured(url: string): (r: bool)
    ensures r <==> exists rest: string :: url == "https" + rest
  {
    if "https" <= url then
      assert url == "https" + url[5..];
      true
    else false
  }

  /** The blog address is a secured url. */
  lemma UrlIsSecured()
    ensures IsSecured(Url())
  {
    assert Url() == "https" + "://blog.xebia.fr:443";
  }

  /** The port prints as "443". */
  lemma PortText()
    ensures IntToString(Port) == "443"
  {
    assert NatToString(4) == "4";
    assert NatToString(44) == "44";
    assert NatToString(443) == "443";
  }

  // ---------------------------------------------------------------------------
  // Conditional expressions: factorial

  /** The exact factorial the exercise means: 1 for every n <= 1, negatives included. */
  function MathFactorial(n: int): (r: int)
    ensures r >= 1
  {
    if n <= 1 then 1 else n * MathFactorial(n - 1)
  }

  /** `factorial`: `if (n <= 1) 1 else factorial(n-1)*n` on `Int`, so every
      product keeps only its low 32 bits; the result is the exact factorial
      truncated to 32 bits. */
  function Factorial(n: Int32): (r: Int32)
    ensures r == Wrap(MathFactorial(n))
  {
    if n <= 1 then 1
    else
      var f := Factorial(n - 1);
      CongruentMul(f, MathFactorial(n - 1), n);
      WrapCongruent(f * n, MathFactorial(n));
      Wrap(f * n)
  }

  /** Each step of `factorial` is the `product` of the previous value and n. */
  lemma FactorialIsIteratedProduct(n: Int32)
    requires n > 1
    ensures Factorial(n) == Product(Factorial(n - 1), n)
  {
  }

  /** The exact factorial never decreases from 1 on. */
  lemma {:induction false} MathFactorialMonotone(m: int, n: int)
    requires 1 <= m <= n
    ensures MathFactorial(m) <= MathFactorial(n)
    decreases n - m
  {
    if m < n {
      MathFactorialMonotone(m, n - 1);
    }
  }

  /** Up to 12 the `Int` result is the exact factorial. */
  lemma FactorialExactUpTo12(n: Int32)
    requires n <= 12
    ensures Factorial(n) == MathFactorial(n)
  {
    if n >= 1 {
      assert MathFactorial(12) == 479001600;
      MathFactorialMonotone(n, 12);
    }
  }

  /** 13! no longer fits in an `Int`: the function returns the wrapped value. */
  lemma FactorialWrapsAt13()
    ensures MathFactorial(13) == 6227020800
    ensures Factorial(13) == 1932053504
  {
    assert MathFactorial(13) == 6227020800;
  }

  // ---------------------------------------------------------------------------
  // When expressions: remaining time

  datatype TimeUnit = Second | Minute | Hour | Day

  function Label(u: TimeUnit): string {
    match u
    case Second => "second(s)"
    case Minute => "minute(s)"
    case Hour => "hour(s)"
    case Day => "day(s)"
  }

  /** "q u" reads duration d: u is the largest unit that d reaches (seconds
      for anything below a minute, negatives included) and q is d counted
      in whole units of u, rounded down. */
  predicate Reading(d: int, q: int, u: TimeUnit) {
    match u
    case Second => d < 60 && q == d
    case Minute => 60 <= d < 3600 && 60 * q <= d < 60 * q + 60
    case Hour => 3600 <= d < 86400 && 3600 * q <= d < 3600 * q + 3600
    case Day => 86400 <= d && 86400 * q <= d < 86400 * q + 86400
  }

  /** The text "q u" of a string template such as `"$q second(s)"`. */
  function Message(q: int, u: TimeUnit): string {
    IntToString(q) + " " + Label(u)
  }

  /** `remainingTime`: the first threshold the duration is below decides the
      unit. Kotlin's `/` rounds toward zero, but every division here has a
      dividend of at least 60, where it agrees with Dafny's `/`. */
  function RemainingTime(durationInSeconds: Int32): (r: string)
    ensures exists q: int, u: TimeUnit :: Reading(durationInSeconds, q, u) && r == Message(q, u)
  {
    var d := durationInSeconds;
    if d < 60 then
      assert Reading(d, d, Second);
      Message(d, Second)
    else if d < 3600 then
      assert Reading(d, d / 60, Minute);
      Message(d / 60, Minute)
    else if d < 86400 then
      assert Reading(d, d / 3600, Hour);
      Message(d / 3600, Hour)
    else
      assert Reading(d, d / 86400, Day);
      Message(d / 86400, Day)
  }

  /** The reading alone determines the message. */
  lemma RemainingTimeOfReading(d: Int32, q: int, u: TimeUnit)
    requires Reading(d, q, u)
    ensures RemainingTime(d) == Message(q, u)
  {
    var q', u' :| Reading(d, q', u') && RemainingTime(d) == Message(q', u');
    ReadingIsUnique(d, q, u, q', u');
  }

  /** A duration has exactly one reading. */
  lemma ReadingIsUnique(d: int, q: int, u: TimeUnit, q': int, u': TimeUnit)
    requires Reading(d, q, u) && Reading(d, q', u')
    ensures q == q' && u == u'
  {
  }

  // ---------------------------------------------------------------------------
  // Lambdas

  /** `pair`: `it % 2 == 0` with Kotlin's sign-of-dividend remainder. */
  function IsPair(n: Int32): (r: bool)
    ensures r <==> n % 2 == 0
  {
    Rem(n, 2) == 0
  }

  /** Even numbers are pair and odd numbers are not, on both sides of zero. */
  lemma PairIsEven(k: int)
    requires MinValue <= 2 * k && 2 * k + 1 <= MaxValue
    ensures IsPair(2 * k) && !IsPair(2 * k + 1)
  {
  }

  /** `product`: the `Int` product, exact while it fits and otherwise the low 32 bits. */
  function Product(a: Int32, b: Int32): (r: Int32)
    ensures MinValue <= a * b <= MaxValue ==> r == a * b
    ensures Congruent(r, a * b)
  {
    Wrap(a * b)
  }

  // ---------------------------------------------------------------------------
  // Type checks and smart casts: prices

  /** `Price` with its two implementations; `Other` stands for any other
      implementation of the interface. */
  datatype Price = Standard(value: Int32) | Promotional(value: Int32, discount: Int32) | Other

  /** `StandardPrice`. */
  type StandardPrice = p: Price | p.Standard? witness Standard(0)

  /** What a price costs in exact arithmetic: value less discount for a
      promotion, the value for a standard price, nothing otherwise. */
  function Worth(price: Price): int {
    match price
    case Promotional(v, d) => v - d
    case Standard(v) => v
    case Other => 0
  }

  /** `computePrice`: the worth of the price as an `Int` (the subtraction wraps). */
  function ComputePrice(price: Price): (r: Int32)
    ensures r == Wrap(Worth(price))
    ensures MinValue <= Worth(price) <= MaxValue ==> r == Worth(price)
  {
    if price.Promotional? then Wrap(price.value - price.discount)
    else if price.Standard? then price.value
    else 0
  }

  /** The per-item rule written out again inside `computeTotalPrice`. */
  function ItemAmount(price: Price): (r: Int32)
    ensures r == ComputePrice(price)
  {
    if price.Promotional? then Wrap(price.value - price.discount)
    else if price.Standard? then price.value
    else 0
  }

  /** `prices.map { ... }`. */
  function Amounts(prices: seq<Price>): (r: seq<Int32>)
    ensures |r| == |prices|
    ensures forall i :: 0 <= i < |r| ==> r[i] == ComputePrice(prices[i])
  {
    seq(|prices|, i requires 0 <= i < |prices| => ItemAmount(prices[i]))
  }

  /** `prices.filter { it is PromotionalPrice }`: the promotional prices, in order. */
  function Promotionals(prices: seq<Price>): (r: seq<Price>)
    ensures forall p :: p in r ==> p.Promotional?
    ensures |r| <= |prices|
  {
    if prices == [] then []
    else
      var last := prices[|prices| - 1];
      assert prices == prices[..|prices| - 1] + [last];
      Promotionals(prices[..|prices| - 1]) + (if last.Promotional? then [last] else [])
  }

  /** The filter keeps every promotional price as often as it occurs, and nothing else. */
  lemma {:induction false} PromotionalsMultiset(prices: seq<Price>)
    ensures forall p: Price :: multiset(Promotionals(prices))[p] == if p.Promotional? then multiset(prices)[p] else 0
  {
    if prices != [] {
      var n := |prices|;
      var last := prices[n - 1];
      assert prices == prices[..n - 1] + [last];
      PromotionalsMultiset(prices[..n - 1]);
    }
  }

  /** The flat discount of the loop exercise: 5 once at least two prices are promotional. */
  function Discount(prices: seq<Price>): int {
    if |Promotionals(prices)| >= 2 then 5 else 0
  }

  /** `computeTotalPrice`: the sum of the item prices less 5 when at least two
      are promotional (and unchanged otherwise), kept to 32 bits. */
  function ComputeTotalPrice(prices: seq<Price>): (r: Int32)
    ensures r == Wrap(NetWorth(prices))
  {
    var amount := Sum(Amounts(prices));
    var promo := |Promotionals(prices)|;
    AmountSumTracksWorth(prices);
    WrapSubtract(amount, TotalWorth(prices), Discount(prices));
    if promo >= 2 then Wrap(amount - 5) else amount
  }

  /** The exact sum of the worths, left to right. */
  function TotalWorth(prices: seq<Price>): int {
    if prices == [] then 0 else TotalWorth(prices[..|prices| - 1]) + Worth(prices[|prices| - 1])
  }

  /** The exact amount a list of prices stands for: the worths less the discount. */
  function NetWorth(prices: seq<Price>): int {
    TotalWorth(prices) - Discount(prices)
  }

  /** Summing the `Int` amounts keeps the exact total's low 32 bits. */
  lemma {:induction false} AmountsTrackWorth(prices: seq<Price>)
    ensures Congruent(MathSum(Amounts(prices)), TotalWorth(prices))
  {
    if prices != [] {
      var n := |prices|;
      var a := Amounts(prices);
      assert a[..n - 1] == Amounts(prices[..n - 1]);
      AmountsTrackWorth(prices[..n - 1]);
      CongruentAdd(MathSum(a[..n - 1]), TotalWorth(prices[..n - 1]), a[n - 1], Worth(prices[n - 1]));
    } else {
      assert Amounts(prices) == [];
    }
  }

  /** The `Int` sum of the amounts keeps the exact total's low 32 bits. */
  lemma AmountSumTracksWorth(prices: seq<Price>)
    ensures Congruent(Sum(Amounts(prices)), TotalWorth(prices))
  {
    var amounts := Amounts(prices);
    AmountsTrackWorth(prices);
    CongruentTransitive(Sum(amounts), MathSum(amounts), TotalWorth(prices));
  }

  /** While every number stays within `Int`, the total is exact. */
  lemma ComputeTotalPriceExact(prices: seq<Price>)
    requires MinValue <= NetWorth(prices) <= MaxValue
    ensures ComputeTotalPrice(prices) == NetWorth(prices)
    ensures prices == [] ==> ComputeTotalPrice(prices) == 0
  {
  }

  /** The exact total splits over concatenation. */
  lemma {:induction false} TotalWorthAppend(a: seq<Price>, b: seq<Price>)
    ensures TotalWorth(a + b) == TotalWorth(a) + TotalWorth(b)
    decreases |b|
  {
    if b == [] {
      assert a + b == a;
    } else {
      assert (a + b)[..|a + b| - 1] == a + b[..|b| - 1];
      TotalWorthAppend(a, b[..|b| - 1]);
    }
  }

  /** Taking one price out of a list takes its worth out of the exact total. */
  lemma TotalWorthRemove(qs: seq<Price>, i: nat)
    requires i < |qs|
    ensures TotalWorth(qs) == TotalWorth(qs[..i] + qs[i + 1..]) + Worth(qs[i])
  {
    var last := qs[i];
    assert qs == qs[..i] + [last] + qs[i + 1..];
    TotalWorthAppend(qs[..i], qs[i + 1..]);
    TotalWorthAppend(qs[..i] + [last], qs[i + 1..]);
    TotalWorthAppend(qs[..i], [last]);
    assert TotalWorth([last]) == Worth(last) by {
      assert [last][..0] == [];
    }
  }

  /** The exact total does not depend on the order of the prices. */
  lemma {:induction false} TotalWorthPermutation(ps: seq<Price>, qs: seq<Price>)
    requires multiset(ps) == multiset(qs)
    ensures TotalWorth(ps) == TotalWorth(qs)
    decreases |ps|
  {
    if ps == [] {
      assert |qs| == |multiset(qs)| == 0;
    } else {
      var n := |ps|;
      var last := ps[n - 1];
      assert ps == ps[..n - 1] + [last];
      assert last in multiset(qs);
      var i :| 0 <= i < |qs| && qs[i] == last;
      var rest := qs[..i] + qs[i + 1..];
      assert multiset(ps[..n - 1]) == multiset(rest) by {
        assert qs == qs[..i] + [last] + qs[i + 1..];
        calc {
          multiset(ps[..n - 1]);
          multiset(ps) - multiset{last};
          multiset(qs) - multiset{last};
          multiset(qs[..i]) + multiset{last} + multiset(qs[i + 1..]) - multiset{last};
          multiset(rest);
        }
      }
      calc {
        TotalWorth(ps);
        TotalWorth(ps[..n - 1]) + Worth(last);
        { TotalWorthPermutation(ps[..n - 1], rest); }
        TotalWorth(rest) + Worth(last);
        { TotalWorthRemove(qs, i); }
        TotalWorth(qs);
      }
    }
  }

  /** Whether the discount applies does not depend on the order of the prices. */
  lemma DiscountIgnoresOrder(ps: seq<Price>, qs: seq<Price>)
    requires multiset(ps) == multiset(qs)
    ensures |Promotionals(ps)| == |Promotionals(qs)|
    ensures Discount(ps) == Discount(qs)
  {
    var a, b := Promotionals(ps), Promotionals(qs);
    PromotionalsMultiset(ps);
    PromotionalsMultiset(qs);
    assert multiset(a) == multiset(b);
    assert |a| == |multiset(a)| == |multiset(b)| == |b|;
  }

  /** The total does not depend on the order of the prices. */
  lemma ComputeTotalPriceIgnoresOrder(ps: seq<Price>, qs: seq<Price>)
    requires multiset(ps) == multiset(qs)
    ensures ComputeTotalPrice(ps) == ComputeTotalPrice(qs)
  {
    assert NetWorth(ps) == NetWorth(qs) by {
      DiscountIgnoresOrder(ps, qs);
      TotalWorthPermutation(ps, qs);
    }
  }

  /** The worked example: 10 + (20 - 5) + (30 - 10) with two promotions costs 40. */
  lemma ComputeTotalPriceExample()
    ensures ComputeTotalPrice([Standard(10), Promotional(20, 5), Promotional(30, 10)]) == 40
  {
    var prices := [Standard(10), Promotional(20, 5), Promotional(30, 10)];
    assert prices[..2] == [Standard(10), Promotional(20, 5)];
    assert prices[..2][..1] == [Standard(10)];
    assert [Standard(10)][..0] == [];
    assert TotalWorth(prices) == 45;
    assert Promotionals(prices) == [Promotional(20, 5), Promotional(30, 10)];
    ComputeTotalPriceExact(prices);
  }

  // ---------------------------------------------------------------------------
  // Null references: URL parameters

  /** The exceptions a Kotlin call may throw here. */
  datatype Exception = IndexOutOfBounds(index: int, size: int)

  /** `convertURLParam` as written: the value of the last `&`-separated
      parameter of the query (the text between the first and a possible
      second `?`), read by `toIntOrNull`; `null` without a query; and an
      `IndexOutOfBoundsException` when that last parameter has no `=`. */
  function ConvertURLParam(url: string): (r: Result<Option<Int32>, Exception>)
    ensures '?' !in url ==> r == Ok(None)
    ensures r.Err? ==> r.error == IndexOutOfBounds(1, 1)
  {
    var split := Split(url, '?');
    if |split| == 1 then Ok(None)
    else
      var params := Split(split[1], '&');
      var str := Split(params[|params| - 1], '=');
      if |str| < 2 then Err(IndexOutOfBounds(1, |str|))
      else Ok(ToIntOrNull(str[1]))
  }

  /** The last parameter of the query of url, described without `split`. */
  function LastParameter(url: string): string
    requires '?' in url
  {
    AfterLast(Before(After(url, '?'), '?'), '&')
  }

  /** The value text of the last parameter, described without `split`: the text
      after its first `=` up to a further `=`; nothing when there is no query
      or the parameter has no `=`. */
  function LastParameterValue(url: string): Option<string> {
    if '?' !in url then None
    else
      var p := LastParameter(url);
      if '=' in p then Some(Before(After(p, '='), '=')) else None
  }

  /** What `convertURLParam` returns, stated through the description above. */
  lemma ConvertURLParamReadsLastValue(url: string)
    ensures '?' !in url ==> ConvertURLParam(url) == Ok(None)
    ensures '?' in url && '=' !in LastParameter(url) ==> ConvertURLParam(url) == Err(IndexOutOfBounds(1, 1))
    ensures LastParameterValue(url).Some? ==> ConvertURLParam(url) == Ok(ToIntOrNull(LastParameterValue(url).value))
  {
    if '?' in url {
      var split := Split(url, '?');
      assert |split| >= 2 && split[1] == Before(After(url, '?'), '?') by {
        SplitSecond(url, '?');
      }
      var params := Split(split[1], '&');
      var p := params[|params| - 1];
      assert p == LastParameter(url) by {
        SplitLast(split[1], '&');
      }
      var str := Split(p, '=');
      if '=' in p {
        assert |str| >= 2 && str[1] == Before(After(p, '='), '=') by {
          SplitSecond(p, '=');
        }
      }
    }
  }

  /** A value written as the last parameter of a query comes back unchanged. */
  lemma ConvertURLParamRoundTrip(base: string, earlier: string, name: string, n: Int32)
    requires '?' !in base && '?' !in earlier && '?' !in name
    requires earlier == "" || earlier[|earlier| - 1] == '&'
    requires '&' !in name && '=' !in name
    ensures ConvertURLParam(base + "?" + earlier + name + "=" + IntToString(n)) == Ok(Some(n))
  {
    var v := IntToString(n);
    assert '?' !in v && '&' !in v && '=' !in v;
    var parameter := name + ['='] + v;
    var query := earlier + parameter;
    var url := base + "?" + earlier + name + "=" + v;
    assert url == base + ['?'] + query;
    FirstDelimiter(base, query, '?');
    BeforeWithout(query, '?');
    AfterLastOfSuffix(earlier, parameter, '&');
    assert LastParameter(url) == parameter;
    FirstDelimiter(name, v, '=');
    BeforeWithout(v, '=');
    ConvertURLParamReadsLastValue(url);
    ToIntOrNullReadsToString(n);
  }

  /** The parser throws where its comment promises `null`: on a last parameter without `=`. */
  lemma ConvertURLParamThrowsOnBareParameter()
    ensures ConvertURLParam("x?a") == Err(IndexOutOfBounds(1, 1))
    ensures ConvertURLParam("x?") == Err(IndexOutOfBounds(1, 1))
    ensures ConvertURLParamOrNull("x?a") == None
    ensures ConvertURLParamOrNull("x?") == None
  {
    FirstDelimiter("x", "a", '?');
    BeforeWithout("a", '?');
    ConvertURLParamReadsLastValue("x?a");
    FirstDelimiter("x", "", '?');
    BeforeWithout("", '?');
    ConvertURLParamReadsLastValue("x?");
  }

  /** `convertURLParam` as its comment intends: the same steps, with
      `str.getOrNull(1)` in place of `str[1]`, so that a last parameter without
      `=` gives `null`. Its result is the value of the last parameter read by
      `toIntOrNull`, and nothing when there is none. */
  function ConvertURLParamOrNull(url: string): (r: Option<Int32>)
    ensures r == (match LastParameterValue(url) case None => None case Some(t) => ToIntOrNull(t))
  {
    var split := Split(url, '?');
    if |split| == 1 then None
    else
      var params := Split(split[1], '&');
      var str := Split(params[|params| - 1], '=');
      ConvertURLParamReadsLastValue(url);
      if |str| < 2 then None
      else ToIntOrNull(str[1])
  }

  /** The corrected parser returns what the code as written returns, and `null`
      exactly where the code as written throws. */
  lemma ConvertURLParamOrNullAgrees(url: string)
    ensures ConvertURLParam(url).Ok? ==> ConvertURLParamOrNull(url) == ConvertURLParam(url).value
    ensures ConvertURLParam(url).Err? ==> ConvertURLParamOrNull(url) == None
  {
  }

  // ---------------------------------------------------------------------------
  // Elvis operator

  /** `convertPriceToLong`: `price?.value?.toLong() ?: 0L`. */
  function ConvertPriceToLong(price: Option<StandardPrice>): (r: Int64)
    ensures price.Some? ==> r == ComputePrice(price.value)
    ensures price.None? ==> r == 0
  {
    var value: Option<Int64> := match price case Some(p) => Some(p.value) case None => None;
    value.GetOr(0)
  }

  // ---------------------------------------------------------------------------
  // Ranges

  /** `generateIntegerList`: 1, 2, ..., max. */
  function GenerateIntegerList(max: Int32): (r: seq<Int32>)
    ensures |r| == if max < 1 then 0 else max
    ensures forall i :: 0 <= i < |r| ==> r[i] == i + 1
  {
    Range(1, max)
  }

  /** The list holds exactly the numbers from 1 to max, strictly increasing. */
  lemma GenerateIntegerListMembers(max: Int32, x: int)
    ensures x in GenerateIntegerList(max) <==> 1 <= x <= max
    ensures forall i, j :: 0 <= i < j < |GenerateIntegerList(max)| ==> GenerateIntegerList(max)[i] < GenerateIntegerList(max)[j]
  {
    if 1 <= x <= max {
      assert GenerateIntegerList(max)[x - 1] == x;
    }
  }

  /** `filter { it % 3 == 0 }`, with Kotlin's remainder. */
  function MultiplesOfThree(s: seq<Int32>): (r: seq<Int32>)
    ensures forall x :: x in r <==> x in s && x % 3 == 0
  {
    if s == [] then []
    else
      var last := s[|s| - 1];
      assert s == s[..|s| - 1] + [last];
      MultiplesOfThree(s[..|s| - 1]) + (if Rem(last, 3) == 0 then [last] else [])
  }

  /** `sumSequenceNumbers`: the sum of the multiples of 3 from 0 to max, kept to
      32 bits; nothing for a negative max, where the range is empty. */
  function SumSequenceNumbers(max: Int32): (r: Int32)
    ensures max >= 0 ==> r == Wrap(MultiplesSumUpTo(max))
    ensures max < 0 ==> r == 0
  {
    var multiples := MultiplesOfThree(Range(0, max));
    if max >= 0 then MultiplesOfThreeSum(max); Sum(multiples) else Sum(multiples)
  }

  /** Filtering an extended list filters the new element on its own. */
  lemma MultiplesOfThreeSnoc(s: seq<Int32>, x: Int32)
    ensures MultiplesOfThree(s + [x]) == MultiplesOfThree(s) + (if x % 3 == 0 then [x] else [])
  {
    assert (s + [x])[..|s|] == s;
  }

  /** Raising max by one adds max to the sum when it is a multiple of 3, and nothing otherwise. */
  lemma MultiplesOfThreeStep(max: Int32)
    requires max > 0
    ensures MathSum(MultiplesOfThree(Range(0, max)))
         == MathSum(MultiplesOfThree(Range(0, max - 1))) + (if max % 3 == 0 then max else 0)
  {
    var a := Range(0, max - 1);
    assert Range(0, max) == a + [max];
    var f := MultiplesOfThree(a);
    MultiplesOfThreeSnoc(a, max);
    if max % 3 == 0 {
      assert (f + [max])[..|f|] == f;
    } else {
      assert f + [] == f;
    }
  }

  /** Within [3m, 3m + 3) the remainder by 3 is the distance from 3m. */
  lemma RemainderOfThree(n: int, m: int)
    requires 3 * m <= n < 3 * m + 3
    ensures n % 3 == n - 3 * m
  {
  }

  /** 0 + 1 + ... + m. */
  function Triangle(m: nat): nat
  {
    if m == 0 then 0 else Triangle(m - 1) + m
  }

  /** Gauss: twice 0 + 1 + ... + m is m(m+1). */
  lemma {:induction false} TriangleClosedForm(m: nat)
    ensures 2 * Triangle(m) == m * (m + 1)
  {
    if m > 0 {
      TriangleClosedForm(m - 1);
      assert (m - 1) * m + 2 * m == m * (m + 1);
    }
  }

  /** Reference definition: the sum of the multiples of 3 among 0, 1, ..., n,
      counted up one number at a time. */
  function MultiplesSumUpTo(n: nat): nat
  {
    if n == 0 then 0 else MultiplesSumUpTo(n - 1) + (if n % 3 == 0 then n else 0)
  }

  /** Filtering the range and summing it gives the reference sum. */
  lemma {:induction false} MultiplesOfThreeSum(max: Int32)
    requires max >= 0
    ensures MathSum(MultiplesOfThree(Range(0, max))) == MultiplesSumUpTo(max)
  {
    if max == 0 {
      SumAtZero();
    } else {
      MultiplesOfThreeSum(max - 1);
      MultiplesOfThreeStep(max);
    }
  }

  /** The range 0..0 holds the single multiple 0. */
  lemma SumAtZero()
    ensures MathSum(MultiplesOfThree(Range(0, 0))) == 0
  {
    MultiplesOfThreeSnoc([], 0);
    assert [0][..0] == [];
  }

  /** The multiples of 3 up to n are 0, 3, ..., 3m for the m with
      3m <= n < 3m + 3, so they sum to 3 (0 + 1 + ... + m). */
  lemma {:induction false} MultiplesSumUpToThirds(n: nat, m: nat)
    requires 3 * m <= n < 3 * m + 3
    ensures MultiplesSumUpTo(n) == 3 * Triangle(m)
  {
    if n > 0 {
      RemainderOfThree(n, m);
      if n == 3 * m {
        MultiplesSumUpToThirds(n - 1, m - 1);
      } else {
        MultiplesSumUpToThirds(n - 1, m);
      }
    }
  }

  /** 3m(m+1)/2 is three times m(m+1)/2. */
  lemma ThreeTimesHalf(m: int, t: int)
    requires 2 * t == m * (m + 1)
    ensures 3 * m * (m + 1) / 2 == 3 * t
  {
    assert 3 * m * (m + 1) == 2 * (3 * t);
  }

  /** `sumSequenceNumbers(max)` is 3m(m+1)/2 for m = max / 3, kept to 32 bits;
      it is 0 below 3, negative max included, where the range is empty or holds only 0. */
  lemma SumSequenceNumbersClosedForm(max: Int32)
    ensures max >= 0 ==> SumSequenceNumbers(max) == Wrap(3 * (max / 3) * (max / 3 + 1) / 2)
    ensures max < 3 ==> SumSequenceNumbers(max) == 0
  {
    if max >= 0 {
      var m := max / 3;
      MultiplesSumUpToThirds(max, m);
      TriangleClosedForm(m);
      ThreeTimesHalf(m, Triangle(m));
      if max < 3 {
        assert m == 0;
      }
    }
  }
}
