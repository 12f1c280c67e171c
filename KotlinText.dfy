/**
 The parts of Kotlin's `String` API that the exercises use: `split` on a
 one-character delimiter, `Int.toString()` (string templates) and
 `toIntOrNull()`. A Kotlin `String` is a sequence of UTF-16 code units; here a
 string is a sequence of Dafny `char`s, which are Unicode scalar values, so a
 string holding a lone surrogate code unit has no counterpart. Every delimiter
 and digit the exercises read is ASCII, where the two views agree.
 */
module KotlinText {
  import opened KotlinInt
  import opened Wrappers

  // ---------------------------------------------------------------------------
  // split

  /** `s.split(d)` for a delimiter of one character: the pieces between
      consecutive occurrences of d, empty pieces included (also a leading or
      trailing one); a string without d gives the one piece s. */
  function Split(s: string, d: char): (r: seq<string>)
    ensures |r| >= 1
    ensures (|r| == 1) <==> (d !in s)
  {
    if |s| == 0 then [""]
    else
      var rest := Split(s[1..], d);
      if s[0] == d then [""] + rest
      else [[s[0]] + rest[0]] + rest[1..]
  }

  /** No piece of a split contains the delimiter. */
  lemma {:induction false} SplitPiecesAreFree(s: string, d: char)
    ensures forall i :: 0 <= i < |Split(s, d)| ==> d !in Split(s, d)[i]
  {
    if |s| > 0 {
      SplitPiecesAreFree(s[1..], d);
      var rest := Split(s[1..], d);
      if s[0] != d {
        assert d !in [s[0]] + rest[0];
      }
    }
  }

  /** `parts.joinToString(d)`: the pieces with d between consecutive ones. */
  function Join(parts: seq<string>, d: char): string
    requires |parts| >= 1
  {
    if |parts| == 1 then parts[0] else parts[0] + [d] + Join(parts[1..], d)
  }

  /** Joining the pieces of a split gives back the original string. */
  lemma {:induction false} JoinSplit(s: string, d: char)
    ensures Join(Split(s, d), d) == s
  {
    if |s| > 0 {
      var rest := Split(s[1..], d);
      JoinSplit(s[1..], d);
      if s[0] == d {
        assert ([""] + rest)[1..] == rest;
      } else if |rest| > 1 {
        var r := [[s[0]] + rest[0]] + rest[1..];
        assert r[1..] == rest[1..];
        assert Join(rest, d) == rest[0] + [d] + Join(rest[1..], d);
      }
    }
  }

  /** Splitting a join of delimiter-free pieces gives back the pieces. */
  lemma {:induction false} SplitJoin(parts: seq<string>, d: char)
    requires |parts| >= 1
    requires forall i :: 0 <= i < |parts| ==> d !in parts[i]
    ensures Split(Join(parts, d), d) == parts
  {
    if |parts| == 1 {
      SplitFreePrefix(parts[0], "", d);
      assert parts[0] + "" == parts[0];
    } else {
      var tail := Join(parts[1..], d);
      SplitJoin(parts[1..], d);
      SplitFreePrefix(parts[0], [d] + tail, d);
      assert parts[0] + [d] + tail == parts[0] + ([d] + tail);
      assert ([d] + tail)[1..] == tail;
      assert Split([d] + tail, d) == [""] + Split(tail, d);
      assert parts[0] + "" == parts[0];
      assert parts == [parts[0]] + parts[1..];
    }
  }

  /** A delimiter-free prefix p is glued onto the first piece of the rest. */
  lemma {:induction false} SplitFreePrefix(p: string, t: string, d: char)
    requires d !in p
    ensures Split(p + t, d) == [p + Split(t, d)[0]] + Split(t, d)[1..]
  {
    if |p| == 0 {
      assert p + t == t;
      assert p + Split(t, d)[0] == Split(t, d)[0];
      assert Split(t, d) == [Split(t, d)[0]] + Split(t, d)[1..];
    } else {
      var first, others := Split(t, d)[0], Split(t, d)[1..];
      var rest := Split(p[1..] + t, d);
      assert rest == [p[1..] + first] + others by {
        SplitFreePrefix(p[1..], t, d);
      }
      assert Split(p + t, d) == [[p[0]] + rest[0]] + rest[1..] by {
        assert (p + t)[1..] == p[1..] + t;
      }
      assert [p[0]] + (p[1..] + first) == p + first;
    }
  }

  // ---------------------------------------------------------------------------
  // An independent description of the pieces: text before the first delimiter,
  // after the first delimiter and after the last delimiter.

  /** The text of s before its first d (all of s when there is none). */
  function Before(s: string, d: char): string
  {
    if |s| == 0 || s[0] == d then "" else [s[0]] + Before(s[1..], d)
  }

  /** Before(s, d) is the longest prefix of s free of d: it stops at a d or at the end. */
  lemma {:induction false} BeforeIsFirstPiece(s: string, d: char)
    ensures d !in Before(s, d) && Before(s, d) <= s
    ensures |Before(s, d)| < |s| ==> s[|Before(s, d)|] == d
  {
    if |s| > 0 && s[0] != d {
      BeforeIsFirstPiece(s[1..], d);
    }
  }

  /** The text of s after its first d. */
  function After(s: string, d: char): (r: string)
    requires d in s
    ensures |r| < |s|
  {
    if s[0] == d then s[1..] else After(s[1..], d)
  }

  /** s is the text before its first d, that d, and the text after it. */
  lemma {:induction false} AfterFirst(s: string, d: char)
    requires d in s
    ensures s == Before(s, d) + [d] + After(s, d)
  {
    if s[0] != d {
      AfterFirst(s[1..], d);
    }
  }

  /** The text of s after its last d (all of s when there is none). */
  function AfterLast(s: string, d: char): string
    decreases |s|
  {
    if d !in s then s else AfterLast(After(s, d), d)
  }

  /** AfterLast(s, d) is the longest suffix of s free of d: it starts after a d or at the start. */
  lemma {:induction false} AfterLastIsLastPiece(s: string, d: char)
    ensures d !in AfterLast(s, d)
    ensures |AfterLast(s, d)| <= |s| && s[|s| - |AfterLast(s, d)|..] == AfterLast(s, d)
    ensures |AfterLast(s, d)| < |s| ==> s[|s| - |AfterLast(s, d)| - 1] == d
    decreases |s|
  {
    if d in s {
      var a := After(s, d);
      AfterFirst(s, d);
      AfterLastIsLastPiece(a, d);
      assert s[|s| - |a|..] == a;
    }
  }

  /** The first piece of a split is the text before the first delimiter. */
  lemma {:induction false} SplitHead(s: string, d: char)
    ensures Split(s, d)[0] == Before(s, d)
  {
    if |s| > 0 && s[0] != d {
      SplitHead(s[1..], d);
    }
  }

  /** After the first piece, a split continues as the split of the text after the first delimiter. */
  lemma {:induction false} SplitTail(s: string, d: char)
    requires d in s
    ensures Split(s, d)[1..] == Split(After(s, d), d)
  {
    if s[0] == d {
      assert ([""] + Split(s[1..], d))[1..] == Split(s[1..], d);
    } else {
      SplitTail(s[1..], d);
    }
  }

  /** The second piece of a split is the text between the first and second delimiter. */
  lemma SplitSecond(s: string, d: char)
    requires d in s
    ensures |Split(s, d)| >= 2 && Split(s, d)[1] == Before(After(s, d), d)
  {
    SplitTail(s, d);
    SplitHead(After(s, d), d);
  }

  /** The last piece of a split is the text after the last delimiter. */
  lemma {:induction false} SplitLast(s: string, d: char)
    ensures Split(s, d)[|Split(s, d)| - 1] == AfterLast(s, d)
    decreases |s|
  {
    if d !in s {
      SplitHead(s, d);
      BeforeWithout(s, d);
    } else {
      var r, a := Split(s, d), After(s, d);
      SplitTail(s, d);
      SplitLast(a, d);
      assert r[|r| - 1] == r[1..][|r| - 2];
      assert AfterLast(s, d) == AfterLast(a, d);
    }
  }

  /** Without a delimiter, all of s comes before it. */
  lemma {:induction false} BeforeWithout(s: string, d: char)
    requires d !in s
    ensures Before(s, d) == s
  {
    if |s| > 0 {
      BeforeWithout(s[1..], d);
    }
  }

  /** In s + [d] + t with s free of d, the first d is the one between s and t. */
  lemma {:induction false} FirstDelimiter(s: string, t: string, d: char)
    requires d !in s
    ensures d in s + [d] + t
    ensures Before(s + [d] + t, d) == s && After(s + [d] + t, d) == t
  {
    var u := s + [d] + t;
    assert u[|s|] == d;
    if |s| == 0 {
      assert u[1..] == t;
    } else {
      FirstDelimiter(s[1..], t, d);
      assert u[1..] == s[1..] + [d] + t;
    }
  }

  /** When s is empty or ends in d and t is free of d, the text after the last d of s + t is t. */
  lemma {:induction false} AfterLastOfSuffix(s: string, t: string, d: char)
    requires d !in t
    requires s == [] || s[|s| - 1] == d
    ensures AfterLast(s + t, d) == t
    decreases |s|
  {
    if s == [] {
      assert s + t == t;
    } else {
      var b, a := Before(s, d), After(s, d);
      AfterFirst(s, d);
      assert s + t == b + [d] + (a + t);
      BeforeIsFirstPiece(s, d);
      FirstDelimiter(b, a + t, d);
      assert a == [] || a[|a| - 1] == s[|s| - 1];
      AfterLastOfSuffix(a, t, d);
    }
  }

  // ---------------------------------------------------------------------------
  // Decimal digits

  predicate IsDigit(c: char) {
    '0' <= c <= '9'
  }

  predicate AllDigits(s: string) {
    forall i :: 0 <= i < |s| ==> IsDigit(s[i])
  }

  function DigitChar(n: int): (c: char)
    requires 0 <= n < 10
    ensures IsDigit(c)
  {
    (n + '0' as int) as char
  }

  function DigitValue(c: char): (n: int)
    requires IsDigit(c)
    ensures 0 <= n < 10 && DigitChar(n) == c
  {
    c as int - '0' as int
  }

  /** The number a string of decimal digits denotes, read left to right. */
  function DigitsValue(s: string): nat
    requires AllDigits(s)
  {
    if |s| == 0 then 0 else DigitsValue(s[..|s| - 1]) * 10 + DigitValue(s[|s| - 1])
  }

  /** The decimal numeral of n, without leading zeros. */
  function NatToString(n: nat): (r: string)
    ensures |r| >= 1 && AllDigits(r)
    ensures DigitsValue(r) == n
    ensures r[0] == '0' ==> r == "0"
  {
    if n < 10 then [DigitChar(n)]
    else
      var r := NatToString(n / 10) + [DigitChar(n % 10)];
      assert r[..|r| - 1] == NatToString(n / 10);
      r
  }

  /** `n.toString()`, which is also what a string template `"$n"` inserts. */
  function IntToString(n: int): (r: string)
    ensures |r| >= 1
    ensures (r[0] == '-') <==> (n < 0)
    ensures forall i :: 0 <= i < |r| ==> r[i] == '-' || IsDigit(r[i])
  {
    if n < 0 then "-" + NatToString(-n) else NatToString(n)
  }

  // ---------------------------------------------------------------------------
  // toIntOrNull

  predicate IsSign(c: char) {
    c == '-' || c == '+'
  }

  /** The digits of a numeral: s without one leading sign. */
  function Magnitude(s: string): string {
    if |s| > 0 && IsSign(s[0]) then s[1..] else s
  }

  /** s is an optionally signed, non-empty run of decimal digits. */
  predicate IsDecimal(s: string) {
    |Magnitude(s)| >= 1 && AllDigits(Magnitude(s))
  }

  /** The integer a decimal numeral denotes. */
  function DecimalValue(s: string): int
    requires IsDecimal(s)
  {
    var magnitude: int := DigitsValue(Magnitude(s));
    if s[0] == '-' then -magnitude else magnitude
  }

  /** `s.toIntOrNull()` (radix 10): the value of an optionally signed run of
      decimal digits, or `null` for an empty string, a lone sign, any other
      character, or a value outside the `Int` range. */
  function ToIntOrNull(s: string): (r: Option<Int32>)
    ensures r.Some? <==> IsDecimal(s) && MinValue <= DecimalValue(s) <= MaxValue
    ensures r.Some? ==> r.value == DecimalValue(s)
  {
    if |s| == 0 then None
    else
      var start := if s[0] < '0' then 1 else 0;
      if start == 1 && (|s| == 1 || !IsSign(s[0])) then None
      else if !AllDigits(s[start..]) then None
      else
        var magnitude: int := DigitsValue(s[start..]);
        var v := if s[0] == '-' then -magnitude else magnitude;
        if MinValue <= v <= MaxValue then Some(v) else None
  }

  /** `toIntOrNull` reads back every `Int` that `toString` writes. */
  lemma ToIntOrNullReadsToString(n: Int32)
    ensures ToIntOrNull(IntToString(n)) == Some(n)
  {
    var s := IntToString(n);
    if n < 0 {
      assert Magnitude(s) == NatToString(-(n as int));
    } else {
      assert Magnitude(s) == NatToString(n);
    }
  }

  /** A leading `+` changes nothing. */
  lemma ToIntOrNullPlusSign(digits: string)
    requires AllDigits(digits)
    ensures ToIntOrNull("+" + digits) == ToIntOrNull(digits)
  {
    assert Magnitude("+" + digits) == digits;
  }

  /** Digit runs beyond the `Int` range are rejected rather than wrapped, on either side. */
  lemma ToIntOrNullRejectsOverflow(n: nat)
    requires n > MaxValue
    ensures ToIntOrNull(NatToString(n)) == None
    ensures n > -MinValue ==> ToIntOrNull("-" + NatToString(n)) == None
  {
    assert Magnitude(NatToString(n)) == NatToString(n);
    assert Magnitude("-" + NatToString(n)) == NatToString(n);
  }
}
