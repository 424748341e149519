/** Fixed-width positional numerals: big-endian digits, and their text over an alphabet. */
module Numerals {
  import opened Wrappers
  import opened TextOrder

  function Pow(base: nat, exponent: nat): nat {
    if exponent == 0 then 1 else base * Pow(base, exponent - 1)
  }

  /** The number that the big-endian digits `digits` write in `base`. */
  function Value(digits: seq<nat>, base: nat): nat {
    if digits == [] then 0 else Value(digits[..|digits| - 1], base) * base + digits[|digits| - 1]
  }

  /** The lowest `width` big-endian digits of `n`. */
  function Digits(n: nat, width: nat, base: nat): (digits: seq<nat>)
    requires base > 0
    ensures |digits| == width && forall k :: 0 <= k < width ==> digits[k] < base
    decreases width, n
  {
    if width == 0 then [] else Digits(n / base, width - 1, base) + [n % base]
  }

  /** The last digit of a number and the number before it. */
  lemma LastOfDigits(n: nat, width: nat, base: nat) returns (high: nat, low: nat)
    requires base > 0 && width > 0 && n < Pow(base, width)
    ensures n == high * base + low && low < base && high < Pow(base, width - 1)
    ensures Digits(n, width, base) == Digits(high, width - 1, base) + [low]
  {
    Split(n, base);
    QuotientBelow(n, base, Pow(base, width - 1));
    high, low := n / base, n % base;
  }

  lemma ValueOfAppend(front: seq<nat>, last: nat, base: nat)
    ensures Value(front + [last], base) == Value(front, base) * base + last
  {
    assert (front + [last])[..|front|] == front;
  }

  lemma {:induction false} DigitsValue(n: nat, width: nat, base: nat)
    requires base > 0 && n < Pow(base, width)
    ensures Value(Digits(n, width, base), base) == n
    decreases width
  {
    if width > 0 {
      var high, low := LastOfDigits(n, width, base);
      DigitsValue(high, width - 1, base);
      ValueOfAppend(Digits(high, width - 1, base), low, base);
    }
  }

  /** Digits that are in range are the digits of the number they write. */
  lemma {:induction false} ValueDigits(digits: seq<nat>, base: nat)
    requires base > 0 && forall k :: 0 <= k < |digits| ==> digits[k] < base
    ensures Value(digits, base) < Pow(base, |digits|)
    ensures Digits(Value(digits, base), |digits|, base) == digits
  {
    if digits != [] {
      var front, last := digits[..|digits| - 1], digits[|digits| - 1];
      ValueDigits(front, base);
      JoinDigit(Value(front, base), last, base, Pow(base, |front|));
      assert digits == front + [last];
    }
  }

  lemma Split(n: nat, base: nat)
    requires base > 0
    ensures 0 <= n / base && 0 <= n % base < base
    ensures n == n / base * base + n % base
  {
  }

  lemma Monotone(a: nat, b: nat, factor: nat)
    ensures a <= b ==> a * factor <= b * factor
    ensures a < b ==> a * factor + factor <= b * factor
  {
    if a < b {
      var rest: nat := b - a - 1;
      assert b * factor == a * factor + factor + rest * factor;
    }
  }

  lemma QuotientBelow(n: nat, base: nat, bound: nat)
    requires base > 0 && n < base * bound
    ensures n / base < bound
  {
    Split(n, base);
    Monotone(bound, n / base, base);
  }

  lemma Associate(a: nat, b: nat, c: nat)
    ensures a * (b * c) == a * b * c
  {
  }

  lemma {:induction false} PowJoin(base: nat, a: nat, b: nat)
    ensures Pow(base, a + b) == Pow(base, a) * Pow(base, b)
  {
    if a > 0 {
      PowJoin(base, a - 1, b);
      Associate(base, Pow(base, a - 1), Pow(base, b));
    }
  }

  /** Joining two digit blocks shifts the first by the width of the second. */
  lemma {:induction false} ValueOfJoin(high: seq<nat>, low: seq<nat>, base: nat)
    ensures Value(high + low, base) == Value(high, base) * Pow(base, |low|) + Value(low, base)
  {
    if low == [] {
      assert high + low == high;
    } else {
      var front := low[..|low| - 1];
      assert (high + low)[..|high + low| - 1] == high + front;
      ValueOfJoin(high, front, base);
      Distribute(Value(high, base), Pow(base, |front|), Value(front, base), base);
    }
  }

  lemma Distribute(h: nat, p: nat, f: nat, base: nat)
    ensures (h * p + f) * base == h * (base * p) + f * base
  {
  }

  /** Distinct digit characters in ascending order, as in Crockford base 32 and in hexadecimal. */
  ghost predicate Ascending(alphabet: string) {
    |alphabet| > 1 && forall i, j :: 0 <= i < j < |alphabet| ==> alphabet[i] < alphabet[j]
  }

  /** `n` written with exactly `width` digits of `alphabet`, most significant first. */
  function Text(n: nat, width: nat, alphabet: string): (text: string)
    requires |alphabet| > 0
    ensures |text| == width && forall c :: c in text ==> c in alphabet
    decreases width, n
  {
    if width == 0 then "" else Text(n / |alphabet|, width - 1, alphabet) + [alphabet[n % |alphabet|]]
  }

  function IndexOf(alphabet: string, c: char): (index: Option<nat>)
    ensures index.Some? ==> index.value < |alphabet| && alphabet[index.value] == c
    ensures index.None? ==> c !in alphabet
  {
    if alphabet == "" then None
    else if alphabet[0] == c then Some(0)
    else match IndexOf(alphabet[1..], c)
      case Some(i) => Some(i + 1)
      case None => None
  }

  /** The number a text writes in `alphabet`; None when a character is no digit. */
  function Parse(text: string, alphabet: string): Option<nat> {
    if text == "" then Some(0)
    else
      match (Parse(text[..|text| - 1], alphabet), IndexOf(alphabet, text[|text| - 1]))
      case (Some(high), Some(low)) => Some(high * |alphabet| + low)
      case _ => None
  }

  lemma IndexOfDigit(alphabet: string, digit: nat)
    requires Ascending(alphabet) && digit < |alphabet|
    ensures IndexOf(alphabet, alphabet[digit]) == Some(digit)
  {
  }

  lemma DigitOrder(alphabet: string, x: nat, y: nat)
    requires Ascending(alphabet) && x < |alphabet| && y < |alphabet|
    ensures alphabet[x] < alphabet[y] <==> x < y
  {
  }

  /** The last digit of a text and the number before it. */
  lemma LastDigit(n: nat, width: nat, alphabet: string) returns (high: nat, low: nat)
    requires Ascending(alphabet) && width > 0 && n < Pow(|alphabet|, width)
    ensures n == high * |alphabet| + low && low < |alphabet| && high < Pow(|alphabet|, width - 1)
    ensures Text(n, width, alphabet) == Text(high, width - 1, alphabet) + [alphabet[low]]
  {
    Split(n, |alphabet|);
    QuotientBelow(n, |alphabet|, Pow(|alphabet|, width - 1));
    high, low := n / |alphabet|, n % |alphabet|;
  }

  lemma {:induction false} ParseAppend(front: string, digit: nat, alphabet: string)
    requires Ascending(alphabet) && digit < |alphabet| && Parse(front, alphabet).Some?
    ensures Parse(front + [alphabet[digit]], alphabet) == Some(Parse(front, alphabet).value * |alphabet| + digit)
  {
    IndexOfDigit(alphabet, digit);
    assert (front + [alphabet[digit]])[..|front|] == front;
  }

  /** Reading a written number gives it back. */
  lemma {:induction false} ParseText(n: nat, width: nat, alphabet: string)
    requires Ascending(alphabet) && n < Pow(|alphabet|, width)
    ensures Parse(Text(n, width, alphabet), alphabet) == Some(n)
    decreases width
  {
    if width > 0 {
      var high, low := LastDigit(n, width, alphabet);
      ParseText(high, width - 1, alphabet);
      ParseAppend(Text(high, width - 1, alphabet), low, alphabet);
    }
  }

  /** Writing a number that was read gives the text back: the two are inverses. */
  lemma {:induction false} TextParse(text: string, alphabet: string)
    requires |alphabet| > 0 && Parse(text, alphabet).Some?
    ensures Parse(text, alphabet).value < Pow(|alphabet|, |text|)
    ensures Text(Parse(text, alphabet).value, |text|, alphabet) == text
  {
    if text != "" {
      var base, front := |alphabet|, text[..|text| - 1];
      TextParse(front, alphabet);
      var high, low := Parse(front, alphabet).value, IndexOf(alphabet, text[|text| - 1]).value;
      JoinDigit(high, low, base, Pow(base, |front|));
      assert text == front + [alphabet[low]];
    }
  }

  lemma JoinDigit(high: nat, low: nat, base: nat, bound: nat)
    requires low < base && high < bound
    ensures (high * base + low) / base == high && (high * base + low) % base == low
    ensures high * base + low < base * bound
  {
    var n := high * base + low;
    Split(n, base);
    Monotone(n / base, high, base);
    Monotone(high, n / base, base);
    Monotone(high, bound, base);
  }

  lemma DivideTwice(n: nat, base: nat, p: nat)
    requires base > 0 && p > 0 && base * p > 0
    ensures n / base / p == n / (base * p)
  {
    var q, rest := n / (base * p), n % (base * p);
    Split(n, base * p);
    Split(rest, base);
    QuotientBelow(rest, base, p);
    Regroup(q, base, p, rest / base, rest % base);
    JoinDigit(q * p + rest / base, rest % base, base, n + 1 + q * p + rest / base);
    JoinDigit(q, rest / base, p, q + 1);
  }

  lemma Regroup(q: nat, base: nat, p: nat, high: nat, low: nat)
    ensures q * (base * p) + (high * base + low) == (q * p + high) * base + low
  {
  }

  lemma {:induction false} PowPositive(base: nat, exponent: nat)
    requires base > 0
    ensures Pow(base, exponent) > 0
  {
    if exponent > 0 {
      PowPositive(base, exponent - 1);
    }
  }

  /** Each character of a written number is the digit at its place. */
  lemma {:induction false} TextDigit(n: nat, width: nat, alphabet: string, k: nat)
    requires |alphabet| > 0 && k < width && Pow(|alphabet|, width - 1 - k) > 0
    ensures Text(n, width, alphabet)[k] == alphabet[n / Pow(|alphabet|, width - 1 - k) % |alphabet|]
    decreases width
  {
    if k < width - 1 {
      var base, p := |alphabet|, Pow(|alphabet|, width - 2 - k);
      PowPositive(base, width - 2 - k);
      TextDigit(n / base, width - 1, alphabet, k);
      DivideTwice(n, base, p);
    }
  }

  /** Text order is numeric order, on every alphabet whose characters ascend. */
  lemma {:induction false} TextOrderIsNumericOrder(m: nat, n: nat, width: nat, alphabet: string)
    requires Ascending(alphabet) && m < Pow(|alphabet|, width) && n < Pow(|alphabet|, width)
    ensures Less(Text(m, width, alphabet), Text(n, width, alphabet)) <==> m < n
    ensures Text(m, width, alphabet) == Text(n, width, alphabet) <==> m == n
    decreases width
  {
    if width > 0 {
      var p, x := LastDigit(m, width, alphabet);
      var q, y := LastDigit(n, width, alphabet);
      TextOrderIsNumericOrder(p, q, width - 1, alphabet);
      DigitOrder(alphabet, x, y);
      LastCharacter(Text(p, width - 1, alphabet), Text(q, width - 1, alphabet), alphabet[x], alphabet[y]);
      Monotone(p, q, |alphabet|);
      Monotone(q, p, |alphabet|);
    }
    ParseText(m, width, alphabet);
    ParseText(n, width, alphabet);
  }

  /** A number below (d + 1) * base^(width - 1) starts with a digit of at most d. */
  lemma {:induction false} LeadingDigit(n: nat, width: nat, alphabet: string, d: nat)
    requires Ascending(alphabet) && 0 < width && d < |alphabet|
    requires n < (d + 1) * Pow(|alphabet|, width - 1)
    ensures Text(n, width, alphabet)[0] <= alphabet[d]
    decreases width
  {
    Monotone(d + 1, |alphabet|, Pow(|alphabet|, width - 1));
    var high, low := LastDigit(n, width, alphabet);
    if width == 1 {
      DigitOrder(alphabet, d, low);
    } else {
      HighBelow(high, low, |alphabet|, d + 1, Pow(|alphabet|, width - 2));
      LeadingDigit(high, width - 1, alphabet, d);
    }
  }

  lemma Rearrange(d: nat, base: nat, p: nat)
    ensures d * (base * p) == d * p * base
  {
  }

  lemma HighBelow(high: nat, low: nat, base: nat, d: nat, p: nat)
    requires high * base + low < d * (base * p)
    ensures high < d * p
  {
    Monotone(d * p, high, base);
    Rearrange(d, base, p);
  }

  /** A text that starts with a digit of at most d reads as a number below (d + 1) * base^(width - 1). */
  lemma {:induction false} ParsedBelow(text: string, alphabet: string, d: nat)
    requires Ascending(alphabet) && text != "" && d < |alphabet| && text[0] <= alphabet[d]
    requires Parse(text, alphabet).Some?
    ensures Parse(text, alphabet).value < (d + 1) * Pow(|alphabet|, |text| - 1)
  {
    var front, low := text[..|text| - 1], IndexOf(alphabet, text[|text| - 1]).value;
    if front == "" {
      DigitOrder(alphabet, d, low);
    } else {
      ParsedBelow(front, alphabet, d);
      JoinBelow(Parse(front, alphabet).value, low, |alphabet|, d + 1, Pow(|alphabet|, |front| - 1));
    }
  }

  lemma JoinBelow(high: nat, low: nat, base: nat, d: nat, p: nat)
    requires high < d * p && low < base
    ensures high * base + low < d * (base * p)
  {
    Monotone(high, d * p, base);
    Rearrange(d, base, p);
  }

  /** `read` is `n` itself below `bound`, and otherwise a smaller positive number or nothing. */
  predicate ReadsAs(n: nat, read: Option<nat>, bound: nat) {
    if n < bound then read == Some(n) else read.Some? ==> 0 < read.value < n
  }

  /** One more digit keeps the comparison of the two readings. */
  lemma DigitInSmallerBase(high: nat, read: nat, low: nat, small: nat, base: nat)
    requires low < small < base
    requires ReadsAs(high, Some(read), small)
    ensures ReadsAs(high * base + low, Some(read * small + low), small)
  {
    if high > 0 {
      SmallerProduct(read, high, small, base);
    }
  }

  lemma SmallerProduct(read: nat, high: nat, small: nat, base: nat)
    requires 0 < read <= high && 0 < small < base
    ensures 0 < read * small < high * base && small < high * base
  {
    Monotone(1, read, small);
    Monotone(read, high, small);
    Monotone(1, high, base);
    Commute(high, small);
    Commute(high, base);
    Monotone(small, base, high);
  }

  lemma Commute(a: nat, b: nat)
    ensures a * b == b * a
  {
  }

  lemma ReadOneMore(high: nat, low: nat, front: Option<nat>, small: nat, base: nat)
    requires low < base && 0 < small < base
    requires ReadsAs(high, front, small)
    ensures ReadsAs(high * base + low,
                    if front.Some? && low < small then Some(front.value * small + low) else None, small)
  {
    Monotone(1, high, base);
    if front.Some? && low < small {
      DigitInSmallerBase(high, front.value, low, small, base);
    }
  }

  lemma ParseLast(front: string, c: char, alphabet: string)
    ensures Parse(front + [c], alphabet) ==
      match (Parse(front, alphabet), IndexOf(alphabet, c))
      case (Some(high), Some(low)) => Some(high * |alphabet| + low)
      case _ => None
  {
    assert (front + [c])[..|front|] == front;
  }

  lemma PrefixDigit(alphabet: string, small: string, digit: nat)
    requires Ascending(alphabet) && Ascending(small) && small <= alphabet && digit < |alphabet|
    ensures IndexOf(small, alphabet[digit]) == if digit < |small| then Some(digit) else None
  {
    if digit < |small| {
      assert small[digit] == alphabet[digit];
      IndexOfDigit(small, digit);
    } else {
      assert forall i :: 0 <= i < |small| ==> small[i] == alphabet[i];
    }
  }

  /**
   * A number written in one base and read in a smaller one whose digits are the first of the larger: a single digit
   * is read as itself; anything longer is read as a smaller positive number, if at all.
   */
  lemma {:induction false} ReadInSmallerBase(n: nat, width: nat, alphabet: string, small: string)
    requires Ascending(alphabet) && Ascending(small) && small < alphabet && n < Pow(|alphabet|, width)
    ensures ReadsAs(n, Parse(Text(n, width, alphabet), small), |small|)
    decreases width
  {
    if width > 0 {
      var high, low := LastDigit(n, width, alphabet);
      ReadInSmallerBase(high, width - 1, alphabet, small);
      PrefixDigit(alphabet, small, low);
      var front := Text(high, width - 1, alphabet);
      ParseLast(front, alphabet[low], small);
      ReadOneMore(high, low, Parse(front, small), |small|, |alphabet|);
    }
  }
}
