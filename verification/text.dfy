/**
 * Text formatting used by the naming code: the decimal rendering that
 * `format!("{}")` gives integers, zero padding as used by date formats, the
 * alphanumeric-only sanitiser built from the regular expression `[^a-zA-Z0-9]`,
 * and the reading-back of rendered numbers, which is the partner that shows
 * each rendering loses nothing.
 */
module Text {

  predicate IsDigit(c: char) {
    '0' <= c <= '9'
  }

  predicate AllDigits(s: string) {
    forall i :: 0 <= i < |s| ==> IsDigit(s[i])
  }

  function DigitChar(d: nat): (c: char)
    requires d < 10
    ensures IsDigit(c)
  {
    (48 + d) as char
  }

  function DigitValue(c: char): (d: nat)
    requires IsDigit(c)
    ensures d < 10
  {
    (c as int) - 48
  }

  lemma DigitRoundTrip(d: nat)
    requires d < 10
    ensures DigitValue(DigitChar(d)) == d
  {
  }

  /** The decimal rendering of a natural number. */
  function NatToString(n: nat): (s: string)
    ensures 1 <= |s|
    decreases n
  {
    if n < 10 then [DigitChar(n)] else NatToString(n / 10) + [DigitChar(n % 10)]
  }

  /** The rendering is made of digits only, and starts with '0' only for zero itself. */
  lemma {:induction false} NatToStringDigits(n: nat)
    ensures AllDigits(NatToString(n))
    ensures NatToString(n)[0] == '0' <==> n == 0
    decreases n
  {
    if n >= 10 {
      NatToStringDigits(n / 10);
    }
  }

  /** The value of a string of decimal digits. */
  function ParseNat(s: string): nat
    requires AllDigits(s)
    decreases |s|
  {
    if |s| == 0 then 0 else ParseNat(s[..|s| - 1]) * 10 + DigitValue(s[|s| - 1])
  }

  /** Reading a rendered number back gives the number. */
  lemma {:induction false} ParseNatToString(n: nat)
    ensures AllDigits(NatToString(n)) && ParseNat(NatToString(n)) == n
    decreases n
  {
    NatToStringDigits(n);
    var s := NatToString(n);
    if n < 10 {
      assert s[..|s| - 1] == [];
    } else {
      ParseNatToString(n / 10);
      assert s[..|s| - 1] == NatToString(n / 10);
    }
  }

  /** Different numbers are rendered differently. */
  lemma NatToStringInjective(a: nat, b: nat)
    ensures NatToString(a) == NatToString(b) <==> a == b
  {
    ParseNatToString(a);
    ParseNatToString(b);
  }

  /** The rendering of a signed integer: a leading '-' for negatives, as `format!("{}")` does. */
  function IntToString(i: int): (s: string)
    ensures 1 <= |s|
    ensures s[0] == '-' <==> i < 0
  {
    if i < 0 then "-" + NatToString(-i)
    else
      NatToStringDigits(i);
      NatToString(i)
  }

  /** A possibly signed string of decimal digits. */
  predicate IsIntText(s: string) {
    1 <= |s| && if s[0] == '-' then AllDigits(s[1..]) else AllDigits(s)
  }

  /** Reads back a string produced by `IntToString`. */
  function ParseInt(s: string): int
    requires IsIntText(s)
  {
    if s[0] == '-' then -(ParseNat(s[1..]) as int) else ParseNat(s)
  }

  lemma ParseIntToString(i: int)
    ensures IsIntText(IntToString(i)) && ParseInt(IntToString(i)) == i
  {
    if i < 0 {
      assert IntToString(i)[1..] == NatToString(-i);
      ParseNatToString(-i);
    } else {
      ParseNatToString(i);
    }
  }

  lemma IntToStringInjective(a: int, b: int)
    ensures IntToString(a) == IntToString(b) <==> a == b
  {
    ParseIntToString(a);
    ParseIntToString(b);
  }

  /** Neither rendering contains the separator '_'. */
  lemma NatToStringHasNoUnderscore(n: nat)
    ensures '_' !in NatToString(n)
  {
    NatToStringDigits(n);
  }

  lemma IntToStringHasNoUnderscore(i: int)
    ensures '_' !in IntToString(i)
  {
    var s := IntToString(i);
    if i < 0 {
      NatToStringDigits(-i);
      assert s == "-" + NatToString(-i);
    } else {
      NatToStringDigits(i);
    }
  }

  /** A signed rendering is made of digits and the leading '-'. */
  lemma IntToStringChars(i: int)
    ensures var s := IntToString(i);
            forall k :: 0 <= k < |s| ==> IsDigit(s[k]) || s[k] == '-'
  {
    if i < 0 {
      NatToStringDigits(-i);
      var s := IntToString(i);
      forall k | 0 < k < |s|
        ensures IsDigit(s[k])
      {
        assert s[k] == NatToString(-i)[k - 1];
      }
    } else {
      NatToStringDigits(i);
    }
  }

  /** `n` rendered with at least `w` digits, padded on the left with zeros. */
  function ZeroPad(n: nat, w: nat): (s: string)
    ensures |s| == if |NatToString(n)| < w then w else |NatToString(n)|
    ensures AllDigits(s)
    ensures ParseNat(s) == n
  {
    var d := NatToString(n);
    ParseNatToString(n);
    if |d| < w then
      LeadingZeros(w - |d|, d);
      seq(w - |d|, _ => '0') + d
    else
      d
  }

  lemma {:induction false} LeadingZeros(k: nat, d: string)
    requires AllDigits(d)
    ensures AllDigits(seq(k, _ => '0') + d)
    ensures ParseNat(seq(k, _ => '0') + d) == ParseNat(d)
    decreases |d|
  {
    var z := seq(k, _ => '0');
    if |d| == 0 {
      assert z + d == z;
      AllZeros(k);
    } else {
      var d' := d[..|d| - 1];
      LeadingZeros(k, d');
      assert (z + d)[..|z + d| - 1] == z + d';
    }
  }

  lemma {:induction false} AllZeros(k: nat)
    ensures AllDigits(seq(k, _ => '0'))
    ensures ParseNat(seq(k, _ => '0')) == 0
    decreases k
  {
    if k > 0 {
      AllZeros(k - 1);
      assert seq(k, _ => '0')[..k - 1] == seq(k - 1, _ => '0');
    }
  }

  // ---------------------------------------------------------------------------
  // The sanitiser: remove every match of `[^a-zA-Z0-9]`
  // ---------------------------------------------------------------------------

  predicate IsAlnum(c: char) {
    'a' <= c <= 'z' || 'A' <= c <= 'Z' || '0' <= c <= '9'
  }

  predicate AllAlnum(s: string) {
    forall i :: 0 <= i < |s| ==> IsAlnum(s[i])
  }

  /** `s` with every character other than an ASCII letter or digit removed. */
  function KeepAlnum(s: string): (r: string)
    ensures |r| <= |s|
    ensures AllAlnum(r)
    decreases |s|
  {
    if |s| == 0 then ""
    else if IsAlnum(s[0]) then [s[0]] + KeepAlnum(s[1..])
    else KeepAlnum(s[1..])
  }

  /** A name that is already alphanumeric passes through unchanged. */
  lemma {:induction false} KeepAlnumOfAlnum(s: string)
    requires AllAlnum(s)
    ensures KeepAlnum(s) == s
    decreases |s|
  {
    if |s| > 0 {
      KeepAlnumOfAlnum(s[1..]);
    }
  }

  /** Sanitising twice is sanitising once. */
  lemma KeepAlnumIdempotent(s: string)
    ensures KeepAlnum(KeepAlnum(s)) == KeepAlnum(s)
  {
    KeepAlnumOfAlnum(KeepAlnum(s));
  }

  /** Sanitising works character by character: it distributes over concatenation. */
  lemma {:induction false} KeepAlnumAppend(a: string, b: string)
    ensures KeepAlnum(a + b) == KeepAlnum(a) + KeepAlnum(b)
    decreases |a|
  {
    if |a| > 0 {
      KeepAlnumAppend(a[1..], b);
      assert (a + b)[1..] == a[1..] + b;
    } else {
      assert a + b == b;
    }
  }

  /** A single character is kept when it is an ASCII letter or digit and removed otherwise. */
  lemma KeepAlnumOfChar(c: char)
    ensures IsAlnum(c) ==> KeepAlnum([c]) == [c]
    ensures !IsAlnum(c) ==> KeepAlnum([c]) == ""
  {
    assert [c][1..] == "";
  }

  /** Nothing is left exactly when the input has no letter or digit at all. */
  lemma {:induction false} KeepAlnumEmptyIff(s: string)
    ensures KeepAlnum(s) == "" <==> forall i :: 0 <= i < |s| ==> !IsAlnum(s[i])
    decreases |s|
  {
    if |s| > 0 {
      KeepAlnumEmptyIff(s[1..]);
      if forall i :: 0 <= i < |s[1..]| ==> !IsAlnum(s[1..][i]) {
        forall i | 0 < i < |s|
          ensures !IsAlnum(s[i])
        {
          assert s[i] == s[1..][i - 1];
        }
      }
    }
  }

  /**
   * Each letter or digit of the input survives in its place: what the
   * characters before it leave, then the character itself, then what the
   * characters after it leave.
   */
  lemma KeepAlnumKeepsEachAlnum(s: string, i: nat)
    requires i < |s| && IsAlnum(s[i])
    ensures KeepAlnum(s) == KeepAlnum(s[..i]) + [s[i]] + KeepAlnum(s[i + 1..])
    ensures s[i] in KeepAlnum(s)
  {
    SplitAt(s, i);
    KeepAlnumAround(s[..i], s[i], s[i + 1..]);
    InMiddle(KeepAlnum(s[..i]), s[i], KeepAlnum(s[i + 1..]));
  }

  lemma SplitAt(s: string, i: nat)
    requires i < |s|
    ensures s == s[..i] + [s[i]] + s[i + 1..]
  {
  }

  lemma InMiddle(a: string, c: char, b: string)
    ensures c in a + [c] + b
  {
    assert (a + [c] + b)[|a|] == c;
  }

  lemma KeepAlnumAround(before: string, c: char, after: string)
    requires IsAlnum(c)
    ensures KeepAlnum(before + [c] + after) == KeepAlnum(before) + [c] + KeepAlnum(after)
  {
    assert before + [c] + after == before + ([c] + after);
    KeepAlnumAppend(before, [c] + after);
    KeepAlnumAppend([c], after);
    KeepAlnumOfChar(c);
  }

  /** A character other than a letter or digit is removed: the rest is sanitised as if it were not there. */
  lemma KeepAlnumDropsEachOther(s: string, i: nat)
    requires i < |s| && !IsAlnum(s[i])
    ensures KeepAlnum(s) == KeepAlnum(s[..i] + s[i + 1..])
  {
    assert s == s[..i] + ([s[i]] + s[i + 1..]);
    KeepAlnumAppend(s[..i], [s[i]] + s[i + 1..]);
    KeepAlnumAppend([s[i]], s[i + 1..]);
    KeepAlnumAppend(s[..i], s[i + 1..]);
    KeepAlnumOfChar(s[i]);
  }

  lemma AlnumHasNoUnderscore(s: string)
    requires AllAlnum(s)
    ensures '_' !in s
  {
  }

  // ---------------------------------------------------------------------------
  // Splitting at a separator
  // ---------------------------------------------------------------------------

  /** A separator that occurs in neither head fixes where the heads end. */
  lemma {:induction false} SplitAtSeparator(a: string, b: string, c: string, d: string, sep: char)
    requires sep !in a && sep !in c
    requires a + [sep] + b == c + [sep] + d
    ensures a == c && b == d
    decreases |a|
  {
    if |a| == 0 || |c| == 0 {
      assert (a + [sep] + b)[0] == sep <==> |a| == 0;
      assert (c + [sep] + d)[0] == sep <==> |c| == 0;
      assert |a| == 0 && |c| == 0;
      assert b == (a + [sep] + b)[1..];
      assert d == (c + [sep] + d)[1..];
    } else {
      assert a[0] == c[0] by {
        assert (a + [sep] + b)[0] == a[0];
        assert (c + [sep] + d)[0] == c[0];
      }
      assert (a + [sep] + b)[1..] == a[1..] + [sep] + b;
      assert (c + [sep] + d)[1..] == c[1..] + [sep] + d;
      SplitAtSeparator(a[1..], b, c[1..], d, sep);
      assert a == [a[0]] + a[1..];
      assert c == [c[0]] + c[1..];
    }
  }

  /** A separator that occurs in neither tail fixes where the tails begin. */
  lemma SplitAtLastSeparator(a: string, b: string, c: string, d: string, sep: char)
    requires sep !in b && sep !in d
    requires a + [sep] + b == c + [sep] + d
    ensures a == c && b == d
  {
    var s := a + [sep] + b;
    assert s == c + [sep] + d;
    assert s[|a|] == sep && s[|c|] == sep;
    forall j | |a| < j < |s|
      ensures s[j] != sep
    {
      assert s[j] == b[j - |a| - 1];
    }
    forall j | |c| < j < |s|
      ensures s[j] != sep
    {
      assert s[j] == d[j - |c| - 1];
    }
    assert |a| == |c|;
    assert b == s[|a| + 1..] && d == s[|c| + 1..];
    assert a == s[..|a|] && c == s[..|c|];
  }

  /**
   * Text of the form `{head}_{a}_{b}_{c}_{d}` whose last four fields contain
   * no '_' determines the head and the four fields.
   */
  lemma SplitLastFour(h1: string, a1: string, b1: string, c1: string, d1: string,
                      h2: string, a2: string, b2: string, c2: string, d2: string)
    requires '_' !in a1 && '_' !in b1 && '_' !in c1 && '_' !in d1
    requires '_' !in a2 && '_' !in b2 && '_' !in c2 && '_' !in d2
    requires h1 + "_" + (a1 + "_" + (b1 + "_" + (c1 + "_" + d1)))
          == h2 + "_" + (a2 + "_" + (b2 + "_" + (c2 + "_" + d2)))
    ensures h1 == h2 && a1 == a2 && b1 == b2 && c1 == c2 && d1 == d2
  {
    var u := ['_'];
    assert "_" == u;
    var p1, p2 := h1 + u + a1, h2 + u + a2;
    var q1, q2 := p1 + u + b1, p2 + u + b2;
    var r1, r2 := q1 + u + c1, q2 + u + c2;
    assert h1 + u + (a1 + u + (b1 + u + (c1 + u + d1))) == r1 + u + d1;
    assert h2 + u + (a2 + u + (b2 + u + (c2 + u + d2))) == r2 + u + d2;
    SplitAtLastSeparator(r1, d1, r2, d2, '_');
    SplitAtLastSeparator(q1, c1, q2, c2, '_');
    SplitAtLastSeparator(p1, b1, p2, b2, '_');
    SplitAtLastSeparator(h1, a1, h2, a2, '_');
  }
}
