/** String operations the handlers rely on: splitting on a separator character,
    joining with a separator, ASCII lower-casing and decimal rendering of naturals. */
module Strings {
  import opened Seqs

  /** Number of occurrences of `c` in `s`. */
  function Count(s: string, c: char): nat
  {
    if |s| == 0 then 0 else (if s[0] == c then 1 else 0) + Count(s[1..], c)
  }

  lemma {:induction false} CountZero(s: string, c: char)
    ensures Count(s, c) == 0 <==> c !in s
  {
    if |s| > 0 {
      CountZero(s[1..], c);
      assert s == [s[0]] + s[1..];
    }
  }

  /** `s.split(sep)` for a one-character separator: the maximal separator-free
      pieces of `s`, in order; an empty string gives one empty piece. */
  function Split(s: string, sep: char): (parts: seq<string>)
    ensures |parts| >= 1
    decreases |s|
  {
    if |s| == 0 then [""]
    else
      var rest := Split(s[1..], sep);
      if s[0] == sep then [""] + rest
      else [[s[0]] + rest[0]] + rest[1..]
  }

  /** A split has one more piece than there are separators. */
  lemma {:induction false} SplitCount(s: string, sep: char)
    ensures |Split(s, sep)| == Count(s, sep) + 1
  {
    if |s| > 0 {
      SplitCount(s[1..], sep);
    }
  }

  /** No piece of a split holds the separator, and a string without the
      separator is its own single piece. */
  lemma {:induction false} SplitPieces(s: string, sep: char)
    ensures forall i :: 0 <= i < |Split(s, sep)| ==> sep !in Split(s, sep)[i]
    ensures sep !in s ==> Split(s, sep) == [s]
  {
    if |s| > 0 {
      SplitPieces(s[1..], sep);
      assert s == [s[0]] + s[1..];
    }
  }

  /** `sep.join(parts)`. */
  function Join(parts: seq<string>, sep: string): (s: string)
  {
    if |parts| == 0 then ""
    else if |parts| == 1 then parts[0]
    else parts[0] + sep + Join(parts[1..], sep)
  }

  /** Splitting `a + t` where `a` holds no separator extends the first piece of `t`. */
  lemma {:induction false} SplitPrefix(a: string, t: string, sep: char)
    requires sep !in a
    ensures Split(a + t, sep) == [a + Split(t, sep)[0]] + Split(t, sep)[1..]
    decreases |a|
  {
    if |a| > 0 {
      var inner := Split(a[1..] + t, sep);
      SplitPrefix(a[1..], t, sep);
      assert a[0] in a;
      assert (a + t)[0] == a[0] != sep;
      assert (a + t)[1..] == a[1..] + t;
      assert Split(a + t, sep) == [[a[0]] + inner[0]] + inner[1..];
      assert inner[0] == a[1..] + Split(t, sep)[0];
      assert inner[1..] == Split(t, sep)[1..];
      assert [a[0]] + (a[1..] + Split(t, sep)[0]) == a + Split(t, sep)[0];
    } else {
      assert a + t == t;
      assert a + Split(t, sep)[0] == Split(t, sep)[0];
    }
  }

  /** Splitting a join of separator-free pieces gives back the pieces. */
  lemma {:induction false} SplitJoin(parts: seq<string>, sep: char)
    requires |parts| >= 1
    requires forall i :: 0 <= i < |parts| ==> sep !in parts[i]
    ensures Split(Join(parts, [sep]), sep) == parts
  {
    if |parts| == 1 {
      SplitPieces(parts[0], sep);
    } else {
      var tail := Join(parts[1..], [sep]);
      SplitJoin(parts[1..], sep);
      assert sep !in parts[0];
      SplitPrefix(parts[0], [sep] + tail, sep);
      assert ([sep] + tail)[1..] == tail;
      assert Split([sep] + tail, sep) == [""] + Split(tail, sep);
      assert Join(parts, [sep]) == parts[0] + ([sep] + tail);
      assert Split(Join(parts, [sep]), sep) == [parts[0] + ""] + Split(tail, sep);
      assert parts[0] + "" == parts[0];
      assert parts == [parts[0]] + parts[1..];
    }
  }

  /** The last piece of a split is the text after the last separator: a suffix
      of `s` free of `sep`, and either all of `s` or preceded by `sep`. */
  lemma {:induction false} LastPieceIsSuffix(s: string, sep: char)
    ensures sep !in s ==> Last(Split(s, sep)) == s
    ensures var p := Last(Split(s, sep));
      && |p| <= |s|
      && p == s[|s| - |p|..]
      && sep !in p
      && (|p| < |s| ==> s[|s| - |p| - 1] == sep)
  {
    if |s| > 0 {
      var t := s[1..];
      var rest := Split(t, sep);
      LastPieceIsSuffix(t, sep);
      SplitCount(t, sep);
      CountZero(t, sep);
      var p' := Last(rest);
      assert t[|t| - |p'|..] == s[|s| - |p'|..];
      if s[0] == sep {
        assert Split(s, sep) == [""] + rest;
        assert Last(Split(s, sep)) == p';
      } else if |rest| == 1 {
        assert sep !in t;
        assert Split(s, sep) == [[s[0]] + t];
        assert s == [s[0]] + t;
      } else {
        assert Split(s, sep) == [[s[0]] + rest[0]] + rest[1..];
        assert Last(Split(s, sep)) == p';
        assert sep in t;
        assert p' != t;
        assert |p'| < |t|;
        assert t[|t| - |p'| - 1] == s[|s| - |p'| - 1];
      }
    }
  }

  /** `t` occurs in `s` starting at index `i`. */
  predicate OccursAt(s: string, t: string, i: int)
  {
    0 <= i <= |s| - |t| && s[i..i + |t|] == t
  }

  /** `t` occurs somewhere in `s` (Python's `t in s`). */
  ghost predicate Contains(s: string, t: string)
  {
    exists i :: OccursAt(s, t, i)
  }

  lemma ContainsSelf(t: string)
    ensures Contains(t, t)
  {
    assert OccursAt(t, t, 0);
  }

  /** Text found in `s` is still found after something is appended or prepended. */
  lemma ContainsExtend(s: string, t: string, u: string)
    requires Contains(s, t)
    ensures Contains(s + u, t) && Contains(u + s, t)
  {
    var i :| OccursAt(s, t, i);
    assert (s + u)[i..i + |t|] == s[i..i + |t|];
    assert OccursAt(s + u, t, i);
    assert (u + s)[|u| + i..|u| + i + |t|] == s[i..i + |t|];
    assert OccursAt(u + s, t, |u| + i);
  }

  /** ASCII lower-casing of one character. */
  function LowerChar(c: char): char
  {
    if 'A' <= c <= 'Z' then (c as int - 'A' as int + 'a' as int) as char else c
  }

  /** `s.lower()` restricted to ASCII letters. */
  function Lower(s: string): (r: string)
    ensures |r| == |s|
  {
    if |s| == 0 then "" else [LowerChar(s[0])] + Lower(s[1..])
  }

  /** Lower-casing maps every character on its own. */
  lemma {:induction false} LowerAt(s: string)
    ensures forall i :: 0 <= i < |s| ==> Lower(s)[i] == LowerChar(s[i])
  {
    if |s| > 0 {
      LowerAt(s[1..]);
    }
  }

  lemma LowerIdempotent(s: string)
    ensures Lower(Lower(s)) == Lower(s)
  {
    LowerAt(s);
    LowerAt(Lower(s));
  }

  predicate IsLetter(c: char)
  {
    'A' <= c <= 'Z' || 'a' <= c <= 'z'
  }

  /** Lower-cases every string of a sequence. */
  function LowerEach(ps: seq<string>): (r: seq<string>)
    ensures |r| == |ps|
  {
    if |ps| == 0 then [] else [Lower(ps[0])] + LowerEach(ps[1..])
  }

  lemma {:induction false} LastLowerEach(ps: seq<string>)
    requires |ps| > 0
    ensures Last(LowerEach(ps)) == Lower(Last(ps))
  {
    if |ps| > 1 {
      LastLowerEach(ps[1..]);
    }
  }

  /** Lower-casing commutes with splitting on a non-letter: the pieces of the
      lower-cased string are the lower-cased pieces. */
  lemma {:induction false} SplitLower(s: string, sep: char)
    requires !IsLetter(sep)
    ensures Split(Lower(s), sep) == LowerEach(Split(s, sep))
  {
    if |s| > 0 {
      var low := Lower(s);
      var rest, lowRest := Split(s[1..], sep), Split(low[1..], sep);
      LowerAt(s);
      assert low[1..] == Lower(s[1..]);
      SplitLower(s[1..], sep);
      assert low[0] == sep <==> s[0] == sep;
      if s[0] == sep {
        assert Split(s, sep) == [""] + rest;
        assert ([""] + rest)[1..] == rest;
      } else {
        var first := [s[0]] + rest[0];
        assert Split(s, sep) == [first] + rest[1..];
        assert ([first] + rest[1..])[1..] == rest[1..];
        assert LowerEach(rest) == [Lower(rest[0])] + LowerEach(rest[1..]);
        assert Lower(first) == [low[0]] + Lower(rest[0]);
      }
    }
  }

  predicate IsDigit(c: char)
  {
    '0' <= c <= '9'
  }

  predicate AllDigits(s: string)
  {
    forall i :: 0 <= i < |s| ==> IsDigit(s[i])
  }

  function DigitChar(d: nat): (c: char)
    requires d < 10
    ensures IsDigit(c)
  {
    ('0' as int + d) as char
  }

  function DigitValue(c: char): (d: nat)
    requires IsDigit(c)
    ensures d < 10
  {
    c as int - '0' as int
  }

  /** The number a string of decimal digits denotes. */
  function DigitsValue(s: string): nat
    requires AllDigits(s)
  {
    if |s| == 0 then 0 else 10 * DigitsValue(s[..|s| - 1]) + DigitValue(s[|s| - 1])
  }

  /** `str(n)` for a natural number: decimal digits without leading zeros. */
  function NatToString(n: nat): (s: string)
    ensures |s| >= 1 && AllDigits(s)
    ensures s[0] == '0' ==> n == 0
  {
    if n < 10 then [DigitChar(n)] else NatToString(n / 10) + [DigitChar(n % 10)]
  }

  /** Reading back a rendered number gives the number. */
  lemma {:induction false} NatToStringRoundTrip(n: nat)
    ensures DigitsValue(NatToString(n)) == n
  {
    if n >= 10 {
      var s := NatToString(n);
      NatToStringRoundTrip(n / 10);
      assert s[..|s| - 1] == NatToString(n / 10);
    }
  }

  function Pow10(k: nat): (p: nat)
    ensures p >= 1
  {
    if k == 0 then 1 else 10 * Pow10(k - 1)
  }

  /** `n` as exactly `width` decimal digits, zero-padded on the left, as the
      `%02d`-style directives render it. */
  function PadDigits(n: nat, width: nat): (s: string)
    requires n < Pow10(width)
    ensures |s| == width && AllDigits(s)
  {
    if width == 0 then "" else PadDigits(n / 10, width - 1) + [DigitChar(n % 10)]
  }

  /** Reading back a padded rendering gives the number. */
  lemma {:induction false} PadDigitsValue(n: nat, width: nat)
    requires n < Pow10(width)
    ensures DigitsValue(PadDigits(n, width)) == n
  {
    if width > 0 {
      var s := PadDigits(n, width);
      PadDigitsValue(n / 10, width - 1);
      assert s[..width - 1] == PadDigits(n / 10, width - 1);
    }
  }

  /** Rendering the value of a digit string at its own width gives the string back. */
  lemma {:induction false} PadDigitsRoundTrip(s: string)
    requires AllDigits(s)
    ensures DigitsValue(s) < Pow10(|s|) && PadDigits(DigitsValue(s), |s|) == s
  {
    if |s| > 0 {
      var init := s[..|s| - 1];
      var last := s[|s| - 1];
      PadDigitsRoundTrip(init);
      var n := DigitsValue(s);
      assert n / 10 == DigitsValue(init) && n % 10 == DigitValue(last);
      assert DigitChar(DigitValue(last)) == last;
      assert s == init + [last];
    }
  }
}
