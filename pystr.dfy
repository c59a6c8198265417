/**
 * The few Python `str` operations the validators rely on, stated over
 * `seq<char>`: whitespace, `strip()`, `split()` (as a word count),
 * `lower()`, the `in` operator, `replace()`, `isdigit()`, `int()` and `str()`
 * of an integer.
 */
module PyStr {
  import opened Wrappers

  /** `c.isspace()`: every character Python treats as whitespace. */
  predicate IsSpace(c: char)
  {
    c == ' ' || '\t' <= c <= '\r' || '\U{1c}' <= c <= '\U{1f}' || c == '\U{85}' || c == '\U{a0}'
    || c == '\U{1680}' || '\U{2000}' <= c <= '\U{200a}' || c == '\U{2028}' || c == '\U{2029}'
    || c == '\U{202f}' || c == '\U{205f}' || c == '\U{3000}'
  }

  /** `s.lstrip()` */
  function LStrip(s: string): (r: string)
    ensures |r| <= |s| && r == s[|s| - |r|..]
    ensures forall i | 0 <= i < |s| - |r| :: IsSpace(s[i])
    ensures r == [] || !IsSpace(r[0])
  {
    if s != [] && IsSpace(s[0]) then LStrip(s[1..]) else s
  }

  /** `s.rstrip()` */
  function RStrip(s: string): (r: string)
    ensures |r| <= |s| && r == s[..|r|]
    ensures forall i | |r| <= i < |s| :: IsSpace(s[i])
    ensures r == [] || !IsSpace(r[|r| - 1])
  {
    if s != [] && IsSpace(s[|s| - 1]) then RStrip(s[..|s| - 1]) else s
  }

  /** `s` neither starts nor ends with whitespace. */
  predicate Trimmed(s: string)
  {
    s == [] || (!IsSpace(s[0]) && !IsSpace(s[|s| - 1]))
  }

  /** Two pieces without outer whitespace make a string without outer whitespace. */
  lemma TrimmedConcat(a: string, b: string)
    requires Trimmed(a) && Trimmed(b)
    ensures Trimmed(a + b)
  {
    if a != [] && b != [] {
      assert (a + b)[0] == a[0] && (a + b)[|a + b| - 1] == b[|b| - 1];
    } else if a == [] {
      assert a + b == b;
    } else {
      assert a + b == a;
    }
  }

  /** `s.strip()`: empty exactly when `s` is all whitespace, and never starts or ends with it. */
  function Strip(s: string): (r: string)
    ensures r == [] <==> forall i | 0 <= i < |s| :: IsSpace(s[i])
    ensures r != [] ==> !IsSpace(r[0]) && !IsSpace(r[|r| - 1])
    ensures Trimmed(r)
    ensures Trimmed(s) ==> r == s
  {
    var l := LStrip(s);
    var r := RStrip(l);
    assert r == [] ==> l == [];
    assert l != [] ==> l[0] == s[|s| - |l|];
    assert r != [] ==> r[0] == l[0];
    assert s != [] && !IsSpace(s[0]) ==> l == s;
    r
  }

  /**
   * The number of words `s.split()` returns when `atBoundary` says the text
   * before `s` ended in whitespace (or there was none).
   */
  function WordsAfter(s: string, atBoundary: bool): (n: nat)
    ensures n <= |s|
    ensures atBoundary ==> (n == 0 <==> forall i | 0 <= i < |s| :: IsSpace(s[i]))
  {
    if s == [] then 0
    else if IsSpace(s[0]) then WordsAfter(s[1..], true)
    else (if atBoundary then 1 else 0) + WordsAfter(s[1..], false)
  }

  /** `len(s.split())`: zero exactly when `s` holds nothing but whitespace. */
  function WordCount(s: string): (n: nat)
    ensures n <= |s|
    ensures n == 0 <==> forall i | 0 <= i < |s| :: IsSpace(s[i])
  {
    WordsAfter(s, true)
  }

  /**
   * `c.lower()` as far as matching ASCII text goes: ASCII capitals and the
   * KELVIN SIGN, the one other character whose lower case is a single ASCII
   * letter. Every other character is kept; its lower case is never ASCII,
   * except for U+0130, whose two-character lower case "i̇" cannot
   * complete any of the lower-case ASCII phrases the validators look for.
   */
  function LowerChar(c: char): char
  {
    if 'A' <= c <= 'Z' then (c as int + 32) as char
    else if c == '\U{212A}' then 'k'
    else c
  }

  /** `s.lower()`, character by character; the result has no ASCII capital. */
  function Lower(s: string): (r: string)
    ensures |r| == |s|
    ensures forall i | 0 <= i < |s| :: r[i] == LowerChar(s[i])
    ensures forall i | 0 <= i < |r| :: !('A' <= r[i] <= 'Z')
  {
    seq(|s|, i requires 0 <= i < |s| => LowerChar(s[i]))
  }

  /** `t` occurs in `s` starting at index `i`. */
  predicate MatchAt(s: string, t: string, i: nat)
  {
    i + |t| <= |s| && s[i..i + |t|] == t
  }

  /** `t in s`: `t` occurs at the front of `s` or somewhere in its tail. */
  predicate Contains(s: string, t: string)
    decreases |s|
  {
    MatchAt(s, t, 0) || (s != [] && Contains(s[1..], t))
  }

  /** `t in s` holds exactly when `t` occurs at some position of `s`. */
  lemma {:induction false} ContainsIff(s: string, t: string)
    ensures Contains(s, t) <==> exists i: nat | i <= |s| :: MatchAt(s, t, i)
    decreases |s|
  {
    if s != [] {
      ContainsIff(s[1..], t);
      forall i: nat | i < |s| ensures MatchAt(s[1..], t, i) <==> MatchAt(s, t, i + 1) {
        if i + 1 + |t| <= |s| {
          assert s[1..][i..i + |t|] == s[i + 1..i + 1 + |t|];
        }
      }
      if exists i: nat | i <= |s| :: MatchAt(s, t, i) {
        var i: nat :| i <= |s| && MatchAt(s, t, i);
        if i > 0 {
          assert MatchAt(s[1..], t, i - 1);
        }
      }
    }
  }

  /** `t in s.lower()` holds when `t` is the lower case of the slice of `s` at `k`. */
  lemma ContainsLowerAt(s: string, t: string, k: nat)
    requires k + |t| <= |s| && forall i | 0 <= i < |t| :: LowerChar(s[k + i]) == t[i]
    ensures Contains(Lower(s), t)
  {
    assert MatchAt(Lower(s), t, k);
    ContainsIff(Lower(s), t);
  }

  /** `t in s` fails when some character of `t` occurs nowhere in `s`. */
  lemma NotContainsChar(s: string, t: string, j: nat)
    requires j < |t| && t[j] !in s
    ensures !Contains(s, t)
  {
    ContainsIff(s, t);
  }

  /** A character that no character of `s` lowers to does not occur in `s.lower()`. */
  lemma NotInLower(s: string, c: char)
    requires forall i | 0 <= i < |s| :: LowerChar(s[i]) != c
    ensures c !in Lower(s)
  {
  }

  // ---------------------------------------------------------------------
  // Reading `phrase in message.lower()` off a message written in pieces

  /** From index `from` on, `x` holds neither `c` nor `C`. */
  predicate Avoids(x: string, from: nat, c: char, C: char)
  {
    forall k | from <= k < |x| :: x[k] != c && x[k] != C
  }

  /** `C` is the capital of the lower-case ASCII letter `c`; no other character lowers to `c`. */
  predicate CapitalOf(c: char, C: char)
  {
    'a' <= c <= 'z' && c != 'k' && C as int == c as int - 32
  }

  /** Lower-casing works piece by piece. */
  lemma LowerAppend(a: string, b: string)
    ensures Lower(a + b) == Lower(a) + Lower(b)
  {
  }

  /** An occurrence of `t` cannot start inside a prefix that lacks `t`'s first character. */
  lemma {:induction false} ContainsSkip(x: string, y: string, t: string)
    requires t != [] && t[0] !in x
    ensures Contains(x + y, t) <==> Contains(y, t)
    decreases |x|
  {
    if x == [] {
      assert x + y == y;
    } else {
      assert (x + y)[1..] == x[1..] + y;
      ContainsSkip(x[1..], y, t);
    }
  }

  /** A piece of the message in which no character lowers to the phrase's first letter can be passed over. */
  lemma LowerSkip(x: string, y: string, t: string, C: char)
    requires t != [] && CapitalOf(t[0], C) && Avoids(x, 0, t[0], C)
    ensures Contains(Lower(x + y), t) <==> Contains(Lower(y), t)
  {
    LowerAppend(x, y);
    assert t[0] !in Lower(x);
    ContainsSkip(Lower(x), Lower(y), t);
  }

  /**
   * A piece that starts like the phrase but departs from it at index `j`,
   * and holds the phrase's first letter nowhere else, can be passed over.
   */
  lemma LowerFalseStart(x: string, y: string, t: string, j: nat, C: char)
    requires 0 < j < |x| && j < |t| && LowerChar(x[j]) != t[j]
    requires CapitalOf(t[0], C) && Avoids(x, 1, t[0], C)
    ensures Contains(Lower(x + y), t) <==> Contains(Lower(y), t)
  {
    assert (x + y)[1..] == x[1..] + y;
    LowerSkip(x[1..], y, t, C);
    assert Lower(x + y)[1..] == Lower(x[1..] + y);
    assert Lower(x + y)[j] != t[j];
  }

  /** Pieces that avoid two characters join into a message that avoids them. */
  lemma AvoidsJoin(x: string, y: string, from: nat, c: char, C: char)
    requires from <= |x| && Avoids(x, from, c, C) && Avoids(y, 0, c, C)
    ensures Avoids(x + y, from, c, C)
  {
    forall k | from <= k < |x + y| ensures (x + y)[k] != c && (x + y)[k] != C {
      if k >= |x| {
        assert (x + y)[k] == y[k - |x|];
      }
    }
  }

  /**
   * A message in which nothing from index `j` on lowers to the phrase's
   * `j`-th letter does not contain the phrase: an occurrence at `i` would put
   * that letter at `i + j`.
   */
  lemma LowerMissing(y: string, t: string, j: nat, C: char)
    requires j < |t| && CapitalOf(t[j], C) && Avoids(y, j, t[j], C)
    ensures !Contains(Lower(y), t)
  {
    ContainsIff(Lower(y), t);
    forall i: nat | i <= |y| ensures !MatchAt(Lower(y), t, i) {
      if i + |t| <= |y| {
        assert Lower(y)[i..i + |t|][j] == Lower(y)[i + j] != t[j];
      }
    }
  }

  /** A message that contains the phrase still does once a piece is put in front of it. */
  lemma LowerGrow(x: string, y: string, t: string)
    requires Contains(Lower(y), t)
    ensures Contains(Lower(x + y), t)
  {
    LowerAppend(x, y);
    ContainsIff(Lower(y), t);
    var i: nat :| i <= |y| && MatchAt(Lower(y), t, i);
    assert (Lower(x) + Lower(y))[|x| + i..|x| + i + |t|] == Lower(y)[i..i + |t|];
    assert MatchAt(Lower(x + y), t, |x| + i);
    ContainsIff(Lower(x + y), t);
  }

  /** A message with a lower-case phrase written into it contains that phrase once lower-cased. */
  lemma LowerFound(x: string, t: string, y: string)
    requires forall i | 0 <= i < |t| :: LowerChar(t[i]) == t[i]
    ensures Contains(Lower(x + (t + y)), t)
  {
    LowerFoundAt(x, t, t, y);
  }

  /** A piece that lowers to the phrase, written into a message, puts the phrase in the lowered message. */
  lemma LowerFoundAt(x: string, s: string, t: string, y: string)
    requires |s| == |t| && forall i | 0 <= i < |t| :: LowerChar(s[i]) == t[i]
    ensures Contains(Lower(x + (s + y)), t)
  {
    forall i | 0 <= i < |t| ensures LowerChar((x + (s + y))[|x| + i]) == t[i] {
      assert (x + (s + y))[|x| + i] == s[i];
    }
    ContainsLowerAt(x + (s + y), t, |x|);
  }

  /**
   * `s.replace(pat, sub)`: every non-overlapping occurrence of `pat`, scanning
   * from the left, is replaced by `sub`. A one-character for one-character
   * replacement keeps the length and rewrites position by position.
   */
  function Replace(s: string, pat: string, sub: string): (r: string)
    requires pat != []
    ensures forall c | c in r :: c in s || c in sub
    ensures |pat| == 1 && |sub| == 1 ==>
              |r| == |s| && forall i | 0 <= i < |s| :: r[i] == (if s[i] == pat[0] then sub[0] else s[i])
    decreases |s|
  {
    if |s| < |pat| then s
    else if s[..|pat|] == pat then
      var rest := Replace(s[|pat|..], pat, sub);
      assert forall c | c in rest :: c in s || c in sub by {
        forall c | c in rest && c !in sub ensures c in s {
          var k :| 0 <= k < |s[|pat|..]| && s[|pat|..][k] == c;
          assert s[|pat| + k] == c;
        }
      }
      sub + rest
    else
      var rest := Replace(s[1..], pat, sub);
      assert forall c | c in rest :: c in s || c in sub by {
        forall c | c in rest && c !in sub ensures c in s {
          var k :| 0 <= k < |s[1..]| && s[1..][k] == c;
          assert s[1 + k] == c;
        }
      }
      [s[0]] + rest
  }

  /** Replacing a pattern by something no longer never lengthens the string. */
  lemma {:induction false} ReplaceShrinks(s: string, pat: string, sub: string)
    requires pat != [] && |sub| <= |pat|
    ensures |Replace(s, pat, sub)| <= |s|
    decreases |s|
  {
    if |s| >= |pat| {
      if s[..|pat|] == pat {
        ReplaceShrinks(s[|pat|..], pat, sub);
      } else {
        ReplaceShrinks(s[1..], pat, sub);
      }
    }
  }

  /** A first character that does not start the pattern is copied unchanged. */
  lemma ReplaceHead(c: char, y: string, pat: string, sub: string)
    requires pat != [] && c != pat[0]
    ensures Replace([c] + y, pat, sub) == [c] + Replace(y, pat, sub)
  {
    var s := [c] + y;
    assert s[1..] == y;
    if |s| >= |pat| {
      assert s[..|pat|][0] == c;
    }
  }

  /** Where the pattern does not start, the first character is copied and the scan moves on. */
  lemma ReplaceMiss(s: string, pat: string, sub: string)
    requires pat != [] && s != [] && !(|pat| <= |s| && s[..|pat|] == pat)
    ensures Replace(s, pat, sub) == [s[0]] + Replace(s[1..], pat, sub)
  {
  }

  /**
   * A head the pattern does not start, and whose later characters hold no
   * first character of the pattern, is copied unchanged.
   */
  lemma ReplaceCopiesHead(h: string, rest: string, pat: string, sub: string)
    requires pat != [] && h != [] && pat[0] !in h[1..]
    requires !(|pat| <= |h + rest| && (h + rest)[..|pat|] == pat)
    ensures Replace(h + rest, pat, sub) == h + Replace(rest, pat, sub)
  {
    var s, t := h + rest, h[1..];
    assert s[0] == h[0] && s[1..] == t + rest;
    ReplaceMiss(s, pat, sub);
    ReplaceSkips(t, rest, pat, sub);
    var r := Replace(rest, pat, sub);
    assert h == [h[0]] + t;
    assert [h[0]] + (t + r) == ([h[0]] + t) + r;
  }

  /** A prefix holding no first character of the pattern is copied unchanged. */
  lemma {:induction false} ReplaceSkips(x: string, y: string, pat: string, sub: string)
    requires pat != [] && pat[0] !in x
    ensures Replace(x + y, pat, sub) == x + Replace(y, pat, sub)
    decreases |x|
  {
    if x == [] {
      assert x + y == y;
    } else {
      var tail := x[1..];
      assert x == [x[0]] + tail && x[0] in x;
      assert pat[0] !in tail by {
        forall k | 0 <= k < |tail| ensures tail[k] != pat[0] {
          assert tail[k] == x[k + 1];
        }
      }
      ReplaceSkips(tail, y, pat, sub);
      assert x + y == [x[0]] + (tail + y);
      ReplaceHead(x[0], tail + y, pat, sub);
    }
  }

  /** An occurrence of the pattern at the front is replaced, and the scan resumes after it. */
  lemma ReplaceFront(y: string, pat: string, sub: string)
    requires pat != []
    ensures Replace(pat + y, pat, sub) == sub + Replace(y, pat, sub)
  {
    var s := pat + y;
    assert s[..|pat|] == pat;
    assert s[|pat|..] == y;
  }

  /** `sep.join(parts)`: the parts in order with `sep` between neighbours. */
  function Join(sep: string, parts: seq<string>): string
  {
    if parts == [] then ""
    else if |parts| == 1 then parts[0]
    else Join(sep, parts[..|parts| - 1]) + sep + parts[|parts| - 1]
  }

  /** The value of a character that `int()` accepts as a decimal digit (Unicode category Nd). */
  function DecimalValue(c: char): (v: Option<nat>)
    ensures v.Some? ==> v.value < 10
  {
    if '0' <= c <= '9' then Some(c as int - '0' as int)
    else if '\U{660}' <= c <= '\U{669}' then Some(c as int - 0x660)
    else if '\U{6F0}' <= c <= '\U{6F9}' then Some(c as int - 0x6F0)
    else if '\U{966}' <= c <= '\U{96F}' then Some(c as int - 0x966)
    else if '\U{FF10}' <= c <= '\U{FF19}' then Some(c as int - 0xFF10)
    else None
  }

  /** Characters `isdigit()` accepts but `int()` rejects (Unicode Numeric_Type Digit, not Decimal). */
  predicate IsDigitOnly(c: char)
  {
    c == '\U{B2}' || c == '\U{B3}' || c == '\U{B9}' || c == '\U{2070}' || '\U{2074}' <= c <= '\U{2079}'
    || '\U{2080}' <= c <= '\U{2089}' || '\U{2460}' <= c <= '\U{2468}'
  }

  /** `s.isdigit()` */
  predicate IsDigit(s: string)
  {
    |s| > 0 && forall i | 0 <= i < |s| :: DecimalValue(s[i]).Some? || IsDigitOnly(s[i])
  }

  /** The body of a base-10 integer for `int()`: decimal digits, single underscores between them. */
  predicate WellFormedDigits(s: string)
  {
    && |s| > 0
    && DecimalValue(s[0]).Some?
    && DecimalValue(s[|s| - 1]).Some?
    && forall i | 0 <= i < |s| :: DecimalValue(s[i]).Some? || (s[i] == '_' && i + 1 < |s| && s[i + 1] != '_')
  }

  /** The number the decimal digits of `s` spell, underscores skipped. */
  function DigitsValue(s: string): nat
  {
    if s == [] then 0
    else match DecimalValue(s[|s| - 1])
      case Some(d) => DigitsValue(s[..|s| - 1]) * 10 + d
      case None => DigitsValue(s[..|s| - 1])
  }

  /**
   * `int(s)`: `None` where Python raises `ValueError`. Surrounding whitespace
   * and one leading sign are allowed.
   */
  function ParseInt(s: string): Option<int>
  {
    var t := Strip(s);
    if t != [] && (t[0] == '-' || t[0] == '+') then
      var body := t[1..];
      var v: int := DigitsValue(body);
      if WellFormedDigits(body) then Some(if t[0] == '-' then -v else v) else None
    else if WellFormedDigits(t) then Some(DigitsValue(t))
    else None
  }

  /**
   * On a string `isdigit()` accepts, `int()` succeeds exactly when every
   * character is a decimal digit, and then reads their value.
   */
  lemma ParseIntOfDigits(s: string)
    requires IsDigit(s)
    ensures ParseInt(s).Some? <==> forall i | 0 <= i < |s| :: DecimalValue(s[i]).Some?
    ensures ParseInt(s).Some? ==> ParseInt(s).value == DigitsValue(s)
  {
    assert !IsSpace(s[0]) && !IsSpace(s[|s| - 1]);
    assert Trimmed(s);
    assert Strip(s) == s;
    assert s[0] != '-' && s[0] != '+';
    assert forall i | 0 <= i < |s| :: s[i] != '_';
    assert WellFormedDigits(s) <==> forall i | 0 <= i < |s| :: DecimalValue(s[i]).Some?;
  }

  function DigitChar(d: nat): (c: char)
    requires d < 10
    ensures DecimalValue(c) == Some(d) && '0' <= c <= '9'
  {
    ('0' as int + d) as char
  }

  /** `str(n)` of a natural number: ASCII digits spelling `n`. */
  function NatToString(n: nat): (r: string)
    ensures |r| > 0
    ensures forall i | 0 <= i < |r| :: '0' <= r[i] <= '9'
    ensures DigitsValue(r) == n
  {
    if n < 10 then [DigitChar(n)]
    else
      var r := NatToString(n / 10) + [DigitChar(n % 10)];
      assert r[..|r| - 1] == NatToString(n / 10);
      r
  }

  /** `str(i)`, as an f-string prints an `int`. */
  function IntToString(i: int): string
  {
    if i < 0 then "-" + NatToString(-i) else NatToString(i)
  }

  /** `str(i)` holds no letter. */
  lemma IntToStringAvoids(i: int, c: char, C: char)
    requires CapitalOf(c, C)
    ensures Avoids(IntToString(i), 0, c, C)
  {
    if i < 0 {
      var digits := NatToString(-i);
      forall k | 0 <= k < |"-" + digits| ensures ("-" + digits)[k] != c && ("-" + digits)[k] != C {
        if k > 0 {
          assert ("-" + digits)[k] == digits[k - 1];
        }
      }
    }
  }

  /** A run of ASCII digits is its own `strip()` and a well-formed `int()` body. */
  lemma AsciiDigitsParse(d: string)
    requires |d| > 0 && forall i | 0 <= i < |d| :: '0' <= d[i] <= '9'
    ensures WellFormedDigits(d) && Strip(d) == d
  {
    assert !IsSpace(d[0]) && !IsSpace(d[|d| - 1]);
    assert Trimmed(d);
  }

  /** `int(str(i)) == i`: the decimal rendering reads back as the same integer. */
  lemma IntToStringRoundTrip(i: int)
    ensures ParseInt(IntToString(i)) == Some(i)
  {
    if i < 0 {
      var digits := NatToString(-i);
      AsciiDigitsParse(digits);
      var r := "-" + digits;
      assert r[0] == '-' && r[1..] == digits;
      assert !IsSpace(r[|r| - 1]) by { assert r[|r| - 1] == digits[|digits| - 1]; }
      assert Trimmed(r);
    } else {
      AsciiDigitsParse(NatToString(i));
    }
  }
}
