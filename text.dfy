/** The optional value that stands for JavaScript's `null`/`undefined` results. */
module Optional {
  datatype Option<+T> = None | Some(value: T)
}

/**
 * The JavaScript string operations the plugin relies on, stated on
 * strings as sequences of Unicode scalar values: `indexOf`, `startsWith`,
 * `split`, `join`, `trim`, `replace` with a string pattern, and
 * `Number.prototype.toString` for non-negative integers.
 */
module Text {
  import opened Optional

  /** `pat` occurs in `s` at index `i`. */
  predicate IsAt(s: string, pat: string, i: nat)
  {
    i + |pat| <= |s| && s[i..i + |pat|] == pat
  }

  predicate StartsWith(s: string, prefix: string)
  {
    |prefix| <= |s| && s[..|prefix|] == prefix
  }

  predicate EndsWith(s: string, suffix: string)
  {
    |suffix| <= |s| && s[|s| - |suffix|..] == suffix
  }

  /** `pat` occurs somewhere in `s`. */
  predicate Contains(s: string, pat: string)
  {
    exists i: nat | i <= |s| :: IsAt(s, pat, i)
  }

  /** `String.prototype.indexOf(pat, from)`: the first occurrence at or after `from`. */
  function IndexOfFrom(s: string, pat: string, from: nat): (r: Option<nat>)
    ensures r.Some? ==> from <= r.value && IsAt(s, pat, r.value)
    ensures r.Some? ==> forall j: nat :: from <= j < r.value ==> !IsAt(s, pat, j)
    ensures r.None? ==> forall j: nat :: from <= j ==> !IsAt(s, pat, j)
    decreases |s| - from
  {
    if IsAt(s, pat, from) then Some(from)
    else if from >= |s| then None
    else IndexOfFrom(s, pat, from + 1)
  }

  function IndexOf(s: string, pat: string): (r: Option<nat>)
    ensures r.Some? ==> IsAt(s, pat, r.value) && forall j: nat :: j < r.value ==> !IsAt(s, pat, j)
    ensures r.None? <==> !Contains(s, pat)
  {
    IndexOfFrom(s, pat, 0)
  }

  /** The first occurrence is determined by where `pat` is and is not. */
  lemma IndexOfIs(s: string, pat: string, i: nat)
    requires IsAt(s, pat, i)
    requires forall j: nat :: j < i ==> !IsAt(s, pat, j)
    ensures IndexOf(s, pat) == Some(i)
  {
    assert Contains(s, pat);
  }

  lemma NotAtBeyond(s: string, pat: string, i: nat)
    requires |s| < i + |pat|
    ensures !IsAt(s, pat, i)
  {
  }

  /** `pat` does not occur in `a + b` within the first `n` positions when it does not occur there in `a + c`. */
  lemma IsAtPrefixIndependent(a: string, b: string, pat: string, j: nat)
    requires j + |pat| <= |a|
    ensures IsAt(a + b, pat, j) <==> IsAt(a, pat, j)
  {
    assert (a + b)[j..j + |pat|] == a[j..j + |pat|];
  }

  // ---------------------------------------------------------------------
  // White space, as JavaScript's `\s` and `String.prototype.trim` see it
  // ---------------------------------------------------------------------

  /** LineTerminator of ECMAScript: what `.` does not match and `^`/`$` see in multiline mode. */
  predicate IsLineTerminator(c: char)
  {
    c == '\n' || c == '\r' || c == '\U{2028}' || c == '\U{2029}'
  }

  /** WhiteSpace or LineTerminator of ECMAScript: the class `\s` and the characters `trim` removes. */
  predicate IsSpace(c: char)
  {
    || c == '\t' || c == '\U{000B}' || c == '\U{000C}' || c == ' '
    || c == '\U{00A0}' || c == '\U{1680}' || ('\U{2000}' <= c <= '\U{200A}')
    || c == '\U{202F}' || c == '\U{205F}' || c == '\U{3000}' || c == '\U{FEFF}'
    || IsLineTerminator(c)
  }

  predicate AllSpaces(s: string)
  {
    forall i :: 0 <= i < |s| ==> IsSpace(s[i])
  }

  /** Neither end of `s` is white space. */
  predicate IsTrimmed(s: string)
  {
    |s| == 0 || (!IsSpace(s[0]) && !IsSpace(s[|s| - 1]))
  }

  function TrimStart(s: string): (r: string)
    ensures |r| <= |s| && r == s[|s| - |r|..]
    ensures |r| == 0 || !IsSpace(r[0])
    ensures AllSpaces(s[..|s| - |r|])
  {
    if |s| > 0 && IsSpace(s[0]) then TrimStart(s[1..]) else s
  }

  function TrimEnd(s: string): (r: string)
    ensures |r| <= |s| && r == s[..|r|]
    ensures |r| == 0 || !IsSpace(r[|r| - 1])
    ensures AllSpaces(s[|r|..])
  {
    if |s| > 0 && IsSpace(s[|s| - 1]) then TrimEnd(s[..|s| - 1]) else s
  }

  /** `String.prototype.trim`. */
  function Trim(s: string): (r: string)
    ensures IsTrimmed(r) && |r| <= |s|
  {
    TrimEnd(TrimStart(s))
  }

  lemma {:induction false} TrimStartPadded(p: string, c: string)
    requires AllSpaces(p)
    requires |c| == 0 || !IsSpace(c[0])
    ensures TrimStart(p + c) == c
    decreases |p|
  {
    if |p| > 0 {
      assert (p + c)[1..] == p[1..] + c;
      TrimStartPadded(p[1..], c);
    } else {
      assert p + c == c;
    }
  }

  lemma {:induction false} TrimEndPadded(c: string, q: string)
    requires AllSpaces(q)
    requires |c| == 0 || !IsSpace(c[|c| - 1])
    ensures TrimEnd(c + q) == c
    decreases |q|
  {
    if |q| > 0 {
      assert (c + q)[..|c + q| - 1] == c + q[..|q| - 1];
      TrimEndPadded(c, q[..|q| - 1]);
    } else {
      assert c + q == c;
    }
  }

  /** `trim` gives back exactly the trimmed core of a string padded with white space on either side. */
  lemma TrimPadded(p: string, c: string, q: string)
    requires AllSpaces(p) && AllSpaces(q) && IsTrimmed(c)
    ensures Trim(p + c + q) == c
  {
    assert p + c + q == p + (c + q);
    if |c| == 0 {
      assert AllSpaces(p + q);
      TrimStartPadded(p + q, "");
      assert p + q + "" == p + q;
      TrimEndPadded("", "");
    } else {
      TrimStartPadded(p, c + q);
      TrimEndPadded(c, q);
    }
  }

  // ---------------------------------------------------------------------
  // split and join
  // ---------------------------------------------------------------------

  /** `Array.prototype.join(sep)` on strings. */
  function Join(xs: seq<string>, sep: string): string
  {
    if |xs| == 0 then ""
    else if |xs| == 1 then xs[0]
    else xs[0] + sep + Join(xs[1..], sep)
  }

  /** `String.prototype.split(sep)` with a one-character separator: the empty string splits to `[""]`. */
  function Split(s: string, sep: char): (r: seq<string>)
    ensures |r| >= 1
    ensures forall k :: 0 <= k < |r| ==> sep !in r[k]
  {
    if |s| == 0 then [""]
    else
      var rest := Split(s[1..], sep);
      if s[0] == sep then [""] + rest
      else [[s[0]] + rest[0]] + rest[1..]
  }

  /** Joining the pieces of a split with the separator gives back the string. */
  lemma {:induction false} JoinSplit(s: string, sep: char)
    ensures Join(Split(s, sep), [sep]) == s
  {
    if |s| > 0 {
      var rest := Split(s[1..], sep);
      JoinSplit(s[1..], sep);
      assert s == [s[0]] + s[1..];
      if s[0] == sep {
        JoinCons("", rest, [sep]);
      } else {
        JoinExtendHead(s[0], rest, [sep]);
      }
    }
  }

  lemma JoinCons(x: string, xs: seq<string>, sep: string)
    requires |xs| > 0
    ensures Join([x] + xs, sep) == x + sep + Join(xs, sep)
  {
    assert ([x] + xs)[1..] == xs;
  }

  /** A character put in front of the first piece comes out in front of the joined text. */
  lemma JoinExtendHead(c: char, xs: seq<string>, sep: string)
    requires |xs| > 0
    ensures Join([[c] + xs[0]] + xs[1..], sep) == [c] + Join(xs, sep)
  {
    var ys := [[c] + xs[0]] + xs[1..];
    if |xs| > 1 {
      assert ys[1..] == xs[1..];
    }
  }

  /** A piece free of the separator comes off the front of a split unchanged. */
  lemma {:induction false} SplitCons(a: string, sep: char, b: string)
    requires sep !in a
    ensures Split(a + [sep] + b, sep) == [a] + Split(b, sep)
    decreases |a|
  {
    if |a| == 0 {
      assert a + [sep] + b == [sep] + b;
      assert ([sep] + b)[1..] == b;
    } else {
      assert (a + [sep] + b)[1..] == a[1..] + [sep] + b;
      SplitCons(a[1..], sep, b);
      assert [a[0]] + a[1..] == a;
    }
  }

  /** A string free of the separator splits to itself alone. */
  lemma {:induction false} SplitNone(a: string, sep: char)
    requires sep !in a
    ensures Split(a, sep) == [a]
    decreases |a|
  {
    if |a| > 0 {
      SplitNone(a[1..], sep);
      assert [a[0]] + a[1..] == a;
    }
  }

  // ---------------------------------------------------------------------
  // Scanning up to a character
  // ---------------------------------------------------------------------

  /** `s` cut before the first `c`: the part free of `c`, and the rest (empty or starting with `c`). */
  function TakeUntil(s: string, c: char): (r: (string, string))
    ensures r.0 + r.1 == s && c !in r.0
    ensures |r.1| == 0 || r.1[0] == c
  {
    if |s| == 0 || s[0] == c then ("", s)
    else
      var (a, b) := TakeUntil(s[1..], c);
      ([s[0]] + a, b)
  }

  lemma {:induction false} TakeUntilConcat(a: string, b: string, c: char)
    requires c !in a && |b| > 0 && b[0] == c
    ensures TakeUntil(a + b, c) == (a, b)
    decreases |a|
  {
    if |a| == 0 {
      assert a + b == b;
    } else {
      assert (a + b)[1..] == a[1..] + b;
      TakeUntilConcat(a[1..], b, c);
      assert [a[0]] + a[1..] == a;
    }
  }

  /** Without `c`, the whole string comes before it. */
  lemma {:induction false} TakeUntilAbsent(s: string, c: char)
    requires c !in s
    ensures TakeUntil(s, c) == (s, "")
  {
    if |s| > 0 {
      TakeUntilAbsent(s[1..], c);
      assert [s[0]] + s[1..] == s;
    }
  }

  /** The text up to the first `c` and the text after that `c`; nothing if there is no `c`. */
  function UpTo(s: string, c: char): (r: Option<(string, string)>)
    ensures r.Some? ==> s == r.value.0 + [c] + r.value.1 && c !in r.value.0
    ensures r.None? <==> c !in s
  {
    var (a, b) := TakeUntil(s, c);
    if |b| == 0 then None else Some((a, b[1..]))
  }

  lemma UpToConcat(a: string, c: char, t: string)
    requires c !in a
    ensures UpTo(a + [c] + t, c) == Some((a, t))
  {
    assert a + [c] + t == a + ([c] + t);
    TakeUntilConcat(a, [c] + t, c);
    assert ([c] + t)[1..] == t;
  }

  /** `s` with the literal `lit` taken off its front, if it starts with it. */
  function Expect(s: string, lit: string): (r: Option<string>)
    ensures r.Some? <==> StartsWith(s, lit)
    ensures r.Some? ==> s == lit + r.value
  {
    if StartsWith(s, lit) then Some(s[|lit|..]) else None
  }

  lemma ExpectConcat(lit: string, t: string)
    ensures Expect(lit + t, lit) == Some(t)
  {
    assert (lit + t)[..|lit|] == lit;
    assert (lit + t)[|lit|..] == t;
  }

  // ---------------------------------------------------------------------
  // String.prototype.replace with a string pattern
  // ---------------------------------------------------------------------

  /**
   * The substitution patterns a replacement string is subject to when the
   * pattern has no capture groups: `$$`, `$&`, `` $` `` and `$'`; every
   * other `$` stays literal.
   */
  function ExpandReplacement(repl: string, matched: string, before: string, after: string): string
  {
    if |repl| == 0 then ""
    else if repl[0] == '$' && |repl| >= 2 && repl[1] in "$&`'" then
      var piece := if repl[1] == '$' then "$" else if repl[1] == '&' then matched
                   else if repl[1] == '`' then before else after;
      piece + ExpandReplacement(repl[2..], matched, before, after)
    else
      [repl[0]] + ExpandReplacement(repl[1..], matched, before, after)
  }

  lemma {:induction false} ExpandPlain(repl: string, matched: string, before: string, after: string)
    requires '$' !in repl
    ensures ExpandReplacement(repl, matched, before, after) == repl
  {
    if |repl| > 0 {
      ExpandPlain(repl[1..], matched, before, after);
      assert [repl[0]] + repl[1..] == repl;
    }
  }

  /** `s.replace(pat, repl)` with a string `pat`: only the first occurrence is replaced. */
  function ReplaceFirst(s: string, pat: string, repl: string): (r: string)
    ensures !Contains(s, pat) ==> r == s
  {
    match IndexOf(s, pat)
    case None => s
    case Some(i) =>
      s[..i] + ExpandReplacement(repl, pat, s[..i], s[i + |pat|..]) + s[i + |pat|..]
  }

  /** With no `$` in the replacement, the first occurrence is swapped for the replacement text verbatim. */
  lemma ReplaceFirstPlain(s: string, pat: string, repl: string, i: nat)
    requires '$' !in repl
    requires IsAt(s, pat, i) && forall j: nat :: j < i ==> !IsAt(s, pat, j)
    ensures ReplaceFirst(s, pat, repl) == s[..i] + repl + s[i + |pat|..]
  {
    IndexOfIs(s, pat, i);
    ExpandPlain(repl, pat, s[..i], s[i + |pat|..]);
  }

  // ---------------------------------------------------------------------
  // Decimal rendering
  // ---------------------------------------------------------------------

  predicate IsDigit(c: char)
  {
    '0' <= c <= '9'
  }

  function DigitChar(d: nat): (c: char)
    requires d < 10
    ensures IsDigit(c)
  {
    ('0' as int + d) as char
  }

  /** `String(n)` for a non-negative integer `n`: its decimal digits, no leading zero. */
  function DecimalString(n: nat): (r: string)
    ensures 1 <= |r| && forall i :: 0 <= i < |r| ==> IsDigit(r[i])
    ensures n < 10 <==> |r| == 1
  {
    if n < 10 then [DigitChar(n)] else DecimalString(n / 10) + [DigitChar(n % 10)]
  }

  /** Reading the digits back gives the number. */
  function DigitsValue(s: string): int
  {
    if |s| == 0 then 0 else 10 * DigitsValue(s[..|s| - 1]) + (s[|s| - 1] as int - '0' as int)
  }

  lemma {:induction false} DecimalStringValue(n: nat)
    ensures DigitsValue(DecimalString(n)) == n
  {
    if n >= 10 {
      DecimalStringValue(n / 10);
      var s := DecimalString(n);
      assert s[..|s| - 1] == DecimalString(n / 10);
    }
  }

  /** A byte value renders as one to three digits. */
  lemma DecimalStringOfByte(n: nat)
    requires n < 256
    ensures 1 <= |DecimalString(n)| <= 3
  {
    if n >= 10 {
      assert |DecimalString(n / 10)| == 1 || (n / 10 >= 10 && |DecimalString(n / 100)| == 1);
    }
  }
}
