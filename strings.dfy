/**
 * The pieces of Python's `str` behaviour that the helpers in utils.py rely on:
 * `split(sep)`, `split()`, `sep.join(parts)`, `strip(chars)`, `lower()`,
 * `startswith(prefix)` and `str(n)` for a natural number.
 */
module Strings {

  /** Length of the longest prefix of `s` whose characters all satisfy `p`. */
  function Span(s: string, p: char -> bool): (k: nat)
    ensures k <= |s|
    ensures forall i :: 0 <= i < k ==> p(s[i])
    ensures k < |s| ==> !p(s[k])
  {
    if |s| == 0 || !p(s[0]) then 0 else 1 + Span(s[1..], p)
  }

  /** Length of the longest suffix of `s` whose characters all satisfy `p`. */
  function SpanBack(s: string, p: char -> bool): (k: nat)
    ensures k <= |s|
    ensures forall i :: |s| - k <= i < |s| ==> p(s[i])
    ensures k < |s| ==> !p(s[|s| - 1 - k])
  {
    if |s| == 0 || !p(s[|s| - 1]) then 0 else 1 + SpanBack(s[..|s| - 1], p)
  }

  // ---------------------------------------------------------------------
  // s.split(sep) and sep.join(parts)
  // ---------------------------------------------------------------------

  /** `s.split(sep)` for a one-character separator: never empty, no part holds `sep`. */
  function Split(s: string, sep: char): (parts: seq<string>)
    ensures |parts| >= 1
    ensures forall i :: 0 <= i < |parts| ==> sep !in parts[i]
  {
    if |s| == 0 then [""]
    else if s[0] == sep then [""] + Split(s[1..], sep)
    else
      var rest := Split(s[1..], sep);
      [[s[0]] + rest[0]] + rest[1..]
  }

  /** `sep.join(parts)`; joining no parts gives the empty string. */
  function Join(parts: seq<string>, sep: string): string
  {
    if |parts| == 0 then ""
    else if |parts| == 1 then parts[0]
    else parts[0] + sep + Join(parts[1..], sep)
  }

  /** The first part of a split starts with the string's first character, unless that is the separator. */
  lemma SplitFirst(s: string, sep: char)
    requires |s| > 0 && s[0] != sep
    ensures |Split(s, sep)[0]| > 0 && Split(s, sep)[0][0] == s[0]
  {
  }

  /** Joining what `split` produced gives back the original string. */
  lemma {:induction false} JoinSplit(s: string, sep: char)
    ensures Join(Split(s, sep), [sep]) == s
  {
    if |s| == 0 {
    } else if s[0] == sep {
      JoinSplit(s[1..], sep);
      assert s == [sep] + s[1..];
    } else {
      JoinSplit(s[1..], sep);
      var rest := Split(s[1..], sep);
      if |rest| == 1 {
        assert Join(rest, [sep]) == rest[0];
        assert s == [s[0]] + s[1..];
      } else {
        assert rest == [rest[0]] + rest[1..];
        assert Join(rest, [sep]) == rest[0] + [sep] + Join(rest[1..], [sep]);
        var parts := Split(s, sep);
        assert parts[1..] == rest[1..];
        assert Join(parts, [sep]) == [s[0]] + rest[0] + [sep] + Join(rest[1..], [sep]);
        assert s == [s[0]] + s[1..];
      }
    }
  }

  /** A string without the separator splits into itself alone. */
  lemma {:induction false} SplitWithoutSep(s: string, sep: char)
    requires sep !in s
    ensures Split(s, sep) == [s]
  {
    if |s| > 0 {
      assert s[0] != sep;
      SplitWithoutSep(s[1..], sep);
      assert s == [s[0]] + s[1..];
    }
  }

  /** Splitting at one separator splits the two sides independently. */
  lemma {:induction false} SplitAround(a: string, sep: char, b: string)
    ensures Split(a + [sep] + b, sep) == Split(a, sep) + Split(b, sep)
  {
    var s := a + [sep] + b;
    if |a| == 0 {
      assert s == [sep] + b;
      assert s[1..] == b;
    } else {
      assert s[0] == a[0];
      assert s[1..] == a[1..] + [sep] + b;
      SplitAround(a[1..], sep, b);
    }
  }

  /** Joining with one more part appends the separator and that part. */
  lemma {:induction false} JoinSnoc(parts: seq<string>, sep: string, last: string)
    requires |parts| >= 1
    ensures Join(parts + [last], sep) == Join(parts, sep) + sep + last
  {
    if |parts| == 1 {
      assert parts + [last] == [parts[0], last];
      assert (parts + [last])[1..] == [last];
    } else {
      assert (parts + [last])[1..] == parts[1..] + [last];
      JoinSnoc(parts[1..], sep, last);
    }
  }

  /** Parts that do not hold the separator come back unchanged from split. */
  lemma {:induction false} SplitJoin(parts: seq<string>, sep: char)
    requires |parts| >= 1
    requires forall i :: 0 <= i < |parts| ==> sep !in parts[i]
    ensures Split(Join(parts, [sep]), sep) == parts
  {
    if |parts| == 1 {
      SplitWithoutSep(parts[0], sep);
    } else {
      SplitJoin(parts[1..], sep);
      SplitWithoutSep(parts[0], sep);
      assert Join(parts, [sep]) == parts[0] + [sep] + Join(parts[1..], [sep]);
      SplitAround(parts[0], sep, Join(parts[1..], [sep]));
      assert parts == [parts[0]] + parts[1..];
    }
  }

  /** Every character of a join comes from the separator or from one of the parts. */
  lemma {:induction false} JoinChars(parts: seq<string>, sep: string, c: char)
    requires c in Join(parts, sep)
    ensures c in sep || exists i :: 0 <= i < |parts| && c in parts[i]
  {
    if |parts| > 1 {
      if c in parts[0] + sep {
      } else {
        JoinChars(parts[1..], sep, c);
        var i :| 0 <= i < |parts[1..]| && c in parts[1..][i];
        assert c in parts[i + 1];
      }
    }
  }

  // ---------------------------------------------------------------------
  // s.split() with no argument
  // ---------------------------------------------------------------------

  /** The characters Python's `str.isspace` (and so `str.split()`) treats as white space. */
  predicate IsSpace(c: char)
  {
    ('\U{0009}' <= c <= '\U{000D}') || ('\U{001C}' <= c <= '\U{0020}') || c == '\U{0085}'
    || c == '\U{00A0}' || c == '\U{1680}' || ('\U{2000}' <= c <= '\U{200A}')
    || c == '\U{2028}' || c == '\U{2029}' || c == '\U{202F}' || c == '\U{205F}' || c == '\U{3000}'
  }

  predicate IsWordChar(c: char)
  {
    !IsSpace(c)
  }

  predicate NoSpace(s: string)
  {
    forall i :: 0 <= i < |s| ==> !IsSpace(s[i])
  }

  /** `s.split()`: the maximal runs of non-white-space characters, in order. */
  function Words(s: string): (words: seq<string>)
    ensures forall i :: 0 <= i < |words| ==> |words[i]| > 0 && NoSpace(words[i])
    decreases |s|
  {
    if |s| == 0 then []
    else if IsSpace(s[0]) then Words(s[1..])
    else
      var n := Span(s, IsWordChar);
      [s[..n]] + Words(s[n..])
  }

  /** A non-empty string without white space is a single word. */
  lemma WordsOfWord(s: string)
    requires |s| > 0 && NoSpace(s)
    ensures Words(s) == [s]
  {
    var n := Span(s, IsWordChar);
    assert n == |s|;
    assert s[..n] == s;
    assert Words(s[n..]) == [];
  }

  /** The word run of a word followed by white space (or nothing) is that word. */
  lemma {:induction false} SpanOfWord(w: string, rest: string)
    requires NoSpace(w) && (|rest| > 0 ==> IsSpace(rest[0]))
    ensures Span(w + rest, IsWordChar) == |w|
  {
    if |w| > 0 {
      assert (w + rest)[0] == w[0];
      assert (w + rest)[1..] == w[1..] + rest;
      SpanOfWord(w[1..], rest);
    } else {
      assert w + rest == rest;
    }
  }

  /** A word followed by white space (or nothing) is the first word. */
  lemma WordsCons(w: string, rest: string)
    requires |w| > 0 && NoSpace(w) && (|rest| > 0 ==> IsSpace(rest[0]))
    ensures Words(w + rest) == [w] + Words(rest)
  {
    SpanOfWord(w, rest);
    var s := w + rest;
    assert s[..|w|] == w;
    assert s[|w|..] == rest;
  }

  /** A white-space character separates the words before it from the words after it. */
  lemma {:induction false} WordsAround(a: string, c: char, b: string)
    requires IsSpace(c)
    ensures Words(a + [c] + b) == Words(a) + Words(b)
    decreases |a|
  {
    var s := a + [c] + b;
    if |a| == 0 {
      assert s == [c] + b;
      assert s[1..] == b;
    } else if IsSpace(a[0]) {
      WordsAroundSpace(a, c, b);
    } else {
      WordsAroundWord(a, c, b);
    }
  }

  lemma {:induction false} WordsAroundSpace(a: string, c: char, b: string)
    requires IsSpace(c) && |a| > 0 && IsSpace(a[0])
    ensures Words(a + [c] + b) == Words(a) + Words(b)
    decreases |a|, 0
  {
    var s := a + [c] + b;
    assert s[0] == a[0];
    assert s[1..] == a[1..] + [c] + b;
    WordsAround(a[1..], c, b);
  }

  lemma {:induction false} WordsAroundWord(a: string, c: char, b: string)
    requires IsSpace(c) && |a| > 0 && !IsSpace(a[0])
    ensures Words(a + [c] + b) == Words(a) + Words(b)
    decreases |a|, 0
  {
    var n := Span(a, IsWordChar);
    FirstWordBeforeSpace(a, c, b);
    WordsAround(a[n..], c, b);
    ConsAppend(a[..n], Words(a[n..]), Words(b));
  }

  /** Appending after a first element regroups freely. */
  lemma ConsAppend<T>(x: T, p: seq<T>, q: seq<T>)
    ensures [x] + (p + q) == ([x] + p) + q
  {
  }

  /** The first word of `a` is also the first word of `a`, a white-space character, then `b`. */
  lemma FirstWordBeforeSpace(a: string, c: char, b: string)
    requires IsSpace(c) && |a| > 0 && !IsSpace(a[0])
    ensures var n := Span(a, IsWordChar);
      && 0 < n <= |a|
      && Words(a) == [a[..n]] + Words(a[n..])
      && Words(a + [c] + b) == [a[..n]] + Words(a[n..] + [c] + b)
  {
    var n := Span(a, IsWordChar);
    var w, rest := a[..n], a[n..];
    assert a == w + rest;
    assert a + [c] + b == w + (rest + [c] + b);
    WordsCons(w, rest + [c] + b);
  }

  /** Words joined by single spaces split back into the same words. */
  lemma {:induction false} WordsOfJoin(words: seq<string>)
    requires forall i :: 0 <= i < |words| ==> |words[i]| > 0 && NoSpace(words[i])
    ensures Words(Join(words, " ")) == words
  {
    if |words| == 1 {
      WordsOfWord(words[0]);
    } else if |words| > 1 {
      var rest := [' '] + Join(words[1..], " ");
      WordsOfJoin(words[1..]);
      assert Join(words, " ") == words[0] + rest;
      assert rest[1..] == Join(words[1..], " ");
      WordsCons(words[0], rest);
      assert words == [words[0]] + words[1..];
    }
  }

  /** Joining white-space-free parts with a white-space-free separator leaves no white space. */
  lemma JoinNoSpace(parts: seq<string>, sep: string)
    requires NoSpace(sep)
    requires forall i :: 0 <= i < |parts| ==> NoSpace(parts[i])
    ensures NoSpace(Join(parts, sep))
  {
    var j := Join(parts, sep);
    forall k | 0 <= k < |j| ensures !IsSpace(j[k]) {
      JoinChars(parts, sep, j[k]);
    }
  }

  // ---------------------------------------------------------------------
  // strip, lower, startswith
  // ---------------------------------------------------------------------

  /** `s.strip(chars)`: drop the leading and the trailing characters that are in `chars`. */
  function Strip(s: string, chars: set<char>): (r: string)
    ensures exists i, j ::
              && 0 <= i <= j <= |s| && r == s[i..j]
              && (forall k :: 0 <= k < i ==> s[k] in chars)
              && (forall k :: j <= k < |s| ==> s[k] in chars)
    ensures |r| > 0 ==> r[0] !in chars && r[|r| - 1] !in chars
  {
    var i := Span(s, c => c in chars);
    var rest := s[i..];
    var n := SpanBack(rest, c => c in chars);
    assert rest[..|rest| - n] == s[i..|s| - n];
    rest[..|rest| - n]
  }

  /** Stripping changes nothing when neither end holds a stripped character. */
  lemma StripClean(s: string, chars: set<char>)
    requires |s| > 0 ==> s[0] !in chars && s[|s| - 1] !in chars
    ensures Strip(s, chars) == s
  {
    var i := Span(s, c => c in chars);
    assert i == 0 || |s| == 0;
    assert s[i..] == s;
    var n := SpanBack(s, c => c in chars);
    assert n == 0 || |s| == 0;
  }

  /** Stripping characters that `s` does not start or end with, around `s`. */
  lemma StripPadded(pad: string, s: string, padEnd: string, chars: set<char>)
    requires forall k :: 0 <= k < |pad| ==> pad[k] in chars
    requires forall k :: 0 <= k < |padEnd| ==> padEnd[k] in chars
    requires |s| > 0 ==> s[0] !in chars && s[|s| - 1] !in chars
    ensures Strip(pad + s + padEnd, chars) == s
  {
    var t := pad + s + padEnd;
    var i := Span(t, c => c in chars);
    if |s| == 0 {
      assert forall k :: 0 <= k < |t| ==> t[k] in chars by {
        forall k | 0 <= k < |t| ensures t[k] in chars {
          if k < |pad| { assert t[k] == pad[k]; } else { assert t[k] == padEnd[k - |pad|]; }
        }
      }
      assert i == |t|;
    } else {
      assert t[|pad|] == s[0];
      assert i == |pad|;
      var rest := t[i..];
      assert rest == s + padEnd;
      var n := SpanBack(rest, c => c in chars);
      assert rest[|s| - 1] == s[|s| - 1];
      assert n == |padEnd|;
      assert rest[..|rest| - n] == s;
    }
  }

  /** Stripping keeps a first character that is not stripped. */
  lemma StripKeepsFirst(s: string, chars: set<char>)
    requires |s| > 0 && s[0] !in chars
    ensures |Strip(s, chars)| > 0 && Strip(s, chars)[0] == s[0]
  {
    var i := Span(s, c => c in chars);
    assert i == 0;
    assert s[i..] == s;
  }

  /** `c.lower()` for ASCII letters; other characters are unchanged. */
  function LowerChar(c: char): (r: char)
    ensures 'A' <= c <= 'Z' ==> 'a' <= r <= 'z' && r as int - c as int == 32
    ensures !('A' <= c <= 'Z') ==> r == c
  {
    if 'A' <= c <= 'Z' then (c as int + 32) as char else c
  }

  function Lower(s: string): (r: string)
    ensures |r| == |s| && forall i :: 0 <= i < |s| ==> r[i] == LowerChar(s[i])
  {
    seq(|s|, i requires 0 <= i < |s| => LowerChar(s[i]))
  }

  /** Lowering a string without upper-case ASCII letters changes nothing. */
  lemma LowerUnchanged(s: string)
    requires forall i :: 0 <= i < |s| ==> !('A' <= s[i] <= 'Z')
    ensures Lower(s) == s
  {
  }

  predicate StartsWith(s: string, prefix: string)
  {
    |prefix| <= |s| && s[..|prefix|] == prefix
  }

  // ---------------------------------------------------------------------
  // str(n)
  // ---------------------------------------------------------------------

  function Digit(d: nat): (c: char)
    requires d < 10
    ensures '0' <= c <= '9'
  {
    ('0' as int + d) as char
  }

  /** `str(n)`: the decimal digits of `n`, most significant first, without leading zeros. */
  function NatToString(n: nat): (s: string)
    ensures |s| > 0 && forall i :: 0 <= i < |s| ==> '0' <= s[i] <= '9'
  {
    if n < 10 then [Digit(n)] else NatToString(n / 10) + [Digit(n % 10)]
  }

  /** `int(s)` for a string of decimal digits. */
  function ParseDecimal(s: string): nat
    requires forall i :: 0 <= i < |s| ==> '0' <= s[i] <= '9'
  {
    if |s| == 0 then 0
    else ParseDecimal(s[..|s| - 1]) * 10 + (s[|s| - 1] as int - '0' as int)
  }

  /** Reading back the decimal text of `n` gives `n`. */
  lemma {:induction false} ParseNatToString(n: nat)
    ensures ParseDecimal(NatToString(n)) == n
  {
    var s := NatToString(n);
    if n < 10 {
      assert s[..|s| - 1] == [];
    } else {
      ParseNatToString(n / 10);
      assert s[..|s| - 1] == NatToString(n / 10);
    }
  }

  /** Different numbers have different decimal texts. */
  lemma NatToStringInjective(m: nat, n: nat)
    requires m != n
    ensures NatToString(m) != NatToString(n)
  {
    ParseNatToString(m);
    ParseNatToString(n);
  }
}
