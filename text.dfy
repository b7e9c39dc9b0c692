/// The JavaScript string built-ins the calculator relies on: `String.prototype.trim`,
/// `split` and `join` on a one-character separator, `Number` applied to a string
/// of decimal digits, the decimal and binary renderings of a non-negative integer
/// (`String(n)`, `n.toString(2)`), `padStart`, and `parseInt(s, 2)`.
module Text {
  import opened Bits

  // ---------------------------------------------------------------------
  // Whitespace and trim.

  /** The characters JavaScript's `trim` and `Number` skip: WhiteSpace and
      LineTerminator of the ECMAScript language specification (tab, line feed,
      vertical tab, form feed, carriage return, space, no-break space, the
      Unicode space separators, line and paragraph separator, and the byte
      order mark). */
  const Whitespace: set<char> := {
    '\U{9}', '\U{A}', '\U{B}', '\U{C}', '\U{D}', '\U{20}', '\U{A0}', '\U{1680}',
    '\U{2000}', '\U{2001}', '\U{2002}', '\U{2003}', '\U{2004}', '\U{2005}',
    '\U{2006}', '\U{2007}', '\U{2008}', '\U{2009}', '\U{200A}',
    '\U{2028}', '\U{2029}', '\U{202F}', '\U{205F}', '\U{3000}', '\U{FEFF}'
  }

  predicate IsWhitespace(c: char)
  {
    c in Whitespace
  }

  predicate AllWhitespace(s: string)
  {
    forall i :: 0 <= i < |s| ==> IsWhitespace(s[i])
  }

  /** Neither end of s is whitespace. */
  predicate Trimmed(s: string)
  {
    |s| == 0 || (!IsWhitespace(s[0]) && !IsWhitespace(s[|s| - 1]))
  }

  /** The number of whitespace characters at the start of s. */
  function LeadingWhitespace(s: string): (n: nat)
    ensures n <= |s| && AllWhitespace(s[..n])
    ensures n < |s| ==> !IsWhitespace(s[n])
  {
    if |s| > 0 && IsWhitespace(s[0]) then
      var n := 1 + LeadingWhitespace(s[1..]);
      assert s[..n] == [s[0]] + s[1..][..n - 1];
      n
    else 0
  }

  /** The number of whitespace characters at the end of s. */
  function TrailingWhitespace(s: string): (n: nat)
    ensures n <= |s| && AllWhitespace(s[|s| - n..])
    ensures n < |s| ==> !IsWhitespace(s[|s| - 1 - n])
  {
    if |s| > 0 && IsWhitespace(s[|s| - 1]) then
      var init := s[..|s| - 1];
      var m := TrailingWhitespace(init);
      assert |s| - (m + 1) == |init| - m;
      assert s[|s| - (m + 1)..] == init[|init| - m..] + [s[|s| - 1]];
      assert m + 1 < |s| ==> s[|s| - 1 - (m + 1)] == init[|init| - 1 - m];
      m + 1
    else 0
  }

  /** JavaScript `s.trim()`: s without its leading and trailing whitespace. */
  function Trim(s: string): (r: string)
    ensures Trimmed(r)
  {
    var u := s[LeadingWhitespace(s)..];
    u[..|u| - TrailingWhitespace(u)]
  }

  /** Trim removes exactly the whitespace around a trimmed string. */
  lemma TrimPadded(a: string, d: string, b: string)
    requires AllWhitespace(a) && AllWhitespace(b) && Trimmed(d)
    ensures Trim(a + d + b) == d
  {
    var s := a + d + b;
    if |d| == 0 {
      assert AllWhitespace(s);
      LeadingOfBlank(s);
    } else {
      assert s == a + (d + b);
      LeadingOfPadded(a, d + b);
      assert s[LeadingWhitespace(s)..] == d + b;
      TrailingOfPadded(d, b);
      assert (d + b)[..|d + b| - |b|] == d;
    }
  }

  /** A trimmed string is its own trim. */
  lemma TrimTrimmed(d: string)
    requires Trimmed(d)
    ensures Trim(d) == d
  {
    TrimPadded("", d, "");
    assert "" + d + "" == d;
  }

  /** Trim removes whitespace in front of a trimmed string. */
  lemma TrimLeading(a: string, d: string)
    requires AllWhitespace(a) && Trimmed(d)
    ensures Trim(a + d) == d
  {
    TrimPadded(a, d, "");
    assert a + d + "" == a + d;
  }

  /** Trim removes whitespace after a trimmed string. */
  lemma TrimTrailing(d: string, b: string)
    requires AllWhitespace(b) && Trimmed(d)
    ensures Trim(d + b) == d
  {
    TrimPadded("", d, b);
    assert "" + d + b == d + b;
  }

  /** All of a blank string is leading whitespace. */
  lemma {:induction false} LeadingOfBlank(s: string)
    requires AllWhitespace(s)
    ensures LeadingWhitespace(s) == |s|
  {
    if |s| > 0 {
      LeadingOfBlank(s[1..]);
    }
  }

  /** Whitespace in front of a string that does not start with whitespace is
      exactly the leading whitespace. */
  lemma {:induction false} LeadingOfPadded(a: string, x: string)
    requires AllWhitespace(a)
    requires |x| == 0 || !IsWhitespace(x[0])
    ensures LeadingWhitespace(a + x) == |a|
  {
    if |a| == 0 {
      assert a + x == x;
    } else {
      assert (a + x)[1..] == a[1..] + x;
      LeadingOfPadded(a[1..], x);
    }
  }

  /** Whitespace after a string that does not end with whitespace is exactly the
      trailing whitespace. */
  lemma {:induction false} TrailingOfPadded(x: string, b: string)
    requires AllWhitespace(b)
    requires |x| == 0 || !IsWhitespace(x[|x| - 1])
    ensures TrailingWhitespace(x + b) == |b|
  {
    if |b| == 0 {
      assert x + b == x;
    } else {
      assert (x + b)[..|x + b| - 1] == x + b[..|b| - 1];
      TrailingOfPadded(x, b[..|b| - 1]);
    }
  }

  /** A sequence cut into a prefix, then the rest cut again, is the three
      pieces put back together. */
  lemma Recompose<T>(s: seq<T>, a: seq<T>, u: seq<T>, b: seq<T>, c: seq<T>)
    requires |a| <= |s| && a == s[..|a|] && u == s[|a|..]
    requires |b| <= |u| && b == u[..|b|] && c == u[|b|..]
    ensures s == a + b + c
  {
    assert u == b + c;
    assert s == a + u;
  }

  /** Every string is its trimmed self surrounded by whitespace. */
  lemma TrimDecompose(s: string) returns (lead: string, trail: string)
    ensures s == lead + Trim(s) + trail
    ensures AllWhitespace(lead) && AllWhitespace(trail)
  {
    var m := LeadingWhitespace(s);
    var u := s[m..];
    var n := TrailingWhitespace(u);
    var t := u[..|u| - n];
    lead := s[..m];
    trail := u[|u| - n..];
    assert Trim(s) == t;
    Recompose(s, lead, u, t, trail);
  }

  // ---------------------------------------------------------------------
  // Split and join on a single-character separator.

  /** JavaScript `parts.join(sep)`. */
  function Join(parts: seq<string>, sep: char): (s: string)
    requires |parts| >= 1
  {
    if |parts| == 1 then parts[0] else parts[0] + [sep] + Join(parts[1..], sep)
  }

  /** A join starts where its first piece starts and ends where its last piece ends. */
  lemma {:induction false} JoinEnds(parts: seq<string>, sep: char)
    requires |parts| >= 1 && forall i :: 0 <= i < |parts| ==> |parts[i]| >= 1
    ensures var s := Join(parts, sep);
            |s| >= 1 && s[0] == parts[0][0] && s[|s| - 1] == parts[|parts| - 1][|parts[|parts| - 1]| - 1]
  {
    if |parts| > 1 {
      JoinEnds(parts[1..], sep);
    }
  }

  /** A character that is neither the separator nor in any piece is not in the join. */
  lemma {:induction false} JoinAvoids(parts: seq<string>, sep: char, c: char)
    requires |parts| >= 1 && c != sep
    requires forall i :: 0 <= i < |parts| ==> c !in parts[i]
    ensures c !in Join(parts, sep)
  {
    if |parts| > 1 {
      JoinAvoids(parts[1..], sep, c);
    }
  }

  /** Joining three pieces puts the separator between neighbours. */
  lemma JoinThree(a: string, b: string, c: string, sep: char)
    ensures Join([a, b, c], sep) == a + [sep] + b + [sep] + c
  {
    assert [a, b, c][1..] == [b, c];
    assert [b, c][1..] == [c];
    assert Join([b, c], sep) == b + [sep] + c;
    assert Join([a, b, c], sep) == a + [sep] + (b + [sep] + c);
  }

  /** JavaScript `s.split(sep)`: the pieces of s between occurrences of sep. */
  function Split(s: string, sep: char): (parts: seq<string>)
    ensures |parts| >= 1
  {
    if |s| == 0 then [""]
    else
      var rest := Split(s[1..], sep);
      if s[0] == sep then [""] + rest else [[s[0]] + rest[0]] + rest[1..]
  }

  /** Join inverts Split, and no piece contains the separator: the pieces are
      exactly the maximal runs of s between separators. */
  lemma {:induction false} JoinSplit(s: string, sep: char)
    ensures Join(Split(s, sep), sep) == s
    ensures forall i :: 0 <= i < |Split(s, sep)| ==> sep !in Split(s, sep)[i]
  {
    if |s| > 0 {
      var rest := Split(s[1..], sep);
      JoinSplit(s[1..], sep);
      var parts := Split(s, sep);
      if s[0] == sep {
        assert parts[1..] == rest;
      } else {
        assert parts[1..] == rest[1..];
        assert |rest| > 1 ==> Join(rest, sep) == rest[0] + [sep] + Join(rest[1..], sep);
        assert forall i :: 1 <= i < |parts| ==> parts[i] == rest[i];
      }
    }
  }

  /** Text without the separator in front of the rest joins onto the first piece. */
  lemma {:induction false} SplitPrepend(a: string, t: string, sep: char)
    requires sep !in a
    ensures Split(a + t, sep) == [a + Split(t, sep)[0]] + Split(t, sep)[1..]
  {
    if |a| == 0 {
      var p := Split(t, sep);
      assert a + t == t && a + p[0] == p[0];
      assert [p[0]] + p[1..] == p;
    } else {
      assert (a + t)[1..] == a[1..] + t;
      assert a[0] != sep;
      SplitPrepend(a[1..], t, sep);
      assert [a[0]] + (a[1..] + Split(t, sep)[0]) == a + Split(t, sep)[0];
    }
  }

  /** Text without the separator after the rest joins onto the last piece. */
  lemma {:induction false} SplitAppend(t: string, w: string, sep: char)
    requires sep !in w
    ensures var p := Split(t, sep);
            Split(t + w, sep) == p[..|p| - 1] + [p[|p| - 1] + w]
  {
    var p := Split(t, sep);
    if |t| == 0 {
      SplitPrepend(w, "", sep);
      assert w + "" == w && t + w == w;
    } else {
      assert (t + w)[1..] == t[1..] + w;
      assert (t + w)[0] == t[0];
      SplitAppend(t[1..], w, sep);
      var q := Split(t[1..], sep);
      if t[0] == sep {
        AppendAfterEmpty(q, w);
      } else {
        AppendAfterJoined(t[0], q, w);
      }
    }
  }

  /** Appending to the last piece commutes with a new empty first piece. */
  lemma AppendAfterEmpty(q: seq<string>, w: string)
    requires |q| >= 1
    ensures var p := [""] + q;
            [""] + (q[..|q| - 1] + [q[|q| - 1] + w]) == p[..|p| - 1] + [p[|p| - 1] + w]
  {
    var p := [""] + q;
    assert p[..|p| - 1] == [""] + q[..|q| - 1];
  }

  /** Appending to the last piece commutes with a character joined onto the
      first piece. */
  lemma AppendAfterJoined(c: char, q: seq<string>, w: string)
    requires |q| >= 1
    ensures var p := [[c] + q[0]] + q[1..];
            var r := q[..|q| - 1] + [q[|q| - 1] + w];
            [[c] + r[0]] + r[1..] == p[..|p| - 1] + [p[|p| - 1] + w]
  {
    var r := q[..|q| - 1] + [q[|q| - 1] + w];
    if |q| == 1 {
      assert [c] + (q[0] + w) == [c] + q[0] + w;
    } else {
      var p := [[c] + q[0]] + q[1..];
      assert r[0] == q[0] && r[1..] == q[1..|q| - 1] + [q[|q| - 1] + w];
      assert p[..|p| - 1] == [[c] + q[0]] + q[1..|q| - 1];
    }
  }

  /** Text without the separator is a single piece. */
  lemma {:induction false} SplitWithoutSeparator(s: string, sep: char)
    requires sep !in s
    ensures Split(s, sep) == [s]
  {
    if |s| > 0 {
      assert s[0] != sep && sep !in s[1..];
      SplitWithoutSeparator(s[1..], sep);
      assert [s[0]] + s[1..] == s;
    }
  }

  /** Split inverts Join when no piece contains the separator. */
  lemma {:induction false} SplitJoin(parts: seq<string>, sep: char)
    requires |parts| >= 1
    requires forall i :: 0 <= i < |parts| ==> sep !in parts[i]
    ensures Split(Join(parts, sep), sep) == parts
  {
    if |parts| == 1 {
      SplitPrepend(parts[0], "", sep);
      assert parts[0] + "" == parts[0];
    } else {
      var rest := Join(parts[1..], sep);
      SplitJoin(parts[1..], sep);
      assert ([sep] + rest)[1..] == rest;
      assert Split([sep] + rest, sep) == [""] + parts[1..];
      assert parts[0] + [sep] + rest == parts[0] + ([sep] + rest);
      SplitPrepend(parts[0], [sep] + rest, sep);
      assert parts[0] + "" == parts[0];
    }
  }

  // ---------------------------------------------------------------------
  // Decimal digits.

  predicate IsDigit(c: char)
  {
    '0' <= c <= '9'
  }

  predicate AllDigits(s: string)
  {
    forall i :: 0 <= i < |s| ==> IsDigit(s[i])
  }

  /** The regular expression /^\d+$/: one or more ASCII digits. */
  predicate IsDigits(s: string)
  {
    |s| >= 1 && AllDigits(s)
  }

  /** No decimal digit is whitespace. */
  lemma DigitNotWhitespace(c: char)
    requires IsDigit(c)
    ensures !IsWhitespace(c)
  {
  }

  /** A digit string has no whitespace at either end. */
  lemma DigitsTrimmed(s: string)
    requires IsDigits(s)
    ensures Trimmed(s)
  {
    DigitNotWhitespace(s[0]);
    DigitNotWhitespace(s[|s| - 1]);
  }

  /** A character that is not a digit does not occur in a digit string. */
  lemma NonDigitAbsent(s: string, c: char)
    requires AllDigits(s) && !IsDigit(c)
    ensures c !in s
  {
  }

  /** A decimal digit string without superfluous leading zeros. */
  predicate Canonical(s: string)
  {
    IsDigits(s) && (s[0] == '0' ==> |s| == 1)
  }

  function DigitValue(c: char): (d: nat)
    requires IsDigit(c)
    ensures d < 10
  {
    c as int - '0' as int
  }

  function DigitChar(d: nat): (c: char)
    requires d < 10
    ensures IsDigit(c) && DigitValue(c) == d
  {
    ('0' as int + d) as char
  }

  /** The value of a string of decimal digits, most significant first: what
      `Number(s)` yields for such a string. */
  function DigitsValue(s: string): nat
    requires AllDigits(s)
  {
    if |s| == 0 then 0 else 10 * DigitsValue(s[..|s| - 1]) + DigitValue(s[|s| - 1])
  }

  /** The decimal rendering of n, as JavaScript's `String(n)` gives it. */
  function Decimal(n: nat): (s: string)
    ensures Canonical(s) && DigitsValue(s) == n
  {
    if n < 10 then [DigitChar(n)]
    else
      var s := Decimal(n / 10) + [DigitChar(n % 10)];
      assert s[..|s| - 1] == Decimal(n / 10);
      s
  }

  /** A digit string that starts with a non-zero digit has a positive value. */
  lemma {:induction false} DigitsValuePositive(s: string)
    requires IsDigits(s) && s[0] != '0'
    ensures DigitsValue(s) >= 1
  {
    if |s| > 1 {
      DigitsValuePositive(s[..|s| - 1]);
    }
  }

  /** Decimal is the inverse of DigitsValue on canonical digit strings. */
  lemma {:induction false} DecimalOfCanonical(s: string)
    requires Canonical(s)
    ensures Decimal(DigitsValue(s)) == s
  {
    if |s| == 1 {
      assert DigitChar(DigitValue(s[0])) == s[0];
    } else {
      var init := s[..|s| - 1];
      DigitsValuePositive(init);
      DecimalOfCanonical(init);
      var v := DigitsValue(s);
      assert v / 10 == DigitsValue(init) && v % 10 == DigitValue(s[|s| - 1]);
      assert DigitChar(DigitValue(s[|s| - 1])) == s[|s| - 1];
      assert s == init + [s[|s| - 1]];
    }
  }

  // ---------------------------------------------------------------------
  // Binary digits, padStart and parseInt(s, 2).

  predicate IsBinaryDigit(c: char)
  {
    c == '0' || c == '1'
  }

  predicate AllBinary(s: string)
  {
    forall i :: 0 <= i < |s| ==> IsBinaryDigit(s[i])
  }

  /** The character for a bit. */
  function BinaryChar(b: nat): (c: char)
    requires b < 2
    ensures IsBinaryDigit(c)
  {
    if b == 0 then '0' else '1'
  }

  /** The binary rendering of n, as JavaScript's `n.toString(2)` gives it:
      character i is bit |s| - 1 - i of n, and the leading digit is 1 unless n is 0. */
  function Binary(n: nat): (s: string)
    ensures |s| >= 1 && n < Pow2(|s|)
    ensures |s| > 1 ==> Pow2(|s| - 1) <= n
    ensures forall i :: 0 <= i < |s| ==> s[i] == BinaryChar(Bit(n, |s| - 1 - i))
  {
    if n < 2 then [BinaryChar(n)]
    else Binary(n / 2) + [BinaryChar(n % 2)]
  }

  /** JavaScript `s.padStart(width, c)`. */
  function PadStart(s: string, width: nat, c: char): (r: string)
    ensures |s| >= width ==> r == s
    ensures |s| < width ==> |r| == width && r[width - |s|..] == s
    ensures forall i :: 0 <= i < |r| - |s| ==> r[i] == c
    decreases width - |s|
  {
    if |s| >= width then s else PadStart([c] + s, width, c)
  }

  /** The value of a string of binary digits: `parseInt(s, 2)` on such a string. */
  function BinaryValue(s: string): nat
    requires AllBinary(s)
  {
    if |s| == 0 then 0
    else 2 * BinaryValue(s[..|s| - 1]) + (if s[|s| - 1] == '1' then 1 else 0)
  }

  /** A string holding bits top + |s| - 1 down to top of n reads back as those bits. */
  lemma {:induction false} BinaryValueOfBits(s: string, n: nat, top: nat)
    requires forall i :: 0 <= i < |s| ==> s[i] == BinaryChar(Bit(n, top + |s| - 1 - i))
    ensures AllBinary(s) && BinaryValue(s) == Low(Shr(n, top), |s|)
  {
    if |s| > 0 {
      var init := s[..|s| - 1];
      assert forall i :: 0 <= i < |init| ==> init[i] == BinaryChar(Bit(n, (top + 1) + |init| - 1 - i));
      BinaryValueOfBits(init, n, top + 1);
      ShrShr(n, top, 1);
      BitOfShr(n, top, 0);
    }
  }
}
