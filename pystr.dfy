/**
 * The Python 2 string operations the controller relies on: str.strip,
 * str.replace, str.split (with and without a separator), str.rfind,
 * slicing with negative indices, str.isdigit and int() of a str.
 */
module PyStr {
  import opened Wrappers

  /** The characters Python 2 (C locale) treats as whitespace in strip(), split() and int(). */
  const Whitespace: set<char> := {' ', '\t', '\n', '\r', '\U{0B}', '\U{0C}'}

  predicate AllIn(s: string, cs: set<char>)
  {
    forall i :: 0 <= i < |s| ==> s[i] in cs
  }

  predicate NoneIn(s: string, cs: set<char>)
  {
    forall i :: 0 <= i < |s| ==> s[i] !in cs
  }

  // ---------------------------------------------------------------- strip

  /** s.lstrip(cs): the suffix left after the longest prefix made of characters of cs. */
  function LStrip(s: string, cs: set<char>): string
  {
    if |s| > 0 && s[0] in cs then LStrip(s[1..], cs) else s
  }

  /** s.rstrip(cs): the prefix left after the longest suffix made of characters of cs. */
  function RStrip(s: string, cs: set<char>): string
  {
    if |s| > 0 && s[|s| - 1] in cs then RStrip(s[..|s| - 1], cs) else s
  }

  /** lstrip removes a prefix made of characters of cs, and the longest one. */
  lemma {:induction false} LStripShape(s: string, cs: set<char>)
    ensures |LStrip(s, cs)| <= |s| && LStrip(s, cs) == s[|s| - |LStrip(s, cs)|..]
    ensures AllIn(s[..|s| - |LStrip(s, cs)|], cs)
    ensures LStrip(s, cs) == [] || LStrip(s, cs)[0] !in cs
  {
    if |s| > 0 && s[0] in cs {
      LStripShape(s[1..], cs);
    }
  }

  /** rstrip removes a suffix made of characters of cs, and the longest one. */
  lemma {:induction false} RStripShape(s: string, cs: set<char>)
    ensures |RStrip(s, cs)| <= |s| && RStrip(s, cs) == s[..|RStrip(s, cs)|]
    ensures AllIn(s[|RStrip(s, cs)|..], cs)
    ensures RStrip(s, cs) == [] || RStrip(s, cs)[|RStrip(s, cs)| - 1] !in cs
  {
    if |s| > 0 && s[|s| - 1] in cs {
      RStripShape(s[..|s| - 1], cs);
    }
  }

  /** s.strip(cs), and s.strip() when cs is Whitespace. */
  function Strip(s: string, cs: set<char>): string
  {
    RStrip(LStrip(s, cs), cs)
  }

  lemma {:induction false} LStripPadding(pad: string, s: string, cs: set<char>)
    requires AllIn(pad, cs)
    ensures LStrip(pad + s, cs) == LStrip(s, cs)
  {
    if pad != [] {
      assert (pad + s)[0] == pad[0] && pad[0] in cs;
      assert (pad + s)[1..] == pad[1..] + s;
      LStripPadding(pad[1..], s, cs);
    } else {
      assert pad + s == s;
    }
  }

  lemma {:induction false} RStripPadding(s: string, pad: string, cs: set<char>)
    requires AllIn(pad, cs)
    ensures RStrip(s + pad, cs) == RStrip(s, cs)
  {
    if pad != [] {
      var n := |pad| - 1;
      assert (s + pad)[|s + pad| - 1] == pad[n] && pad[n] in cs;
      assert (s + pad)[..|s + pad| - 1] == s + pad[..n];
      RStripPadding(s, pad[..n], cs);
    } else {
      assert s + pad == s;
    }
  }

  /** Padding made of characters of cs around a text that neither starts nor ends with one is removed, and nothing else. */
  lemma StripPadded(lead: string, t: string, trail: string, cs: set<char>)
    requires AllIn(lead, cs) && AllIn(trail, cs)
    requires t != [] && t[0] !in cs && t[|t| - 1] !in cs
    ensures Strip(lead + t + trail, cs) == t
  {
    assert lead + t + trail == lead + (t + trail);
    LStripPadding(lead, t + trail, cs);
    assert LStrip(t + trail, cs) == t + trail;
    RStripPadding(t, trail, cs);
  }

  // ---------------------------------------------------------------- replace

  /** s.replace(c, rep) for a one-character pattern: every occurrence of c becomes rep. */
  function Replace(s: string, c: char, rep: string): string
  {
    if s == [] then [] else (if s[0] == c then rep else [s[0]]) + Replace(s[1..], c, rep)
  }

  /** Without an occurrence of c nothing changes. */
  lemma {:induction false} ReplaceAbsent(s: string, c: char, rep: string)
    requires c !in s
    ensures Replace(s, c, rep) == s
  {
    if s != [] {
      assert c !in s[1..] by {
        assert forall i :: 0 <= i < |s[1..]| ==> s[1..][i] == s[i + 1];
      }
      ReplaceAbsent(s[1..], c, rep);
      assert s == [s[0]] + s[1..];
    }
  }

  /** When rep does not hold c, no occurrence of c is left. */
  lemma {:induction false} ReplaceRemoves(s: string, c: char, rep: string)
    requires c !in rep
    ensures c !in Replace(s, c, rep)
  {
    if s != [] {
      ReplaceRemoves(s[1..], c, rep);
    }
  }

  lemma {:induction false} ReplaceAppend(a: string, b: string, c: char, rep: string)
    ensures Replace(a + b, c, rep) == Replace(a, c, rep) + Replace(b, c, rep)
  {
    if a != [] {
      assert (a + b)[0] == a[0];
      assert (a + b)[1..] == a[1..] + b;
      ReplaceAppend(a[1..], b, c, rep);
    } else {
      assert a + b == b;
    }
  }

  // ---------------------------------------------------------------- split(sep)

  /** sep.join(parts) */
  function Join(parts: seq<string>, sep: char): string
  {
    if |parts| == 0 then []
    else if |parts| == 1 then parts[0]
    else parts[0] + [sep] + Join(parts[1..], sep)
  }

  /**
   * s.split(sep): the pieces between the separators, empty pieces kept;
   * joining them back with sep gives s, and no piece holds sep.
   */
  function Split(s: string, sep: char): (r: seq<string>)
    ensures |r| >= 1
    ensures Join(r, sep) == s
    ensures forall i :: 0 <= i < |r| ==> sep !in r[i]
    decreases |s|
  {
    if |s| == 0 then [""]
    else
      var rest := Split(s[1..], sep);
      if s[0] == sep then
        assert Join([""] + rest, sep) == [sep] + Join(rest, sep) by {
          assert ([""] + rest)[1..] == rest;
        }
        assert s == [sep] + s[1..];
        [""] + rest
      else
        var r := [[s[0]] + rest[0]] + rest[1..];
        assert r[1..] == rest[1..];
        assert s == [s[0]] + s[1..];
        assert Join(r, sep) == s by {
          if |rest| > 1 {
            assert Join(rest, sep) == rest[0] + [sep] + Join(rest[1..], sep);
            assert Join(r, sep) == ([s[0]] + rest[0]) + [sep] + Join(rest[1..], sep);
          }
        }
        assert forall i :: 1 <= i < |r| ==> r[i] == rest[i];
        r
  }

  /** A piece followed by the separator is split off as the first piece. */
  lemma {:induction false} SplitCons(a: string, b: string, sep: char)
    requires sep !in a
    ensures Split(a + [sep] + b, sep) == [a] + Split(b, sep)
    decreases |a|
  {
    if a == [] {
      assert a + [sep] + b == [sep] + b;
      assert ([sep] + b)[1..] == b;
    } else {
      var s := a + [sep] + b;
      assert s[0] == a[0] && s[1..] == a[1..] + [sep] + b;
      SplitCons(a[1..], b, sep);
      assert [a[0]] + a[1..] == a;
    }
  }

  /** A text without the separator is a single piece. */
  lemma {:induction false} SplitNone(a: string, sep: char)
    requires sep !in a
    ensures Split(a, sep) == [a]
    decreases |a|
  {
    if a != [] {
      SplitNone(a[1..], sep);
      assert [a[0]] + a[1..] == a;
    }
  }

  // ---------------------------------------------------------------- split()

  function Concat(parts: seq<string>): string
  {
    if parts == [] then [] else parts[0] + Concat(parts[1..])
  }

  /** s with every character of cs taken out. */
  function Remove(s: string, cs: set<char>): string
  {
    if s == [] then [] else (if s[0] in cs then [] else [s[0]]) + Remove(s[1..], cs)
  }

  /**
   * s.split() with no argument: the maximal runs of non-whitespace characters.
   * Every word is non-empty and free of whitespace; WordsSpell shows that
   * together they spell s without its whitespace.
   */
  function Words(s: string): (r: seq<string>)
    ensures forall i :: 0 <= i < |r| ==> r[i] != [] && NoneIn(r[i], Whitespace)
    ensures s != [] && s[0] !in Whitespace ==> r != [] && r[0][0] == s[0]
    decreases |s|
  {
    if s == [] then []
    else if s[0] in Whitespace then Words(s[1..])
    else
      var rest := Words(s[1..]);
      if |s| > 1 && s[1] !in Whitespace then
        var r := [[s[0]] + rest[0]] + rest[1..];
        assert forall i :: 1 <= i < |r| ==> r[i] == rest[i];
        r
      else
        [[s[0]]] + rest
  }

  /** The words, put back together, are s without its whitespace. */
  lemma {:induction false} WordsSpell(s: string)
    ensures Concat(Words(s)) == Remove(s, Whitespace)
    decreases |s|
  {
    if s != [] {
      WordsSpell(s[1..]);
      if s[0] !in Whitespace {
        var rest := Words(s[1..]);
        if |s| > 1 && s[1] !in Whitespace {
          var r := [[s[0]] + rest[0]] + rest[1..];
          assert r[1..] == rest[1..];
          assert Concat(rest) == rest[0] + Concat(rest[1..]);
          assert Concat(r) == [s[0]] + rest[0] + Concat(rest[1..]);
        } else {
          var r := [[s[0]]] + rest;
          assert r[1..] == rest;
        }
      }
    }
  }

  /** A whitespace-free word followed by whitespace (or by nothing) is the first word. */
  lemma {:induction false} WordsCons(a: string, b: string)
    requires a != [] && NoneIn(a, Whitespace)
    requires b == [] || b[0] in Whitespace
    ensures Words(a + b) == [a] + Words(b)
    decreases |a|
  {
    var s := a + b;
    assert s[0] == a[0] && s[1..] == a[1..] + b;
    if |a| == 1 {
      assert s[1..] == b;
      assert a == [a[0]];
    } else {
      WordsCons(a[1..], b);
      assert s[1] == a[1];
      var rest := Words(s[1..]);
      assert rest[0] == a[1..] && rest[1..] == Words(b);
      assert [a[0]] + a[1..] == a;
    }
  }

  lemma {:induction false} WordsSkip(pad: string, b: string)
    requires AllIn(pad, Whitespace)
    ensures Words(pad + b) == Words(b)
    decreases |pad|
  {
    if pad != [] {
      assert (pad + b)[0] == pad[0] && pad[0] in Whitespace;
      assert (pad + b)[1..] == pad[1..] + b;
      WordsSkip(pad[1..], b);
    } else {
      assert pad + b == b;
    }
  }

  // ---------------------------------------------------------------- rfind and slices

  /** s.rfind(c): the last index holding c, or -1 when there is none. */
  function RFind(s: string, c: char): (r: int)
    ensures -1 <= r < |s|
    ensures r >= 0 ==> s[r] == c
    ensures forall k :: r < k < |s| ==> s[k] != c
  {
    if |s| == 0 then -1
    else if s[|s| - 1] == c then |s| - 1
    else RFind(s[..|s| - 1], c)
  }

  /** rfind finds c at p when no c follows p. */
  lemma RFindAt(s: string, c: char, p: nat)
    requires p < |s| && s[p] == c && c !in s[p + 1..]
    ensures RFind(s, c) == p
  {
  }

  /** rfind gives -1 when c does not occur. */
  lemma RFindAbsent(s: string, c: char)
    requires c !in s
    ensures RFind(s, c) == -1
  {
  }

  /** How Python turns a slice bound i into a position of a sequence of length n. */
  function SliceBound(i: int, n: nat): (k: nat)
    ensures k <= n
    ensures 0 <= i <= n ==> k == i
    ensures i < 0 && i + n >= 0 ==> k == i + n
    ensures i > n ==> k == n
    ensures i + n < 0 ==> k == 0
  {
    var j := if i < 0 then i + n else i;
    if j < 0 then 0 else if j > n then n else j
  }

  /** s[i:j] with Python's rules: negative bounds count from the end, out-of-range bounds are clipped. */
  function Slice(s: string, i: int, j: int): (r: string)
    ensures 0 <= i <= j <= |s| ==> r == s[i..j]
    ensures 0 <= j <= i ==> r == []
  {
    var a := SliceBound(i, |s|);
    var b := SliceBound(j, |s|);
    if a < b then s[a..b] else []
  }

  // ---------------------------------------------------------------- digits and int()

  predicate IsDigit(c: char)
  {
    '0' <= c <= '9'
  }

  /** str.isdigit() on a Python 2 str: at least one character, all of them decimal digits. */
  predicate IsDigits(s: string)
  {
    |s| > 0 && forall i :: 0 <= i < |s| ==> IsDigit(s[i])
  }

  function DigitsValue(s: string): nat
    requires forall i :: 0 <= i < |s| ==> IsDigit(s[i])
  {
    if |s| == 0 then 0
    else
      assert IsDigit(s[|s| - 1]);
      DigitsValue(s[..|s| - 1]) * 10 + (s[|s| - 1] as int - '0' as int)
  }

  function DigitChar(d: nat): (c: char)
    requires d < 10
    ensures IsDigit(c) && c as int - '0' as int == d
  {
    ('0' as int + d) as char
  }

  /** str(n) for a natural number: its decimal digits, without leading zeros. */
  function Decimal(n: nat): (s: string)
    ensures IsDigits(s)
    ensures s[0] != '0' || n == 0
  {
    if n < 10 then [DigitChar(n)] else Decimal(n / 10) + [DigitChar(n % 10)]
  }

  /** str(n) for any integer. */
  function Str(n: int): string
  {
    if n < 0 then "-" + Decimal(-n) else Decimal(n)
  }

  lemma {:induction false} DecimalValue(n: nat)
    ensures DigitsValue(Decimal(n)) == n
  {
    if n >= 10 {
      var s := Decimal(n);
      assert s[..|s| - 1] == Decimal(n / 10);
      DecimalValue(n / 10);
    }
  }

  /**
   * int(s) for a Python 2 str in base 10: surrounding whitespace is ignored,
   * an optional sign may be followed by more whitespace, and what is left must
   * be a non-empty run of digits; anything else raises ValueError (None).
   */
  function ParseInt(s: string): Option<int>
  {
    ParseStripped(Strip(s, Whitespace))
  }

  /** int() once the surrounding whitespace is gone. */
  function ParseStripped(t: string): Option<int>
  {
    if |t| == 0 then None
    else if t[0] == '-' || t[0] == '+' then
      var u := LStrip(t[1..], Whitespace);
      if !IsDigits(u) then None
      else if t[0] == '-' then Some(-(DigitsValue(u) as int))
      else Some(DigitsValue(u))
    else if IsDigits(t) then Some(DigitsValue(t))
    else None
  }

  /** A digit string, with whitespace around it, is the integer it spells. */
  lemma ParseIntDigits(lead: string, d: string, trail: string)
    requires AllIn(lead, Whitespace) && AllIn(trail, Whitespace) && IsDigits(d)
    ensures ParseInt(lead + d + trail) == Some(DigitsValue(d))
  {
    assert Strip(lead + d + trail, Whitespace) == d by {
      assert IsDigit(d[0]) && IsDigit(d[|d| - 1]);
      StripPadded(lead, d, trail, Whitespace);
    }
    assert ParseStripped(d) == Some(DigitsValue(d)) by {
      assert IsDigit(d[0]);
    }
  }

  /** A minus sign before a digit string, with whitespace around both, negates it. */
  lemma ParseIntNegated(lead: string, d: string, trail: string)
    requires AllIn(lead, Whitespace) && AllIn(trail, Whitespace) && IsDigits(d)
    ensures ParseInt(lead + ("-" + d) + trail) == Some(-(DigitsValue(d) as int))
  {
    var t := "-" + d;
    assert t[|t| - 1] == d[|d| - 1] && IsDigit(d[|d| - 1]);
    StripPadded(lead, t, trail, Whitespace);
    NegatedDigits(d);
    ParseIntStripped(lead + t + trail, t);
  }

  lemma ParseIntStripped(s: string, t: string)
    requires Strip(s, Whitespace) == t
    ensures ParseInt(s) == ParseStripped(t)
  {
  }

  lemma NegatedDigits(d: string)
    requires IsDigits(d)
    ensures ParseStripped("-" + d) == Some(-(DigitsValue(d) as int))
  {
    var t := "-" + d;
    assert t[0] == '-' && t[1..] == d;
    assert LStrip(d, Whitespace) == d by {
      assert IsDigit(d[0]);
    }
    SignedDigits(t, d);
  }

  lemma SignedDigits(t: string, d: string)
    requires |t| > 0 && t[0] == '-' && IsDigits(d) && LStrip(t[1..], Whitespace) == d
    ensures ParseStripped(t) == Some(-(DigitsValue(d) as int))
  {
  }

  /** int() reads back what str() writes, whatever whitespace surrounds it. */
  lemma ParseIntStr(lead: string, n: int, trail: string)
    requires AllIn(lead, Whitespace) && AllIn(trail, Whitespace)
    ensures ParseInt(lead + Str(n) + trail) == Some(n)
  {
    if n < 0 {
      var d := Decimal(-n);
      assert Str(n) == "-" + d;
      ParseIntNegated(lead, d, trail);
      DecimalValue(-n);
    } else {
      var d := Decimal(n);
      assert Str(n) == d;
      ParseIntDigits(lead, d, trail);
      DecimalValue(n);
    }
  }

  /** The empty text is not an integer: int('') raises ValueError. */
  lemma ParseIntEmpty()
    ensures ParseInt("") == None
  {
  }
}
