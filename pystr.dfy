/** The few Python string operations the readers and savers rely on, on `seq<char>`. */
module PyStr {
  import opened Wrappers

  /** `str.isspace()` for one character: the separators `str.split()` (no argument) splits on. */
  predicate IsSpace(c: char) {
    c == ' ' || c == '\t' || c == '\n' || c == '\r' || c == '\U{000B}' || c == '\U{000C}'
    || ('\U{001C}' <= c <= '\U{001F}') || c == '\U{0085}' || c == '\U{00A0}' || c == '\U{1680}'
    || ('\U{2000}' <= c <= '\U{200A}') || c == '\U{2028}' || c == '\U{2029}'
    || c == '\U{202F}' || c == '\U{205F}' || c == '\U{3000}'
  }

  /** A non-empty string with no whitespace: what `str.split()` returns as one token. */
  predicate IsToken(s: string) {
    |s| > 0 && forall i :: 0 <= i < |s| ==> !IsSpace(s[i])
  }

  /** `s.startswith(p)`. */
  predicate StartsWith(s: string, p: string) {
    |p| <= |s| && s[..|p|] == p
  }

  /** `s.endswith(p)`. */
  predicate EndsWith(s: string, p: string) {
    |p| <= |s| && s[|s| - |p|..] == p
  }

  /** Length of the leading run of non-whitespace characters. */
  function TokenLen(s: string): (n: nat)
    ensures n <= |s|
    ensures forall i :: 0 <= i < n ==> !IsSpace(s[i])
    ensures n < |s| ==> IsSpace(s[n])
  {
    if s == [] || IsSpace(s[0]) then 0 else 1 + TokenLen(s[1..])
  }

  /** `s.split()`: the maximal runs of non-whitespace characters, in order. */
  function SplitWs(s: string): (r: seq<string>)
    ensures forall i :: 0 <= i < |r| ==> IsToken(r[i])
    decreases |s|
  {
    if s == [] then []
    else if IsSpace(s[0]) then SplitWs(s[1..])
    else
      var n := TokenLen(s);
      [s[..n]] + SplitWs(s[n..])
  }

  /** Leading whitespace is skipped by `split()`. */
  lemma {:induction false} SplitWsSkipsSpace(w: string, s: string)
    requires forall i :: 0 <= i < |w| ==> IsSpace(w[i])
    ensures SplitWs(w + s) == SplitWs(s)
    decreases |w|
  {
    if w != [] {
      assert (w + s)[0] == w[0];
      assert (w + s)[1..] == w[1..] + s;
      SplitWsSkipsSpace(w[1..], s);
    } else {
      assert w + s == s;
    }
  }

  /** A token followed by one separator splits into that token and the split of the rest. */
  lemma SplitWsToken(t: string, c: char, s: string)
    requires IsToken(t) && IsSpace(c)
    ensures SplitWs(t + [c] + s) == [t] + SplitWs([c] + s)
  {
    var u := t + [c] + s;
    TokenLenOfToken(t, [c] + s);
    assert u == t + ([c] + s);
    assert u[..|t|] == t;
    assert u[|t|..] == [c] + s;
  }

  lemma {:induction false} TokenLenOfToken(t: string, s: string)
    requires IsToken(t)
    requires s == [] || IsSpace(s[0])
    ensures TokenLen(t + s) == |t|
    decreases |t|
  {
    if |t| > 1 {
      assert (t + s)[1..] == t[1..] + s;
      TokenLenOfToken(t[1..], s);
    } else {
      assert (t + s)[1..] == s;
    }
  }

  /** `sep.join(parts)`. */
  function Join(sep: string, parts: seq<string>): (r: string)
    ensures parts == [] ==> r == []
    ensures |parts| == 1 ==> r == parts[0]
  {
    if parts == [] then []
    else if |parts| == 1 then parts[0]
    else parts[0] + sep + Join(sep, parts[1..])
  }

  /**
   * Tokens joined by single spaces, then a whitespace character, split back into the same
   * tokens followed by the split of what comes after.
   */
  lemma {:induction false} SplitWsJoin(ts: seq<string>, c: char, rest: string)
    requires |ts| >= 1 && (forall i :: 0 <= i < |ts| ==> IsToken(ts[i])) && IsSpace(c)
    ensures SplitWs(Join(" ", ts) + ([c] + rest)) == ts + SplitWs(rest)
    decreases |ts|
  {
    var x := [c] + rest;
    if |ts| == 1 {
      assert Join(" ", ts) + x == ts[0] + [c] + rest;
      SplitWsWord(ts[0], c, rest);
    } else {
      var t, j := ts[0], Join(" ", ts[1..]);
      JoinCons(ts);
      Assoc3(t, j, x);
      SplitWsWord(t, ' ', j + x);
      SplitWsJoin(ts[1..], c, rest);
      assert ts == [t] + ts[1..];
    }
  }

  /** Joining two non-empty lists is joining each, with one more separator between. */
  lemma {:induction false} JoinAppend(a: seq<string>, b: seq<string>)
    requires |a| >= 1 && |b| >= 1
    ensures Join(" ", a + b) == Join(" ", a) + " " + Join(" ", b)
    decreases |a|
  {
    var c := a + b;
    JoinCons(c);
    if |a| == 1 {
      assert c[1..] == b;
    } else {
      assert c[1..] == a[1..] + b;
      JoinAppend(a[1..], b);
      JoinCons(a);
      StringAssoc4(a[0], Join(" ", a[1..]), Join(" ", b));
    }
  }

  lemma StringAssoc4(x: string, y: string, z: string)
    ensures x + " " + (y + " " + z) == (x + " " + y) + " " + z
  {
  }

  lemma JoinCons(ts: seq<string>)
    requires |ts| >= 2
    ensures Join(" ", ts) == ts[0] + " " + Join(" ", ts[1..])
  {
  }

  lemma Assoc3(a: string, j: string, x: string)
    ensures (a + " " + j) + x == a + [' '] + (j + x)
  {
  }

  /** A token and a whitespace character in front of `s` add that token in front of the split of `s`. */
  lemma SplitWsWord(t: string, c: char, s: string)
    requires IsToken(t) && IsSpace(c)
    ensures SplitWs(t + [c] + s) == [t] + SplitWs(s)
  {
    SplitWsToken(t, c, s);
    SplitWsSkipsSpace([c], s);
  }

  /** Index of the first occurrence of `c` in `s`. */
  function IndexOf(s: string, c: char): (i: nat)
    requires c in s
    ensures i < |s| && s[i] == c && c !in s[..i]
  {
    if s[0] == c then 0 else 1 + IndexOf(s[1..], c)
  }

  /** `s.split(c)` for a one-character separator: always at least one part, empty parts kept. */
  function Split(s: string, c: char): (r: seq<string>)
    ensures |r| >= 1
    ensures forall i :: 0 <= i < |r| ==> c !in r[i]
    ensures Join([c], r) == s
    ensures c !in s ==> r == [s]
    decreases |s|
  {
    if c !in s then [s]
    else
      var i := IndexOf(s, c);
      var rest := Split(s[i + 1..], c);
      assert s == s[..i] + [c] + s[i + 1..];
      [s[..i]] + rest
  }

  /** With the separator present, the first part is the text before its first occurrence. */
  lemma SplitFirst(s: string, c: char)
    requires c in s
    ensures |Split(s, c)| >= 2
    ensures Split(s, c)[0] == s[..IndexOf(s, c)]
    ensures Split(s, c)[1] == Split(s[IndexOf(s, c) + 1..], c)[0]
  {
  }

  /** The first part of `s.split(c)` is the text before the first `c`, or all of `s`. */
  lemma SplitHead(s: string, c: char)
    ensures Split(s, c)[0] == if c in s then s[..IndexOf(s, c)] else s
  {
    if c in s {
      SplitFirst(s, c);
    }
  }

  /** `s.split(c)` has exactly two parts when `s` holds exactly one `c`: the text before it and after it. */
  lemma SplitTwo(s: string, c: char)
    ensures |Split(s, c)| == 2 <==> c in s && c !in s[IndexOf(s, c) + 1..]
    ensures |Split(s, c)| == 2 ==> Split(s, c) == [s[..IndexOf(s, c)], s[IndexOf(s, c) + 1..]]
  {
    if c in s {
      var i := IndexOf(s, c);
      var rest := s[i + 1..];
      assert Split(s, c) == [s[..i]] + Split(rest, c);
      if c in rest {
        SplitFirst(rest, c);
      }
    }
  }

  /** `p in s` for strings: `p` occurs in `s` as a substring. */
  predicate Contains(s: string, p: string)
    decreases |s|
  {
    StartsWith(s, p) || (s != [] && Contains(s[1..], p))
  }

  /** Whatever surrounds it, a string contains `p` when `p` is written in it. */
  lemma {:induction false} ContainsInfix(a: string, p: string, b: string)
    ensures Contains(a + p + b, p)
    decreases |a|
  {
    var s := a + p + b;
    if a == [] {
      assert s == p + b;
      assert s[..|p|] == p;
    } else {
      assert s[1..] == a[1..] + p + b;
      ContainsInfix(a[1..], p, b);
    }
  }

  /** The `ValueError` `int(s)` raises for a string that is not a decimal integer. */
  function IntError(s: string): Error {
    ValueError("invalid literal for int() with base 10: '" + s + "'")
  }

  /** `int(s)`. */
  function PyInt(s: string): Result<int> {
    match ParseInt(s)
    case Some(v) => Success(v)
    case None => Failure(IntError(s))
  }

  function DigitChar(d: nat): (c: char)
    requires d < 10
  {
    ('0' as int + d) as char
  }

  predicate IsDigit(c: char) {
    '0' <= c <= '9'
  }

  function DigitValue(c: char): (d: nat)
    requires IsDigit(c)
    ensures d < 10
  {
    (c as int - '0' as int) as nat
  }

  /** Decimal digits of a natural number, no leading zeros. */
  function NatToString(n: nat): (s: string)
    ensures |s| >= 1
    ensures forall i :: 0 <= i < |s| ==> IsDigit(s[i])
  {
    if n < 10 then [DigitChar(n)] else NatToString(n / 10) + [DigitChar(n % 10)]
  }

  /** `str(n)` / `f"{n}"` for an integer. */
  function IntToString(n: int): (s: string)
    ensures IsToken(s)
  {
    var r := if n < 0 then "-" + NatToString(-n) else NatToString(n);
    assert forall i :: 0 <= i < |r| ==> r[i] == '-' || IsDigit(r[i]);
    r
  }

  /** The value of a string of decimal digits. */
  function DigitsValue(s: string): (v: nat)
    requires forall i :: 0 <= i < |s| ==> IsDigit(s[i])
  {
    if s == [] then 0 else DigitsValue(s[..|s| - 1]) * 10 + DigitValue(s[|s| - 1])
  }

  predicate AllDigits(s: string) {
    |s| >= 1 && forall i :: 0 <= i < |s| ==> IsDigit(s[i])
  }

  /** `int(s)` on a string without surrounding whitespace: optional sign, then decimal digits. */
  function ParseIntToken(s: string): (r: Option<int>)
    ensures r.Some? <==> (AllDigits(s) || (|s| >= 2 && (s[0] == '-' || s[0] == '+') && AllDigits(s[1..])))
  {
    if AllDigits(s) then Some(DigitsValue(s))
    else if |s| >= 2 && s[0] == '-' && AllDigits(s[1..]) then Some(0 - DigitsValue(s[1..]) as int)
    else if |s| >= 2 && s[0] == '+' && AllDigits(s[1..]) then Some(DigitsValue(s[1..]))
    else None
  }

  /** `s.strip()`: drop leading and trailing whitespace. */
  function Strip(s: string): (r: string)
    ensures |r| <= |s|
    ensures r != [] ==> !IsSpace(r[0]) && !IsSpace(r[|r| - 1])
    decreases |s|
  {
    if s == [] then []
    else if IsSpace(s[0]) then Strip(s[1..])
    else if IsSpace(s[|s| - 1]) then Strip(s[..|s| - 1])
    else s
  }

  /** Splitting on whitespace ignores the whitespace `strip()` removes. */
  lemma {:induction false} SplitWsStrip(s: string)
    ensures SplitWs(Strip(s)) == SplitWs(s)
    decreases |s|
  {
    if s != [] {
      if IsSpace(s[0]) {
        SplitWsStrip(s[1..]);
      } else if IsSpace(s[|s| - 1]) {
        var p := s[..|s| - 1];
        SplitWsStrip(p);
        assert s == p + [s[|s| - 1]];
        SplitWsDropSpace(p, s[|s| - 1]);
      }
    }
  }

  /** A trailing whitespace character adds nothing to the split. */
  lemma {:induction false} SplitWsDropSpace(s: string, c: char)
    requires IsSpace(c)
    ensures SplitWs(s + [c]) == SplitWs(s)
    decreases |s|
  {
    var u := s + [c];
    if s == [] {
      assert u[1..] == [];
    } else if IsSpace(s[0]) {
      assert u[0] == s[0] && u[1..] == s[1..] + [c];
      SplitWsDropSpace(s[1..], c);
    } else {
      var n := TokenLen(s);
      TokenLenAppend(s, c);
      assert u[0] == s[0];
      assert u[..n] == s[..n];
      assert u[n..] == s[n..] + [c];
      SplitWsDropSpace(s[n..], c);
    }
  }

  lemma {:induction false} TokenLenAppend(s: string, c: char)
    requires IsSpace(c)
    ensures TokenLen(s + [c]) == TokenLen(s)
    decreases |s|
  {
    var u := s + [c];
    if s != [] {
      assert u[0] == s[0];
      if !IsSpace(s[0]) {
        assert u[1..] == s[1..] + [c];
        TokenLenAppend(s[1..], c);
      }
    }
  }

  /** `int(s)`: Python ignores surrounding whitespace. */
  function ParseInt(s: string): Option<int> {
    ParseIntToken(Strip(s))
  }

  lemma {:induction false} NatToStringRoundTrip(n: nat)
    ensures DigitsValue(NatToString(n)) == n
  {
    if n >= 10 {
      var s, p := NatToString(n), NatToString(n / 10);
      assert s[..|s| - 1] == p;
      NatToStringRoundTrip(n / 10);
      assert DigitsValue(s) == DigitsValue(p) * 10 + n % 10;
    }
  }

  /** Reading back what `str(n)` writes gives `n`. */
  lemma IntToStringRoundTrip(n: int)
    ensures ParseIntToken(IntToString(n)) == Some(n)
    ensures ParseInt(IntToString(n)) == Some(n)
  {
    var s := IntToString(n);
    if n < 0 {
      var d := NatToString(-n);
      assert s == "-" + d;
      assert s[1..] == d;
      NatToStringRoundTrip(-n);
      assert !IsDigit(s[0]);
      assert !AllDigits(s);
      assert ParseIntToken(s) == Some(n);
    } else {
      NatToStringRoundTrip(n);
      assert ParseIntToken(s) == Some(n);
    }
    StripToken(s);
  }

  lemma StripToken(s: string)
    requires IsToken(s)
    ensures Strip(s) == s
  {
  }
}
