/** The Python string operations the pipeline relies on, on the ASCII range:
    `str.lower()`, `str.strip(chars)`, `str(n)` for an integer and `int(text)`. */
module Text {
  import opened Options
  import opened Seqs

  predicate IsDigit(c: char) { '0' <= c <= '9' }

  predicate IsUpper(c: char) { 'A' <= c <= 'Z' }

  /** Some character of `s` is a decimal digit (the negation of the regex `^[^\d]*$`). */
  predicate HasDigit(s: string) { exists i :: 0 <= i < |s| && IsDigit(s[i]) }

  /** The digits of `s`, in order. */
  function Digits(s: string): string { Filter(s, IsDigit) }

  function LowerChar(c: char): char
  {
    if IsUpper(c) then (c as int + 32) as char else c
  }

  /** `str.lower()`: same length, each upper-case letter replaced by its
      lower-case letter, every other character kept. */
  function Lower(s: string): (r: string)
    ensures |r| == |s|
    ensures forall i :: 0 <= i < |s| && IsUpper(s[i]) ==> r[i] == (s[i] as int + 32) as char
    ensures forall i :: 0 <= i < |r| ==> !IsUpper(r[i])
    ensures forall i :: 0 <= i < |s| && !IsUpper(s[i]) ==> r[i] == s[i]
    ensures forall i :: 0 <= i < |s| ==> (IsDigit(r[i]) <==> IsDigit(s[i]))
  {
    seq(|s|, i requires 0 <= i < |s| => LowerChar(s[i]))
  }

  /** `str.lstrip(chars)`: the longest suffix of `s` that does not start with a character of `cs`. */
  function StripLeft(s: string, cs: set<char>): (r: string)
    ensures |r| <= |s| && r == s[|s| - |r|..]
    ensures forall i :: 0 <= i < |s| - |r| ==> s[i] in cs
    ensures r == [] || r[0] !in cs
  {
    if s != [] && s[0] in cs then StripLeft(s[1..], cs) else s
  }

  /** `str.rstrip(chars)`: the longest prefix of `s` that does not end with a character of `cs`. */
  function StripRight(s: string, cs: set<char>): (r: string)
    ensures |r| <= |s| && r == s[..|r|]
    ensures forall i :: |r| <= i < |s| ==> s[i] in cs
    ensures r == [] || r[|r| - 1] !in cs
  {
    if s != [] && s[|s| - 1] in cs then StripRight(s[..|s| - 1], cs) else s
  }

  /** `str.strip(chars)`: removes characters of `cs` from both ends. */
  function Strip(s: string, cs: set<char>): (r: string)
    ensures |r| <= |s|
    ensures r == [] || (r[0] !in cs && r[|r| - 1] !in cs)
  {
    StripRight(StripLeft(s, cs), cs)
  }

  /** Stripping removes nothing but characters of `cs`: every character of
      `s` outside `cs` is still there. */
  lemma StripRemovesOnly(s: string, cs: set<char>)
    ensures forall i :: 0 <= i < |s| && s[i] !in cs ==> s[i] in Strip(s, cs)
  {
    var l := StripLeft(s, cs);
    var r := StripRight(l, cs);
    var k := |s| - |l|;
    forall i | 0 <= i < |s| && s[i] !in cs ensures s[i] in r {
      assert k <= i && s[i] == l[i - k];
      assert i - k < |r| && r[i - k] == s[i];
    }
  }

  /** Stripping keeps, in order, every character that a mask `p` disjoint from
      `cs` selects: in particular it never removes a digit when `cs` holds none. */
  lemma StripKeeps(s: string, cs: set<char>, p: char -> bool)
    requires forall c :: p(c) ==> c !in cs
    ensures Filter(Strip(s, cs), p) == Filter(s, p)
  {
    StripLeftKeeps(s, cs, p);
    StripRightKeeps(StripLeft(s, cs), cs, p);
  }

  lemma StripLeftKeeps(s: string, cs: set<char>, p: char -> bool)
    requires forall c :: p(c) ==> c !in cs
    ensures Filter(StripLeft(s, cs), p) == Filter(s, p)
  {
    var l := StripLeft(s, cs);
    var k := |s| - |l|;
    var front := s[..k];
    assert s == front + l;
    forall x | x in front ensures !p(x) {
      var i :| 0 <= i < |front| && front[i] == x;
      assert front[i] == s[i] && s[i] in cs;
    }
    FilterNone(front, p);
    FilterConcat(front, l, p);
  }

  lemma StripRightKeeps(s: string, cs: set<char>, p: char -> bool)
    requires forall c :: p(c) ==> c !in cs
    ensures Filter(StripRight(s, cs), p) == Filter(s, p)
  {
    var r := StripRight(s, cs);
    assert s == r + s[|r|..];
    FilterNone(s[|r|..], p);
    FilterConcat(r, s[|r|..], p);
  }

  function DigitChar(d: nat): (c: char)
    requires d < 10
    ensures IsDigit(c)
  {
    ('0' as int + d) as char
  }

  function DigitOf(c: char): (d: nat)
    requires IsDigit(c)
    ensures d < 10 && DigitChar(d) == c
  {
    c as int - '0' as int
  }

  predicate AllDigits(s: string) { forall i :: 0 <= i < |s| ==> IsDigit(s[i]) }

  /** The decimal value of a digit string, most significant digit first. */
  function DigitsValue(s: string): nat
    requires AllDigits(s)
  {
    if s == [] then 0 else 10 * DigitsValue(s[..|s| - 1]) + DigitOf(s[|s| - 1])
  }

  /** The decimal digits of `n`: at least one digit and no leading zero. */
  function NatDigits(n: nat): (r: string)
    ensures |r| >= 1 && AllDigits(r)
    ensures |r| > 1 ==> r[0] != '0'
  {
    if n < 10 then [DigitChar(n)] else NatDigits(n / 10) + [DigitChar(n % 10)]
  }

  /** `str(n)` for an integer. */
  function Decimal(n: int): (r: string)
    ensures |r| >= 1
    ensures n < 0 <==> r[0] == '-'
  {
    if n < 0 then "-" + NatDigits(-n) else NatDigits(n)
  }

  /** The whitespace `int()` tolerates around a number (its ASCII part). */
  const Whitespace: set<char> := {' ', '\t', '\n', '\r', '\U{000B}', '\U{000C}', '\U{001C}', '\U{001D}', '\U{001E}', '\U{001F}'}

  /** `int(text)` in base 10: optional surrounding whitespace, an optional sign,
      then one or more ASCII digits; anything else is refused, modelled as
      `None`. Python also accepts single underscores between digits, which
      this definition refuses. */
  function ParseInt(s: string): Option<int>
  {
    var t := Strip(s, Whitespace);
    if t != [] && (t[0] == '-' || t[0] == '+') && t[1..] != [] && AllDigits(t[1..]) then
      var v: int := DigitsValue(t[1..]);
      Some(if t[0] == '-' then -v else v)
    else if t != [] && AllDigits(t) then
      Some(DigitsValue(t))
    else
      None
  }

  /** `int()` only succeeds on text holding a digit. */
  lemma ParseIntNeedsDigit(s: string)
    ensures ParseInt(s).Some? ==> HasDigit(s)
  {
    var t := Strip(s, Whitespace);
    if t != [] && (t[0] == '-' || t[0] == '+') && t[1..] != [] && AllDigits(t[1..]) {
      assert IsDigit(t[1..][0]) && t[1] in t;
      StrippedDigit(s, t[1]);
    } else if t != [] && AllDigits(t) {
      assert IsDigit(t[0]) && t[0] in t;
      StrippedDigit(s, t[0]);
    }
  }

  lemma StrippedDigit(s: string, c: char)
    requires c in Strip(s, Whitespace) && IsDigit(c)
    ensures HasDigit(s)
  {
    StrippedFrom(s, Whitespace, c);
    var i :| 0 <= i < |s| && s[i] == c;
  }

  /** Stripping only removes characters: whatever is left came from `s`. */
  lemma StrippedFrom(s: string, cs: set<char>, c: char)
    requires c in Strip(s, cs)
    ensures c in s
  {
    var l := StripLeft(s, cs);
    var r := StripRight(l, cs);
    var j :| 0 <= j < |r| && r[j] == c;
    assert r[j] == l[j];
    assert l[j] == s[|s| - |l| + j];
  }

  lemma {:induction false} NatDigitsValue(n: nat)
    ensures DigitsValue(NatDigits(n)) == n
  {
    if n >= 10 {
      NatDigitsValue(n / 10);
      var s := NatDigits(n);
      assert s[..|s| - 1] == NatDigits(n / 10);
    }
  }

  lemma StripUntouched(s: string, cs: set<char>)
    requires s != [] && s[0] !in cs && s[|s| - 1] !in cs
    ensures Strip(s, cs) == s
  {
  }

  lemma DigitNotWhitespace(c: char)
    requires IsDigit(c)
    ensures c !in Whitespace
  {
  }

  /** A plain digit string reads as its decimal value. */
  lemma ParseDigits(d: string)
    requires d != [] && AllDigits(d)
    ensures ParseInt(d) == Some(DigitsValue(d))
  {
    DigitNotWhitespace(d[0]);
    DigitNotWhitespace(d[|d| - 1]);
    StripUntouched(d, Whitespace);
    assert d[0] != '-' && d[0] != '+';
  }

  /** Text that starts with something other than whitespace, a digit or a
      sign does not read as an integer. */
  lemma ParseIntRejects(s: string)
    requires s != [] && s[0] !in Whitespace && !IsDigit(s[0]) && s[0] != '-' && s[0] != '+'
    ensures ParseInt(s) == None
  {
    assert StripLeft(s, Whitespace) == s;
    var t := StripRight(s, Whitespace);
    if t != [] {
      assert t[0] == s[0];
      assert !AllDigits(t);
    }
  }


  /** Parsing what `str` renders gives the integer back. */
  lemma DecimalRoundTrip(n: int)
    ensures ParseInt(Decimal(n)) == Some(n)
  {
    var s := Decimal(n);
    var m := if n < 0 then -n else n;
    var d := NatDigits(m);
    assert s[|s| - 1] == d[|d| - 1];
    StripUntouched(s, Whitespace);
    NatDigitsValue(m);
    if n < 0 {
      assert s[1..] == d;
    }
  }

  function Pow10(k: nat): (p: nat)
    ensures p >= 1
  {
    if k == 0 then 1 else 10 * Pow10(k - 1)
  }

  lemma {:induction false} DigitsValueBound(s: string)
    requires AllDigits(s)
    ensures DigitsValue(s) < Pow10(|s|)
  {
    if s != [] {
      DigitsValueBound(s[..|s| - 1]);
    }
  }

  lemma {:induction false} NatDigitsLength(n: nat, k: nat)
    requires k >= 1 && n < Pow10(k)
    ensures |NatDigits(n)| <= k
  {
    if n >= 10 {
      NatDigitsLength(n / 10, k - 1);
    }
  }

  /** The integer `int()` reads from `t` never takes more characters to write
      than `t` has: reading back at most five characters writes at most five. */
  lemma ParseIntShrinks(t: string)
    requires ParseInt(t).Some?
    ensures |Decimal(ParseInt(t).value)| <= |t|
  {
    var u := Strip(t, Whitespace);
    var v := ParseInt(t).value;
    if u != [] && (u[0] == '-' || u[0] == '+') && u[1..] != [] && AllDigits(u[1..]) {
      var n: nat := DigitsValue(u[1..]);
      DigitsShrink(u[1..]);
      assert v == if u[0] == '-' then -(n as int) else n;
      assert |Decimal(v)| <= 1 + |NatDigits(n)|;
    } else {
      assert v == DigitsValue(u);
      DigitsShrink(u);
    }
  }

  /** A digit string's value is written with at most as many digits. */
  lemma DigitsShrink(d: string)
    requires AllDigits(d) && d != []
    ensures |NatDigits(DigitsValue(d))| <= |d|
  {
    DigitsValueBound(d);
    NatDigitsLength(DigitsValue(d), |d|);
  }
}
