/** Public water system ids: the sheets and the service-area layer write them
    with a state prefix ("UTAH01234", "utahz1234"); the pipeline lower-cases
    them, strips the prefix letters from both ends and reads the rest as an
    integer. */
module Pwsid {
  import opened Options
  import opened Seqs
  import opened Text
  import opened Frames

  /** The letters stripped from sheet ids, `str.strip("utah")`. */
  const SheetStrip: set<char> := {'u', 't', 'a', 'h'}

  /** The letters stripped from service-area ids, `str.strip("utahz")`. */
  const LayerStrip: set<char> := {'u', 't', 'a', 'h', 'z'}

  /** The range of the 64-bit integers `astype(int)` produces. */
  const Int64Min: int := -0x8000_0000_0000_0000
  const Int64Max: int := 0x7fff_ffff_ffff_ffff

  /** `s.lower().strip(cs)` read as a 64-bit integer, or `None` where
      `astype(int)` raises. */
  function NormalizeId(s: string, cs: set<char>): (r: Option<int>)
    ensures r.Some? ==> Int64Min <= r.value <= Int64Max
  {
    match ParseInt(Strip(Lower(s), cs))
    case Some(v) => if Int64Min <= v <= Int64Max then Some(v) else None
    case None => None
  }

  /** An id without a digit never normalises: it is exactly what the
      "no digit" report is there to catch before the cast. */
  lemma NormalizeNeedsDigit(s: string, cs: set<char>)
    ensures NormalizeId(s, cs).Some? ==> HasDigit(s)
  {
    var l := Lower(s);
    var t := Strip(l, cs);
    if NormalizeId(s, cs).Some? {
      assert ParseInt(t).Some?;
      ParseIntNeedsDigit(t);
      var i :| 0 <= i < |t| && IsDigit(t[i]);
      StrippedFrom(l, cs, t[i]);
      var j :| 0 <= j < |l| && l[j] == t[i];
      assert IsDigit(s[j]);
    }
  }

  /** Lower-casing and stripping letters never removes or reorders a digit. */
  lemma NormalizeKeepsDigits(s: string, cs: set<char>)
    requires forall c :: c in cs ==> !IsDigit(c)
    ensures Digits(Strip(Lower(s), cs)) == Digits(s)
  {
    StripKeeps(Lower(s), cs, IsDigit);
    LowerKeepsDigits(s);
  }

  lemma {:induction false} LowerKeepsDigits(s: string)
    ensures Digits(Lower(s)) == Digits(s)
  {
    if s != [] {
      LowerKeepsDigits(s[1..]);
      assert Lower(s) == [Lower(s)[0]] + Lower(s[1..]);
      assert Lower(s)[0] == LowerChar(s[0]);
      if IsDigit(s[0]) {
        assert Lower(s)[0] == s[0];
      }
    }
  }

  /** An id written as letters that are all stripped, followed by digits,
      normalises to the value of those digits, whatever the case of the letters. */
  lemma PrefixedId(prefix: string, d: string, cs: set<char>)
    requires forall i :: 0 <= i < |prefix| ==> LowerChar(prefix[i]) in cs
    requires forall c :: c in cs ==> !IsDigit(c)
    requires d != [] && AllDigits(d) && DigitsValue(d) <= Int64Max
    ensures NormalizeId(prefix + d, cs) == Some(DigitsValue(d))
  {
    StripToDigits(prefix, d, cs);
    NormalizeDigits(prefix + d, d, cs);
  }

  /** Lower-casing and stripping leave exactly the digits. */
  lemma StripToDigits(prefix: string, d: string, cs: set<char>)
    requires forall i :: 0 <= i < |prefix| ==> LowerChar(prefix[i]) in cs
    requires forall c :: c in cs ==> !IsDigit(c)
    requires d != [] && AllDigits(d)
    ensures Strip(Lower(prefix + d), cs) == d
  {
    var lp := Lower(prefix);
    LowerKeepsDigitSuffix(prefix, d);
    assert forall i :: 0 <= i < |lp| ==> lp[i] == LowerChar(prefix[i]);
    assert d[0] !in cs;
    StripLeftPrefix(lp, d, cs);
    StripRightDigits(d, cs);
  }

  lemma NormalizeDigits(s: string, d: string, cs: set<char>)
    requires Strip(Lower(s), cs) == d
    requires d != [] && AllDigits(d) && DigitsValue(d) <= Int64Max
    ensures NormalizeId(s, cs) == Some(DigitsValue(d))
  {
    ParseDigits(d);
  }

  lemma LowerKeepsDigitSuffix(prefix: string, d: string)
    requires AllDigits(d)
    ensures Lower(prefix + d) == Lower(prefix) + d
  {
    var l := Lower(prefix + d);
    forall i | 0 <= i < |l| ensures l[i] == (Lower(prefix) + d)[i] {
      if i >= |prefix| {
        assert (prefix + d)[i] == d[i - |prefix|];
      } else {
        assert (prefix + d)[i] == prefix[i];
      }
    }
  }

  lemma StripRightDigits(d: string, cs: set<char>)
    requires forall c :: c in cs ==> !IsDigit(c)
    requires d != [] && AllDigits(d)
    ensures StripRight(d, cs) == d
  {
    assert d[|d| - 1] !in cs;
  }

  /** `lstrip` removes a leading run of stripped characters and stops at the first other one. */
  lemma {:induction false} StripLeftPrefix(p: string, d: string, cs: set<char>)
    requires forall i :: 0 <= i < |p| ==> p[i] in cs
    requires d != [] && d[0] !in cs
    ensures StripLeft(p + d, cs) == d
  {
    if p != [] {
      assert (p + d)[1..] == p[1..] + d;
      StripLeftPrefix(p[1..], d, cs);
    } else {
      assert p + d == d;
    }
  }

  lemma Value1234()
    ensures AllDigits("1234") && DigitsValue("1234") == 1234
  {
    assert "1234"[..3] == "123" && "123"[..2] == "12" && "12"[..1] == "1" && "1"[..0] == "";
  }

  /** The sheet spelling with the state name in mixed case. */
  lemma SheetIdExample()
    ensures NormalizeId("Utah1234", SheetStrip) == Some(1234)
  {
    Value1234();
    assert "Utah1234" == "Utah" + "1234";
    PrefixedId("Utah", "1234", SheetStrip);
  }

  /** The layer spelling with a trailing "z" after the state name. */
  lemma LayerIdExample()
    ensures NormalizeId("UTAHZ1234", LayerStrip) == Some(1234)
  {
    Value1234();
    assert "UTAHZ1234" == "UTAHZ" + "1234";
    PrefixedId("UTAHZ", "1234", LayerStrip);
  }

  /** The layer spelling does not normalise with the sheet letters: the "z" stays. */
  lemma LayerIdNeedsZ()
    ensures NormalizeId("UTAHZ1234", SheetStrip) == None
  {
    LowerUtahz();
    StripLeftPrefix("utah", "z1234", SheetStrip);
    assert StripRight("z1234", SheetStrip) == "z1234";
    LetterNotWhitespace('z');
    ParseIntRejects("z1234");
  }

  lemma LowerUtahz()
    ensures Lower("UTAHZ1234") == "utah" + "z1234"
  {
    var l := Lower("UTAHZ1234");
    assert forall i :: 0 <= i < 9 ==> l[i] == LowerChar("UTAHZ1234"[i]);
  }

  lemma LetterNotWhitespace(c: char)
    requires IsDigit(c) || 'a' <= c <= 'z'
    ensures c !in Whitespace
  {
  }

  /** `str.match(r"^[^\d]*$")`: the id holds no digit at all. */
  predicate NoDigit(s: string) { !HasDigit(s) }

  /** A column of ids cast to integers: a text cell normalises or fails the
      whole cast; a null or non-text cell cannot be lower-cased and fails too. */
  function NormalizeCell(cs: set<char>): Cell -> Result<Cell>
  {
    (c: Cell) =>
      if c.Str? && NormalizeId(c.s, cs).Some? then Ok(Int(NormalizeId(c.s, cs).value))
      else Err(NotAnInteger(Render(c)))
  }

  /** A cell that does not normalise fails the cast as no integer. */
  lemma NormalizeCellError(cs: set<char>, c: Cell)
    ensures NormalizeCell(cs)(c).Err? ==> NormalizeCell(cs)(c) == Err(NotAnInteger(Render(c)))
  {
  }

  /** A cell that normalises was an id with a digit and yields an integer in range. */
  lemma NormalizeCellSound(cs: set<char>, c: Cell)
    ensures NormalizeCell(cs)(c).Ok? ==>
      c.Str? && HasDigit(c.s) && NormalizeCell(cs)(c).value.Int? &&
      Int64Min <= NormalizeCell(cs)(c).value.i <= Int64Max
  {
    if c.Str? {
      NormalizeNeedsDigit(c.s, cs);
    }
  }
}
