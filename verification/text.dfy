/** The string handling the note forms rely on: subcategory normalisation
    (`strip()` followed by `capitalize()`), the decimal rendering of ids, and
    the parser that recovers an id from a `"... (id=N)"` label
    (`split("id=")[-1]`, then `strip(")")`, then `int`).
    Only ASCII letters and ASCII whitespace are given their Python meaning.
    Most string functions carry no contracts of their own. Each group of
    them is followed by the lemmas the normalisation and the label parse
    need, stated for all inputs where the forms can pass any text and for
    rendered ids where they only ever see those. */
module Text {
  import opened Base

  /* ---------------------------------------------------------------------
     Characters
     --------------------------------------------------------------------- */

  /** The ASCII characters Python's `str.isspace` accepts: tab, line feed,
      vertical tab, form feed, carriage return, the separators 0x1C-0x1F and
      space. */
  predicate IsSpace(c: char) {
    c == ' ' || 9 <= c as int <= 13 || 28 <= c as int <= 31
  }

  predicate IsLower(c: char) { 'a' <= c <= 'z' }

  predicate IsUpper(c: char) { 'A' <= c <= 'Z' }

  function Lower(c: char): (r: char)
    ensures !IsUpper(r)
    ensures IsSpace(r) == IsSpace(c)
    ensures !IsUpper(c) ==> r == c
  {
    if IsUpper(c) then (c as int + 32) as char else c
  }

  function Upper(c: char): (r: char)
    ensures !IsLower(r)
    ensures IsSpace(r) == IsSpace(c)
    ensures !IsLower(c) ==> r == c
    ensures Lower(r) == Lower(c)
  {
    if IsLower(c) then (c as int - 32) as char else c
  }

  /* ---------------------------------------------------------------------
     strip() and capitalize()
     --------------------------------------------------------------------- */

  /** Drops leading whitespace. */
  function TrimLeft(s: string): string
    decreases |s|
  {
    if |s| > 0 && IsSpace(s[0]) then TrimLeft(s[1..]) else s
  }

  /** `TrimLeft` keeps the suffix of `s` that starts at its first non-space
      character. */
  lemma {:induction false} TrimLeftSpec(s: string)
    ensures |TrimLeft(s)| <= |s| && TrimLeft(s) == s[|s| - |TrimLeft(s)|..]
    ensures forall i :: 0 <= i < |s| - |TrimLeft(s)| ==> IsSpace(s[i])
    ensures TrimLeft(s) == [] || !IsSpace(TrimLeft(s)[0])
    decreases |s|
  {
    if |s| > 0 && IsSpace(s[0]) {
      TrimLeftSpec(s[1..]);
      var r := TrimLeft(s);
      assert r == TrimLeft(s[1..]);
      assert s[1..][|s| - 1 - |r|..] == s[|s| - |r|..];
      forall i | 0 <= i < |s| - |r|
        ensures IsSpace(s[i])
      {
        if i > 0 {
          assert s[i] == s[1..][i - 1];
        }
      }
    }
  }

  /** Drops trailing whitespace. */
  function TrimRight(s: string): string
    decreases |s|
  {
    if |s| > 0 && IsSpace(s[|s| - 1]) then TrimRight(s[..|s| - 1]) else s
  }

  /** `TrimRight` keeps the prefix of `s` that ends at its last non-space
      character. */
  lemma {:induction false} TrimRightSpec(s: string)
    ensures |TrimRight(s)| <= |s| && TrimRight(s) == s[..|TrimRight(s)|]
    ensures forall i :: |TrimRight(s)| <= i < |s| ==> IsSpace(s[i])
    ensures TrimRight(s) == [] || !IsSpace(TrimRight(s)[|TrimRight(s)| - 1])
    decreases |s|
  {
    if |s| > 0 && IsSpace(s[|s| - 1]) {
      TrimRightSpec(s[..|s| - 1]);
      var r := TrimRight(s);
      assert r == TrimRight(s[..|s| - 1]);
      assert s[..|s| - 1][..|r|] == s[..|r|];
      forall i | |r| <= i < |s|
        ensures IsSpace(s[i])
      {
        if i < |s| - 1 {
          assert s[i] == s[..|s| - 1][i];
        }
      }
    }
  }

  /** `str.strip()` with no argument. */
  function Strip(s: string): string {
    TrimRight(TrimLeft(s))
  }

  /** `strip()` keeps the stretch `s[a..a + |r|]` between the leading and the
      trailing whitespace: everything before and after it is whitespace, and
      the stretch neither starts nor ends with whitespace. */
  lemma StripSpec(s: string)
    ensures var r := Strip(s);
      var a := |s| - |TrimLeft(s)|;
      && 0 <= a && a + |r| <= |s| && r == s[a..a + |r|]
      && (forall i :: 0 <= i < a ==> IsSpace(s[i]))
      && (forall i :: a + |r| <= i < |s| ==> IsSpace(s[i]))
      && (r == [] || (!IsSpace(r[0]) && !IsSpace(r[|r| - 1])))
  {
    var l := TrimLeft(s);
    var r := TrimRight(l);
    var a := |s| - |l|;
    TrimLeftSpec(s);
    TrimRightSpec(l);
    assert l == s[a..];
    assert r == l[..|r|];
    SliceOfSuffix(s, a, |r|);
    forall i | a + |r| <= i < |s|
      ensures IsSpace(s[i])
    {
      assert s[i] == l[i - a];
    }
    if r != [] {
      assert r[0] == l[0];
    }
  }

  /** The first `n` characters of `s[a..]` are `s[a..a + n]`. */
  lemma SliceOfSuffix(s: string, a: int, n: int)
    requires 0 <= a && 0 <= n && a + n <= |s|
    ensures s[a..][..n] == s[a..a + n]
  {
  }

  /** Every character lower-cased. */
  function LowerAll(s: string): string
    decreases |s|
  {
    if s == [] then [] else [Lower(s[0])] + LowerAll(s[1..])
  }

  lemma {:induction false} LowerAllSpec(s: string)
    ensures |LowerAll(s)| == |s|
    ensures forall i :: 0 <= i < |s| ==> LowerAll(s)[i] == Lower(s[i])
    decreases |s|
  {
    if s != [] {
      LowerAllSpec(s[1..]);
      var r := LowerAll(s);
      assert r == [Lower(s[0])] + LowerAll(s[1..]);
      forall i | 0 < i < |s|
        ensures r[i] == Lower(s[i])
      {
        assert r[i] == LowerAll(s[1..])[i - 1];
      }
    }
  }

  /** `str.capitalize()`. */
  function Capitalize(s: string): string {
    if s == [] then [] else [Upper(s[0])] + LowerAll(s[1..])
  }

  /** `capitalize()` upper-cases the first character and lower-cases every
      other one. */
  lemma CapitalizeSpec(s: string)
    ensures |Capitalize(s)| == |s|
    ensures |s| > 0 ==> Capitalize(s)[0] == Upper(s[0])
    ensures forall i :: 1 <= i < |s| ==> Capitalize(s)[i] == Lower(s[i])
  {
    if s != [] {
      LowerAllSpec(s[1..]);
      var c := Capitalize(s);
      forall i | 1 <= i < |s|
        ensures c[i] == Lower(s[i])
      {
        assert c[i] == LowerAll(s[1..])[i - 1];
      }
    }
  }

  /** What a stored subcategory looks like: empty, or free of surrounding
      whitespace, not starting with a lower-case letter and with no
      upper-case letter after the first character. */
  predicate IsNormalForm(t: string) {
    t == [] ||
    (&& !IsSpace(t[0])
     && !IsSpace(t[|t| - 1])
     && !IsLower(t[0])
     && forall i :: 1 <= i < |t| ==> !IsUpper(t[i]))
  }

  /** `subcategory.strip().capitalize() if subcategory else ""`: an absent or
      empty subcategory becomes the empty string; anything else is stripped
      and re-cased. */
  function NormaliseSubcategory(raw: Option<string>): string {
    if raw.None? || raw.value == [] then [] else Capitalize(Strip(raw.value))
  }

  /** The normalised subcategory is in normal form and spells the stripped
      input up to letter case; an absent subcategory becomes empty. */
  lemma NormaliseSpec(raw: Option<string>)
    ensures IsNormalForm(NormaliseSubcategory(raw))
    ensures raw.None? ==> NormaliseSubcategory(raw) == []
    ensures raw.Some? ==>
      && |NormaliseSubcategory(raw)| == |Strip(raw.value)|
      && forall i :: 0 <= i < |Strip(raw.value)| ==>
           Lower(NormaliseSubcategory(raw)[i]) == Lower(Strip(raw.value)[i])
  {
    if raw.Some? {
      StripSpec(raw.value);
      var t := Strip(raw.value);
      if raw.value != [] {
        CapitalizedIsNormal(t);
        CapitalizeSpec(t);
      } else {
        assert t == [];
      }
    }
  }

  /** Re-casing a stripped string yields a string in normal form. */
  lemma CapitalizedIsNormal(t: string)
    requires t == [] || (!IsSpace(t[0]) && !IsSpace(t[|t| - 1]))
    ensures IsNormalForm(Capitalize(t))
  {
    CapitalizeSpec(t);
    var c := Capitalize(t);
    if t != [] {
      assert IsSpace(c[0]) == IsSpace(t[0]);
      assert IsSpace(c[|c| - 1]) == IsSpace(t[|t| - 1]);
      assert forall i :: 1 <= i < |c| ==> !IsUpper(c[i]);
    }
  }

  /** Stripping a string that neither starts nor ends with whitespace
      changes nothing. */
  lemma StripUnchanged(t: string)
    requires t != [] && !IsSpace(t[0]) && !IsSpace(t[|t| - 1])
    ensures Strip(t) == t
  {
    assert TrimLeft(t) == t;
    assert TrimRight(t) == t;
  }

  /** The strings normalisation leaves unchanged are exactly the strings in
      normal form. */
  lemma NormalFormIsFixedPoint(t: string)
    ensures NormaliseSubcategory(Some(t)) == t <==> IsNormalForm(t)
  {
    NormaliseSpec(Some(t));
    if IsNormalForm(t) && t != [] {
      StripUnchanged(t);
      CapitalizeSpec(t);
      var c := Capitalize(t);
      assert c[0] == t[0];
      assert forall i :: 1 <= i < |t| ==> c[i] == t[i];
      assert c == t;
    }
  }

  /** Normalising twice is normalising once, so re-saving a stored
      subcategory leaves it as it is. */
  lemma NormaliseIdempotent(raw: Option<string>)
    ensures NormaliseSubcategory(Some(NormaliseSubcategory(raw))) == NormaliseSubcategory(raw)
  {
    NormaliseSpec(raw);
    NormalFormIsFixedPoint(NormaliseSubcategory(raw));
  }

  /* ---------------------------------------------------------------------
     str(int) and int(str)
     --------------------------------------------------------------------- */

  predicate IsDigit(c: char) { '0' <= c <= '9' }

  predicate AllDigits(s: string) {
    forall i :: 0 <= i < |s| ==> IsDigit(s[i])
  }

  function DigitChar(d: nat): (c: char)
    requires d < 10
    ensures IsDigit(c)
  {
    ('0' as int + d) as char
  }

  /** Decimal digits of `n`, most significant first, without leading zeros. */
  function NatToString(n: nat): (r: string)
    ensures |r| > 0 && AllDigits(r)
    decreases n
  {
    if n < 10 then [DigitChar(n)] else NatToString(n / 10) + [DigitChar(n % 10)]
  }

  /** `str(n)` for an integer: a minus sign before the digits of a negative
      number. The rendering holds only digits and possibly a leading minus. */
  function IntToString(n: int): (r: string)
    ensures |r| > 0 && IsDigit(r[|r| - 1])
    ensures forall i :: 0 <= i < |r| ==> IsDigit(r[i]) || (i == 0 && r[i] == '-')
  {
    if n < 0 then "-" + NatToString(-n) else NatToString(n)
  }

  /** The value of a string of decimal digits. */
  function DigitsValue(s: string): nat
    requires AllDigits(s)
    decreases |s|
  {
    if s == [] then 0 else DigitsValue(s[..|s| - 1]) * 10 + (s[|s| - 1] as int - '0' as int)
  }

  /** `int(s)`: an optional sign followed by at least one decimal digit;
      anything else raises, modelled as `None`. */
  function ParseInt(s: string): Option<int> {
    if |s| > 1 && s[0] == '-' && AllDigits(s[1..]) then Some(-(DigitsValue(s[1..]) as int))
    else if |s| > 1 && s[0] == '+' && AllDigits(s[1..]) then Some(DigitsValue(s[1..]))
    else if |s| > 0 && AllDigits(s) then Some(DigitsValue(s))
    else None
  }

  lemma {:induction false} NatRoundTrip(n: nat)
    ensures DigitsValue(NatToString(n)) == n
    decreases n
  {
    if n >= 10 {
      NatRoundTrip(n / 10);
      var s := NatToString(n);
      assert s[..|s| - 1] == NatToString(n / 10);
    }
  }

  /** `int(str(n)) == n` for every integer, negative ones included. */
  lemma IntRoundTrip(n: int)
    ensures ParseInt(IntToString(n)) == Some(n)
  {
    var s := IntToString(n);
    if n < 0 {
      assert s[1..] == NatToString(-n);
      NatRoundTrip(-n);
    } else {
      NatRoundTrip(n);
    }
  }

  /* ---------------------------------------------------------------------
     split("id=")[-1] and strip(")")
     --------------------------------------------------------------------- */

  const IdMarker: string := "id="

  /** `"id=" in s`. */
  predicate HasMarker(s: string)
    decreases |s|
  {
    |s| >= 3 && (s[..3] == IdMarker || HasMarker(s[1..]))
  }

  /** `s.split("id=")[-1]`: the text after the last occurrence of the
      marker, or all of `s` when there is none. */
  function LastField(s: string): string
    decreases |s|
  {
    if |s| < 3 then s
    else if s[..3] == IdMarker then LastField(s[3..])
    else if HasMarker(s[1..]) then LastField(s[1..])
    else s
  }

  /** The last field is a suffix of the input that never contains the
      marker. */
  lemma {:induction false} LastFieldSpec(s: string)
    ensures |LastField(s)| <= |s| && LastField(s) == s[|s| - |LastField(s)|..]
    ensures !HasMarker(LastField(s))
    decreases |s|
  {
    if |s| >= 3 {
      if s[..3] == IdMarker {
        LastFieldSpec(s[3..]);
        assert s[3..][|s| - 3 - |LastField(s)|..] == s[|s| - |LastField(s)|..];
      } else if HasMarker(s[1..]) {
        LastFieldSpec(s[1..]);
        assert s[1..][|s| - 1 - |LastField(s)|..] == s[|s| - |LastField(s)|..];
      }
    }
  }

  /** A string without the marker is its own last field. */
  lemma LastFieldWithoutMarker(s: string)
    requires !HasMarker(s)
    ensures LastField(s) == s
  {
  }

  /** A string without the letter `i` cannot contain the marker. */
  lemma {:induction false} NoMarkerWithoutI(s: string)
    requires forall i :: 0 <= i < |s| ==> s[i] != 'i'
    ensures !HasMarker(s)
    decreases |s|
  {
    if |s| >= 3 {
      assert s[..3][0] != 'i';
      NoMarkerWithoutI(s[1..]);
    }
  }

  /** A marker occurs in `a + "id=" + b`. */
  lemma {:induction false} MarkerInside(a: string, b: string)
    ensures HasMarker(a + IdMarker + b)
    decreases |a|
  {
    var s := a + IdMarker + b;
    if a == [] {
      assert s[..3] == IdMarker;
    } else {
      MarkerInside(a[1..], b);
      assert s[1..] == a[1..] + IdMarker + b;
    }
  }

  /** Whatever precedes an occurrence of the marker is irrelevant to the
      last field: the marker cannot overlap itself, so splitting
      `a + "id=" + b` ends exactly as splitting `b` does. */
  lemma {:induction false} LastFieldAfterMarker(a: string, b: string)
    ensures LastField(a + IdMarker + b) == LastField(b)
    decreases |a|
  {
    var s := a + IdMarker + b;
    if a == [] {
      assert s[..3] == IdMarker;
      assert s[3..] == b;
    } else if |a| >= 3 && a[..3] == IdMarker {
      assert s[..3] == IdMarker;
      assert s[3..] == a[3..] + IdMarker + b;
      LastFieldAfterMarker(a[3..], b);
    } else {
      if |a| == 1 {
        assert s[1] == 'i';
      } else if |a| == 2 {
        assert s[2] == 'i';
      } else {
        assert s[..3] == a[..3];
      }
      assert s[..3] != IdMarker;
      assert s[1..] == a[1..] + IdMarker + b;
      MarkerInside(a[1..], b);
      LastFieldAfterMarker(a[1..], b);
    }
  }

  /** Drops every leading `c`. */
  function DropLeading(s: string, c: char): string
    decreases |s|
  {
    if |s| > 0 && s[0] == c then DropLeading(s[1..], c) else s
  }

  /** Drops every trailing `c`. */
  function DropTrailing(s: string, c: char): string
    decreases |s|
  {
    if |s| > 0 && s[|s| - 1] == c then DropTrailing(s[..|s| - 1], c) else s
  }

  /** `s.strip(c)` for a one-character argument. */
  function StripChar(s: string, c: char): string {
    DropTrailing(DropLeading(s, c), c)
  }

  /** `int(choice.split("id=")[-1].strip(")"))`; `None` where Python raises. */
  function ParseTarget(choice: string): Option<int> {
    ParseInt(StripChar(LastField(choice), ')'))
  }

  /** Stripping `)` from `d + ")"` gives back `d` when `d` neither starts
      nor ends with `)`. */
  lemma StripClosing(d: string)
    requires |d| > 0 && d[0] != ')' && d[|d| - 1] != ')'
    ensures StripChar(d + ")", ')') == d
  {
    var t := d + ")";
    assert t[0] == d[0];
    assert DropLeading(t, ')') == t;
    assert t[|t| - 1] == ')';
    assert t[..|t| - 1] == d;
    assert DropTrailing(t, ')') == DropTrailing(d, ')');
    assert DropTrailing(d, ')') == d;
  }

  /** The rendering of an id followed by `)` contains no marker, so it is
      its own last field. */
  lemma DigitsAreLastField(n: int)
    ensures LastField(IntToString(n) + ")") == IntToString(n) + ")"
  {
    var digits := IntToString(n);
    var tail := digits + ")";
    forall i | 0 <= i < |tail|
      ensures tail[i] != 'i'
    {
      if i < |digits| {
        assert tail[i] == digits[i];
      }
    }
    NoMarkerWithoutI(tail);
    LastFieldWithoutMarker(tail);
  }

  /** Whatever text comes first, even text containing the marker or closing
      parentheses, a label ending in `"id=" + str(n) + ")"` parses back to
      `n`. */
  lemma ParseAfterMarker(prefix: string, n: int)
    ensures ParseTarget(prefix + IdMarker + IntToString(n) + ")") == Some(n)
  {
    var digits := IntToString(n);
    var tail := digits + ")";
    var whole := prefix + IdMarker + tail;
    assert prefix + IdMarker + digits + ")" == whole;
    LastFieldAfterMarker(prefix, tail);
    DigitsAreLastField(n);
    StripClosing(digits);
    IntRoundTrip(n);
  }
}
