/**
 * The string transforms the service applies before any map access:
 * header canonicalisation (`clean` inside `_normalize_cols`), Python's
 * `str.strip()`, and `str.zfill(width)` for ZIP keys.
 */
module Text {

  /** Code points 32 through 126, the only ones a cleaned header keeps. */
  predicate IsPrintableAscii(ch: char) {
    32 <= ch as int <= 126
  }

  /** Python's `str.isspace()` for one character. */
  predicate IsSpace(ch: char) {
    var n := ch as int;
    || n == 32 || 9 <= n <= 13 || 28 <= n <= 31
    || n == 0x85 || n == 0xA0 || n == 0x1680 || 0x2000 <= n <= 0x200A
    || n == 0x2028 || n == 0x2029 || n == 0x202F || n == 0x205F || n == 0x3000
  }

  predicate IsUpperAscii(ch: char) {
    'A' <= ch <= 'Z'
  }

  predicate IsDigit(ch: char) {
    '0' <= ch <= '9'
  }

  predicate AllDigits(s: string) {
    forall i :: 0 <= i < |s| ==> IsDigit(s[i])
  }

  /** A canonical header character: printable ASCII, not a space, not an upper-case letter. */
  predicate IsCanonicalChar(ch: char) {
    IsPrintableAscii(ch) && ch != ' ' && !IsUpperAscii(ch)
  }

  // ---------------------------------------------------------------------
  // Pieces of header cleaning
  // ---------------------------------------------------------------------

  /** The characters of `s` in code-point range 32..126, in their order. */
  function KeepPrintable(s: string): (r: string)
    ensures |r| <= |s|
    ensures forall i :: 0 <= i < |r| ==> IsPrintableAscii(r[i])
  {
    if s == [] then []
    else if IsPrintableAscii(s[0]) then [s[0]] + KeepPrintable(s[1..])
    else KeepPrintable(s[1..])
  }

  /** The filter keeps exactly the printable characters of its input. */
  lemma {:induction false} KeepPrintableMembers(s: string)
    ensures forall ch :: ch in KeepPrintable(s) <==> ch in s && IsPrintableAscii(ch)
  {
    if s != [] {
      KeepPrintableMembers(s[1..]);
      assert forall ch :: ch in s <==> ch == s[0] || ch in s[1..];
    }
  }

  /**
   * The filter works character by character: filtering a concatenation is
   * concatenating the filtered parts. With `KeepPrintableChar` this fixes the
   * result, order included.
   */
  lemma {:induction false} KeepPrintableConcat(a: string, b: string)
    ensures KeepPrintable(a + b) == KeepPrintable(a) + KeepPrintable(b)
  {
    if a == [] {
      assert a + b == b;
    } else {
      var ab := a + b;
      assert ab[0] == a[0] && ab[1..] == a[1..] + b;
      KeepPrintableConcat(a[1..], b);
    }
  }

  /** One character is kept exactly when it is printable. */
  lemma KeepPrintableChar(ch: char)
    ensures KeepPrintable([ch]) == if IsPrintableAscii(ch) then [ch] else []
  {
    assert [ch][1..] == [];
  }

  lemma {:induction false} KeepPrintableUnchanged(s: string)
    requires forall i :: 0 <= i < |s| ==> IsPrintableAscii(s[i])
    ensures KeepPrintable(s) == s
  {
    if s != [] {
      KeepPrintableUnchanged(s[1..]);
    }
  }

  /** `s` without its leading whitespace. */
  function TrimStart(s: string): (r: string)
    ensures |r| <= |s| && r == s[|s| - |r|..]
    ensures forall i :: 0 <= i < |s| - |r| ==> IsSpace(s[i])
    ensures r != [] ==> !IsSpace(r[0])
  {
    if s != [] && IsSpace(s[0]) then TrimStart(s[1..]) else s
  }

  /** `s` without its trailing whitespace. */
  function TrimEnd(s: string): (r: string)
    ensures |r| <= |s| && r == s[..|r|]
    ensures forall i :: |r| <= i < |s| ==> IsSpace(s[i])
    ensures r != [] ==> !IsSpace(r[|r| - 1])
  {
    if s != [] && IsSpace(s[|s| - 1]) then TrimEnd(s[..|s| - 1]) else s
  }

  /**
   * Python's `str.strip()`: the result is the slice of `s` left after
   * removing whitespace from both ends, and neither end of it is whitespace.
   */
  function Strip(s: string): (r: string)
    ensures |r| <= |s|
    ensures r == [] || (!IsSpace(r[0]) && !IsSpace(r[|r| - 1]))
    ensures forall ch :: ch in r ==> ch in s
    ensures (s == [] || (!IsSpace(s[0]) && !IsSpace(s[|s| - 1]))) ==> r == s
    ensures (forall i :: 0 <= i < |s| ==> IsSpace(s[i])) ==> r == []
  {
    var t := TrimStart(s);
    var r := TrimEnd(t);
    assert forall ch :: ch in r ==> ch in t;
    r
  }

  /**
   * The strip of `s` is the contiguous middle of `s` that remains once
   * whitespace is removed from both ends, and only whitespace is removed.
   */
  lemma StripIsSlice(s: string) returns (a: nat, b: nat)
    ensures a <= b <= |s| && Strip(s) == s[a..b]
    ensures forall i :: 0 <= i < a ==> IsSpace(s[i])
    ensures forall i :: b <= i < |s| ==> IsSpace(s[i])
  {
    var t := TrimStart(s);
    var r := TrimEnd(t);
    a := |s| - |t|;
    b := a + |r|;
    assert t == s[a..];
    assert r == t[..|r|];
    assert s[a..][..|r|] == s[a..b];
    forall i | b <= i < |s|
      ensures IsSpace(s[i])
    {
      assert s[i] == t[i - a];
    }
  }


  /** Python's `str.lower()` on one ASCII character. */
  function LowerAscii(ch: char): (r: char)
    ensures IsUpperAscii(ch) ==> r as int == ch as int + 32
    ensures !IsUpperAscii(ch) ==> r == ch
  {
    if IsUpperAscii(ch) then (ch as int + 32) as char else ch
  }

  /** `str.lower()` on a string whose characters are all ASCII, which is all that header cleaning passes it. */
  function Lower(s: string): (r: string)
    ensures |r| == |s|
    ensures forall i :: 0 <= i < |s| ==> r[i] == LowerAscii(s[i])
  {
    seq(|s|, i requires 0 <= i < |s| => LowerAscii(s[i]))
  }

  /** `str.replace(" ", "_")`. */
  function ReplaceSpaces(s: string): (r: string)
    ensures |r| == |s|
    ensures forall i :: 0 <= i < |s| ==> r[i] == (if s[i] == ' ' then '_' else s[i])
  {
    seq(|s|, i requires 0 <= i < |s| => if s[i] == ' ' then '_' else s[i])
  }

  // ---------------------------------------------------------------------
  // Header cleaning (`clean` in `_normalize_cols`)
  // ---------------------------------------------------------------------

  /**
   * The canonical form of one column header: keep code points 32..126,
   * strip, lower-case, turn spaces into underscores.
   */
  function Clean(header: string): (r: string)
    ensures |r| <= |header|
    ensures forall i :: 0 <= i < |r| ==> IsCanonicalChar(r[i])
  {
    var t := Strip(KeepPrintable(header));
    StripKeepsPrintable(KeepPrintable(header));
    LowerReplaceCanonical(t);
    ReplaceSpaces(Lower(t))
  }

  /** Stripping a printable string leaves a printable string. */
  lemma StripKeepsPrintable(p: string)
    requires forall i :: 0 <= i < |p| ==> IsPrintableAscii(p[i])
    ensures forall i :: 0 <= i < |Strip(p)| ==> IsPrintableAscii(Strip(p)[i])
  {
    var t := Strip(p);
    forall i | 0 <= i < |t| ensures IsPrintableAscii(t[i]) {
      assert t[i] in t;
    }
  }

  /** Lower-casing then replacing spaces turns printable characters into canonical ones. */
  lemma LowerReplaceCanonical(t: string)
    requires forall i :: 0 <= i < |t| ==> IsPrintableAscii(t[i])
    ensures forall i :: 0 <= i < |t| ==> IsCanonicalChar(ReplaceSpaces(Lower(t))[i])
  {
  }

  /** Lower-casing and replacing spaces leave a string of canonical characters as it is. */
  lemma CanonicalUnchanged(s: string)
    requires forall i :: 0 <= i < |s| ==> IsCanonicalChar(s[i])
    ensures Lower(s) == s && ReplaceSpaces(s) == s
  {
    assert forall i :: 0 <= i < |s| ==> Lower(s)[i] == s[i];
    assert forall i :: 0 <= i < |s| ==> ReplaceSpaces(s)[i] == s[i];
  }

  /** A header made of canonical characters is its own canonical form. */
  lemma {:induction false} CleanCanonical(c: string)
    requires forall i :: 0 <= i < |c| ==> IsCanonicalChar(c[i])
    ensures Clean(c) == c
  {
    KeepPrintableUnchanged(c);
    if c != [] {
      assert !IsSpace(c[0]) && !IsSpace(c[|c| - 1]);
    }
    assert Strip(c) == c;
    CanonicalUnchanged(c);
  }

  /** Cleaning a cleaned header changes nothing. */
  lemma CleanIdempotent(header: string)
    ensures Clean(Clean(header)) == Clean(header)
  {
    CleanCanonical(Clean(header));
  }

  /** The three spellings of the id header seen in provider files all clean to `provider_id`. */
  lemma CleanProviderIdSpellings(h: string)
    requires h == "provider_id" || h == "Provider ID" || h == " PROVIDER_ID "
    ensures Clean(h) == "provider_id"
  {
    if h == "provider_id" {
      CleanCanonical(h);
    } else if h == "Provider ID" {
      PrintableSpelling(h);
      CleanOfPrintable(h);
      StripTitleCase(h);
      LowerProviderId(h);
    } else {
      PrintableSpelling(h);
      CleanOfPrintable(h);
      StripPaddedProviderId(h);
      LowerProviderId(h[1..12]);
    }
  }

  lemma PrintableSpelling(h: string)
    requires h == "Provider ID" || h == " PROVIDER_ID "
    ensures forall i :: 0 <= i < |h| ==> IsPrintableAscii(h[i])
  {
  }

  lemma StripTitleCase(h: string)
    requires h == "Provider ID"
    ensures Strip(h) == h
  {
    assert h[0] == 'P' && h[|h| - 1] == 'D';
    StripKeepsUnpadded(h);
  }

  /** A string that neither starts nor ends with whitespace is its own strip. */
  lemma StripKeepsUnpadded(s: string)
    requires s != [] && !IsSpace(s[0]) && !IsSpace(s[|s| - 1])
    ensures Strip(s) == s
  {
  }

  /** On a header of printable characters the character filter does nothing. */
  lemma CleanOfPrintable(h: string)
    requires forall i :: 0 <= i < |h| ==> IsPrintableAscii(h[i])
    ensures Clean(h) == ReplaceSpaces(Lower(Strip(h)))
  {
    KeepPrintableUnchanged(h);
  }

  lemma StripPaddedProviderId(h: string)
    requires h == " PROVIDER_ID "
    ensures Strip(h) == h[1..12] == "PROVIDER_ID"
  {
    assert TrimStart(h) == h[1..];
    assert TrimEnd(h[1..]) == h[1..12];
  }

  lemma LowerProviderId(t: string)
    requires t == "Provider ID" || t == "PROVIDER_ID"
    ensures ReplaceSpaces(Lower(t)) == "provider_id"
  {
    var l := Lower(t);
    assert forall i :: 0 <= i < 11 ==> l[i] == "provider id"[i] || (i == 8 && l[i] == '_');
    var r := ReplaceSpaces(l);
    assert forall i :: 0 <= i < 11 ==> r[i] == "provider_id"[i];
  }

  // ---------------------------------------------------------------------
  // Zero padding (`str.zfill`)
  // ---------------------------------------------------------------------

  /** Width that ZIP codes are padded to before any map access. */
  const ZipWidth: nat := 5

  function Zeros(n: nat): (r: string)
    ensures |r| == n && forall i :: 0 <= i < n ==> r[i] == '0'
  {
    seq(n, _ => '0')
  }

  predicate HasSign(s: string) {
    |s| > 0 && (s[0] == '+' || s[0] == '-')
  }

  /**
   * Python's `str.zfill(width)`: a string at least `width` long is returned
   * as it is; a shorter one gets '0's inserted on the left up to `width`,
   * after a leading '+' or '-' sign, which stays in front.
   */
  function ZFill(s: string, width: nat): (r: string)
    ensures |r| == if |s| >= width then |s| else width
    ensures |s| >= width ==> r == s
    ensures |s| < width && !HasSign(s) ==>
              r[width - |s|..] == s && forall i :: 0 <= i < width - |s| ==> r[i] == '0'
    ensures |s| < width && HasSign(s) ==>
              r[0] == s[0] && r[width - |s| + 1..] == s[1..]
              && forall i :: 1 <= i <= width - |s| ==> r[i] == '0'
  {
    if |s| >= width then s
    else if HasSign(s) then [s[0]] + Zeros(width - |s|) + s[1..]
    else Zeros(width - |s|) + s
  }

  /** Padding a padded key again changes nothing, so every stored key is its own padding. */
  lemma ZFillIdempotent(s: string, width: nat)
    ensures ZFill(ZFill(s, width), width) == ZFill(s, width)
  {
  }

  /** The decimal value of a digit string, most significant digit first. */
  function DigitsValue(s: string): nat
    requires AllDigits(s)
  {
    if s == [] then 0
    else DigitsValue(s[..|s| - 1]) * 10 + (s[|s| - 1] as int - '0' as int)
  }

  /** Leading zeros do not change the value of a digit string. */
  lemma {:induction false} LeadingZerosValue(n: nat, s: string)
    requires AllDigits(s)
    ensures AllDigits(Zeros(n) + s) && DigitsValue(Zeros(n) + s) == DigitsValue(s)
  {
    var z := Zeros(n) + s;
    if s == [] {
      assert z == Zeros(n);
      if n > 0 {
        assert Zeros(n)[..n - 1] == Zeros(n - 1);
        LeadingZerosValue(n - 1, []);
        assert Zeros(n - 1) + [] == Zeros(n - 1);
      }
    } else {
      LeadingZerosValue(n, s[..|s| - 1]);
      assert z[..|z| - 1] == Zeros(n) + s[..|s| - 1];
    }
  }
}
