/** The two pieces of the .NET base library that the Go-to resolver relies on for
    its own decisions: `string.Trim()` and `Convert.ToInt32(string, 16)`. */

module DotNet {
  import opened Wrappers

  /** `char.IsWhiteSpace`: the Unicode space separators (category Zs), the line and
      paragraph separators, the controls U+0009..U+000D and U+0085. */
  predicate IsWhiteSpace(c: char) {
    c == ' ' || ('\t' <= c <= '\r') || c == '\U{0085}' || c == '\U{00A0}' || c == '\U{1680}'
    || ('\U{2000}' <= c <= '\U{200A}') || c == '\U{2028}' || c == '\U{2029}' || c == '\U{202F}'
    || c == '\U{205F}' || c == '\U{3000}'
  }

  /** `string.Trim()`: drops white space from both ends. Neither end of the result is
      white; `TrimAllWhite` and `TrimRemovesOnlyEnds` state what was dropped. */
  function Trim(s: string): (t: string)
    ensures |t| <= |s|
    ensures t == [] || (!IsWhiteSpace(t[0]) && !IsWhiteSpace(t[|t| - 1]))
  {
    if s == [] then s
    else if IsWhiteSpace(s[0]) then Trim(s[1..])
    else if IsWhiteSpace(s[|s| - 1]) then Trim(s[..|s| - 1])
    else s
  }

  /** `t` is `s[i..j]`, and everything of `s` outside that slice is white space. */
  ghost predicate TrimmedAt(t: string, s: string, i: nat, j: nat) {
    i <= j <= |s| && t == s[i..j]
    && (forall k :: 0 <= k < i ==> IsWhiteSpace(s[k]))
    && (forall k :: j <= k < |s| ==> IsWhiteSpace(s[k]))
  }

  /** `t` is `s` with white space only taken off its two ends. */
  ghost predicate IsTrimmedInfix(t: string, s: string) {
    exists i: nat, j: nat :: TrimmedAt(t, s, i, j)
  }

  lemma TrimmedAtFront(t: string, s: string, i: nat, j: nat)
    requires s != [] && IsWhiteSpace(s[0]) && TrimmedAt(t, s[1..], i, j)
    ensures TrimmedAt(t, s, i + 1, j + 1)
  {
    assert forall k :: 1 <= k < |s| ==> s[k] == s[1..][k - 1];
  }

  lemma TrimmedAtBack(t: string, s: string, i: nat, j: nat)
    requires s != [] && TrimmedAt(t, s[..|s| - 1], i, j) && IsWhiteSpace(s[|s| - 1])
    ensures TrimmedAt(t, s, i, j)
  {
    assert forall k :: 0 <= k < |s| - 1 ==> s[k] == s[..|s| - 1][k];
  }

  /** Trimming takes white space off the ends and nothing else. */
  lemma {:induction false} TrimRemovesOnlyEnds(s: string)
    ensures IsTrimmedInfix(Trim(s), s)
    decreases |s|
  {
    if s == [] {
      assert TrimmedAt(Trim(s), s, 0, 0);
    } else if IsWhiteSpace(s[0]) {
      TrimRemovesOnlyEnds(s[1..]);
      var i: nat, j: nat :| TrimmedAt(Trim(s[1..]), s[1..], i, j);
      TrimmedAtFront(Trim(s), s, i, j);
    } else if IsWhiteSpace(s[|s| - 1]) {
      TrimRemovesOnlyEnds(s[..|s| - 1]);
      var i: nat, j: nat :| TrimmedAt(Trim(s[..|s| - 1]), s[..|s| - 1], i, j);
      TrimmedAtBack(Trim(s), s, i, j);
    } else {
      assert TrimmedAt(Trim(s), s, 0, |s|);
    }
  }

  /** The trimmed text is empty exactly when the whole text is white space. */
  lemma {:induction false} TrimAllWhite(s: string)
    ensures Trim(s) == [] <==> forall k :: 0 <= k < |s| ==> IsWhiteSpace(s[k])
    decreases |s|
  {
    if s != [] && IsWhiteSpace(s[0]) {
      TrimAllWhite(s[1..]);
      assert forall k :: 1 <= k < |s| ==> s[k] == s[1..][k - 1];
    } else if s != [] && IsWhiteSpace(s[|s| - 1]) {
      TrimAllWhite(s[..|s| - 1]);
      assert forall k :: 0 <= k < |s| - 1 ==> s[k] == s[..|s| - 1][k];
    }
  }

  /** A string whose two ends are not white is left as it is by `Trim`. */
  lemma TrimKeepsTrimmed(s: string)
    requires s != [] && !IsWhiteSpace(s[0]) && !IsWhiteSpace(s[|s| - 1])
    ensures Trim(s) == s
  {
  }

  // ---------------------------------------------------------------------------
  // Hexadecimal conversion

  const UInt32Range := 0x1_0000_0000
  const Int32Range := 0x8000_0000

  predicate IsHexDigit(c: char) {
    ('0' <= c <= '9') || ('a' <= c <= 'f') || ('A' <= c <= 'F')
  }

  predicate AllHexDigits(s: string) {
    forall k :: 0 <= k < |s| ==> IsHexDigit(s[k])
  }

  function DigitValue(c: char): (v: nat)
    requires IsHexDigit(c)
    ensures v < 16
  {
    if '0' <= c <= '9' then c as int - '0' as int
    else if 'a' <= c <= 'f' then c as int - 'a' as int + 10
    else c as int - 'A' as int + 10
  }

  /** The value of a string of hex digits read most significant digit first, starting
      from the value `acc` of the digits before them. */
  function HexFold(acc: nat, t: string): nat
    requires AllHexDigits(t)
    decreases |t|
  {
    if t == [] then acc else HexFold(16 * acc + DigitValue(t[0]), t[1..])
  }

  /** The unbounded value of a string of hex digits. */
  function HexValue(t: string): nat
    requires AllHexDigits(t)
  {
    HexFold(0, t)
  }

  /** Reads a 32-bit pattern as a two's-complement `int`: the conversion does not
      accept a minus sign in base 16, and takes the top bit as the sign instead. */
  function AsInt32(v: nat): (r: int)
    requires v < UInt32Range
    ensures -Int32Range <= r < Int32Range
    ensures r >= 0 <==> v < Int32Range
    ensures r % UInt32Range == v
  {
    if v < Int32Range then v else v - UInt32Range
  }

  /** The conversion's digit loop: reads the hex digits of `s` from `i` on, adding
      each to `acc`, and stops at the first other character or the end. The result is
      the value and the position it stopped at, or `None` as soon as the value no
      longer fits in 32 bits (OverflowException). */
  function GrabHex(s: string, i: nat, acc: nat): (r: Option<(nat, nat)>)
    requires i <= |s| && acc < UInt32Range
    ensures r.Some? ==> r.value.0 < UInt32Range && i <= r.value.1 <= |s|
    ensures r.Some? ==> forall k :: i <= k < r.value.1 ==> IsHexDigit(s[k])
    ensures r.Some? && r.value.1 < |s| ==> !IsHexDigit(s[r.value.1])
    decreases |s| - i
  {
    if i < |s| && IsHexDigit(s[i]) then
      var next := 16 * acc + DigitValue(s[i]);
      if next >= UInt32Range then None else GrabHex(s, i + 1, next)
    else Some((acc, i))
  }

  /** Where the conversion's digits begin: after one optional `+`, and after a `0x` or
      `0X` prefix when something follows the `0`. */
  function DigitsStart(s: string): (start: nat)
    requires s != []
    ensures start <= |s|
  {
    var i := if s[0] == '+' then 1 else 0;
    if i + 1 < |s| && s[i] == '0' && (s[i + 1] == 'x' || s[i + 1] == 'X') then i + 2 else i
  }

  /** `Convert.ToInt32(s, 16)`, where `None` stands for each exception it throws:
      an empty string (ArgumentOutOfRangeException), a leading `-` (ArgumentException:
      negative values are not accepted in base 16), more than 32 bits of digits
      (OverflowException), and no digits or a character after them that is not a hex
      digit (FormatException). A single leading `+` and then a `0x` or `0X` prefix are
      accepted; white space is not. */
  function ToInt32Hex(s: string): (r: Option<int>)
    ensures r.Some? ==> -Int32Range <= r.value < Int32Range
  {
    if s == [] || s[0] == '-' then None
    else
      var start := DigitsStart(s);
      match GrabHex(s, start, 0)
      case None => None
      case Some((value, end)) => if end == start || end < |s| then None else Some(AsInt32(value))
  }

  /** A digit never lowers the accumulated value. */
  lemma {:induction false} HexFoldGrows(acc: nat, t: string)
    requires AllHexDigits(t)
    ensures HexFold(acc, t) >= acc
    decreases |t|
  {
    if t != [] {
      HexFoldGrows(16 * acc + DigitValue(t[0]), t[1..]);
    }
  }

  /** Appending a digit multiplies the value by 16 and adds the digit. */
  lemma {:induction false} HexFoldSnoc(acc: nat, t: string, c: char)
    requires AllHexDigits(t) && IsHexDigit(c)
    ensures AllHexDigits(t + [c])
    ensures HexFold(acc, t + [c]) == 16 * HexFold(acc, t) + DigitValue(c)
    decreases |t|
  {
    if t != [] {
      assert (t + [c])[1..] == t[1..] + [c];
      HexFoldSnoc(16 * acc + DigitValue(t[0]), t[1..], c);
    }
  }

  /** On a run of hex digits that reaches the end of `s`, the digit loop yields their
      value, or overflows exactly when that value does not fit in 32 bits. */
  lemma {:induction false} GrabHexOfDigits(s: string, i: nat, acc: nat)
    requires i <= |s| && acc < UInt32Range && AllHexDigits(s[i..])
    ensures GrabHex(s, i, acc) ==
      if HexFold(acc, s[i..]) >= UInt32Range then None else Some((HexFold(acc, s[i..]), |s|))
    decreases |s| - i
  {
    if i < |s| {
      assert IsHexDigit(s[i]);
      var next := 16 * acc + DigitValue(s[i]);
      assert s[i..][1..] == s[i + 1..];
      if next >= UInt32Range {
        HexFoldGrows(next, s[i + 1..]);
      } else {
        GrabHexOfDigits(s, i + 1, next);
      }
    }
  }

  /** The canonical upper-case hex spelling of `n`, without leading zeros. */
  function ToHex(n: nat): (s: string)
    ensures s != [] && AllHexDigits(s)
  {
    if n < 16 then [HexChar(n)] else ToHex(n / 16) + [HexChar(n % 16)]
  }

  function HexChar(d: nat): (c: char)
    requires d < 16
    ensures IsHexDigit(c) && DigitValue(c) == d
  {
    "0123456789ABCDEF"[d]
  }

  /** Reading back the spelling of `n` gives `n`. */
  lemma {:induction false} HexValueOfToHex(n: nat)
    ensures HexValue(ToHex(n)) == n
  {
    if n >= 16 {
      HexValueOfToHex(n / 16);
      HexFoldSnoc(0, ToHex(n / 16), HexChar(n % 16));
      assert HexValue(ToHex(n)) == 16 * (n / 16) + n % 16;
    } else {
      var c := HexChar(n);
      assert ToHex(n) == [c] && [c][1..] == [];
      assert HexFold(0, [c]) == HexFold(DigitValue(c), []);
    }
  }

  /** Round trip through the conversion: the spelling of any 32-bit pattern converts to
      that pattern read as a signed 32-bit value, and anything wider overflows. */
  lemma ToInt32HexOfToHex(n: nat)
    ensures ToInt32Hex(ToHex(n)) == if n < UInt32Range then Some(AsInt32(n)) else None
  {
    assert "" + ToHex(n) == ToHex(n);
    ToInt32HexOfDigits("", ToHex(n));
    HexValueOfToHex(n);
  }

  /** A leading `+` sign does not change what the conversion yields for a spelling. */
  lemma ToInt32HexOfSignedToHex(n: nat)
    ensures ToInt32Hex("+" + ToHex(n)) == ToInt32Hex(ToHex(n))
  {
    ToInt32HexOfDigits("+", ToHex(n));
    ToInt32HexOfToHex(n);
    HexValueOfToHex(n);
  }

  /** The conversion's answers on the boundaries of the 32-bit range. */
  lemma ToInt32HexBoundaries()
    ensures ToInt32Hex(ToHex(Int32Range - 1)) == Some(Int32Range - 1)
    ensures ToInt32Hex(ToHex(Int32Range)) == Some(-Int32Range)
    ensures ToInt32Hex(ToHex(UInt32Range - 1)) == Some(-1)
    ensures ToInt32Hex(ToHex(UInt32Range)) == None
  {
    ToInt32HexOfToHex(Int32Range - 1);
    ToInt32HexOfToHex(Int32Range);
    ToInt32HexOfToHex(UInt32Range - 1);
    ToInt32HexOfToHex(UInt32Range);
  }

  /** What the conversion accepts before the digits: nothing, one `+`, a `0x` or `0X`
      prefix, or the sign followed by the prefix. */
  const HexLeaders: set<string> := {"", "+", "0x", "0X", "+0x", "+0X"}

  /** After an accepted sign and prefix, the digits begin right behind them. */
  lemma DigitsStartOfLeader(lead: string, d: string)
    requires lead in HexLeaders && d != [] && AllHexDigits(d)
    ensures lead + d != [] && (lead + d)[0] != '-' && DigitsStart(lead + d) == |lead|
  {
    var s := lead + d;
    assert IsHexDigit(d[0]);
    assert |d| > 1 ==> IsHexDigit(d[1]);
    if lead == "" {
      assert s == d;
    } else if lead == "+" {
      assert s[1] == d[0] && (|s| > 2 ==> s[2] == d[1]);
    } else {
      assert s[|lead|] == d[0];
    }
  }

  /** Any non-empty run of hex digits, in either case and with any leading zeros, after
      any accepted sign and prefix, converts to its value read as a signed 32-bit
      value, and overflows when that value does not fit in 32 bits. */
  lemma ToInt32HexOfDigits(lead: string, d: string)
    requires lead in HexLeaders && d != [] && AllHexDigits(d)
    ensures ToInt32Hex(lead + d) ==
      if HexValue(d) < UInt32Range then Some(AsInt32(HexValue(d))) else None
  {
    var s := lead + d;
    DigitsStartOfLeader(lead, d);
    assert s[|lead|..] == d;
    GrabHexOfDigits(s, |lead|, 0);
  }

  /** Conversely, every text the conversion accepts is an accepted sign and prefix
      followed by a non-empty run of hex digits, and the result is their value. */
  lemma ToInt32HexAcceptsOnlyDigits(s: string)
    requires ToInt32Hex(s).Some?
    ensures exists lead, d ::
      lead in HexLeaders && s == lead + d && d != [] && AllHexDigits(d)
      && HexValue(d) < UInt32Range && ToInt32Hex(s) == Some(AsInt32(HexValue(d)))
  {
    var start := DigitsStart(s);
    var lead, d := s[..start], s[start..];
    if start == 0 {
      assert lead == "";
    } else if start == 1 {
      assert lead == [s[0]];
    } else if start == 2 {
      assert lead == [s[0], s[1]];
    } else {
      assert lead == [s[0], s[1], s[2]];
    }
    assert s == lead + d;
    assert AllHexDigits(d);
    GrabHexOfDigits(s, start, 0);
  }

  /** Lower-case digits are accepted. */
  lemma ToInt32HexLowerCase()
    ensures ToInt32Hex("ff") == Some(255)
  {
    assert HexValue("ff") == 255 by {
      assert "ff"[1..] == "f" && "f"[1..] == "";
    }
    assert "" + "ff" == "ff";
    ToInt32HexOfDigits("", "ff");
  }

  /** Leading zeros are accepted. */
  lemma ToInt32HexLeadingZeros()
    ensures ToInt32Hex("00A0") == Some(160)
  {
    assert HexValue("00A0") == 160 by {
      assert "00A0"[1..] == "0A0" && "0A0"[1..] == "A0" && "A0"[1..] == "0" && "0"[1..] == "";
    }
    assert "" + "00A0" == "00A0";
    ToInt32HexOfDigits("", "00A0");
  }

  /** The `0x` prefix is accepted. */
  lemma ToInt32HexPrefixed()
    ensures ToInt32Hex("0x10") == Some(16)
  {
    assert HexValue("10") == 16 by {
      assert "10"[1..] == "0" && "0"[1..] == "";
    }
    assert "0x" + "10" == "0x10";
    ToInt32HexOfDigits("0x", "10");
  }

  /** An empty text, a bare prefix, a minus sign and any other character are refused. */
  lemma ToInt32HexRejectsMalformed()
    ensures ToInt32Hex("") == None && ToInt32Hex("0x") == None && ToInt32Hex("-1") == None
    ensures ToInt32Hex("zz") == None && ToInt32Hex("1z") == None && ToInt32Hex("1 ") == None
  {
  }
}
