/** The hex printer `ullx` and the number parser `parse_u32`. */
module HexText {
  import opened Types
  import opened Words

  /** The characters of a number in base 16, the most significant first and without leading zeros. */
  function HexDigits(v: nat): (s: string)
    ensures 1 <= |s|
    ensures forall i | 0 <= i < |s| :: IsDigit(s[i], 16)
  {
    if v < 16 then [HexChar(v)] else HexDigits(v / 16) + [HexChar(v % 16)]
  }

  function HexChar(d: nat): (c: char)
    requires d < 16
    ensures DigitOf(c) == d
  {
    "0123456789abcdef"[d]
  }

  class Printer {
    /** The static buffer: it keeps the characters of earlier calls. */
    const buf: array<char>

    constructor ()
      ensures buf.Length == 34 && fresh(buf)
    {
      buf := new char[34](_ => '\0');
    }

    /** Stores a character in front of what follows it. */
    method Store(at: nat, c: char)
      requires at < buf.Length
      modifies buf
      ensures buf[at..] == [c] + old(buf[at + 1..]) && buf[..at] == old(buf[..at])
    {
      buf[at] := c;
    }

    method Ullx(val: nat) returns (out: nat)
      requires buf.Length == 34 && val < TWO_64
      modifies buf
      ensures out < buf.Length && buf[out..] == "0x" + HexDigits(val)
      ensures buf[..out] == old(buf[..out])
    {
      hide HexDigits, HexChar, HexTail, HexFits, Pow2;
      ghost var before, text := buf[..], [];
      out := 33;
      var hval := val;
      SixteenDigits(val);
      while true
        invariant 17 <= out <= 33 && HexFits(hval, out - 17) && (hval == 0 ==> out == 33)
        invariant buf[out + 1..] == text && HexDigits(val) == HexDigits(hval) + text
        invariant buf[..out + 1] == before[..out + 1]
        decreases hval, out
      {
        NextDigit(hval, out - 17);
        var c := "0123456789abcdef"[hval % 16];
        assert c == HexChar(hval % 16);
        Store(out, c);
        OneMoreDigit(val, hval, text);
        text := [c] + text;
        assert buf[out..] == text;
        assert before[..out + 1][..out] == before[..out];
        out := out - 1;
        hval := hval / 16;
        if hval == 0 {
          break;
        }
      }
      Store(out, 'x');
      out := out - 1;
      Store(out, '0');
      assert before[..out + 2][..out] == before[..out];
      assert buf[out..] == ['0'] + (['x'] + text);
    }
  }

  predicate HexFits(h: nat, places: int)
  {
    0 <= places && h < Pow2(4 * places)
  }

  /** The digits before the last one; none if there is only one. */
  function HexTail(h: nat): string {
    if h == 0 then [] else HexDigits(h)
  }

  lemma OneMoreDigit(val: nat, h: nat, text: string)
    requires HexDigits(val) == HexDigits(h) + text
    requires HexDigits(h) == HexTail(h / 16) + [HexChar(h % 16)]
    ensures var longer := [HexChar(h % 16)] + text;
      HexDigits(val) == if h / 16 == 0 then longer else HexDigits(h / 16) + longer
  {
    hide HexDigits, HexChar;
    assert HexTail(h / 16) + [HexChar(h % 16)] + text == HexTail(h / 16) + ([HexChar(h % 16)] + text);
  }

  lemma SixteenDigits(h: nat)
    requires h < TWO_64
    ensures HexFits(h, 16)
    ensures HexDigits(h) == HexDigits(h) + []
  {
    Pow2Constants();
  }

  lemma NextDigit(h: nat, places: nat)
    requires HexFits(h, places)
    ensures HexFits(h / 16, places - 1) || (h == 0 && places == 0)
    ensures h / 16 != 0 ==> 1 <= places
    ensures HexDigits(h) == HexTail(h / 16) + [HexChar(h % 16)]
    ensures HexChar(h % 16) == "0123456789abcdef"[h % 16]
  {
    hide Pow2;
    if places > 0 {
      Sixteenfold(places);
    } else {
      NoPlaces();
    }
  }

  lemma Sixteenfold(places: nat)
    requires places > 0
    ensures Pow2(4 * places) == 16 * Pow2(4 * (places - 1))
  {
    Pow2Adds(4, 4 * (places - 1));
    assert Pow2(4) == 16;
  }

  lemma NoPlaces()
    ensures Pow2(4 * 0) == 1
  {
  }

  // ----- strtoul, section 7.22.1.4 of C11, with a 64-bit unsigned long

  /** The value of a digit or letter; 36 for every other character. */
  function DigitOf(c: char): nat {
    if '0' <= c <= '9' then c as int - '0' as int
    else if 'a' <= c <= 'z' then c as int - 'a' as int + 10
    else if 'A' <= c <= 'Z' then c as int - 'A' as int + 10
    else 36
  }

  predicate IsDigit(c: char, base: nat) {
    DigitOf(c) < base
  }

  predicate IsSpace(c: char) {
    c == ' ' || 9 <= c as int <= 13
  }

  function SkipSpaces(s: string, i: nat): (k: nat)
    requires i <= |s|
    ensures i <= k <= |s|
    ensures forall j | i <= j < k :: IsSpace(s[j])
    decreases |s| - i
  {
    if i < |s| && IsSpace(s[i]) then SkipSpaces(s, i + 1) else i
  }

  function SkipSign(s: string, i: nat): (k: nat)
    requires i <= |s|
    ensures i <= k <= |s|
  {
    if i < |s| && (s[i] == '-' || s[i] == '+') then i + 1 else i
  }

  /** In base 16, a prefix that a digit follows. */
  function SkipPrefix(s: string, base: nat, j: nat): (k: nat)
    requires j <= |s|
    ensures j <= k <= |s|
  {
    if base == 16 && j + 2 < |s| && s[j] == '0' && (s[j + 1] == 'x' || s[j + 1] == 'X') && IsDigit(s[j + 2], 16)
    then j + 2
    else j
  }

  function SkipDigits(s: string, base: nat, i: nat): (k: nat)
    requires i <= |s|
    ensures i <= k <= |s|
    ensures forall j | i <= j < k :: IsDigit(s[j], base)
    decreases |s| - i
  {
    if i < |s| && IsDigit(s[i], base) then SkipDigits(s, base, i + 1) else i
  }

  /** The number a string of digits stands for. */
  function Value(digits: string, base: nat): nat {
    if digits == [] then 0
    else Value(digits[..|digits| - 1], base) * base + DigitOf(digits[|digits| - 1])
  }

  /** The value, and the index of the first character that is not part of it; 0 if there is no number. */
  function StrToUl(s: string, base: nat): (r: (nat, nat))
    requires base <= 36
    ensures r.0 < TWO_64 && r.1 <= |s|
  {
    var i := SkipSpaces(s, 0);
    var from := SkipPrefix(s, base, SkipSign(s, i));
    var end := SkipDigits(s, base, from);
    if end == from then (0, 0)
    else
      var v := Value(s[from..end], base);
      if TWO_64 <= v then (TWO_64 - 1, end)
      else if s[i] == '-' then ((TWO_64 - v) % TWO_64, end)
      else (v, end)
  }

  // ----- parse_u32

  /** The base a string announces, and the number of characters of the announcement. */
  function Announced(s: string): (r: (nat, nat))
    ensures r.1 <= |s| && r.0 <= 16
  {
    if |s| > 2 && s[0] == '0' then
      if s[1] == 'x' || s[1] == 'X' then (16, 2)
      else if s[1] == 'b' || s[1] == 'B' then (2, 2)
      else (10, 0)
    else (10, 0)
  }

  function Parsed(s: string): Option<nat> {
    var (base, skip) := Announced(s);
    var (v, end) := StrToUl(s[skip..], base);
    if end != 0 && end == |s| - skip then Some(v % TWO_32) else None
  }

  function AnnouncedBase(announced: string): (b: nat)
    ensures 2 <= b <= 16
  {
    if announced == "0x" || announced == "0X" then 16
    else if announced == "0b" || announced == "0B" then 2
    else 10
  }

  /**
   * A number in its parts. After the announcement of a base come the parts that `strtoul` takes: spaces, a
   * sign, in base 16 another prefix, and digits.
   */
  datatype Numeral = Numeral(announced: string, spaces: string, sign: string, prefix: string, digits: string) {
    function Base(): nat { AnnouncedBase(announced) }

    predicate Valid() {
      && (announced == "" || Base() != 10)
      && (forall i | 0 <= i < |spaces| :: IsSpace(spaces[i]))
      && (sign == "" || sign == "+" || sign == "-")
      && (prefix == "" || (Base() == 16 && (prefix == "0x" || prefix == "0X")))
      && digits != [] && forall i | 0 <= i < |digits| :: IsDigit(digits[i], Base())
    }

    function Rest(): string { spaces + sign + prefix + digits }

    function Text(): string { announced + Rest() }

    /** The number meant, in the 64 bits of unsigned long: too large ones saturate, negative ones wrap. */
    function Meaning(): nat {
      var v := Value(digits, Base());
      if TWO_64 <= v then TWO_64 - 1
      else if sign == "-" then (TWO_64 - v) % TWO_64
      else v
    }
  }

  /** `parse_u32` accepts exactly the texts of numerals, and returns what they mean, cut to 32 bits. */
  method ParseU32(str: string) returns (r: Option<nat>)
    ensures r.Some? <==> exists n: Numeral :: n.Valid() && n.Text() == str
    ensures forall n: Numeral :: n.Valid() && n.Text() == str ==> r == Some(n.Meaning() % TWO_32)
    ensures r == Parsed(str)
  {
    var base, s := 10, str;
    if |s| > 2 {
      if s[0] == '0' {
        if s[1] == 'x' || s[1] == 'X' {
          base := 16;
          s := s[2..];
        } else if s[1] == 'b' || s[1] == 'B' {
          base := 2;
          s := s[2..];
        }
      }
    }
    assert str[0..] == str;
    AcceptedExactly(str);
    var (v, end) := StrToUl(s, base);
    if 0 != end && end == |s| {
      return Some(v % TWO_32);
    } else {
      return None;
    }
  }

  lemma AcceptedExactly(s: string)
    ensures Parsed(s).Some? <==> exists n: Numeral :: n.Valid() && n.Text() == s
    ensures forall n: Numeral :: n.Valid() && n.Text() == s ==> Parsed(s) == Some(n.Meaning() % TWO_32)
  {
    hide Parsed;
    forall n: Numeral | n.Valid() && n.Text() == s ensures Parsed(s) == Some(n.Meaning() % TWO_32) {
      NumeralIsParsed(n);
    }
    if Parsed(s).Some? {
      var n := NumeralOf(s);
      assert n.Valid() && n.Text() == s;
    }
  }

  lemma NumeralIsParsed(n: Numeral)
    requires n.Valid()
    ensures Parsed(n.Text()) == Some(n.Meaning() % TWO_32)
  {
    hide StrToUl, Value;
    AnnouncedIs(n);
    assert n.Text()[|n.announced|..] == n.Rest();
    RestIsRead(n);
  }

  lemma AnnouncedIs(n: Numeral)
    requires n.Valid()
    ensures |n.Text()| == |n.announced| + |n.Rest()| && n.Rest() != []
    ensures Announced(n.Text()) == (n.Base(), |n.announced|)
  {
    var s := n.Text();
    if n.announced == "" {
      if n.spaces != [] {
        assert s[0] == n.spaces[0];
      } else if n.sign != "" {
        assert s[0] == n.sign[0];
      } else {
        assert s == n.digits;
        if |s| > 2 { assert IsDigit(s[1], 10); }
      }
    } else {
      assert s[0] == n.announced[0] && s[1] == n.announced[1];
    }
  }

  /** `strtoul` takes the rest of a numeral apart as it was put together. */
  lemma RestIsRead(n: Numeral)
    requires n.Valid()
    ensures StrToUl(n.Rest(), n.Base()) == (n.Meaning(), |n.Rest()|)
  {
    hide Value, SkipSpaces, SkipSign, SkipPrefix, SkipDigits, IsDigit, IsSpace;
    var t := n.Rest();
    var i := |n.spaces|;
    var j := i + |n.sign|;
    var from := j + |n.prefix|;
    SpacesThenSign(n, t, i, j);
    PrefixThenDigits(n, t, j, from);
    assert t[from..|t|] == n.digits;
    assert t[i] == '-' <==> n.sign == "-" by { FirstAfterSpaces(n, t, i); }
  }

  lemma FirstAfterSpaces(n: Numeral, t: string, i: nat)
    requires n.Valid() && t == n.Rest() && i == |n.spaces|
    ensures i < |t| && !IsSpace(t[i])
    ensures if n.sign == "" then t[i] != '-' && t[i] != '+' else t[i] == n.sign[0]
  {
    if n.sign == "" {
      assert t[i] == if n.prefix == "" then n.digits[0] else '0';
      assert n.prefix == "" ==> IsDigit(n.digits[0], 16);
    }
  }

  lemma SpacesThenSign(n: Numeral, t: string, i: nat, j: nat)
    requires n.Valid() && t == n.Rest() && i == |n.spaces| && j == i + |n.sign|
    ensures i <= j < |t| && SkipSpaces(t, 0) == i && SkipSign(t, i) == j
  {
    hide SkipSpaces, IsSpace;
    FirstAfterSpaces(n, t, i);
    assert forall k | 0 <= k < i :: t[k] == n.spaces[k];
    AllSpaces(t, 0, i);
  }

  lemma PrefixThenDigits(n: Numeral, t: string, j: nat, from: nat)
    requires n.Valid() && t == n.Rest() && j == |n.spaces| + |n.sign| && from == j + |n.prefix|
    ensures j <= from < |t| && SkipPrefix(t, n.Base(), j) == from && SkipDigits(t, n.Base(), from) == |t|
  {
    hide SkipDigits, IsSpace;
    assert forall k | from <= k < |t| :: t[k] == n.digits[k - from];
    AllDigits(t, n.Base(), from);
    if n.prefix == "" {
      if j + 1 < |t| { assert IsDigit(t[j + 1], n.Base()); }
    } else {
      assert t[j] == n.prefix[0] && t[j + 1] == n.prefix[1];
      assert IsDigit(t[from], n.Base());
    }
  }

  lemma {:induction false} AllSpaces(s: string, i: nat, k: nat)
    requires i <= k < |s| && !IsSpace(s[k]) && forall j | i <= j < k :: IsSpace(s[j])
    ensures SkipSpaces(s, i) == k
    decreases k - i
  {
    if i < k { AllSpaces(s, i + 1, k); }
  }

  lemma {:induction false} AllDigits(s: string, base: nat, i: nat)
    requires i <= |s| && forall k | i <= k < |s| :: IsDigit(s[k], base)
    ensures SkipDigits(s, base, i) == |s|
    decreases |s| - i
  {
    if i < |s| { AllDigits(s, base, i + 1); }
  }

  /** An accepted text, taken apart. */
  lemma NumeralOf(s: string) returns (n: Numeral)
    requires Parsed(s).Some?
    ensures n.Valid() && n.Text() == s
  {
    hide StrToUl, Announced, Numeral.Valid, Numeral.Rest, AnnouncedBase;
    var (base, skip) := Announced(s);
    AnnouncementParts(s, s[..skip]);
    n := RestParts(s[skip..], s[..skip]);
    assert s == s[..skip] + s[skip..];
  }

  lemma RestParts(t: string, announced: string) returns (n: Numeral)
    requires announced == "" || AnnouncedBase(announced) != 10
    requires t != [] && StrToUl(t, AnnouncedBase(announced)).1 == |t|
    ensures n.announced == announced && n.Valid() && n.Rest() == t
  {
    hide Value, SkipSpaces, SkipSign, SkipPrefix, SkipDigits, IsDigit, IsSpace, AnnouncedBase;
    var base := AnnouncedBase(announced);
    var i := SkipSpaces(t, 0);
    var j := SkipSign(t, i);
    var from := SkipPrefix(t, base, j);
    n := Numeral(announced, t[..i], t[i..j], t[j..from], t[from..]);
    SignParts(t, i, j);
    PrefixParts(t, base, j, from);
    Rejoined(t, i, j, from);
  }

  lemma Rejoined(t: string, i: nat, j: nat, from: nat)
    requires i <= j <= from <= |t|
    ensures t[..i] + t[i..j] + t[j..from] + t[from..] == t
  {
  }

  lemma AnnouncementParts(s: string, announced: string)
    requires announced == s[..Announced(s).1]
    ensures AnnouncedBase(announced) == Announced(s).0 && (announced == "" || AnnouncedBase(announced) != 10)
  {
    if Announced(s).1 == 2 { assert announced == [s[0], s[1]]; }
  }

  lemma SignParts(t: string, i: nat, j: nat)
    requires i <= |t| && j == SkipSign(t, i)
    ensures t[i..j] == "" || t[i..j] == "+" || t[i..j] == "-"
  {
    if i < j { assert t[i..j] == [t[i]]; }
  }

  lemma PrefixParts(t: string, base: nat, j: nat, from: nat)
    requires j <= |t| && from == SkipPrefix(t, base, j)
    ensures t[j..from] == "" || (base == 16 && (t[j..from] == "0x" || t[j..from] == "0X"))
  {
    if j < from { assert t[j..from] == [t[j], t[j + 1]]; }
  }

  lemma {:induction false} HexDigitsValue(v: nat)
    ensures Value(HexDigits(v), 16) == v
  {
    var s := HexDigits(v);
    if v < 16 {
      assert s[..0] == [];
    } else {
      HexDigitsValue(v / 16);
      assert s[..|s| - 1] == HexDigits(v / 16);
    }
  }

  /** What `ullx` prints, `parse_u32` reads back, cut to 32 bits. */
  lemma PrintThenParse(v: nat)
    requires v < TWO_64
    ensures Parsed("0x" + HexDigits(v)) == Some(v % TWO_32)
  {
    hide Parsed, Value, HexDigits;
    var n := Numeral("0x", "", "", "", HexDigits(v));
    HexDigitsValue(v);
    assert n.Text() == "0x" + HexDigits(v);
    NumeralIsParsed(n);
  }

  /** Numbers of 64 bits and more are accepted, whatever their sign: every one is read as 2^32 - 1. */
  lemma LongNumbersSaturate(n: Numeral)
    requires n.Valid() && TWO_64 <= Value(n.digits, n.Base())
    ensures Parsed(n.Text()) == Some(TWO_32 - 1)
  {
    hide Parsed, Value;
    NumeralIsParsed(n);
  }

  lemma NotAnnounced()
    ensures AnnouncedBase("") == 10
  {
  }

  /** Decimal digits alone are read as their value, cut to 32 bits. */
  lemma DecimalsAreParsed(digits: string)
    requires digits != [] && forall i | 0 <= i < |digits| :: IsDigit(digits[i], 10)
    requires Value(digits, 10) < TWO_64
    ensures Parsed(digits) == Some(Value(digits, 10) % TWO_32)
  {
    hide Parsed, Value, AnnouncedBase;
    var n := Numeral("", "", "", "", digits);
    NotAnnounced();
    assert n.Text() == digits;
    NumeralIsParsed(n);
  }

  /** The printed digits are canonical: lower case, and no zero in front. */
  lemma {:induction false} HexIsCanonical(v: nat)
    ensures forall i | 0 <= i < |HexDigits(v)| :: '0' <= HexDigits(v)[i] <= '9' || 'a' <= HexDigits(v)[i] <= 'f'
    ensures 1 <= v ==> HexDigits(v)[0] != '0'
  {
    LowerCase(v % 16);
    if 16 <= v { HexIsCanonical(v / 16); }
  }

  lemma LowerCase(d: nat)
    requires d < 16
    ensures '0' <= HexChar(d) <= '9' || 'a' <= HexChar(d) <= 'f'
    ensures HexChar(d) == '0' <==> d == 0
  {
  }

  /** Letters are digits of either case. */
  lemma EitherCase(d: nat)
    requires d < 26
    ensures DigitOf(('A' as int + d) as char) == DigitOf(('a' as int + d) as char) == 10 + d
    ensures d < 10 ==> DigitOf(('0' as int + d) as char) == d
  {
  }

  /** The digits of the three bases, and the spaces of the C locale. */
  lemma Characters(c: char)
    ensures IsDigit(c, 2) <==> c == '0' || c == '1'
    ensures IsDigit(c, 10) <==> '0' <= c <= '9'
    ensures IsDigit(c, 16) <==> '0' <= c <= '9' || 'a' <= c <= 'f' || 'A' <= c <= 'F'
    ensures IsSpace(c) <==> c == ' ' || c == '\t' || c == '\n' || c == 11 as char || c == 12 as char || c == '\r'
  {
  }

  /** Each digit is worth base times what it is worth one place further right. */
  lemma ValueOfTwo(a: char, b: char, base: nat)
    ensures Value([a], base) == DigitOf(a) && Value([a, b], base) == DigitOf(a) * base + DigitOf(b)
  {
    assert [a][..0] == [] && Value([], base) == 0;
    assert Value([a], base) == DigitOf(a);
    assert [a, b][..1] == [a];
  }

  /** A numeral in hexadecimal, in upper and lower case. */
  lemma SampleHex()
    ensures Parsed("0XfF") == Some(255)
  {
    hide Parsed, Value;
    var n := Numeral("0X", "", "", "", "fF");
    ValueOfTwo('f', 'F', 16);
    assert n.Text() == "0XfF";
    NumeralIsParsed(n);
  }

  /** A decimal numeral behind a space and a sign wraps. */
  lemma SampleNegative()
    ensures Parsed(" -10") == Some(0xFFFF_FFF6)
  {
    hide Parsed, Value;
    var n := Numeral("", " ", "-", "", "10");
    ValueOfTwo('1', '0', 10);
    assert n.Text() == " -10";
    NumeralIsParsed(n);
  }

  /** Texts that are no numerals. */
  lemma SampleRefused()
    ensures Parsed("") == None && Parsed("0x") == None && Parsed("4 ") == None
  {
  }
}
