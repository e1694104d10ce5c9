/**
  The string operations of the .NET library that the engine relies on, on byte strings:
  `int.ToString()`, `String.Split(char)`, `String.Trim()` and `ToLowerInvariant()`.
  Text is handled as its UTF-8 bytes; case and white space are ASCII only.
 */
module Strings {
  import opened Binary

  // ---------------------------------------------------------------------------
  // Decimal rendering: int.ToString()
  // ---------------------------------------------------------------------------

  function Digit(d: nat): char
    requires d < 10
  {
    "0123456789"[d]
  }

  predicate IsDigit(c: char) {
    '0' <= c <= '9'
  }

  predicate AllDigits(s: string) {
    forall i :: 0 <= i < |s| ==> IsDigit(s[i])
  }

  /** The decimal digits of n, without leading zeros. */
  function NatToString(n: nat): (s: string)
    ensures |s| >= 1 && AllDigits(s)
    ensures s[0] == '0' ==> n == 0
    decreases n
  {
    if n < 10 then [Digit(n)] else NatToString(n / 10) + [Digit(n % 10)]
  }

  /** `int.ToString()` with the invariant culture's "-" sign. */
  function IntToString(n: int): string {
    if n < 0 then "-" + NatToString(-n) else NatToString(n)
  }

  /** The value of a string of decimal digits. */
  function DigitsValue(s: string): nat
    requires AllDigits(s)
    decreases |s|
  {
    if s == [] then 0 else DigitsValue(s[..|s| - 1]) * 10 + (s[|s| - 1] as int - '0' as int)
  }

  /** A reference parser for what IntToString produces: an optional "-" and digits. */
  function ParseInt(s: string): int
    requires |s| >= 1
    requires if s[0] == '-' then AllDigits(s[1..]) else AllDigits(s)
  {
    if s[0] == '-' then -(DigitsValue(s[1..]) as int) else DigitsValue(s)
  }

  /** The digit for d stands for d. */
  lemma DigitValue(d: nat)
    requires d < 10
    ensures IsDigit(Digit(d)) && Digit(d) as int - '0' as int == d
  {
  }

  lemma {:induction false} NatToStringValue(n: nat)
    ensures DigitsValue(NatToString(n)) == n
    decreases n
  {
    var s := NatToString(n);
    if n >= 10 {
      var front := NatToString(n / 10);
      NatToStringValue(n / 10);
      assert s == front + [Digit(n % 10)];
      assert s[..|s| - 1] == front && s[|s| - 1] == Digit(n % 10);
      DigitValue(n % 10);
    } else {
      assert s == [Digit(n)];
      DigitValue(n);
    }
  }

  /** ToString is undone by ParseInt: the rendering of an int determines it. */
  lemma IntToStringRoundTrip(n: int)
    ensures var s := IntToString(n);
            |s| >= 1 && (if s[0] == '-' then AllDigits(s[1..]) else AllDigits(s)) && ParseInt(s) == n
  {
    var s := IntToString(n);
    if n < 0 {
      var digits := NatToString(-n);
      NatToStringValue(-n);
      assert s == "-" + digits;
      assert s[0] == '-' && s[1..] == digits;
    } else {
      NatToStringValue(n);
      assert s == NatToString(n);
      assert IsDigit(s[0]);
    }
  }

  // ---------------------------------------------------------------------------
  // String.Split(char)
  // ---------------------------------------------------------------------------

  /** `s.Split(sep)`: the pieces between separators, empty pieces included. */
  function Split(s: Bytes, sep: uint8): (parts: seq<Bytes>)
    ensures |parts| >= 1
    decreases |s|
  {
    if |s| == 0 then [[]]
    else
      var rest := Split(s[1..], sep);
      if s[0] == sep then [[]] + rest else [[s[0]] + rest[0]] + rest[1..]
  }

  /** The inverse of Split: the pieces glued back together with the separator. */
  function Join(parts: seq<Bytes>, sep: uint8): Bytes
    requires |parts| >= 1
    decreases |parts|
  {
    if |parts| == 1 then parts[0] else parts[0] + [sep] + Join(parts[1..], sep)
  }

  /** No piece of a split contains the separator. */
  lemma {:induction false} SplitPiecesHaveNoSeparator(s: Bytes, sep: uint8)
    ensures forall k :: 0 <= k < |Split(s, sep)| ==> sep !in Split(s, sep)[k]
    decreases |s|
  {
    if |s| > 0 {
      SplitPiecesHaveNoSeparator(s[1..], sep);
    }
  }

  /** Joining the pieces of a split gives back the string. */
  lemma {:induction false} JoinSplit(s: Bytes, sep: uint8)
    ensures Join(Split(s, sep), sep) == s
    decreases |s|
  {
    if |s| > 0 {
      var rest := Split(s[1..], sep);
      JoinSplit(s[1..], sep);
      if s[0] == sep {
        assert ([[]] + rest)[1..] == rest;
      } else if |rest| > 1 {
        var parts := [[s[0]] + rest[0]] + rest[1..];
        assert parts[1..] == rest[1..];
        assert Join(rest, sep) == rest[0] + [sep] + Join(rest[1..], sep);
      }
    }
  }

  lemma {:induction false} SplitWithoutSeparator(a: Bytes, sep: uint8)
    requires sep !in a
    ensures Split(a, sep) == [a]
    decreases |a|
  {
    if |a| > 0 {
      assert sep !in a[1..] && a[0] != sep;
      SplitWithoutSeparator(a[1..], sep);
      assert [a[0]] + a[1..] == a;
    }
  }

  lemma {:induction false} SplitAtSeparator(a: Bytes, b: Bytes, sep: uint8)
    requires sep !in a
    ensures Split(a + [sep] + b, sep) == [a] + Split(b, sep)
    decreases |a|
  {
    if |a| == 0 {
      assert a + [sep] + b == [sep] + b;
      assert ([sep] + b)[1..] == b;
    } else {
      assert (a + [sep] + b)[1..] == a[1..] + [sep] + b;
      assert sep !in a[1..];
      SplitAtSeparator(a[1..], b, sep);
      assert [a[0]] + a[1..] == a;
    }
  }

  /** Split looks at the first byte, then splits the rest. */
  lemma SplitHead(s: Bytes, x: uint8, t: Bytes, sep: uint8)
    requires s == [x] + t
    ensures Split(s, sep) == if x == sep then [[]] + Split(t, sep) else [[x] + Split(t, sep)[0]] + Split(t, sep)[1..]
  {
    assert s[0] == x && s[1..] == t;
  }

  /** A separator between two strings splits them apart: the pieces of each, in order. */
  lemma {:induction false} SplitConcat(a: Bytes, b: Bytes, sep: uint8)
    ensures Split(a + [sep] + b, sep) == Split(a, sep) + Split(b, sep)
    decreases |a|
  {
    if |a| == 0 {
      assert a + [sep] + b == [sep] + b;
      SplitHead([sep] + b, sep, b, sep);
    } else {
      var t := a[1..] + [sep] + b;
      SplitConcat(a[1..], b, sep);
      assert a + [sep] + b == [a[0]] + t;
      SplitHead(a + [sep] + b, a[0], t, sep);
      assert a == [a[0]] + a[1..];
      SplitHead(a, a[0], a[1..], sep);
      var rest := Split(a[1..], sep);
      if a[0] != sep {
        ConcatHeadTail(rest, Split(b, sep));
        ConcatAssociative([[a[0]] + rest[0]], rest[1..], Split(b, sep));
      } else {
        ConcatAssociative([[]], rest, Split(b, sep));
      }
    }
  }



  /** Splitting pieces that were joined gives back the pieces, if none holds the separator. */
  lemma {:induction false} SplitJoin(parts: seq<Bytes>, sep: uint8)
    requires |parts| >= 1
    requires forall k :: 0 <= k < |parts| ==> sep !in parts[k]
    ensures Split(Join(parts, sep), sep) == parts
    decreases |parts|
  {
    if |parts| == 1 {
      SplitWithoutSeparator(parts[0], sep);
    } else {
      SplitJoin(parts[1..], sep);
      SplitAtSeparator(parts[0], Join(parts[1..], sep), sep);
      assert [parts[0]] + parts[1..] == parts;
    }
  }

  // ---------------------------------------------------------------------------
  // String.Trim() and ToLowerInvariant()
  // ---------------------------------------------------------------------------

  /** ASCII white space as `char.IsWhiteSpace` sees it: tab to carriage return, and space. */
  predicate IsWhiteSpace(b: uint8) {
    b == 0x20 || 0x09 <= b <= 0x0D
  }

  function TrimStart(s: Bytes): (r: Bytes)
    ensures |r| <= |s| && r == s[|s| - |r|..]
    ensures forall i :: 0 <= i < |s| - |r| ==> IsWhiteSpace(s[i])
    ensures r == [] || !IsWhiteSpace(r[0])
    decreases |s|
  {
    if |s| > 0 && IsWhiteSpace(s[0]) then TrimStart(s[1..]) else s
  }

  function TrimEnd(s: Bytes): (r: Bytes)
    ensures |r| <= |s| && r == s[..|r|]
    ensures forall i :: |r| <= i < |s| ==> IsWhiteSpace(s[i])
    ensures r == [] || !IsWhiteSpace(r[|r| - 1])
    decreases |s|
  {
    if |s| > 0 && IsWhiteSpace(s[|s| - 1]) then TrimEnd(s[..|s| - 1]) else s
  }

  /** `s.Trim()`: drops the white space at both ends. */
  function Trim(s: Bytes): (r: Bytes)
    ensures |r| <= |s|
    ensures r == [] || (!IsWhiteSpace(r[0]) && !IsWhiteSpace(r[|r| - 1]))
  {
    TrimEnd(TrimStart(s))
  }

  /** Trim drops nothing but white space: what it keeps is the slice s[i..j] between two white runs. */
  lemma TrimBounds(s: Bytes) returns (i: nat, j: nat)
    ensures i <= j <= |s| && Trim(s) == s[i..j]
    ensures forall k :: 0 <= k < i ==> IsWhiteSpace(s[k])
    ensures forall k :: j <= k < |s| ==> IsWhiteSpace(s[k])
  {
    var t := TrimStart(s);
    var r := TrimEnd(t);
    i := |s| - |t|;
    j := i + |r|;
    assert r == s[i..j];
    forall k | j <= k < |s|
      ensures IsWhiteSpace(s[k])
    {
      assert s[k] == t[k - i];
    }
  }

  predicate IsUpperAscii(b: uint8) {
    0x41 <= b <= 0x5A
  }

  function LowerAscii(b: uint8): uint8 {
    if IsUpperAscii(b) then b + 0x20 else b
  }

  /** `s.ToLowerInvariant()` for ASCII letters; every other byte is kept. */
  function ToLowerInvariant(s: Bytes): (r: Bytes)
    ensures |r| == |s|
  {
    seq(|s|, i requires 0 <= i < |s| => LowerAscii(s[i]))
  }

  lemma ToLowerInvariantProperties(s: Bytes)
    ensures forall i :: 0 <= i < |s| ==> !IsUpperAscii(ToLowerInvariant(s)[i])
    ensures ToLowerInvariant(ToLowerInvariant(s)) == ToLowerInvariant(s)
    ensures forall i :: 0 <= i < |s| && !IsUpperAscii(s[i]) ==> ToLowerInvariant(s)[i] == s[i]
  {
  }
}
