/** C-level text: one-byte characters, NUL-terminated strings, and the few C
    library functions the program relies on (atoi, snprintf truncation);
    also the small sequence helpers the other modules share. */
module CText {

  datatype Option<+T> = None | Some(value: T)

  /** A C `char`: one byte. */
  type Char = c: char | c as int < 256

  const NUL: Char := '\0'

  predicate NoNul(s: seq<Char>) {
    forall i | 0 <= i < |s| :: s[i] != NUL
  }

  /** The contents of a C string: the bytes before its terminating NUL. */
  type CStr = s: seq<Char> | NoNul(s)

  function Min(a: nat, b: nat): nat {
    if a <= b then a else b
  }

  function Sum(xs: seq<nat>): nat {
    if xs == [] then 0 else xs[0] + Sum(xs[1..])
  }

  /** Concatenation of a sequence of byte pieces. */
  function Flatten(pieces: seq<seq<Char>>): seq<Char> {
    if pieces == [] then [] else pieces[0] + Flatten(pieces[1..])
  }

  lemma {:induction false} FlattenAppend(a: seq<seq<Char>>, b: seq<seq<Char>>)
    ensures Flatten(a + b) == Flatten(a) + Flatten(b)
  {
    if a == [] {
      assert a + b == b;
    } else {
      assert (a + b)[1..] == a[1..] + b;
      FlattenAppend(a[1..], b);
    }
  }

  /** What a C string function reads from a memory region: every byte up to,
      and not including, the first NUL (or the whole region if it has none). */
  function CString(s: seq<Char>): (r: CStr)
    ensures |r| <= |s| && r == s[..|r|]
    ensures |r| < |s| ==> s[|r|] == NUL
  {
    if s == [] || s[0] == NUL then [] else [s[0]] + CString(s[1..])
  }

  lemma {:induction false} CStringOfCStr(s: CStr)
    ensures CString(s) == s
  {
    if s != [] {
      assert NoNul(s[1..]) by {
        forall i | 0 <= i < |s[1..]| ensures s[1..][i] != NUL { assert s[1..][i] == s[i + 1]; }
      }
      CStringOfCStr(s[1..]);
    }
  }

  /** A NUL ends the string whatever follows it. */
  lemma {:induction false} CStringStopsAtNul(a: seq<Char>, b: seq<Char>)
    ensures CString(a + [NUL] + b) == CString(a)
  {
    if a != [] && a[0] != NUL {
      assert (a + [NUL] + b)[1..] == a[1..] + [NUL] + b;
      CStringStopsAtNul(a[1..], b);
    }
  }

  // ---------------------------------------------------------------------
  // snprintf

  /** What `snprintf(buf, bufferSize, ...)` leaves in `buf` (as a C string)
      when the fully formatted text is `formatted`: at most bufferSize - 1
      bytes, since the last byte holds the NUL; nothing when bufferSize is 0
      (the buffers of the program are zero-filled by calloc beforehand). */
  function Snprintf(formatted: CStr, bufferSize: nat): (r: CStr)
    ensures |r| <= |formatted| && r == formatted[..|r|]
    ensures bufferSize == 0 ==> r == []
    ensures bufferSize > 0 ==> |r| == Min(|formatted|, bufferSize - 1)
  {
    if bufferSize == 0 then []
    else
      var n := Min(|formatted|, bufferSize - 1);
      assert NoNul(formatted[..n]) by {
        forall i | 0 <= i < n ensures formatted[..n][i] != NUL { assert formatted[..n][i] == formatted[i]; }
      }
      formatted[..n]
  }

  lemma SnprintfFits(formatted: CStr, bufferSize: nat)
    requires |formatted| < bufferSize
    ensures Snprintf(formatted, bufferSize) == formatted
  {
  }

  // ---------------------------------------------------------------------
  // atoi

  /** `isspace` in the C locale. */
  predicate IsSpace(c: Char) {
    c == ' ' || 9 <= c as int <= 13
  }

  predicate IsDigit(c: Char) {
    '0' <= c <= '9'
  }

  predicate AllDigits(s: seq<Char>) {
    forall i | 0 <= i < |s| :: IsDigit(s[i])
  }

  function SkipSpace(s: seq<Char>): (r: seq<Char>)
    ensures |r| <= |s| && r == s[|s| - |r|..]
    ensures forall i | 0 <= i < |s| - |r| :: IsSpace(s[i])
    ensures r == [] || !IsSpace(r[0])
  {
    if s != [] && IsSpace(s[0]) then SkipSpace(s[1..]) else s
  }

  /** The longest prefix of `s` made of decimal digits. */
  function DigitPrefix(s: seq<Char>): (r: seq<Char>)
    ensures |r| <= |s| && r == s[..|r|]
    ensures AllDigits(r)
    ensures |r| < |s| ==> !IsDigit(s[|r|])
  {
    if s != [] && IsDigit(s[0]) then [s[0]] + DigitPrefix(s[1..]) else []
  }

  /** The value of a string of decimal digits, most significant first. */
  function DigitsValue(d: seq<Char>): nat
    requires AllDigits(d)
  {
    if d == [] then 0 else DigitsValue(d[..|d| - 1]) * 10 + (d[|d| - 1] as int - '0' as int)
  }

  /** C `atoi` on the bytes of a C string: skip leading white space, accept
      one optional sign, then read the longest run of decimal digits; no
      digits gives 0. The value is unbounded here: C leaves an `int` overflow
      undefined, so callers state the range they need. */
  function Atoi(s: seq<Char>): int {
    var t := SkipSpace(s);
    if t != [] && t[0] == '-' then -(DigitsValue(DigitPrefix(t[1..])) as int)
    else if t != [] && t[0] == '+' then DigitsValue(DigitPrefix(t[1..]))
    else DigitsValue(DigitPrefix(t))
  }

  function DigitChar(d: nat): (c: Char)
    requires d < 10
    ensures IsDigit(c) && c as int - '0' as int == d
  {
    ('0' as int + d) as char
  }

  /** The decimal rendering of a natural number, with no leading zeros. */
  function Decimal(n: nat): (r: CStr)
    ensures r != [] && AllDigits(r)
    ensures n >= 10 ==> r[0] != '0'
  {
    if n < 10 then [DigitChar(n)] else Decimal(n / 10) + [DigitChar(n % 10)]
  }

  lemma {:induction false} DigitsValueDecimal(n: nat)
    ensures DigitsValue(Decimal(n)) == n
  {
    var r := Decimal(n);
    if n >= 10 {
      DigitsValueDecimal(n / 10);
      assert r[..|r| - 1] == Decimal(n / 10);
    }
  }

  lemma {:induction false} DigitPrefixOfDigits(d: seq<Char>, rest: seq<Char>)
    requires AllDigits(d)
    requires rest == [] || !IsDigit(rest[0])
    ensures DigitPrefix(d + rest) == d
  {
    if d != [] {
      assert (d + rest)[1..] == d[1..] + rest;
      DigitPrefixOfDigits(d[1..], rest);
    } else {
      assert d + rest == rest;
    }
  }

  /** atoi reads back what Decimal writes, whatever non-digit follows. */
  lemma AtoiDecimal(n: nat, rest: seq<Char>)
    requires rest == [] || !IsDigit(rest[0])
    ensures Atoi(Decimal(n) + rest) == n
  {
    var s := Decimal(n) + rest;
    assert SkipSpace(s) == s by { assert s[0] == Decimal(n)[0]; }
    DigitPrefixOfDigits(Decimal(n), rest);
    DigitsValueDecimal(n);
  }

  /** ... and a leading minus sign negates it. */
  lemma AtoiNegativeDecimal(n: nat, rest: seq<Char>)
    requires rest == [] || !IsDigit(rest[0])
    ensures Atoi(['-'] + Decimal(n) + rest) == -(n as int)
  {
    var d := Decimal(n) + rest;
    var s := ['-'] + d;
    assert s == ['-'] + Decimal(n) + rest;
    assert s[1..] == d;
    assert SkipSpace(s) == s;
    DigitPrefixOfDigits(Decimal(n), rest);
    DigitsValueDecimal(n);
    assert Atoi(s) == -(DigitsValue(DigitPrefix(d)) as int);
  }

  /** Leading white space is skipped. */
  lemma {:induction false} AtoiSkipsSpace(c: Char, s: seq<Char>)
    requires IsSpace(c)
    ensures Atoi([c] + s) == Atoi(s)
  {
    assert ([c] + s)[1..] == s;
  }
}
