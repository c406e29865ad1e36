/** The byte-string helpers of the support library. A `String` is a length
    plus a data pointer; here it is the sequence of its bytes, one `char` per
    byte. Pointer identity never changes a result, so it is not modelled. */
module IrString {
  import opened IrMaths

  /** `substring`: empty when `begin` lies past the end; otherwise the part
      starting at `begin`, cut to at most `length` bytes. */
  function Substring(s: string, begin: nat, length: nat): (r: string)
    ensures begin > |s| ==> r == []
    ensures begin <= |s| ==> |r| <= length && begin + |r| <= |s|
    ensures begin <= |s| ==> r == s[begin..begin + |r|]
    ensures begin <= |s| && |r| < length ==> begin + |r| == |s|
  {
    if begin <= |s| then
      var n := if length + begin > |s| then |s| - begin else length;
      s[begin..begin + n]
    else
      []
  }

  /** `cmp_string`: equal lengths, then eight bytes at a time while whole
      words remain, then the remaining bytes one by one. */
  method CmpString(a: string, b: string) returns (r: bool)
    ensures r <==> a == b
  {
    if |a| != |b| {
      return false;
    }
    var words := |a| / 8;
    var index := 0;
    while index < words
      invariant 0 <= index <= words
      invariant a[..8 * index] == b[..8 * index]
    {
      if a[8 * index..8 * index + 8] != b[8 * index..8 * index + 8] {
        assert a[8 * index..8 * index + 8] == a[..8 * index + 8][8 * index..];
        assert b[8 * index..8 * index + 8] == b[..8 * index + 8][8 * index..];
        return false;
      }
      assert a[..8 * index + 8] == a[..8 * index] + a[8 * index..8 * index + 8];
      assert b[..8 * index + 8] == b[..8 * index] + b[8 * index..8 * index + 8];
      index := index + 1;
    }
    var i := 8 * index;
    while i < |a|
      invariant 8 * index <= i <= |a|
      invariant a[..i] == b[..i]
    {
      if a[i] != b[i] {
        return false;
      }
      assert a[..i + 1] == a[..i] + [a[i]];
      assert b[..i + 1] == b[..i] + [b[i]];
      i := i + 1;
    }
    assert a == a[..i] && b == b[..i];
    return true;
  }

  /** `copy_string`: succeeds exactly when `from` fits into `to`; then
      `from` overwrites the front of `to`, whose length and tail stay. */
  method CopyString(from: string, to: string) returns (ok: bool, out: string)
    ensures ok <==> |from| <= |to|
    ensures |out| == |to|
    ensures ok ==> out[..|from|] == from && out[|from|..] == to[|from|..]
    ensures !ok ==> out == to
  {
    out := to;
    if |from| > |to| {
      return false, out;
    }
    var words := |from| / 8;
    var index := 0;
    while index < words
      invariant 0 <= index <= words
      invariant |out| == |to|
      invariant out[..8 * index] == from[..8 * index]
      invariant out[8 * index..] == to[8 * index..]
    {
      ghost var before := out;
      out := out[..8 * index] + from[8 * index..8 * index + 8] + out[8 * index + 8..];
      assert out[8 * index + 8..] == before[8 * index + 8..] == to[8 * index + 8..];
      assert out[..8 * index + 8] == from[..8 * index] + from[8 * index..8 * index + 8] == from[..8 * index + 8];
      index := index + 1;
    }
    var i := 8 * index;
    while i < |from|
      invariant 8 * index <= i <= |from|
      invariant |out| == |to|
      invariant out[..i] == from[..i]
      invariant out[i..] == to[i..]
    {
      out := out[i := from[i]];
      assert out[..i + 1] == out[..i] + [from[i]];
      assert from[..i + 1] == from[..i] + [from[i]];
      i := i + 1;
    }
    return true, out;
  }

  /** The four-argument `copy_string`: the `length` bytes of `from` at
      `start` are copied to the front of `to`, when they lie within `from`
      and fit into `to`. */
  method CopyStringFrom(from: string, to: string, start: nat, length: nat) returns (ok: bool, out: string)
    ensures ok <==> start + length <= |from| && length <= |to|
    ensures |out| == |to|
    ensures ok ==> out[..length] == from[start..start + length] && out[length..] == to[length..]
    ensures !ok ==> out == to
  {
    if start + length > |from| {
      return false, to;
    }
    ok, out := CopyString(from[start..start + length], to);
  }

  /** The guard of the five-argument `copy_string` as `ir_string.h` writes
      it: both bounds are taken from the read offset. */
  predicate CopyAtGuardAsWritten(fromLen: nat, toLen: nat, startRead: nat, startWrite: nat, length: nat) {
    startRead + length <= fromLen && startRead + length <= toLen
  }

  /** How the five-argument `copy_string` ends: the new contents of `to`;
      `false` with `to` untouched; or a write past the end of `to`. */
  datatype CopyOutcome = Copied(out: string) | Refused | Overrun

  /** The five-argument `copy_string` as written: the guard checks the read
      offset against both lengths, so a copy that fits is refused when the
      read offset is large, and a write that runs past the end of `to` is
      let through when the write offset is large. */
  function CopyAtAsWritten(from: string, to: string, startRead: nat, startWrite: nat, length: nat): (r: CopyOutcome)
    ensures r.Refused? <==> !CopyAtGuardAsWritten(|from|, |to|, startRead, startWrite, length)
    ensures r.Overrun? <==>
      CopyAtGuardAsWritten(|from|, |to|, startRead, startWrite, length) && startWrite + length > |to|
    ensures r.Copied? ==>
      && |r.out| == |to| && startRead + length <= |from| && startWrite + length <= |to|
      && r.out[startWrite..startWrite + length] == from[startRead..startRead + length]
      && r.out[..startWrite] == to[..startWrite]
      && r.out[startWrite + length..] == to[startWrite + length..]
  {
    if !CopyAtGuardAsWritten(|from|, |to|, startRead, startWrite, length) then Refused
    else if startWrite + length > |to| then Overrun
    else
      var out := to[..startWrite] + from[startRead..startRead + length] + to[startWrite + length..];
      assert out[startWrite..startWrite + length] == from[startRead..startRead + length];
      Copied(out)
  }

  /** The guard lets through a write past the end of `to`: reading two
      bytes at 0 and writing them at 1 into a two-byte string. */
  lemma CopyAtGuardAdmitsOverrun()
    ensures CopyAtAsWritten("ab", "xy", 0, 1, 2) == Overrun
    ensures 1 + 2 > |"xy"|
  {
  }

  /** The guard refuses a copy that fits: two bytes read at 5 of seven,
      written at 0 of three. */
  lemma CopyAtGuardRefusesFit()
    ensures CopyAtAsWritten("abcdefg", "xyz", 5, 0, 2) == Refused
    ensures 5 + 2 <= |"abcdefg"| && 0 + 2 <= |"xyz"|
  {
  }

  /** The five-argument `copy_string` with the write bound checked against
      the write offset: `length` bytes read at `startRead` replace the bytes
      at `startWrite`, and nothing else changes. */
  method CopyStringAt(from: string, to: string, startRead: nat, startWrite: nat, length: nat)
    returns (ok: bool, out: string)
    ensures ok <==> startRead + length <= |from| && startWrite + length <= |to|
    ensures |out| == |to|
    ensures ok ==> out[startWrite..startWrite + length] == from[startRead..startRead + length]
    ensures ok ==> out[..startWrite] == to[..startWrite]
    ensures ok ==> out[startWrite + length..] == to[startWrite + length..]
    ensures !ok ==> out == to
  {
    if !(startRead + length <= |from| && startWrite + length <= |to|) {
      return false, to;
    }
    var window := to[startWrite..startWrite + length];
    var copied;
    ok, copied := CopyString(from[startRead..startRead + length], window);
    assert copied[length..] == [];
    out := to[..startWrite] + copied + to[startWrite + length..];
  }

  /** In `concat_string`, the only caller of the five-argument copy, the
      read offset is 0 and the write window ends at the end of the buffer,
      so the copy as written neither refuses nor overruns: it puts `b`
      after the first `|a|` bytes, as `CopyStringAt` does. */
  lemma ConcatCopyAgrees(a: string, b: string, front: string)
    requires |front| == |a| + |b|
    ensures CopyAtAsWritten(b, front, 0, |a|, |b|) == Copied(front[..|a|] + b)
  {
  }

  /** `concat_string`: with room for both, the buffer's front holds `a`
      then `b` and the result is that front; without room, the empty
      string. */
  method ConcatString(a: string, b: string, buffer: string) returns (r: string)
    ensures |buffer| >= |a| + |b| ==> r == a + b
    ensures |buffer| < |a| + |b| ==> r == []
  {
    if |buffer| < |a| + |b| {
      return [];
    }
    var front := buffer[..|a| + |b|];
    var ok1, withA := CopyString(a, front);
    var ok2, withB := CopyStringAt(b, withA, 0, |a|, |b|);
    assert ok1 && ok2;
    assert withB[..|a|] == withA[..|a|] == a;
    assert b[0..|b|] == b;
    assert |withB| == |a| + |b| && withB[|a|..] == withB[|a|..|a| + |b|];
    assert withB[|a|..] == b;
    assert withB == withB[..|a|] + withB[|a|..];
    r := withB;
  }

  /** Splitting a concatenation with `Substring` gives back both parts. */
  lemma ConcatSplits(a: string, b: string)
    ensures Substring(a + b, 0, |a|) == a
    ensures Substring(a + b, |a|, |b|) == b
  {
  }

  /** `search_string_first_occurrence` for one byte: drops leading bytes
      until the first one equal to `c`; the empty string when there is none. */
  method SearchFirst(s: string, c: char) returns (r: string)
    ensures |r| <= |s| && r == s[|s| - |r|..]
    ensures |r| > 0 ==> r[0] == c
    ensures c !in s[..|s| - |r|]
    ensures |r| > 0 <==> c in s
  {
    r := s;
    if |s| >= 1 {
      while |r| > 0 && r[0] != c
        invariant |r| <= |s| && r == s[|s| - |r|..]
        invariant c !in s[..|s| - |r|]
        decreases |r|
      {
        assert s[..|s| - |r| + 1] == s[..|s| - |r|] + [r[0]];
        r := Substring(r, 1, |r| - 1);
      }
    }
    assert s == s[..|s| - |r|] + r;
  }

  /** `search_string_last_occurrence`: walks a cursor down from the last
      byte (for an empty string the unsigned start index is already out of
      range) and returns the suffix at the first match, or the empty string. */
  method SearchLast(s: string, c: char) returns (r: string)
    ensures |r| <= |s| && r == s[|s| - |r|..]
    ensures |r| > 0 ==> r[0] == c && c !in r[1..]
    ensures |r| > 0 <==> c in s
  {
    r := [];
    var cursor := |s|;
    while cursor > 0
      invariant 0 <= cursor <= |s|
      invariant c !in s[cursor..]
    {
      if s[cursor - 1] == c {
        r := Substring(s, cursor - 1, |s| - (cursor - 1));
        assert r[1..] == s[cursor..];
        return;
      }
      cursor := cursor - 1;
    }
    assert s[cursor..] == s;
  }

  /** `is_end_of_line` */
  function IsEndOfLine(c: char): (r: bool)
  {
    c == '\n' || c == '\r'
  }

  /** Vertical tab and form feed. */
  const VT: char := '\U{000B}'
  const FF: char := '\U{000C}'

  /** `is_whitespace_without_end_of_line` */
  function IsBlank(c: char): (r: bool)
  {
    c == ' ' || c == '\t' || c == VT || c == FF
  }

  /** `is_whitespace`: the blanks and both end-of-line bytes. */
  function IsWhitespace(c: char): (r: bool)
  {
    IsBlank(c) || IsEndOfLine(c)
  }

  /** `is_alpha`: ASCII letters only. */
  function IsAlpha(c: char): (r: bool)
  {
    ('A' <= c <= 'Z') || ('a' <= c <= 'z')
  }

  /** `is_number`: the ten decimal digits, listed one by one. */
  function IsNumber(c: char): (r: bool)
    ensures r <==> '0' <= c <= '9'
  {
    c == '0' || c == '1' || c == '2' || c == '3' || c == '4' ||
    c == '5' || c == '6' || c == '7' || c == '8' || c == '9'
  }

  /** The character classes the lexer dispatches on do not overlap: a
      byte is a blank or an end of line but not both, whitespace is never
      part of a word or a number, a letter is never a digit, and none of
      them is the NUL byte the lexer reads past the end of the file. */
  lemma CharClassesDisjoint(c: char)
    ensures !(IsBlank(c) && IsEndOfLine(c))
    ensures IsWhitespace(c) ==> !IsAlpha(c) && !IsNumber(c) && c != '_' && c != '\0'
    ensures IsAlpha(c) ==> !IsNumber(c) && c != '_' && c != '\0'
    ensures IsNumber(c) ==> c != '_' && c != '\0'
  {
  }

  /** `decimal_digit_to_c8`: the digit's character, '\0' out of range. */
  function DigitChar(d: nat): (r: char)
    ensures d <= 9 ==> IsNumber(r) && r as int - '0' as int == d
    ensures d > 9 ==> r == '\0'
  {
    if d <= 9 then ('0' as int + d) as char else '\0'
  }

  /** Decimal digits of `m` without leading zeros, most significant first
      (empty for 0). */
  function Digits(m: nat): string
  {
    if m == 0 then [] else Digits(m / 10) + [DigitChar(m % 10)]
  }

  /** The same digits, least significant first: the order in which
      `s64_to_string` produces them. */
  function ReversedDigits(m: nat): string
  {
    if m == 0 then [] else [DigitChar(m % 10)] + ReversedDigits(m / 10)
  }

  /** The reference rendering of an integer: "0", or an optional '-' and
      the digits of the magnitude. */
  function DecimalString(n: int): string
  {
    if n == 0 then "0"
    else if n < 0 then "-" + Digits(-n)
    else Digits(n)
  }

  /** The value a digit string denotes. */
  function DigitsValue(s: string): int
  {
    if s == [] then 0 else 10 * DigitsValue(s[..|s| - 1]) + (s[|s| - 1] as int - '0' as int)
  }

  /** Reads back a `DecimalString`. */
  function DecimalValue(s: string): int
  {
    if |s| > 0 && s[0] == '-' then -DigitsValue(s[1..]) else DigitsValue(s)
  }

  lemma {:induction false} DigitsValueOfDigits(m: nat)
    ensures DigitsValue(Digits(m)) == m
    ensures forall i :: 0 <= i < |Digits(m)| ==> IsNumber(Digits(m)[i])
    ensures m > 0 ==> |Digits(m)| > 0 && Digits(m)[0] != '0'
    decreases m
  {
    if m > 0 {
      DigitsValueOfDigits(m / 10);
      var d := Digits(m);
      assert d[..|d| - 1] == Digits(m / 10);
    }
  }

  /** `DecimalString` is read back exactly by `DecimalValue`, and it is made
      of digits after an optional leading '-'. */
  lemma DecimalRoundTrip(n: int)
    ensures DecimalValue(DecimalString(n)) == n
    ensures |DecimalString(n)| > 0
    ensures DecimalString(n)[0] == '-' <==> n < 0
  {
    if n < 0 {
      DigitsValueOfDigits(-n);
      assert ("-" + Digits(-n))[1..] == Digits(-n);
    } else if n > 0 {
      DigitsValueOfDigits(n);
      assert IsNumber(Digits(n)[0]);
      assert DecimalString(n) == Digits(n);
      assert DecimalValue(Digits(n)) == DigitsValue(Digits(n));
    } else {
      assert "0"[..0] == [];
    }
  }

  lemma {:induction false} ReversedDigitsMirror(m: nat)
    ensures |ReversedDigits(m)| == |Digits(m)|
    ensures forall i :: 0 <= i < |Digits(m)| ==>
      Digits(m)[i] == ReversedDigits(m)[|Digits(m)| - 1 - i]
    decreases m
  {
    if m > 0 {
      ReversedDigitsMirror(m / 10);
    }
  }

  function Pow10(k: nat): nat
  {
    if k == 0 then 1 else 10 * Pow10(k - 1)
  }

  lemma {:induction false} ReversedDigitsBound(m: nat, k: nat)
    requires m < Pow10(k)
    ensures |ReversedDigits(m)| <= k
    decreases k
  {
    if m > 0 {
      ReversedDigitsBound(m / 10, k - 1);
    }
  }

  lemma ReversedDigitsNonZero(m: nat)
    ensures forall i :: 0 <= i < |ReversedDigits(m)| ==> ReversedDigits(m)[i] != '\0'
  {
    ReversedDigitsMirror(m);
    DigitsValueOfDigits(m);
  }

  /** `count_asciiz_without_null`: the position of the first '\0'. */
  method CountAsciiz(buf: string) returns (n: nat)
    requires '\0' in buf
    ensures n < |buf| && buf[n] == '\0'
    ensures forall k :: 0 <= k < n ==> buf[k] != '\0'
  {
    n := 0;
    while buf[n] != '\0'
      invariant n < |buf| && '\0' in buf[n..]
      invariant forall k :: 0 <= k < n ==> buf[k] != '\0'
      decreases |buf| - n
    {
      assert buf[n + 1..] == buf[n..][1..];
      n := n + 1;
    }
  }

  /** The in-place reversal at the end of `s64_to_string`: the cursor starts
      at the last written index `length` and swaps with its mirror image while
      it lies above the middle. */
  method SwapReverse(buf: string, length: int) returns (out: string)
    requires 0 <= length < |buf|
    ensures |out| == |buf|
    ensures forall k :: 0 <= k <= length ==> out[k] == buf[length - k]
    ensures forall k :: length < k < |buf| ==> out[k] == buf[k]
  {
    out := buf;
    var cursor := length;
    while cursor > length / 2 && length > 0
      invariant length / 2 <= cursor <= length
      invariant |out| == |buf|
      invariant forall k :: 0 <= k <= length && (k < length - cursor || k > cursor) ==> out[k] == buf[length - k]
      invariant forall k :: length - cursor <= k <= cursor ==> out[k] == buf[k]
      invariant forall k :: length < k < |buf| ==> out[k] == buf[k]
    {
      var swapT := out[cursor];
      out := out[cursor := out[length - cursor]];
      out := out[length - cursor := swapT];
      cursor := cursor - 1;
    }
  }

  /** The first loop of `s64_to_string`: digits of `m`, least significant
      first, into a zeroed 100-byte buffer while fewer than 98 are written. */
  method WriteReversedDigits(m: nat) returns (tmp: string, cursor: nat)
    requires m <= S64_MAX
    ensures |tmp| == 100 && cursor <= 19
    ensures tmp[..cursor] == ReversedDigits(m)
    ensures forall k :: cursor <= k < 100 ==> tmp[k] == '\0'
  {
    tmp := seq(100, _ => '\0');
    cursor := 0;
    var copy: nat := m;
    assert Pow10(5) == 100000;
    assert Pow10(10) == 10000000000;
    assert Pow10(15) == 1000000000000000;
    assert Pow10(19) == 10000000000000000000;
    ReversedDigitsBound(m, 19);
    while copy != 0 && cursor < 98
      invariant |tmp| == 100
      invariant cursor + |ReversedDigits(copy)| <= 19
      invariant tmp[..cursor] + ReversedDigits(copy) == ReversedDigits(m)
      invariant forall k :: cursor <= k < 100 ==> tmp[k] == '\0'
      decreases copy
    {
      var digit := copy % 10;
      tmp := tmp[cursor := DigitChar(digit)];
      assert tmp[..cursor + 1] == tmp[..cursor] + [DigitChar(digit)];
      cursor := cursor + 1;
      copy := (copy - digit) / 10;
    }
  }

  /** A text that mirrors the reversed digits (with the sign last) is the
      decimal rendering. */
  lemma MirrorIsDecimal(number: int, out: string)
    requires number != 0
    requires |out| == |ReversedDigits(Magnitude(number)) + Sign(number)|
    requires forall k :: 0 <= k < |out| ==>
      out[k] == (ReversedDigits(Magnitude(number)) + Sign(number))[|out| - 1 - k]
    ensures out == DecimalString(number)
  {
    var m := Magnitude(number);
    ReversedDigitsMirror(m);
    var d := DecimalString(number);
    assert |out| == |d|;
    forall k | 0 <= k < |out|
      ensures out[k] == d[k]
    {
      if number < 0 && k > 0 {
        assert d == "-" + Digits(m);
      }
    }
  }

  function Magnitude(n: int): nat
  {
    if n < 0 then -n else n
  }

  function Sign(n: int): string
  {
    if n < 0 then "-" else ""
  }

  /** `s64_to_string`: "0" for zero; otherwise the digits are written least
      significant first into a zeroed 100-byte buffer, a '-' follows for
      negatives, the '\0' is written, the written part is reversed in place,
      and the NUL-terminated text is copied out. The negation of the 64-bit
      minimum overflows in `s64_to_string`, so that value is excluded. */
  method S64ToString(number: Int64) returns (r: string)
    requires number != S64_MIN
    ensures r == DecimalString(number)
  {
    if number == 0 {
      return "0";
    }
    var m := Magnitude(number);
    var tmp, cursor := WriteReversedDigits(m);
    ghost var body := ReversedDigits(m) + Sign(number);
    if number < 0 {
      tmp := tmp[cursor := '-'];
      cursor := cursor + 1;
    }
    assert tmp[..cursor] == body;
    tmp := tmp[cursor := '\0'];
    var length := cursor - 1;
    ghost var orig := tmp;
    tmp := SwapReverse(tmp, length);
    ReversedDigitsNonZero(m);
    assert forall k :: 0 <= k <= length ==> tmp[k] == orig[length - k] == body[length - k];
    assert tmp[length + 1] == '\0';
    var n := CountAsciiz(tmp);
    assert forall k :: 0 <= k <= length ==> tmp[k] != '\0';
    r := tmp[..n];
    MirrorIsDecimal(number, r);
  }
}
