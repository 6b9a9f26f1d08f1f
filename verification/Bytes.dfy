/** Bytes, the line and token reading that Python's streams do, and numerals.

    `byte` and `wide` are ranges of `int`, so that a narrow text is also a wide one.
 */
module Bytes {

  datatype Option<+T> = None | Some(value: T)

  datatype Result<+T, +E> = Success(value: T) | Failure(error: E)

  type byte = x: int | 0 <= x < 0x100
  type wide = x: int | 0 <= x < 0x1_0000

  const NUL: byte := 0
  const TAB: byte := 9
  const LF: byte := 10
  const CR: byte := 13
  const SPACE: byte := 32
  const QUOTE: byte := 34
  const COLON: byte := 58
  const BACKSLASH: byte := 92

  const CRLF: seq<byte> := [CR, LF]

  predicate IsAscii(s: seq<byte>) {
    forall k | 0 <= k < |s| :: s[k] < 0x80
  }

  // ---------------------------------------------------------------- lines

  /** How many bytes `readline` takes from a stream that holds `s` and then ends:
      everything through the first line feed, or all of `s`. */
  function LineLength(s: seq<byte>): (n: nat)
    ensures n <= |s|
    ensures s != [] ==> n > 0
    ensures LF !in s[..if n > 0 then n - 1 else 0]
    ensures n > 0 && s[n - 1] != LF ==> n == |s|
  {
    if s == [] then 0
    else if s[0] == LF then 1
    else
      var n := LineLength(s[1..]);
      assert n > 0 ==> s[1..][..n - 1] == s[1..n];
      1 + n
  }

  /** The contract of `LineLength` leaves no choice: a line is its text and one line feed. */
  lemma {:induction false} LineLengthOf(text: seq<byte>, rest: seq<byte>)
    requires LF !in text
    ensures LineLength(text + [LF] + rest) == |text| + 1
  {
    if text == [] {
      assert text + [LF] + rest == [LF] + rest;
    } else {
      LineLengthOf(text[1..], rest);
      assert (text + [LF] + rest)[1..] == text[1..] + [LF] + rest;
    }
  }

  /** How many bytes `read(length)` takes of `available`: all of them for a negative length. A
      `BytesIO` takes any negative length so, a buffered stream only -1. */
  function ReadLength(length: int, available: nat): (n: nat)
    ensures n <= available
  {
    if length < 0 || length > available then available else length
  }

  function Min(a: nat, b: nat): nat {
    if a < b then a else b
  }

  // ---------------------------------------------------------------- blanks

  /** The bytes that `bytes.strip()` and `bytes.split()` treat as whitespace. */
  predicate IsBlank(b: byte) {
    b == SPACE || 9 <= b <= 13
  }

  function StripLeft(s: seq<byte>): seq<byte> {
    if s != [] && IsBlank(s[0]) then StripLeft(s[1..]) else s
  }

  function StripRight(s: seq<byte>): seq<byte> {
    if s != [] && IsBlank(s[|s| - 1]) then StripRight(s[..|s| - 1]) else s
  }

  function Strip(s: seq<byte>): seq<byte> {
    StripRight(StripLeft(s))
  }

  /** `s.split()[-1]`: the last run of non-blank bytes, or nothing when there is none. */
  function LastToken(s: seq<byte>): seq<byte> {
    TrailingToken(StripRight(s))
  }

  function TrailingToken(s: seq<byte>): seq<byte> {
    if s == [] || IsBlank(s[|s| - 1]) then [] else TrailingToken(s[..|s| - 1]) + [s[|s| - 1]]
  }

  predicate BlankFree(s: seq<byte>) {
    forall k | 0 <= k < |s| :: !IsBlank(s[k])
  }

  lemma {:induction false} TrailingTokenOf(before: seq<byte>, token: seq<byte>)
    requires BlankFree(token)
    requires before == [] || IsBlank(before[|before| - 1])
    ensures TrailingToken(before + token) == token
  {
    if token == [] {
      assert before + token == before;
    } else {
      TrailingTokenOf(before, token[..|token| - 1]);
      assert (before + token)[..|before + token| - 1] == before + token[..|token| - 1];
    }
  }

  /** A blank-free value surrounded by blanks strips to itself. */
  lemma {:induction false} StripRightOf(s: seq<byte>, blanks: seq<byte>)
    requires forall k | 0 <= k < |blanks| :: IsBlank(blanks[k])
    requires s == [] || !IsBlank(s[|s| - 1])
    ensures StripRight(s + blanks) == s
  {
    if blanks == [] {
      assert s + blanks == s;
    } else {
      StripRightOf(s, blanks[..|blanks| - 1]);
      assert (s + blanks)[..|s + blanks| - 1] == s + blanks[..|blanks| - 1];
    }
  }

  /** Blanks around a text, of any of the six kinds, do not belong to it. */
  lemma {:induction false} StripIs(left: seq<byte>, text: seq<byte>, right: seq<byte>)
    requires forall k | 0 <= k < |left| :: left[k] in {9, 10, 11, 12, 13, 32}
    requires forall k | 0 <= k < |right| :: right[k] in {9, 10, 11, 12, 13, 32}
    requires text != [] && text[0] !in {9, 10, 11, 12, 13, 32} && text[|text| - 1] !in {9, 10, 11, 12, 13, 32}
    ensures Strip(left + text + right) == text
  {
    StripLeftOf(left, text + right);
    Associate(left, text, right);
    StripRightOf(text, right);
  }

  lemma {:induction false} StripLeftOf(blanks: seq<byte>, s: seq<byte>)
    requires forall k | 0 <= k < |blanks| :: IsBlank(blanks[k])
    requires s == [] || !IsBlank(s[0])
    ensures StripLeft(blanks + s) == s
  {
    if blanks == [] {
      assert blanks + s == s;
    } else {
      StripLeftOf(blanks[1..], s);
      assert (blanks + s)[1..] == blanks[1..] + s;
    }
  }

  // ---------------------------------------------------------------- numerals

  function DigitByte(d: nat): byte
    requires d < 16
  {
    if d < 10 then 48 + d else 87 + d
  }

  function DigitValue(b: byte): Option<nat> {
    if 48 <= b <= 57 then Some(b - 48)
    else if 97 <= b <= 102 then Some(b - 87)
    else if 65 <= b <= 70 then Some(b - 55)
    else None
  }

  predicate IsBase(base: nat) {
    base == 10 || base == 16
  }

  function High(n: nat, base: nat): (h: nat)
    requires IsBase(base)
    ensures h * base <= n < h * base + base
    ensures n >= base ==> h < n
  {
    if base == 10 then n / 10 else n / 16
  }

  /** `"%d" % n` for base 10 and `"%x" % n` for base 16. */
  function Numeral(n: nat, base: nat): (s: seq<byte>)
    requires IsBase(base)
    ensures s != [] && BlankFree(s) && IsAscii(s)
    ensures forall k | 0 <= k < |s| :: DigitValue(s[k]).Some? && DigitValue(s[k]).value < base
    ensures forall k | 0 <= k < |s| :: 48 <= s[k] <= 57 || 97 <= s[k] <= 102
    ensures if n == 0 then s == [48] else s[0] != 48
  {
    if n < base then [DigitByte(n)] else Numeral(High(n, base), base) + [DigitByte(n - High(n, base) * base)]
  }

  /** The number that a nonempty run of digits of the base denotes. */
  function Value(s: seq<byte>, base: nat): Option<nat> {
    if s == [] then None
    else
      var d := DigitValue(s[|s| - 1]);
      if d.None? || d.value >= base then None
      else if |s| == 1 then d
      else
        var high := Value(s[..|s| - 1], base);
        if high.None? then None else Some(high.value * base + d.value)
  }

  lemma {:induction false} DigitOf(d: nat)
    ensures d < 16 ==> DigitValue(DigitByte(d)) == Some(d)
  {
  }

  lemma {:induction false} NumeralValue(n: nat, base: nat)
    requires IsBase(base)
    ensures Value(Numeral(n, base), base) == Some(n)
  {
    hide DigitByte, DigitValue, IsBlank, IsAscii, BlankFree;
    var s := Numeral(n, base);
    DigitOf(if n >= base then n - High(n, base) * base else n);
    if n >= base {
      var h := High(n, base);
      NumeralValue(h, base);
      assert s[..|s| - 1] == Numeral(h, base);
      assert DigitValue(s[|s| - 1]) == Some(n - h * base);
    }
  }

  /** Python's `int(text)` for text without surrounding blanks: an optional sign, then decimal
      digits with single underscores allowed between them. */
  function PyInt(s: seq<byte>): Option<int> {
    if s != [] && s[0] == 45 then
      var n := PyDigits(s[1..]);
      if n.None? then None else Some(-n.value)
    else if s != [] && s[0] == 43 then PyDigits(s[1..])
    else PyDigits(s)
  }

  function PyDigits(s: seq<byte>): (n: Option<int>)
    ensures n.Some? ==> n.value >= 0
  {
    if s == [] || !(48 <= s[|s| - 1] <= 57) then None
    else
      var d := s[|s| - 1] - 48;
      var t := s[..|s| - 1];
      if t == [] then Some(d)
      else
        var high := PyDigits(if t[|t| - 1] == 95 then t[..|t| - 1] else t);
        if high.None? then None else Some(high.value * 10 + d)
  }

  /** `int("%d" % n) == n`. */
  lemma {:induction false} PyIntOfNumeral(n: nat)
    ensures PyInt(Numeral(n, 10)) == Some(n)
  {
    PyDigitsOfNumeral(n);
    assert DigitValue(Numeral(n, 10)[0]).Some?;
  }

  lemma {:induction false} PyDigitsOfNumeral(n: nat)
    ensures PyDigits(Numeral(n, 10)) == Some(n)
  {
    var s := Numeral(n, 10);
    if n >= 10 {
      PyDigitsOfNumeral(High(n, 10));
      var t := Numeral(High(n, 10), 10);
      assert s[..|s| - 1] == t;
      assert DigitValue(t[|t| - 1]).Some?;
    }
  }

  /** Signs, and single underscores between digits, are Python's; anything else is no number. */
  lemma {:induction false} PyIntForms()
    ensures PyInt([45, 53]) == Some(-5) && PyInt([43, 55]) == Some(7) && PyInt([49, 95, 48]) == Some(10)
    ensures PyInt([]) == PyInt([45]) == PyInt([95, 49]) == PyInt([49, 95]) == PyInt([49, 95, 95, 48]) == None
    ensures PyInt([49, 97]) == PyInt([45, 45, 49]) == PyInt([49, 32, 49]) == None
  {
    assert [49, 95, 48][..2] == [49, 95] && [49, 95][..1] == [49];
    assert [49, 95, 95, 48][..3] == [49, 95, 95] && [49, 95, 95][..2] == [49, 95];
    assert [49, 97][..1] == [49] && [49, 32, 49][..2] == [49, 32];
    assert [45, 53][1..] == [53] && [43, 55][1..] == [55] && [45][1..] == [] && [45, 45, 49][1..] == [45, 49];
    assert [45, 49][..1] == [45] && [95, 49][..1] == [95] && [95][..0] == [];
  }

  // ---------------------------------------------------------------- text

  /** The characters by their names. */
  lemma {:induction false} Characters()
    ensures Ascii("\0\t\n\r \":\\") == [NUL, TAB, LF, CR, SPACE, QUOTE, COLON, BACKSLASH]
    ensures Ascii("\r\n") == CRLF
  {
  }

  /** An ASCII literal as bytes (of a character beyond Latin-1, the low byte). */
  function Ascii(s: string): (b: seq<byte>)
    ensures |b| == |s| && forall k | 0 <= k < |s| :: b[k] == s[k] as int % 0x100
  {
    seq(|s|, k requires 0 <= k < |s| => s[k] as int % 0x100)
  }

  lemma Associate<T>(a: seq<T>, b: seq<T>, c: seq<T>)
    ensures a + (b + c) == a + b + c
  {
  }

  lemma SliceOfSlice<T>(s: seq<T>, a: nat, b: nat, c: nat, d: nat)
    requires a <= b <= |s| && c <= d <= b - a
    ensures s[a..b][c..d] == s[a + c..a + d]
  {
    assert |s[a..b][c..d]| == |s[a + c..a + d]|;
    assert forall k | 0 <= k < d - c :: s[a..b][c..d][k] == s[a + c..a + d][k];
  }
}
