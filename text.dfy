/** Character and string operations of Python that both scripts rely on:
    str.split, str.lower, str.endswith, str.isalnum and integer formatting.
    Characters are modelled on ASCII (see README, "Left out"). */
module Text {

  datatype Option<+T> = None | Some(value: T)

  /** ASCII letters and digits: the model of Python's str.isalnum. */
  predicate IsAlnum(c: char) {
    'a' <= c <= 'z' || 'A' <= c <= 'Z' || '0' <= c <= '9'
  }

  predicate IsDigit(c: char) {
    '0' <= c <= '9'
  }

  predicate AllDigits(s: string) {
    forall k :: 0 <= k < |s| ==> IsDigit(s[k])
  }

  /** str.lower on one character, for ASCII. */
  function LowerChar(c: char): char {
    if 'A' <= c <= 'Z' then (c as int + 32) as char else c
  }

  /** str.lower */
  function Lower(s: string): (r: string)
    ensures |r| == |s|
    ensures forall k :: 0 <= k < |s| ==> r[k] == LowerChar(s[k])
  {
    seq(|s|, k requires 0 <= k < |s| => LowerChar(s[k]))
  }

  /** str.endswith */
  predicate EndsWith(s: string, t: string) {
    |t| <= |s| && s[|s| - |t|..] == t
  }

  /** The inverse of Split: the pieces with one separator between neighbours. */
  function Join(pieces: seq<string>, sep: char): string
    requires |pieces| >= 1
  {
    if |pieces| == 1 then pieces[0] else pieces[0] + [sep] + Join(pieces[1..], sep)
  }

  /** s.split(sep) for a one-character separator: the maximal runs between
      separators, including the empty ones. */
  function Split(s: string, sep: char): (pieces: seq<string>)
    ensures |pieces| >= 1
    ensures forall k :: 0 <= k < |pieces| ==> sep !in pieces[k]
    ensures Join(pieces, sep) == s
    decreases |s|
  {
    if s == [] then [[]]
    else
      var rest := Split(s[1..], sep);
      if s[0] == sep then
        assert ([[]] + rest)[1..] == rest;
        [[]] + rest
      else
        var pieces := [[s[0]] + rest[0]] + rest[1..];
        assert pieces[1..] == rest[1..];
        assert |rest| > 1 ==> Join(rest, sep) == rest[0] + [sep] + Join(rest[1..], sep);
        assert s == [s[0]] + s[1..];
        pieces
  }

  /** A joined string ends with its last piece, and that piece is either the
      whole string or follows a separator. */
  lemma {:induction false} JoinEndsWithLast(pieces: seq<string>, sep: char)
    requires |pieces| >= 1
    ensures var s, last := Join(pieces, sep), pieces[|pieces| - 1];
      EndsWith(s, last) && (|pieces| == 1 || (|last| < |s| && s[|s| - |last| - 1] == sep))
  {
    if |pieces| > 1 {
      JoinEndsWithLast(pieces[1..], sep);
      var tail := Join(pieces[1..], sep);
      var last := pieces[|pieces| - 1];
      assert last == pieces[1..][|pieces[1..]| - 1];
      var s := pieces[0] + [sep] + tail;
      assert s[|s| - |tail|..] == tail;
      if |pieces| == 2 {
        assert tail == last;
      }
    }
  }

  /** A joined string starts with its first piece, followed by a separator
      when there is more than one piece. */
  lemma {:induction false} JoinStartsWithFirst(pieces: seq<string>, sep: char)
    requires |pieces| >= 1
    ensures var s, first := Join(pieces, sep), pieces[0];
      |first| <= |s| && s[..|first|] == first && (|pieces| == 1 || s[|first|] == sep)
  {
    if |pieces| > 1 {
      var s := Join(pieces, sep);
      assert s == pieces[0] + [sep] + Join(pieces[1..], sep);
      assert s[..|pieces[0]|] == pieces[0];
    }
  }

  /** s.split(sep)[-1] is the longest suffix of s without a separator. */
  lemma LastPiece(s: string, sep: char)
    ensures var pieces := Split(s, sep); var last := pieces[|pieces| - 1];
      sep !in last && EndsWith(s, last) && (|last| == |s| || s[|s| - |last| - 1] == sep)
  {
    var pieces := Split(s, sep);
    JoinEndsWithLast(pieces, sep);
  }

  /** s.split(sep)[0] is the longest prefix of s without a separator. */
  lemma FirstPiece(s: string, sep: char)
    ensures var first := Split(s, sep)[0];
      sep !in first && |first| <= |s| && s[..|first|] == first && (|first| == |s| || s[|first|] == sep)
  {
    var pieces := Split(s, sep);
    JoinStartsWithFirst(pieces, sep);
  }

  /** Splitting a string that holds no separator gives the string itself. */
  lemma {:induction false} SplitWithoutSeparator(s: string, sep: char)
    requires sep !in s
    ensures Split(s, sep) == [s]
    decreases |s|
  {
    if s != [] {
      SplitWithoutSeparator(s[1..], sep);
      assert s == [s[0]] + s[1..];
    }
  }

  function Digit(d: nat): (c: char)
    requires d < 10
    ensures IsDigit(c) && c as int - '0' as int == d
  {
    ('0' as int + d) as char
  }

  /** The value of a string of decimal digits. */
  function DigitsValue(s: string): nat
    requires AllDigits(s)
  {
    if s == [] then 0 else 10 * DigitsValue(s[..|s| - 1]) + (s[|s| - 1] as int - '0' as int)
  }

  /** f"{n}" for a non-negative integer: its decimal digits, without leading
      zeros. */
  function Decimal(n: nat): (r: string)
    ensures 1 <= |r| && AllDigits(r)
    ensures (r[0] == '0') == (n == 0)
    ensures n >= 10 ==> |r| >= 2
  {
    if n < 10 then [Digit(n)] else Decimal(n / 10) + [Digit(n % 10)]
  }

  /** Reading back the digits that Decimal writes gives the number. */
  lemma {:induction false} DecimalRoundTrip(n: nat)
    ensures DigitsValue(Decimal(n)) == n
  {
    if n >= 10 {
      DecimalRoundTrip(n / 10);
      var s := Decimal(n);
      assert s[..|s| - 1] == Decimal(n / 10);
    }
  }

  /** f"{n:02d}" for a non-negative integer: exactly two digits below ten
      (a leading zero), the plain decimal form from ten on, and reading the
      digits back gives n. */
  function Pad2(n: nat): (r: string)
    ensures 2 <= |r| && AllDigits(r)
    ensures DigitsValue(r) == n
    ensures n < 10 ==> |r| == 2
    ensures n >= 10 ==> r == Decimal(n)
  {
    DecimalRoundTrip(n);
    if n < 10 then
      var r := "0" + Decimal(n);
      assert r[..|r| - 1] == "0";
      r
    else Decimal(n)
  }
}
