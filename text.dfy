/** The string operations the ranking file relies on: `str(n)` and `int(s)` for base-10
    integers, `s.split(',')`, and reading a text file line by line. */
module Text {

  datatype Option<T> = None | Some(value: T)

  /** The index of the first `c` in `s`, or `|s|` when there is none. */
  function Find(s: string, c: char): (i: nat)
    ensures i <= |s| && (i < |s| ==> s[i] == c)
    ensures forall j :: 0 <= j < i ==> s[j] != c
  {
    if s == [] then 0
    else if s[0] == c then 0
    else 1 + Find(s[1..], c)
  }

  /** The first `c` in `a + [c] + b` is the one after `a` when `a` holds none. */
  lemma FindAfter(a: string, c: char, b: string)
    requires c !in a
    ensures Find(a + [c] + b, c) == |a|
  {
    var s := a + [c] + b;
    var i := Find(s, c);
    assert s[|a|] == c;
  }

  lemma FindNone(s: string, c: char)
    requires c !in s
    ensures Find(s, c) == |s|
  {
  }

  /** `s.split(c)`: the pieces between the occurrences of `c`; always at least one piece. */
  function SplitOn(s: string, c: char): (pieces: seq<string>)
    ensures |pieces| >= 1
    ensures forall k :: 0 <= k < |pieces| ==> c !in pieces[k]
    decreases |s|
  {
    var i := Find(s, c);
    if i == |s| then [s]
    else [s[..i]] + SplitOn(s[i + 1..], c)
  }

  /** Splitting at the first separator: the piece before it, then the pieces of the rest. */
  lemma SplitOnFirst(a: string, c: char, b: string)
    requires c !in a
    ensures SplitOn(a + [c] + b, c) == [a] + SplitOn(b, c)
  {
    FindAfter(a, c, b);
    var s := a + [c] + b;
    assert s[..|a|] == a && s[|a| + 1..] == b;
  }

  /** With no separator there is one piece, the whole string. */
  lemma SplitOnNone(s: string, c: char)
    requires c !in s
    ensures SplitOn(s, c) == [s]
  {
    FindNone(s, c);
  }

  /** The splitting inverts joining: the pieces joined with `c` give back `s`. */
  function Join(pieces: seq<string>, c: char): string
    requires |pieces| >= 1
  {
    if |pieces| == 1 then pieces[0] else pieces[0] + [c] + Join(pieces[1..], c)
  }

  lemma {:induction false} SplitOnJoins(s: string, c: char)
    ensures Join(SplitOn(s, c), c) == s
    decreases |s|
  {
    var i := Find(s, c);
    if i < |s| {
      var first, rest := s[..i], s[i + 1..];
      assert s == first + [c] + rest;
      SplitOnJoins(rest, c);
      JoinFirst(first, SplitOn(rest, c), c);
    }
  }

  lemma JoinFirst(first: string, pieces: seq<string>, c: char)
    requires |pieces| >= 1
    ensures Join([first] + pieces, c) == first + [c] + Join(pieces, c)
  {
    assert ([first] + pieces)[1..] == pieces;
  }

  /** The length of the first line of a non-empty text: up to and including the first line
      break, or all of it when there is none. */
  function LineEnd(s: string): (n: nat)
    requires s != []
    ensures 0 < n <= |s|
    ensures '\n' !in s[..n - 1] && (n == |s| || s[n - 1] == '\n')
  {
    var i := Find(s, '\n');
    if i < |s| then i + 1 else |s|
  }

  /** `for line in file`: the lines of a text, each keeping its line break; the last line
      has none when the text does not end with one. */
  function Lines(s: string): (lines: seq<string>)
    ensures forall k :: 0 <= k < |lines| ==> lines[k] != []
    decreases |s|
  {
    if s == [] then [] else [s[..LineEnd(s)]] + Lines(s[LineEnd(s)..])
  }

  /** Each line holds a line break only as its last character, and every line but the
      last ends with one. */
  lemma {:induction false} LinesBreaks(s: string)
    ensures forall k :: 0 <= k < |Lines(s)| ==> '\n' !in Lines(s)[k][..|Lines(s)[k]| - 1]
    ensures forall k :: 0 <= k < |Lines(s)| - 1 ==> Lines(s)[k][|Lines(s)[k]| - 1] == '\n'
    decreases |s|
  {
    if s != [] {
      var n := LineEnd(s);
      var line, rest := s[..n], Lines(s[n..]);
      var lines := Lines(s);
      LinesBreaks(s[n..]);
      assert lines == [line] + rest;
      forall k | 0 <= k < |lines|
        ensures '\n' !in lines[k][..|lines[k]| - 1]
        ensures k < |lines| - 1 ==> lines[k][|lines[k]| - 1] == '\n'
      {
        if k == 0 {
          assert lines[0] == line && line[..|line| - 1] == s[..n - 1];
          if n < |s| {
            assert line[|line| - 1] == s[n - 1] == '\n';
          } else {
            assert s[n..] == [] && |lines| == 1;
          }
        } else {
          var j := k - 1;
          assert lines[k] == rest[j] && 0 <= j < |rest|;
          assert '\n' !in rest[j][..|rest[j]| - 1];
          assert j < |rest| - 1 ==> rest[j][|rest[j]| - 1] == '\n';
        }
      }
    }
  }

  /** A text made of a line that ends with its only line break, then more text, splits into
      that line and the lines of the rest. */
  lemma LinesFirst(line: string, rest: string)
    requires line != [] && line[|line| - 1] == '\n' && '\n' !in line[..|line| - 1]
    ensures Lines(line + rest) == [line] + Lines(rest)
  {
    var s := line + rest;
    FindAfter(line[..|line| - 1], '\n', rest);
    assert line[..|line| - 1] + ['\n'] + rest == s;
    assert s[..|line|] == line && s[|line|..] == rest;
  }

  /** The lines of a text put back together are the text. */
  lemma {:induction false} LinesConcatenate(s: string)
    ensures Concat(Lines(s)) == s
    decreases |s|
  {
    if s != [] {
      var n := LineEnd(s);
      LinesConcatenate(s[n..]);
      assert s == s[..n] + s[n..];
    }
  }

  function Concat(parts: seq<string>): string {
    if parts == [] then "" else parts[0] + Concat(parts[1..])
  }

  /** The characters `str.isspace` accepts. */
  predicate IsSpace(c: char) {
    var n := c as int;
    n == 0x20 || 0x09 <= n <= 0x0D || 0x1C <= n <= 0x1F || n == 0x85 || n == 0xA0 ||
    n == 0x1680 || 0x2000 <= n <= 0x200A || n == 0x2028 || n == 0x2029 || n == 0x202F ||
    n == 0x205F || n == 0x3000
  }

  /** Tab, line feed, vertical tab, form feed, carriage return and space. */
  predicate IsAsciiSpace(c: char) {
    '\t' <= c <= '\r' || c == ' '
  }

  /** The characters `int()` strips from both ends of its text: the ASCII whitespace, and the
      whitespace `str.isspace` knows beyond ASCII, which `int()` first turns into spaces. A
      character below U+0080 is kept as it is, so the information separators U+001C to
      U+001F are never stripped. */
  predicate IsIntSpace(c: char) {
    IsAsciiSpace(c) || (c as int >= 0x80 && IsSpace(c))
  }

  /** What `int()` strips is what `str.isspace` accepts, less the information separators. */
  lemma IntSpaceIsSpace(c: char)
    ensures IsIntSpace(c) <==> IsSpace(c) && !(0x1C <= c as int <= 0x1F)
  {
  }

  predicate IsDigit(c: char) {
    '0' <= c <= '9'
  }

  function StripLeft(s: string): (t: string)
    ensures |t| <= |s| && t == s[|s| - |t|..]
    ensures t != [] ==> !IsIntSpace(t[0])
  {
    if s != [] && IsIntSpace(s[0]) then StripLeft(s[1..]) else s
  }

  function StripRight(s: string): (t: string)
    ensures |t| <= |s| && t == s[..|t|]
    ensures t != [] ==> !IsIntSpace(t[|t| - 1])
  {
    if s != [] && IsIntSpace(s[|s| - 1]) then StripRight(s[..|s| - 1]) else s
  }

  /** Surrounding whitespace removed. */
  function Strip(s: string): string {
    StripRight(StripLeft(s))
  }

  /** A base-10 literal as `int()` accepts it: digits, with single underscores allowed
      between two digits. */
  predicate Numeral(s: string) {
    s != [] && IsDigit(s[0]) &&
    forall i :: 0 <= i < |s| ==> IsDigit(s[i]) || (s[i] == '_' && i + 1 < |s| && IsDigit(s[i + 1]))
  }

  /** The value of the digits of `s`, underscores skipped. */
  function NumeralValue(s: string): nat {
    if s == [] then 0
    else if IsDigit(s[|s| - 1]) then NumeralValue(s[..|s| - 1]) * 10 + (s[|s| - 1] - '0') as nat
    else NumeralValue(s[..|s| - 1])
  }

  /** `int(s)`: surrounding whitespace stripped, an optional sign, then a numeral; `None`
      stands for the `ValueError` raised otherwise. */
  function ParseInt(s: string): (r: Option<int>)
    ensures r.Some? ==> Strip(s) != []
  {
    var t := Strip(s);
    if t != [] && (t[0] == '-' || t[0] == '+') then
      var magnitude: int := NumeralValue(t[1..]);
      if Numeral(t[1..]) then Some(if t[0] == '-' then -magnitude else magnitude)
      else None
    else if Numeral(t) then Some(NumeralValue(t))
    else None
  }

  function DigitChar(d: nat): char
    requires d < 10
  {
    ('0' as int + d) as char
  }

  /** `str(n)` for `n >= 0`: the decimal digits, without leading zeros. */
  function NatToString(n: nat): (s: string)
    ensures s != [] && forall i :: 0 <= i < |s| ==> IsDigit(s[i])
  {
    if n < 10 then [DigitChar(n)] else NatToString(n / 10) + [DigitChar(n % 10)]
  }

  /** `str(n)`: a minus sign before the digits of a negative number. */
  function IntToString(n: int): string {
    if n < 0 then "-" + NatToString(-n) else NatToString(n)
  }

  /** `str(n)` writes only digits and a minus sign. */
  lemma IntToStringChars(n: int)
    ensures forall k :: 0 <= k < |IntToString(n)| ==> IsDigit(IntToString(n)[k]) || IntToString(n)[k] == '-'
  {
    if n < 0 {
      var s := IntToString(n);
      assert forall k :: 1 <= k < |s| ==> s[k] == NatToString(-n)[k - 1];
    }
  }

  /** The digits `str` writes are a numeral of the same value, with no leading zero. */
  lemma {:induction false} NatToStringValue(n: nat)
    ensures Numeral(NatToString(n)) && NumeralValue(NatToString(n)) == n
    ensures |NatToString(n)| > 1 ==> NatToString(n)[0] != '0'
  {
    var s := NatToString(n);
    if n < 10 {
      assert s[..0] == [];
    } else {
      NatToStringValue(n / 10);
      assert s[..|s| - 1] == NatToString(n / 10);
    }
  }

  /** Reading back what `str` wrote, with any whitespace around it, gives the number. */
  lemma IntToStringParses(n: int, before: string, after: string)
    requires forall k :: 0 <= k < |before| ==> IsIntSpace(before[k])
    requires forall k :: 0 <= k < |after| ==> IsIntSpace(after[k])
    ensures ParseInt(before + IntToString(n) + after) == Some(n)
  {
    var s := IntToString(n);
    IntToStringShape(n);
    StripAround(before, s, after);
    if n < 0 {
      ParseSigned(before + s + after, s);
    } else {
      ParseUnsigned(before + s + after, s);
    }
  }

  /** What `str` writes starts with a digit or a minus sign and ends with a digit, and is a
      numeral of the value, after a minus sign when the value is negative. */
  lemma IntToStringShape(n: int)
    ensures var s := IntToString(n);
      s != [] && (IsDigit(s[0]) || s[0] == '-') && IsDigit(s[|s| - 1]) &&
      (n < 0 ==> s[0] == '-' && Numeral(s[1..]) && NumeralValue(s[1..]) == -n) &&
      (n >= 0 ==> Numeral(s) && NumeralValue(s) == n)
  {
    var s := IntToString(n);
    var digits := NatToString(if n < 0 then -n else n);
    NatToStringValue(if n < 0 then -n else n);
    assert s[|s| - 1] == digits[|digits| - 1];
    if n < 0 {
      assert s[1..] == digits;
    }
  }

  /** An information separator (U+001C to U+001F) is never stripped, whatever whitespace
      comes before it: `int("\x1c5")` and `int("\xa0\x1c5")` both raise. */
  lemma SeparatorNotStripped(before: string, separator: char, digits: string)
    requires forall k :: 0 <= k < |before| ==> IsIntSpace(before[k])
    requires 0x1C <= separator as int <= 0x1F
    requires digits != [] && forall k :: 0 <= k < |digits| ==> IsDigit(digits[k])
    ensures ParseInt(before + [separator] + digits) == None
  {
    StripToSeparator(before, separator, digits);
    ParseNoSign(before + [separator] + digits, [separator] + digits);
  }

  /** Stripping stops at the separator. */
  lemma StripToSeparator(before: string, separator: char, digits: string)
    requires forall k :: 0 <= k < |before| ==> IsIntSpace(before[k])
    requires 0x1C <= separator as int <= 0x1F
    requires digits != [] && IsDigit(digits[|digits| - 1])
    ensures Strip(before + [separator] + digits) == [separator] + digits
  {
    var s := [separator] + digits;
    NotIntSpace(separator);
    NotIntSpace(digits[|digits| - 1]);
    assert s[0] == separator;
    StripLeftOf(before, s);
    assert before + s == before + [separator] + digits;
    assert s[|s| - 1] == digits[|digits| - 1];
  }

  /** Neither a separator nor a digit is stripped. */
  lemma NotIntSpace(c: char)
    requires 0x1C <= c as int <= 0x1F || IsDigit(c)
    ensures !IsIntSpace(c)
  {
  }

  /** A stripped text that starts with neither a sign nor a digit does not read as a number. */
  lemma ParseNoSign(x: string, t: string)
    requires Strip(x) == t && t != [] && t[0] != '-' && t[0] != '+' && !IsDigit(t[0])
    ensures ParseInt(x) == None
  {
  }

  /** A stripped text of a minus sign and a numeral reads as the negated numeral. */
  lemma ParseSigned(x: string, t: string)
    requires Strip(x) == t && t != [] && t[0] == '-' && Numeral(t[1..])
    ensures var magnitude: int := NumeralValue(t[1..]); ParseInt(x) == Some(-magnitude)
  {
  }

  /** A stripped text that is a numeral reads as its value. */
  lemma ParseUnsigned(x: string, t: string)
    requires Strip(x) == t && Numeral(t)
    ensures ParseInt(x) == Some(NumeralValue(t))
  {
  }

  /** Stripping removes exactly the surrounding whitespace. */
  lemma {:induction false} StripAround(before: string, s: string, after: string)
    requires forall k :: 0 <= k < |before| ==> IsIntSpace(before[k])
    requires forall k :: 0 <= k < |after| ==> IsIntSpace(after[k])
    requires s != [] && !IsIntSpace(s[0]) && !IsIntSpace(s[|s| - 1])
    ensures Strip(before + s + after) == s
  {
    var rest := s + after;
    assert rest[0] == s[0];
    StripLeftOf(before, rest);
    assert before + s + after == before + rest;
    StripRightOf(s, after);
  }

  lemma {:induction false} StripLeftOf(before: string, s: string)
    requires forall k :: 0 <= k < |before| ==> IsIntSpace(before[k])
    requires s != [] && !IsIntSpace(s[0])
    ensures StripLeft(before + s) == s
    decreases |before|
  {
    if before != [] {
      var rest := before[1..];
      assert (before + s)[0] == before[0] && IsIntSpace(before[0]);
      assert (before + s)[1..] == rest + s;
      forall k | 0 <= k < |rest| ensures IsIntSpace(rest[k]) {
        assert rest[k] == before[k + 1];
      }
      StripLeftOf(rest, s);
    } else {
      assert before + s == s;
    }
  }

  lemma {:induction false} StripRightOf(s: string, after: string)
    requires forall k :: 0 <= k < |after| ==> IsIntSpace(after[k])
    requires s != [] && !IsIntSpace(s[|s| - 1])
    ensures StripRight(s + after) == s
    decreases |after|
  {
    if after != [] {
      var t, rest := s + after, after[..|after| - 1];
      assert t[|t| - 1] == after[|after| - 1] && IsIntSpace(after[|after| - 1]);
      assert t[..|t| - 1] == s + rest;
      forall k | 0 <= k < |rest| ensures IsIntSpace(rest[k]) {
        assert rest[k] == after[k];
      }
      StripRightOf(s, rest);
    } else {
      assert s + after == s;
    }
  }
}
