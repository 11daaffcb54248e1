/**
  The transform that stores a list of coordinates as text: one "x,y" line per
  coordinate, lines separated by newlines, and reads such text back by
  splitting on newlines and then on commas.

  Coordinates are integers. A field that cannot be read as a number is NaN,
  which is also what the number NaN prints as.
 */
module Coords {

  /** A coordinate value: an integer, or NaN from a failed parse. */
  datatype Num = Int(value: int) | NaN

  datatype Point = Point(x: Num, y: Num)

  const LineSep := '\n'
  const FieldSep := ','

  // ---------------------------------------------------------------------------
  // Strings: split, join and counting

  /** Number of occurrences of c in s. */
  function Count(s: string, c: char): (n: nat)
    ensures n <= |s|
    ensures n == 0 <==> c !in s
  {
    if |s| == 0 then 0
    else (if s[0] == c then 1 else 0) + Count(s[1..], c)
  }

  /** Joins the parts with sep between each two; no parts give the empty string. */
  function Join(parts: seq<string>, sep: char): (r: string)
    ensures |parts| == 0 ==> r == ""
    ensures |parts| == 1 ==> r == parts[0]
    ensures |parts| >= 2 ==> |r| > |parts[0]| && r[..|parts[0]|] == parts[0] && r[|parts[0]|] == sep
  {
    if |parts| == 0 then ""
    else if |parts| == 1 then parts[0]
    else parts[0] + [sep] + Join(parts[1..], sep)
  }

  /**
    Splits s at every sep: always at least one part, one more than there are
    separators, none holding a separator.
   */
  function Split(s: string, sep: char): (parts: seq<string>)
    ensures |parts| == Count(s, sep) + 1
    ensures forall i :: 0 <= i < |parts| ==> sep !in parts[i]
  {
    if |s| == 0 then [""]
    else
      var rest := Split(s[1..], sep);
      if s[0] == sep then [""] + rest
      else [[s[0]] + rest[0]] + rest[1..]
  }

  /** Join undoes Split: joining the parts gives the text back. */
  lemma {:induction false} JoinSplit(s: string, sep: char)
    ensures Join(Split(s, sep), sep) == s
  {
    if |s| > 0 {
      JoinSplit(s[1..], sep);
      var rest := Split(s[1..], sep);
      if s[0] == sep {
        assert Join([""] + rest, sep) == [sep] + Join(rest, sep);
      } else if |rest| == 1 {
        assert Split(s, sep) == [[s[0]] + rest[0]];
      } else {
        assert Split(s, sep)[1..] == rest[1..];
        assert Join(rest, sep) == rest[0] + [sep] + Join(rest[1..], sep);
      }
      assert [s[0]] + s[1..] == s;
    }
  }

  lemma {:induction false} SplitNoSeparator(a: string, sep: char)
    requires sep !in a
    ensures Split(a, sep) == [a]
  {
    if |a| > 0 {
      SplitNoSeparator(a[1..], sep);
      assert [a[0]] + a[1..] == a;
    }
  }

  /** Splitting at a first separator preceded by a gives a, then the parts of what follows. */
  lemma {:induction false} SplitAtFirst(a: string, b: string, sep: char)
    requires sep !in a
    ensures Split(a + [sep] + b, sep) == [a] + Split(b, sep)
  {
    var s := a + [sep] + b;
    if |a| == 0 {
      assert s[1..] == b;
    } else {
      assert s[1..] == a[1..] + [sep] + b;
      SplitAtFirst(a[1..], b, sep);
      assert [a[0]] + a[1..] == a;
    }
  }

  /** Split undoes Join when no part holds the separator. */
  lemma {:induction false} SplitJoin(parts: seq<string>, sep: char)
    requires |parts| >= 1
    requires forall i :: 0 <= i < |parts| ==> sep !in parts[i]
    ensures Split(Join(parts, sep), sep) == parts
  {
    if |parts| == 1 {
      SplitNoSeparator(parts[0], sep);
    } else {
      SplitJoin(parts[1..], sep);
      SplitAtFirst(parts[0], Join(parts[1..], sep), sep);
      assert [parts[0]] + parts[1..] == parts;
    }
  }

  lemma {:induction false} CountAppend(a: string, b: string, c: char)
    ensures Count(a + b, c) == Count(a, c) + Count(b, c)
  {
    if |a| > 0 {
      assert (a + b)[1..] == a[1..] + b;
      CountAppend(a[1..], b, c);
    } else {
      assert a + b == b;
    }
  }

  /** Joining n separator-free parts puts exactly n - 1 separators in the text. */
  lemma {:induction false} JoinCount(parts: seq<string>, sep: char)
    requires |parts| >= 1
    requires forall i :: 0 <= i < |parts| ==> sep !in parts[i]
    ensures Count(Join(parts, sep), sep) == |parts| - 1
  {
    if |parts| > 1 {
      JoinCount(parts[1..], sep);
      CountAppend(parts[0] + [sep], Join(parts[1..], sep), sep);
      CountAppend(parts[0], [sep], sep);
      assert Count([sep], sep) == 1;
    }
  }

  // ---------------------------------------------------------------------------
  // Numbers: printing and parseFloat

  predicate IsDigit(c: char) {
    '0' <= c <= '9'
  }

  function DigitChar(d: nat): (c: char)
    requires d < 10
    ensures IsDigit(c)
  {
    ('0' as int + d) as char
  }

  /** The decimal digits of n, most significant first, without leading zeros. */
  function NatDigits(n: nat): (ds: string)
    ensures |ds| >= 1
    ensures forall i :: 0 <= i < |ds| ==> IsDigit(ds[i])
    ensures ds[0] == '0' ==> n == 0
  {
    if n < 10 then [DigitChar(n)]
    else NatDigits(n / 10) + [DigitChar(n % 10)]
  }

  /** The value of a run of decimal digits, read left to right. */
  function DigitsValue(ds: string): nat
    requires forall i :: 0 <= i < |ds| ==> IsDigit(ds[i])
  {
    if |ds| == 0 then 0
    else
      assert IsDigit(ds[|ds| - 1]);
      DigitsValue(ds[..|ds| - 1]) * 10 + (ds[|ds| - 1] as int - '0' as int)
  }

  lemma {:induction false} DigitsValueOfNatDigits(n: nat)
    ensures DigitsValue(NatDigits(n)) == n
  {
    var ds := NatDigits(n);
    if n >= 10 {
      assert ds[..|ds| - 1] == NatDigits(n / 10);
      DigitsValueOfNatDigits(n / 10);
    }
  }

  /** How many characters at the start of s are digits: the longest digit prefix. */
  function LeadingDigits(s: string): (k: nat)
    ensures k <= |s|
    ensures forall i :: 0 <= i < k ==> IsDigit(s[i])
    ensures k < |s| ==> !IsDigit(s[k])
  {
    if |s| == 0 || !IsDigit(s[0]) then 0
    else 1 + LeadingDigits(s[1..])
  }

  /** The text of a number as string concatenation prints it. */
  function NumToString(v: Num): (s: string)
    ensures LineSep !in s && FieldSep !in s
  {
    match v
    case NaN => "NaN"
    case Int(i) => if i < 0 then "-" + NatDigits(-i) else NatDigits(i)
  }

  /**
    parseFloat on integer text: an optional sign, then the longest run of
    digits; whatever follows is ignored; NaN when no digit follows the sign.
   */
  function ParseFloat(s: string): (v: Num)
    ensures v.Int? <==>
      (|s| > 0 && IsDigit(s[0])) || (|s| > 1 && (s[0] == '-' || s[0] == '+') && IsDigit(s[1]))
  {
    var negative := |s| > 0 && s[0] == '-';
    var unsigned := if |s| > 0 && (s[0] == '-' || s[0] == '+') then s[1..] else s;
    var k := LeadingDigits(unsigned);
    if k == 0 then NaN
    else
      var n: int := DigitsValue(unsigned[..k]);
      Int(if negative then -n else n)
  }

  /** Reading back the printed text of a number gives the number. */
  lemma {:induction false} ParsePrinted(v: Num)
    ensures ParseFloat(NumToString(v)) == v
  {
    match v
    case NaN =>
    case Int(i) =>
      var n: nat := if i < 0 then -i else i;
      var ds := NatDigits(n);
      var s := NumToString(v);
      var unsigned := if i < 0 then s[1..] else s;
      assert unsigned == ds;
      assert LeadingDigits(ds) == |ds|;
      assert ds[..|ds|] == ds;
      DigitsValueOfNatDigits(n);
  }

  // ---------------------------------------------------------------------------
  // Lines and the whole text

  /** One line of the stored text: x, a comma, y. */
  function FormatLine(p: Point): (line: string)
    ensures LineSep !in line
  {
    NumToString(p.x) + [FieldSep] + NumToString(p.y)
  }

  /**
    Reads one line: x from the text before the first comma, y from the text
    between the first and the second comma; a missing field is NaN.
   */
  function ParseLine(line: string): (p: Point)
    ensures FieldSep !in line ==> p.y == NaN
  {
    var fields := Split(line, FieldSep);
    Point(ParseFloat(fields[0]), if |fields| > 1 then ParseFloat(fields[1]) else NaN)
  }

  /** A line without a comma is read whole as x; y is missing, so NaN. */
  lemma ParseLineNoComma(line: string)
    requires FieldSep !in line
    ensures ParseLine(line) == Point(ParseFloat(line), NaN)
  {
    SplitNoSeparator(line, FieldSep);
  }

  /**
    With the first comma at index i, x is read from the text before it and y
    from the text after it up to the next comma (or the end of the line).
   */
  lemma ParseLineFields(line: string, i: nat, j: nat)
    requires i < j <= |line| && line[i] == FieldSep && FieldSep !in line[..i]
    requires FieldSep !in line[i + 1..j] && (j == |line| || line[j] == FieldSep)
    ensures ParseLine(line).x == ParseFloat(line[..i])
    ensures ParseLine(line).y == ParseFloat(line[i + 1..j])
  {
    SplitFirstTwo(line, i, j, FieldSep);
  }

  /** Splitting at the first separator, found at index i. */
  lemma {:induction false} SplitAt(s: string, i: nat, sep: char)
    requires i < |s| && s[i] == sep && sep !in s[..i]
    ensures Split(s, sep) == [s[..i]] + Split(s[i + 1..], sep)
  {
    if i > 0 {
      assert s[0] in s[..i];
      SplitAt(s[1..], i - 1, sep);
      assert s[1..][..i - 1] == s[1..i] && s[1..][i..] == s[i + 1..];
      assert [s[0]] + s[1..i] == s[..i];
    }
  }

  lemma {:induction false} SplitFirstTwo(s: string, i: nat, j: nat, sep: char)
    requires i < j <= |s| && s[i] == sep && sep !in s[..i]
    requires sep !in s[i + 1..j] && (j == |s| || s[j] == sep)
    ensures |Split(s, sep)| >= 2
    ensures Split(s, sep)[0] == s[..i] && Split(s, sep)[1] == s[i + 1..j]
  {
    SplitAt(s, i, sep);
    var after := s[i + 1..];
    if j == |s| {
      assert after == s[i + 1..j];
      SplitNoSeparator(after, sep);
    } else {
      assert after[..j - i - 1] == s[i + 1..j];
      SplitAt(after, j - i - 1, sep);
    }
  }

  lemma {:induction false} ParseFormattedLine(p: Point)
    ensures ParseLine(FormatLine(p)) == p
  {
    var fields := [NumToString(p.x), NumToString(p.y)];
    assert Join(fields, FieldSep) == FormatLine(p);
    SplitJoin(fields, FieldSep);
    ParsePrinted(p.x);
    ParsePrinted(p.y);
  }

  /** The lines of the stored text, one per point, in order. */
  function Lines(points: seq<Point>): (lines: seq<string>)
    ensures |lines| == |points|
    ensures forall i :: 0 <= i < |lines| ==> LineSep !in lines[i]
  {
    seq(|points|, i requires 0 <= i < |points| => FormatLine(points[i]))
  }

  /** Reads the stored text: one point per newline-separated line, in order. */
  function Deserialize(s: string): (points: seq<Point>)
    ensures |points| == Count(s, LineSep) + 1
  {
    var lines := Split(s, LineSep);
    seq(|lines|, i requires 0 <= i < |lines| => ParseLine(lines[i]))
  }

  /**
    Writes the points as text: each point's line pushed in list order, then the
    lines joined with newlines.
   */
  method Serialize(points: seq<Point>) returns (s: string)
    ensures s == Join(Lines(points), LineSep)
    ensures |points| == 0 ==> s == ""
    ensures |points| > 0 ==> Split(s, LineSep) == Lines(points)
    ensures |points| > 0 ==> Count(s, LineSep) == |points| - 1
    ensures |points| > 0 ==> Deserialize(s) == points
  {
    var coords: seq<string> := [];
    for i := 0 to |points|
      invariant |coords| == i
      invariant forall k :: 0 <= k < i ==> coords[k] == FormatLine(points[k])
    {
      coords := coords + [FormatLine(points[i])];
    }
    assert coords == Lines(points);
    s := Join(coords, LineSep);
    if |points| > 0 {
      SplitJoin(coords, LineSep);
      RoundTrip(points);
    }
  }

  /** Reading back the text written for a non-empty list gives the list. */
  lemma {:induction false} RoundTrip(points: seq<Point>)
    requires |points| > 0
    ensures Deserialize(Join(Lines(points), LineSep)) == points
  {
    var lines := Lines(points);
    SplitJoin(lines, LineSep);
    forall i | 0 <= i < |points|
      ensures ParseLine(lines[i]) == points[i]
    {
      ParseFormattedLine(points[i]);
    }
  }

  /**
    The empty list is written as the empty text, which reads back as one point
    with both fields NaN: the empty list does not survive the round trip.
   */
  lemma EmptyDoesNotRoundTrip()
    ensures Join(Lines([]), LineSep) == ""
    ensures Deserialize("") == [Point(NaN, NaN)]
  {
    assert Split("", LineSep) == [""];
    assert Split("", FieldSep) == [""];
    assert ParseFloat("") == NaN;
  }
}
