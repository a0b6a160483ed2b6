/** The label text file of `App`: the line `export` writes for each label,
    how `read_labels` reads those lines back, and the name of the text file
    that belongs to an image. The file system is a map from file name to file
    contents. */
module LabelFile {
  import opened Wrappers

  // ---------------------------------------------------------------------
  // The Python string operations the file format relies on

  /** Python's `str.isspace()` on the first 256 code points. */
  predicate IsSpace(c: char)
  {
    var n := c as int;
    n == 32 || 9 <= n <= 13 || 28 <= n <= 31 || n == 133 || n == 160
  }

  /** Index of the first `c` in `s`, or `|s|` when `s` has none. */
  function IndexOf(s: string, c: char): (i: nat)
    ensures i <= |s|
  {
    if s == [] || s[0] == c then 0 else 1 + IndexOf(s[1..], c)
  }

  /** The first `c` in `a + b` is the first of `b` when `a` has none. */
  lemma {:induction false} IndexOfAfter(a: string, b: string, c: char)
    requires c !in a
    ensures IndexOf(a + b, c) == |a| + IndexOf(b, c)
  {
    if a == [] {
      assert a + b == b;
    } else {
      assert (a + b)[0] == a[0];
      assert (a + b)[1..] == a[1..] + b;
      IndexOfAfter(a[1..], b, c);
    }
  }

  /** `s.lstrip()`. */
  function StripStart(s: string): string
    decreases |s|
  {
    if s != [] && IsSpace(s[0]) then StripStart(s[1..]) else s
  }

  /** `s.rstrip()`. */
  function StripEnd(s: string): string
    decreases |s|
  {
    if s != [] && IsSpace(s[|s| - 1]) then StripEnd(s[..|s| - 1]) else s
  }

  /** `s.strip()`: whitespace removed from both ends. */
  function Strip(s: string): string
  {
    StripEnd(StripStart(s))
  }

  /** `s.split(" ")`: the pieces between single spaces, empty ones included. */
  function Split(s: string): (fields: seq<string>)
    ensures |fields| >= 1
    decreases |s|
  {
    var n := IndexOf(s, ' ');
    if n == |s| then [s] else [s[..n]] + Split(s[n + 1..])
  }

  /** `" ".join(fields)`. */
  function Join(fields: seq<string>): string
    requires |fields| >= 1
  {
    if |fields| == 1 then fields[0] else fields[0] + " " + Join(fields[1..])
  }

  /** `f.readlines()`: the pieces of `s` that each end just after a newline,
      the last without one when `s` does not end with a newline. */
  function Lines(s: string): seq<string>
    decreases |s|
  {
    if s == [] then []
    else
      var n := IndexOf(s, '\n');
      if n == |s| then [s] else [s[..n + 1]] + Lines(s[n + 1..])
  }

  /** Splitting text that starts with a piece without spaces and a space
      gives that piece and the split of the rest. */
  lemma SplitAfter(a: string, b: string)
    requires ' ' !in a
    ensures Split(a + " " + b) == [a] + Split(b)
  {
    var s := a + " " + b;
    IndexOfAfter(a, " " + b, ' ');
    assert s == a + (" " + b);
    assert s[..|a|] == a && s[|a| + 1..] == b;
  }

  /** Text without spaces splits into itself. */
  lemma SplitNone(a: string)
    requires ' ' !in a
    ensures Split(a) == [a]
  {
    IndexOfAfter(a, [], ' ');
    assert a + [] == a;
  }

  /** Joining fields without spaces with single spaces and splitting at the
      spaces gives the fields back. */
  lemma {:induction false} SplitJoin(fields: seq<string>)
    requires |fields| >= 1
    requires forall k :: 0 <= k < |fields| ==> ' ' !in fields[k]
    ensures Split(Join(fields)) == fields
  {
    if |fields| == 1 {
      SplitNone(fields[0]);
    } else {
      SplitAfter(fields[0], Join(fields[1..]));
      SplitJoin(fields[1..]);
    }
  }

  /** Reading lines from text that starts with a line without a break of its
      own and a break gives that line and the lines of the rest. */
  lemma LinesAfter(a: string, b: string)
    requires '\n' !in a
    ensures Lines(a + "\n" + b) == [a + "\n"] + Lines(b)
  {
    var s := a + "\n" + b;
    IndexOfAfter(a, "\n" + b, '\n');
    assert s == a + ("\n" + b);
    assert s[..|a| + 1] == a + "\n" && s[|a| + 1..] == b;
  }

  /** A character that is neither a space nor in any field is not in their join. */
  lemma {:induction false} JoinAvoids(fields: seq<string>, c: char)
    requires |fields| >= 1 && c != ' '
    requires forall k :: 0 <= k < |fields| ==> c !in fields[k]
    ensures c !in Join(fields)
  {
    if |fields| > 1 {
      JoinAvoids(fields[1..], c);
    }
  }

  // ---------------------------------------------------------------------
  // Numbers

  /** A coordinate as `export` writes it: `units / 10^places`, printed with
      `places` digits after the point. */
  datatype Decimal = Decimal(units: int, places: nat)

  function Pow10(n: nat): (p: nat)
    ensures p >= 1
  {
    if n == 0 then 1 else 10 * Pow10(n - 1)
  }

  /** The number a decimal stands for. */
  function Value(d: Decimal): real
  {
    d.units as real / Pow10(d.places) as real
  }

  predicate IsDigit(c: char) { '0' <= c <= '9' }

  predicate AllDigits(s: string)
  {
    forall i :: 0 <= i < |s| ==> IsDigit(s[i])
  }

  function DigitChar(n: nat): (c: char)
    requires n < 10
    ensures IsDigit(c)
  {
    ('0' as int + n) as char
  }

  function DigitValue(c: char): nat
    requires IsDigit(c)
  {
    c as int - '0' as int
  }

  /** The number a string of decimal digits spells, most significant first. */
  function DigitsValue(s: string): nat
    requires AllDigits(s)
  {
    if s == [] then 0 else DigitsValue(s[..|s| - 1]) * 10 + DigitValue(s[|s| - 1])
  }

  /** `n` in decimal without leading zeros (`"0"` for zero). */
  function NatDigits(n: nat): (s: string)
    ensures |s| >= 1 && AllDigits(s)
  {
    if n < 10 then [DigitChar(n)] else NatDigits(n / 10) + [DigitChar(n % 10)]
  }

  /** The last `width` decimal digits of `n`, zero-padded on the left. */
  function PadDigits(n: nat, width: nat): (s: string)
    ensures |s| == width && AllDigits(s)
  {
    if width == 0 then [] else PadDigits(n / 10, width - 1) + [DigitChar(n % 10)]
  }

  function Abs(n: int): nat { if n < 0 then -n else n }

  /** The characters a formatted number is made of. */
  predicate NumberChars(s: string)
  {
    forall i :: 0 <= i < |s| ==> s[i] == '-' || s[i] == '.' || IsDigit(s[i])
  }

  lemma DigitsAreNumberChars(s: string)
    requires AllDigits(s)
    ensures NumberChars(s)
  {
  }

  /** The text of a non-negative coordinate `a / 10^places`: the whole part
      and, when there are places, a point and exactly `places` digits. */
  function UnsignedText(a: nat, places: nat): (s: string)
    ensures |s| >= 1 && NumberChars(s) && IsDigit(s[0]) && IsDigit(s[|s| - 1])
  {
    var p := Pow10(places);
    DivMod(a, p);
    var whole := NatDigits(a / p);
    DigitsAreNumberChars(whole);
    if places == 0 then whole
    else
      var fraction := PadDigits(a % p, places);
      DigitsAreNumberChars(fraction);
      NumberCharsConcat(whole, ".");
      NumberCharsConcat(whole + ".", fraction);
      whole + "." + fraction
  }

  lemma NumberCharsConcat(a: string, b: string)
    requires NumberChars(a) && NumberChars(b)
    ensures NumberChars(a + b)
  {
    var s := a + b;
    forall i | 0 <= i < |s|
      ensures s[i] == '-' || s[i] == '.' || IsDigit(s[i])
    {
      if i >= |a| {
        assert s[i] == b[i - |a|];
      }
    }
  }

  /** The text of a coordinate: a minus sign for a negative one, then the text
      of its magnitude. */
  function FormatDecimal(d: Decimal): (s: string)
    ensures |s| >= 1 && NumberChars(s) && IsDigit(s[|s| - 1])
    ensures s[0] == '-' <==> d.units < 0
  {
    var unsigned := UnsignedText(Abs(d.units), d.places);
    if d.units < 0 then
      NumberCharsConcat("-", unsigned);
      "-" + unsigned
    else unsigned
  }

  /** The digits of a number without its sign: a whole part and an optional
      fraction after a point, at least one digit in all; the value in units of
      the last place, and the number of places. */
  function ParseUnsigned(body: string): Option<(nat, nat)>
  {
    var n := IndexOf(body, '.');
    ParseParts(body[..n], if n < |body| then body[n + 1..] else "")
  }

  /** The value of a whole part and a fraction, both all digits and not both
      empty. */
  function ParseParts(whole: string, fraction: string): Option<(nat, nat)>
  {
    if AllDigits(whole) && AllDigits(fraction) && |whole| + |fraction| >= 1 then
      Some((Shift(DigitsValue(whole), |fraction|) + DigitsValue(fraction), |fraction|))
    else
      None
  }

  /** `v * 10^places`, one place at a time. */
  function Shift(v: nat, places: nat): nat
  {
    if places == 0 then v else 10 * Shift(v, places - 1)
  }

  lemma {:induction false} ShiftIsProduct(v: nat, places: nat)
    ensures Shift(v, places) == v * Pow10(places)
  {
    if places > 0 {
      ShiftIsProduct(v, places - 1);
      assert v * Pow10(places) == 10 * (v * Pow10(places - 1));
    }
  }

  /** An optional sign, then an unsigned number. */
  function ParseSigned(t: string): Option<Decimal>
  {
    var negative := |t| > 0 && t[0] == '-';
    var body := if |t| > 0 && (t[0] == '-' || t[0] == '+') then t[1..] else t;
    match ParseUnsigned(body)
    case None => None
    case Some(r) => Some(Decimal(if negative then -(r.0 as int) else r.0, r.1))
  }

  /** Python `float(s)` on the plain decimal notation: surrounding whitespace,
      an optional sign, digits with at most one point and at least one digit.
      Anything else is the `ValueError` case, `None`. */
  function ParseNumber(s: string): Option<Decimal>
  {
    ParseSigned(Strip(s))
  }

  lemma {:induction false} NatDigitsValue(n: nat)
    ensures DigitsValue(NatDigits(n)) == n
  {
    if n >= 10 {
      var s := NatDigits(n);
      assert s[..|s| - 1] == NatDigits(n / 10);
      NatDigitsValue(n / 10);
    }
  }

  lemma {:induction false} PadDigitsValue(n: nat, width: nat)
    requires n < Pow10(width)
    ensures DigitsValue(PadDigits(n, width)) == n
  {
    if width > 0 {
      var s := PadDigits(n, width);
      DivMod(n, 10);
      var q: nat := n / 10;
      assert s[..|s| - 1] == PadDigits(q, width - 1);
      assert q < Pow10(width - 1);
      PadDigitsValue(q, width - 1);
    }
  }

  /** Text that neither starts nor ends with whitespace is its own strip. */
  lemma StripKeeps(s: string)
    requires |s| >= 1 && !IsSpace(s[0]) && !IsSpace(s[|s| - 1])
    ensures Strip(s) == s
  {
  }

  lemma NumberCharsAreNotSpace(s: string, i: int)
    requires NumberChars(s) && 0 <= i < |s|
    ensures !IsSpace(s[i]) && s[i] != ' ' && s[i] != '\n'
  {
  }

  lemma DigitsHaveNo(s: string, c: char)
    requires AllDigits(s) && !IsDigit(c)
    ensures c !in s
  {
  }

  /** The first point of digits, a point and more text is the one after the
      digits. */
  lemma PointAfterDigits(whole: string, fraction: string)
    requires AllDigits(whole)
    ensures var s := whole + "." + fraction;
      IndexOf(s, '.') == |whole| && s[..|whole|] == whole && s[|whole| + 1..] == fraction
  {
    DigitsHaveNo(whole, '.');
    IndexOfAfter(whole, "." + fraction, '.');
    assert whole + "." + fraction == whole + ("." + fraction);
  }

  lemma ParsePartsValue(whole: string, fraction: string)
    requires AllDigits(whole) && AllDigits(fraction) && |whole| >= 1
    ensures ParseParts(whole, fraction) ==
      Some((Shift(DigitsValue(whole), |fraction|) + DigitsValue(fraction), |fraction|))
  {
  }

  /** Digits, a point and digits read as the whole part scaled by the places,
      plus the fraction. */
  lemma ParseWithPoint(whole: string, fraction: string)
    requires AllDigits(whole) && AllDigits(fraction) && |whole| >= 1
    ensures ParseUnsigned(whole + "." + fraction) ==
      Some((Shift(DigitsValue(whole), |fraction|) + DigitsValue(fraction), |fraction|))
  {
    PointAfterDigits(whole, fraction);
    ParsePartsValue(whole, fraction);
  }

  /** Digits alone read as a whole number. */
  lemma ParseWithoutPoint(whole: string)
    requires AllDigits(whole) && |whole| >= 1
    ensures ParseUnsigned(whole) == Some((DigitsValue(whole), 0))
  {
    NoPointInDigits(whole);
    assert ParseUnsigned(whole) == ParseParts(whole, []);
    ParsePartsValue(whole, []);
    assert Shift(DigitsValue(whole), 0) == DigitsValue(whole);
    assert DigitsValue([]) == 0;
  }

  lemma NoPointInDigits(whole: string)
    requires AllDigits(whole)
    ensures IndexOf(whole, '.') == |whole| && whole[..|whole|] == whole
  {
    DigitsHaveNo(whole, '.');
    NoPoint(whole);
  }

  lemma NoPoint(s: string)
    requires '.' !in s
    ensures IndexOf(s, '.') == |s| && s[..|s|] == s
  {
    IndexOfAfter(s, [], '.');
    assert s + [] == s;
  }

  lemma DivMod(a: nat, p: nat)
    requires p >= 1
    ensures a / p >= 0 && 0 <= a % p < p
  {
  }

  lemma DivModProduct(a: nat, p: nat)
    requires p >= 1
    ensures a == a / p * p + a % p
  {
  }

  /** The text of a magnitude reads back as the same magnitude and places. */
  lemma UnsignedRoundTrip(a: nat, places: nat)
    ensures ParseUnsigned(UnsignedText(a, places)) == Some((a, places))
  {
    var p := Pow10(places);
    DivMod(a, p);
    var q: nat, r: nat := a / p, a % p;
    var whole := NatDigits(q);
    if places > 0 {
      var fraction := PadDigits(r, places);
      calc {
        ParseUnsigned(UnsignedText(a, places));
        ParseUnsigned(whole + "." + fraction);
        { ParseWithPoint(whole, fraction); }
        Some((Shift(DigitsValue(whole), |fraction|) + DigitsValue(fraction), |fraction|));
        { NatDigitsValue(q); PadDigitsValue(r, places); ShiftIsProduct(q, places); }
        Some((q * p + r, places));
        { DivModProduct(a, p); }
        Some((a, places));
      }
    } else {
      calc {
        ParseUnsigned(UnsignedText(a, places));
        ParseUnsigned(whole);
        { ParseWithoutPoint(whole); }
        Some((DigitsValue(whole), 0));
        { NatDigitsValue(q); assert p == 1; }
        Some((a, places));
      }
    }
  }

  /** Reading back the text of a coordinate gives the same coordinate: same
      digits, same number of places. */
  lemma FormatDecimalRoundTrip(d: Decimal)
    ensures ParseNumber(FormatDecimal(d)) == Some(d)
  {
    var s := FormatDecimal(d);
    NumberCharsAreNotSpace(s, 0);
    NumberCharsAreNotSpace(s, |s| - 1);
    StripKeeps(s);
    var unsigned := UnsignedText(Abs(d.units), d.places);
    UnsignedRoundTrip(Abs(d.units), d.places);
    if d.units < 0 {
      assert s[1..] == unsigned;
    }
  }

  // ---------------------------------------------------------------------
  // Lines of the label file

  /** A label as the file stores it: its type and the corners (x, y) and
      (x1, y1) in image coordinates. */
  datatype LabelRecord = LabelRecord(kind: string, x: Decimal, y: Decimal, x1: Decimal, y1: Decimal)

  /** The exception `read_labels` raises on a bad line: `IndexError` for a
      line with fewer than five fields, `ValueError` for a field `float`
      refuses. */
  datatype LineError = MissingField | BadNumber

  function Fields(l: LabelRecord): seq<string>
  {
    [l.kind, FormatDecimal(l.x), FormatDecimal(l.y), FormatDecimal(l.x1), FormatDecimal(l.y1)]
  }

  /** `"{type} {x} {y} {x1} {y1}"`. */
  function LineBody(l: LabelRecord): string
  {
    Join(Fields(l))
  }

  /** The line `export` writes: the body and a line break. */
  function FormatLine(l: LabelRecord): string
  {
    LineBody(l) + "\n"
  }

  /** `float(i[k])` on the fields `i` of a line. */
  function Field(fields: seq<string>, k: nat): Result<Decimal, LineError>
  {
    if k >= |fields| then Failure(MissingField)
    else match ParseNumber(fields[k])
      case None => Failure(BadNumber)
      case Some(d) => Success(d)
  }

  /** One line of `read_labels`: strip it, split it at single spaces, and take
      the type from field 0 and the four numbers from fields 1 to 4 in that
      order; fields after the fifth are ignored. */
  function ParseLine(line: string): Result<LabelRecord, LineError>
  {
    var i := Split(Strip(line));
    var x := Field(i, 1);
    if x.Failure? then Failure(x.error) else
    var y := Field(i, 2);
    if y.Failure? then Failure(y.error) else
    var x1 := Field(i, 3);
    if x1.Failure? then Failure(x1.error) else
    var y1 := Field(i, 4);
    if y1.Failure? then Failure(y1.error) else
    Success(LabelRecord(i[0], x.value, y.value, x1.value, y1.value))
  }

  /** A label type survives the line format: it is not empty, does not start
      with whitespace and holds no space and no line break. */
  predicate ValidKind(kind: string)
  {
    |kind| >= 1 && !IsSpace(kind[0]) &&
    forall i :: 0 <= i < |kind| ==> kind[i] != ' ' && kind[i] != '\n' && kind[i] != '\r'
  }

  /** The label types the application offers. */
  const LabelOptions: seq<string> :=
    ["Redact_Blur", "Redact_Blur", "Redact_Blur_Text", "Ticker", "Account_Name", "Value", "Curr_Ticker", "Date"]

  /** Every type the application offers survives the line format. */
  lemma LabelOptionsAreValid()
    ensures forall k :: 0 <= k < |LabelOptions| ==> ValidKind(LabelOptions[k])
  {
    forall k | 0 <= k < |LabelOptions|
      ensures ValidKind(LabelOptions[k])
    {
      var s := LabelOptions[k];
      assert forall i :: 0 <= i < |s| ==> 'A' <= s[i] <= 'z';
    }
  }

  /** The join starts with the first field and ends with the last. */
  lemma {:induction false} JoinStartsAndEnds(fields: seq<string>)
    requires |fields| >= 1 && forall k :: 0 <= k < |fields| ==> |fields[k]| >= 1
    ensures var s := Join(fields);
      |s| >= 1 && s[0] == fields[0][0] && s[|s| - 1] == fields[|fields| - 1][|fields[|fields| - 1]| - 1]
  {
    if |fields| > 1 {
      JoinStartsAndEnds(fields[1..]);
    }
  }

  /** Stripping a line whose body neither starts nor ends with whitespace
      leaves the body. */
  lemma StripLine(body: string)
    requires |body| >= 1 && !IsSpace(body[0]) && !IsSpace(body[|body| - 1])
    ensures Strip(body + "\n") == body
  {
    var line := body + "\n";
    assert StripStart(line) == line;
    assert line[..|line| - 1] == body;
    assert StripEnd(body) == body;
  }

  /** The numbers of a line hold no space and no line break. */
  lemma NumberFields(l: LabelRecord, k: int)
    requires 1 <= k < 5
    ensures var f := Fields(l)[k];
      |f| >= 1 && ' ' !in f && '\n' !in f && !IsSpace(f[|f| - 1])
  {
    var f := Fields(l)[k];
    assert NumberChars(f);
    NumberCharsAreNotSpace(f, |f| - 1);
  }

  /** The body of a line starts with the type and ends with a digit. */
  lemma LineBodyEnds(l: LabelRecord)
    requires |l.kind| >= 1
    ensures var body := LineBody(l);
      |body| >= 1 && body[0] == l.kind[0] && !IsSpace(body[|body| - 1])
  {
    var fs := Fields(l);
    NumberFields(l, 1);
    NumberFields(l, 2);
    NumberFields(l, 3);
    NumberFields(l, 4);
    JoinedEnds(fs);
  }

  /** Five non-empty fields joined by spaces start with the first field and
      end with the last character of the fifth. */
  lemma JoinedEnds(fs: seq<string>)
    requires |fs| == 5 && |fs[0]| >= 1 && |fs[1]| >= 1 && |fs[2]| >= 1 && |fs[3]| >= 1 && |fs[4]| >= 1
    requires !IsSpace(fs[4][|fs[4]| - 1])
    ensures var body := Join(fs);
      |body| >= 1 && body[0] == fs[0][0] && !IsSpace(body[|body| - 1])
  {
    JoinStartsAndEnds(fs);
  }

  /** The body of a line with a valid type has no line break, starts with the
      type, ends with a digit and splits into the type and the four numbers. */
  lemma LineBodyFacts(l: LabelRecord)
    requires ValidKind(l.kind)
    ensures var body := LineBody(l);
      '\n' !in body && |body| >= 1 && !IsSpace(body[0]) && !IsSpace(body[|body| - 1]) &&
      Split(body) == Fields(l)
  {
    var fs := Fields(l);
    forall k | 1 <= k < 5
      ensures ' ' !in fs[k] && '\n' !in fs[k]
    {
      NumberFields(l, k);
    }
    JoinAvoids(fs, '\n');
    LineBodyEnds(l);
    SplitJoin(fs);
  }

  /** The line `export` writes for a label with a valid type reads back as the
      same label. */
  lemma LineRoundTrip(l: LabelRecord)
    requires ValidKind(l.kind)
    ensures ParseLine(FormatLine(l)) == Success(l)
  {
    LineBodyFacts(l);
    StripLine(LineBody(l));
    FormatDecimalRoundTrip(l.x);
    FormatDecimalRoundTrip(l.y);
    FormatDecimalRoundTrip(l.x1);
    FormatDecimalRoundTrip(l.y1);
  }

  // ---------------------------------------------------------------------
  // The whole file

  /** The file `export` writes: one line per label, in order. */
  function ExportText(labels: seq<LabelRecord>): string
  {
    if labels == [] then "" else FormatLine(labels[0]) + ExportText(labels[1..])
  }

  lemma {:induction false} ExportTextAppend(labels: seq<LabelRecord>, l: LabelRecord)
    ensures ExportText(labels + [l]) == ExportText(labels) + FormatLine(l)
  {
    if labels != [] {
      assert (labels + [l])[1..] == labels[1..] + [l];
      ExportTextAppend(labels[1..], l);
    }
  }

  /** What `read_labels` gets from the lines of a file: the labels of the lines
      up to the first bad one, and the error of that line if there is one. */
  datatype Parsed = Parsed(labels: seq<LabelRecord>, error: Option<LineError>)

  function ParseLines(lines: seq<string>): Parsed
  {
    if lines == [] then Parsed([], None)
    else match ParseLine(lines[0])
      case Failure(e) => Parsed([], Some(e))
      case Success(l) =>
        var rest := ParseLines(lines[1..]);
        Parsed([l] + rest.labels, rest.error)
  }

  /** Reading the file `export` wrote for labels with valid types gives the same
      labels in the same order and no error. */
  lemma {:induction false} ExportRoundTrip(labels: seq<LabelRecord>)
    requires forall k :: 0 <= k < |labels| ==> ValidKind(labels[k].kind)
    ensures ParseLines(Lines(ExportText(labels))) == Parsed(labels, None)
  {
    if labels != [] {
      LineBodyFacts(labels[0]);
      LinesAfter(LineBody(labels[0]), ExportText(labels[1..]));
      LineRoundTrip(labels[0]);
      ExportRoundTrip(labels[1..]);
    }
  }

  /** The fields of a line whose type is two words separated by a space
      start with those two words. */
  lemma TwoWordFields(l: LabelRecord, first: string, second: string)
    requires l.kind == first + " " + second
    requires |first| >= 1 && !IsSpace(first[0]) && ' ' !in first && ' ' !in second
    ensures var i := Split(Strip(FormatLine(l)));
      |i| >= 2 && i[1] == second
  {
    var body := LineBody(l);
    var rest := Join(Fields(l)[1..]);
    assert body == first + " " + (second + " " + rest) by {
      assert body == l.kind + " " + rest;
    }
    SplitAfter(first, second + " " + rest);
    SplitAfter(second, rest);
    LineBodyEnds(l);
    StripLine(body);
  }

  /** A type with a space in it does not read back: its second word is taken
      for the x coordinate, and when `float` refuses that word the line raises
      `ValueError`. */
  lemma SpaceInKind(l: LabelRecord, first: string, second: string)
    requires l.kind == first + " " + second
    requires |first| >= 1 && !IsSpace(first[0]) && ' ' !in first && ' ' !in second
    requires ParseNumber(second) == None
    ensures ParseLine(FormatLine(l)) == Failure(BadNumber)
  {
    TwoWordFields(l, first, second);
  }

  // ---------------------------------------------------------------------
  // The name of the label file

  /** `name.split(".")[-1]`: the text after the last point, or the whole name
      when it has no point. */
  function Extension(name: string): (ext: string)
    ensures '.' !in ext && |ext| <= |name|
  {
    if name == [] || name[|name| - 1] == '.' then []
    else Extension(name[..|name| - 1]) + [name[|name| - 1]]
  }

  /** `s.replace(pattern, replacement)`: every occurrence of `pattern`, found
      left to right without overlaps, replaced. */
  function ReplaceAll(s: string, pattern: string, replacement: string): string
    requires |pattern| >= 1
    decreases |s|
  {
    if |s| < |pattern| then s
    else if s[..|pattern|] == pattern then replacement + ReplaceAll(s[|pattern|..], pattern, replacement)
    else [s[0]] + ReplaceAll(s[1..], pattern, replacement)
  }

  /** The label file name as `read_labels` and `export` derive it: every
      occurrence of the point and the extension replaced by `.txt`. */
  function TextFileNameAsWritten(name: string): string
  {
    ReplaceAll(name, "." + Extension(name), ".txt")
  }

  /** The label file name: the extension after the last point replaced by
      `txt`, or `.txt` appended to a name without a point. */
  function TextFileName(name: string): string
  {
    var ext := Extension(name);
    if |ext| < |name| then name[..|name| - |ext| - 1] + ".txt" else name + ".txt"
  }

  /** The extension of a name is what follows its last point. */
  lemma {:induction false} ExtensionAfterPoint(stem: string, ext: string)
    requires '.' !in ext
    ensures Extension(stem + "." + ext) == ext
    decreases |ext|
  {
    var name := stem + "." + ext;
    if ext != [] {
      var last := ext[|ext| - 1];
      assert name[|name| - 1] == last;
      assert name[..|name| - 1] == stem + "." + ext[..|ext| - 1];
      ExtensionAfterPoint(stem, ext[..|ext| - 1]);
      assert ext == ext[..|ext| - 1] + [last];
    } else {
      assert name[|name| - 1] == '.';
    }
  }

  /** A name without a point is its own extension. */
  lemma {:induction false} ExtensionWithoutPoint(name: string)
    requires '.' !in name
    ensures Extension(name) == name
  {
    if name != [] {
      ExtensionWithoutPoint(name[..|name| - 1]);
      assert name == name[..|name| - 1] + [name[|name| - 1]];
    }
  }

  /** The label file of `stem.ext` is `stem.txt`; its own label file is itself,
      and its extension is `txt`. */
  lemma TextFileNameOf(stem: string, ext: string)
    requires '.' !in ext
    ensures TextFileName(stem + "." + ext) == stem + ".txt"
    ensures Extension(stem + ".txt") == "txt"
    ensures TextFileName(stem + ".txt") == stem + ".txt"
  {
    var name := stem + "." + ext;
    ExtensionAfterPoint(stem, ext);
    assert name[..|name| - |ext| - 1] == stem;
    assert stem + ".txt" == stem + "." + "txt";
    ExtensionAfterPoint(stem, "txt");
    var t := stem + ".txt";
    assert t[..|t| - 3 - 1] == stem;
  }

  /** A name without a point gets `.txt` appended. */
  lemma TextFileNameWithoutPoint(name: string)
    requires '.' !in name
    ensures TextFileName(name) == name + ".txt"
    ensures TextFileNameAsWritten(name) == name
  {
    ExtensionWithoutPoint(name);
  }

  /** Replacing a pattern that starts with a point passes over text without
      points unchanged. */
  lemma {:induction false} ReplaceSkips(a: string, rest: string, pattern: string, replacement: string)
    requires |pattern| >= 1 && pattern[0] == '.' && '.' !in a
    ensures ReplaceAll(a + rest, pattern, replacement) == a + ReplaceAll(rest, pattern, replacement)
  {
    var s := a + rest;
    if a == [] {
      assert s == rest;
    } else if |s| < |pattern| {
      assert ReplaceAll(rest, pattern, replacement) == rest;
    } else {
      assert s[..|pattern|][0] == a[0];
      assert s[..|pattern|] != pattern;
      assert s[1..] == a[1..] + rest;
      ReplaceSkips(a[1..], rest, pattern, replacement);
      assert a == [a[0]] + a[1..];
    }
  }

  /** Replacing where the text starts with the pattern. */
  lemma ReplaceAtStart(pattern: string, rest: string, replacement: string)
    requires |pattern| >= 1
    ensures ReplaceAll(pattern + rest, pattern, replacement) == replacement + ReplaceAll(rest, pattern, replacement)
  {
    var s := pattern + rest;
    assert s[..|pattern|] == pattern && s[|pattern|..] == rest;
  }

  /** Replacing in a text whose only occurrence of a pattern starting with a
      point is at its end replaces that one. */
  lemma ReplaceAtEnd(a: string, pattern: string, replacement: string)
    requires |pattern| >= 1 && pattern[0] == '.' && '.' !in a
    ensures ReplaceAll(a + pattern, pattern, replacement) == a + replacement
  {
    ReplaceSkips(a, pattern, pattern, replacement);
    ReplaceAtStart(pattern, [], replacement);
    assert pattern + [] == pattern;
  }

  /** With a single point in the name the written derivation is the intended
      one. */
  lemma AsWrittenWithOnePoint(stem: string, ext: string)
    requires '.' !in stem && '.' !in ext
    ensures TextFileNameAsWritten(stem + "." + ext) == TextFileName(stem + "." + ext) == stem + ".txt"
  {
    ExtensionAfterPoint(stem, ext);
    TextFileNameOf(stem, ext);
    assert stem + "." + ext == stem + ("." + ext);
    ReplaceAtEnd(stem, "." + ext, ".txt");
  }

  /** As written, an extension that also occurs earlier in the name is
      replaced there too: `a.png.png` gets the label file `a.txt.txt` instead
      of `a.png.txt`. */
  lemma AsWrittenReplacesEveryOccurrence(stem: string, ext: string)
    requires '.' !in stem && '.' !in ext
    ensures var name := stem + "." + ext + "." + ext;
      TextFileNameAsWritten(name) == stem + ".txt" + ".txt" &&
      TextFileName(name) == stem + "." + ext + ".txt" &&
      (ext != "txt" ==> TextFileNameAsWritten(name) != TextFileName(name))
  {
    var name := stem + "." + ext + "." + ext;
    assert TextFileNameAsWritten(name) == stem + ".txt" + ".txt" by {
      ReplaceTwice(stem, ext);
    }
    TextFileNameOf(stem + "." + ext, ext);
    if ext != "txt" {
      TxtDiffers(stem, ext);
    }
  }

  /** As written, `stem.ext.ext` and `stem.txt.ext` share the label file
      `stem.txt.txt` (for a three-letter extension other than `txt`). */
  lemma AsWrittenSharesLabelFile(stem: string, ext: string)
    requires '.' !in stem && '.' !in ext && |ext| == 3 && ext != "txt"
    ensures TextFileNameAsWritten(stem + "." + ext + "." + ext) == stem + ".txt" + ".txt"
    ensures TextFileNameAsWritten(stem + ".txt" + "." + ext) == stem + ".txt" + ".txt"
  {
    ReplaceTwice(stem, ext);
    var pattern := "." + ext;
    var name := stem + ".txt" + "." + ext;
    ExtensionAfterPoint(stem + ".txt", ext);
    assert TextFileNameAsWritten(name) == ReplaceAll(name, pattern, ".txt");
    assert name == stem + (".txt" + pattern);
    ReplaceSkips(stem, ".txt" + pattern, pattern, ".txt");
    TxtBeforePattern(ext);
    assert ".txt" + "." + ext == ".txt" + pattern;
    assert stem + (".txt" + ".txt") == stem + ".txt" + ".txt";
  }

  /** Replacing `.ext` in `.txt.ext` leaves the leading `.txt` alone. */
  lemma TxtBeforePattern(ext: string)
    requires '.' !in ext && |ext| == 3 && ext != "txt"
    ensures ReplaceAll(".txt" + "." + ext, "." + ext, ".txt") == ".txt" + ".txt"
  {
    var pattern := "." + ext;
    var s := ".txt" + pattern;
    assert s[..4] != pattern by {
      assert s[..4][1..] == "txt" && pattern[1..] == ext;
    }
    assert ".txt" + "." + ext == s && |s| == 8 && |pattern| == 4;
    assert s[1..] == "txt" + pattern;
    assert ReplaceAll(s, pattern, ".txt") == [s[0]] + ReplaceAll(s[1..], pattern, ".txt");
    ReplaceAtEnd("txt", pattern, ".txt");
    assert [s[0]] + ("txt" + ".txt") == ".txt" + ".txt";
  }

  lemma ReplaceTwice(stem: string, ext: string)
    requires '.' !in stem && '.' !in ext
    ensures TextFileNameAsWritten(stem + "." + ext + "." + ext) == stem + ".txt" + ".txt"
  {
    var pattern := "." + ext;
    var name := stem + "." + ext + "." + ext;
    ExtensionAfterPoint(stem + "." + ext, ext);
    assert name == stem + (pattern + pattern);
    ReplaceSkips(stem, pattern + pattern, pattern, ".txt");
    ReplaceAtStart(pattern, pattern, ".txt");
    ReplaceAtEnd([], pattern, ".txt");
    assert [] + pattern == pattern;
  }

  lemma TxtDiffers(stem: string, ext: string)
    requires ext != "txt"
    ensures stem + ".txt" + ".txt" != stem + "." + ext + ".txt"
  {
    var u := stem + ".txt" + ".txt";
    var v := stem + "." + ext + ".txt";
    if |ext| != 3 {
      assert |u| != |v|;
    } else {
      var j :| 0 <= j < 3 && ext[j] != "txt"[j];
      assert u[|stem| + 1 + j] == "txt"[j];
      assert v[|stem| + 1 + j] == ext[j];
    }
  }
}
