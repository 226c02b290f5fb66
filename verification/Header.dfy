/**
 The Range header: decimal printing, strconv.ParseInt, strings.Split, and the header rewriting
 of updateRangeRequestHeader.
 */
module Header {
  import opened Wrappers
  import opened Ranges
  import opened Promise
  import opened Planner

  // ---- decimal numbers ----

  predicate IsDigit(c: char) {
    '0' <= c <= '9'
  }

  function DigitChar(d: nat): (c: char)
    requires d < 10
    ensures IsDigit(c)
  {
    '0' + d as char
  }

  function Digits(n: nat): (s: string)
    ensures |s| >= 1
  {
    if n < 10 then [DigitChar(n)] else Digits(n / 10) + [DigitChar(n % 10)]
  }

  /** The %d verb. */
  function PrintInt(x: int): string {
    if x < 0 then "-" + Digits(-x) else Digits(x)
  }

  predicate AllDigits(s: string) {
    s == [] || (IsDigit(s[|s| - 1]) && AllDigits(s[..|s| - 1]))
  }

  function Value(s: string): nat
    requires AllDigits(s)
  {
    if s == [] then 0 else 10 * Value(s[..|s| - 1]) + (s[|s| - 1] - '0') as nat
  }

  /** strconv.ParseInt(s, 10, 64): an optional sign, at least one digit, and no overflow. */
  function ParseInt(s: string): (r: Option<int>)
    ensures r.Some? ==> -TWO_TO_63 <= r.value <= MAX_INT64
  {
    if s == [] then None
    else
      var body := if s[0] == '+' || s[0] == '-' then s[1..] else s;
      if body == [] || !AllDigits(body) then None
      else if s[0] == '-' then
        if Value(body) > TWO_TO_63 then None else Some(0 - Value(body) as int)
      else
        if Value(body) > MAX_INT64 then None else Some(Value(body))
  }

  lemma {:induction false} NoSign(n: nat)
    ensures '-' !in Digits(n) && '+' !in Digits(n)
  {
    if n >= 10 {
      NoSign(n / 10);
    }
  }

  /** Parsing the digits of a number gives the number back. */
  lemma {:induction false} ValueOfDigits(n: nat)
    ensures AllDigits(Digits(n)) && Value(Digits(n)) == n
  {
    if n >= 10 {
      ValueOfDigits(n / 10);
      var s := Digits(n);
      assert s[..|s| - 1] == Digits(n / 10);
    } else {
      assert Digits(n)[..0] == [];
    }
  }

  /** Every int64 number is read back as it was printed, and no other number is read at all. */
  lemma ParsePrinted(x: int)
    ensures ParseInt(PrintInt(x)) == if -TWO_TO_63 <= x <= MAX_INT64 then Some(x) else None
  {
    var n := if x < 0 then -x else x;
    ValueOfDigits(n);
    NoSign(n);
    assert ("-" + Digits(n))[1..] == Digits(n);
  }

  // ---- splitting ----

  /** strings.Split with a one-character separator. */
  function Split(s: string, sep: char): (parts: seq<string>)
    ensures |parts| >= 1
  {
    if s == [] then [[]]
    else
      var rest := Split(s[1..], sep);
      if s[0] == sep then [[]] + rest else [[s[0]] + rest[0]] + rest[1..]
  }

  lemma {:induction false} SplitParts(s: string, sep: char, i: nat)
    requires i < |Split(s, sep)|
    ensures sep !in Split(s, sep)[i]
  {
    if s != [] {
      var rest := Split(s[1..], sep);
      if s[0] == sep {
        if i > 0 {
          SplitParts(s[1..], sep, i - 1);
        }
      } else {
        SplitParts(s[1..], sep, i);
      }
    }
  }

  lemma {:induction false} SplitClean(s: string, sep: char)
    requires sep !in s
    ensures Split(s, sep) == [s]
  {
    if s != [] {
      SplitClean(s[1..], sep);
      assert [s[0]] + s[1..] == s;
    }
  }

  lemma {:induction false} SplitFirst(a: string, b: string, sep: char)
    requires sep !in a
    ensures Split(a + [sep] + b, sep) == [a] + Split(b, sep)
  {
    var s := a + [sep] + b;
    if a == [] {
      assert s[1..] == b;
    } else {
      assert s[1..] == a[1..] + [sep] + b;
      SplitFirst(a[1..], b, sep);
      assert [a[0]] + a[1..] == a;
    }
  }

  // ---- the header ----

  function PrintHeader(r: Range): string {
    "bytes=" + PrintInt(r.start) + "-" + PrintInt(r.end)
  }

  datatype ParseResult = Fine(range: Range) | Bad(error: Error)

  /** What updateRangeRequestHeader makes of a header; the empty string is a missing one. */
  function ParseHeader(h: string): ParseResult {
    if h == "" then Bad(MissingRange)
    else if !("bytes=" <= h) then Bad(MalformedRange(h))
    else
      var parts := Split(h[6..], '-');
      if |parts| != 2 then Bad(MalformedRange(h))
      else
        match (ParseInt(parts[0]), ParseInt(parts[1]))
        case (Some(start), Some(end)) => Fine(Range(start, end))
        case _ => Bad(MalformedRange(h))
  }

  /** Printing then parsing recovers every pair of non-negative int64 numbers. */
  lemma HeaderRoundTrip(r: Range)
    requires 0 <= r.start <= MAX_INT64 && 0 <= r.end <= MAX_INT64
    ensures ParseHeader(PrintHeader(r)) == Fine(r)
  {
    ParsePrinted(r.start);
    ParsePrinted(r.end);
    HeaderParts(r);
  }

  /** What a header says, and which error a header that says nothing gets: two numbers without a
      minus sign, with one between them, after the unit. */
  lemma ParseHeaderIff(h: string, r: Range)
    ensures ParseHeader(h) == Fine(r) <==>
              exists a, b ::
                && '-' !in a && '-' !in b && h == "bytes=" + (a + ['-'] + b)
                && ParseInt(a) == Some(r.start) && ParseInt(b) == Some(r.end)
    ensures ParseHeader(h).Bad? ==> ParseHeader(h).error == if h == "" then MissingRange else MalformedRange(h)
  {
    if ParseHeader(h) == Fine(r) {
      var parts := Split(h[6..], '-');
      SplitParts(h[6..], '-', 0);
      SplitParts(h[6..], '-', 1);
      JoinParts(h[6..], '-');
      assert h == "bytes=" + h[6..];
    }
    forall a, b |
      && '-' !in a && '-' !in b && h == "bytes=" + (a + ['-'] + b)
      && ParseInt(a) == Some(r.start) && ParseInt(b) == Some(r.end)
      ensures ParseHeader(h) == Fine(r)
    {
      assert h[6..] == a + ['-'] + b;
      SplitFirst(a, b, '-');
      SplitClean(b, '-');
    }
  }

  /** Two parts joined by the separator are what was split. */
  lemma {:induction false} JoinParts(s: string, sep: char)
    requires |Split(s, sep)| <= 2
    ensures var parts := Split(s, sep); s == if |parts| == 1 then parts[0] else parts[0] + [sep] + parts[1]
  {
    if s != [] {
      JoinParts(s[1..], sep);
      assert s == [s[0]] + s[1..];
    }
  }

  lemma HeaderParts(r: Range)
    requires 0 <= r.start && 0 <= r.end
    ensures "bytes=" <= PrintHeader(r) && PrintHeader(r) != ""
    ensures Split(PrintHeader(r)[6..], '-') == [PrintInt(r.start), PrintInt(r.end)]
  {
    var a, b := PrintInt(r.start), PrintInt(r.end);
    NoSign(r.start);
    NoSign(r.end);
    assert PrintHeader(r)[6..] == a + ['-'] + b;
    SplitFirst(a, b, '-');
    SplitClean(b, '-');
  }

  /** A header with a negative number in it does not parse: its minus sign splits. */
  lemma NegativeRejected(r: Range)
    requires r.start < 0 || r.end < 0
    ensures ParseHeader(PrintHeader(r)).Bad?
  {
    assert "bytes=" <= PrintHeader(r);
    assert PrintHeader(r)[6..] == PrintInt(r.start) + ['-'] + PrintInt(r.end);
    if r.start < 0 {
      NoSign(-r.start);
      SignSplits(Digits(-r.start), PrintInt(r.end));
    } else {
      NoSign(r.start);
      SignFollows(Digits(r.start), Digits(-r.end));
    }
  }

  lemma {:induction false} SignSplits(digits: string, rest: string)
    requires '-' !in digits
    ensures |Split("-" + digits + ['-'] + rest, '-')| >= 3
  {
    assert "-" + digits + ['-'] + rest == [] + ['-'] + (digits + ['-'] + rest);
    SplitFirst([], digits + ['-'] + rest, '-');
    SplitFirst(digits, rest, '-');
  }

  lemma {:induction false} SignFollows(first: string, digits: string)
    requires '-' !in first
    ensures |Split(first + ['-'] + ("-" + digits), '-')| >= 3
  {
    SplitFirst(first, "-" + digits, '-');
    assert "-" + digits == [] + ['-'] + digits;
    SplitFirst([], digits, '-');
  }

  /** A parsed header never holds a negative number: a minus sign splits. */
  lemma ParsedNonNegative(h: string)
    ensures ParseHeader(h).Fine? ==>
              && 0 <= ParseHeader(h).range.start <= MAX_INT64
              && 0 <= ParseHeader(h).range.end <= MAX_INT64
  {
    if ParseHeader(h).Fine? {
      var parts := Split(h[6..], '-');
      SplitParts(h[6..], '-', 0);
      SplitParts(h[6..], '-', 1);
    }
  }

  datatype AdvanceResult = Advanced(header: string) | Rejected(error: Error)

  /** The header after n more bytes were received. */
  function Advance(h: string, n: int): AdvanceResult {
    match ParseHeader(h)
    case Bad(e) => Rejected(e)
    case Fine(r) =>
      var next := Range(Wrap(r.start + n), r.end);
      if next.start > next.end then Rejected(InvalidRange(PrintHeader(next)))
      else Advanced(PrintHeader(next))
  }

  /** A printed range moves on by n bytes if there is a byte left, and says why not otherwise. A
      start beyond int64 wraps around, and is then sent with its minus sign. */
  lemma AdvanceIff(r: Range, n: nat)
    requires 0 <= r.start <= MAX_INT64 && 0 <= r.end <= MAX_INT64 && n <= MAX_INT64
    ensures Advance(PrintHeader(r), n) ==
              if r.start + n <= r.end then Advanced(PrintHeader(Range(r.start + n, r.end)))
              else if r.start + n <= MAX_INT64 then Rejected(InvalidRange(PrintHeader(Range(r.start + n, r.end))))
              else Advanced(PrintHeader(Range(r.start + n - TWO_TO_64, r.end)))
  {
    HeaderRoundTrip(r);
    if r.start + n > MAX_INT64 {
      WrapOverflow(r.start + n);
    }
  }

  /** Two headers spelled out; the second is the first moved on by three bytes. */
  lemma HeaderExample()
    ensures PrintHeader(Range(7, 12)) == "bytes=7-12" && PrintHeader(Range(10, 12)) == "bytes=10-12"
  {
    assert Digits(7) == "7" && Digits(1) == "1";
    assert Digits(12) == Digits(1) + [DigitChar(2)] == "12";
    assert Digits(10) == Digits(1) + [DigitChar(0)] == "10";
  }

  /** Advancing by a and then by b is advancing by a + b, with the same header or the same
      error, as long as the numbers stay in int64. */
  lemma AdvanceAdditive(h: string, a: nat, b: nat)
    requires Advance(h, a).Advanced?
    requires ParseHeader(h).range.start + a + b <= MAX_INT64
    ensures Advance(Advance(h, a).header, b) == Advance(h, a + b)
  {
    ParsedNonNegative(h);
    var r := ParseHeader(h).range;
    HeaderRoundTrip(Range(r.start + a, r.end));
  }
}
