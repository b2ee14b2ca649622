/**
 * The JavaScript string operations the scraper applies to extracted text:
 * cheerio's `.text()` over several matches (plain concatenation),
 * `Array.prototype.join`, `String.prototype.split` on a one-character
 * separator, `String.prototype.trim`, and the decimal rendering of an
 * integer inside a template string.
 */
module JsText {
  import opened Wrappers

  /** `.text()` of a selection of several elements: their texts, in document order, with nothing between. */
  function Concat(parts: seq<string>): (r: string)
    ensures |parts| == 1 ==> r == parts[0]
    ensures r == "" <==> forall i :: 0 <= i < |parts| ==> parts[i] == ""
  {
    if parts == [] then "" else parts[0] + Concat(parts[1..])
  }

  /** Number of occurrences of `c` in `s`. */
  function Occurrences(s: string, c: char): nat
  {
    if s == [] then 0 else (if s[0] == c then 1 else 0) + Occurrences(s[1..], c)
  }

  /** Total number of occurrences of `c` in all of `parts`. */
  function SumOccurrences(parts: seq<string>, c: char): nat
  {
    if parts == [] then 0 else Occurrences(parts[0], c) + SumOccurrences(parts[1..], c)
  }

  /** `parts.join(sep)`: the parts in order with one `sep` between neighbours. */
  function Join(parts: seq<string>, sep: char): (r: string)
    ensures parts == [] ==> r == ""
    ensures |parts| == 1 ==> r == parts[0]
  {
    if parts == [] then ""
    else if |parts| == 1 then parts[0]
    else parts[0] + [sep] + Join(parts[1..], sep)
  }

  /**
   * `s.split(sep)` for a one-character separator: the maximal runs between
   * separators, so the empty string gives `[""]` and every part is free of `sep`.
   */
  function Split(s: string, sep: char): (parts: seq<string>)
    ensures |parts| >= 1
    ensures forall i :: 0 <= i < |parts| ==> sep !in parts[i]
  {
    if s == [] then [""]
    else
      var rest := Split(s[1..], sep);
      if s[0] == sep then [""] + rest
      else [[s[0]] + rest[0]] + rest[1..]
  }

  lemma {:induction false} OccurrencesAppend(a: string, b: string, c: char)
    ensures Occurrences(a + b, c) == Occurrences(a, c) + Occurrences(b, c)
  {
    if a != [] {
      assert (a + b)[1..] == a[1..] + b;
      OccurrencesAppend(a[1..], b, c);
    } else {
      assert a + b == b;
    }
  }

  lemma {:induction false} NoOccurrences(s: string, c: char)
    ensures Occurrences(s, c) == 0 <==> c !in s
  {
    if s != [] {
      NoOccurrences(s[1..], c);
      assert s == [s[0]] + s[1..];
    }
  }

  /** `.text()` of a selection of `a + b` is the text of `a` followed by that of `b`. */
  lemma {:induction false} ConcatAppend(a: seq<string>, b: seq<string>)
    ensures Concat(a + b) == Concat(a) + Concat(b)
  {
    if a == [] {
      assert a + b == b;
    } else {
      assert (a + b)[1..] == a[1..] + b;
      ConcatAppend(a[1..], b);
    }
  }

  /** Concatenation introduces no character of its own: every `c` in the text comes from a part. */
  lemma {:induction false} ConcatOccurrences(parts: seq<string>, c: char)
    ensures Occurrences(Concat(parts), c) == SumOccurrences(parts, c)
  {
    if parts != [] {
      OccurrencesAppend(parts[0], Concat(parts[1..]), c);
      ConcatOccurrences(parts[1..], c);
    }
  }

  /** Joining n >= 1 parts adds exactly n - 1 separators to those the parts already hold. */
  lemma {:induction false} JoinOccurrences(parts: seq<string>, sep: char)
    requires |parts| >= 1
    ensures Occurrences(Join(parts, sep), sep) == SumOccurrences(parts, sep) + |parts| - 1
  {
    if |parts| > 1 {
      JoinOccurrences(parts[1..], sep);
      OccurrencesAppend(parts[0] + [sep], Join(parts[1..], sep), sep);
      OccurrencesAppend(parts[0], [sep], sep);
      assert Occurrences([sep], sep) == 1 by {
        assert [sep][1..] == [];
      }
      assert SumOccurrences(parts[1..], sep) + Occurrences(parts[0], sep) == SumOccurrences(parts, sep);
    } else {
      assert parts[1..] == [];
    }
  }

  /** Joining a non-empty list behind a separator and a last part. */
  lemma {:induction false} JoinSnoc(parts: seq<string>, sep: char)
    requires |parts| >= 2
    ensures Join(parts, sep) == Join(parts[..|parts| - 1], sep) + [sep] + parts[|parts| - 1]
  {
    if |parts| > 2 {
      JoinSnoc(parts[1..], sep);
      assert parts[1..][..|parts[1..]| - 1] == parts[..|parts| - 1][1..];
    }
  }

  /** Splitting at a separator-free prefix only extends the first part. */
  lemma {:induction false} SplitFreePrefix(x: string, t: string, sep: char)
    requires sep !in x
    ensures Split(x + t, sep) == [x + Split(t, sep)[0]] + Split(t, sep)[1..]
  {
    if x == [] {
      var rest := Split(t, sep);
      assert x + t == t && x + rest[0] == rest[0];
      assert [rest[0]] + rest[1..] == rest;
    } else {
      assert (x + t)[1..] == x[1..] + t;
      var rest := Split(t, sep);
      SplitFreePrefix(x[1..], t, sep);
      assert (x + t)[0] == x[0] != sep;
      assert Split(x + t, sep) == [[x[0]] + (x[1..] + rest[0])] + rest[1..];
      assert [x[0]] + (x[1..] + rest[0]) == x + rest[0];
    }
  }

  /** `s.split(sep).join(sep)` gives back `s`: splitting loses nothing. */
  lemma {:induction false} JoinSplit(s: string, sep: char)
    ensures Join(Split(s, sep), sep) == s
  {
    if s != [] {
      var rest := Split(s[1..], sep);
      JoinSplit(s[1..], sep);
      if s[0] == sep {
        assert ([""] + rest)[1..] == rest;
      } else {
        var parts := [[s[0]] + rest[0]] + rest[1..];
        assert parts[1..] == rest[1..];
        if |rest| > 1 {
          assert Join(rest, sep) == rest[0] + [sep] + Join(rest[1..], sep);
        }
      }
    }
  }

  /** Joining separator-free parts and splitting again gives back the parts, in order. */
  lemma {:induction false} SplitJoin(parts: seq<string>, sep: char)
    requires |parts| >= 1
    requires forall i :: 0 <= i < |parts| ==> sep !in parts[i]
    ensures Split(Join(parts, sep), sep) == parts
  {
    if |parts| == 1 {
      SplitFreePrefix(parts[0], "", sep);
      assert parts[0] + "" == parts[0];
    } else {
      var tail := Join(parts[1..], sep);
      SplitJoin(parts[1..], sep);
      SplitFreePrefix(parts[0], [sep] + tail, sep);
      assert ([sep] + tail)[1..] == tail;
      assert Split([sep] + tail, sep) == [""] + parts[1..];
      assert parts[0] + "" == parts[0];
      assert parts[0] + [sep] + tail == parts[0] + ([sep] + tail);
      assert parts == [parts[0]] + parts[1..];
    }
  }

  /** A string with k separators splits into k + 1 parts. */
  lemma {:induction false} SplitLength(s: string, sep: char)
    ensures |Split(s, sep)| == Occurrences(s, sep) + 1
  {
    if s != [] {
      SplitLength(s[1..], sep);
    }
  }

  /**
   * `String.prototype.trim` strips ECMAScript WhiteSpace and LineTerminator
   * code points: tab, vertical tab, form feed, space, no-break space,
   * byte-order mark, the other space separators of category Zs, line feed,
   * carriage return, and the line and paragraph separators.
   */
  predicate IsWhiteSpace(c: char)
  {
    || c == '\t' || c == '\n' || c == '\U{B}' || c == '\U{C}' || c == '\r'
    || c == ' ' || c == '\U{A0}' || c == '\U{1680}'
    || ('\U{2000}' <= c <= '\U{200A}')
    || c == '\U{2028}' || c == '\U{2029}' || c == '\U{202F}' || c == '\U{205F}'
    || c == '\U{3000}' || c == '\U{FEFF}'
  }

  /** `s` with its leading white space removed. */
  function TrimStart(s: string): (r: string)
    ensures |r| <= |s| && r == s[|s| - |r|..]
    ensures forall k :: 0 <= k < |s| - |r| ==> IsWhiteSpace(s[k])
    ensures r == [] || !IsWhiteSpace(r[0])
  {
    if s != [] && IsWhiteSpace(s[0]) then TrimStart(s[1..]) else s
  }

  /** `s` with its trailing white space removed. */
  function TrimEnd(s: string): (r: string)
    ensures |r| <= |s| && r == s[..|r|]
    ensures forall k :: |r| <= k < |s| ==> IsWhiteSpace(s[k])
    ensures r == [] || !IsWhiteSpace(r[|r| - 1])
  {
    if s != [] && IsWhiteSpace(s[|s| - 1]) then TrimEnd(s[..|s| - 1]) else s
  }

  /** `s.trim()`: no longer than `s`, and neither starting nor ending with white space. */
  function Trim(s: string): (r: string)
    ensures |r| <= |s|
    ensures r == [] || (!IsWhiteSpace(r[0]) && !IsWhiteSpace(r[|r| - 1]))
  {
    var t := TrimStart(s);
    var r := TrimEnd(t);
    assert r == [] || r[0] == t[0];
    r
  }

  /** Trimming twice is trimming once. */
  lemma TrimIdempotent(s: string)
    ensures Trim(Trim(s)) == Trim(s)
  {
    var r := Trim(s);
    assert TrimStart(r) == r;
  }

  predicate IsDigit(c: char)
  {
    '0' <= c <= '9'
  }

  function DigitChar(d: nat): (c: char)
    requires d < 10
    ensures IsDigit(c)
  {
    (('0' as int) + d) as char
  }

  function DigitValue(c: char): (d: nat)
    requires IsDigit(c)
    ensures d < 10
  {
    c as int - '0' as int
  }

  /** Decimal digits of `n`, most significant first, with no leading zero. */
  function NatToDecimal(n: nat): (s: string)
    ensures |s| >= 1
    ensures forall i :: 0 <= i < |s| ==> IsDigit(s[i])
    ensures |s| > 1 ==> s[0] != '0'
  {
    if n < 10 then [DigitChar(n)] else NatToDecimal(n / 10) + [DigitChar(n % 10)]
  }

  /** `${n}` for an integer `n`: a minus sign for negatives, then the decimal digits. */
  function IntToDecimal(n: int): (s: string)
    ensures |s| >= 1
    ensures s[0] == '-' <==> n < 0
    ensures forall i :: (if n < 0 then 1 else 0) <= i < |s| ==> IsDigit(s[i])
  {
    if n < 0 then "-" + NatToDecimal(-n) else NatToDecimal(n)
  }

  /** The number a string of decimal digits denotes. */
  function DecimalValue(s: string): nat
    requires forall i :: 0 <= i < |s| ==> IsDigit(s[i])
  {
    if s == [] then 0 else DecimalValue(s[..|s| - 1]) * 10 + DigitValue(s[|s| - 1])
  }

  /** The integer an optionally signed run of decimal digits denotes, if it is one. */
  function ParseInt(s: string): Option<int>
  {
    if |s| > 1 && s[0] == '-' && forall i :: 1 <= i < |s| ==> IsDigit(s[i]) then
      var magnitude: int := DecimalValue(s[1..]);
      Some(-magnitude)
    else if |s| > 0 && forall i :: 0 <= i < |s| ==> IsDigit(s[i]) then
      Some(DecimalValue(s))
    else
      None
  }

  lemma {:induction false} DecimalValueOfNat(n: nat)
    ensures DecimalValue(NatToDecimal(n)) == n
  {
    if n >= 10 {
      var s := NatToDecimal(n);
      DecimalValueOfNat(n / 10);
      assert s[..|s| - 1] == NatToDecimal(n / 10);
    }
  }

  /** Reading back the decimal rendering of an integer gives the integer. */
  lemma ParseIntToDecimal(n: int)
    ensures ParseInt(IntToDecimal(n)) == Some(n)
  {
    if n < 0 {
      var d := NatToDecimal(-n);
      var s := "-" + d;
      assert s[1..] == d;
      assert forall i :: 1 <= i < |s| ==> s[i] == d[i - 1];
      DecimalValueOfNat(-n);
    } else {
      var d := NatToDecimal(n);
      assert IsDigit(d[0]);
      DecimalValueOfNat(n);
    }
  }

  /** The rendering of an integer holds neither a `/` nor a `?`. */
  lemma IntToDecimalChars(n: int)
    ensures '/' !in IntToDecimal(n) && '?' !in IntToDecimal(n)
  {
    var d := NatToDecimal(if n < 0 then -n else n);
    assert forall i :: 0 <= i < |d| ==> IsDigit(d[i]);
  }
}
