/**
 * The JavaScript string operations the roster parser relies on: String.prototype.trim,
 * String.prototype.split with a one-character separator, and the decimal part of parseInt.
 */
module JsStrings {
  import opened Types

  /**
   * The characters String.prototype.trim removes: the WhiteSpace and LineTerminator code
   * points of ECMAScript (tab, vertical tab, form feed, space, no-break space, the byte order
   * mark, the Unicode space separators, line feed, carriage return, line and paragraph
   * separator).
   */
  predicate IsWhiteSpace(c: char) {
    c == '\t' || c == '\n' || c == '\U{000B}' || c == '\U{000C}' || c == '\r' || c == ' '
    || c == '\U{00A0}' || c == '\U{1680}' || ('\U{2000}' <= c <= '\U{200A}')
    || c == '\U{2028}' || c == '\U{2029}' || c == '\U{202F}' || c == '\U{205F}'
    || c == '\U{3000}' || c == '\U{FEFF}'
  }

  predicate AllWhiteSpace(s: string) {
    forall i :: 0 <= i < |s| ==> IsWhiteSpace(s[i])
  }

  /** s without its leading white space (TrimStartDrops says what is dropped). */
  function TrimStart(s: string): (r: string)
    ensures |r| <= |s|
    ensures r == [] || !IsWhiteSpace(r[0])
    ensures r != [] ==> r[|r| - 1] == s[|s| - 1]
  {
    if s != [] && IsWhiteSpace(s[0]) then TrimStart(s[1..]) else s
  }

  /** s without its trailing white space (TrimEndDrops says what is dropped). */
  function TrimEnd(s: string): (r: string)
    ensures |r| <= |s|
    ensures r == [] || !IsWhiteSpace(r[|r| - 1])
    ensures r != [] ==> r[0] == s[0]
  {
    if s != [] && IsWhiteSpace(s[|s| - 1]) then TrimEnd(s[..|s| - 1]) else s
  }

  /** TrimStart keeps a suffix of s and drops only white space before it. */
  lemma {:induction false} TrimStartDrops(s: string)
    ensures TrimStart(s) == s[|s| - |TrimStart(s)|..]
    ensures AllWhiteSpace(s[..|s| - |TrimStart(s)|])
  {
    if s != [] && IsWhiteSpace(s[0]) {
      TrimStartDrops(s[1..]);
      var k := |s| - |TrimStart(s)|;
      assert s[1..][..k - 1] == s[1..k];
      assert s[1..][k - 1..] == s[k..];
    }
  }

  /** TrimEnd keeps a prefix of s and drops only white space after it. */
  lemma {:induction false} TrimEndDrops(s: string)
    ensures TrimEnd(s) == s[..|TrimEnd(s)|]
    ensures AllWhiteSpace(s[|TrimEnd(s)|..])
  {
    if s != [] && IsWhiteSpace(s[|s| - 1]) {
      TrimEndDrops(s[..|s| - 1]);
      var k := |TrimEnd(s)|;
      assert s[..|s| - 1][..k] == s[..k];
      assert s[k..] == s[..|s| - 1][k..] + [s[|s| - 1]];
    }
  }

  /** String.prototype.trim: white space removed from both ends. */
  function Trim(s: string): (r: string)
    ensures |r| <= |s|
    ensures r == [] || (!IsWhiteSpace(r[0]) && !IsWhiteSpace(r[|r| - 1]))
  {
    TrimEnd(TrimStart(s))
  }

  /** trim keeps a slice of s and removes only white space around it. */
  lemma TrimCharacterised(s: string)
    ensures exists i, j :: 0 <= i <= j <= |s| && Trim(s) == s[i..j] && AllWhiteSpace(s[..i]) && AllWhiteSpace(s[j..])
  {
    var t := TrimStart(s);
    var r := TrimEnd(t);
    TrimStartDrops(s);
    TrimEndDrops(t);
    var i := |s| - |t|;
    assert r == s[i..i + |r|];
    assert s[i + |r|..] == t[|r|..];
  }

  /** A string made only of white space trims to the empty string, and nothing else does. */
  lemma TrimEmpty(s: string)
    ensures Trim(s) == [] <==> AllWhiteSpace(s)
  {
    if AllWhiteSpace(s) {
      TrimStartAllWhite(s);
    } else {
      var k :| 0 <= k < |s| && !IsWhiteSpace(s[k]);
      var t := TrimStart(s);
      TrimStartDrops(s);
      TrimEndDrops(t);
    }
  }

  lemma {:induction false} TrimStartAllWhite(s: string)
    requires AllWhiteSpace(s)
    ensures TrimStart(s) == []
  {
    if s != [] {
      TrimStartAllWhite(s[1..]);
    }
  }

  /** A string with no white space at either end is its own trim. */
  lemma TrimTrimmed(s: string)
    requires s == [] || (!IsWhiteSpace(s[0]) && !IsWhiteSpace(s[|s| - 1]))
    ensures Trim(s) == s
  {
  }

  /** Text framed by a line feed on each side, itself without white space at its ends, trims to itself. */
  lemma TrimFramed(s: string)
    requires s != [] && !IsWhiteSpace(s[0]) && !IsWhiteSpace(s[|s| - 1])
    ensures Trim("\n" + s + "\n") == s
  {
    var framed := "\n" + s + "\n";
    assert framed[1..] == s + "\n";
    assert TrimStart(framed) == TrimStart(s + "\n");
    assert TrimStart(s + "\n") == s + "\n";
    assert (s + "\n")[..|s|] == s;
    assert TrimEnd(s + "\n") == TrimEnd(s);
  }

  /** Trimming twice is trimming once. */
  lemma TrimIdempotent(s: string)
    ensures Trim(Trim(s)) == Trim(s)
  {
    TrimTrimmed(Trim(s));
  }

  /**
   * `s.split(sep)` for a one-character separator: the pieces between occurrences of sep,
   * always at least one (an empty string gives [""]).
   */
  function Split(s: string, sep: char): (r: seq<string>)
    ensures |r| >= 1
    ensures forall k :: 0 <= k < |r| ==> sep !in r[k]
  {
    if s == [] then [[]]
    else
      var rest := Split(s[1..], sep);
      if s[0] == sep then [[]] + rest else [[s[0]] + rest[0]] + rest[1..]
  }

  /** `parts.join(sep)`: the inverse of Split. */
  function Join(parts: seq<string>, sep: char): string
    requires |parts| >= 1
  {
    if |parts| == 1 then parts[0] else parts[0] + [sep] + Join(parts[1..], sep)
  }

  /** Splitting and joining again gives back the original string. */
  lemma {:induction false} JoinSplit(s: string, sep: char)
    ensures Join(Split(s, sep), sep) == s
  {
    if s != [] {
      var rest := Split(s[1..], sep);
      JoinSplit(s[1..], sep);
      if s[0] != sep {
        if |rest| == 1 {
          assert Split(s, sep) == [[s[0]] + rest[0]];
        } else {
          assert Split(s, sep)[1..] == rest[1..];
          assert rest == [rest[0]] + rest[1..];
          assert Join(rest, sep) == rest[0] + [sep] + Join(rest[1..], sep);
        }
      }
    }
  }

  /** Joining pieces that hold no separator and splitting again gives back the pieces. */
  lemma {:induction false} SplitJoin(parts: seq<string>, sep: char)
    requires |parts| >= 1
    requires forall k :: 0 <= k < |parts| ==> sep !in parts[k]
    ensures Split(Join(parts, sep), sep) == parts
    decreases |parts|, |parts[0]|
  {
    if parts[0] == [] {
      if |parts| > 1 {
        SplitJoin(parts[1..], sep);
        assert Join(parts, sep) == [sep] + Join(parts[1..], sep);
        assert ([sep] + Join(parts[1..], sep))[1..] == Join(parts[1..], sep);
        assert parts == [[]] + parts[1..];
      }
    } else {
      var c, parts' := parts[0][0], [parts[0][1..]] + parts[1..];
      HeadDropped(parts, sep);
      SplitJoin(parts', sep);
      JoinHead(parts, sep);
      assert c != sep by {
        assert c in parts[0];
      }
      SplitHead(c, Join(parts', sep), sep);
      assert parts'[0] == parts[0][1..] && parts'[1..] == parts[1..];
      assert parts[0] == [c] + parts[0][1..];
      assert parts == [parts[0]] + parts[1..];
    }
  }

  /** Every character of a piece is a character of the split string. */
  lemma {:induction false} SplitPieceChars(s: string, sep: char)
    ensures forall k, c :: 0 <= k < |Split(s, sep)| && c in Split(s, sep)[k] ==> c in s
  {
    if s != [] {
      var rest := Split(s[1..], sep);
      SplitPieceChars(s[1..], sep);
      forall k, c | 0 <= k < |Split(s, sep)| && c in Split(s, sep)[k]
        ensures c in s
      {
        if s[0] == sep {
          assert Split(s, sep)[k] == ([[]] + rest)[k];
          if k > 0 { assert Split(s, sep)[k] == rest[k - 1]; }
        } else if k == 0 {
          assert Split(s, sep)[0] == [s[0]] + rest[0];
          assert c == s[0] || c in rest[0];
        } else {
          assert Split(s, sep)[k] == rest[1..][k - 1];
        }
        assert c in s[1..] ==> c in s;
      }
    }
  }

  /** Joining two lists of pieces is joining each and putting sep between them. */
  lemma {:induction false} JoinAppend(a: seq<string>, b: seq<string>, sep: char)
    requires |a| >= 1 && |b| >= 1
    ensures Join(a + b, sep) == Join(a, sep) + [sep] + Join(b, sep)
    decreases |a|
  {
    assert (a + b)[0] == a[0];
    if |a| == 1 {
      assert (a + b)[1..] == b;
    } else {
      assert (a + b)[1..] == a[1..] + b;
      JoinAppend(a[1..], b, sep);
    }
  }

  /** Splitting s + sep + t splits s and t apart: the pieces of s, then the pieces of t. */
  lemma SplitAppend(s: string, t: string, sep: char)
    ensures Split(s + [sep] + t, sep) == Split(s, sep) + Split(t, sep)
  {
    var a, b := Split(s, sep), Split(t, sep);
    JoinSplit(s, sep);
    JoinSplit(t, sep);
    JoinAppend(a, b, sep);
    assert forall k :: 0 <= k < |a + b| ==> sep !in (a + b)[k] by {
      forall k | 0 <= k < |a + b|
        ensures sep !in (a + b)[k]
      {
        if k < |a| { assert (a + b)[k] == a[k]; } else { assert (a + b)[k] == b[k - |a|]; }
      }
    }
    SplitJoin(a + b, sep);
  }

  /** Dropping the first character of the first piece keeps every piece free of sep. */
  lemma HeadDropped(parts: seq<string>, sep: char)
    requires |parts| >= 1 && parts[0] != []
    requires forall k :: 0 <= k < |parts| ==> sep !in parts[k]
    ensures forall k :: 0 <= k < |parts| ==> sep !in ([parts[0][1..]] + parts[1..])[k]
  {
    var parts' := [parts[0][1..]] + parts[1..];
    forall k | 0 <= k < |parts'|
      ensures sep !in parts'[k]
    {
      if k == 0 {
        assert forall c :: c in parts[0][1..] ==> c in parts[0];
      } else {
        assert parts'[k] == parts[k];
      }
    }
  }

  /** Joining starts with the first character of the first piece, then joins the rest. */
  lemma JoinHead(parts: seq<string>, sep: char)
    requires |parts| >= 1 && parts[0] != []
    ensures Join(parts, sep) == [parts[0][0]] + Join([parts[0][1..]] + parts[1..], sep)
  {
    var parts' := [parts[0][1..]] + parts[1..];
    assert parts[0] == [parts[0][0]] + parts[0][1..];
    if |parts| > 1 {
      assert parts'[1..] == parts[1..];
    }
  }

  /** A leading character other than sep joins the first piece of the split. */
  lemma SplitHead(c: char, t: string, sep: char)
    requires c != sep
    ensures Split([c] + t, sep) == [[c] + Split(t, sep)[0]] + Split(t, sep)[1..]
  {
    assert ([c] + t)[1..] == t;
  }

  // ----- parseInt, decimal digits only -----

  predicate IsDigit(c: char) {
    '0' <= c <= '9'
  }

  function DigitValue(c: char): (d: nat)
    requires IsDigit(c)
    ensures d < 10
  {
    c as int - '0' as int
  }

  function DigitChar(d: nat): (c: char)
    requires d < 10
    ensures IsDigit(c) && DigitValue(c) == d
  {
    (d + '0' as int) as char
  }

  predicate AllDigits(s: string) {
    forall i :: 0 <= i < |s| ==> IsDigit(s[i])
  }

  /** The longest prefix of s made of decimal digits. */
  function DigitPrefix(s: string): (r: string)
    ensures |r| <= |s| && r == s[..|r|]
    ensures AllDigits(r)
    ensures |r| == |s| || !IsDigit(s[|r|])
  {
    if s != [] && IsDigit(s[0]) then [s[0]] + DigitPrefix(s[1..]) else []
  }

  /** The value of a decimal numeral, most significant digit first. */
  function DecimalValue(ds: string): nat
    requires AllDigits(ds)
  {
    if ds == [] then 0 else 10 * DecimalValue(ds[..|ds| - 1]) + DigitValue(ds[|ds| - 1])
  }

  /**
   * parseInt(s) in base 10: leading white space is skipped, an optional sign read, then the
   * longest run of decimal digits; None (NaN) when that run is empty.
   */
  function ParseInt(s: string): Option<int> {
    ParseSigned(TrimStart(s))
  }

  /** parseInt once leading white space is skipped: an optional sign, then decimal digits. */
  function ParseSigned(t: string): Option<int> {
    var negative := t != [] && t[0] == '-';
    var unsigned := if t != [] && (t[0] == '-' || t[0] == '+') then t[1..] else t;
    var digits := DigitPrefix(unsigned);
    var magnitude: int := DecimalValue(digits);
    if digits == [] then None
    else if negative then Some(-magnitude)
    else Some(magnitude)
  }

  /** The decimal numeral of n without leading zeros ("0" for zero). */
  function NatToString(n: nat): (r: string)
    ensures |r| >= 1 && AllDigits(r)
  {
    if n < 10 then [DigitChar(n)] else NatToString(n / 10) + [DigitChar(n % 10)]
  }

  /** `String(x)` for an integer: its decimal numeral, with '-' before a negative one. */
  function IntToString(x: int): string {
    if x < 0 then "-" + NatToString(-x) else NatToString(x)
  }

  /** A numeral is non-empty, starts with a digit or '-', ends with a digit, and holds nothing else. */
  lemma NumeralShape(x: int)
    ensures var r := IntToString(x);
      |r| >= 1 && (IsDigit(r[0]) || r[0] == '-') && IsDigit(r[|r| - 1])
      && forall i :: 0 <= i < |r| ==> IsDigit(r[i]) || r[i] == '-'
  {
    var n: nat := if x < 0 then -x else x;
    var numeral := NatToString(n);
    assert IsDigit(numeral[|numeral| - 1]);
    if x < 0 {
      assert IntToString(x) == "-" + numeral;
      forall i | 1 <= i < |IntToString(x)|
        ensures IsDigit(IntToString(x)[i])
      {
        assert IntToString(x)[i] == numeral[i - 1];
      }
    }
  }

  lemma {:induction false} NatToStringValue(n: nat)
    ensures DecimalValue(NatToString(n)) == n
  {
    if n >= 10 {
      NatToStringValue(n / 10);
      var r := NatToString(n);
      assert r[..|r| - 1] == NatToString(n / 10);
    }
  }

  lemma {:induction false} DigitPrefixOf(ds: string, rest: string)
    requires AllDigits(ds)
    requires rest == [] || !IsDigit(rest[0])
    ensures DigitPrefix(ds + rest) == ds
  {
    if ds == [] {
      assert ds + rest == rest;
    } else {
      DigitPrefixOf(ds[1..], rest);
      assert (ds + rest)[1..] == ds[1..] + rest;
      assert (ds + rest)[0] == ds[0];
      assert ds == [ds[0]] + ds[1..];
    }
  }

  /** A numeral with no sign in front reads as its value. */
  lemma ParseUnsigned(numeral: string, rest: string)
    requires |numeral| >= 1 && AllDigits(numeral)
    requires rest == [] || !IsDigit(rest[0])
    ensures ParseInt(numeral + rest) == Some(DecimalValue(numeral))
  {
    var s := numeral + rest;
    DigitPrefixOf(numeral, rest);
    assert s[0] == numeral[0];
    ParseDigitsFirst(s);
  }

  /** Text that starts with a digit is read as its leading run of digits. */
  lemma ParseDigitsFirst(s: string)
    requires s != [] && IsDigit(s[0])
    ensures DigitPrefix(s) != []
    ensures ParseInt(s) == Some(DecimalValue(DigitPrefix(s)))
  {
    assert !IsWhiteSpace(s[0]) && s[0] != '-' && s[0] != '+';
    assert TrimStart(s) == s;
  }

  /** A minus sign followed by a run of digits reads as the negated value of that run. */
  lemma ParseMinusDigitsFirst(t: string, u: string, digits: string)
    requires |t| >= 1 && t[0] == '-' && t[1..] == u
    requires digits != [] && DigitPrefix(u) == digits
    ensures ParseInt(t) == Some(-(DecimalValue(digits) as int))
  {
    assert TrimStart(t) == t;
  }

  /** A minus sign, a numeral and then no further digit: the negated value of the numeral. */
  lemma ParseNegative(t: string, numeral: string, rest: string)
    requires |numeral| >= 1 && AllDigits(numeral)
    requires rest == [] || !IsDigit(rest[0])
    requires |t| >= 1 && t[0] == '-' && t[1..] == numeral + rest
    ensures ParseInt(t) == Some(-(DecimalValue(numeral) as int))
  {
    DigitPrefixOf(numeral, rest);
    ParseMinusDigitsFirst(t, numeral + rest, numeral);
  }

  /** parseInt reads back the numeral of any integer, whatever non-digit text follows it. */
  lemma ParseIntRoundTrip(x: int, rest: string)
    requires rest == [] || !IsDigit(rest[0])
    ensures ParseInt(IntToString(x) + rest) == Some(x)
  {
    var n: nat := if x < 0 then -x else x;
    var numeral := NatToString(n);
    NatToStringValue(n);
    if x < 0 {
      var t := IntToString(x) + rest;
      assert t == "-" + numeral + rest;
      ParseNegative(t, numeral, rest);
    } else {
      ParseUnsigned(numeral, rest);
    }
  }
}
