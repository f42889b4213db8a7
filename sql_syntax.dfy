/**
  Reference readings of the generated SQL text, as a SQL lexer sees it.  They
  are not part of the generator: they are what its output is checked against.
  A string literal is a quote, then characters in which a quote stands only
  in a doubled pair, then a closing quote.
 */
module SqlSyntax {
  import opened Wrappers
  import opened DotNetText

  /** The text between single quotes. */
  function Quoted(body: string): string
  {
    "'" + body + "'"
  }

  /** Reads the inside of a string literal up to its closing quote: the value
      read (each doubled quote standing for one) and the text after the
      closing quote; None when the literal is never closed. */
  function ScanLiteralBody(t: string): Option<(string, string)>
    decreases |t|
  {
    if t == [] then None
    else if t[0] == '\'' then
      if |t| >= 2 && t[1] == '\'' then
        match ScanLiteralBody(t[2..])
        case Some((value, rest)) => Some(("'" + value, rest))
        case None => None
      else
        Some(("", t[1..]))
    else
      match ScanLiteralBody(t[1..])
      case Some((value, rest)) => Some(([t[0]] + value, rest))
      case None => None
  }

  /** The value of a text that is exactly one SQL string literal, or None. */
  function ParseStringLiteral(literal: string): Option<string>
  {
    if |literal| > 0 && literal[0] == '\'' then
      match ScanLiteralBody(literal[1..])
      case Some((value, rest)) => if rest == [] then Some(value) else None
      case None => None
    else
      None
  }

  /** A doubled text scans back to the original and stops at the first quote
      after it, provided that quote is not followed by another. */
  lemma {:induction false} ScanDoubledQuotes(s: string, rest: string)
    requires rest == [] || rest[0] != '\''
    ensures ScanLiteralBody(DoubleQuotes(s) + "'" + rest) == Some((s, rest))
    decreases |s|
  {
    if s == [] {
      assert DoubleQuotes(s) + "'" + rest == "'" + rest;
      assert ("'" + rest)[1..] == rest;
    } else {
      ScanDoubledQuotes(s[1..], rest);
      ScanDoubledStep(s, rest);
    }
  }

  lemma ScanDoubledStep(s: string, rest: string)
    requires s != []
    requires ScanLiteralBody(DoubleQuotes(s[1..]) + "'" + rest) == Some((s[1..], rest))
    ensures ScanLiteralBody(DoubleQuotes(s) + "'" + rest) == Some((s, rest))
  {
    var tail := DoubleQuotes(s[1..]) + "'" + rest;
    DoubledPrefix(s, rest);
    if s[0] == '\'' {
      ScanQuotePair(tail, s[1..], rest);
      assert "'" + s[1..] == s;
    } else {
      ScanPlainChar(s[0], tail, s[1..], rest);
      assert [s[0]] + s[1..] == s;
    }
  }

  /** The first character of s, doubled if it is a quote, then the rest. */
  lemma DoubledPrefix(s: string, rest: string)
    requires s != []
    ensures DoubleQuotes(s) + "'" + rest
         == (if s[0] == '\'' then "''" else [s[0]]) + (DoubleQuotes(s[1..]) + "'" + rest)
  {
    var d := DoubleQuotes(s[1..]);
    var head := if s[0] == '\'' then "''" else [s[0]];
    assert DoubleQuotes(s) == head + d;
    assert (head + d) + "'" + rest == head + (d + "'" + rest);
  }

  /** A doubled quote inside a literal stands for one quote. */
  lemma ScanQuotePair(t: string, value: string, rest: string)
    requires ScanLiteralBody(t) == Some((value, rest))
    ensures ScanLiteralBody("''" + t) == Some(("'" + value, rest))
  {
    assert ("''" + t)[2..] == t;
  }

  /** Any other character inside a literal stands for itself. */
  lemma ScanPlainChar(c: char, t: string, value: string, rest: string)
    requires c != '\''
    requires ScanLiteralBody(t) == Some((value, rest))
    ensures ScanLiteralBody([c] + t) == Some(([c] + value, rest))
  {
    assert ([c] + t)[1..] == t;
  }

  /** Quoting a doubled text gives one literal whose value is the text: no
      content can close the literal early or run on past it. */
  lemma QuotedDoubledRoundTrip(s: string)
    ensures ParseStringLiteral(Quoted(DoubleQuotes(s))) == Some(s)
  {
    var literal := Quoted(DoubleQuotes(s));
    assert literal[1..] == DoubleQuotes(s) + "'" + [];
    ScanDoubledQuotes(s, []);
  }

  /** Quotes stand only in adjacent pairs: no run of quotes has odd length. */
  predicate PairedQuotes(t: string)
    decreases |t|
  {
    if t == [] then true
    else if t[0] != '\'' then PairedQuotes(t[1..])
    else |t| >= 2 && t[1] == '\'' && PairedQuotes(t[2..])
  }

  /** The inverse of doubling: each pair of quotes becomes one. */
  function UndoubleQuotes(t: string): string
    requires PairedQuotes(t)
    decreases |t|
  {
    if t == [] then ""
    else if t[0] != '\'' then [t[0]] + UndoubleQuotes(t[1..])
    else "'" + UndoubleQuotes(t[2..])
  }

  /** Doubling always yields paired quotes, and undoubling gives the input back. */
  lemma {:induction false} DoubleQuotesInverse(s: string)
    ensures PairedQuotes(DoubleQuotes(s))
    ensures UndoubleQuotes(DoubleQuotes(s)) == s
    decreases |s|
  {
    if s != [] {
      DoubleQuotesInverse(s[1..]);
      var t := DoubleQuotes(s);
      if s[0] == '\'' {
        assert t[2..] == DoubleQuotes(s[1..]);
      } else {
        assert t[1..] == DoubleQuotes(s[1..]);
      }
      assert s == [s[0]] + s[1..];
    }
  }

  /** Every paired text is the doubling of exactly its undoubling, so doubling
      is a bijection onto the paired texts. */
  lemma {:induction false} UndoubleQuotesInverse(t: string)
    requires PairedQuotes(t)
    ensures DoubleQuotes(UndoubleQuotes(t)) == t
    decreases |t|
  {
    if t != [] {
      var u := UndoubleQuotes(t);
      if t[0] != '\'' {
        UndoubleQuotesInverse(t[1..]);
        assert u[1..] == UndoubleQuotes(t[1..]);
        assert t == [t[0]] + t[1..];
      } else {
        UndoubleQuotesInverse(t[2..]);
        assert u[1..] == UndoubleQuotes(t[2..]);
        assert t == "''" + t[2..];
      }
    }
  }

  // ---------------------------------------------------------------------------
  // Splitting at separators that stand outside string literals

  /** Splits a text at the occurrences of `separator` that start outside string
      literals; `inside` says whether the scan is inside a literal, `current`
      is the piece read so far. */
  function SplitOutside(t: string, separator: string, inside: bool, current: string): (r: seq<string>)
    requires |separator| > 0
    ensures |r| > 0
    decreases |t|
  {
    if t == [] then [current]
    else if !inside && separator <= t then [current] + SplitOutside(t[|separator|..], separator, false, "")
    else SplitOutside(t[1..], separator, if t[0] == '\'' then !inside else inside, current + [t[0]])
  }

  /** The values of a tuple body, as a SQL lexer separates them. */
  function SplitValues(t: string): seq<string>
  {
    SplitOutside(t, ",", false, "")
  }

  /** A separator that starts with a comma. */
  predicate CommaLed(separator: string)
  {
    |separator| > 0 && separator[0] == ','
  }

  /** A bare token: neither a quote, a comma nor a line break in it. */
  predicate IsBareToken(t: string)
  {
    |t| > 0 && forall i :: 0 <= i < |t| ==> t[i] != '\'' && t[i] != ',' && t[i] != '\r' && t[i] != '\n'
  }

  /** One value as it may stand in a tuple: a bare token, or one string literal. */
  predicate IsValueToken(t: string)
  {
    || IsBareToken(t)
    || (|t| >= 2 && t[0] == '\'' && t[|t| - 1] == '\'' && PairedQuotes(t[1..|t| - 1]))
  }

  /** Text without quotes or commas is read into the current piece whole. */
  lemma {:induction false} ScanPlain(x: string, rest: string, separator: string, inside: bool, current: string)
    requires CommaLed(separator)
    requires forall i :: 0 <= i < |x| ==> x[i] != '\'' && x[i] != ','
    ensures SplitOutside(x + rest, separator, inside, current) == SplitOutside(rest, separator, inside, current + x)
    decreases |x|
  {
    if x == [] {
      assert x + rest == rest;
      assert current + x == current;
    } else {
      var t := x + rest;
      assert t[0] == x[0];
      assert t[1..] == x[1..] + rest;
      ScanPlain(x[1..], rest, separator, inside, current + [x[0]]);
      assert current + [x[0]] + x[1..] == current + x;
    }
  }

  /** The inside of a literal is read into the current piece whole, and the scan
      is still inside the literal after it. */
  lemma {:induction false} ScanPairedBody(x: string, rest: string, separator: string, current: string)
    requires CommaLed(separator)
    requires PairedQuotes(x)
    ensures SplitOutside(x + rest, separator, true, current) == SplitOutside(rest, separator, true, current + x)
    decreases |x|
  {
    if x == [] {
      assert x + rest == rest;
      assert current + x == current;
    } else if x[0] != '\'' {
      var t := x + rest;
      assert t[0] == x[0];
      assert t[1..] == x[1..] + rest;
      ScanPairedBody(x[1..], rest, separator, current + [x[0]]);
      assert current + [x[0]] + x[1..] == current + x;
    } else {
      var t := x + rest;
      assert t[0] == '\'' && t[1] == '\'';
      assert SplitOutside(t, separator, true, current) == SplitOutside(t[1..], separator, false, current + "'");
      assert t[1..][0] == '\'';
      assert t[1..][1..] == x[2..] + rest;
      assert current + "'" + "'" == current + "''";
      ScanPairedBody(x[2..], rest, separator, current + "''");
      assert current + "''" + x[2..] == current + x;
    }
  }

  /** A whole value token is read into the current piece, and the scan ends
      outside a literal again. */
  lemma ScanValueToken(x: string, rest: string, separator: string, current: string)
    requires CommaLed(separator)
    requires IsValueToken(x)
    ensures SplitOutside(x + rest, separator, false, current) == SplitOutside(rest, separator, false, current + x)
  {
    if IsBareToken(x) {
      ScanPlain(x, rest, separator, false, current);
    } else {
      assert |x| >= 2 && x[0] == '\'' && x[|x| - 1] == '\'';
      var body := x[1..|x| - 1];
      assert x[..1] == "'" && x[|x| - 1..] == "'";
      assert x == x[..1] + body + x[|x| - 1..];
      var t := x + rest;
      assert t[0] == '\'';
      assert t[1..] == body + ("'" + rest);
      ScanPairedBody(body, "'" + rest, separator, current + "'");
      assert ("'" + rest)[1..] == rest;
      assert current + "'" + body + "'" == current + x;
    }
  }

  /** Joining value tokens with commas and splitting the text again gives the
      same values: the text carries exactly as many values as were joined. */
  lemma {:induction false} SplitJoinedValues(values: seq<string>)
    requires |values| > 0
    requires forall i :: 0 <= i < |values| ==> IsValueToken(values[i])
    ensures SplitValues(Join(",", values)) == values
    decreases |values|
  {
    if |values| == 1 {
      ScanValueToken(values[0], "", ",", "");
      assert values[0] + "" == values[0];
      assert "" + values[0] == values[0];
    } else {
      var rest := Join(",", values[1..]);
      assert Join(",", values) == values[0] + ("," + rest);
      ScanValueToken(values[0], "," + rest, ",", "");
      assert ("," + rest)[1..] == rest;
      assert "" + values[0] == values[0];
      SplitJoinedValues(values[1..]);
      assert values == [values[0]] + values[1..];
    }
  }

  /** A comma followed by a line break: the row separator. */
  predicate RowSeparator(separator: string)
  {
    |separator| >= 2 && separator[0] == ',' && (separator[1] == '\n' || separator[1] == '\r')
  }

  /** The commas between the values of a tuple are never followed by a line
      break, so a row separator never starts among them. */
  lemma {:induction false} ScanJoinedTokens(values: seq<string>, rest: string, separator: string, current: string)
    requires RowSeparator(separator)
    requires forall i :: 0 <= i < |values| ==> IsValueToken(values[i])
    ensures SplitOutside(Join(",", values) + rest, separator, false, current)
         == SplitOutside(rest, separator, false, current + Join(",", values))
    decreases |values|
  {
    if |values| == 0 {
      assert Join(",", values) + rest == rest;
      assert current + Join(",", values) == current;
    } else if |values| == 1 {
      ScanValueToken(values[0], rest, separator, current);
    } else {
      var tail := Join(",", values[1..]);
      assert Join(",", values) + rest == values[0] + ("," + tail + rest);
      ScanValueToken(values[0], "," + tail + rest, separator, current);
      ScanInnerComma(values[1..], rest, separator, current + values[0]);
      ScanJoinedTokens(values[1..], rest, separator, current + values[0] + ",");
      assert current + values[0] + "," + tail == current + Join(",", values);
    }
  }

  /** A comma between two values of a tuple is read as part of the piece. */
  lemma ScanInnerComma(values: seq<string>, rest: string, separator: string, current: string)
    requires RowSeparator(separator)
    requires |values| > 0 && IsValueToken(values[0])
    ensures SplitOutside("," + Join(",", values) + rest, separator, false, current)
         == SplitOutside(Join(",", values) + rest, separator, false, current + ",")
  {
    var tail := Join(",", values);
    var after := "," + tail + rest;
    assert |values[0]| > 0 && values[0][0] != '\n' && values[0][0] != '\r';
    assert tail[0] == values[0][0];
    assert after[1] == tail[0];
    assert !(separator <= after);
    assert after[1..] == tail + rest;
  }

  /** A tuple "(v1,...,vn)" is read into the current piece whole. */
  lemma ScanTuple(values: seq<string>, rest: string, separator: string, current: string)
    requires RowSeparator(separator)
    requires forall i :: 0 <= i < |values| ==> IsValueToken(values[i])
    ensures SplitOutside("(" + Join(",", values) + ")" + rest, separator, false, current)
         == SplitOutside(rest, separator, false, current + ("(" + Join(",", values) + ")"))
  {
    var j := Join(",", values);
    var t := "(" + j + ")" + rest;
    assert t[0] == '(' && t[1..] == j + (")" + rest);
    ScanJoinedTokens(values, ")" + rest, separator, current + "(");
    var u := ")" + rest;
    assert u[0] == ')' && u[1..] == rest;
    assert current + "(" + j + ")" == current + ("(" + j + ")");
  }

  /** A doubled and quoted text is a value token. */
  lemma QuotedDoubledIsToken(s: string)
    ensures IsValueToken(Quoted(DoubleQuotes(s)))
  {
    DoubleQuotesInverse(s);
    var t := Quoted(DoubleQuotes(s));
    assert t[1..|t| - 1] == DoubleQuotes(s);
  }

  predicate QuoteFree(t: string)
  {
    forall i :: 0 <= i < |t| ==> t[i] != '\''
  }

  lemma {:induction false} QuoteFreeIsPaired(t: string)
    requires QuoteFree(t)
    ensures PairedQuotes(t)
    decreases |t|
  {
    if t != [] {
      QuoteFreeIsPaired(t[1..]);
    }
  }

  /** A quote-free text, quoted, is one literal whose value is that text. */
  lemma QuotedQuoteFree(t: string)
    requires QuoteFree(t)
    ensures IsValueToken(Quoted(t))
    ensures ParseStringLiteral(Quoted(t)) == Some(t)
  {
    QuoteFreeIsPaired(t);
    UndoubleQuotesInverse(t);
    QuoteFreeUndoubled(t);
    var q := Quoted(t);
    assert q[1..|q| - 1] == t;
    QuotedDoubledRoundTrip(t);
  }

  /** Undoubling a quote-free text changes nothing. */
  lemma {:induction false} QuoteFreeUndoubled(t: string)
    requires QuoteFree(t)
    ensures PairedQuotes(t) && UndoubleQuotes(t) == t
    decreases |t|
  {
    QuoteFreeIsPaired(t);
    if t != [] {
      QuoteFreeUndoubled(t[1..]);
    }
  }
}
