/**
  The few .NET string operations the generator relies on: String.Join,
  String.TrimEnd(char), String.Replace("'", "''") and
  String.IsNullOrWhiteSpace (with Char.IsWhiteSpace).
 */
module DotNetText {
  import opened Wrappers

  /** String.Join(separator, parts): the parts with the separator between neighbours. */
  function Join(separator: string, parts: seq<string>): string
  {
    if |parts| == 0 then ""
    else if |parts| == 1 then parts[0]
    else parts[0] + separator + Join(separator, parts[1..])
  }

  /** Joining one more part puts a separator before it. */
  lemma {:induction false} JoinSnoc(separator: string, parts: seq<string>, last: string)
    requires |parts| > 0
    ensures Join(separator, parts + [last]) == Join(separator, parts) + separator + last
  {
    if |parts| > 1 {
      assert (parts + [last])[1..] == parts[1..] + [last];
      JoinSnoc(separator, parts[1..], last);
    }
  }

  /** A non-empty join ends with its last part. */
  lemma {:induction false} JoinEndsWithLast(separator: string, parts: seq<string>)
    requires |parts| > 0
    ensures |Join(separator, parts)| >= |parts[|parts| - 1]|
    ensures Join(separator, parts)[|Join(separator, parts)| - |parts[|parts| - 1]|..] == parts[|parts| - 1]
  {
    if |parts| > 1 {
      JoinEndsWithLast(separator, parts[1..]);
    }
  }

  /** String.TrimEnd(c): removes every trailing occurrence of c. */
  function TrimEnd(s: string, c: char): (r: string)
    ensures r <= s
    ensures |r| > 0 ==> r[|r| - 1] != c
    ensures forall i :: |r| <= i < |s| ==> s[i] == c
    decreases |s|
  {
    if |s| > 0 && s[|s| - 1] == c then TrimEnd(s[..|s| - 1], c) else s
  }

  /** String.Replace("'", "''"): every single quote doubled. */
  function DoubleQuotes(s: string): (r: string)
    ensures |r| >= |s|
    ensures (forall i :: 0 <= i < |s| ==> s[i] != '\'') ==> r == s
    decreases |s|
  {
    if s == [] then ""
    else (if s[0] == '\'' then "''" else [s[0]]) + DoubleQuotes(s[1..])
  }

  /** Doubling quotes changes nothing else: the result has a quote only where the input had one. */
  lemma {:induction false} DoubleQuotesKeepsOtherChars(s: string, c: char)
    requires c != '\''
    ensures c in DoubleQuotes(s) <==> c in s
    decreases |s|
  {
    if s != [] {
      DoubleQuotesKeepsOtherChars(s[1..], c);
      assert s == [s[0]] + s[1..];
    }
  }

  /** Char.IsWhiteSpace: the Unicode space separators, line and paragraph
      separators, and the control characters U+0009..U+000D and U+0085. */
  predicate IsWhiteSpace(c: char)
  {
    || c == ' '
    || '\t' <= c <= '\r'
    || c == '\U{85}'
    || c == '\U{A0}'
    || c == '\U{1680}'
    || '\U{2000}' <= c <= '\U{200A}'
    || c == '\U{2028}'
    || c == '\U{2029}'
    || c == '\U{202F}'
    || c == '\U{205F}'
    || c == '\U{3000}'
  }

  /** String.TrimStart(): drops the leading white space. */
  function TrimStartWhiteSpace(s: string): (r: string)
    ensures r == [] <==> forall i :: 0 <= i < |s| ==> IsWhiteSpace(s[i])
    ensures |r| > 0 ==> !IsWhiteSpace(r[0])
    decreases |s|
  {
    if s != [] && IsWhiteSpace(s[0]) then TrimStartWhiteSpace(s[1..]) else s
  }

  /** string.IsNullOrWhiteSpace: null, or nothing left once trimmed. */
  function IsNullOrWhiteSpace(s: Option<string>): (r: bool)
    ensures r <==> s.None? || TrimStartWhiteSpace(s.value) == []
  {
    s.None? || forall i :: 0 <= i < |s.value| ==> IsWhiteSpace(s.value[i])
  }
}
