/** Call-IDs and other strings inside ClickHouse SQL: which are let in, how they
    are written, and how the server's own literal reader reads them back. */
module ClickHouseText {
  import opened Wrappers

  const MAX_CALLID_LEN: nat := 512
  const HEX: string := "0123456789abcdef"

  predicate IsSafeCallId(cid: string) {
    0 < |cid| <= MAX_CALLID_LEN && forall c | c in cid :: 0x20 <= c as int <= 0x7E
  }

  predicate IsControl(c: char) {
    c as int < 0x20 || c as int == 0x7F
  }

  function Escape(c: char): string {
    if c == '\\' then "\\\\"
    else if c == '\'' then "\\'"
    else if c == '\n' then "\\n"
    else if c == '\r' then "\\r"
    else if c == '\t' then "\\t"
    else if IsControl(c) then ['\\', 'x', HEX[c as int / 16], HEX[c as int % 16]]
    else [c]
  }

  function MapJoin(f: char -> string, s: string): string {
    if s == "" then "" else f(s[0]) + MapJoin(f, s[1..])
  }

  function EscapeAll(s: string): string {
    MapJoin(Escape, s)
  }

  function Quoted(s: string): string {
    "'" + EscapeAll(s) + "'"
  }

  lemma EscapeHead(s: string)
    requires s != ""
    ensures EscapeAll(s) == Escape(s[0]) + EscapeAll(s[1..])
  {
  }

  lemma {:induction false} MapJoinLast(f: char -> string, s: string, c: char)
    ensures MapJoin(f, s + [c]) == MapJoin(f, s) + f(c)
  {
    if s == "" {
      assert s + [c] == [c];
      assert MapJoin(f, [c]) == f(c) + MapJoin(f, [c][1..]);
      assert f(c) + "" == f(c);
    } else {
      assert (s + [c])[1..] == s[1..] + [c];
      MapJoinLast(f, s[1..], c);
    }
  }

  method ChQuote(value: string) returns (q: string)
    ensures q == Quoted(value)
  {
    var out := "";
    for i := 0 to |value|
      invariant out == EscapeAll(value[..i])
    {
      MapJoinLast(Escape, value[..i], value[i]);
      assert value[..i + 1] == value[..i] + [value[i]];
      out := out + Escape(value[i]);
    }
    assert value[..|value|] == value;
    q := "'" + out + "'";
  }

  // ----- the server's reader -----

  function HexValue(c: char): Option<int> {
    if '0' <= c <= '9' then Some(c as int - '0' as int)
    else if 'a' <= c <= 'f' then Some(c as int - 'a' as int + 10)
    else if 'A' <= c <= 'F' then Some(c as int - 'A' as int + 10)
    else None
  }

  /** The character a backslash escape of one letter stands for. An unknown one
      keeps its backslash. */
  function Unescape(c: char): string {
    if c == 'n' then "\n"
    else if c == 'r' then "\r"
    else if c == 't' then "\t"
    else if c == '0' then [0 as char]
    else if c == 'a' then [7 as char]
    else if c == 'b' then [8 as char]
    else if c == 'v' then [11 as char]
    else if c == 'f' then [12 as char]
    else if c == 'e' then [27 as char]
    else if c in "\\'\"`/=" then [c]
    else ['\\', c]
  }

  function Prepend(s: string, r: Option<(string, string)>): Option<(string, string)> {
    if r.None? then None else Some((s + r.value.0, r.value.1))
  }

  /** From after the opening quote: the value read, and the text after the
      closing quote. A doubled quote is one quote. */
  function ReadBody(t: string): Option<(string, string)> {
    if t == "" then None
    else if t[0] == '\'' then
      if |t| > 1 && t[1] == '\'' then Prepend("'", ReadBody(t[2..])) else Some(("", t[1..]))
    else if t[0] == '\\' then
      if |t| < 2 then None
      else if t[1] == 'x' then
        if |t| < 4 || HexValue(t[2]).None? || HexValue(t[3]).None? then None
        else Prepend([(16 * HexValue(t[2]).value + HexValue(t[3]).value) as char], ReadBody(t[4..]))
      else Prepend(Unescape(t[1]), ReadBody(t[2..]))
    else Prepend([t[0]], ReadBody(t[1..]))
  }

  function ReadLiteral(t: string): Option<(string, string)> {
    if t != "" && t[0] == '\'' then ReadBody(t[1..]) else None
  }

  /** A non-empty comma-joined list of literals, and the text after it. */
  function ReadList(t: string): (r: Option<(seq<string>, string)>)
    decreases |t|
  {
    var first := ReadLiteral(t);
    if first.None? then None
    else
      var (v, rest) := first.value;
      if |rest| >= 2 && rest[..2] == ", " && |rest| < |t| then
        var more := ReadList(rest[2..]);
        if more.None? then None else Some(([v] + more.value.0, more.value.1))
      else Some(([v], rest))
  }

  function JoinQuoted(values: seq<string>): string {
    if values == [] then ""
    else if |values| == 1 then Quoted(values[0])
    else Quoted(values[0]) + ", " + JoinQuoted(values[1..])
  }

  lemma ReadPlain(c: char, t: string)
    requires c != '\'' && c != '\\'
    ensures ReadBody([c] + t) == Prepend([c], ReadBody(t))
  {
    assert ([c] + t)[1..] == t;
  }

  lemma ReadLetter(x: char, t: string)
    requires x != 'x'
    ensures ReadBody(['\\', x] + t) == Prepend(Unescape(x), ReadBody(t))
  {
    assert (['\\', x] + t)[2..] == t;
  }

  lemma ReadHex(n: int, t: string)
    requires 0 <= n < 0x80
    ensures ReadBody(['\\', 'x', HEX[n / 16], HEX[n % 16]] + t) == Prepend([n as char], ReadBody(t))
  {
    assert (['\\', 'x', HEX[n / 16], HEX[n % 16]] + t)[4..] == t;
    assert HexValue(HEX[n / 16]) == Some(n / 16) && HexValue(HEX[n % 16]) == Some(n % 16);
  }

  lemma ReadEscaped(c: char, t: string)
    ensures ReadBody(Escape(c) + t) == Prepend([c], ReadBody(t))
  {
    if c == '\\' || c == '\'' {
      ReadLetter(c, t);
    } else if c == '\n' {
      ReadLetter('n', t);
    } else if c == '\r' {
      ReadLetter('r', t);
    } else if c == '\t' {
      ReadLetter('t', t);
    } else if IsControl(c) {
      ReadHex(c as int, t);
    } else {
      ReadPlain(c, t);
    }
  }

  lemma PrependTwice(a: string, b: string, r: Option<(string, string)>)
    ensures Prepend(a, Prepend(b, r)) == Prepend(a + b, r)
  {
    if r.Some? {
      assert a + (b + r.value.0) == a + b + r.value.0;
    }
  }

  lemma {:induction false} ReadEscapedAll(s: string, t: string)
    ensures ReadBody(EscapeAll(s) + t) == Prepend(s, ReadBody(t))
  {
    if s == "" {
      assert EscapeAll(s) + t == t;
      if ReadBody(t).Some? {
        assert "" + ReadBody(t).value.0 == ReadBody(t).value.0;
      }
    } else {
      var more := EscapeAll(s[1..]) + t;
      EscapeHead(s);
      assert EscapeAll(s) + t == Escape(s[0]) + more;
      ReadEscaped(s[0], more);
      ReadEscapedAll(s[1..], t);
      PrependTwice([s[0]], s[1..], ReadBody(t));
      assert [s[0]] + s[1..] == s;
    }
  }

  /** Every string comes back, and the reader stops right after it. */
  lemma QuotedReadsBack(s: string, rest: string)
    requires rest == "" || rest[0] != '\''
    ensures ReadLiteral(Quoted(s) + rest) == Some((s, rest))
  {
    var t := "'" + rest;
    assert (Quoted(s) + rest)[1..] == EscapeAll(s) + t;
    ReadEscapedAll(s, t);
    assert t[1..] == rest;
    assert s + "" == s;
  }

  lemma ReadOneOfMany(v: string, tail: string)
    ensures ReadList(Quoted(v) + (", " + tail))
            == if ReadList(tail).None? then None else Some(([v] + ReadList(tail).value.0, ReadList(tail).value.1))
  {
    var t := Quoted(v) + (", " + tail);
    QuotedReadsBack(v, ", " + tail);
    assert (", " + tail)[..2] == ", " && (", " + tail)[2..] == tail;
  }

  lemma ReadTheLast(v: string, rest: string)
    requires rest == "" || (rest[0] != '\'' && rest[0] != ',')
    ensures ReadList(Quoted(v) + rest) == Some(([v], rest))
  {
    QuotedReadsBack(v, rest);
    assert |rest| >= 2 ==> rest[..2][0] == rest[0] && ", "[0] == ',';
  }

  lemma Regroup(a: string, b: string, c: string, d: string)
    ensures (a + b + c) + d == a + (b + (c + d))
  {
  }

  lemma JoinSplits(values: seq<string>, rest: string)
    requires |values| > 1
    ensures JoinQuoted(values) + rest == Quoted(values[0]) + (", " + (JoinQuoted(values[1..]) + rest))
  {
    Regroup(Quoted(values[0]), ", ", JoinQuoted(values[1..]), rest);
  }

  /** A joined list reads back as that list, whatever its strings hold. */
  lemma {:induction false} JoinedReadsBack(values: seq<string>, rest: string)
    requires values != []
    requires rest == "" || (rest[0] != '\'' && rest[0] != ',')
    ensures ReadList(JoinQuoted(values) + rest) == Some((values, rest))
  {
    var v := values[0];
    if |values| == 1 {
      ReadTheLast(v, rest);
      assert values == [v];
    } else {
      var tail := JoinQuoted(values[1..]) + rest;
      JoinSplits(values, rest);
      ReadOneOfMany(v, tail);
      JoinedReadsBack(values[1..], rest);
      assert [v] + values[1..] == values;
    }
  }

  /** No two strings share a literal. */
  lemma QuotedIsInjective(a: string, b: string)
    requires Quoted(a) == Quoted(b)
    ensures a == b
  {
    assert Quoted(a) + "" == Quoted(a) && Quoted(b) + "" == Quoted(b);
    QuotedReadsBack(a, "");
    QuotedReadsBack(b, "");
  }

  lemma HexDigitIsPlain(n: int)
    requires 0 <= n < 16
    ensures !IsControl(HEX[n])
  {
    assert '0' <= HEX[n] <= '9' || 'a' <= HEX[n] <= 'f';
  }

  lemma EscapeHasNoControls(c: char, i: nat)
    requires i < |Escape(c)|
    ensures !IsControl(Escape(c)[i])
  {
    if IsControl(c) && c !in "\n\r\t" {
      HexDigitIsPlain(c as int / 16);
      HexDigitIsPlain(c as int % 16);
    }
  }

  /** Text without a backslash, a quote or a control character is written as it is. */
  lemma {:induction false} PlainTextIsKept(s: string)
    requires forall c | c in s :: c != '\\' && c != '\'' && c as int >= 32 && c as int != 127
    ensures Quoted(s) == "'" + s + "'"
  {
    if s != "" {
      assert s == [s[0]] + s[1..];
      assert s[0] in s && forall c | c in s[1..] :: c in s;
      PlainTextIsKept(s[1..]);
      EscapeHead(s);
      assert EscapeAll(s[1..]) == s[1..] by {
        assert Quoted(s[1..])[1..|Quoted(s[1..])| - 1] == EscapeAll(s[1..]);
        assert ("'" + s[1..] + "'")[1..|s|] == s[1..];
      }
    }
  }

  /** A Call-ID is let into a query if and only if it has 1 to 512 characters, each
      from space to tilde. */
  lemma SafeMeans(cid: string)
    ensures IsSafeCallId(cid) <==> 1 <= |cid| <= 512 && forall i | 0 <= i < |cid| :: ' ' <= cid[i] <= '~'
  {
    assert forall i | 0 <= i < |cid| :: cid[i] in cid;
  }

  /** The literal stays on one line and carries no control character. */
  lemma {:induction false} QuotedHasNoControls(s: string, i: nat)
    ensures i < |EscapeAll(s)| ==> EscapeAll(s)[i] as int >= 32 && EscapeAll(s)[i] as int != 127
    ensures i < |Quoted(s)| ==> Quoted(s)[i] as int >= 32 && Quoted(s)[i] as int != 127
    decreases |s|, i
  {
    if s != "" && i < |EscapeAll(s)| {
      EscapeHead(s);
      if i < |Escape(s[0])| {
        EscapeHasNoControls(s[0], i);
      } else {
        QuotedHasNoControls(s[1..], i - |Escape(s[0])|);
      }
    }
    if 0 < i < |Quoted(s)| - 1 {
      assert Quoted(s)[i] == EscapeAll(s)[i - 1];
      QuotedHasNoControls(s, i - 1);
    }
  }

  /** Why doubling the quote alone was not enough: a trailing backslash swallows
      the closing quote. */
  lemma DoublingQuotesAloneLosesTheEnd()
    ensures ReadLiteral("'a\\'").None?
  {
    var t := "a\\'";
    assert "'a\\'"[1..] == t && t[1..] == "\\'" && t[1..][2..] == "";
  }
}
