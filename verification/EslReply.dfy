/** Reassembling one Event Socket reply from whatever pieces the connection
    delivers: a header block, a blank line, and as many body bytes as declared.
    A byte is a character below 256. */
module EslReply {
  import opened Wrappers

  type Bytes = string

  const BLANK_LINE: Bytes := "\n\n"
  const HEADER_MAX: nat := 1024 * 1024
  const LENGTH_FIELD: Bytes := "content-length:"

  /** What the connection still delivers, then whether it closes or stalls. */
  datatype Connection = Connection(pieces: seq<Bytes>, closes: bool)

  datatype Reply = Body(bytes: Bytes) | TimedOut

  // ----- the blank line -----

  predicate BlankAt(s: Bytes, p: nat) {
    p + 2 <= |s| && s[p] == '\n' && s[p + 1] == '\n'
  }

  function FirstBlank(s: Bytes): (p: Option<nat>)
    ensures p.Some? ==> BlankAt(s, p.value) && forall q: nat | q < p.value :: !BlankAt(s, q)
    ensures p.None? ==> forall q: nat :: !BlankAt(s, q)
  {
    if |s| < 2 then None
    else if BlankAt(s, 0) then Some(0)
    else
      var p := FirstBlank(s[1..]);
      assert forall q: nat | q > 0 :: BlankAt(s, q) <==> BlankAt(s[1..], q - 1);
      if p.None? then None else Some(p.value + 1)
  }

  /** The blank line is the first place where two line feeds follow each other. */
  lemma BlankIsTwoLineFeeds(s: Bytes)
    ensures FirstBlank(s).Some? ==> s[FirstBlank(s).value..][..2] == "\n\n"
    ensures forall before: Bytes, after: Bytes | s == before + "\n\n" + after :: FirstBlank(s).Some? && FirstBlank(s).value <= |before|
  {
    forall before: Bytes, after: Bytes | s == before + "\n\n" + after
      ensures FirstBlank(s).Some? && FirstBlank(s).value <= |before|
    {
      assert s[|before|] == '\n' && s[|before| + 1] == '\n';
      assert BlankAt(s, |before|);
    }
  }

  // ----- the declared length -----

  function LowerChar(c: char): char {
    if 'A' <= c <= 'Z' then (c as int + 32) as char else c
  }

  predicate IsLengthLine(line: Bytes) {
    |line| >= |LENGTH_FIELD| && forall i | 0 <= i < |LENGTH_FIELD| :: LowerChar(line[i]) == LENGTH_FIELD[i]
  }

  function LineEnd(s: Bytes): (e: nat)
    ensures e <= |s| && (forall i | 0 <= i < e :: s[i] != '\n') && (e < |s| ==> s[e] == '\n')
  {
    if s == "" || s[0] == '\n' then 0 else 1 + LineEnd(s[1..])
  }

  /** The first length field of a header block; `toInt` is the integer parser,
      given what follows the colon. 0 when there is none or it is not a number. */
  function ContentLength(head: Bytes, toInt: Bytes -> Option<int>): int
    decreases |head|
  {
    var e := LineEnd(head);
    if IsLengthLine(head[..e]) then
      var n := toInt(head[|LENGTH_FIELD|..e]);
      if n.Some? then n.value else 0
    else if e < |head| then ContentLength(head[e + 1..], toInt)
    else 0
  }

  const LOWER_FIELD: Bytes := "content-length:"
  const UPPER_FIELD: Bytes := "CONTENT-LENGTH:"

  /** "Content-Length:", each letter in either case. */
  predicate SaysLength(w: Bytes) {
    |w| == 15 && forall k | 0 <= k < 15 :: w[k] == LOWER_FIELD[k] || w[k] == UPPER_FIELD[k]
  }

  /** A line that declares a length. */
  predicate Declares(line: Bytes) {
    |line| >= 15 && SaysLength(line[..15])
  }

  lemma FieldLetter(c: char, k: nat)
    requires k < 15
    ensures |LENGTH_FIELD| == 15 && (LowerChar(c) == LENGTH_FIELD[k] <==> c == LOWER_FIELD[k] || c == UPPER_FIELD[k])
  {
  }

  lemma LengthLineDeclares(line: Bytes)
    ensures IsLengthLine(line) <==> Declares(line)
  {
    if |line| >= 15 {
      forall k | 0 <= k < 15
        ensures LowerChar(line[k]) == LENGTH_FIELD[k] <==> line[..15][k] == LOWER_FIELD[k] || line[..15][k] == UPPER_FIELD[k]
      {
        FieldLetter(line[k], k);
      }
    }
  }

  /** A block of lines. */
  function Block(lines: seq<Bytes>): Bytes {
    if lines == [] then "" else if |lines| == 1 then lines[0] else lines[0] + "\n" + Block(lines[1..])
  }

  predicate IsLine(line: Bytes) {
    '\n' !in line
  }

  predicate AreLines(lines: seq<Bytes>) {
    lines != [] && forall k | 0 <= k < |lines| :: IsLine(lines[k])
  }

  /** Every block is one of lines. */
  lemma {:induction false} EveryBlockHasLines(head: Bytes) returns (lines: seq<Bytes>)
    ensures AreLines(lines) && Block(lines) == head
    decreases |head|
  {
    var e := LineEnd(head);
    if e == |head| {
      lines := [head];
    } else {
      var rest := EveryBlockHasLines(head[e + 1..]);
      lines := [head[..e]] + rest;
      assert lines[1..] == rest;
      assert head == head[..e] + "\n" + head[e + 1..];
    }
  }

  lemma {:induction false} EndOfLine(line: Bytes, more: Bytes)
    requires IsLine(line) && (more == "" || more[0] == '\n')
    ensures LineEnd(line + more) == |line|
  {
    if line != "" {
      assert line[0] in line && (line + more)[1..] == line[1..] + more;
      EndOfLine(line[1..], more);
    } else {
      assert line + more == more;
    }
  }

  /** The number after the colon, or 0. */
  function DeclaredBy(line: Bytes, toInt: Bytes -> Option<int>): int
    requires Declares(line)
  {
    if toInt(line[15..]).Some? then toInt(line[15..]).value else 0
  }

  lemma LastLine(line: Bytes, toInt: Bytes -> Option<int>)
    requires IsLine(line)
    ensures ContentLength(line, toInt) == if Declares(line) then DeclaredBy(line, toInt) else 0
  {
    EndOfLine(line, "");
    assert line + "" == line && line[..|line|] == line;
    LengthLineDeclares(line);
  }

  lemma OneLine(line: Bytes, more: Bytes, toInt: Bytes -> Option<int>)
    requires IsLine(line)
    ensures ContentLength(line + "\n" + more, toInt)
            == if Declares(line) then DeclaredBy(line, toInt) else ContentLength(more, toInt)
  {
    var head := line + "\n" + more;
    assert head == line + ("\n" + more);
    EndOfLine(line, "\n" + more);
    assert head[..|line|] == line && head[|line| + 1..] == more;
    LengthLineDeclares(line);
    assert Declares(line) ==> head[15..|line|] == line[15..];
  }

  /** In a block of lines the declared length is that of the first line that begins with
      "Content-Length:" in any case, whichever line that is, and 0 if none does. */
  lemma {:induction false} LengthIsDeclared(lines: seq<Bytes>, toInt: Bytes -> Option<int>)
    requires AreLines(lines)
    ensures forall i | 0 <= i < |lines| && Declares(lines[i]) && (forall k | 0 <= k < i :: !Declares(lines[k])) ::
              ContentLength(Block(lines), toInt) == DeclaredBy(lines[i], toInt)
    ensures (forall k | 0 <= k < |lines| :: !Declares(lines[k])) ==> ContentLength(Block(lines), toInt) == 0
  {
    if |lines| == 1 {
      LastLine(lines[0], toInt);
    } else {
      var rest := lines[1..];
      assert forall k | 0 < k < |lines| :: lines[k] == rest[k - 1];
      assert forall k | 0 <= k < |rest| :: rest[k] == lines[k + 1];
      OneLine(lines[0], Block(rest), toInt);
      LengthIsDeclared(rest, toInt);
    }
  }

  // ----- the two receive loops -----

  /** The bytes held when the header loop ends, and how many pieces it took. */
  function ReadHeader(c: Connection, i: nat, header: Bytes): Option<(Bytes, nat)>
    requires i <= |c.pieces|
    decreases |c.pieces| - i
  {
    if FirstBlank(header).Some? then Some((header, i))
    else if i == |c.pieces| then (if c.closes then Some((header, i)) else None)
    else if c.pieces[i] == "" then Some((header, i + 1))
    else if |header + c.pieces[i]| > HEADER_MAX then Some((header + c.pieces[i], i + 1))
    else ReadHeader(c, i + 1, header + c.pieces[i])
  }

  function ReadBody(c: Connection, i: nat, body: Bytes, declared: int): Option<Bytes>
    requires i <= |c.pieces|
    decreases |c.pieces| - i
  {
    if declared == 0 || |body| >= declared then Some(body)
    else if i == |c.pieces| then (if c.closes then Some(body) else None)
    else if c.pieces[i] == "" then Some(body)
    else ReadBody(c, i + 1, body + c.pieces[i], declared)
  }

  /** `body[:n]`, which counts from the end when n is negative. */
  function Slice(body: Bytes, n: int): Bytes {
    if n >= |body| then body
    else if n >= 0 then body[..n]
    else if -n >= |body| then ""
    else body[..|body| + n]
  }

  /** What becomes of the bytes held when the header loop ends. */
  function AfterHeader(c: Connection, toInt: Bytes -> Option<int>, header: Bytes, i: nat): Reply
    requires i <= |c.pieces|
  {
    var p := FirstBlank(header);
    var head := if p.Some? then header[..p.value] else header;
    var rest := if p.Some? then header[p.value + 2..] else "";
    var n := ContentLength(head, toInt);
    var body := ReadBody(c, i, rest, n);
    if body.None? then TimedOut else Body(if n != 0 then Slice(body.value, n) else body.value)
  }

  function Received(c: Connection, toInt: Bytes -> Option<int>): Reply {
    var h := ReadHeader(c, 0, "");
    HeaderWithin(c, 0, "");
    if h.None? then TimedOut else AfterHeader(c, toInt, h.value.0, h.value.1)
  }

  lemma {:induction false} HeaderWithin(c: Connection, i: nat, header: Bytes)
    requires i <= |c.pieces|
    ensures ReadHeader(c, i, header).Some? ==> i <= ReadHeader(c, i, header).value.1 <= |c.pieces|
    decreases |c.pieces| - i
  {
    if FirstBlank(header).None? && i < |c.pieces| && c.pieces[i] != "" && |header + c.pieces[i]| <= HEADER_MAX {
      HeaderWithin(c, i + 1, header + c.pieces[i]);
    }
  }

  method ReceiveHeader(c: Connection) returns (r: Option<(Bytes, nat)>)
    ensures r == ReadHeader(c, 0, "")
  {
    var header, i := "", 0;
    while FirstBlank(header).None?
      invariant i <= |c.pieces|
      invariant ReadHeader(c, i, header) == ReadHeader(c, 0, "")
      decreases |c.pieces| - i
    {
      if i == |c.pieces| {
        return if c.closes then Some((header, i)) else None;
      }
      if c.pieces[i] == "" {
        return Some((header, i + 1));
      }
      header := header + c.pieces[i];
      i := i + 1;
      if |header| > HEADER_MAX {
        return Some((header, i));
      }
    }
    return Some((header, i));
  }

  method ReceiveBody(c: Connection, from: nat, rest: Bytes, declared: int) returns (r: Option<Bytes>)
    requires from <= |c.pieces|
    ensures r == ReadBody(c, from, rest, declared)
  {
    var body, i := rest, from;
    while declared != 0 && |body| < declared
      invariant i <= |c.pieces|
      invariant ReadBody(c, i, body, declared) == ReadBody(c, from, rest, declared)
      decreases |c.pieces| - i
    {
      if i == |c.pieces| {
        return if c.closes then Some(body) else None;
      }
      if c.pieces[i] == "" {
        return Some(body);
      }
      body := body + c.pieces[i];
      i := i + 1;
    }
    return Some(body);
  }

  method EslApi(c: Connection, toInt: Bytes -> Option<int>) returns (r: Reply)
    ensures r == Received(c, toInt)
  {
    var received := ReceiveHeader(c);
    if received.None? {
      return TimedOut;
    }
    HeaderWithin(c, 0, "");
    var (header, i) := received.value;
    var p := FirstBlank(header);
    var head := if p.Some? then header[..p.value] else header;
    var rest := if p.Some? then header[p.value + 2..] else "";
    var declared := ContentLength(head, toInt);
    var body := ReceiveBody(c, i, rest, declared);
    if body.None? {
      return TimedOut;
    }
    return Body(if declared != 0 then Slice(body.value, declared) else body.value);
  }

  // ----- what arrives does not depend on how it was cut -----

  function Joined(pieces: seq<Bytes>): Bytes {
    if pieces == [] then "" else pieces[0] + Joined(pieces[1..])
  }

  lemma JoinedFrom(pieces: seq<Bytes>, i: nat)
    requires i < |pieces|
    ensures Joined(pieces[i..]) == pieces[i] + Joined(pieces[i + 1..])
  {
    assert pieces[i..][1..] == pieces[i + 1..];
  }

  lemma {:induction false} JoinedLast(pieces: seq<Bytes>, piece: Bytes)
    ensures Joined(pieces + [piece]) == Joined(pieces) + piece
  {
    if pieces == [] {
      assert [] + [piece] == [piece] && [piece][1..] == [];
    } else {
      assert (pieces + [piece])[1..] == pieces[1..] + [piece];
      JoinedLast(pieces[1..], piece);
    }
  }

  /** After `j` pieces the header loop reads on: no blank line yet, no more than a
      mebibyte, and the last piece was not the empty one of a closed connection. */
  ghost predicate ReadsOn(c: Connection, j: nat)
    requires j <= |c.pieces|
  {
    FirstBlank(Joined(c.pieces[..j])).None? && |Joined(c.pieces[..j])| <= 1_048_576 && (j > 0 ==> c.pieces[j - 1] != "")
  }

  /** The loop ended with these bytes after `k` pieces, at the first reason to. */
  ghost predicate EndsAt(c: Connection, h: Bytes, k: nat) {
    && k <= |c.pieces| && h == Joined(c.pieces[..k])
    && (forall j: nat | j < k :: ReadsOn(c, j))
    && (ReadsOn(c, k) ==> k == |c.pieces| && c.closes)
  }

  ghost predicate HeaderEnds(c: Connection, r: Option<(Bytes, nat)>) {
    if r.Some? then EndsAt(c, r.value.0, r.value.1)
    else !c.closes && forall j: nat | j <= |c.pieces| :: ReadsOn(c, j)
  }

  lemma OnePieceMore(c: Connection, i: nat)
    requires i < |c.pieces|
    ensures Joined(c.pieces[..i + 1]) == Joined(c.pieces[..i]) + c.pieces[i]
  {
    assert c.pieces[..i + 1] == c.pieces[..i] + [c.pieces[i]];
    JoinedLast(c.pieces[..i], c.pieces[i]);
  }

  lemma {:induction false} HeaderFrom(c: Connection, i: nat, header: Bytes)
    requires i <= |c.pieces| && header == Joined(c.pieces[..i]) && forall j: nat | j < i :: ReadsOn(c, j)
    requires FirstBlank(header).None? ==> ReadsOn(c, i)
    ensures HeaderEnds(c, ReadHeader(c, i, header))
    decreases |c.pieces| - i
  {
    if FirstBlank(header).None? && i < |c.pieces| {
      OnePieceMore(c, i);
      if c.pieces[i] == "" {
        assert header + "" == header;
      } else if |header + c.pieces[i]| <= HEADER_MAX {
        HeaderFrom(c, i + 1, header + c.pieces[i]);
      }
    }
  }

  /** The header loop ends exactly at the first piece with which there is a blank line, or
      too much, or the connection is closed; it stalls exactly when none of these comes. */
  lemma HeaderIsReadToItsEnd(c: Connection)
    ensures HeaderEnds(c, ReadHeader(c, 0, ""))
  {
    HeaderFrom(c, 0, "");
  }

  /** A beginning that reaches past the blank line finds it where the whole does. */
  lemma BlankInPrefix(h: Bytes, stream: Bytes, p: nat)
    requires h <= stream && FirstBlank(stream) == Some(p)
    ensures FirstBlank(h) == if p + 2 <= |h| then Some(p) else None
  {
    assert forall q: nat | q + 2 <= |h| :: BlankAt(h, q) <==> BlankAt(stream, q);
    assert p + 2 <= |h| ==> BlankAt(h, p);
  }

  lemma {:induction false} HeaderReachesTheBlank(c: Connection, i: nat, header: Bytes, stream: Bytes, p: nat)
    requires i <= |c.pieces| && forall k | 0 <= k < |c.pieces| :: c.pieces[k] != ""
    requires header + Joined(c.pieces[i..]) == stream
    requires FirstBlank(stream) == Some(p) && p + 2 <= HEADER_MAX
    ensures ReadHeader(c, i, header).Some?
    ensures var (h, j) := ReadHeader(c, i, header).value;
            p + 2 <= |h| && h <= stream && j <= |c.pieces| && h + Joined(c.pieces[j..]) == stream
    decreases |c.pieces| - i
  {
    assert header <= stream;
    BlankInPrefix(header, stream, p);
    assert i == |c.pieces| ==> c.pieces[i..] == [] && header + "" == header;
    if FirstBlank(header).None? && i < |c.pieces| {
      JoinedFrom(c.pieces, i);
      assert header + c.pieces[i] + Joined(c.pieces[i + 1..]) == stream;
      if |header + c.pieces[i]| <= HEADER_MAX {
        HeaderReachesTheBlank(c, i + 1, header + c.pieces[i], stream, p);
      }
    }
  }

  lemma {:induction false} BodyIsRead(c: Connection, i: nat, body: Bytes, after: Bytes, declared: nat)
    requires i <= |c.pieces| && forall k | 0 <= k < |c.pieces| :: c.pieces[k] != ""
    requires body + Joined(c.pieces[i..]) == after && declared > 0
    ensures var r := ReadBody(c, i, body, declared);
            && (|after| >= declared ==> r.Some? && |r.value| >= declared && r.value <= after)
            && (|after| < declared ==> r == if c.closes then Some(after) else None)
    decreases |c.pieces| - i
  {
    if |body| < declared {
      if i == |c.pieces| {
        assert c.pieces[i..] == [];
        assert body + "" == body;
      } else {
        JoinedFrom(c.pieces, i);
        assert body + c.pieces[i] + Joined(c.pieces[i + 1..]) == after;
        BodyIsRead(c, i + 1, body + c.pieces[i], after, declared);
      }
    }
  }

  lemma PrefixesAgree(h: Bytes, stream: Bytes, p: nat, tail: Bytes)
    requires h + tail == stream && p + 2 <= |h|
    ensures h[..p] == stream[..p] && h[p + 2..] + tail == stream[p + 2..]
  {
  }

  lemma BodyAfterHeader(c: Connection, toInt: Bytes -> Option<int>, h: Bytes, i: nat, p: nat, n: nat, after: Bytes)
    requires i <= |c.pieces| && forall k | 0 <= k < |c.pieces| :: c.pieces[k] != ""
    requires FirstBlank(h) == Some(p) && ContentLength(h[..p], toInt) == n > 0
    requires h[p + 2..] + Joined(c.pieces[i..]) == after
    ensures AfterHeader(c, toInt, h, i) == if |after| >= n then Body(after[..n]) else if c.closes then Body(after) else TimedOut
  {
    BodyIsRead(c, i, h[p + 2..], after, n);
  }

  /** A negative length reads nothing more and cuts that many bytes from the end of what
      came with the header. */
  lemma NegativeLengthCutsTheEnd(c: Connection, toInt: Bytes -> Option<int>, h: Bytes, i: nat, p: nat)
    requires i <= |c.pieces| && FirstBlank(h) == Some(p) && ContentLength(h[..p], toInt) < 0
    ensures var rest, n := h[p + 2..], -ContentLength(h[..p], toInt);
            exists kept: Bytes :: AfterHeader(c, toInt, h, i) == Body(kept) && kept <= rest
                                  && |kept| == if n < |rest| then |rest| - n else 0
  {
    var rest, n := h[p + 2..], ContentLength(h[..p], toInt);
    assert Slice(rest, n) <= rest;
  }

  /** However a reply is cut into pieces, the result is decided by its bytes: the
      declared number of bytes after the blank line if that many arrive; a closed
      connection passes off what did arrive as the body, a stalled one times out. */
  lemma ReplyDependsOnlyOnItsBytes(c: Connection, toInt: Bytes -> Option<int>, p: nat)
    requires forall k | 0 <= k < |c.pieces| :: c.pieces[k] != ""
    requires FirstBlank(Joined(c.pieces)) == Some(p) && p + 2 <= HEADER_MAX
    requires ContentLength(Joined(c.pieces)[..p], toInt) > 0
    ensures var stream := Joined(c.pieces);
            var n, after := ContentLength(stream[..p], toInt), stream[p + 2..];
            Received(c, toInt) == if |after| >= n then Body(after[..n]) else if c.closes then Body(after) else TimedOut
  {
    var stream := Joined(c.pieces);
    assert c.pieces[0..] == c.pieces && "" + stream == stream;
    HeaderReachesTheBlank(c, 0, "", stream, p);
    var (h, i) := ReadHeader(c, 0, "").value;
    BlankInPrefix(h, stream, p);
    PrefixesAgree(h, stream, p, Joined(c.pieces[i..]));
    BodyAfterHeader(c, toInt, h, i, p, ContentLength(stream[..p], toInt), stream[p + 2..]);
  }

  lemma {:induction false} BlankAfterHead(head: Bytes, rest: Bytes)
    requires FirstBlank(head + "\n").None?
    ensures var stream := head + BLANK_LINE + rest;
            FirstBlank(stream) == Some(|head|) && stream[..|head|] == head && stream[|head| + 2..] == rest
  {
    var stream := head + BLANK_LINE + rest;
    assert BlankAt(stream, |head|);
    forall q: nat | q < |head| ensures !BlankAt(stream, q) {
      assert BlankAt(stream, q) ==> BlankAt(head + "\n", q);
    }
  }

  /** A well-formed reply, followed by anything, gives exactly its body for every
      way of cutting it, also when the blank line straddles pieces. */
  lemma {:induction false} WellFormedReplyGivesItsBody(c: Connection, toInt: Bytes -> Option<int>, head: Bytes, body: Bytes, trailing: Bytes)
    requires forall k | 0 <= k < |c.pieces| :: c.pieces[k] != ""
    requires Joined(c.pieces) == head + BLANK_LINE + (body + trailing)
    requires FirstBlank(head + "\n").None? && |head| + 2 <= HEADER_MAX
    requires ContentLength(head, toInt) == |body| > 0
    ensures Received(c, toInt) == Body(body)
  {
    BlankAfterHead(head, body + trailing);
    ReplyDependsOnlyOnItsBytes(c, toInt, |head|);
    assert (body + trailing)[..|body|] == body;
  }

  /** The caller gets the whole declared body exactly when it all arrived. */
  lemma WholeBodyIffItArrived(c: Connection, toInt: Bytes -> Option<int>, p: nat)
    requires forall k | 0 <= k < |c.pieces| :: c.pieces[k] != ""
    requires FirstBlank(Joined(c.pieces)) == Some(p) && p + 2 <= HEADER_MAX
    requires ContentLength(Joined(c.pieces)[..p], toInt) > 0
    ensures (Received(c, toInt).Body? && |Received(c, toInt).bytes| == ContentLength(Joined(c.pieces)[..p], toInt))
            <==> |Joined(c.pieces)| >= p + 2 + ContentLength(Joined(c.pieces)[..p], toInt)
  {
    ReplyDependsOnlyOnItsBytes(c, toInt, p);
  }
}
