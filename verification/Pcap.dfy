/** Stored SIP rows as a classic libpcap file: every byte that is written, and a
    reader of the format that gets every representable row back. */
module Pcap {
  import opened Wrappers

  newtype byte = x: int | 0 <= x < 256
  type Bytes = seq<byte>

  // ----- fixed-width integers -----

  function Be16(n: int): Bytes
    requires 0 <= n < 0x1_0000
  {
    [(n / 256) as byte, (n % 256) as byte]
  }

  function Le16(n: int): Bytes
    requires 0 <= n < 0x1_0000
  {
    [(n % 256) as byte, (n / 256) as byte]
  }

  function Le32(n: int): Bytes
    requires 0 <= n < 0x1_0000_0000
  {
    Le16(n % 0x1_0000) + Le16(n / 0x1_0000)
  }

  function Be16At(s: Bytes, i: nat): int
    requires i + 2 <= |s|
  {
    s[i] as int * 256 + s[i + 1] as int
  }

  function Le16At(s: Bytes, i: nat): int
    requires i + 2 <= |s|
  {
    s[i] as int + s[i + 1] as int * 256
  }

  function Le32At(s: Bytes, i: nat): int
    requires i + 4 <= |s|
  {
    Le16At(s, i) + Le16At(s, i + 2) * 0x1_0000
  }

  // ----- the header checksum -----

  /** The sum of the 16-bit words; an odd last byte would not count. */
  function WordSum(h: Bytes): nat {
    if |h| < 2 then 0 else Be16At(h, 0) + WordSum(h[2..])
  }

  function Folded(total: nat): nat {
    var once := total / 0x1_0000 + total % 0x1_0000;
    once + once / 0x1_0000
  }

  function Checksum(h: Bytes): (c: int)
    requires |h| % 2 == 0
    ensures 0 <= c < 0x1_0000
  {
    0xFFFF - Folded(WordSum(h)) % 0x1_0000
  }

  method Ipv4Checksum(header: Bytes) returns (c: int)
    requires |header| % 2 == 0
    ensures c == Checksum(header)
  {
    var total, i := 0, 0;
    while i < |header|
      invariant 0 <= i <= |header| && i % 2 == 0
      invariant total + WordSum(header[i..]) == WordSum(header)
    {
      assert header[i..][2..] == header[i + 2..];
      total := total + Be16At(header, i);
      i := i + 2;
    }
    total := total / 0x1_0000 + total % 0x1_0000;
    total := total + total / 0x1_0000;
    c := 0xFFFF - total % 0x1_0000;
  }

  /** 16-bit one's complement addition: a carry comes back in at the bottom. */
  function OnesAdd(a: int, b: int): int {
    if a + b > 0xFFFF then a + b - 0xFFFF else a + b
  }

  /** The one's complement sum of section 1 of RFC 1071. */
  function OnesSum(h: Bytes): int {
    if |h| < 2 then 0 else OnesAdd(Be16At(h, 0), OnesSum(h[2..]))
  }

  /** What any sum of words is after all its carries are folded in. */
  function Norm(total: nat): int {
    if total == 0 then 0 else (total - 1) % 0xFFFF + 1
  }

  lemma NormAdd(w: int, total: nat)
    requires 0 <= w <= 0xFFFF
    ensures OnesAdd(w, Norm(total)) == Norm(w + total)
  {
    if total > 0 && w > 0 {
      var q, r := (total - 1) / 0xFFFF, (total - 1) % 0xFFFF;
      assert w + total - 1 == q * 0xFFFF + (r + w);
      if r + w < 0xFFFF {
        ModIs(w + total - 1, q, r + w);
      } else {
        ModIs(w + total - 1, q + 1, r + w - 0xFFFF);
      }
    }
  }

  lemma ModIs(n: int, q: int, r: int)
    requires n == q * 0xFFFF + r && 0 <= r < 0xFFFF
    ensures n % 0xFFFF == r
  {
  }

  lemma {:induction false} OnesSumIsNorm(h: Bytes)
    ensures OnesSum(h) == Norm(WordSum(h))
  {
    if |h| >= 2 {
      OnesSumIsNorm(h[2..]);
      NormAdd(Be16At(h, 0), WordSum(h[2..]));
    }
  }

  lemma {:induction false} WordSumBound(h: Bytes)
    ensures WordSum(h) <= |h| / 2 * 0xFFFF
  {
    if |h| >= 2 {
      WordSumBound(h[2..]);
      assert |h| / 2 == |h[2..]| / 2 + 1;
    }
  }

  /** Two carry folds are enough for every sum below 2^32. */
  lemma TwoFoldsNormalize(total: nat)
    requires total < 0x1_0000_0000
    ensures Folded(total) % 0x1_0000 == Norm(total)
  {
    if total > 0 {
      var hi, lo := total / 0x1_0000, total % 0x1_0000;
      assert total - 1 == hi * 0xFFFF + (hi + lo - 1);
      if hi + lo <= 0xFFFF {
        ModIs(total - 1, hi, hi + lo - 1);
      } else if hi + lo - 0xFFFF <= 0xFFFF {
        ModIs(total - 1, hi + 1, hi + lo - 1 - 0xFFFF);
      }
    }
  }

  lemma {:induction false} WordSumAppend(a: Bytes, b: Bytes)
    requires |a| % 2 == 0
    ensures WordSum(a + b) == WordSum(a) + WordSum(b)
  {
    if a == [] {
      assert a + b == b;
    } else {
      WordSumAppend(a[2..], b);
      assert (a + b)[2..] == a[2..] + b;
    }
  }

  lemma WordSumPair(n: int)
    requires 0 <= n < 0x1_0000
    ensures WordSum(Be16(n)) == n
  {
    assert Be16(n)[2..] == [];
  }

  lemma NormComplement(total: nat)
    ensures 0 <= Norm(total) <= 0xFFFF && Norm(total + (0xFFFF - Norm(total))) == 0xFFFF
  {
    if total > 0 {
      var q := (total - 1) / 0xFFFF;
      ModIs(total + 0xFFFF - Norm(total) - 1, q, 0xFFFE);
    }
  }

  lemma WordSumOfThree(a: Bytes, w: Bytes, b: Bytes)
    requires |a| % 2 == 0 && |w| == 2
    ensures WordSum(a + w + b) == WordSum(a) + WordSum(w) + WordSum(b)
  {
    assert a + w + b == a + (w + b);
    WordSumAppend(a, w + b);
    assert (w + b)[2..] == b && w[2..] == [];
  }

  lemma ZeroWordSplits(h: Bytes, at: nat)
    requires at + 2 <= |h| && h[at] == 0 && h[at + 1] == 0
    ensures h == h[..at] + Be16(0) + h[at + 2..]
  {
  }

  lemma WordSumWithWord(h: Bytes, at: nat, c: int)
    requires |h| % 2 == 0 && at % 2 == 0 && at + 2 <= |h| && h[at] == 0 && h[at + 1] == 0
    requires 0 <= c < 0x1_0000
    ensures WordSum(h[..at] + Be16(c) + h[at + 2..]) == WordSum(h) + c
  {
    var a, b := h[..at], h[at + 2..];
    ZeroWordSplits(h, at);
    WordSumOfThree(a, Be16(0), b);
    WordSumOfThree(a, Be16(c), b);
    WordSumPair(0);
    WordSumPair(c);
  }

  /** Writing the checksum over the zeroed word at `at` makes the header's one's
      complement sum all ones, for every even header of at most 65 537 words. */
  lemma ChecksumMakesAllOnes(h: Bytes, at: nat)
    requires |h| % 2 == 0 && |h| <= 2 * 65_537 && at % 2 == 0 && at + 2 <= |h|
    requires h[at] == 0 && h[at + 1] == 0
    ensures OnesSum(h[..at] + Be16(Checksum(h)) + h[at + 2..]) == 0xFFFF
  {
    var c := Checksum(h);
    WordSumWithWord(h, at, c);
    WordSumBound(h);
    TwoFoldsNormalize(WordSum(h));
    NormComplement(WordSum(h));
    OnesSumIsNorm(h[..at] + Be16(c) + h[at + 2..]);
  }

  // ----- endpoints -----

  /** An address label: four IPv4 octets, an IPv6 address, or no address at all. */
  datatype Addr = V4(octets: Bytes) | V6 | NotAnAddress

  /** What a stored endpoint label is: an alias name, or a raw address. */
  datatype Label = Name(name: string) | Raw(addr: Addr)

  const UNKNOWN := V4([0, 0, 0, 0])

  predicate GoodAddr(a: Addr) {
    a.V4? ==> |a.octets| == 4
  }

  function ResolveIp(nameToIp: map<string, Addr>, endpoint: Label): Addr {
    match endpoint
    case Name(n) => if n in nameToIp then nameToIp[n] else UNKNOWN
    case Raw(a) => if a.NotAnAddress? then UNKNOWN else a
  }

  /** One alias entry; `public` is whether the address is globally routable. */
  datatype Alias = Alias(ip: Addr, name: string, public: bool)

  /** The chosen entry per name, by position in the alias list: the first, unless
      a later one is the first public one. */
  function ChosenBy(aliases: seq<Alias>): (m: map<string, nat>)
    ensures forall n | n in m :: m[n] < |aliases|
  {
    if aliases == [] then map[]
    else
      var k := |aliases| - 1;
      var m := ChosenBy(aliases[..k]);
      var a := aliases[k];
      if a.name !in m || (!aliases[m[a.name]].public && a.public) then m[a.name := k] else m
  }

  /** A name with any public interface is represented by one, by its first. */
  lemma {:induction false} RepresentativeIsPublicIfAny(aliases: seq<Alias>, name: string)
    ensures name in ChosenBy(aliases) <==> exists i :: 0 <= i < |aliases| && aliases[i].name == name
    ensures name in ChosenBy(aliases) ==>
      var r := ChosenBy(aliases)[name];
      && aliases[r].name == name
      && (aliases[r].public ==> forall i | 0 <= i < r && aliases[i].name == name :: !aliases[i].public)
      && (!aliases[r].public ==> forall i | 0 <= i < |aliases| && aliases[i].name == name :: !aliases[i].public && r <= i)
  {
    if aliases != [] {
      var k := |aliases| - 1;
      var most := aliases[..k];
      RepresentativeIsPublicIfAny(most, name);
      assert forall i | 0 <= i < k :: most[i] == aliases[i];
      if aliases[k].name != name {
        assert name in ChosenBy(aliases) <==> name in ChosenBy(most);
      }
    }
  }

  // ----- one packet -----

  /** Neither parsed: absent or garbage. */
  type PortLabel = Option<int>

  function SanePort(p: PortLabel): (n: int)
    ensures 0 <= n <= 65535
  {
    if p.Some? && 0 <= p.value <= 65535 then p.value else 5060
  }

  const MAX_UDP_PAYLOAD: nat := 65535 - 20 - 8
  /** The snapshot length the file declares. */
  const SNAP_LENGTH: nat := 65535
  const GLOBAL_HEADER: Bytes := [0xD4, 0xC3, 0xB2, 0xA1, 2, 0, 4, 0, 0, 0, 0, 0, 0, 0, 0, 0, 0xFF, 0xFF, 0, 0, 1, 0, 0, 0]
  const ETH_HEADER: Bytes := [0, 0, 0, 0, 0, 0, 0, 0, 0, 0, 0, 0, 8, 0]

  datatype Packet = Record(bytes: Bytes) | Skipped | TimeOverflow

  /** The IPv4 header before its checksum is known. */
  function IpHeader(src: Bytes, dst: Bytes, totalLen: int): (h: Bytes)
    requires |src| == 4 && |dst| == 4 && 0 <= totalLen < 0x1_0000
    ensures |h| == 20 && h[10] == 0 && h[11] == 0
  {
    [0x45, 0] + Be16(totalLen) + [0, 0, 0, 0, 64, 17, 0, 0] + src + dst
  }

  function WithChecksum(h: Bytes): Bytes
    requires |h| == 20
  {
    h[..10] + Be16(Checksum(h)) + h[12..]
  }

  function UdpHeader(srcPort: int, dstPort: int, udpLen: int): Bytes
    requires 0 <= srcPort <= 65535 && 0 <= dstPort <= 65535 && 0 <= udpLen <= 65535
  {
    Be16(srcPort) + Be16(dstPort) + Be16(udpLen) + [0, 0]
  }

  function Frame(src: Bytes, dst: Bytes, srcPort: int, dstPort: int, payload: Bytes): (f: Bytes)
    requires |src| == 4 && |dst| == 4 && 0 <= srcPort <= 65535 && 0 <= dstPort <= 65535
    requires |payload| <= MAX_UDP_PAYLOAD
    ensures |f| == 42 + |payload|
  {
    ETH_HEADER + WithChecksum(IpHeader(src, dst, 28 + |payload|)) + UdpHeader(srcPort, dstPort, 8 + |payload|) + payload
  }

  function RecordHeader(sec: int, usec: int, len: int): (h: Bytes)
    requires 0 <= sec < 0x1_0000_0000 && 0 <= usec < 1_000_000 && 0 <= len < 0x1_0000_0000
    ensures |h| == 16
  {
    Le32(sec) + Le32(usec) + Le32(len) + Le32(len)
  }

  /** Whole microseconds of a stored nanosecond time; before the epoch is 0. */
  function Micros(tsNs: int): nat {
    (if tsNs > 0 then tsNs else 0) / 1000
  }

  function BuildPacket(src: Addr, dst: Addr, srcPort: int, dstPort: int, payload: Bytes, tsNs: int): Packet
    requires GoodAddr(src) && GoodAddr(dst)
    requires 0 <= srcPort <= 65535 && 0 <= dstPort <= 65535
  {
    if !src.V4? || !dst.V4? then Skipped
    else if |payload| > MAX_UDP_PAYLOAD then Skipped
    else
      var ns := if tsNs > 0 then tsNs else 0;
      var sec, rem := ns / 1_000_000_000, ns % 1_000_000_000;
      if sec >= 0x1_0000_0000 then TimeOverflow
      else
        var frame := Frame(src.octets, dst.octets, srcPort, dstPort, payload);
        Record(RecordHeader(sec, rem / 1000, |frame|) + frame)
  }

  // ----- the file -----

  datatype Row = Row(src: Label, dst: Label, srcPort: PortLabel, dstPort: PortLabel, tsNs: int, payload: Bytes)

  predicate GoodRow(r: Row) {
    (r.src.Raw? ==> GoodAddr(r.src.addr)) && (r.dst.Raw? ==> GoodAddr(r.dst.addr))
  }

  predicate GoodNames(names: map<string, Addr>) {
    forall n | n in names :: GoodAddr(names[n])
  }

  function PacketOf(names: map<string, Addr>, r: Row): Packet
    requires GoodNames(names) && GoodRow(r)
  {
    BuildPacket(ResolveIp(names, r.src), ResolveIp(names, r.dst), SanePort(r.srcPort), SanePort(r.dstPort), r.payload, r.tsNs)
  }

  datatype File = File(bytes: Bytes, packets: nat, skipped: nat)
  datatype Failure = TimeDoesNotFit

  function AddPacket(file: Result<File, Failure>, p: Packet): Result<File, Failure> {
    if file.Err? then file
    else
      var f := file.value;
      match p
      case Record(b) => Ok(File(f.bytes + b, f.packets + 1, f.skipped))
      case Skipped => Ok(f.(skipped := f.skipped + 1))
      case TimeOverflow => Err(TimeDoesNotFit)
  }

  /** The file grown row by row; a time past 2106 fails the whole export. */
  function Pcap(names: map<string, Addr>, rows: seq<Row>): Result<File, Failure>
    requires GoodNames(names) && forall i | 0 <= i < |rows| :: GoodRow(rows[i])
  {
    if rows == [] then Ok(File(GLOBAL_HEADER, 0, 0))
    else AddPacket(Pcap(names, rows[..|rows| - 1]), PacketOf(names, rows[|rows| - 1]))
  }

  /** The file so far is that of the first `n` rows. */
  ghost predicate IsPcapOf(names: map<string, Addr>, rows: seq<Row>, n: nat, f: File)
    requires GoodNames(names) && n <= |rows| && forall i | 0 <= i < |rows| :: GoodRow(rows[i])
  {
    forall first | first == rows[..n] :: Pcap(names, first) == Ok(f)
  }

  /** Adds one row; false when its time does not fit. */
  method AddRow(names: map<string, Addr>, rows: seq<Row>, i: nat, f: File) returns (fits: bool, g: File)
    requires GoodNames(names) && forall i | 0 <= i < |rows| :: GoodRow(rows[i])
    requires i < |rows| && IsPcapOf(names, rows, i, f)
    ensures fits ==> IsPcapOf(names, rows, i + 1, g)
    ensures !fits ==> Pcap(names, rows) == Err(TimeDoesNotFit)
  {
    PcapOfOneMore(names, rows, i);
    g, fits := f, true;
    match PacketOf(names, rows[i])
    case Record(bytes) => g := File(f.bytes + bytes, f.packets + 1, f.skipped);
    case Skipped => g := f.(skipped := f.skipped + 1);
    case TimeOverflow =>
      FailureStays(names, rows, i + 1);
      fits := false;
  }

  method BuildPcap(names: map<string, Addr>, rows: seq<Row>) returns (file: Result<File, Failure>)
    requires GoodNames(names) && forall i | 0 <= i < |rows| :: GoodRow(rows[i])
    ensures file == Pcap(names, rows)
  {
    var f := File(GLOBAL_HEADER, 0, 0);
    for i := 0 to |rows|
      invariant IsPcapOf(names, rows, i, f)
    {
      var fits;
      fits, f := AddRow(names, rows, i, f);
      if !fits {
        return Err(TimeDoesNotFit);
      }
    }
    assert rows[..|rows|] == rows;
    file := Ok(f);
  }

  lemma PcapOfOneMore(names: map<string, Addr>, rows: seq<Row>, i: nat)
    requires GoodNames(names) && forall i | 0 <= i < |rows| :: GoodRow(rows[i])
    requires i < |rows|
    ensures Pcap(names, rows[..i + 1]) == AddPacket(Pcap(names, rows[..i]), PacketOf(names, rows[i]))
  {
    assert rows[..i + 1][..i] == rows[..i];
  }

  lemma {:induction false} FailureStays(names: map<string, Addr>, rows: seq<Row>, k: nat)
    requires GoodNames(names) && forall i | 0 <= i < |rows| :: GoodRow(rows[i])
    requires k <= |rows| && Pcap(names, rows[..k]) == Err(TimeDoesNotFit)
    ensures Pcap(names, rows) == Err(TimeDoesNotFit)
  {
    if k < |rows| {
      var n := |rows| - 1;
      assert rows[..n][..k] == rows[..k];
      FailureStays(names, rows[..n], k);
    } else {
      assert rows[..k] == rows;
    }
  }

  // ----- a reader of the format -----

  datatype Captured = Captured(micros: nat, src: Bytes, dst: Bytes, srcPort: int, dstPort: int, payload: Bytes)

  /** The frame's packet, if every length, the type fields and the header
      checksum agree (section 3.1 of RFC 791, RFC 768). */
  function ReadFrame(f: Bytes, micros: nat): Option<Captured> {
    if |f| < 42 || f[12] != 8 || f[13] != 0 || f[14] != 0x45 || f[23] != 17 then None
    else if Be16At(f, 16) != |f| - 14 || Be16At(f, 38) != |f| - 34 || OnesSum(f[14..34]) != 0xFFFF then None
    else Some(Captured(micros, f[26..30], f[30..34], Be16At(f, 34), Be16At(f, 36), f[42..]))
  }

  /** One record and the bytes after it; a record longer than `snap` is refused. */
  function ReadRecord(s: Bytes, snap: int): Option<(Captured, Bytes)> {
    if |s| < 16 then None
    else
      var sec, usec, len := Le32At(s, 0), Le32At(s, 4), Le32At(s, 8);
      if usec >= 1_000_000 || Le32At(s, 12) != len || len > snap || |s| < 16 + len then None
      else
        var c := ReadFrame(s[16..16 + len], sec * 1_000_000 + usec);
        if c.None? then None else Some((c.value, s[16 + len..]))
  }

  function ReadRecords(s: Bytes, snap: int): Option<seq<Captured>>
    decreases |s|
  {
    if s == [] then Some([])
    else
      var first := ReadRecord(s, snap);
      if first.None? then None
      else
        var more := ReadRecords(first.value.1, snap);
        if more.None? then None else Some([first.value.0] + more.value)
  }

  /** Little-endian with microseconds, version 2.4, UTC, Ethernet. */
  predicate IsGlobalHeader(h: Bytes) {
    && |h| == 24 && Le32At(h, 0) == 0xA1B2_C3D4 && h[4..8] == [2, 0, 4, 0]
    && Le32At(h, 8) == 0 && Le32At(h, 12) == 0 && Le32At(h, 20) == 1
  }

  /** A reader that keeps to the snapshot length the file declares. */
  function ReadPcap(file: Bytes): Option<seq<Captured>> {
    if |file| < 24 || !IsGlobalHeader(file[..24]) then None else ReadRecords(file[24..], Le32At(file, 16))
  }

  /** A reader that does not look at the declared snapshot length. */
  function ReadPcapAnyLength(file: Bytes): Option<seq<Captured>> {
    if |file| < 24 || !IsGlobalHeader(file[..24]) then None else ReadRecords(file[24..], 0x1_0000_0000)
  }

  // ----- the reader gets the rows back -----

  /** The address a label stands for: its own, its name's, or 0.0.0.0 when there is
      none. */
  function AddressOf(names: map<string, Addr>, l: Label): Addr {
    if l.Raw? && (l.addr.V4? || l.addr.V6?) then l.addr
    else if l.Name? && l.name in names then names[l.name]
    else V4([0, 0, 0, 0])
  }

  /** The port of a label that is one, and else that of SIP. */
  function PortOf(p: PortLabel): int {
    if p.None? || p.value < 0 || p.value > 65535 then 5060 else p.value
  }

  /** What a row should be read back as; an IPv6 address, or a payload that one datagram
      does not hold, cannot be represented. */
  function CapturedOf(names: map<string, Addr>, r: Row): Option<Captured> {
    var src, dst := AddressOf(names, r.src), AddressOf(names, r.dst);
    if src.V4? && dst.V4? && |r.payload| <= 65_507 then
      Some(Captured((if r.tsNs < 0 then 0 else r.tsNs) / 1000, src.octets, dst.octets, PortOf(r.srcPort), PortOf(r.dstPort), r.payload))
    else None
  }

  function AllCaptured(names: map<string, Addr>, rows: seq<Row>): seq<Captured> {
    if rows == [] then []
    else
      var n := |rows| - 1;
      var c := CapturedOf(names, rows[n]);
      AllCaptured(names, rows[..n]) + if c.Some? then [c.value] else []
  }

  lemma Le32ReadsBack(n: int)
    requires 0 <= n < 0x1_0000_0000
    ensures |Le32(n)| == 4 && Le32At(Le32(n), 0) == n
  {
  }

  lemma Le32AtPart(a: Bytes, b: Bytes, c: Bytes)
    requires |b| == 4
    ensures Le32At(a + b + c, |a|) == Le32At(b, 0)
  {
  }

  lemma RecordHeaderReads(sec: int, usec: int, len: int, rest: Bytes)
    requires 0 <= sec < 0x1_0000_0000 && 0 <= usec < 1_000_000 && 0 <= len < 0x1_0000_0000
    ensures var s := RecordHeader(sec, usec, len) + rest;
            Le32At(s, 0) == sec && Le32At(s, 4) == usec && Le32At(s, 8) == len && Le32At(s, 12) == len
  {
    var a, b, c := Le32(sec), Le32(usec), Le32(len);
    Le32ReadsBack(sec);
    Le32ReadsBack(usec);
    Le32ReadsBack(len);
    var s := RecordHeader(sec, usec, len) + rest;
    assert s == [] + a + (b + c + c + rest);
    Le32AtPart([], a, b + c + c + rest);
    assert s == a + b + (c + c + rest);
    Le32AtPart(a, b, c + c + rest);
    assert s == (a + b) + c + (c + rest);
    Le32AtPart(a + b, c, c + rest);
    assert s == (a + b + c) + c + rest;
    Le32AtPart(a + b + c, c, rest);
  }

  lemma HeaderFields(src: Bytes, dst: Bytes, totalLen: int)
    requires |src| == 4 && |dst| == 4 && 0 <= totalLen < 0x1_0000
    ensures var h := WithChecksum(IpHeader(src, dst, totalLen));
            && |h| == 20 && h[0] == 0x45 && h[9] == 17 && Be16At(h, 2) == totalLen
            && h[12..16] == src && h[16..20] == dst && OnesSum(h) == 0xFFFF
  {
    var z := IpHeader(src, dst, totalLen);
    assert z[12..16] == src && z[16..20] == dst;
    var h := WithChecksum(z);
    assert h[12..16] == z[12..16] && h[16..20] == z[16..20];
    ChecksumMakesAllOnes(z, 10);
    assert h == z[..10] + Be16(Checksum(z)) + z[10 + 2..];
  }

  lemma FrameReads(src: Bytes, dst: Bytes, srcPort: int, dstPort: int, payload: Bytes, micros: nat)
    requires |src| == 4 && |dst| == 4 && 0 <= srcPort <= 65535 && 0 <= dstPort <= 65535
    requires |payload| <= MAX_UDP_PAYLOAD
    ensures ReadFrame(Frame(src, dst, srcPort, dstPort, payload), micros)
            == Some(Captured(micros, src, dst, srcPort, dstPort, payload))
  {
    var h := WithChecksum(IpHeader(src, dst, 28 + |payload|));
    var u := UdpHeader(srcPort, dstPort, 8 + |payload|);
    HeaderFields(src, dst, 28 + |payload|);
    var f := Frame(src, dst, srcPort, dstPort, payload);
    assert f == ETH_HEADER + h + u + payload;
    assert f[14..34] == h && f[34..42] == u && f[42..] == payload;
    assert f[26..30] == h[12..16] && f[30..34] == h[16..20];
    assert Be16At(f, 16) == Be16At(h, 2);
    assert Be16At(f, 34) == Be16At(u, 0) && Be16At(f, 36) == Be16At(u, 2) && Be16At(f, 38) == Be16At(u, 4);
    assert f[14] == h[0] && f[23] == h[9];
  }

  /** The bytes that carry nothing of the row: no hardware addresses, no type of service,
      no identification, not a fragment, 64 hops to live, and no UDP checksum, which RFC 768
      allows. */
  lemma FrameSaysNoMore(src: Bytes, dst: Bytes, srcPort: int, dstPort: int, payload: Bytes)
    requires |src| == 4 && |dst| == 4 && 0 <= srcPort <= 65535 && 0 <= dstPort <= 65535
    requires |payload| <= MAX_UDP_PAYLOAD
    ensures var f := Frame(src, dst, srcPort, dstPort, payload);
            && f[..12] == [0, 0, 0, 0, 0, 0, 0, 0, 0, 0, 0, 0] && f[12..14] == [8, 0]
            && f[14..16] == [0x45, 0] && f[18..24] == [0, 0, 0, 0, 64, 17] && f[40..42] == [0, 0]
  {
    var z := IpHeader(src, dst, 28 + |payload|);
    var h := WithChecksum(z);
    var u := UdpHeader(srcPort, dstPort, 8 + |payload|);
    var f := Frame(src, dst, srcPort, dstPort, payload);
    assert f == ETH_HEADER + h + u + payload;
    assert f[14..34] == h && f[34..42] == u;
    assert h[0..2] == z[0..2] && h[4..10] == z[4..10];
    assert f[14..16] == h[0..2] && f[18..24] == h[4..10] && f[40..42] == u[6..8];
    assert f[..12] == ETH_HEADER[..12] && f[12..14] == ETH_HEADER[12..14];
  }

  lemma HeaderThenFrameReads(sec: int, usec: int, f: Bytes, c: Captured, rest: Bytes, snap: int)
    requires 0 <= sec < 0x1_0000_0000 && 0 <= usec < 1_000_000 && |f| < 0x1_0000_0000
    requires ReadFrame(f, sec * 1_000_000 + usec) == Some(c)
    ensures ReadRecord(RecordHeader(sec, usec, |f|) + f + rest, snap) == if |f| <= snap then Some((c, rest)) else None
  {
    RecordHeaderReads(sec, usec, |f|, f + rest);
    var h := RecordHeader(sec, usec, |f|);
    var s := h + (f + rest);
    assert h + f + rest == s;
    assert s[16..16 + |f|] == f && s[16 + |f|..] == rest;
  }

  lemma {:induction false} BuiltReads(src: Bytes, dst: Bytes, srcPort: int, dstPort: int, payload: Bytes, tsNs: int, rest: Bytes, snap: int)
    requires |src| == 4 && |dst| == 4 && 0 <= srcPort <= 65535 && 0 <= dstPort <= 65535
    requires |payload| <= MAX_UDP_PAYLOAD && tsNs / 1_000_000_000 < 0x1_0000_0000
    ensures var p := BuildPacket(V4(src), V4(dst), srcPort, dstPort, payload, tsNs);
            p.Record? && p.bytes != []
            && ReadRecord(p.bytes + rest, snap)
               == if 42 + |payload| <= snap then Some((Captured(Micros(tsNs), src, dst, srcPort, dstPort, payload), rest)) else None
  {
    var ns := if tsNs > 0 then tsNs else 0;
    MicrosSplit(ns);
    var f := Frame(src, dst, srcPort, dstPort, payload);
    FrameReads(src, dst, srcPort, dstPort, payload, Micros(tsNs));
    HeaderThenFrameReads(ns / 1_000_000_000, ns % 1_000_000_000 / 1000, f,
                         Captured(Micros(tsNs), src, dst, srcPort, dstPort, payload), rest, snap);
  }

  /** The length of a captured packet's frame. */
  function FrameLength(c: Captured): nat {
    42 + |c.payload|
  }

  /** These bytes, whatever follows them, read as this packet, unless it is too long. */
  ghost predicate ReadsAs(b: Bytes, c: Captured, snap: int) {
    b != [] && forall rest: Bytes :: ReadRecord(b + rest, snap) == if FrameLength(c) <= snap then Some((c, rest)) else None
  }

  /** What the writer resolves and clamps is what should be read back. */
  lemma CapturedIs(names: map<string, Addr>, r: Row)
    ensures var src, dst := ResolveIp(names, r.src), ResolveIp(names, r.dst);
            CapturedOf(names, r)
            == if src.V4? && dst.V4? && |r.payload| <= MAX_UDP_PAYLOAD then
                 Some(Captured(Micros(r.tsNs), src.octets, dst.octets, SanePort(r.srcPort), SanePort(r.dstPort), r.payload))
               else None
  {
  }

  lemma {:induction false} RecordReads(names: map<string, Addr>, r: Row, snap: int)
    requires GoodNames(names) && GoodRow(r)
    ensures PacketOf(names, r).Skipped? <==> CapturedOf(names, r).None?
    ensures PacketOf(names, r).Record? ==> ReadsAs(PacketOf(names, r).bytes, CapturedOf(names, r).value, snap)
  {
    var src, dst := ResolveIp(names, r.src), ResolveIp(names, r.dst);
    var p := PacketOf(names, r);
    CapturedIs(names, r);
    if p.Record? {
      var c := CapturedOf(names, r).value;
      BuiltReads(src.octets, dst.octets, SanePort(r.srcPort), SanePort(r.dstPort), r.payload, r.tsNs, [], snap);
      forall rest: Bytes
        ensures ReadRecord(p.bytes + rest, snap) == if FrameLength(c) <= snap then Some((c, rest)) else None
      {
        BuiltReads(src.octets, dst.octets, SanePort(r.srcPort), SanePort(r.dstPort), r.payload, r.tsNs, rest, snap);
      }
    }
  }

  lemma MicrosSplit(ns: nat)
    ensures ns / 1_000_000_000 * 1_000_000 + ns % 1_000_000_000 / 1000 == ns / 1000
    ensures 0 <= ns % 1_000_000_000 / 1000 < 1_000_000
  {
  }

  function Flatten(bs: seq<Bytes>): Bytes {
    if bs == [] then [] else bs[0] + Flatten(bs[1..])
  }

  lemma {:induction false} FlattenOneMore(bs: seq<Bytes>, b: Bytes)
    ensures Flatten(bs + [b]) == Flatten(bs) + b
  {
    if bs == [] {
      assert [b][1..] == [];
    } else {
      assert (bs + [b])[1..] == bs[1..] + [b];
      FlattenOneMore(bs[1..], b);
    }
  }

  lemma ReadFirst(b: Bytes, rest: Bytes, c: Captured, snap: int)
    requires ReadsAs(b, c, snap)
    ensures ReadRecords(b + rest, snap)
            == if FrameLength(c) > snap || ReadRecords(rest, snap).None? then None else Some([c] + ReadRecords(rest, snap).value)
  {
  }

  ghost predicate AllReadAs(bs: seq<Bytes>, cs: seq<Captured>, snap: int) {
    |bs| == |cs| && forall i | 0 <= i < |bs| :: ReadsAs(bs[i], cs[i], snap)
  }

  /** No packet is longer than `snap`. */
  predicate AllShort(cs: seq<Captured>, snap: int) {
    forall i | 0 <= i < |cs| :: FrameLength(cs[i]) <= snap
  }

  lemma ShortByFirst(cs: seq<Captured>, snap: int)
    requires cs != []
    ensures AllShort(cs, snap) <==> FrameLength(cs[0]) <= snap && AllShort(cs[1..], snap)
  {
    assert forall i | 1 <= i < |cs| :: cs[i] == cs[1..][i - 1];
    assert forall i | 0 <= i < |cs| - 1 :: cs[1..][i] == cs[i + 1];
  }

  lemma ShortByLast(cs: seq<Captured>, c: Captured, snap: int)
    ensures AllShort(cs + [c], snap) <==> AllShort(cs, snap) && FrameLength(c) <= snap
  {
    assert forall i | 0 <= i < |cs| :: (cs + [c])[i] == cs[i];
    assert (cs + [c])[|cs|] == c;
  }

  lemma TailReadsAs(bs: seq<Bytes>, cs: seq<Captured>, snap: int)
    requires AllReadAs(bs, cs, snap) && bs != []
    ensures ReadsAs(bs[0], cs[0], snap) && AllReadAs(bs[1..], cs[1..], snap)
  {
  }

  lemma OneMoreReadsAs(bs: seq<Bytes>, cs: seq<Captured>, b: Bytes, c: Captured, snap: int)
    requires AllReadAs(bs, cs, snap) && ReadsAs(b, c, snap)
    ensures AllReadAs(bs + [b], cs + [c], snap)
  {
  }

  /** Records one after the other read as their packets if none is too long, and not at
      all if one is. */
  lemma {:induction false} FlatReads(bs: seq<Bytes>, cs: seq<Captured>, snap: int)
    requires AllReadAs(bs, cs, snap)
    ensures ReadRecords(Flatten(bs), snap) == if AllShort(cs, snap) then Some(cs) else None
  {
    if bs != [] {
      TailReadsAs(bs, cs, snap);
      FlatReads(bs[1..], cs[1..], snap);
      ReadFirst(bs[0], Flatten(bs[1..]), cs[0], snap);
      ShortByFirst(cs, snap);
      assert [cs[0]] + cs[1..] == cs;
    }
  }

  lemma RecordAppended(bs: seq<Bytes>, b: Bytes)
    ensures GLOBAL_HEADER + Flatten(bs) + b == GLOBAL_HEADER + Flatten(bs + [b])
  {
    FlattenOneMore(bs, b);
    assert GLOBAL_HEADER + Flatten(bs) + b == GLOBAL_HEADER + (Flatten(bs) + b);
  }

  /** The file is its header and one record for every representable row. */
  lemma {:induction false} FileIsItsRecords(names: map<string, Addr>, rows: seq<Row>, snap: int) returns (bs: seq<Bytes>)
    requires GoodNames(names) && forall i | 0 <= i < |rows| :: GoodRow(rows[i])
    requires Pcap(names, rows).Ok?
    ensures var f, cs := Pcap(names, rows).value, AllCaptured(names, rows);
            && f.bytes == GLOBAL_HEADER + Flatten(bs)
            && AllReadAs(bs, cs, snap) && |cs| == f.packets && f.packets + f.skipped == |rows|
  {
    bs := [];
    if rows == [] {
      assert GLOBAL_HEADER + [] == GLOBAL_HEADER;
    } else {
      var init, last := rows[..|rows| - 1], rows[|rows| - 1];
      var p, c := PacketOf(names, last), CapturedOf(names, last);
      bs := FileIsItsRecords(names, init, snap);
      RecordReads(names, last, snap);
      if p.Record? {
        OneMoreReadsAs(bs, AllCaptured(names, init), p.bytes, c.value, snap);
        RecordAppended(bs, p.bytes);
        bs := bs + [p.bytes];
      } else {
        assert AllCaptured(names, init) + [] == AllCaptured(names, init);
      }
    }
  }

  lemma HeaderIsGood()
    ensures IsGlobalHeader(GLOBAL_HEADER)
  {
  }

  lemma AfterHeader(rest: Bytes)
    ensures (GLOBAL_HEADER + rest)[..24] == GLOBAL_HEADER && (GLOBAL_HEADER + rest)[24..] == rest
    ensures Le32At(GLOBAL_HEADER + rest, 16) == 65_535
  {
  }

  lemma ReaderStarts(rest: Bytes)
    ensures ReadPcap(GLOBAL_HEADER + rest) == ReadRecords(rest, 65_535)
    ensures ReadPcapAnyLength(GLOBAL_HEADER + rest) == ReadRecords(rest, 0x1_0000_0000)
  {
    HeaderIsGood();
    AfterHeader(rest);
  }

  /** Every representable row's frame fits the declared snapshot length. */
  ghost predicate AllFit(names: map<string, Addr>, rows: seq<Row>) {
    forall i | 0 <= i < |rows| :: CapturedOf(names, rows[i]).Some? ==> |rows[i].payload| <= 65_493
  }

  lemma {:induction false} FitMeans(names: map<string, Addr>, rows: seq<Row>)
    ensures AllShort(AllCaptured(names, rows), SNAP_LENGTH) <==> AllFit(names, rows)
    ensures AllShort(AllCaptured(names, rows), 0x1_0000_0000)
  {
    if rows != [] {
      var init, last := rows[..|rows| - 1], rows[|rows| - 1];
      var c := CapturedOf(names, last);
      FitMeans(names, init);
      FitByLast(names, rows);
      if c.Some? {
        ShortByLast(AllCaptured(names, init), c.value, SNAP_LENGTH);
        ShortByLast(AllCaptured(names, init), c.value, 0x1_0000_0000);
      } else {
        assert AllCaptured(names, init) + [] == AllCaptured(names, init);
      }
    }
  }

  lemma FitByLast(names: map<string, Addr>, rows: seq<Row>)
    requires rows != []
    ensures var init, last := rows[..|rows| - 1], rows[|rows| - 1];
            AllFit(names, rows)
            <==> AllFit(names, init) && (CapturedOf(names, last).Some? ==> |last.payload| <= 65_493)
  {
    var init := rows[..|rows| - 1];
    assert forall i | 0 <= i < |init| :: init[i] == rows[i];
  }

  /** Reading the written file gives back, in order, the time, addresses, ports and
      payload of every representable row, and the counts say how many those are: for
      every row up to 65 507 bytes if the reader overlooks the declared snapshot
      length, and if it keeps to it exactly when all are at most 65 493 bytes. */
  lemma {:induction false} PcapReadsBackIffItFits(names: map<string, Addr>, rows: seq<Row>)
    requires GoodNames(names) && forall i | 0 <= i < |rows| :: GoodRow(rows[i])
    requires Pcap(names, rows).Ok?
    ensures var f, cs := Pcap(names, rows).value, AllCaptured(names, rows);
            && f.packets == |cs| && f.packets + f.skipped == |rows|
            && ReadPcapAnyLength(f.bytes) == Some(cs)
            && ReadPcap(f.bytes) == (if AllFit(names, rows) then Some(cs) else None)
  {
    var cs := AllCaptured(names, rows);
    var strict := FileIsItsRecords(names, rows, SNAP_LENGTH);
    ReaderStarts(Flatten(strict));
    FlatReads(strict, cs, SNAP_LENGTH);
    var lax := FileIsItsRecords(names, rows, 0x1_0000_0000);
    ReaderStarts(Flatten(lax));
    FlatReads(lax, cs, 0x1_0000_0000);
    FitMeans(names, rows);
  }

  /** One row of 65 494 bytes is written, counted as a packet, and refused by a reader
      that keeps to the file's own header. */
  lemma OneByteTooLong(r: Row)
    requires r.src == Raw(V4([10, 0, 0, 1])) && r.dst == Raw(V4([10, 0, 0, 2]))
    requires r.tsNs == 0 && |r.payload| == 65_494
    ensures Pcap(map[], [r]).Ok? && Pcap(map[], [r]).value.packets == 1 && ReadPcap(Pcap(map[], [r]).value.bytes) == None
  {
    assert [r][..0] == [];
    assert Pcap(map[], [r][..0]) == Ok(File(GLOBAL_HEADER, 0, 0));
    assert CapturedOf(map[], [r][0]).Some?;
    FailsOnlyOnTime(map[], [r]);
    PcapReadsBackIffItFits(map[], [r]);
    assert AllCaptured(map[], [r]) == AllCaptured(map[], [r][..0]) + [CapturedOf(map[], r).value];
  }

  /** The export fails exactly when a representable row's time is past 2^32 seconds. */
  lemma {:induction false} FailsOnlyOnTime(names: map<string, Addr>, rows: seq<Row>)
    requires GoodNames(names) && forall i | 0 <= i < |rows| :: GoodRow(rows[i])
    ensures Pcap(names, rows).Err? <==>
      exists i :: 0 <= i < |rows| && CapturedOf(names, rows[i]).Some? && Micros(rows[i].tsNs) >= 0x1_0000_0000 * 1_000_000
  {
    if rows != [] {
      var n := |rows| - 1;
      FailsOnlyOnTime(names, rows[..n]);
      assert forall i | 0 <= i < n :: rows[..n][i] == rows[i];
      TimeFits(names, rows[n]);
    }
  }

  lemma TimeFits(names: map<string, Addr>, r: Row)
    requires GoodNames(names) && GoodRow(r)
    ensures PacketOf(names, r).TimeOverflow? <==> CapturedOf(names, r).Some? && Micros(r.tsNs) >= 0x1_0000_0000 * 1_000_000
  {
    var ns := if r.tsNs > 0 then r.tsNs else 0;
    assert ns / 1_000_000_000 >= 0x1_0000_0000 <==> ns / 1000 >= 0x1_0000_0000 * 1_000_000;
  }
}
